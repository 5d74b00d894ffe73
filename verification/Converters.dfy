/** The two converters side by side. */
module Converters {
  import opened Basics
  import opened Sectors
  import opened Reloc
  import opened RelocStream
  import opened Image
  import opened ElfImage
  import opened LoadTime
  import opened PyConverter
  import opened CConverter
  import opened PyLimits

  /** The kind, if there is one. */
  function KindOrNone(o: Outcome<Kind>): seq<Kind> {
    if o.Ok? then [o.value] else []
  }

  /** The two classifiers agree on a target, its addend apart, except in the gap
      before the data, in the gap before the bss, and where the data ends and the
      bss starts at once. */
  lemma ClassifiersAgree(target: nat, y: Layout, bssStart: nat)
    requires y.textSize <= y.dataVma && CodeEnd(y) <= bssStart <= CodeEnd(y) + y.bssSize
    ensures KindOrNone(ClassifyC(target, y))
         == KindOrNone(Classify(target, 0, y.dataVma, bssStart - y.dataVma, CodeEnd(y) + y.bssSize - bssStart))
      <==> !(y.textSize <= target < y.dataVma) && !(CodeEnd(y) < target < bssStart)
           && !(target == CodeEnd(y) == bssStart)
  {
  }

  /** Longs to be moved, one after the other, at even addresses, inside a program whose
      text and data end at an even address, with and without the gap before the bss. */
  predicate WellSpaced(e: Elf) {
    && (forall i, j :: 0 <= i < j < |e.relas| && Kept(e.relas[i]) && Kept(e.relas[j]) ==>
          e.relas[i].address + 4 <= e.relas[j].address)
    && (forall i :: 0 <= i < |e.relas| && Kept(e.relas[i]) ==>
          && e.relas[i].address % 2 == 0 && e.relas[i].address + 4 <= CodeEnd(LayoutOf(e))
          && CodeEnd(LayoutOf(e)) % 2 == 0 && Low(e) % 2 == 0)
  }

  /** The memory of the data segment ends where the last bss section does. */
  predicate MemoryFits(e: Elf) {
    e.data.address + e.data.memory == Limit(e) < WORD32
  }

  lemma LinkedAlike(e: Elf)
    requires InOrder(e) && MemoryFits(e)
    ensures Linked(e) == LinkedC(e)
  {
    LinkedIs(e);
    LowLimit(e);
    assert LayoutOf(e).bssSize == Limit(e) - DataEnd(e);
    var code := Extend(e.text.data, e.data.address) + e.data.data;
    assert Extend(code, Limit(e)) == code + Zeros(Limit(e) - |code|);
  }

  lemma SpacedSurvives(e: Elf)
    requires WellSpaced(e)
    ensures Survives(e)
  {
    hide Low, LayoutOf;
    forall k | k in KeptAt(e.relas) ensures k % 2 == 0 && k + 2 !in KeptAt(e.relas) && Low(e) % 2 == 0 {
      var i :| 0 <= i < |e.relas| && Kept(e.relas[i]) && e.relas[i].address == k;
      forall j | 0 <= j < |e.relas| && Kept(e.relas[j]) ensures e.relas[j].address != k + 2 {
        assert i < j || j <= i;
      }
    }
  }

  lemma {:induction false} FilteredHas(relas: seq<Rela>, i: nat)
    requires i < |relas| && KeptC(relas[i])
    ensures relas[i] in Filtered(relas)
    decreases |relas|
  {
    if i == |relas| - 1 {
    } else {
      FilteredHas(relas[..|relas| - 1], i);
    }
  }

  /** What the C converter keeps is where it was kept from. */
  lemma KeptAtCIs(e: Elf, k: nat)
    ensures k in KeptAtC(e) <==> exists i :: 0 <= i < |e.relas| && KeptC(e.relas[i]) && e.relas[i].address == k
  {
    if k in KeptAtC(e) {
      var i :| 0 <= i < |Filtered(e.relas)| && Filtered(e.relas)[i].address == k;
      FilteredFrom(e.relas, Filtered(e.relas)[i]);
    }
    if i :| 0 <= i < |e.relas| && KeptC(e.relas[i]) && e.relas[i].address == k {
      FilteredHas(e.relas, i);
      var j :| 0 <= j < |Filtered(e.relas)| && Filtered(e.relas)[j] == e.relas[i];
      assert Filtered(e.relas)[j].address == k;
    }
  }

  lemma {:induction false} FilteredApart(relas: seq<Rela>)
    requires forall i, j :: 0 <= i < j < |relas| && Kept(relas[i]) && Kept(relas[j]) ==>
      relas[i].address + 4 <= relas[j].address
    ensures var kept := Filtered(relas);
      forall i, j :: 0 <= i < j < |kept| ==> kept[i].address + 4 <= kept[j].address
    decreases |relas|
  {
    if relas == [] {
    } else {
      var front, r := relas[..|relas| - 1], relas[|relas| - 1];
      FilteredApart(front);
      forall i | 0 <= i < |Filtered(front)| && KeptC(r) ensures Filtered(front)[i].address + 4 <= r.address {
        FilteredFrom(front, Filtered(front)[i]);
      }
    }
  }

  /** Words one after the other are all in front. */
  lemma AllInFront(words: seq<nat>, size: nat)
    requires forall j :: 0 <= j < |words| ==> IsPacked(words[j])
    requires forall i, j :: 0 <= i < j < |words| ==> OffsetOf(words[i]) + 4 <= OffsetOf(words[j])
    requires forall j :: 0 <= j < |words| ==> OffsetOf(words[j]) % 2 == 0 && OffsetOf(words[j]) + 4 <= size
    ensures Front(words) == words && Spaced(words, size)
  {
    hide OffsetOf;
    if words != [] {
      OffsetFits(words[|words| - 1]);
    }
    assert Ordered(words);
  }

  lemma SpacedSurvivesC(e: Elf)
    requires In32(e.relas) && AcceptsC(e) && WellSpaced(e)
    ensures SurvivesC(e)
  {
    var words, kept := WordsIn(e), Filtered(e.relas);
    FilteredIsKept(e.relas, LayoutOf(e));
    FilteredApart(e.relas);
    forall j | 0 <= j < |words|
      ensures OffsetOf(words[j]) == kept[j].address && OffsetOf(words[j]) % 2 == 0
      ensures OffsetOf(words[j]) + 4 <= CodeEnd(LayoutOf(e)) && CodeEnd(LayoutOf(e)) % 2 == 0
    {
      FilteredFrom(e.relas, kept[j]);
    }
    hide AcceptsC, Filtered, WordOf, AcceptC, WellSpaced, OffsetOf, TypeOf, IsPacked, LayoutOf, Front, PlacesOf, Spaced;
    AllInFront(words, CodeEnd(LayoutOf(e)));
    WordsAt(e);
    forall k | k in KeptAtC(e) ensures k in PlacesOf(words) {
      var j :| 0 <= j < |kept| && kept[j].address == k;
      PlacesHave(words, j);
    }
    assert PlacesOf(words).Keys == KeptAtC(e);
  }

  /** A relocation that only the Python converter keeps. */
  predicate WeakKept(e: Elf) {
    exists i :: 0 <= i < |e.relas| && Kept(e.relas[i]) && WeakNull(e.relas[i])
  }

  /** Without one the two keep the same. */
  lemma KeptAlike(e: Elf)
    requires !WeakKept(e)
    ensures KeptAt(e.relas) == KeptAtC(e)
  {
    hide KeptAtC;
    forall k: nat ensures k in KeptAt(e.relas) <==> k in KeptAtC(e) {
      KeptAtCIs(e, k);
      if k in KeptAt(e.relas) {
        var i :| 0 <= i < |e.relas| && Kept(e.relas[i]) && e.relas[i].address == k;
        assert KeptC(e.relas[i]);
      }
    }
  }

  /** The long of such a relocation is one that the C converter leaves alone. */
  lemma WeakIsOutside(e: Elf, i: nat, p: nat)
    requires WellSpaced(e) && i < |e.relas| && Kept(e.relas[i]) && WeakNull(e.relas[i])
    requires e.relas[i].address <= p < e.relas[i].address + 4
    ensures Outside(p, KeptAtC(e))
  {
    hide KeptAtC, LayoutOf, Low;
    forall k | k in KeptAtC(e) ensures !(k <= p < k + 4) {
      KeptAtCIs(e, k);
      var j :| 0 <= j < |e.relas| && KeptC(e.relas[j]) && e.relas[j].address == k;
      assert i < j || j < i;
    }
  }

  lemma NothingMoves(orig: seq<byte>, mem: seq<byte>, at: set<nat>, base: nat)
    requires base % WORD32 == 0 && Moved(mem, orig, at, base)
    ensures mem == orig
  {
    hide Get32;
    forall k | k in at ensures Get32(orig, k) == (Get32(orig, k) + base) % WORD32 {
      Remainder(Get32(orig, k) + base, base / WORD32, Get32(orig, k), WORD32);
    }
    MovedIsUnique(mem, orig, orig, at, base);
  }

  /** The two programs in memory are the same if and only if nothing is moved, or nothing
      was kept by one converter alone. */
  lemma MovedAlike(e: Elf, orig: seq<byte>, py: seq<byte>, c: seq<byte>, base: nat)
    requires WellSpaced(e) && Moved(py, orig, KeptAt(e.relas), base) && Moved(c, orig, KeptAtC(e), base)
    ensures py == c <==> base % WORD32 == 0 || !WeakKept(e)
  {
    hide Get32, KeptAtC, WellSpaced;
    if base % WORD32 == 0 {
      NothingMoves(orig, py, KeptAt(e.relas), base);
      NothingMoves(orig, c, KeptAtC(e), base);
    } else if !WeakKept(e) {
      KeptAlike(e);
      MovedIsUnique(py, c, orig, KeptAtC(e), base);
    } else {
      var i :| 0 <= i < |e.relas| && Kept(e.relas[i]) && WeakNull(e.relas[i]);
      var k := e.relas[i].address;
      assert k in KeptAt(e.relas);
      forall p | k <= p < k + 4 ensures c[p] == orig[p] {
        WeakIsOutside(e, i, p);
      }
      Unmoved(c, orig, k);
      Changes(Get32(orig, k), base, WORD32);
    }
  }

  lemma Unmoved(mem: seq<byte>, orig: seq<byte>, k: nat)
    requires k + 4 <= |mem| == |orig| && forall p :: k <= p < k + 4 ==> mem[p] == orig[p]
    ensures Get32(mem, k) == Get32(orig, k)
  {
  }

  /** Both converters on a program they both take: what they make of it is the same
      program at every base, unless there is a reference to an undefined weak symbol, and
      then at no base at all but multiples of 2^32. */
  method Compare(e: Elf, source: seq<byte>, textOffset: nat, dataOffset: nat)
    returns (py: Outcome<seq<byte>>, c: Outcome<seq<byte>>)
    requires Convertible(e) && In32(e.relas) && AcceptsC(e) && WellSpaced(e) && MemoryFits(e)
    requires textOffset + |e.text.data| <= |source| && dataOffset + |e.data.data| <= |source|
    requires source[textOffset..textOffset + |e.text.data|] == e.text.data
    requires source[dataOffset..dataOffset + |e.data.data|] == e.data.data
    ensures py.Ok? && c.Ok?
    ensures forall base: nat :: Launch(py.value, base).Ok? && Launch(c.value, base).Ok?
    ensures forall base: nat ::
      Launch(py.value, base) == Launch(c.value, base) <==> base % WORD32 == 0 || !WeakKept(e)
  {
    SpacedSurvives(e);
    SpacedSurvivesC(e);
    Sizes(e);
    hide Convertible, AcceptsC, WellSpaced, Survives, SurvivesC, PyImage, FitsHeader, Launch, Load, FileOf, Moved, In32;
    hide KeptAt, KeptAtC, Linked, LinkedC, WeakKept, MemoryFits;
    py := Convert(e);
    c := ConvertC(e, source, textOffset, dataOffset);
    forall base: nat
      ensures Launch(py.value, base).Ok? && Launch(c.value, base).Ok?
      ensures Launch(py.value, base) == Launch(c.value, base) <==> base % WORD32 == 0 || !WeakKept(e)
    {
      assert RunsAt(py.value, e, base) && RunsAtC(c.value, e, base);
      MovedAlike(e, Linked(e), Launch(py.value, base).value, Launch(c.value, base).value, base);
    }
  }

  lemma Sizes(e: Elf)
    requires Convertible(e) && MemoryFits(e)
    ensures FitsHeader(PyImage(e)) && CodeEnd(LayoutOf(e)) < WORD32 && Linked(e) == LinkedC(e)
  {
    LowLimit(e);
    LinkedAlike(e);
  }

  lemma ZeroProgramIsAccepted(size: nat, at: seq<nat>, weak: bool)
    requires size < WORD32 && |at| < MAX_RELOCS && forall i :: 0 < i < |at| ==> at[i - 1] <= at[i]
    requires forall a :: a in at ==> a + 4 <= size && a < TYPE_UNIT
    ensures var e := ZeroProgram(size, at, weak);
      && In32(e.relas) && AcceptsC(e) && MemoryFits(e) && LayoutOf(e) == Layout(size, size, 0, 0)
      && Filtered(e.relas) == if weak then [] else e.relas
  {
    hide Filtered, AcceptC, Limit;
    ZeroParts(size, at, weak);
    ZeroRelas(size, at, weak);
  }

  lemma ZeroParts(size: nat, at: seq<nat>, weak: bool)
    requires size < WORD32
    ensures var e := ZeroProgram(size, at, weak);
      MemoryFits(e) && LayoutOf(e) == Layout(size, size, 0, 0)
  {
  }

  lemma ZeroRelas(size: nat, at: seq<nat>, weak: bool)
    requires forall a :: a in at ==> a + 4 <= size && a < TYPE_UNIT
    ensures var relas, y := ZeroProgram(size, at, weak).relas, Layout(size, size, 0, 0);
      && |relas| == |at| && Filtered(relas) == (if weak then [] else relas)
      && forall i :: 0 <= i < |at| ==> relas[i].address == at[i] < TYPE_UNIT && AcceptC(relas[i], y)
  {
    hide Filtered;
    var relas := ZeroProgram(size, at, weak).relas;
    if weak {
      NoneKept(relas);
    } else {
      AllAreKept(relas);
    }
    forall i | 0 <= i < |at| ensures relas[i].address < TYPE_UNIT && AcceptC(relas[i], Layout(size, size, 0, 0)) {
      assert at[i] in at;
    }
  }

  lemma {:induction false} NoneKept(relas: seq<Rela>)
    requires forall i :: 0 <= i < |relas| ==> !KeptC(relas[i])
    ensures Filtered(relas) == []
    decreases |relas|
  {
    if relas == [] {
    } else {
      NoneKept(relas[..|relas| - 1]);
    }
  }

  lemma {:induction false} AllAreKept(relas: seq<Rela>)
    requires forall i :: 0 <= i < |relas| ==> KeptC(relas[i])
    ensures Filtered(relas) == relas
    decreases |relas|
  {
    if relas == [] {
    } else {
      AllAreKept(relas[..|relas| - 1]);
    }
  }

  /** A program of one pointer to an undefined weak symbol, which is null. */
  const WEAK: Elf := ZeroProgram(4, [0], true)

  lemma WeakIsSpaced()
    requires LayoutOf(WEAK) == Layout(4, 4, 0, 0) && Low(WEAK) == 4
    ensures WellSpaced(WEAK) && WeakKept(WEAK)
  {
    assert Kept(WEAK.relas[0]) && WeakNull(WEAK.relas[0]);
    hide LayoutOf, Low;
  }

  /** The Python converter moves that pointer, and the C converter leaves it null. */
  method WeakReference() returns (py: seq<byte>, c: seq<byte>)
    ensures Launch(py, 0x1_0000) != Launch(c, 0x1_0000)
  {
    hide Launch, Convertible, AcceptsC, WellSpaced, MemoryFits, In32, WeakKept;
    ZeroProgramConverts(4, [0], true);
    ZeroProgramIsAccepted(4, [0], true);
    WeakIsSpaced();
    var a, b := Compare(WEAK, Zeros(4), 0, 0);
    py, c := a.value, b.value;
    assert 0x1_0000 % WORD32 != 0;
  }

  const TWO: Elf := ZeroProgram(8, [0, 2], false)

  /** Sorted is not enough for the C converter: of two pointers two bytes apart it loses
      the second. */
  lemma PairIsLost()
    ensures In32(TWO.relas) && AcceptsC(TWO) && !SurvivesC(TWO)
  {
    ZeroProgramIsAccepted(8, [0, 2], false);
    FilteredIsKept(TWO.relas, LayoutOf(TWO));
    var words := WordsIn(TWO);
    assert |words| == 2 && OffsetOf(words[0]) == 0 && OffsetOf(words[1]) == 2;
    hide AcceptsC, WordsIn, OffsetOf, IsPacked, KeptAtC, LayoutOf;
    KeptAtCIs(TWO, 2);
    assert KeptC(TWO.relas[1]);
    PairInFront(words);
    OnePlace(words[0]);
  }

  lemma OnePlace(w: nat)
    requires IsPacked(w) && OffsetOf(w) == 0
    ensures 2 !in PlacesOf([w])
  {
    hide IsPacked, OffsetOf, TypeOf;
    assert [w][..0] == [];
    assert PlacesOf([w]).Keys == {0};
  }

  lemma PairInFront(words: seq<nat>)
    requires |words| == 2 && OffsetOf(words[0]) == 0 && OffsetOf(words[1]) == 2
    ensures Front(words) == [words[0]]
  {
    hide OffsetOf;
    assert !Ordered(words) && words[..1] == [words[0]];
    assert Ordered([words[0]]);
  }
}
