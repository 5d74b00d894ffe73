/** The other writer of relocation tables: it packs each relocation into 32 bits and
    writes the table front to back, counting zeros in 32-bit arithmetic. */
module RelocStream {
  import opened Basics
  import opened Sectors
  import opened Reloc

  const TYPE_UNIT: nat := 0x1000_0000

  /** `offset | type << 28`, for an offset with bits 28 and 29 clear. */
  function Pack(offset: nat, kind: Kind): (w: nat)
    requires offset < WORD32 && (offset / TYPE_UNIT) % 4 == 0
    ensures w < WORD32
  {
    offset + Code(kind) * TYPE_UNIT
  }

  function TypeOf(w: nat): nat {
    (w / TYPE_UNIT) % 4
  }

  function OffsetOf(w: nat): nat {
    w - TypeOf(w) * TYPE_UNIT
  }

  lemma PackIsLossless(offset: nat, kind: Kind)
    requires offset < WORD32 && (offset / TYPE_UNIT) % 4 == 0
    ensures TypeOf(Pack(offset, kind)) == Code(kind) && OffsetOf(Pack(offset, kind)) == offset
  {
  }

  /** A packed relocation as the loader makes it. */
  predicate IsPacked(w: nat) {
    w < WORD32 && 1 <= TypeOf(w) <= 3
  }

  /** Even, each at least a long after the one before, the last inside `size`. */
  predicate Spaced(words: seq<nat>, size: nat) {
    Even(words) && Ordered(words) && End(words) <= size
  }

  /** The map the relocations stand for. */
  function PlacesOf(words: seq<nat>): Places
    requires forall j :: 0 <= j < |words| ==> IsPacked(words[j])
  {
    if words == [] then map[]
    else var w := words[|words| - 1];
      assert IsPacked(w);
      PlacesOf(words[..|words| - 1])[OffsetOf(w) := Place(KindOf(TypeOf(w)), true)]
  }

  method ZeroFill(out: seq<byte>, count: nat) returns (r: seq<byte>)
    ensures r == out + Zeros(count)
  {
    r := out;
    var left := count;
    assert out + Zeros(0) == out;
    while left > 0
      invariant 0 <= left <= count && r == out + Zeros(count - left)
    {
      assert Zeros(count - left) + [0] == Zeros(count - left + 1);
      r := r + [0];
      left := left - 1;
    }
  }

  /** Where the relocations end. */
  function End(words: seq<nat>): nat {
    if words == [] then 0 else OffsetOf(words[|words| - 1]) + 4
  }

  /** Relocations that follow one another and end inside 32 bits. */
  predicate Ordered(words: seq<nat>) {
    && (forall j :: 0 < j < |words| ==> OffsetOf(words[j - 1]) + 4 <= OffsetOf(words[j]))
    && End(words) < WORD32
  }

  predicate Even(words: seq<nat>) {
    forall j :: 0 <= j < |words| ==> OffsetOf(words[j]) % 2 == 0
  }

  /** What the stream holds while it is in step: the table so far, unless an odd
      offset has put a byte where no table has one. */
  ghost predicate Holds(out: seq<byte>, words: seq<nat>)
    requires forall j :: 0 <= j < |words| ==> IsPacked(words[j])
  {
    && (Even(words) ==> Filled(out, PlacesOf(words)))
    && (!Even(words) ==> exists p :: 0 <= p < |out| && p % 2 == 0 && out[p] != 0)
  }

  lemma FilledNext(out: seq<byte>, next: seq<byte>, places: Places, o: nat, kind: Kind)
    requires Filled(out, places) && o % 2 == 0 && |out| <= o
    requires forall q :: q in places ==> q + 4 <= |out| && places[q].wide
    requires next == out + Zeros(o - |out|) + [0, UPPER, 0, Code(kind)]
    ensures Filled(next, places[o := Place(kind, true)])
  {
    forall p | 0 <= p < |next|
      ensures next[p] == if p % 2 == 1 then WordFor(places[o := Place(kind, true)], p - 1) else 0
    {
      if p < |out| && p % 2 == 1 {
        assert WordFor(places[o := Place(kind, true)], p - 1) == WordFor(places, p - 1);
      }
    }
  }

  /** Going on in step: zeros up to the next relocation, a prefix word and its type. */
  lemma HoldsNext(out: seq<byte>, words: seq<nat>, w: nat, vma: nat)
    requires (forall j :: 0 <= j < |words| ==> IsPacked(words[j])) && IsPacked(w)
    requires Ordered(words) && vma == End(words) == |out| <= OffsetOf(w) && Holds(out, words)
    ensures Holds(out + Zeros(OffsetOf(w) - vma) + [0, UPPER, 0, TypeOf(w)], words + [w])
  {
    hide Filled, PlacesOf, Even, OffsetOf, TypeOf;
    var o, next := OffsetOf(w), out + Zeros(OffsetOf(w) - vma) + [0, UPPER, 0, TypeOf(w)];
    EvenNext(words, w);
    if Even(words + [w]) {
      PlacesNext(words, w);
      PlacesBelow(words);
      FilledNext(out, next, PlacesOf(words), o, KindOf(TypeOf(w)));
    } else if Even(words) {
      assert next[o + 1] == UPPER;
    } else {
      var p :| 0 <= p < |out| && p % 2 == 0 && out[p] != 0;
      assert next[p] == out[p];
    }
  }

  lemma EvenNext(words: seq<nat>, w: nat)
    ensures Even(words + [w]) <==> Even(words) && OffsetOf(w) % 2 == 0
  {
    assert forall j :: 0 <= j < |words| ==> words[j] == (words + [w])[j];
    assert (words + [w])[|words|] == w;
  }

  lemma PlacesNext(words: seq<nat>, w: nat)
    requires (forall j :: 0 <= j < |words| ==> IsPacked(words[j])) && IsPacked(w)
    ensures PlacesOf(words + [w]) == PlacesOf(words)[OffsetOf(w) := Place(KindOf(TypeOf(w)), true)]
  {
    assert (words + [w])[..|words|] == words;
  }

  lemma {:induction false} PlacesBelow(words: seq<nat>)
    requires (forall j :: 0 <= j < |words| ==> IsPacked(words[j])) && Ordered(words)
    ensures forall o :: o in PlacesOf(words) ==> o + 4 <= End(words) && PlacesOf(words)[o].wide
    decreases |words|
  {
    if words == [] {
    } else {
      PlacesBelow(words[..|words| - 1]);
    }
  }

  /** One more relocation is in order when it starts at or after the end. */
  lemma OrderedNext(words: seq<nat>, w: nat)
    ensures End(words + [w]) == OffsetOf(w) + 4
    ensures Ordered(words + [w]) <==> Ordered(words) && End(words) <= OffsetOf(w) && OffsetOf(w) + 4 < WORD32
  {
    assert forall j :: 0 <= j < |words| ==> (words + [w])[j] == words[j];
    if Ordered(words + [w]) && words != [] {
      assert OffsetOf((words + [w])[|words| - 1]) + 4 <= OffsetOf((words + [w])[|words|]);
    }
  }

  /** No place lies at or after the end. */
  lemma NothingAfter(words: seq<nat>, p: nat)
    requires (forall j :: 0 <= j < |words| ==> IsPacked(words[j])) && Ordered(words)
    requires End(words) <= p
    ensures WordFor(PlacesOf(words), p) == ABSOLUTE
    ensures p > 0 && p == End(words) ==> WordFor(PlacesOf(words), p - 1) == ABSOLUTE
  {
    hide Ordered, End, PlacesOf;
    PlacesBelow(words);
  }

  /** Zeros up to the end complete the table, if no offset was odd. */
  lemma HoldsAll(out: seq<byte>, words: seq<nat>, size: nat)
    requires (forall j :: 0 <= j < |words| ==> IsPacked(words[j])) && Ordered(words) && Holds(out, words)
    requires |out| == End(words) <= size
    ensures out + Zeros(size - |out|) == Encoded(PlacesOf(words), size) <==> Even(words)
  {
    hide Ordered, End, PlacesOf, Even, WordFor;
    var table := out + Zeros(size - |out|);
    if Even(words) {
      forall p | 0 <= p < size ensures table[p] == Encoded(PlacesOf(words), size)[p] {
        if |out| <= p && p % 2 == 1 {
          NothingAfter(words, if p == |out| then p else p - 1);
        }
      }
    } else {
      var p :| 0 <= p < |out| && p % 2 == 0 && out[p] != 0;
      assert table[p] != Encoded(PlacesOf(words), size)[p];
    }
  }

  /** The relocations up to the first that starts before the one before it ends. */
  function Front(words: seq<nat>): (f: seq<nat>)
    ensures f <= words && Ordered(f) && (Ordered(words) ==> f == words)
    decreases |words|
  {
    if Ordered(words) then words else Front(words[..|words| - 1])
  }

  lemma FrontNext(words: seq<nat>, w: nat)
    ensures !Ordered(words + [w]) ==> Front(words + [w]) == Front(words)
  {
    assert (words + [w])[..|words|] == words;
  }

  /** The first `size` bytes are the table of the relocations in `front`. */
  ghost predicate Covers(out: seq<byte>, front: seq<nat>, size: nat)
    requires forall j :: 0 <= j < |front| ==> IsPacked(front[j])
  {
    size <= |out| && (Spaced(front, size) ==> out[..size] == Encoded(PlacesOf(front), size))
  }

  /** Falling out of step: more zeros than the table is long. */
  lemma CoversStep(out: seq<byte>, words: seq<nat>, size: nat, n: nat, more: seq<byte>)
    requires (forall j :: 0 <= j < |words| ==> IsPacked(words[j])) && Ordered(words) && Holds(out, words)
    requires |out| == End(words) && size <= |out| + n
    ensures Covers(out + Zeros(n) + more, words, size)
  {
    hide Ordered, Even, PlacesOf, Encoded, Holds, End;
    if Spaced(words, size) {
      HoldsAll(out, words, size);
      assert (out + Zeros(n) + more)[..size] == out + Zeros(size - |out|);
    }
  }

  lemma CoversMore(out: seq<byte>, front: seq<nat>, size: nat, more: seq<byte>)
    requires (forall j :: 0 <= j < |front| ==> IsPacked(front[j])) && Covers(out, front, size)
    ensures Covers(out + more, front, size)
  {
    hide Ordered, Even, PlacesOf, Encoded, End, Spaced;
    assert (out + more)[..size] == out[..size];
  }

  /** One more relocation written. */
  lemma WrittenNext(out: seq<byte>, next: seq<byte>, words: seq<nat>, w: nat, vma: nat, size: nat)
    requires (forall j :: 0 <= j < |words| ==> IsPacked(words[j])) && IsPacked(w)
    requires vma < WORD32 && size < WORD32 && InStep(out, words, vma, size)
    requires next == out + Zeros((OffsetOf(w) - vma) % WORD32) + [0, UPPER, 0, TypeOf(w)]
    ensures InStep(next, words + [w], (OffsetOf(w) + 4) % WORD32, size)
  {
    hide Holds, Ordered, Even, Encoded, PlacesOf, Covers, End, Front, Spaced;
    OrderedNext(words, w);
    FrontNext(words, w);
    OffsetFits(w);
    Wraps(OffsetOf(w), vma);
    if |out| == vma {
      if vma <= OffsetOf(w) {
        HoldsNext(out, words, w, vma);
      } else {
        CoversStep(out, words, size, (OffsetOf(w) - vma) % WORD32, [0, UPPER, 0, TypeOf(w)]);
      }
    } else {
      CoversMore(out, Front(words), size, Zeros((OffsetOf(w) - vma) % WORD32) + [0, UPPER, 0, TypeOf(w)]);
      assert next == out + (Zeros((OffsetOf(w) - vma) % WORD32) + [0, UPPER, 0, TypeOf(w)]);
    }
  }

  /** While the relocations follow one another the stream is as long as the address
      counter says and holds their table; after that it is longer than any table, and
      starts with the table of those that did. */
  ghost predicate InStep(out: seq<byte>, words: seq<nat>, vma: nat, size: nat)
    requires forall j :: 0 <= j < |words| ==> IsPacked(words[j])
  {
    && (|out| == vma || |out| >= WORD32)
    && (|out| == vma <==> Ordered(words))
    && (|out| == vma ==> vma == End(words) && Holds(out, words))
    && (|out| != vma ==> Covers(out, Front(words), size))
  }

  /** Padding to the end of the table. */
  lemma WrittenAll(out: seq<byte>, all: seq<byte>, words: seq<nat>, vma: nat, size: nat)
    requires (forall j :: 0 <= j < |words| ==> IsPacked(words[j]))
    requires vma < WORD32 && size < WORD32 && InStep(out, words, vma, size)
    requires all == out + Zeros((size - vma) % WORD32)
    ensures Spaced(words, size) <==> all == Encoded(PlacesOf(words), size)
    ensures Covers(all, Front(words), size)
  {
    hide Holds, Ordered, Even, Encoded, PlacesOf, Covers, End, Front;
    Wraps(size, vma);
    if |out| != vma {
      CoversMore(out, Front(words), size, Zeros((size - vma) % WORD32));
    } else {
      CoversStep(out, words, size, (size - vma) % WORD32, []);
      assert all + [] == all;
      if vma <= size {
        HoldsAll(out, words, size);
      }
    }
  }

  /** The table written front to back. Counts are kept in 32 bits, so a relocation
      that comes too early asks for nearly 2^32 zeros. */
  method WriteCpmRelocs(words: seq<nat>, size: nat) returns (out: seq<byte>)
    requires size < WORD32 && forall j :: 0 <= j < |words| ==> IsPacked(words[j])
    ensures Spaced(words, size) <==> out == Encoded(PlacesOf(words), size)
    ensures Covers(out, Front(words), size)
  {
    hide PlacesOf, InStep, Ordered, Even, Encoded, Covers;
    out := [];
    var vma, i := 0, 0;
    NothingWritten(size);
    while i < |words|
      invariant 0 <= i <= |words| && 0 <= vma < WORD32
      invariant InStep(out, words[..i], vma, size)
    {
      var next := OffsetOf(words[i]);
      ghost var before := out;
      assert words[..i + 1] == words[..i] + [words[i]];
      out := ZeroFill(out, (next - vma) % WORD32);
      out := out + [0, UPPER, 0, TypeOf(words[i])];
      WrittenNext(before, out, words[..i], words[i], vma, size);
      vma := (next + 4) % WORD32;
      i := i + 1;
    }
    assert words[..i] == words;
    ghost var before := out;
    out := ZeroFill(out, (size - vma) % WORD32);
    WrittenAll(before, out, words, vma, size);
  }

  /** Bits 28 and 29 of an offset are clear, so it does not reach the end of 32 bits. */
  lemma OffsetFits(w: nat)
    requires IsPacked(w)
    ensures OffsetOf(w) + 4 < WORD32
  {
  }

  lemma Wraps(next: nat, vma: nat)
    requires next < WORD32 && vma < WORD32
    ensures (next - vma) % WORD32 == if vma <= next then next - vma else next - vma + WORD32
    ensures (next + 4) % WORD32 == if next + 4 < WORD32 then next + 4 else next + 4 - WORD32
  {
  }

  lemma NothingWritten(size: nat)
    ensures InStep([], [], 0, size)
  {
  }

  /** Spaced relocations make a well-formed map, so both writers produce the one
      table that decodes to it. */
  lemma {:induction false} SpacedIsWellFormed(words: seq<nat>, size: nat)
    requires (forall j :: 0 <= j < |words| ==> IsPacked(words[j])) && Spaced(words, size) && size % 2 == 0
    ensures WellFormed(PlacesOf(words), size)
    ensures forall o :: o in PlacesOf(words) ==> PlacesOf(words)[o].wide && o + 4 <= End(words)
    decreases |words|
  {
    if words == [] {
    } else {
      SpacedIsWellFormed(words[..|words| - 1], size);
    }
  }

  lemma {:induction false} PlacesHave(words: seq<nat>, j: nat)
    requires (forall i :: 0 <= i < |words| ==> IsPacked(words[i])) && j < |words|
    ensures OffsetOf(words[j]) in PlacesOf(words)
    decreases |words|
  {
    if j == |words| - 1 {
    } else {
      PlacesHave(words[..|words| - 1], j);
    }
  }

  lemma {:induction false} PlacesComeFrom(words: seq<nat>, o: nat) returns (j: nat)
    requires (forall i :: 0 <= i < |words| ==> IsPacked(words[i])) && o in PlacesOf(words)
    ensures j < |words| && OffsetOf(words[j]) == o && PlacesOf(words)[o].wide
    decreases |words|
  {
    if o == OffsetOf(words[|words| - 1]) {
      j := |words| - 1;
    } else {
      j := PlacesComeFrom(words[..|words| - 1], o);
    }
  }

  /** If a well-formed map has a long at every offset, the front is spaced. */
  lemma FrontIsSpaced(words: seq<nat>, places: Places, size: nat)
    requires WellFormed(places, size)
    requires forall j :: 0 <= j < |words| ==> OffsetOf(words[j]) in places && places[OffsetOf(words[j])].wide
    ensures Spaced(Front(words), size)
  {
    var f := Front(words);
    forall j | 0 <= j < |f| ensures f[j] == words[j] {
    }
  }

  /** What the stream means to a reader who takes as much of it as a table is long: the
      relocations, if and only if those in front are spaced and the rest repeat them. */
  lemma StreamMeans(words: seq<nat>, size: nat, out: seq<byte>)
    requires (forall j :: 0 <= j < |words| ==> IsPacked(words[j]))
    requires size % 2 == 0 && Covers(out, Front(words), size)
    ensures (Legal(out[..size]) && Decoded(out[..size]) == PlacesOf(words))
       <==> Spaced(Front(words), size) && PlacesOf(Front(words)) == PlacesOf(words)
    ensures Spaced(Front(words), size) ==> Legal(out[..size]) && Decoded(out[..size]) == PlacesOf(Front(words))
  {
    hide PlacesOf, Front, Legal, Decoded, Encoded, Spaced, OffsetOf, TypeOf, IsPacked;
    var f, table := Front(words), out[..size];
    if Legal(table) && Decoded(table) == PlacesOf(words) {
      DecodedIsWellFormed(table);
      forall j | 0 <= j < |words|
        ensures OffsetOf(words[j]) in PlacesOf(words) && PlacesOf(words)[OffsetOf(words[j])].wide
      {
        PlacesHave(words, j);
        var _ := PlacesComeFrom(words, OffsetOf(words[j]));
      }
      FrontIsSpaced(words, PlacesOf(words), size);
    }
    if Spaced(f, size) {
      SpacedIsWellFormed(f, size);
      DecodeEncode(PlacesOf(f), size);
    }
  }
}
