/** The C converter: its own relocation classifier, and a file written in one go. */
module CConverter {
  import opened Basics
  import opened Sectors
  import opened Reloc
  import opened RelocStream
  import opened Image
  import opened ElfImage
  import opened LoadTime

  const MAX_RELOCS: nat := 5000
  const COPY_BUF: nat := 1024

  /** Where the segments lie. */
  datatype Layout = Layout(textSize: nat, dataVma: nat, dataSize: nat, bssSize: nat)

  /** The bss is what the data segment takes of memory beyond its bytes in the file, in
      32-bit arithmetic. */
  function LayoutOf(e: Elf): Layout {
    Layout(|e.text.data|, e.data.address, |e.data.data|, (e.data.memory - |e.data.data|) % WORD32)
  }

  function CodeEnd(y: Layout): nat {
    y.dataVma + y.dataSize
  }

  function ClassifyC(target: nat, y: Layout): Outcome<Kind> {
    if target < y.textSize then Ok(Text)
    else if y.dataVma <= target <= CodeEnd(y) then Ok(Data)
    else if target <= CodeEnd(y) + y.bssSize then Ok(Bss)
    else Error("relocation not pointing to text/data/bss")
  }

  /** A reference to an undefined weak symbol is left alone. */
  predicate WeakNull(r: Rela) {
    r.target == 0 && r.weak
  }

  predicate KeptC(r: Rela) {
    !WeakNull(r) && r.kind == R_68K_32
  }

  function Filtered(relas: seq<Rela>): seq<Rela> {
    if relas == [] then []
    else Filtered(relas[..|relas| - 1]) + if KeptC(relas[|relas| - 1]) then [relas[|relas| - 1]] else []
  }

  /** A relocation that does not stop the converter. */
  predicate AcceptC(r: Rela, y: Layout) {
    r.rela &&
    (WeakNull(r) || r.kind == R_68K_PC32 || r.kind == R_68K_NONE ||
     (r.kind == R_68K_32 && ClassifyC(r.target, y).Ok? && (r.address / TYPE_UNIT) % 4 == 0))
  }

  predicate Sorted(relas: seq<Rela>) {
    forall j :: 0 < j < |relas| ==> relas[j - 1].address <= relas[j].address
  }

  predicate In32(relas: seq<Rela>) {
    forall i :: 0 <= i < |relas| ==> relas[i].address < WORD32
  }

  lemma {:induction false} FilteredGrows(relas: seq<Rela>, n: nat)
    requires n <= |relas|
    ensures |Filtered(relas[..n])| <= |Filtered(relas)|
    decreases |relas|
  {
    if n == |relas| {
      assert relas[..n] == relas;
    } else {
      var front := relas[..|relas| - 1];
      assert front[..n] == relas[..n];
      FilteredGrows(front, n);
    }
  }

  lemma {:induction false} FilteredFrom(relas: seq<Rela>, r: Rela)
    requires r in Filtered(relas)
    ensures r in relas && KeptC(r)
    decreases |relas|
  {
    if r == relas[|relas| - 1] && KeptC(r) {
    } else {
      FilteredFrom(relas[..|relas| - 1], r);
    }
  }

  /** A kept relocation, packed: its offset and the type of its target. */
  function WordOf(r: Rela, y: Layout): (w: nat)
    requires KeptC(r) && AcceptC(r, y) && r.address < WORD32
    ensures IsPacked(w) && OffsetOf(w) == r.address && KindOf(TypeOf(w)) == ClassifyC(r.target, y).value
  {
    PackIsLossless(r.address, ClassifyC(r.target, y).value);
    Pack(r.address, ClassifyC(r.target, y).value)
  }

  predicate AllKept(kept: seq<Rela>, y: Layout) {
    In32(kept) && forall i :: 0 <= i < |kept| ==> KeptC(kept[i]) && AcceptC(kept[i], y)
  }

  function WordsOf(kept: seq<Rela>, y: Layout): (words: seq<nat>)
    requires AllKept(kept, y)
    ensures |words| == |kept|
    ensures forall j :: 0 <= j < |words| ==> IsPacked(words[j]) && OffsetOf(words[j]) == kept[j].address
  {
    seq(|kept|, j requires 0 <= j < |kept| => WordOf(kept[j], y))
  }

  lemma FilteredIsKept(relas: seq<Rela>, y: Layout)
    requires In32(relas) && forall i :: 0 <= i < |relas| ==> AcceptC(relas[i], y)
    ensures AllKept(Filtered(relas), y)
  {
    forall i | 0 <= i < |Filtered(relas)|
      ensures Filtered(relas)[i].address < WORD32 && KeptC(Filtered(relas)[i]) && AcceptC(Filtered(relas)[i], y)
    {
      FilteredFrom(relas, Filtered(relas)[i]);
    }
  }

  lemma NothingKept(relas: seq<Rela>, y: Layout)
    ensures AllKept(Filtered(relas[..0]), y) && WordsOf(Filtered(relas[..0]), y) == []
  {
  }

  lemma KeptGrows(relas: seq<Rela>, i: nat)
    requires i < |relas| && KeptC(relas[i])
    ensures |Filtered(relas[..i + 1])| == |Filtered(relas[..i])| + 1
  {
    assert relas[..i + 1][..i] == relas[..i];
  }

  lemma SortedWords(kept: seq<Rela>, words: seq<nat>)
    requires |words| == |kept| && forall j :: 0 <= j < |words| ==> OffsetOf(words[j]) == kept[j].address
    ensures Sorted(kept) <==> forall j :: 0 < j < |words| ==> OffsetOf(words[j - 1]) <= OffsetOf(words[j])
  {
    hide OffsetOf;
  }

  lemma WordsNext(relas: seq<Rela>, i: nat, y: Layout)
    requires i < |relas| && AllKept(Filtered(relas[..i]), y) && AcceptC(relas[i], y) && relas[i].address < WORD32
    ensures var kept, next, r := Filtered(relas[..i]), Filtered(relas[..i + 1]), relas[i];
      && AllKept(next, y)
      && |next| == |kept| + (if KeptC(r) then 1 else 0)
      && WordsOf(next, y) == if KeptC(r) then WordsOf(kept, y) + [WordOf(r, y)] else WordsOf(kept, y)
  {
    hide AcceptC, WordOf;
    assert relas[..i + 1][..i] == relas[..i];
    var kept, next, r := Filtered(relas[..i]), Filtered(relas[..i + 1]), relas[i];
    assert next == kept + if KeptC(r) then [r] else [];
    hide Filtered;
    if !KeptC(r) {
      assert kept + [] == kept;
    }
  }

  /** A relocation that does not stop the converter, in terms of the types' numbers: 0 and
      4 and null weak references are passed over, and 1 has to point into the text, the
      data or the bss, ends included, and not to use the bits that its type goes to. */
  lemma AcceptedInNumbers(x: Rela, y: Layout)
    ensures AcceptC(x, y) <==>
      && x.rela
      && ((x.target == 0 && x.weak) || x.kind == 0 || x.kind == 4 ||
          (&& x.kind == 1
           && (x.target < y.textSize || x.target <= y.dataVma + y.dataSize + y.bssSize)
           && (x.address / 0x1000_0000) % 4 == 0))
    ensures AcceptC(x, y) && KeptC(x) && x.address < WORD32 ==>
      var data := y.dataVma <= x.target <= y.dataVma + y.dataSize;
      WordOf(x, y) == x.address + 0x1000_0000 * if x.target < y.textSize then 2 else if data then 1 else 3
  {
  }

  /** Kept are those of type 1 that are no null weak references, in their order. */
  lemma FilteredOne(x: Rela)
    ensures Filtered([]) == []
    ensures Filtered([x]) == if x.kind == 1 && !(x.target == 0 && x.weak) then [x] else []
  {
    assert [x][..0] == [];
  }

  lemma {:induction false} FilteredParts(a: seq<Rela>, b: seq<Rela>)
    ensures Filtered(a + b) == Filtered(a) + Filtered(b)
    decreases |b|
  {
    if b == [] {
      assert a + b == a;
      assert Filtered(a) + [] == Filtered(a);
    } else {
      hide KeptC;
      var front, last, all := b[..|b| - 1], b[|b| - 1], a + b;
      FilteredParts(a, front);
      assert all[..|all| - 1] == a + front && all[|all| - 1] == last;
      var end := if KeptC(last) then [last] else [];
      assert Filtered(all) == Filtered(a + front) + end;
      assert Filtered(b) == Filtered(front) + end;
    }
  }

  /** The relocations, packed in the order of the file. They have to be sorted already,
      but may repeat and overlap. */
  method LoadElfRelocs(relas: seq<Rela>, y: Layout) returns (r: Outcome<seq<nat>>)
    requires In32(relas)
    ensures r.Ok? <==>
      && (forall i :: 0 <= i < |relas| ==> AcceptC(relas[i], y))
      && |Filtered(relas)| < MAX_RELOCS && Sorted(Filtered(relas))
    ensures r.Ok? <==>
      && (forall i :: 0 <= i < |relas| ==>
            var x := relas[i];
            && x.rela
            && ((x.target == 0 && x.weak) || x.kind == 0 || x.kind == 4 ||
                (&& x.kind == 1
                 && (x.target < y.textSize || x.target <= y.dataVma + y.dataSize + y.bssSize)
                 && (x.address / 0x1000_0000) % 4 == 0)))
      && |Filtered(relas)| < 5000
      && forall j :: 0 < j < |Filtered(relas)| ==> Filtered(relas)[j - 1].address <= Filtered(relas)[j].address
    ensures r.Ok? ==> AllKept(Filtered(relas), y) && r.value == WordsOf(Filtered(relas), y)
    ensures r.Ok? ==> |r.value| == |Filtered(relas)| && forall k :: 0 <= k < |r.value| ==>
      var x := Filtered(relas)[k];
      var data := y.dataVma <= x.target <= y.dataVma + y.dataSize;
      r.value[k] == x.address + 0x1000_0000 * if x.target < y.textSize then 2 else if data then 1 else 3
  {
    r := PackRelocs(relas, y);
    hide AcceptC, Filtered, WordOf;
    forall i | 0 <= i < |relas| {
      AcceptedInNumbers(relas[i], y);
    }
    if r.Ok? {
      forall k | 0 <= k < |r.value| {
        AcceptedInNumbers(Filtered(relas)[k], y);
      }
    }
  }

  /** The two loops: packing, and looking for one that is out of order. */
  method PackRelocs(relas: seq<Rela>, y: Layout) returns (r: Outcome<seq<nat>>)
    requires In32(relas)
    ensures r.Ok? <==>
      && (forall i :: 0 <= i < |relas| ==> AcceptC(relas[i], y))
      && |Filtered(relas)| < MAX_RELOCS && Sorted(Filtered(relas))
    ensures r.Ok? ==> AllKept(Filtered(relas), y) && r.value == WordsOf(Filtered(relas), y)
  {
    hide ClassifyC, OffsetOf, TypeOf, IsPacked, Pack, Filtered, WordsOf, AllKept, Sorted;
    var words: seq<nat> := [];
    NothingKept(relas, y);
    for i := 0 to |relas|
      invariant forall j :: 0 <= j < i ==> AcceptC(relas[j], y)
      invariant AllKept(Filtered(relas[..i]), y) && words == WordsOf(Filtered(relas[..i]), y)
      invariant |words| < MAX_RELOCS
    {
      FilteredGrows(relas, i + 1);
      if KeptC(relas[i]) {
        KeptGrows(relas, i);
      }
      var rela := relas[i];
      if !rela.rela {
        return Error("not expecting SHT_REL");
      }
      if !WeakNull(rela) {
        if rela.kind == R_68K_32 {
          if |words| + 1 >= MAX_RELOCS {
            return Error("too many relocations");
          }
          var kind := ClassifyC(rela.target, y);
          if kind.Error? {
            return Error(kind.why);
          }
          if (rela.address / TYPE_UNIT) % 4 != 0 {
            return Error("program too large to encode relocation");
          }
          words := words + [Pack(rela.address, kind.value)];
          assert Pack(rela.address, kind.value) == WordOf(rela, y);
        } else if rela.kind != R_68K_PC32 && rela.kind != R_68K_NONE {
          return Error("unsupported relocation type");
        }
      }
      WordsNext(relas, i, y);
    }
    assert relas[..|relas|] == relas;
    var j := 1;
    while j < |words|
      invariant 1 <= j
      invariant forall k :: 0 < k < j && k < |words| ==> OffsetOf(words[k - 1]) <= OffsetOf(words[k])
    {
      if OffsetOf(words[j]) < OffsetOf(words[j - 1]) {
        SortedWords(Filtered(relas), words);
        return Error("relocations not sorted");
      }
      j := j + 1;
    }
    SortedWords(Filtered(relas), words);
    r := Ok(words);
  }

  /** The files that the C converter takes. */
  predicate AcceptsC(e: Elf) {
    && e.executable && e.m68k
    && e.text.load && e.text.flags % 8 == PF_RX && e.text.address == 0 && e.text.memory == |e.text.data|
    && e.data.load && e.data.flags % 8 == PF_RW && |e.text.data| <= e.data.address
    && (forall i :: 0 <= i < |e.relas| ==> AcceptC(e.relas[i], LayoutOf(e)))
    && |Filtered(e.relas)| < MAX_RELOCS && Sorted(Filtered(e.relas))
  }

  function WordsIn(e: Elf): seq<nat>
    requires In32(e.relas) && AcceptsC(e)
  {
    FilteredIsKept(e.relas, LayoutOf(e));
    WordsOf(Filtered(e.relas), LayoutOf(e))
  }

  method LoadElfC(e: Elf) returns (r: Outcome<seq<nat>>)
    requires In32(e.relas)
    ensures r.Ok? <==> AcceptsC(e)
    ensures r.Ok? ==> r.value == WordsIn(e)
    ensures r.Ok? <==>
      var textSize := |e.text.data|;
      var top := e.data.address + |e.data.data| + (e.data.memory - |e.data.data|) % 0x1_0000_0000;
      && e.executable && e.m68k
      && e.text.load && e.text.flags % 8 == 5 && e.text.address == 0 && e.text.memory == textSize
      && e.data.load && e.data.flags % 8 == 6 && textSize <= e.data.address
      && (forall i :: 0 <= i < |e.relas| ==>
            var x := e.relas[i];
            && x.rela
            && ((x.target == 0 && x.weak) || x.kind == 0 || x.kind == 4 ||
                (x.kind == 1 && (x.target < textSize || x.target <= top) && (x.address / 0x1000_0000) % 4 == 0)))
      && |Filtered(e.relas)| < 5000
      && forall j :: 0 < j < |Filtered(e.relas)| ==> Filtered(e.relas)[j - 1].address <= Filtered(e.relas)[j].address
  {
    hide AcceptC, WordsOf, AllKept, Filtered, Sorted;
    if !e.executable || !e.m68k {
      return Error("bad ELF header");
    }
    if !e.text.load || e.text.flags % 8 != PF_RX || e.text.address != 0 || e.text.memory != |e.text.data| {
      return Error("bad text segment");
    }
    if !e.data.load || e.data.flags % 8 != PF_RW || e.data.address < |e.text.data| {
      return Error("bad data segment");
    }
    r := LoadElfRelocs(e.relas, LayoutOf(e));
  }

  /** Copies in pieces of at most `COPY_BUF` bytes. */
  method CopyBytes(source: seq<byte>, offset: nat, count: nat, out: seq<byte>) returns (r: Outcome<seq<byte>>)
    ensures r.Ok? <==> count == 0 || offset + count <= |source|
    ensures r.Ok? && count > 0 ==> r.value == out + source[offset..offset + count]
    ensures r.Ok? && count == 0 ==> r.value == out
  {
    var copied, left, done := out, count, 0;
    while left > 0
      invariant 0 <= left && done + left == count
      invariant done > 0 ==> offset + done <= |source| && copied == out + source[offset..offset + done]
      invariant done == 0 ==> copied == out
    {
      var resid := if left < COPY_BUF then left else COPY_BUF;
      if offset + done + resid > |source| {
        return Error("short read");
      }
      assert source[offset..offset + done + resid] ==
        source[offset..offset + done] + source[offset + done..offset + done + resid];
      copied := copied + source[offset + done..offset + done + resid];
      done := done + resid;
      left := left - resid;
    }
    r := Ok(copied);
  }

  /** The file that `write_cpm` is meant to write. */
  function Meant(text: seq<byte>, data: seq<byte>, y: Layout, words: seq<nat>): Image
    requires forall j :: 0 <= j < |words| ==> IsPacked(words[j])
  {
    Image(Extend(text, y.dataVma), 0, data, y.bssSize, PlacesOf(words))
  }

  /** Segments that fit their header fields and each other. */
  predicate Proper(text: seq<byte>, data: seq<byte>, y: Layout) {
    |text| == y.textSize <= y.dataVma && |data| == y.dataSize && CodeEnd(y) < WORD32 && y.bssSize < WORD32
  }

  /** The file as it is put together: header, padded text, data, table. */
  function Assembled(text: seq<byte>, data: seq<byte>, y: Layout, words: seq<nat>, table: seq<byte>): seq<byte>
    requires Proper(text, data, y)
  {
    Header(y.dataVma, y.dataSize, y.bssSize, 0, if words != [] then WITH_RELOCS else NO_RELOCS)
    + Extend(text, y.dataVma) + data + table
  }

  lemma AssembledIs(text: seq<byte>, data: seq<byte>, y: Layout, words: seq<nat>, table: seq<byte>)
    requires Proper(text, data, y) && forall j :: 0 <= j < |words| ==> IsPacked(words[j])
    ensures var img := Meant(text, data, y, words);
      && (words == [] <==> img.relocs == map[])
      && FitsHeader(img) && CodeSize(img) == CodeEnd(y)
      && Body(img) + table == Assembled(text, data, y, words, table)
  {
    hide Header;
    if words != [] {
      PlacesHave(words, 0);
    }
  }

  /** The relocations that reach the reader of the file: all those in front, or all if the
      rest repeat them; none if the table has an odd size. */
  predicate Readable(words: seq<nat>, size: nat) {
    words == [] || (size % 2 == 0 && Spaced(Front(words), size))
  }

  /** What the assembled file loads as. */
  lemma AssembledLoads(text: seq<byte>, data: seq<byte>, y: Layout, words: seq<nat>, table: seq<byte>)
    requires Proper(text, data, y) && forall j :: 0 <= j < |words| ==> IsPacked(words[j])
    requires Covers(table, Front(words), CodeEnd(y))
    ensures var img, file := Meant(text, data, y, words), Assembled(text, data, y, words, table);
      && (Load(file).Ok? ==> Load(file).value == img.(relocs := Load(file).value.relocs))
      && (Readable(words, CodeEnd(y)) ==> Load(file) == Ok(img.(relocs := PlacesOf(Front(words)))))
      && (Load(file) == Ok(img) <==>
            Readable(words, CodeEnd(y)) && PlacesOf(Front(words)) == PlacesOf(words))
      && (Load(file).Ok? && words != [] ==> CodeEnd(y) % 2 == 0)
  {
    hide Load, Header, Encoded, Decoded, Legal, PlacesOf, Assembled, Front, Spaced, Body;
    var img := Meant(text, data, y, words);
    AssembledIs(text, data, y, words, table);
    LoadBody(img, table);
    if words != [] {
      OddTable(table[..CodeEnd(y)]);
      if CodeEnd(y) % 2 == 0 {
        StreamMeans(words, CodeEnd(y), table);
      }
    }
  }

  lemma OddTable(table: seq<byte>)
    ensures Legal(table) ==> |table| % 2 == 0
  {
  }

  lemma TextAndData(text: seq<byte>, data: seq<byte>, y: Layout, words: seq<nat>, table: seq<byte>)
    requires Proper(text, data, y)
    ensures var b := Assembled(text, data, y, words, table);
      28 + CodeEnd(y) <= |b| && b[28..28 + CodeEnd(y)] == Extend(text, y.dataVma) + data
  {
    hide Header;
  }

  /** The first 28 bytes of the file, field by field. */
  lemma HeadOf(text: seq<byte>, data: seq<byte>, y: Layout, words: seq<nat>, table: seq<byte>)
    requires Proper(text, data, y)
    ensures var b := Assembled(text, data, y, words, table);
      && |b| >= 28
      && b[..28] == Put16(0x601a) + Put32(y.dataVma) + Put32(y.dataSize) + Put32(y.bssSize) + Put32(0) + Put32(0)
                    + Put32(0) + Put16(if words == [] then 0xffff else 0)
  {
    hide Put16, Put32;
    var h := Header(y.dataVma, y.dataSize, y.bssSize, 0, if words != [] then WITH_RELOCS else NO_RELOCS);
    assert Assembled(text, data, y, words, table)[..28] == h;
  }

  /** Adding the parts one by one. */
  lemma Assemble(header: seq<byte>, text: seq<byte>, data: seq<byte>, pad: nat, table: seq<byte>)
    ensures Extend(text, |text| + pad) == text + Zeros(pad)
    ensures header + text + Zeros(pad) + data + table == header + Extend(text, |text| + pad) + data + table
    ensures pad == 0 ==> header + text + Zeros(pad) == header + text
    ensures data == [] ==> header + text + Zeros(pad) + data == header + text + Zeros(pad)
    ensures text == [] ==> header + text == header
  {
    assert header + (text + Zeros(pad)) == header + text + Zeros(pad);
  }

  /** Writes header, padded text and data. */
  method WriteSegments(file: seq<byte>, textOffset: nat, dataOffset: nat, y: Layout, words: seq<nat>)
    returns (r: Outcome<seq<byte>>)
    requires y.textSize <= y.dataVma && CodeEnd(y) < WORD32 && y.bssSize < WORD32
    ensures r.Ok? <==>
      && (y.textSize == 0 || textOffset + y.textSize <= |file|)
      && (y.dataSize == 0 || dataOffset + y.dataSize <= |file|)
    ensures textOffset + y.textSize <= |file| && dataOffset + y.dataSize <= |file| ==>
      var text, data := file[textOffset..textOffset + y.textSize], file[dataOffset..dataOffset + y.dataSize];
      r == Ok(Assembled(text, data, y, words, []))
  {
    hide Header;
    var pad := y.dataVma - y.textSize;
    var header := Header(y.textSize + pad, y.dataSize, y.bssSize, 0, if words != [] then WITH_RELOCS else NO_RELOCS);
    var copied := CopyBytes(file, textOffset, y.textSize, header);
    if copied.Error? {
      return copied;
    }
    var out := copied.value;
    if pad > 0 {
      out := ZeroFill(out, pad);
    }
    r := CopyBytes(file, dataOffset, y.dataSize, out);
    if textOffset + y.textSize <= |file| && dataOffset + y.dataSize <= |file| {
      ghost var text, data := file[textOffset..textOffset + y.textSize], file[dataOffset..dataOffset + y.dataSize];
      Assemble(header, text, data, pad, []);
      assert out == header + text + Zeros(pad);
      assert r.value == out + data == out + data + [];
    }
  }

  /** Writes the command file from the segments of the ELF file. Its table is written
      even when there is nothing in it. */
  method WriteCpm(file: seq<byte>, textOffset: nat, dataOffset: nat, y: Layout, words: seq<nat>)
    returns (r: Outcome<seq<byte>>, ghost table: seq<byte>)
    requires y.textSize <= y.dataVma && CodeEnd(y) < WORD32 && y.bssSize < WORD32
    requires forall j :: 0 <= j < |words| ==> IsPacked(words[j])
    ensures r.Ok? <==>
      && (y.textSize == 0 || textOffset + y.textSize <= |file|)
      && (y.dataSize == 0 || dataOffset + y.dataSize <= |file|)
    ensures textOffset + y.textSize <= |file| && dataOffset + y.dataSize <= |file| ==>
      var text, data := file[textOffset..textOffset + y.textSize], file[dataOffset..dataOffset + y.dataSize];
      && r == Ok(Assembled(text, data, y, words, table)) && Covers(table, Front(words), CodeEnd(y))
      && 28 + CodeEnd(y) <= |r.value|
      && r.value[28..28 + CodeEnd(y)] == Extend(text, y.dataVma) + data
      && r.value[..28] == Put16(0x601a) + Put32(y.dataVma) + Put32(y.dataSize) + Put32(y.bssSize) + Put32(0) + Put32(0)
                          + Put32(0) + Put16(if words == [] then 0xffff else 0)
      && (Load(r.value) == Ok(Meant(text, data, y, words)) <==>
            Readable(words, CodeEnd(y)) && PlacesOf(Front(words)) == PlacesOf(words))
  {
    hide Load, Header, Encoded, Spaced, Meant, PlacesOf, Front, Covers, Put16, Put32;
    var out := WriteSegments(file, textOffset, dataOffset, y, words);
    table := [];
    if out.Error? {
      return out, table;
    }
    var relocs := WriteCpmRelocs(words, CodeEnd(y));
    table := relocs;
    r := Ok(out.value + relocs);
    if textOffset + y.textSize <= |file| && dataOffset + y.dataSize <= |file| {
      ghost var text, data := file[textOffset..textOffset + y.textSize], file[dataOffset..dataOffset + y.dataSize];
      assert Assembled(text, data, y, words, []) + table == Assembled(text, data, y, words, table) by {
        TableLast(text, data, y, words, table);
      }
      TextAndData(text, data, y, words, table);
      HeadOf(text, data, y, words, table);
      AssembledLoads(text, data, y, words, table);
    }
  }

  lemma TableLast(text: seq<byte>, data: seq<byte>, y: Layout, words: seq<nat>, table: seq<byte>)
    requires Proper(text, data, y)
    ensures Assembled(text, data, y, words, []) + table == Assembled(text, data, y, words, table)
  {
    hide Header;
    var h := Header(y.dataVma, y.dataSize, y.bssSize, 0, if words != [] then WITH_RELOCS else NO_RELOCS);
    var code := h + Extend(text, y.dataVma) + data;
    assert code + [] == code;
  }

  function MeantC(e: Elf): Image
    requires In32(e.relas) && AcceptsC(e)
  {
    Meant(e.text.data, e.data.data, LayoutOf(e), WordsIn(e))
  }

  /** The program as linked, as the C converter sees it. */
  function LinkedC(e: Elf): seq<byte> {
    Extend(e.text.data, e.data.address) + e.data.data + Zeros(LayoutOf(e).bssSize)
  }

  function KeptAtC(e: Elf): set<nat> {
    set i | 0 <= i < |Filtered(e.relas)| :: Filtered(e.relas)[i].address
  }

  /** Relocations that reach the reader of the file: if there are any, the code ends at an
      even address, those in front are spaced, and those behind are at the same places. */
  predicate SurvivesC(e: Elf)
    requires In32(e.relas) && AcceptsC(e)
  {
    Readable(WordsIn(e), CodeEnd(LayoutOf(e))) && PlacesOf(Front(WordsIn(e))).Keys == KeptAtC(e)
  }

  ghost predicate RunsAtC(file: seq<byte>, e: Elf, base: nat) {
    Runs(file, LinkedC(e), KeptAtC(e), base)
  }

  /** The parts of a file that the converter wrote, and what it loads as. */
  ghost predicate FileOf(file: seq<byte>, e: Elf)
    requires In32(e.relas) && AcceptsC(e)
  {
    var img, words, size := MeantC(e), WordsIn(e), CodeEnd(LayoutOf(e));
    && (Load(file).Ok? ==> Load(file).value == img.(relocs := Load(file).value.relocs))
    && (Readable(words, size) ==> Load(file) == Ok(img.(relocs := PlacesOf(Front(words)))))
    && (Load(file).Ok? && words != [] ==> size % 2 == 0)
  }

  /** The code and the header that it wrote, field by field. */
  ghost predicate Headed(file: seq<byte>, e: Elf)
    requires CodeEnd(LayoutOf(e)) < WORD32
  {
    var size := e.data.address + |e.data.data|;
    && 28 + size <= |file| && file[28..28 + size] == Extend(e.text.data, e.data.address) + e.data.data
    && file[..28] == Put16(0x601a) + Put32(e.data.address) + Put32(|e.data.data|)
                     + Put32((e.data.memory - |e.data.data|) % 0x1_0000_0000) + Put32(0) + Put32(0) + Put32(0)
                     + Put16(if Filtered(e.relas) == [] then 0xffff else 0)
  }

  lemma WordsAt(e: Elf)
    requires In32(e.relas) && AcceptsC(e)
    ensures forall j :: 0 <= j < |WordsIn(e)| ==> OffsetOf(WordsIn(e)[j]) in KeptAtC(e)
    ensures forall o :: o in PlacesOf(Front(WordsIn(e))) ==>
      o in KeptAtC(e) && PlacesOf(Front(WordsIn(e)))[o].wide
    ensures WordsIn(e) == [] <==> KeptAtC(e) == {}
  {
    var words := WordsIn(e);
    FilteredIsKept(e.relas, LayoutOf(e));
    hide OffsetOf, TypeOf, IsPacked, Front, AcceptsC, WordOf, Filtered;
    forall j | 0 <= j < |words| ensures OffsetOf(words[j]) in KeptAtC(e) {
      assert OffsetOf(words[j]) == Filtered(e.relas)[j].address;
    }
    forall o | o in PlacesOf(Front(words)) ensures o in KeptAtC(e) && PlacesOf(Front(words))[o].wide {
      var j := PlacesComeFrom(Front(words), o);
      assert words[j] == Front(words)[j];
    }
    if words != [] {
      assert OffsetOf(words[0]) in KeptAtC(e);
    }
  }

  /** Relocations that reach the reader run at every base. */
  lemma SurvivorRunsC(file: seq<byte>, e: Elf, base: nat)
    requires In32(e.relas) && AcceptsC(e) && FileOf(file, e) && SurvivesC(e)
    ensures RunsAtC(file, e, base)
  {
    WordsAt(e);
    var img := MeantC(e).(relocs := PlacesOf(Front(WordsIn(e))));
    assert Memory(img) == LinkedC(e) && img.textAddress == 0;
    hide Load, AcceptsC, WordsIn, PlacesOf, Front, KeptAtC, LinkedC, Memory, Runs, Readable;
    RunsByTable(file, img, KeptAtC(e), base);
  }

  lemma MeantCIs(e: Elf)
    requires In32(e.relas) && AcceptsC(e)
    ensures Memory(MeantC(e)) == LinkedC(e) && MeantC(e).textAddress == 0
    ensures CodeSize(MeantC(e)) == CodeEnd(LayoutOf(e))
  {
    hide WordsIn, PlacesOf;
  }

  /** The others do not, at least not at multiples of 64K. */
  lemma OthersDoNotC(file: seq<byte>, e: Elf, base: nat)
    requires In32(e.relas) && AcceptsC(e) && FileOf(file, e) && HighOnly(base) && RunsAtC(file, e, base)
    ensures SurvivesC(e)
  {
    hide Load, AcceptsC, WordsIn, PlacesOf, Front, KeptAtC, LinkedC, MeantC, Memory, HighOnly, Readable, Moved;
    hide WellFormed, SurvivesC;
    MeantCIs(e);
    assert Load(file).Ok?;
    hide Launch, Runs;
    TableOfC(file, e);
    var places := Load(file).value.relocs;
    forall k | k in KeptAtC(e) ensures k in places && places[k].wide {
      RunsOnlyBy(file, MeantC(e), KeptAtC(e), base, k);
    }
    FrontReaches(file, e, places);
  }

  lemma TableOfC(file: seq<byte>, e: Elf)
    requires In32(e.relas) && AcceptsC(e) && FileOf(file, e) && Load(file).Ok?
    ensures var places := Load(file).value.relocs; places == map[] || WellFormed(places, CodeEnd(LayoutOf(e)))
  {
    hide Load, AcceptsC, WordsIn, PlacesOf, Front, MeantC, Readable, WellFormed, LinkedC;
    MeantCIs(e);
    LoadIsWellFormed(file);
    assert CodeSize(Load(file).value) == CodeSize(MeantC(e));
  }

  lemma FrontReaches(file: seq<byte>, e: Elf, places: Places)
    requires In32(e.relas) && AcceptsC(e) && FileOf(file, e) && Load(file).Ok? && places == Load(file).value.relocs
    requires places == map[] || WellFormed(places, CodeEnd(LayoutOf(e)))
    requires forall k :: k in KeptAtC(e) ==> k in places && places[k].wide
    ensures SurvivesC(e)
  {
    hide Load, AcceptsC, WordsIn, PlacesOf, Front, KeptAtC, MeantC, Spaced, OffsetOf, IsPacked, WellFormed;
    WordsAt(e);
    var words, size := WordsIn(e), CodeEnd(LayoutOf(e));
    if words == [] {
      assert forall o :: o in PlacesOf(Front(words)) ==> o in KeptAtC(e);
    } else {
      assert OffsetOf(words[0]) in places;
      FrontIsSpaced(words, places, size);
    }
  }

  lemma NotRunsC(file: seq<byte>, e: Elf, base: nat)
    requires In32(e.relas) && AcceptsC(e) && FileOf(file, e) && HighOnly(base) && !SurvivesC(e)
    ensures !RunsAtC(file, e, base)
  {
    hide AcceptsC, FileOf, HighOnly, SurvivesC, RunsAtC;
    if RunsAtC(file, e, base) {
      OthersDoNotC(file, e, base);
    }
  }

  /** The converter. `source` is the ELF file, with the two segments at the offsets given. */
  method ConvertC(e: Elf, source: seq<byte>, textOffset: nat, dataOffset: nat) returns (file: Outcome<seq<byte>>)
    requires In32(e.relas) && CodeEnd(LayoutOf(e)) < WORD32
    requires textOffset + |e.text.data| <= |source| && dataOffset + |e.data.data| <= |source|
    requires source[textOffset..textOffset + |e.text.data|] == e.text.data
    requires source[dataOffset..dataOffset + |e.data.data|] == e.data.data
    ensures file.Ok? <==> AcceptsC(e)
    ensures file.Ok? ==> FileOf(file.value, e) && Headed(file.value, e)
    ensures file.Ok? && SurvivesC(e) ==> forall base: nat :: RunsAtC(file.value, e, base)
    ensures file.Ok? && !SurvivesC(e) ==> forall base: nat :: HighOnly(base) ==> !RunsAtC(file.value, e, base)
  {
    hide *;
    var words := LoadElfC(e);
    if words.Error? {
      return Error(words.why);
    }
    FileFits(e);
    ghost var table;
    file, table := WriteCpm(source, textOffset, dataOffset, LayoutOf(e), words.value);
    FileIs(e, file.value, table);
    HeadIs(e, file.value, table);
    if SurvivesC(e) {
      forall base: nat ensures RunsAtC(file.value, e, base) {
        SurvivorRunsC(file.value, e, base);
      }
    } else {
      forall base: nat | HighOnly(base) ensures !RunsAtC(file.value, e, base) {
        NotRunsC(file.value, e, base);
      }
    }
  }

  lemma FileFits(e: Elf)
    requires In32(e.relas) && AcceptsC(e) && CodeEnd(LayoutOf(e)) < WORD32
    ensures Proper(e.text.data, e.data.data, LayoutOf(e))
    ensures var y := LayoutOf(e);
      |e.text.data| == y.textSize <= y.dataVma && |e.data.data| == y.dataSize && y.bssSize < WORD32
    ensures forall j :: 0 <= j < |WordsIn(e)| ==> IsPacked(WordsIn(e)[j])
  {
    FilteredIsKept(e.relas, LayoutOf(e));
    hide AcceptsC, IsPacked;
  }

  lemma FileIs(e: Elf, file: seq<byte>, table: seq<byte>)
    requires In32(e.relas) && AcceptsC(e) && Proper(e.text.data, e.data.data, LayoutOf(e))
    requires forall j :: 0 <= j < |WordsIn(e)| ==> IsPacked(WordsIn(e)[j])
    requires Covers(table, Front(WordsIn(e)), CodeEnd(LayoutOf(e)))
    requires file == Assembled(e.text.data, e.data.data, LayoutOf(e), WordsIn(e), table)
    ensures FileOf(file, e)
  {
    hide Load, AcceptsC, WordsIn, PlacesOf, Front, Covers, Assembled, IsPacked;
    AssembledLoads(e.text.data, e.data.data, LayoutOf(e), WordsIn(e), table);
  }

  lemma HeadIs(e: Elf, file: seq<byte>, table: seq<byte>)
    requires In32(e.relas) && AcceptsC(e) && Proper(e.text.data, e.data.data, LayoutOf(e))
    requires file == Assembled(e.text.data, e.data.data, LayoutOf(e), WordsIn(e), table)
    ensures Headed(file, e)
  {
    assert WordsIn(e) == [] <==> Filtered(e.relas) == [];
    hide AcceptsC, WordsIn, Assembled, Put16, Put32, Filtered;
    TextAndData(e.text.data, e.data.data, LayoutOf(e), WordsIn(e), table);
    HeadOf(e.text.data, e.data.data, LayoutOf(e), WordsIn(e), table);
  }
}
