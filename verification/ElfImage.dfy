/** A linked m68k ELF program as the converters take it: text from address 0, data
    and zero-initialised space above it, and the relocations of both. */
module ElfImage {
  import opened Basics
  import opened Sectors
  import opened Reloc
  import opened Image

  const R_68K_NONE: nat := 0
  const R_68K_32: nat := 1
  const R_68K_PC32: nat := 4
  const R_68K_PC16: nat := 5
  const R_68K_PC8: nat := 6

  const PF_RX: nat := 5
  const PF_RW: nat := 6

  /** One relocation, its symbol looked up: `found` is whether the symbol table has
      it, `target` its value, `weak` whether it is a weak reference. */
  datatype Rela = Rela(address: nat, kind: nat, rela: bool, found: bool, target: nat, weak: bool, addend: int)

  datatype Section = Section(address: nat, size: nat)

  /** A segment: whether it is to be loaded, its flags, its bytes in the file, and how
      much memory it takes. */
  datatype Segment = Segment(load: bool, flags: nat, address: nat, data: seq<byte>, memory: nat)

  /** An ELF file, its first two segments taken for text and data. */
  datatype Elf = Elf(
    executable: bool, m68k: bool, segments: nat, text: Segment, data: Segment, bss: seq<Section>, relas: seq<Rela>)

  /** What the Python loader makes of it. */
  datatype Loaded = Loaded(text: seq<byte>, data: seq<byte>, bssSize: nat, relocs: map<nat, Kind>)

  function Lowest(bss: seq<Section>): nat
    requires bss != []
  {
    if |bss| == 1 then bss[0].address else Min(Lowest(bss[..|bss| - 1]), bss[|bss| - 1].address)
  }

  function Highest(bss: seq<Section>): nat
    requires bss != []
  {
    if |bss| == 1 then bss[0].address + bss[0].size
    else Max(Highest(bss[..|bss| - 1]), bss[|bss| - 1].address + bss[|bss| - 1].size)
  }

  /** Every section lies between the two. */
  lemma {:induction false} BssExtent(bss: seq<Section>)
    requires bss != []
    ensures forall s :: s in bss ==> Lowest(bss) <= s.address && s.address + s.size <= Highest(bss)
    ensures Lowest(bss) <= Highest(bss)
    decreases |bss|
  {
    if |bss| == 1 {
    } else {
      var front := bss[..|bss| - 1];
      BssExtent(front);
      forall s | s in bss ensures Lowest(bss) <= s.address && s.address + s.size <= Highest(bss) {
        assert s in front || s == bss[|bss| - 1];
      }
    }
  }

  /** The extent of the bss sections, low address and limit. */
  method BssBounds(bss: seq<Section>) returns (low: nat, limit: nat)
    requires bss != []
    ensures low == Lowest(bss) && limit == Highest(bss)
    ensures forall s :: s in bss ==> low <= s.address && s.address + s.size <= limit
    ensures (exists s :: s in bss && s.address == low) && exists s :: s in bss && s.address + s.size == limit
  {
    low, limit := bss[0].address, bss[0].address + bss[0].size;
    for i := 1 to |bss|
      invariant low == Lowest(bss[..i]) && limit == Highest(bss[..i])
      invariant (exists s :: s in bss && s.address == low) && exists s :: s in bss && s.address + s.size == limit
    {
      assert bss[..i + 1][..i] == bss[..i];
      if bss[i].address < low {
        low := bss[i].address;
      }
      if bss[i].address + bss[i].size > limit {
        limit := bss[i].address + bss[i].size;
      }
    }
    assert bss[..|bss|] == bss;
    BssExtent(bss);
  }

  function DataEnd(e: Elf): nat {
    e.data.address + |e.data.data|
  }

  /** Where the bss starts, or would. */
  function Low(e: Elf): nat {
    if e.bss == [] then DataEnd(e) else Lowest(e.bss)
  }

  function Limit(e: Elf): nat {
    if e.bss == [] then DataEnd(e) else Highest(e.bss)
  }

  lemma LowLimit(e: Elf)
    ensures Low(e) <= Limit(e)
  {
    if e.bss != [] {
      BssExtent(e.bss);
    }
  }

  /** Text and data, each padded up to what follows it. */
  function TextOf(e: Elf): seq<byte> {
    Extend(e.text.data, e.data.address)
  }

  function DataOf(e: Elf): seq<byte> {
    Extend(e.data.data, Max(0, Low(e) - e.data.address))
  }

  function BssSize(e: Elf): (n: nat) {
    LowLimit(e);
    Limit(e) - Low(e)
  }

  /** Text first, then data, then bss. */
  predicate InOrder(e: Elf) {
    |e.text.data| <= e.data.address && DataEnd(e) <= Low(e)
  }

  /** The program as linked: all its memory, from address 0. */
  function Linked(e: Elf): seq<byte> {
    TextOf(e) + DataOf(e) + Zeros(BssSize(e))
  }

  /** Every byte of the program is where it was linked: text, data, and zeros everywhere
      else, the bss sections among them. */
  lemma LinkedIs(e: Elf)
    requires InOrder(e)
    ensures Linked(e) == Extend(Extend(e.text.data, e.data.address) + e.data.data, Limit(e))
    ensures |Linked(e)| == Limit(e)
    ensures Linked(e)[..|e.text.data|] == e.text.data && Linked(e)[e.data.address..DataEnd(e)] == e.data.data
    ensures forall p :: 0 <= p < Limit(e) && !(p < |e.text.data|) && !(e.data.address <= p < DataEnd(e)) ==>
      Linked(e)[p] == 0
    ensures forall s :: s in e.bss ==> DataEnd(e) <= s.address && s.address + s.size <= Limit(e)
  {
    LowLimit(e);
    if e.bss != [] {
      BssExtent(e.bss);
    }
  }

  /** Which segment a relocation points into; an address just after the bss is the
      bss's. The addend may not be larger than the segment. */
  function Classify(target: nat, addend: int, textSize: nat, dataSize: nat, bssSize: nat): Outcome<Kind> {
    if target < textSize then
      if addend > textSize then Error("addend outside of text section") else Ok(Text)
    else if target < textSize + dataSize then
      if addend > dataSize then Error("addend outside of data section") else Ok(Data)
    else if target <= textSize + dataSize + bssSize then
      if addend > bssSize then Error("addend outside of bss section") else Ok(Bss)
    else Error("relocation target not in known space")
  }

  /** The long a relocation is in, which may not cross from the text to the data. */
  function FieldAt(text: seq<byte>, data: seq<byte>, address: nat): Outcome<nat> {
    if address < |text| then
      if address + 4 <= |text| then Ok(Get32(text, address)) else Error("short field")
    else if address < |text| + |data| then
      if address + 4 <= |text| + |data| then Ok(Get32(data, address - |text|)) else Error("short field")
    else Error("relocation not in known space")
  }

  predicate PcRelative(kind: nat) {
    kind == R_68K_NONE || kind == R_68K_PC32 || kind == R_68K_PC16 || kind == R_68K_PC8
  }

  /** One round of the loop over relocations: what it records, if anything. */
  function Consider(r: Rela, text: seq<byte>, data: seq<byte>, bssSize: nat): Outcome<bool> {
    if r.address >= |text| + |data| then Error("relocation outside known space")
    else if !r.rela then Error("unexpected REL reloc")
    else if !r.found then Error("symbol reference in relocation out of bounds")
    else if PcRelative(r.kind) then Ok(false)
    else if r.kind != R_68K_32 then Error("unexpected relocation type")
    else if Classify(r.target, r.addend, |text|, |data|, bssSize).Error? then Error("target")
    else if FieldAt(text, data, r.address) != Ok(r.target + r.addend) then Error("unrelocated field != target + addend")
    else Ok(true)
  }

  /** Relocations that are recorded. */
  predicate Kept(r: Rela) {
    r.kind == R_68K_32
  }

  /** Where the relocations are that satisfy `Kept`. */
  function KeptAt(relas: seq<Rela>): set<nat> {
    set i | 0 <= i < |relas| && Kept(relas[i]) :: relas[i].address
  }

  /** What is recorded: of several relocations at an address, the last. */
  function Recorded(relas: seq<Rela>, textSize: nat, dataSize: nat, bssSize: nat): map<nat, Kind> {
    if relas == [] then map[]
    else
      var r, before := relas[|relas| - 1], Recorded(relas[..|relas| - 1], textSize, dataSize, bssSize);
      var kind := Classify(r.target, r.addend, textSize, dataSize, bssSize);
      if Kept(r) && kind.Ok? then before[r.address := kind.value] else before
  }

  lemma {:induction false} RecordedAt(relas: seq<Rela>, text: seq<byte>, data: seq<byte>, bssSize: nat)
    requires forall i :: 0 <= i < |relas| ==> Consider(relas[i], text, data, bssSize).Ok?
    ensures Recorded(relas, |text|, |data|, bssSize).Keys == KeptAt(relas)
    decreases |relas|
  {
    if relas == [] {
    } else {
      var front, r := relas[..|relas| - 1], relas[|relas| - 1];
      RecordedAt(front, text, data, bssSize);
      assert Consider(r, text, data, bssSize).Ok?;
      KeptAtNext(front, r);
      assert relas == front + [r];
    }
  }

  lemma KeptAtNext(relas: seq<Rela>, r: Rela)
    ensures KeptAt(relas + [r]) == KeptAt(relas) + if Kept(r) then {r.address} else {}
  {
    var all := relas + [r];
    forall o | o in KeptAt(relas) ensures o in KeptAt(all) {
      var i :| 0 <= i < |relas| && Kept(relas[i]) && relas[i].address == o;
      assert all[i] == relas[i];
    }
    assert all[|relas|] == r;
  }

  /** A relocation that does not stop the loader, in terms of the types' numbers: 0, 4, 5
      and 6 are passed over, and 1 has to point into a part of the program, with an addend
      no larger than it, and to lie in a long that holds target plus addend. */
  lemma ConsiderInNumbers(x: Rela, text: seq<byte>, data: seq<byte>, bssSize: nat)
    ensures Consider(x, text, data, bssSize).Ok? <==>
      && x.address < |text| + |data| && x.rela && x.found
      && (x.kind == 0 || x.kind == 4 || x.kind == 5 || x.kind == 6 ||
          (&& x.kind == 1
           && (if x.target < |text| then x.addend <= |text|
               else if x.target < |text| + |data| then x.addend <= |data|
               else x.target <= |text| + |data| + bssSize && x.addend <= bssSize)
           && (if x.address < |text| then x.address + 4 <= |text| && Get32(text, x.address) == x.target + x.addend
               else x.address + 4 <= |text| + |data| && Get32(data, x.address - |text|) == x.target + x.addend)))
  {
  }

  /** Of several relocations of type 1 at an address, the last. */
  predicate LastAt(relas: seq<Rela>, i: nat)
    requires i < |relas|
  {
    relas[i].kind == 1 && forall j :: i < j < |relas| && relas[j].kind == 1 ==> relas[j].address != relas[i].address
  }

  /** Recorded is where the relocations of type 1 are. */
  lemma RecordedWhere(relas: seq<Rela>, text: seq<byte>, data: seq<byte>, bssSize: nat)
    requires forall i :: 0 <= i < |relas| ==> Consider(relas[i], text, data, bssSize).Ok?
    ensures forall o :: o in Recorded(relas, |text|, |data|, bssSize) <==>
      exists i :: 0 <= i < |relas| && relas[i].kind == 1 && relas[i].address == o
  {
    hide Consider, Recorded;
    RecordedAt(relas, text, data, bssSize);
  }

  /** And for the last one at a place the part of the program that it points into. */
  lemma {:induction false} RecordedKind(relas: seq<Rela>, text: seq<byte>, data: seq<byte>, bssSize: nat, i: nat)
    requires forall j :: 0 <= j < |relas| ==> Consider(relas[j], text, data, bssSize).Ok?
    requires i < |relas| && LastAt(relas, i)
    ensures var recorded, x := Recorded(relas, |text|, |data|, bssSize), relas[i];
      && x.address in recorded
      && recorded[x.address] == if x.target < |text| then Text else if x.target < |text| + |data| then Data else Bss
    decreases |relas|
  {
    hide Recorded, Consider;
    LastRecorded(relas, text, data, bssSize);
    if i == |relas| - 1 {
    } else {
      var front := relas[..|relas| - 1];
      assert front[i] == relas[i] && LastAt(front, i);
      RecordedKind(front, text, data, bssSize, i);
    }
  }

  lemma LastRecorded(relas: seq<Rela>, text: seq<byte>, data: seq<byte>, bssSize: nat)
    requires relas != [] && Consider(relas[|relas| - 1], text, data, bssSize).Ok?
    ensures var r, before := relas[|relas| - 1], Recorded(relas[..|relas| - 1], |text|, |data|, bssSize);
      Recorded(relas, |text|, |data|, bssSize) ==
        if r.kind == 1 then
          before[r.address := if r.target < |text| then Text else if r.target < |text| + |data| then Data else Bss]
        else before
  {
  }

  method LoadRelocs(relas: seq<Rela>, text: seq<byte>, data: seq<byte>, bssSize: nat)
    returns (r: Outcome<map<nat, Kind>>)
    ensures r.Ok? <==> forall i :: 0 <= i < |relas| ==> Consider(relas[i], text, data, bssSize).Ok?
    ensures r.Ok? <==> forall i :: 0 <= i < |relas| ==>
      var x := relas[i];
      && x.address < |text| + |data| && x.rela && x.found
      && (x.kind == 0 || x.kind == 4 || x.kind == 5 || x.kind == 6 ||
          (&& x.kind == 1
           && (if x.target < |text| then x.addend <= |text|
               else if x.target < |text| + |data| then x.addend <= |data|
               else x.target <= |text| + |data| + bssSize && x.addend <= bssSize)
           && (if x.address < |text| then x.address + 4 <= |text| && Get32(text, x.address) == x.target + x.addend
               else x.address + 4 <= |text| + |data| && Get32(data, x.address - |text|) == x.target + x.addend)))
    ensures r.Ok? ==> r.value == Recorded(relas, |text|, |data|, bssSize)
    ensures r.Ok? ==> forall o :: o in r.value <==>
      exists i :: 0 <= i < |relas| && relas[i].kind == 1 && relas[i].address == o
    ensures r.Ok? ==> forall i :: 0 <= i < |relas| && LastAt(relas, i) ==>
      && relas[i].address in r.value
      && r.value[relas[i].address] ==
           if relas[i].target < |text| then Text else if relas[i].target < |text| + |data| then Data else Bss
  {
    hide Classify, FieldAt, Get32;
    var relocs: map<nat, Kind> := map[];
    for i := 0 to |relas|
      invariant forall j :: 0 <= j < i ==> Consider(relas[j], text, data, bssSize).Ok?
      invariant relocs == Recorded(relas[..i], |text|, |data|, bssSize)
    {
      assert relas[..i + 1][..i] == relas[..i];
      ConsiderInNumbers(relas[i], text, data, bssSize);
      var c := Consider(relas[i], text, data, bssSize);
      if c.Error? {
        return Error(c.why);
      }
      if c.value {
        var kind := Classify(relas[i].target, relas[i].addend, |text|, |data|, bssSize);
        relocs := relocs[relas[i].address := kind.value];
      }
    }
    assert relas[..|relas|] == relas;
    forall i | 0 <= i < |relas| {
      ConsiderInNumbers(relas[i], text, data, bssSize);
    }
    RecordedWhere(relas, text, data, bssSize);
    forall i | 0 <= i < |relas| && LastAt(relas, i)
      ensures relas[i].address in relocs
      ensures relocs[relas[i].address] ==
        if relas[i].target < |text| then Text else if relas[i].target < |text| + |data| then Data else Bss
    {
      RecordedKind(relas, text, data, bssSize, i);
    }
    r := Ok(relocs);
  }

  /** The files that the Python loader takes. */
  predicate Convertible(e: Elf) {
    && e.executable && e.m68k && e.segments == 2
    && e.text.load && e.text.flags % 8 == PF_RX && e.text.address == 0
    && e.data.load && e.data.flags % 8 == PF_RW
    && InOrder(e)
    && forall i :: 0 <= i < |e.relas| ==> Consider(e.relas[i], TextOf(e), DataOf(e), BssSize(e)).Ok?
  }

  /** The same in terms of the parts of the file and of numbers. The text is filled up to
      where the data starts, and the data up to the first bss section. */
  lemma ConvertibleInNumbers(e: Elf)
    ensures var text, data, bssSize := TextOf(e), DataOf(e), BssSize(e);
      Convertible(e) <==>
        && e.executable && e.m68k && e.segments == 2
        && e.text.load && e.text.flags % 8 == 5 && e.text.address == 0
        && e.data.load && e.data.flags % 8 == 6 && |e.text.data| <= e.data.address
        && (forall s :: s in e.bss ==> e.data.address + |e.data.data| <= s.address)
        && forall i :: 0 <= i < |e.relas| ==>
             var x := e.relas[i];
             && x.address < |text| + |data| && x.rela && x.found
             && (x.kind == 0 || x.kind == 4 || x.kind == 5 || x.kind == 6 ||
                 (&& x.kind == 1
                  && (if x.target < |text| then x.addend <= |text|
                      else if x.target < |text| + |data| then x.addend <= |data|
                      else x.target <= |text| + |data| + bssSize && x.addend <= bssSize)
                  && (if x.address < |text| then
                        x.address + 4 <= |text| && Get32(text, x.address) == x.target + x.addend
                      else
                        x.address + 4 <= |text| + |data| && Get32(data, x.address - |text|) == x.target + x.addend)))
  {
    LowIs(e);
    hide Consider, Get32, TextOf, DataOf, BssSize, Low;
    forall i | 0 <= i < |e.relas| {
      ConsiderInNumbers(e.relas[i], TextOf(e), DataOf(e), BssSize(e));
    }
  }

  lemma LowIs(e: Elf)
    ensures DataEnd(e) <= Low(e) <==> forall s :: s in e.bss ==> DataEnd(e) <= s.address
  {
    if e.bss != [] {
      BssExtent(e.bss);
      LowestIsOne(e.bss);
    }
  }

  lemma {:induction false} LowestIsOne(bss: seq<Section>)
    requires bss != []
    ensures exists s :: s in bss && s.address == Lowest(bss)
    decreases |bss|
  {
    if |bss| == 1 {
      assert bss[0] in bss;
    } else {
      LowestIsOne(bss[..|bss| - 1]);
      assert bss[|bss| - 1] in bss;
    }
  }

  /** The bss part of the loader: where it starts and how much it takes. */
  method BssPart(e: Elf) returns (address: nat, size: nat)
    ensures address == Low(e) && size == BssSize(e)
    ensures e.bss == [] ==> address == e.data.address + |e.data.data| && size == 0
    ensures e.bss != [] ==>
      (exists s :: s in e.bss && s.address == address) && exists s :: s in e.bss && s.address + s.size == address + size
  {
    address, size := DataEnd(e), 0;
    if e.bss != [] {
      var limit;
      address, limit := BssBounds(e.bss);
      BssExtent(e.bss);
      size := limit - address;
    }
  }

  /** The Python loader: padding and relocations. */
  method LoadElf(e: Elf) returns (r: Outcome<Loaded>)
    ensures r.Ok? <==> Convertible(e)
    ensures r.Ok? ==> r.value == LoadedOf(e)
    ensures var text, data, bssSize := TextOf(e), DataOf(e), BssSize(e);
      r.Ok? <==>
        && e.executable && e.m68k && e.segments == 2
        && e.text.load && e.text.flags % 8 == 5 && e.text.address == 0
        && e.data.load && e.data.flags % 8 == 6 && |e.text.data| <= e.data.address
        && (forall s :: s in e.bss ==> e.data.address + |e.data.data| <= s.address)
        && forall i :: 0 <= i < |e.relas| ==>
             var x := e.relas[i];
             && x.address < |text| + |data| && x.rela && x.found
             && (x.kind == 0 || x.kind == 4 || x.kind == 5 || x.kind == 6 ||
                 (&& x.kind == 1
                  && (if x.target < |text| then x.addend <= |text|
                      else if x.target < |text| + |data| then x.addend <= |data|
                      else x.target <= |text| + |data| + bssSize && x.addend <= bssSize)
                  && (if x.address < |text| then
                        x.address + 4 <= |text| && Get32(text, x.address) == x.target + x.addend
                      else
                        x.address + 4 <= |text| + |data| && Get32(data, x.address - |text|) == x.target + x.addend)))
    ensures r.Ok? ==>
      && |r.value.text| == e.data.address && e.text.data <= r.value.text && e.data.data <= r.value.data
      && (e.bss == [] ==> r.value.data == e.data.data && r.value.bssSize == 0)
      && (e.bss != [] ==>
            && (exists s :: s in e.bss && s.address == e.data.address + |r.value.data|)
            && exists s :: s in e.bss && s.address + s.size == e.data.address + |r.value.data| + r.value.bssSize)
    ensures r.Ok? ==> forall o :: o in r.value.relocs <==>
      exists i :: 0 <= i < |e.relas| && e.relas[i].kind == 1 && e.relas[i].address == o
    ensures r.Ok? ==> forall i :: 0 <= i < |e.relas| && LastAt(e.relas, i) ==>
      var text, data := r.value.text, r.value.data;
      && e.relas[i].address in r.value.relocs
      && r.value.relocs[e.relas[i].address] ==
           if e.relas[i].target < |text| then Text else if e.relas[i].target < |text| + |data| then Data else Bss
  {
    ConvertibleInNumbers(e);
    hide Consider, Recorded, Get32, Low, BssSize, LastAt;
    var bssAddress, bssSize := BssPart(e);
    r := LoadParts(e, bssAddress, bssSize);
  }

  /** Everything the loader checks, in its order, and the padding. */
  method LoadParts(e: Elf, bssAddress: nat, bssSize: nat) returns (r: Outcome<Loaded>)
    requires bssAddress == Low(e) && bssSize == BssSize(e)
    ensures r.Ok? <==> Convertible(e)
    ensures r.Ok? ==> r.value == LoadedOf(e)
    ensures r.Ok? ==>
      |r.value.text| == e.data.address && e.text.data <= r.value.text && e.data.data <= r.value.data &&
      e.data.address + |r.value.data| == bssAddress && r.value.bssSize == bssSize
    ensures r.Ok? ==> forall o :: o in r.value.relocs <==>
      exists i :: 0 <= i < |e.relas| && e.relas[i].kind == 1 && e.relas[i].address == o
    ensures r.Ok? ==> forall i :: 0 <= i < |e.relas| && LastAt(e.relas, i) ==>
      var text, data := r.value.text, r.value.data;
      && e.relas[i].address in r.value.relocs
      && r.value.relocs[e.relas[i].address] ==
           if e.relas[i].target < |text| then Text else if e.relas[i].target < |text| + |data| then Data else Bss
  {
    hide Consider, Recorded, Get32, Low, BssSize, LastAt;
    if !e.executable {
      return Error("not an ELF executable file");
    }
    if !e.m68k {
      return Error("not an M68K ELF file");
    }
    if e.segments != 2 {
      return Error("wrong number of segments in ELF file");
    }
    if e.data.address < e.text.address + |e.text.data| {
      return Error("data segment before text");
    }
    if bssAddress < DataEnd(e) {
      return Error("BSS before data segment");
    }
    if !e.text.load || !e.data.load {
      return Error("expected two PT_LOAD segments");
    }
    if e.text.flags % 8 != PF_RX {
      return Error("text segment is not RX");
    }
    if e.text.address != 0 {
      return Error("text segment is not at 0");
    }
    if e.data.flags % 8 != PF_RW {
      return Error("data segment is not RW");
    }
    var text := Extend(e.text.data, e.data.address);
    var data := Extend(e.data.data, bssAddress - e.data.address);
    var relocs := LoadRelocs(e.relas, text, data, bssSize);
    if relocs.Error? {
      return Error(relocs.why);
    }
    r := Ok(Loaded(text, data, bssSize, relocs.value));
  }

  function LoadedOf(e: Elf): Loaded {
    Loaded(TextOf(e), DataOf(e), BssSize(e), Recorded(e.relas, |TextOf(e)|, |DataOf(e)|, BssSize(e)))
  }

  /** Every recorded relocation is of a long. */
  function Translate(relocs: map<nat, Kind>): (p: Places)
    ensures p.Keys == relocs.Keys && forall o :: o in p ==> p[o] == Place(relocs[o], true)
  {
    map o | o in relocs :: Place(relocs[o], true)
  }

  function ImageOf(l: Loaded): Image {
    Image(l.text, 0, l.data, l.bssSize, Translate(l.relocs))
  }
}
