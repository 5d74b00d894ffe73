/** The relocation table of a CP/M-68K command file: one 16-bit word for each word
    of the text and data, its low three bits saying what is there. */
module Reloc {
  import opened Basics
  import opened Sectors

  datatype Kind = Data | Text | Bss

  /** A place to be relocated: by which segment, and whether it is a long. */
  datatype Place = Place(kind: Kind, wide: bool)

  type Places = map<nat, Place>

  const ABSOLUTE: byte := 0
  const UPPER: byte := 5
  const INSTRUCTION: byte := 7

  function Code(kind: Kind): byte {
    match kind
    case Data => 1
    case Text => 2
    case Bss => 3
  }

  function KindOf(code: byte): Kind
    requires IsPlace(code)
  {
    if code == 1 then Data else if code == 2 then Text else Bss
  }

  predicate IsPlace(code: byte) {
    1 <= code <= 3
  }

  /** The type bits of the word at `o`. */
  function Tag(table: seq<byte>, o: nat): (t: byte)
    requires o + 2 <= |table|
    ensures t < 8
  {
    table[o + 1] % 8
  }

  /** Every word is one that a load file may have. */
  predicate Legal(table: seq<byte>) {
    |table| % 2 == 0 &&
    forall o :: 0 <= o < |table| && o % 2 == 0 ==> Tag(table, o) != 4 && Tag(table, o) != 6
  }

  /** A long starts at `o`: a prefix word and then a place. */
  predicate WideAt(table: seq<byte>, o: nat) {
    o % 2 == 0 && o + 4 <= |table| && Tag(table, o) == UPPER && IsPlace(Tag(table, o + 2))
  }

  /** A word starts at `o`: a place with no prefix before it. */
  predicate NarrowAt(table: seq<byte>, o: nat) {
    o % 2 == 0 && o + 2 <= |table| && IsPlace(Tag(table, o)) && (o >= 2 ==> Tag(table, o - 2) != UPPER)
  }

  function PlaceAt(table: seq<byte>, o: nat): Place
    requires WideAt(table, o) || NarrowAt(table, o)
  {
    if WideAt(table, o) then Place(KindOf(Tag(table, o + 2)), true) else Place(KindOf(Tag(table, o)), false)
  }

  /** What a table means, word by word and without a running state. */
  function Decoded(table: seq<byte>): Places {
    map o: nat | 0 <= o < |table| && (WideAt(table, o) || NarrowAt(table, o)) :: PlaceAt(table, o)
  }

  /** Even, inside an image of `size` bytes, and not overlapping. */
  predicate WellFormed(places: Places, size: nat) {
    size % 2 == 0 &&
    forall o :: o in places ==>
      o % 2 == 0 && o + Width(places[o]) <= size && (places[o].wide ==> o + 2 !in places)
  }

  function Width(p: Place): nat {
    if p.wide then 4 else 2
  }

  /** The word a table has at `o`. */
  function WordFor(places: Places, o: nat): byte {
    if o in places then (if places[o].wide then UPPER else Code(places[o].kind))
    else if o >= 2 && o - 2 in places && places[o - 2].wide then Code(places[o - 2].kind)
    else ABSOLUTE
  }

  /** The table of a well-formed map. */
  function Encoded(places: Places, size: nat): (table: seq<byte>)
    ensures |table| == size
  {
    seq(size, p requires 0 <= p < size => if p % 2 == 1 then WordFor(places, p - 1) else 0)
  }

  /** What the words before `k` mean on their own. */
  ghost function Upto(table: seq<byte>, k: nat): Places {
    map o: nat | 0 <= o < |table| && ((WideAt(table, o) && o + 4 <= k) || (NarrowAt(table, o) && o + 2 <= k)) ::
      PlaceAt(table, o)
  }

  /** What ends with the word at `k`. */
  lemma EndsWith(table: seq<byte>, k: nat, o: nat)
    requires k % 2 == 0 && k + 2 <= |table|
    ensures var tag, size32 := Tag(table, k), k >= 2 && Tag(table, k - 2) == UPPER;
      && (WideAt(table, o) && o + 4 == k + 2 <==> IsPlace(tag) && size32 && o == k - 2)
      && (NarrowAt(table, o) && o + 2 == k + 2 <==> IsPlace(tag) && !size32 && o == k)
      && (WideAt(table, o) ==> o % 2 == 0 && o + 4 <= |table| && !NarrowAt(table, o))
      && (NarrowAt(table, o) ==> o % 2 == 0)
      && (o == k - 2 && WideAt(table, o) ==> PlaceAt(table, o) == Place(KindOf(tag), true))
      && (o == k && NarrowAt(table, o) ==> PlaceAt(table, o) == Place(KindOf(tag), false))
  {
  }

  /** The word at `k` ends a place or none, depending on the word before it. */
  lemma UptoNext(table: seq<byte>, k: nat)
    requires k % 2 == 0 && k + 2 <= |table|
    ensures var tag, size32 := Tag(table, k), k >= 2 && Tag(table, k - 2) == UPPER;
      Upto(table, k + 2) ==
        if !IsPlace(tag) then Upto(table, k)
        else if size32 then Upto(table, k)[k - 2 := Place(KindOf(tag), true)]
        else Upto(table, k)[k := Place(KindOf(tag), false)]
  {
    hide Tag, IsPlace, WideAt, NarrowAt, PlaceAt;
    var tag, size32 := Tag(table, k), k >= 2 && Tag(table, k - 2) == UPPER;
    var next := if !IsPlace(tag) then Upto(table, k)
      else Upto(table, k)[(if size32 then k - 2 else k) := Place(KindOf(tag), size32)];
    forall o: nat
      ensures o in Upto(table, k + 2) <==> o in next
      ensures o in next ==> Upto(table, k + 2)[o] == next[o]
    {
      EndsWith(table, k, o);
    }
    assert Upto(table, k + 2) == next;
  }

  lemma UptoEnds(table: seq<byte>)
    ensures Upto(table, 0) == map[]
    ensures |table| % 2 == 0 ==> Upto(table, |table|) == Decoded(table)
  {
  }

  /** The meaning of a table in numbers: type bits 1, 2 and 3 name data, text and bss, 5
      makes a long of the word that follows, and 4 and 6 are refused. */
  lemma TableInNumbers(table: seq<byte>)
    ensures Legal(table) <==>
      |table| % 2 == 0 && forall p :: 0 <= p < |table| && p % 2 == 1 ==> table[p] % 8 != 4 && table[p] % 8 != 6
    ensures forall o: nat :: o in Decoded(table) <==>
      && o % 2 == 0 && o + 2 <= |table|
      && if table[o + 1] % 8 == 5 then o + 4 <= |table| && 1 <= table[o + 3] % 8 <= 3
         else 1 <= table[o + 1] % 8 <= 3 && (o >= 2 ==> table[o - 1] % 8 != 5)
    ensures forall o :: o in Decoded(table) ==>
      var place := Decoded(table)[o];
      && (if place.wide then o + 4 <= |table| && table[o + 1] % 8 == 5 else o + 2 <= |table| && table[o + 1] % 8 != 5)
      && var bits := table[if place.wide then o + 3 else o + 1] % 8;
         match place.kind case Data => bits == 1 case Text => bits == 2 case Bss => bits == 3
  {
    if |table| % 2 == 0 {
      if forall p :: 0 <= p < |table| && p % 2 == 1 ==> table[p] % 8 != 4 && table[p] % 8 != 6 {
      }
      if Legal(table) {
        forall p | 0 <= p < |table| && p % 2 == 1 ensures table[p] % 8 != 4 && table[p] % 8 != 6 {
          assert Tag(table, p - 1) != 4 && Tag(table, p - 1) != 6;
        }
      }
    }
  }

  /** The decoder: one pass with a flag for the prefix. */
  method DecodeRelocs(table: seq<byte>) returns (r: Outcome<Places>)
    ensures r.Ok? <==> Legal(table)
    ensures r.Ok? <==>
      |table| % 2 == 0 && forall p :: 0 <= p < |table| && p % 2 == 1 ==> table[p] % 8 != 4 && table[p] % 8 != 6
    ensures r.Ok? ==> r.value == Decoded(table)
    ensures r.Ok? ==> forall o: nat :: o in r.value <==>
      && o % 2 == 0 && o + 2 <= |table|
      && if table[o + 1] % 8 == 5 then o + 4 <= |table| && 1 <= table[o + 3] % 8 <= 3
         else 1 <= table[o + 1] % 8 <= 3 && (o >= 2 ==> table[o - 1] % 8 != 5)
    ensures r.Ok? ==> forall o :: o in r.value ==>
      var place := r.value[o];
      && (if place.wide then o + 4 <= |table| && table[o + 1] % 8 == 5 else o + 2 <= |table| && table[o + 1] % 8 != 5)
      && var bits := table[if place.wide then o + 3 else o + 1] % 8;
         match place.kind case Data => bits == 1 case Text => bits == 2 case Bss => bits == 3
  {
    TableInNumbers(table);
    hide Upto, Decoded, Tag;
    UptoEnds(table);
    if |table| % 2 != 0 {
      return Error("table size");
    }
    var relocs: Places := map[];
    var size32, offset := false, 0;
    while offset < |table|
      invariant offset <= |table| && offset % 2 == 0
      invariant size32 == (offset >= 2 && Tag(table, offset - 2) == UPPER)
      invariant forall o :: 0 <= o < offset && o % 2 == 0 ==> Tag(table, o) != 4 && Tag(table, o) != 6
      invariant relocs == Upto(table, offset)
    {
      var tag := Tag(table, offset);
      UptoNext(table, offset);
      if tag == ABSOLUTE || tag == INSTRUCTION {
      } else if IsPlace(tag) {
        if size32 {
          relocs := relocs[offset - 2 := Place(KindOf(tag), true)];
        } else {
          relocs := relocs[offset := Place(KindOf(tag), false)];
        }
      } else if tag != UPPER {
        return Error("unexpected reloc");
      }
      offset := offset + 2;
      size32 := tag == UPPER;
    }
    r := Ok(relocs);
  }

  predicate InBounds(places: Places, size: nat) {
    forall o :: o in places ==> o + Width(places[o]) <= size
  }

  lemma Inside(places: Places, size: nat)
    ensures WellFormed(places, size) ==> InBounds(places, size)
    ensures InBounds(places, size) <==> forall o :: o in places ==> o + (if places[o].wide then 4 else 2) <= size
  {
  }

  /** The map cut down to the places in `done`. */
  function Only(places: Places, done: set<nat>): Places {
    map o: nat | o in places && o in done :: places[o]
  }

  /** Packing one more entry changes its own words and no other. */
  lemma OnlyOneMore(places: Places, size: nat, done: set<nat>, at: nat, o: nat)
    requires WellFormed(places, size) && at in places && at !in done && o % 2 == 0
    ensures var p, d := places[at], done + {at};
      WordFor(Only(places, d), o) ==
        if o == at then (if p.wide then UPPER else Code(p.kind))
        else if p.wide && o == at + 2 then Code(p.kind)
        else WordFor(Only(places, done), o)
  {
  }

  predicate Filled(table: seq<byte>, places: Places) {
    forall p :: 0 <= p < |table| ==> table[p] == if p % 2 == 1 then WordFor(places, p - 1) else 0
  }

  /** The two words of one entry, packed into a table. */
  lemma Packed(before: seq<byte>, after: seq<byte>, places: Places, done: set<nat>, at: nat)
    requires WellFormed(places, |before|) && at in places && at !in done && |after| == |before|
    requires Filled(before, Only(places, done))
    requires forall p :: 0 <= p < |after| ==> after[p] == PackedByte(before, at, places[at], p)
    ensures Filled(after, Only(places, done + {at}))
  {
    hide Only, WordFor;
    forall p | 0 <= p < |after|
      ensures after[p] == if p % 2 == 1 then WordFor(Only(places, done + {at}), p - 1) else 0
    {
      if p % 2 == 1 {
        OnlyOneMore(places, |before|, done, at, p - 1);
      }
    }
  }

  /** One entry packed into a table: a prefix word if it is a long, and its type. */
  function PackOne(table: seq<byte>, at: nat, place: Place): (r: seq<byte>)
    requires at + Width(place) <= |table|
    ensures |r| == |table|
  {
    seq(|table|, p requires 0 <= p < |table| => PackedByte(table, at, place, p))
  }

  function PackedByte(table: seq<byte>, at: nat, place: Place, p: nat): byte
    requires p < |table|
  {
    if p == at + 1 then (if place.wide then UPPER else Code(place.kind))
    else if place.wide && p == at + 3 then Code(place.kind)
    else if at <= p < at + Width(place) then 0
    else table[p]
  }

  /** The entries at `order`, packed one after the other into an empty table. */
  function PackAll(places: Places, size: nat, order: seq<nat>): (r: seq<byte>)
    requires forall o :: o in order ==> o in places && o + Width(places[o]) <= size
    ensures |r| == size
  {
    if order == [] then Zeros(size)
    else
      var front, o := order[..|order| - 1], order[|order| - 1];
      assert forall q :: q in front ==> q in order;
      PackOne(PackAll(places, size, front), o, places[o])
  }

  /** `order` is a walk through all of the map. */
  ghost predicate Walks(order: seq<nat>, places: Places) {
    && (forall o :: o in order <==> o in places)
    && (forall i, j :: 0 <= i < j < |order| ==> order[i] != order[j])
  }

  function Elements(order: seq<nat>): set<nat> {
    set o | o in order
  }

  /** In a well-formed map no entry overwrites another, whatever the order. */
  lemma {:induction false} PackedInAnyOrder(places: Places, size: nat, order: seq<nat>)
    requires WellFormed(places, size) && forall o :: o in order ==> o in places
    requires forall i, j :: 0 <= i < j < |order| ==> order[i] != order[j]
    ensures Filled(PackAll(places, size, order), Only(places, Elements(order)))
    decreases |order|
  {
    hide Filled, Only, Walks, Width;
    if order == [] {
      assert Elements(order) == {};
      NothingPacked(places, size);
    } else {
      var front, o := order[..|order| - 1], order[|order| - 1];
      var done := Elements(front);
      assert Elements(order) == done + {o} && o !in front;
      PackedInAnyOrder(places, size, front);
      Packed(PackAll(places, size, front), PackAll(places, size, order), places, done, o);
    }
  }

  lemma NothingPacked(places: Places, size: nat)
    ensures Filled(Zeros(size), Only(places, {}))
  {
  }

  lemma AllPacked(places: Places, size: nat, order: seq<nat>)
    requires WellFormed(places, size) && Walks(order, places)
    ensures PackAll(places, size, order) == Encoded(places, size)
  {
    PackedInAnyOrder(places, size, order);
    assert Elements(order) == places.Keys && Only(places, places.Keys) == places;
  }

  /** The same of the table of a well-formed map, byte by byte. */
  lemma EncodedInNumbers(places: Places, size: nat)
    requires WellFormed(places, size)
    ensures forall p :: 0 <= p < size ==>
      Encoded(places, size)[p] ==
      (if p % 2 == 0 then 0
       else if p - 1 in places && places[p - 1].wide then 5
       else if p - 1 in places then (match places[p - 1].kind case Data => 1 case Text => 2 case Bss => 3)
       else if p - 3 in places && places[p - 3].wide then
         (match places[p - 3].kind case Data => 1 case Text => 2 case Bss => 3)
       else 0)
  {
  }

  /** The body of the encoder's loop: one entry, unless it is out of bounds. */
  method PackEntry(table: array<byte>, offset: nat, place: Place) returns (ok: bool)
    modifies table
    ensures ok <==> offset + Width(place) <= table.Length
    ensures ok ==> table[..] == PackOne(old(table[..]), offset, place)
  {
    var at := offset;
    if place.wide {
      if offset + 4 > table.Length {
        return false;
      }
      table[at], table[at + 1] := 0, UPPER;
      at := at + 2;
    } else {
      if offset + 2 > table.Length {
        return false;
      }
    }
    table[at], table[at + 1] := 0, Code(place.kind);
    ok := true;
  }

  /** The encoder: packs the entries of the map into a zeroed table, in whatever
      order the map is walked. Entries that overlap overwrite one another, so only for
      a well-formed map is the table the same for every order. */
  method EncodeRelocs(places: Places, size: nat) returns (r: Outcome<seq<byte>>, ghost order: seq<nat>)
    ensures r.Ok? <==> InBounds(places, size)
    ensures r.Ok? <==> forall o :: o in places ==> o + (if places[o].wide then 4 else 2) <= size
    ensures r.Ok? ==> Walks(order, places) && r.value == PackAll(places, size, order)
    ensures WellFormed(places, size) ==> r == Ok(Encoded(places, size))
    ensures WellFormed(places, size) ==> r.Ok? && |r.value| == size && forall p :: 0 <= p < size ==>
      r.value[p] ==
      (if p % 2 == 0 then 0
       else if p - 1 in places && places[p - 1].wide then 5
       else if p - 1 in places then (match places[p - 1].kind case Data => 1 case Text => 2 case Bss => 3)
       else if p - 3 in places && places[p - 3].wide then
         (match places[p - 3].kind case Data => 1 case Text => 2 case Bss => 3)
       else 0)
  {
    hide PackAll, PackOne, Encoded, WellFormed, Width;
    var table := new byte[size](_ => 0);
    order := [];
    Inside(places, size);
    assert table[..] == PackAll(places, size, []) by {
      PackedNothing(places, table[..]);
    }
    var todo: set<nat> := places.Keys;
    while todo != {}
      invariant todo <= places.Keys
      invariant forall o :: o in order <==> o in places && o !in todo
      invariant forall i, j :: 0 <= i < j < |order| ==> order[i] != order[j]
      invariant forall o :: o in order ==> o + Width(places[o]) <= size
      invariant table[..] == PackAll(places, size, order)
      decreases |todo|
    {
      var offset :| offset in todo;
      var ok := PackEntry(table, offset, places[offset]);
      if !ok {
        return Error("reloc offset out of bounds"), order;
      }
      PackedNext(places, size, order, offset);
      todo := todo - {offset};
      order := order + [offset];
    }
    if WellFormed(places, size) {
      AllPacked(places, size, order);
      EncodedInNumbers(places, size);
    }
    r := Ok(table[..]);
  }

  lemma PackedNothing(places: Places, table: seq<byte>)
    requires forall p :: 0 <= p < |table| ==> table[p] == 0
    ensures table == PackAll(places, |table|, [])
  {
  }

  lemma PackedNext(places: Places, size: nat, order: seq<nat>, o: nat)
    requires forall q :: q in order ==> q in places && q + Width(places[q]) <= size
    requires o in places && o + Width(places[o]) <= size
    ensures forall q :: q in order + [o] ==> q in places && q + Width(places[q]) <= size
    ensures PackAll(places, size, order + [o]) == PackOne(PackAll(places, size, order), o, places[o])
  {
    assert (order + [o])[..|order|] == order;
  }

  /** Whatever a table decodes to is well formed. */
  lemma DecodedIsWellFormed(table: seq<byte>)
    requires Legal(table)
    ensures WellFormed(Decoded(table), |table|)
  {
  }

  lemma EncodedTags(places: Places, size: nat, o: nat)
    requires WellFormed(places, size) && o % 2 == 0 && o < size
    ensures Tag(Encoded(places, size), o) == WordFor(places, o)
  {
  }

  lemma EncodedPlace(places: Places, size: nat, o: nat)
    requires WellFormed(places, size)
    ensures var table := Encoded(places, size);
      && (WideAt(table, o) <==> o in places && places[o].wide)
      && (NarrowAt(table, o) <==> o in places && !places[o].wide)
      && (o in places ==> PlaceAt(table, o) == places[o])
  {
    hide Encoded;
    if o % 2 == 0 && o < size {
      EncodedTags(places, size, o);
      if o + 2 < size {
        EncodedTags(places, size, o + 2);
      }
      if o >= 2 {
        EncodedTags(places, size, o - 2);
      }
    }
  }

  /** Decoding undoes encoding. */
  lemma DecodeEncode(places: Places, size: nat)
    requires WellFormed(places, size)
    ensures Legal(Encoded(places, size))
    ensures Decoded(Encoded(places, size)) == places
  {
    hide Encoded, WideAt, NarrowAt, PlaceAt;
    var table := Encoded(places, size);
    forall o: nat | o % 2 == 0 && o < size ensures Tag(table, o) != 4 && Tag(table, o) != 6 {
      EncodedTags(places, size, o);
    }
    forall o: nat
      ensures (WideAt(table, o) || NarrowAt(table, o)) <==> o in places
      ensures o in places ==> PlaceAt(table, o) == places[o]
    {
      EncodedPlace(places, size, o);
    }
  }

  /** The round trip works for exactly the well-formed maps. */
  lemma RoundTripExactly(places: Places, table: seq<byte>)
    requires WellFormed(places, |table|) ==> table == Encoded(places, |table|)
    ensures (Legal(table) && Decoded(table) == places) <==> WellFormed(places, |table|)
  {
    if WellFormed(places, |table|) {
      DecodeEncode(places, |table|);
    }
    if Legal(table) {
      DecodedIsWellFormed(table);
    }
  }

  /** A table as the encoder would have written it: prefixes only before places, and
      nothing but type bits. */
  function Canonical(table: seq<byte>): (c: seq<byte>)
    requires |table| % 2 == 0
    ensures |c| == |table|
  {
    seq(|table|, p requires 0 <= p < |table| =>
      if p % 2 == 0 then 0
      else if IsPlace(Tag(table, p - 1)) || WideAt(table, p - 1) then Tag(table, p - 1)
      else ABSOLUTE)
  }

  /** Encoding what a table means gives the canonical table, which means the same;
      canonical tables come back as they were. */
  lemma EncodeDecode(table: seq<byte>)
    requires Legal(table)
    ensures Encoded(Decoded(table), |table|) == Canonical(table)
    ensures Legal(Canonical(table)) && Decoded(Canonical(table)) == Decoded(table)
    ensures Canonical(Canonical(table)) == Canonical(table)
  {
    hide Encoded, Canonical, Decoded, Legal;
    CanonicalIsEncoded(table);
    DecodedIsWellFormed(table);
    DecodeEncode(Decoded(table), |table|);
    CanonicalIsEncoded(Canonical(table));
  }

  lemma CanonicalIsEncoded(table: seq<byte>)
    requires Legal(table)
    ensures Encoded(Decoded(table), |table|) == Canonical(table)
  {
    hide Decoded, WideAt, WordFor, Tag, IsPlace;
    forall p | 0 <= p < |table| ensures Encoded(Decoded(table), |table|)[p] == Canonical(table)[p] {
      if p % 2 == 1 {
        WordForDecoded(table, p - 1);
      }
    }
  }

  lemma WordForDecoded(table: seq<byte>, o: nat)
    requires Legal(table) && o % 2 == 0 && o < |table|
    ensures WordFor(Decoded(table), o) == if IsPlace(Tag(table, o)) || WideAt(table, o) then Tag(table, o) else ABSOLUTE
  {
    var d := Decoded(table);
    assert o in d <==> WideAt(table, o) || NarrowAt(table, o);
    if o >= 2 {
      assert o - 2 in d <==> WideAt(table, o - 2) || NarrowAt(table, o - 2);
    }
  }
}
