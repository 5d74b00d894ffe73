/** What the system's program loader does with a command file, and what a program
    finds then. The loader is not part of the library: it is taken to place the three
    segments somewhere, and to add to each place in the relocation table the distance
    that the segment named there has moved. */
module LoadTime {
  import opened Basics
  import opened Sectors
  import opened Reloc
  import opened Image

  const WORD16: nat := 0x1_0000

  /** Where the segments are placed. */
  datatype Segments = Segments(text: nat, data: nat, bss: nat)

  /** How far each segment is from where it was linked. */
  datatype Bias = Bias(text: int, data: int, bss: int)

  function Of(b: Bias, kind: Kind): int {
    match kind
    case Text => b.text
    case Data => b.data
    case Bss => b.bss
  }

  /** A program is linked with its data after its text and its bss after its data. */
  function BiasOf(img: Image, at: Segments): Bias {
    Bias(at.text - img.textAddress,
         at.data - (img.textAddress + |img.text|),
         at.bss - (img.textAddress + CodeSize(img)))
  }

  /** Placed one after the other. Addresses are 32 bits. */
  predicate Contiguous(img: Image, at: Segments) {
    (at.data - at.text - |img.text|) % WORD32 == 0 && (at.bss - at.data - |img.data|) % WORD32 == 0
  }

  function AllAt(img: Image, base: nat): Segments {
    Segments(base, base + |img.text|, base + CodeSize(img))
  }

  function Uniform(bias: int): Bias {
    Bias(bias, bias, bias)
  }

  /** Places at even addresses, inside the program and apart. */
  predicate Apart(places: Places, size: nat) {
    forall o :: o in places ==>
      o % 2 == 0 && o + Width(places[o]) <= size && (places[o].wide ==> o + 2 !in places)
  }

  /** The start of the place that byte `p` belongs to, or -1. */
  function Owner(places: Places, p: nat): int {
    var e := p - p % 2;
    if e in places then e else if e >= 2 && e - 2 in places && places[e - 2].wide then e - 2 else -1
  }

  /** What a place holds after it has been moved. */
  function MovedField(mem: seq<byte>, place: Place, o: nat, b: Bias): (f: seq<byte>)
    requires o + Width(place) <= |mem|
    ensures |f| == Width(place)
  {
    if place.wide then Put32((Get32(mem, o) + Of(b, place.kind)) % WORD32)
    else Put16((Get16(mem, o) + Of(b, place.kind)) % WORD16)
  }

  /** A program moved: every place that the table names has its segment's bias added. */
  function Relocate(mem: seq<byte>, places: Places, b: Bias): (r: seq<byte>)
    requires Apart(places, |mem|)
    ensures |r| == |mem|
  {
    seq(|mem|, p requires 0 <= p < |mem| => RelocatedByte(mem, places, b, p))
  }

  function RelocatedByte(mem: seq<byte>, places: Places, b: Bias, p: nat): byte
    requires Apart(places, |mem|) && p < |mem|
  {
    var o := Owner(places, p);
    if o == -1 then mem[p] else MovedField(mem, places[o], o, b)[p - o]
  }

  lemma OwnerOf(places: Places, size: nat, o: nat, p: nat)
    requires Apart(places, size) && o in places && o <= p < o + Width(places[o])
    ensures p < size && Owner(places, p) == o
  {
  }

  /** The places named are moved. */
  lemma RelocateAt(mem: seq<byte>, places: Places, b: Bias, o: nat)
    requires Apart(places, |mem|) && o in places
    ensures var r, p := Relocate(mem, places, b), places[o];
      && o + Width(p) <= |mem|
      && (p.wide ==> Get32(r, o) == (Get32(mem, o) + Of(b, p.kind)) % WORD32)
      && (!p.wide ==> Get16(r, o) == (Get16(mem, o) + Of(b, p.kind)) % WORD16)
  {
    hide Get32, Put32, Get16, Put16, Owner, Of;
    assert o + Width(places[o]) <= |mem|;
    hide Apart;
    var r, field := Relocate(mem, places, b), MovedField(mem, places[o], o, b);
    var part := r[o..o + Width(places[o])];
    forall k | 0 <= k < Width(places[o]) ensures part[k] == field[k] {
      OwnerOf(places, |mem|, o, o + k);
    }
    assert part == field;
    if places[o].wide {
      Get32Shift(r, o, 0);
    } else {
      Get16Shift(r, o);
    }
  }

  /** A pointer to byte `i` of a segment points at that byte wherever the segment is placed,
      if the table names the segment. */
  lemma PointerMoves(img: Image, mem: seq<byte>, places: Places, at: Segments, o: nat, i: nat)
    requires Apart(places, |mem|) && o in places && places[o].wide
    ensures o + 4 <= |mem|
    ensures var linked, now := Get32(mem, o), Get32(Relocate(mem, places, BiasOf(img, at)), o);
      match places[o].kind
      case Text => linked == img.textAddress + i ==> now == (at.text + i) % 0x1_0000_0000
      case Data => linked == img.textAddress + |img.text| + i ==> now == (at.data + i) % 0x1_0000_0000
      case Bss => linked == img.textAddress + |img.text| + |img.data| + i ==> now == (at.bss + i) % 0x1_0000_0000
  {
    hide Relocate, Get32, Apart;
    RelocateAt(mem, places, BiasOf(img, at), o);
  }

  lemma Get16Shift(b: seq<byte>, o: nat)
    requires o + 2 <= |b|
    ensures Get16(b, o) == Get16(b[o..o + 2], 0)
  {
  }

  /** Two biases that a place cannot tell from each other. */
  predicate Alike(b: Bias, p: Kind, c: Bias, q: Kind, wide: bool) {
    (Of(b, p) - Of(c, q)) % (if wide then WORD32 else WORD16) == 0
  }

  predicate SameShape(p: Places, q: Places) {
    p.Keys == q.Keys && forall o :: o in p ==> p[o].wide == q[o].wide
  }

  lemma Congruent(x: int, a: int, b: int, m: nat)
    requires m > 0
    ensures (x + a) % m == (x + b) % m <==> (a - b) % m == 0
  {
    var k, l := (x + a) / m, (x + b) / m;
    assert x + a == k * m + (x + a) % m && x + b == l * m + (x + b) % m;
    if (x + a) % m == (x + b) % m {
      assert a - b == (k - l) * m;
      ModOfMultiple(k - l, m);
    } else if (a - b) % m == 0 {
      var n := (a - b) / m;
      assert a - b == n * m;
      assert (x + a) % m - (x + b) % m == (n - k + l) * m;
      SmallMultiple(n - k + l, m);
    }
  }

  lemma ModOfMultiple(n: int, m: nat)
    requires m > 0
    ensures (n * m) % m == 0
  {
    var q := (n * m) / m;
    assert n * m == q * m + (n * m) % m;
    assert (n * m) % m == (n - q) * m;
    SmallMultiple(n - q, m);
  }

  lemma SameBytes(mem: seq<byte>, p: Places, b: Bias, q: Places, c: Bias)
    requires Apart(p, |mem|) && Apart(q, |mem|) && SameShape(p, q)
    requires forall o :: o in p ==>
      o + Width(p[o]) <= |mem| && MovedField(mem, p[o], o, b) == MovedField(mem, q[o], o, c)
    ensures Relocate(mem, p, b) == Relocate(mem, q, c)
  {
    hide MovedField, Apart;
    var l, r := Relocate(mem, p, b), Relocate(mem, q, c);
    forall i | 0 <= i < |mem| ensures l[i] == r[i] {
      assert Owner(p, i) == Owner(q, i);
    }
  }

  lemma FieldByteAt(mem: seq<byte>, p: Places, b: Bias, o: nat, k: nat)
    requires Apart(p, |mem|) && o in p && k < Width(p[o])
    ensures o + Width(p[o]) <= |mem| && Relocate(mem, p, b)[o + k] == MovedField(mem, p[o], o, b)[k]
  {
    assert o + Width(p[o]) <= |mem|;
    hide MovedField, Apart, Owner;
    OwnerOf(p, |mem|, o, o + k);
  }

  lemma SameFields(mem: seq<byte>, p: Places, b: Bias, q: Places, c: Bias, o: nat)
    requires Apart(p, |mem|) && Apart(q, |mem|) && SameShape(p, q) && o in p
    requires Relocate(mem, p, b) == Relocate(mem, q, c)
    ensures o + Width(p[o]) <= |mem| && MovedField(mem, p[o], o, b) == MovedField(mem, q[o], o, c)
  {
    hide MovedField, Apart, Relocate;
    assert q[o].wide == p[o].wide && 0 < Width(p[o]) == Width(q[o]);
    FieldByteAt(mem, p, b, o, 0);
    var l, r := MovedField(mem, p[o], o, b), MovedField(mem, q[o], o, c);
    forall k | 0 <= k < Width(p[o]) ensures l[k] == r[k] {
      FieldByteAt(mem, p, b, o, k);
      FieldByteAt(mem, q, c, o, k);
    }
  }

  /** Two tables that name the same places, by whatever segments, give the same program
      if and only if at each place the two biases are alike. */
  lemma SameProgram(mem: seq<byte>, p: Places, b: Bias, q: Places, c: Bias)
    requires Apart(p, |mem|) && Apart(q, |mem|) && SameShape(p, q)
    ensures Relocate(mem, p, b) == Relocate(mem, q, c)
       <==> forall o :: o in p ==> Alike(b, p[o].kind, c, q[o].kind, p[o].wide)
  {
    assert forall o :: o in p ==> o + Width(p[o]) <= |mem| && q[o].wide == p[o].wide;
    hide Apart, Relocate, MovedField, Alike;
    if Relocate(mem, p, b) == Relocate(mem, q, c) {
      forall o | o in p ensures Alike(b, p[o].kind, c, q[o].kind, p[o].wide) {
        SameFields(mem, p, b, q, c, o);
        SameField(mem, p[o], b, q[o], c, o);
      }
    }
    if forall o :: o in p ==> Alike(b, p[o].kind, c, q[o].kind, p[o].wide) {
      forall o | o in p ensures MovedField(mem, p[o], o, b) == MovedField(mem, q[o], o, c) {
        SameField(mem, p[o], b, q[o], c, o);
      }
      SameBytes(mem, p, b, q, c);
    }
  }

  lemma SameField(mem: seq<byte>, p: Place, b: Bias, q: Place, c: Bias, o: nat)
    requires p.wide == q.wide && o + Width(p) <= |mem|
    ensures var m := if p.wide then WORD32 else WORD16;
      var x := if p.wide then Get32(mem, o) else Get16(mem, o);
      ((x + Of(b, p.kind)) % m == (x + Of(c, q.kind)) % m) == Alike(b, p.kind, c, q.kind, p.wide)
    ensures MovedField(mem, p, o, b) == MovedField(mem, q, o, c) <==> Alike(b, p.kind, c, q.kind, p.wide)
  {
    hide Of, Get32, Get16, Put16, Put32;
    if p.wide {
      Congruent(Get32(mem, o), Of(b, p.kind), Of(c, q.kind), WORD32);
    } else {
      Congruent(Get16(mem, o), Of(b, p.kind), Of(c, q.kind), WORD16);
    }
  }

  lemma Multiples(x: int, y: int)
    requires x % WORD32 == 0 && y % WORD32 == 0
    ensures (-x) % WORD32 == 0 && (x + y) % WORD32 == 0
  {
    Remainder(-x, -(x / WORD32), 0, WORD32);
    Remainder(x + y, x / WORD32 + y / WORD32, 0, WORD32);
  }

  /** Segments are moved by the same if and only if they are placed one after the other. */
  lemma OneBias(img: Image, at: Segments)
    ensures var b := BiasOf(img, at);
      Contiguous(img, at) <==> (b.text - b.data) % WORD32 == 0 && (b.text - b.bss) % WORD32 == 0
  {
    var x, y := at.data - at.text - |img.text|, at.bss - at.data - |img.data|;
    var b := BiasOf(img, at);
    assert b.text - b.data == -x && b.text - b.bss == -x - y;
    if Contiguous(img, at) {
      Multiples(x, y);
      Multiples(x + y, 0);
    }
    if (-x) % WORD32 == 0 && (-x - y) % WORD32 == 0 {
      Multiples(-x, 0);
      Multiples(-x - y, 0);
      Multiples(-x, x + y);
    }
  }

  /** Biases that differ by multiples of 2^32 are alike to every place. */
  lemma AllAlike(b: Bias, p: Kind, q: Kind, wide: bool)
    requires (b.text - b.data) % WORD32 == 0 && (b.text - b.bss) % WORD32 == 0
    ensures Alike(b, p, b, q, wide)
  {
    Multiples(b.text - b.data, b.text - b.bss);
    Multiples(b.text - b.bss, -(b.text - b.data));
    Multiples(b.text - b.data, -(b.text - b.bss));
    var d := Of(b, p) - Of(b, q);
    assert d % WORD32 == 0;
    if !wide {
      Remainder(d, d / WORD32 * WORD16, 0, WORD16);
    }
  }

  /** Two tables that name the same places give the same program, whatever segments they
      name. */
  ghost predicate KindsIgnored(mem: seq<byte>, b: Bias) {
    forall p: Places, q: Places :: Apart(p, |mem|) && Apart(q, |mem|) && SameShape(p, q) ==>
      Relocate(mem, p, b) == Relocate(mem, q, b)
  }

  /** Placed in any way but one after the other, segments matter: some two tables of one
      long give different programs. */
  lemma KindMatters(mem: seq<byte>, b: Bias) returns (p: Places, q: Places)
    requires 4 <= |mem| && ((b.text - b.data) % WORD32 != 0 || (b.text - b.bss) % WORD32 != 0)
    ensures Apart(p, |mem|) && Apart(q, |mem|) && SameShape(p, q)
    ensures Relocate(mem, p, b) != Relocate(mem, q, b)
  {
    var other := if (b.text - b.data) % WORD32 != 0 then Data else Bss;
    p, q := map[0 := Place(Text, true)], map[0 := Place(other, true)];
    SameProgram(mem, p, b, q, b);
    assert 0 in p && !Alike(b, Text, b, other, true);
  }

  /** Which segment a table names for a place does not matter if and only if the segments
      are placed one after the other. */
  lemma KindDoesNotMatter(img: Image, mem: seq<byte>, at: Segments)
    ensures Contiguous(img, at) ==> KindsIgnored(mem, BiasOf(img, at))
    ensures 4 <= |mem| && KindsIgnored(mem, BiasOf(img, at)) ==> Contiguous(img, at)
  {
    hide Relocate, Apart, BiasOf, Alike, Contiguous;
    OneBias(img, at);
    var b := BiasOf(img, at);
    if Contiguous(img, at) {
      forall p: Places, q: Places | Apart(p, |mem|) && Apart(q, |mem|) && SameShape(p, q)
        ensures Relocate(mem, p, b) == Relocate(mem, q, b)
      {
        forall o | o in p ensures Alike(b, p[o].kind, b, q[o].kind, p[o].wide) {
          AllAlike(b, p[o].kind, q[o].kind, p[o].wide);
        }
        SameProgram(mem, p, b, q, b);
      }
    } else if 4 <= |mem| {
      var _, _ := KindMatters(mem, b);
    }
  }

  /** All of a program's memory as it is in the file: its bss is zero. */
  function Memory(img: Image): seq<byte> {
    img.text + img.data + Zeros(img.bssSize)
  }

  lemma LoadedIsApart(file: seq<byte>)
    ensures Load(file).Ok? ==> Apart(Load(file).value.relocs, |Memory(Load(file).value)|)
  {
    hide Load;
    LoadIsWellFormed(file);
  }

  /** A file launched: parsed, placed all at `base`, and moved. */
  function Launch(file: seq<byte>, base: nat): Outcome<seq<byte>> {
    LoadedIsApart(file);
    match Load(file)
    case Error(why) => Error(why)
    case Ok(img) => Ok(Relocate(Memory(img), img.relocs, BiasOf(img, AllAt(img, base))))
  }

  /** A program of bytes `orig`, with longs to be moved at the addresses `at`, as it is
      wanted at `base`: those longs moved, and every other byte as it was. */
  ghost predicate Moved(mem: seq<byte>, orig: seq<byte>, at: set<nat>, base: nat) {
    && |mem| == |orig|
    && (forall k :: k in at ==> k + 4 <= |mem| && Get32(mem, k) == (Get32(orig, k) + base) % WORD32)
    && (forall p :: 0 <= p < |mem| && Outside(p, at) ==> mem[p] == orig[p])
  }

  /** Byte `p` is in no long that is to be moved. */
  predicate Outside(p: int, at: set<nat>) {
    forall k :: k in at ==> !(k <= p < k + 4)
  }

  /** A table of exactly those longs does it, whatever segments it names. */
  lemma MovedByTable(orig: seq<byte>, places: Places, at: set<nat>, base: nat)
    requires Apart(places, |orig|) && places.Keys == at && forall o :: o in places ==> places[o].wide
    ensures Moved(Relocate(orig, places, Uniform(base)), orig, at, base)
  {
    hide Get32, Put32, MovedField;
    var mem := Relocate(orig, places, Uniform(base));
    forall k | k in at ensures k + 4 <= |mem| && Get32(mem, k) == (Get32(orig, k) + base) % WORD32 {
      RelocateAt(orig, places, Uniform(base), k);
    }
    forall p | 0 <= p < |mem| && Outside(p, at) ensures mem[p] == orig[p] {
      assert Owner(places, p) == -1;
    }
  }

  /** What is wanted is one program. */
  lemma MovedIsUnique(a: seq<byte>, b: seq<byte>, orig: seq<byte>, at: set<nat>, base: nat)
    requires Moved(a, orig, at, base) && Moved(b, orig, at, base)
    ensures a == b
  {
    forall p | 0 <= p < |a| ensures a[p] == b[p] {
      if !Outside(p, at) {
        var k :| k in at && k <= p < k + 4;
        SameLong(a, b, k, p - k);
      }
    }
  }

  lemma SameLong(a: seq<byte>, b: seq<byte>, k: nat, i: nat)
    requires k + 4 <= |a| == |b| && Get32(a, k) == Get32(b, k) && i < 4
    ensures a[k + i] == b[k + i]
  {
    Halves(a, k);
    Halves(b, k);
    hide Get32;
    SameWord(a, b, k);
    SameWord(a, b, k + 2);
  }

  lemma Halves(b: seq<byte>, o: nat)
    requires o + 4 <= |b|
    ensures Get32(b, o) / WORD16 == Get16(b, o) && Get32(b, o) % WORD16 == Get16(b, o + 2)
  {
    hide Get16;
  }

  lemma SameWord(a: seq<byte>, b: seq<byte>, k: nat)
    requires k + 2 <= |a| && k + 2 <= |b|
    ensures Get16(a, k) == Get16(b, k) <==> a[k] == b[k] && a[k + 1] == b[k + 1]
  {
  }

  function Plus16(x: nat, h: nat): nat {
    (x + h) % WORD16
  }

  /** A base that only changes the upper half of a long. */
  predicate HighOnly(base: nat) {
    base % WORD16 == 0 && base % WORD32 != 0
  }

  lemma HighHalf(x: nat, base: nat)
    requires HighOnly(base) && x < WORD32
    ensures var y := (x + base) % WORD32;
      y % WORD16 == x % WORD16 && y / WORD16 == (x / WORD16 + base / WORD16) % WORD16
    ensures (base / WORD16) % WORD16 != 0
  {
    var h, xh, xl := base / WORD16, x / WORD16, x % WORD16;
    assert base == h * WORD16 && x == xh * WORD16 + xl;
    var q, r := (xh + h) / WORD16, (xh + h) % WORD16;
    assert xh + h == q * WORD16 + r;
    Remainder(x + base, q, r * WORD16 + xl, WORD32);
    Remainder(r * WORD16 + xl, r, xl, WORD16);
    if h % WORD16 == 0 {
      Remainder(base, h / WORD16, 0, WORD32);
    }
  }

  /** The two words of a long, moved by such a base. */
  lemma HighWord(orig: seq<byte>, mem: seq<byte>, o: nat, base: nat)
    requires o + 4 <= |orig| && o + 4 <= |mem| && HighOnly(base)
    requires Get32(mem, o) == (Get32(orig, o) + base) % WORD32
    ensures Get16(mem, o) == Plus16(Get16(orig, o), base / WORD16)
    ensures Get16(mem, o + 2) == Get16(orig, o + 2)
    ensures (base / WORD16) % WORD16 != 0
  {
    Halves(orig, o);
    Halves(mem, o);
    hide Get32, Get16, HighOnly;
    HighHalf(Get32(orig, o), base);
  }

  /** What such a base does to the word at an even address. */
  lemma WordMoves(orig: seq<byte>, places: Places, base: nat, e: nat)
    requires Apart(places, |orig|) && HighOnly(base) && e % 2 == 0 && e + 2 <= |orig|
    ensures Get16(Relocate(orig, places, Uniform(base)), e) ==
      if e in places && places[e].wide then Plus16(Get16(orig, e), base / WORD16) else Get16(orig, e)
  {
    var mem, o := Relocate(orig, places, Uniform(base)), Owner(places, e);
    OwnerOfWord(places, |orig|, e);
    if o == -1 {
      SameWord(mem, orig, e);
    } else {
      RelocateAt(orig, places, Uniform(base), o);
      hide Relocate, Apart, Owner, Get16, Get32, HighOnly;
      if places[o].wide {
        HighWord(orig, mem, o, base);
      } else {
        LowHalf(Get16(orig, o), base);
      }
    }
  }

  lemma OwnerOfWord(places: Places, size: nat, e: nat)
    requires Apart(places, size) && e % 2 == 0
    ensures var o := Owner(places, e);
      && Owner(places, e + 1) == o
      && (o == -1 ==> e !in places)
      && (o != -1 ==> o in places && (e == o || (e == o + 2 && places[o].wide && e !in places)))
  {
  }

  lemma LowHalf(x: nat, base: nat)
    requires HighOnly(base) && x < WORD16
    ensures (x + base) % WORD16 == x
  {
    Remainder(x + base, base / WORD16, x, WORD16);
  }

  /** If a table moves a program as it is wanted, at a base that only changes upper
      halves, then it names all those longs: so they are at even addresses and apart. */
  lemma MovedOnlyBy(orig: seq<byte>, places: Places, at: set<nat>, base: nat, k: nat)
    requires Apart(places, |orig|) && HighOnly(base) && k in at
    requires Moved(Relocate(orig, places, Uniform(base)), orig, at, base)
    ensures k in places && places[k].wide
  {
    var mem := Relocate(orig, places, Uniform(base));
    assert k + 4 <= |mem| && Get32(mem, k) == (Get32(orig, k) + base) % WORD32;
    hide Relocate, Apart, Get16, Get32, HighOnly, Moved, Plus16, EvenWords;
    HighWord(orig, mem, k, base);
    WordsMove(orig, places, base);
    LongsMove(orig, mem, LongsIn(places), k, base / WORD16);
  }

  function LongsIn(places: Places): set<nat> {
    set o | o in places && places[o].wide
  }

  /** The longs whose upper words are moved, and nothing else, at even addresses. */
  ghost predicate EvenWords(orig: seq<byte>, mem: seq<byte>, wide: set<nat>, h: nat) {
    |mem| == |orig| &&
    forall e :: 0 <= e && e + 2 <= |orig| && e % 2 == 0 ==>
      Get16(mem, e) == if e in wide then Plus16(Get16(orig, e), h) else Get16(orig, e)
  }

  lemma WordsMove(orig: seq<byte>, places: Places, base: nat)
    requires Apart(places, |orig|) && HighOnly(base)
    ensures EvenWords(orig, Relocate(orig, places, Uniform(base)), LongsIn(places), base / WORD16)
  {
    hide Relocate, Apart, Get16, Plus16, HighOnly;
    forall e: nat | e + 2 <= |orig| && e % 2 == 0
      ensures Get16(Relocate(orig, places, Uniform(base)), e) ==
        if e in places && places[e].wide then Plus16(Get16(orig, e), base / WORD16) else Get16(orig, e)
    {
      WordMoves(orig, places, base, e);
    }
  }

  lemma LongsMove(orig: seq<byte>, mem: seq<byte>, wide: set<nat>, k: nat, h: nat)
    requires EvenWords(orig, mem, wide, h) && k + 4 <= |orig| && h % WORD16 != 0
    requires Get16(mem, k) == Plus16(Get16(orig, k), h) && Get16(mem, k + 2) == Get16(orig, k + 2)
    ensures k in wide
  {
    hide Get16, Plus16;
    if k % 2 == 0 {
      PlusChanges(Get16(orig, k), h);
    } else {
      assert (k + 1) % 2 == 0 && (k - 1) % 2 == 0;
      OddLong(orig, mem, k, h, k + 1 in wide, k - 1 in wide);
    }
  }

  lemma PlusChanges(x: nat, h: nat)
    requires x < WORD16 && h % WORD16 != 0
    ensures Plus16(x, h) != x
  {
    Changes(x, h, WORD16);
  }

  lemma Changes(x: nat, h: nat, m: nat)
    requires x < m && h % m != 0
    ensures (x + h) % m != x
  {
    var q, r := h / m, h % m;
    assert h == q * m + r;
    if x + r < m {
      Remainder(x + h, q, x + r, m);
    } else {
      assert x + h == (q + 1) * m + (x + r - m);
      Remainder(x + h, q + 1, x + r - m, m);
    }
  }

  /** Adding to a word of two bytes. */
  lemma AddWord(b: seq<byte>, c: seq<byte>, k: nat, h: nat)
    requires k + 2 <= |b| && k + 2 <= |c|
    ensures Get16(c, k) == Plus16(Get16(b, k), h) ==>
      && c[k + 1] == (b[k + 1] + h) % 256
      && (h % 256 == 0 ==> c[k + 1] == b[k + 1] && c[k] == (b[k] + h / 256) % 256)
  {
    if Get16(c, k) == Plus16(Get16(b, k), h) {
      var b0: int, b1: int, c0: int, c1: int := b[k], b[k + 1], c[k], c[k + 1];
      var q := (Get16(b, k) + h) / WORD16;
      assert 256 * b0 + b1 + h == q * WORD16 + 256 * c0 + c1;
      Remainder(b1 + h, q * 256 + c0 - b0, c1, 256);
      if h % 256 == 0 {
        Remainder(b0 + h / 256, q, c0, 256);
      }
    }
  }

  /** Even words cannot move a long at an odd address. */
  lemma OddLong(orig: seq<byte>, mem: seq<byte>, k: nat, h: nat, after: bool, before: bool)
    requires 1 <= k && k + 4 <= |orig| == |mem| && h % WORD16 != 0
    requires Get16(mem, k + 1) == if after then Plus16(Get16(orig, k + 1), h) else Get16(orig, k + 1)
    requires Get16(mem, k - 1) == if before then Plus16(Get16(orig, k - 1), h) else Get16(orig, k - 1)
    ensures !(Get16(mem, k) == Plus16(Get16(orig, k), h) && Get16(mem, k + 2) == Get16(orig, k + 2))
  {
    AddWord(orig, mem, k, h);
    AddWord(orig, mem, k + 1, h);
    AddWord(orig, mem, k - 1, h);
    SameWord(mem, orig, k + 2);
    SameWord(mem, orig, k + 1);
    SameWord(mem, orig, k - 1);
    if h % 256 != 0 {
      Changes(orig[k + 1], h, 256);
      Changes(orig[k + 2], h, 256);
    } else {
      if (h / 256) % 256 == 0 {
        Remainder(h, h / 256 / 256, 0, WORD16);
      }
      Changes(orig[k], h / 256, 256);
      Changes(orig[k + 1], h / 256, 256);
    }
  }

  /** The file, launched at `base`, is the program as it is wanted there. */
  ghost predicate Runs(file: seq<byte>, orig: seq<byte>, at: set<nat>, base: nat) {
    Launch(file, base).Ok? && Moved(Launch(file, base).value, orig, at, base)
  }

  /** A file that loads as `img`, its relocations apart, launched. */
  lemma Launched(file: seq<byte>, img: Image, base: nat)
    requires Load(file).Ok? && img.textAddress == 0
    requires Load(file).value == img.(relocs := Load(file).value.relocs)
    ensures Apart(Load(file).value.relocs, |Memory(img)|)
    ensures Launch(file, base) == Ok(Relocate(Memory(img), Load(file).value.relocs, Uniform(base)))
  {
    LoadedIsApart(file);
    hide Load, Relocate, Apart;
    var loaded := Load(file).value;
    assert Memory(loaded) == Memory(img);
    assert BiasOf(loaded, AllAt(loaded, base)) == Uniform(base);
  }

  /** A file with a table of exactly the longs that are to be moved runs at every base. */
  lemma RunsByTable(file: seq<byte>, img: Image, at: set<nat>, base: nat)
    requires Load(file) == Ok(img) && img.textAddress == 0
    requires img.relocs.Keys == at && forall o :: o in img.relocs ==> img.relocs[o].wide
    ensures Runs(file, Memory(img), at, base)
  {
    hide Load, Launch, Relocate, Apart, Moved, Memory;
    Launched(file, img, base);
    MovedByTable(Memory(img), img.relocs, at, base);
  }

  /** A file that runs at a multiple of 64K names all of them. */
  lemma RunsOnlyBy(file: seq<byte>, img: Image, at: set<nat>, base: nat, k: nat)
    requires Load(file).Ok? && img.textAddress == 0
    requires Load(file).value == img.(relocs := Load(file).value.relocs)
    requires HighOnly(base) && Runs(file, Memory(img), at, base) && k in at
    ensures k in Load(file).value.relocs && Load(file).value.relocs[k].wide
  {
    hide Load, Launch, Relocate, Apart, Moved, Memory, HighOnly;
    Launched(file, img, base);
    MovedOnlyBy(Memory(img), Load(file).value.relocs, at, base, k);
  }
}
