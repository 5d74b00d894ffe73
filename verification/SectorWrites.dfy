/** What becomes of a file when part of a write goes through the buffer and part past it. */
module SectorWrites {
  import opened Basics
  import opened Sectors

  /** One more record written extends the stretch written so far. */
  lemma WriteStep(disk: seq<byte>, dma: seq<byte>, first: nat, start: nat, k: nat)
    requires 128 * first <= |disk| && start + 128 * (k + 1) <= |dma|
    ensures Patch(Patch(disk, 128 * first, dma[start..start + 128 * k]),
                  128 * (first + k), dma[start + 128 * k..start + 128 * k + 128])
         == Patch(disk, 128 * first, dma[start..start + 128 * (k + 1)])
  {
    var a, b := dma[start..start + 128 * k], dma[start + 128 * k..start + 128 * k + 128];
    assert a + b == dma[start..start + 128 * (k + 1)];
    PatchPatch(disk, 128 * first, a, b);
  }

  /** A write that starts on a sector boundary and is whole sectors long. */
  predicate WholeSectors(off: nat, n: nat) {
    off % 128 == 0 && n % 128 == 0
  }

  /** A write that the sector buffer survives: it is not made of whole sectors from
      a sector boundary, or its first sector is what the file held there. */
  ghost predicate KeepsBuffer(v: seq<byte>, off: nat, data: seq<byte>) {
    WholeSectors(off, |data|) ==> data == [] || Record(v, off / 128) == data[..128]
  }

  /** The first sector of a whole-sector write is all that matters to a buffer
      `held` over from before it. */
  lemma WholeWrite(v: seq<byte>, off: nat, data: seq<byte>, held: seq<byte>)
    requires WholeSectors(off, |data|) && 0 < |data| && off <= |v| && |held| == 128 && |v| % 128 == 0
    ensures var w, k := Store(v, off, data), off / 128;
      && 128 * k + 128 <= |w| && |w| % 128 == 0
      && (held == Record(w, k) <==> held == data[..128])
      && (Patch(w, 128 * k, held) == w <==> held == data[..128])
      && |Patch(w, 128 * k, held)| == |w|
  {
    var w, k := Store(v, off, data), off / 128;
    assert RoundUp(off + |data|) == off + |data|;
    assert Record(w, k) == data[..128];
    assert Patch(w, 128 * k, held)[128 * k..128 * k + 128] == held;
    if held == data[..128] {
      assert Patch(w, 128 * k, held) == w;
    }
  }

  /** `disk` differs from `v` in sector `k` at most. */
  ghost predicate SameBut(disk: seq<byte>, v: seq<byte>, k: nat) {
    && 128 * k <= |disk| && 128 * k <= |v|
    && Patch(disk, 128 * k, Record(v, k)) == Patch(v, 128 * k, Record(v, k))
  }

  lemma SameButSelf(v: seq<byte>, k: nat)
    requires 128 * k <= |v|
    ensures SameBut(v, v, k)
  {
  }

  /** Nothing stored yet, or everything up to a sector boundary. */
  lemma SameButFirst(disk: seq<byte>, v: seq<byte>, off: nat, data: seq<byte>, n: nat)
    requires n <= |data| && (off + n) % 128 == 0
    requires if n == 0 then SameBut(disk, v, off / 128) else disk == Store(v, off, data[..n])
    ensures SameBut(disk, Store(v, off, data[..n]), (off + n) / 128)
  {
    if n == 0 {
      assert data[..0] == [];
      StoreNothing(v, off);
    } else {
      StoreLength(v, off, data[..n]);
      SameButSelf(disk, (off + n) / 128);
    }
  }

  lemma SameButPatch(disk: seq<byte>, v: seq<byte>, k: nat, r: seq<byte>)
    requires SameBut(disk, v, k) && 128 <= |r|
    ensures Patch(disk, 128 * k, r) == Patch(v, 128 * k, r)
  {
    PatchOver(disk, 128 * k, Record(v, k), r);
    PatchOver(v, 128 * k, Record(v, k), r);
  }

  lemma RoundUpInSector(off: nat, n: nat)
    requires 0 < n <= 128 - off % 128
    ensures RoundUp(off + n) == 128 * (off / 128) + 128
  {
  }

  lemma RecordBytes(v: seq<byte>, k: nat)
    requires |v| % 128 == 0 && 128 * k <= |v|
    ensures forall j :: 0 <= j < 128 ==> Record(v, k)[j] == if 128 * k + j < |v| then v[128 * k + j] else 0
    ensures 128 * k == |v| || 128 * k + 128 <= |v|
  {
  }

  lemma PatchRecord(v: seq<byte>, off: nat, a: seq<byte>)
    requires |v| % 128 == 0 && 128 * (off / 128) <= |v| && 0 < |a| <= 128 - off % 128
    ensures Patch(v, 128 * (off / 128), Patch(Record(v, off / 128), off % 128, a)) == Store(v, off, a)
  {
    hide RoundUp, Record;
    RoundUpInSector(off, |a|);
    var k, m := off / 128, off % 128;
    RecordBytes(v, k);
    assert off == 128 * k + m;
    var l, r := Patch(v, 128 * k, Patch(Record(v, k), m, a)), Store(v, off, a);
    assert |l| == |r|;
    forall i | 0 <= i < |l| ensures l[i] == r[i] {
    }
  }

  /** Changing part of a sector in a copy of it and putting the copy back stores
      the bytes in the file. */
  lemma StoreInSector(disk: seq<byte>, v: seq<byte>, off: nat, a: seq<byte>)
    requires |v| % 128 == 0 && SameBut(disk, v, off / 128)
    requires 0 < |a| <= 128 - off % 128
    ensures Patch(disk, 128 * (off / 128), Patch(Record(v, off / 128), off % 128, a)) == Store(v, off, a)
  {
    hide Patch, Record, Store;
    var k := off / 128;
    SameButPatch(disk, v, k, Patch(Record(v, k), off % 128, a));
    PatchRecord(v, off, a);
  }

  /** Whole sectors written past the buffer are stored in the file. */
  lemma StoreWhole(disk: seq<byte>, v: seq<byte>, k: nat, b: seq<byte>)
    requires |v| % 128 == 0 && SameBut(disk, v, k)
    requires 0 < |b| && |b| % 128 == 0
    ensures Patch(disk, 128 * k, b) == Store(v, 128 * k, b)
  {
    SameButPatch(disk, v, k, b);
    assert RoundUp(128 * k + |b|) == 128 * k + |b|;
  }

  /** A write gives the file's own bytes back where it does not change them. */
  lemma StoreAgrees(u: seq<byte>, v: seq<byte>, off: nat, data: seq<byte>)
    requires |u| == |v| && |v| % 128 == 0 && off <= |v|
    requires forall p :: 0 <= p < |v| && p / 128 != off / 128 ==> u[p] == v[p]
    ensures Store(u, off, data) == Store(v, off, data) <==>
      forall p :: 0 <= p < |v| && p / 128 == off / 128 && !(off <= p < off + |data|) ==> u[p] == v[p]
  {
    var l, r := Store(u, off, data), Store(v, off, data);
    assert |l| == |r|;
    forall p | 0 <= p < |v| ensures l[p] == r[p] <==> u[p] == v[p] || off <= p < off + |data| {
    }
    if forall p :: 0 <= p < |v| && p / 128 == off / 128 && !(off <= p < off + |data|) ==> u[p] == v[p] {
      forall p | 0 <= p < |l| ensures l[p] == r[p] {
      }
    }
  }
}
