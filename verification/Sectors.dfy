/** Byte strings cut into 128-byte CP/M sectors. */
module Sectors {
  import opened Basics

  const SECSIZ: nat := 128

  /** The least multiple of the sector size that is not below `n`. */
  function RoundUp(n: nat): (r: nat)
    ensures n <= r < n + 128 && r % 128 == 0
  {
    (n + 127) / 128 * 128
  }

  lemma RoundUpMonotone(a: nat, b: nat)
    requires a <= b
    ensures RoundUp(a) <= RoundUp(b)
  {
  }

  function Zeros(n: nat): (r: seq<byte>)
    ensures |r| == n && forall i :: 0 <= i < n ==> r[i] == 0
  {
    seq(n, _ => 0)
  }

  /** `s` with zeros added at the end until it is at least `len` long. */
  function Extend(s: seq<byte>, len: nat): (r: seq<byte>)
    ensures |r| == Max(|s|, len) && s <= r
    ensures forall i :: |s| <= i < |r| ==> r[i] == 0
  {
    if len <= |s| then s else s + Zeros(len - |s|)
  }

  /** `s` overlaid by `chunk` from position `pos` on; it may grow at the end. */
  function Patch(s: seq<byte>, pos: nat, chunk: seq<byte>): (r: seq<byte>)
    requires pos <= |s|
    ensures |r| == Max(|s|, pos + |chunk|)
  {
    seq(Max(|s|, pos + |chunk|), i requires 0 <= i < Max(|s|, pos + |chunk|) =>
      if pos <= i < pos + |chunk| then chunk[i - pos] else s[i])
  }

  /** What a byte-addressable file made of whole sectors holds after `data` is
      stored at `off`: new space is zero up to the end of the last sector. */
  function Store(s: seq<byte>, off: nat, data: seq<byte>): (r: seq<byte>)
  {
    Patch(Extend(s, RoundUp(off + |data|)), off, data)
  }

  /** Sector `k` of `s`, or zeros when `s` ends before it. */
  function Record(s: seq<byte>, k: nat): (r: seq<byte>)
    ensures |r| == 128
  {
    if 128 * k + 128 <= |s| then s[128 * k..128 * k + 128] else Zeros(128)
  }

  lemma IsPatch(r: seq<byte>, s: seq<byte>, pos: nat, chunk: seq<byte>)
    requires pos + |chunk| <= |s| == |r|
    requires forall i :: 0 <= i < |r| ==> r[i] == if pos <= i < pos + |chunk| then chunk[i - pos] else s[i]
    ensures r == Patch(s, pos, chunk)
  {
  }

  lemma PatchNothing(s: seq<byte>, pos: nat)
    requires pos <= |s|
    ensures Patch(s, pos, []) == s
  {
  }

  lemma PatchAtEnd(s: seq<byte>, chunk: seq<byte>)
    ensures Patch(s, |s|, chunk) == s + chunk
  {
  }

  lemma PatchPatch(s: seq<byte>, pos: nat, a: seq<byte>, b: seq<byte>)
    requires pos <= |s|
    ensures Patch(Patch(s, pos, a), pos + |a|, b) == Patch(s, pos, a + b)
  {
  }

  lemma PatchOver(s: seq<byte>, pos: nat, a: seq<byte>, b: seq<byte>)
    requires pos <= |s| && |a| <= |b|
    ensures Patch(Patch(s, pos, a), pos, b) == Patch(s, pos, b)
  {
  }

  /** Storing two pieces one after the other is storing them joined. */
  lemma StoreStore(s: seq<byte>, off: nat, a: seq<byte>, b: seq<byte>)
    ensures Store(Store(s, off, a), off + |a|, b) == Store(s, off, a + b)
  {
    var l, r := Store(Store(s, off, a), off + |a|, b), Store(s, off, a + b);
    assert off + |a + b| == off + |a| + |b|;
    assert RoundUp(off + |a|) <= RoundUp(off + |a + b|);
    assert |l| == |r|;
    forall i | 0 <= i < |l| ensures l[i] == r[i] {
    }
  }

  /** Storing a prefix of `data` and then the next part of it. */
  lemma StorePrefix(s: seq<byte>, off: nat, data: seq<byte>, i: nat, j: nat)
    requires i <= j <= |data|
    ensures Store(Store(s, off, data[..i]), off + i, data[i..j]) == Store(s, off, data[..j])
  {
    assert data[..j] == data[..i] + data[i..j];
    StoreStore(s, off, data[..i], data[i..j]);
  }

  lemma StoreNothing(s: seq<byte>, off: nat)
    requires off % 128 == 0 && off <= |s|
    ensures Store(s, off, []) == s
  {
    assert RoundUp(off) == off;
  }

  lemma StoreLength(s: seq<byte>, off: nat, data: seq<byte>)
    ensures |Store(s, off, data)| == Max(|s|, RoundUp(off + |data|))
    ensures (off + |data|) % 128 == 0 ==> |Store(s, off, data)| == Max(|s|, off + |data|)
    ensures |s| % 128 == 0 ==> |Store(s, off, data)| % 128 == 0
  {
  }

  /** A file that ends with the sector of its high-water mark still does. */
  lemma StoreSize(s: seq<byte>, size: nat, off: nat, data: seq<byte>)
    requires |s| == RoundUp(size)
    ensures |Store(s, off, data)| == RoundUp(Max(size, off + |data|))
  {
  }

  lemma SliceSlice(s: seq<byte>, i: nat, j: nat, k: nat, l: nat)
    requires i <= j <= |s| && k <= l <= j - i
    ensures s[i..j][k..l] == s[i + k..i + l]
    ensures s[i..j][k..] == s[i + k..j]
  {
    var a, b := s[i..j][k..l], s[i + k..i + l];
    forall x | 0 <= x < l - k ensures a[x] == b[x] {
    }
    assert a == b;
  }

  lemma LastRecord(s: seq<byte>, k: nat)
    requires |s| == 128 * k + 128
    ensures Record(s, k) == s[|s| - 128..]
  {
  }

  /** `x & ~(SECSIZ-1)` in two's complement. */
  function SectorBase(x: int): int {
    x - x % 128
  }
}
