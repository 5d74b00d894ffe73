/** What a read delivers when part of it comes through the buffer and part past it. */
module SectorReads {
  import opened Basics
  import opened Sectors

  /** The first `n` bytes of `dst` are those of `v` from `off` on. */
  ghost predicate Delivered(dst: seq<byte>, v: seq<byte>, off: nat, n: nat) {
    n == 0 || (n <= |dst| && off + n <= |v| && forall i :: 0 <= i < n ==> dst[i] == v[off + i])
  }

  /** A read at `off` into `dst` gave `r` bytes: all that were asked for, or as
      many as there are, and the right ones. */
  ghost predicate Served(dst: seq<byte>, v: seq<byte>, off: nat, r: nat) {
    r == Max(0, Min(|dst|, |v| - off)) && Delivered(dst, v, off, r)
  }

  /** A read of `n` bytes at `off` in a file of `len` bytes ends with part of a
      sector that the file has, or that starts where it ends. */
  predicate TailRead(off: nat, n: nat, len: nat) {
    (off + n) % 128 != 0 && 128 * ((off + n) / 128) <= len
  }

  /** A read of `n` bytes at `off` writes back a dirty buffer labelled `s`: it has to
      make room in the buffer for the first sector or for the last. */
  predicate ReadFlushes(s: int, off: nat, n: nat, len: nat) {
    (off % 128 != 0 && s != off / 128) ||
    (TailRead(off, n, len) && (off % 128 == 0 || off / 128 < (off + n) / 128))
  }

  /** Reading sectors `k`, .., `k + count - 1` past a dirty buffer labelled `s`
      misses nothing when the buffer is not one of them or is already on disk. */
  lemma BypassSound(disk: seq<byte>, s: nat, buf: seq<byte>, k: nat, count: nat)
    requires |disk| % 128 == 0 && |buf| == 128 && 128 * s <= |disk|
    requires !(k <= s < k + count) || (128 * s < |disk| && Record(disk, s) == buf)
    ensures var v := Patch(disk, 128 * s, buf);
      && Max(0, Min(count, |disk| / 128 - k)) == Max(0, Min(count, |v| / 128 - k))
      && forall p :: 128 * k <= p < 128 * (k + count) && p < |disk| ==> disk[p] == v[p]
  {
    var v := Patch(disk, 128 * s, buf);
    forall p | 128 * k <= p < 128 * (k + count) && p < |disk| ensures disk[p] == v[p] {
      if 128 * s <= p < 128 * s + 128 {
        assert disk[p] == Record(disk, s)[p - 128 * s];
      }
    }
  }

  /** Otherwise it comes up short or delivers a stale byte. */
  lemma BypassUnsound(disk: seq<byte>, s: nat, buf: seq<byte>, k: nat, count: nat) returns (p: nat)
    requires |disk| % 128 == 0 && |buf| == 128 && 128 * s <= |disk|
    requires k <= s < k + count && (128 * s == |disk| || Record(disk, s) != buf)
    ensures 128 * k <= p < 128 * (k + count) && p < |Patch(disk, 128 * s, buf)|
    ensures p < |disk| ==> disk[p] != Patch(disk, 128 * s, buf)[p]
  {
    p := 128 * s;
    if 128 * s < |disk| {
      var i :| 0 <= i < 128 && Record(disk, s)[i] != buf[i];
      p := 128 * s + i;
    }
  }

  lemma InRecord(v: seq<byte>, off: nat)
    requires off % 128 == 0 && 128 * (off / 128) + 128 <= |v|
    ensures off + 128 <= |v| && forall i :: 0 <= i < 128 ==> Record(v, off / 128)[i] == v[off + i]
  {
  }

  /** Bytes copied out of the buffer `buf` are the file's when the buffer is the
      sector they lie in, and otherwise when they happen to be the same. */
  lemma HeadDelivered(dst: seq<byte>, buf: seq<byte>, v: seq<byte>, off: nat, n: nat)
    requires |buf| == 128 && n <= 128 - off % 128 && n <= |dst|
    requires forall i :: 0 <= i < n ==> dst[i] == buf[off % 128 + i]
    ensures Delivered(dst, v, off, n) <==> Delivered(buf[off % 128..], v, off, n)
    ensures 128 * (off / 128) + 128 <= |v| && buf == Record(v, off / 128) ==> Delivered(dst, v, off, n)
  {
    forall i | 0 <= i < n ensures dst[i] == buf[off % 128..][i] {
    }
    if 128 * (off / 128) + 128 <= |v| && buf == Record(v, off / 128) {
      forall i | 0 <= i < n ensures dst[i] == v[off + i] {
        assert off == 128 * (off / 128) + off % 128;
      }
    }
  }

  /** Putting the parts of a read together: `at` bytes from the head, `i` sectors
      past the buffer, and the rest through it. */
  lemma ServedWhen(dst: seq<byte>, v: seq<byte>, off: nat, at: nat, i: nat, r: nat, held: bool, bad: int)
    requires |v| % 128 == 0 && (off + at) % 128 == 0 && at <= |dst|
    requires i <= (|dst| - at) / 128
    requires !held ==> i == Max(0, Min((|dst| - at) / 128, |v| / 128 - (off + at) / 128))
    requires !held ==> forall j :: at <= j < at + 128 * i ==> off + j < |v| && dst[j] == v[off + j]
    requires held ==> at <= bad < at + 128 * ((|dst| - at) / 128) && off + bad < |v|
    requires held && bad < at + 128 * i ==> dst[bad] != v[off + bad]
    requires r == if i < (|dst| - at) / 128 || |v| <= off + at + 128 * i then at + 128 * i else |dst|
    requires at + 128 * i < r ==> off + r <= |v| && forall j :: at + 128 * i <= j < r ==> dst[j] == v[off + j]
    ensures Served(dst, v, off, r) <==> Delivered(dst, v, off, at) && !held
  {
    if !Delivered(dst, v, off, at) {
      assert !Delivered(dst, v, off, r);
    } else if held {
      assert r == Max(0, Min(|dst|, |v| - off)) ==> bad < r;
    } else {
      assert r == Max(0, Min(|dst|, |v| - off));
      assert Delivered(dst, v, off, r);
    }
  }

  lemma StillDelivered(before: seq<byte>, dst: seq<byte>, v: seq<byte>, off: nat, at: nat)
    requires at <= |before| == |dst| && forall j :: 0 <= j < at ==> dst[j] == before[j]
    ensures Delivered(dst, v, off, at) <==> Delivered(before, v, off, at)
  {
  }

  /** How a read from a sector boundary ends, `i` sectors having come past the buffer. */
  lemma RestEnds(off: nat, at: nat, n: nat, len: nat, i: nat)
    requires len % 128 == 0 && (off + at) % 128 == 0 && at <= n && off + at <= len
    requires i == Max(0, Min((n - at) / 128, len / 128 - (off + at) / 128))
    ensures (i == (n - at) / 128 && at + 128 * i < n) <==> (TailRead(off, n, len) && at < n)
    ensures (i < (n - at) / 128 || (at + 128 * i < n && len <= off + at + 128 * i)) <==> (at < n && len < off + n)
  {
  }

  /** Sectors that were read lie on the disk. */
  lemma MiddleEnds(len: nat, off: nat, count: nat, i: nat)
    requires off % 128 == 0 && len % 128 == 0
    requires i == if count == 0 then 0 else Max(0, Min(count, len / 128 - off / 128))
    ensures i == Max(0, Min(count, len / 128 - off / 128))
    ensures i <= count && (i > 0 ==> off + 128 * i <= len)
    ensures off == 128 * (off / 128)
  {
  }

  /** A read from inside a sector stays in that sector, or goes on where the next starts. */
  lemma InsideEnds(off: nat, n: nat)
    requires off % 128 != 0
    ensures var m, k := Min(n, 128 - off % 128), off / 128;
      && (m < n ==> (off + m) % 128 == 0 && (off + m) / 128 == k + 1 && k < (off + n) / 128)
      && (m == n ==> (off + n) % 128 == 0 || (off + n) / 128 == k)
      && off + m <= 128 * k + 128
  {
  }

  /** A read that its head satisfies is served if and only if the head is right. */
  lemma ServedByHead(dst: seq<byte>, v: seq<byte>, off: nat)
    requires |v| % 128 == 0 && off % 128 != 0 && |dst| <= 128 - off % 128
    ensures Served(dst, v, off, |dst|) <==> Delivered(dst, v, off, |dst|)
  {
  }
}
