/** Text put into a file through the buffer, one sector after the other. */
module SectorText {
  import opened Basics
  import opened Sectors
  import opened Text

  /** The buffer `buf`, labelled `k`, agrees with the text `t`. */
  ghost predicate HoldsText(t: seq<byte>, buf: seq<byte>, k: nat) {
    |buf| == 128 && forall p :: 0 <= p < |t| && p / 128 == k ==> buf[p % 128] == t[p]
  }

  /** The disk has file `v` up to sector `k` and agrees with it outside that sector. */
  ghost predicate Elsewhere(disk: seq<byte>, v: seq<byte>, k: nat) {
    && 128 * k <= |disk| <= |v|
    && forall p :: 0 <= p < |v| && p / 128 != k ==> p < |disk| && disk[p] == v[p]
  }

  lemma SectorHoldsText(t: seq<byte>, v: seq<byte>, buf: seq<byte>, k: nat)
    requires t <= v && |buf| == 128
    requires forall j :: 0 <= j < 128 && 128 * k + j < |v| ==> buf[j] == v[128 * k + j]
    ensures HoldsText(t, buf, k)
  {
    forall p | 0 <= p < |t| && p / 128 == k ensures buf[p % 128] == t[p] {
      assert p == 128 * k + p % 128;
    }
  }

  lemma NoTextToHold(t: seq<byte>, buf: seq<byte>, k: nat)
    requires |t| <= 128 * k && |buf| == 128
    ensures HoldsText(t, buf, k)
  {
  }

  /** A sector above the high-water mark has no text in it yet. */
  lemma TextBelow(t: seq<byte>, v: seq<byte>, hiwater: nat, offset: nat)
    requires offset <= hiwater || offset % 128 == 0
    requires |t| == Max(hiwater, offset) && t <= v
    ensures SectorBase(offset) <= SectorBase(hiwater - 1) ==> 128 * (offset / 128) < |v|
    ensures SectorBase(offset) > SectorBase(hiwater - 1) ==> |t| <= 128 * (offset / 128)
    ensures Elsewhere(v, v, offset / 128)
  {
  }

  /** The text `t` starts file `v`, and the buffer, a copy of sector `k`, agrees
      with it. New characters put into the buffer are put into the text. */
  lemma PutInSector(disk: seq<byte>, v: seq<byte>, t: seq<byte>, off: nat, before: seq<byte>, em: seq<byte>)
    requires |v| % 128 == 0 && off <= |t| && off % 128 + |em| <= 128 && t <= v
    requires Elsewhere(disk, v, off / 128) && HoldsText(t, before, off / 128)
    ensures var v', t' := Patch(disk, 128 * (off / 128), Patch(before, off % 128, em)), Patch(t, off, em);
      t' <= v' && |v'| == Max(|v|, 128 * (off / 128) + 128)
  {
    var k := off / 128;
    if |disk| < |v| {
      assert (|v| - 1) / 128 == k;
    }
    var v', t' := Patch(disk, 128 * k, Patch(before, off % 128, em)), Patch(t, off, em);
    forall p | 0 <= p < |t'| ensures t'[p] == v'[p] {
      if p / 128 == k {
        assert p == 128 * k + p % 128;
      }
    }
  }

  /** The next character put out, and what is still to come. */
  lemma FillStep(all: seq<byte>, em: seq<byte>, cc: byte, data: seq<byte>, next: nat)
    requires next < |data| && all == em + Expand(cc, data[next..])
    ensures var wait := data[next] == LF && cc != CR;
      var c := if wait then CR else data[next];
      all == (em + [c]) + Expand(c, data[if wait then next else next + 1..])
  {
    hide Expand;
    ExpandStep(cc, data, next);
    var wait := data[next] == LF && cc != CR;
    var c := if wait then CR else data[next];
    Append(em, [c], Expand(c, data[if wait then next else next + 1..]), Expand(cc, data[next..]), all);
  }

  /** A disk of `capacity` records has room for a file of `size` bytes that something
      is added to up to `end`. */
  predicate Fits(size: nat, end: nat, capacity: nat) {
    size <= 128 * capacity && RoundUp(end) <= 128 * capacity
  }

  /** What is left to put, after `next` bytes of the data, the last of them `cc`. */
  function StillToPut(cc: byte, data: seq<byte>, next: nat): seq<byte>
    requires next <= |data|
  {
    Expand(cc, data[next..])
  }

  /** Text `t` is `t0` with `em` put in at `off`; `em` is the first part of `all`,
      and `rest` the other. */
  ghost predicate Written(t: seq<byte>, t0: seq<byte>, off: nat, em: seq<byte>, rest: seq<byte>, all: seq<byte>)
    requires off <= |t0|
  {
    t == Patch(t0, off, em) && em + rest == all
  }

  lemma WrittenNothing(t0: seq<byte>, off: nat, cc: byte, data: seq<byte>)
    requires off <= |t0|
    ensures Written(t0, t0, off, [], Expand(cc, data[0..]), Expand(cc, data))
  {
    hide Expand;
    PatchNothing(t0, off);
    assert data[0..] == data && [] + Expand(cc, data) == Expand(cc, data);
  }

  lemma WrittenMore(t: seq<byte>, t0: seq<byte>, off: nat, em: seq<byte>, em1: seq<byte>,
                    rest: seq<byte>, rest1: seq<byte>, all: seq<byte>)
    requires off <= |t0| && Written(t, t0, off, em, rest, all) && rest == em1 + rest1
    ensures off + |em| <= |t| && Written(Patch(t, off + |em|, em1), t0, off, em + em1, rest1, all)
  {
    PatchPatch(t0, off, em, em1);
    Append(em, em1, rest1, rest, all);
  }

  /** Neither text nor file grows further than its new end. */
  lemma Grows(hiwater: nat, off: nat, n: nat, size: nat, len: nat, grown: nat)
    requires len <= Max(size, RoundUp(off))
    ensures Max(Max(hiwater, off), off + n) == Max(hiwater, off + n)
    ensures grown <= Max(len, RoundUp(off + n)) ==> grown <= Max(size, RoundUp(off + n))
  {
    RoundUpMonotone(off, off + n);
  }

  lemma WrittenFits(t: seq<byte>, t0: seq<byte>, off: nat, em: seq<byte>, rest: seq<byte>, all: seq<byte>)
    requires off <= |t0| && Written(t, t0, off, em, rest, all)
    ensures RoundUp(off + |em|) <= RoundUp(off + |all|)
  {
    RoundUpMonotone(off + |em|, off + |all|);
  }

  lemma WrittenAll(t: seq<byte>, t0: seq<byte>, off: nat, em: seq<byte>, cc: byte, data: seq<byte>, all: seq<byte>)
    requires off <= |t0| && Written(t, t0, off, em, Expand(cc, data[|data|..]), all)
    ensures em == all && t == Patch(t0, off, all)
  {
  }

  /** The text before `end` as it was, a ^Z after it, and no sector more than that takes. */
  predicate Marked(data: seq<byte>, was: seq<byte>, end: nat) {
    && end <= |was| && end < |data| <= Max(|was|, RoundUp(end + 1))
    && data[..end + 1] == was[..end] + [EOFCHAR]
  }

  lemma EofMark()
    ensures Expand(0, [EOFCHAR]) == [EOFCHAR]
  {
  }
}
