/** The simple thing a binary channel stands for: an array of bytes, a position,
    and the few facts about the buffer that a caller has to mind. */
module PlainFile {
  import opened Basics
  import opened Sectors
  import opened SectorReads
  import opened SectorWrites

  /** `bytes` is the whole file, a multiple of the sector size; `size` is the
      high-water mark; `pending` is the sector that was changed last and not
      filled, or -1; `stale` is the first sector of the last write of whole
      sectors, or -1: the channel may still hold what was there before. */
  datatype Flat = Flat(
    bytes: seq<byte>, size: nat, pos: int, eof: bool, pending: int, stale: int, readOnly: bool)

  datatype Op = Write(data: seq<byte>) | Read(n: nat) | Seek(offs: int, whence: int) | Size

  /** What a call answers: its result and, for a read, the bytes. */
  datatype Answer = Answer(result: int, got: seq<byte>)

  /** A file just created. */
  const EMPTY: Flat := Flat([], 0, 0, false, -1, -1, false)

  /** A file just opened. */
  function Opened(data: seq<byte>, readOnly: bool): Flat {
    Flat(data, |data|, 0, false, -1, -1, readOnly)
  }

  function FileEnd(f: Flat): nat {
    if f.pending != -1 then f.size else |f.bytes|
  }

  function SeekBase(f: Flat, whence: int): int {
    if whence == 0 then 0 else if whence == 1 then f.pos else FileEnd(f)
  }

  /** Calls on which a channel keeps its promise whatever the file holds. The others
      are: a write that leaves a hole or does not fit; one that starts in the stale
      sector and does not cover it; one of whole sectors that starts in the pending
      sector; a read from inside the stale sector; a read of whole sectors past the
      pending one; a read from a sector boundary past the end; a seek before the
      start. */
  predicate Allowed(f: Flat, capacity: nat, op: Op) {
    match op
    case Write(data) =>
      data != [] && !f.readOnly ==>
        && 0 <= f.pos && 128 * (f.pos / 128) <= |f.bytes|
        && |data| < 0x10000 && f.pos + |data| <= 0x80_0000
        && Max(|f.bytes|, RoundUp(f.pos + |data|)) <= 128 * capacity
        && (f.pos / 128 != f.stale || Covers(f.pos, |data|))
        && !(WholeSectors(f.pos, |data|) && f.pos / 128 == f.pending)
    case Read(n) =>
      !f.eof ==>
        && 0 <= f.pos
        && (f.pos % 128 != 0 ==> f.pos / 128 != f.stale)
        && (f.pos % 128 == 0 ==> f.pos <= |f.bytes| && !(f.pos / 128 <= f.pending < f.pos / 128 + n / 128))
    case Seek(offs, whence) =>
      0 <= whence <= 2 ==> 0 <= SeekBase(f, whence) + offs
    case Size => true
  }

  /** A write of `n` bytes at `pos` fills the sector it starts in from end to end. */
  predicate Covers(pos: nat, n: nat) {
    pos % 128 == 0 && 128 <= n
  }

  /** The next `n` bytes, or what there is of them. */
  function Available(f: Flat, n: nat): (got: seq<byte>) {
    if f.pos < 0 || |f.bytes| <= f.pos then [] else f.bytes[f.pos..Min(f.pos + n, |f.bytes|)]
  }

  /** The file after a call. */
  function After(f: Flat, op: Op): Flat {
    match op
    case Write(data) =>
      if data == [] || f.readOnly || f.pos < 0 then f else
      var pos := f.pos + |data|;
      var whole := WholeSectors(f.pos, |data|);
      f.(bytes := Store(f.bytes, f.pos, data), size := Max(f.size, pos), pos := pos,
         pending := if pos % 128 == 0 then -1 else pos / 128,
         stale := if whole then f.pos / 128 else -1)
    case Read(n) =>
      if f.eof || f.pos < 0 then f else
      if f.pos % 128 != 0 && |f.bytes| <= f.pos then f.(pending := -1) else
      var pos := f.pos + |Available(f, n)|;
      f.(size := Max(f.size, pos), pos := pos, eof := n > 0 && |f.bytes| < f.pos + n,
         pending := if ReadFlushes(f.pending, f.pos, n, |f.bytes|) then -1 else f.pending,
         stale := if f.pos % 128 != 0 || (n % 128 != 0 && f.pos + n <= |f.bytes|) then -1 else f.stale)
    case Seek(offs, whence) =>
      if !(0 <= whence <= 2) then f else
      f.(pos := SeekBase(f, whence) + offs, eof := false, size := if whence == 2 then FileEnd(f) else f.size)
    case Size =>
      f.(size := FileEnd(f), eof := true)
  }

  /** What the call answers. */
  function Reply(f: Flat, op: Op): Answer {
    match op
    case Write(data) => Answer(if data != [] && f.readOnly then -1 else |data|, [])
    case Read(n) =>
      if f.eof || f.pos < 0 then Answer(0, []) else
      if f.pos % 128 != 0 && |f.bytes| <= f.pos then Answer(-1, []) else
      Answer(|Available(f, n)|, Available(f, n))
    case Seek(offs, whence) => Answer(if 0 <= whence <= 2 then SeekBase(f, whence) + offs else -1, [])
    case Size => Answer(FileEnd(f), [])
  }

  predicate AllowedRun(f: Flat, capacity: nat, ops: seq<Op>)
    decreases |ops|
  {
    ops != [] ==> Allowed(f, capacity, ops[0]) && AllowedRun(After(f, ops[0]), capacity, ops[1..])
  }

  function AfterRun(f: Flat, ops: seq<Op>): Flat
    decreases |ops|
  {
    if ops == [] then f else AfterRun(After(f, ops[0]), ops[1..])
  }

  function Replies(f: Flat, ops: seq<Op>): (r: seq<Answer>)
    ensures |r| == |ops|
    decreases |ops|
  {
    if ops == [] then [] else [Reply(f, ops[0])] + Replies(After(f, ops[0]), ops[1..])
  }

  function Writes(chunks: seq<seq<byte>>): (ops: seq<Op>)
    ensures |ops| == |chunks|
  {
    if chunks == [] then [] else [Write(chunks[0])] + Writes(chunks[1..])
  }

  function Padded(content: seq<byte>): (r: seq<byte>)
    ensures |r| == RoundUp(|content|) && content <= r
  {
    Extend(content, RoundUp(|content|))
  }

  /** Only writes, one after the other, have made this file. */
  ghost predicate Appended(f: Flat, content: seq<byte>) {
    && !f.readOnly && f.pos == f.size == |content| && f.bytes == Padded(content)
    && f.pending == (if f.pos % 128 == 0 then -1 else f.pos / 128)
    && (f.stale == -1 || 0 <= f.stale < f.pos / 128)
  }

  lemma StoreAppends(content: seq<byte>, data: seq<byte>)
    ensures Store(Padded(content), |content|, data) == Padded(content + data)
  {
    var l, r := Store(Padded(content), |content|, data), Padded(content + data);
    assert |content + data| == |content| + |data|;
    RoundUpMonotone(|content|, |content| + |data|);
    hide RoundUp;
    assert |l| == |r|;
    forall i | 0 <= i < |l| ensures l[i] == r[i] {
    }
  }

  lemma FirstChunk(content: seq<byte>, chunks: seq<seq<byte>>)
    requires chunks != []
    ensures Writes(chunks) != [] && Writes(chunks)[0] == Write(chunks[0]) && Writes(chunks)[1..] == Writes(chunks[1..])
    ensures (content + chunks[0]) + Joined(chunks[1..]) == content + Joined(chunks)
    ensures |Joined(chunks)| == |chunks[0]| + |Joined(chunks[1..])|
  {
    assert Joined(chunks) == chunks[0] + Joined(chunks[1..]);
    assert Writes(chunks) == [Write(chunks[0])] + Writes(chunks[1..]);
    hide *;
    Append(content, chunks[0], Joined(chunks[1..]), Joined(chunks), content + Joined(chunks));
  }

  /** Writing from start to end is always allowed, however the data is cut up, and
      leaves the data, filled up with zeros. */
  lemma {:induction false} AppendingIsAllowed(f: Flat, content: seq<byte>, capacity: nat, chunks: seq<seq<byte>>)
    requires Appended(f, content)
    requires forall i :: 0 <= i < |chunks| ==> |chunks[i]| < 0x10000
    requires |content| + |Joined(chunks)| <= 0x80_0000
    requires RoundUp(|content| + |Joined(chunks)|) <= 128 * capacity
    ensures AllowedRun(f, capacity, Writes(chunks))
    ensures Appended(AfterRun(f, Writes(chunks)), content + Joined(chunks))
    decreases |chunks|
  {
    if chunks == [] {
      assert content + [] == content;
    } else {
      hide Appended, Allowed, After, RoundUp, Writes, Joined;
      var data, rest := chunks[0], chunks[1..];
      FirstChunk(content, chunks);
      AppendOne(f, content, capacity, data, |Joined(rest)|);
      AppendingIsAllowed(After(f, Write(data)), content + data, capacity, rest);
    }
  }

  lemma AppendOne(f: Flat, content: seq<byte>, capacity: nat, data: seq<byte>, more: nat)
    requires Appended(f, content) && |data| < 0x10000
    requires |content| + |data| + more <= 0x80_0000
    requires RoundUp(|content| + |data| + more) <= 128 * capacity
    ensures Allowed(f, capacity, Write(data))
    ensures Appended(After(f, Write(data)), content + data)
  {
    hide Store, Padded;
    if data == [] {
      assert content + data == content;
    } else {
      hide RoundUp;
      RoundUpMonotone(|content|, |content| + |data|);
      RoundUpMonotone(|content| + |data|, |content| + |data| + more);
      StoreAppends(content, data);
    }
  }

  lemma ThreeOps(f: Flat, capacity: nat, a: Op, b: Op, c: Op)
    requires Allowed(f, capacity, a) && Allowed(After(f, a), capacity, b)
    requires Allowed(After(After(f, a), b), capacity, c)
    ensures AllowedRun(f, capacity, [a, b, c])
    ensures Replies(f, [a, b, c])[2] == Reply(After(After(f, a), b), c)
  {
    hide Allowed, After, Reply;
    var g, h := After(f, a), After(After(f, a), b);
    assert [a, b, c][1..] == [b, c] && [b, c][1..] == [c] && [c][1..] == [];
    assert AllowedRun(h, capacity, [c]);
    assert AllowedRun(g, capacity, [b, c]);
    assert Replies(h, [c])[0] == Reply(h, c);
    assert Replies(g, [b, c])[1] == Replies(h, [c])[0];
    assert Replies(f, [a, b, c])[2] == Replies(g, [b, c])[1];
  }

  /** What was written can be read back at once, at any position and length. */
  lemma WrittenIsReadBack(f: Flat, capacity: nat, data: seq<byte>)
    requires Allowed(f, capacity, Write(data)) && data != [] && !f.readOnly
    ensures var ops := [Write(data), Seek(f.pos, 0), Read(|data|)];
      && AllowedRun(f, capacity, ops)
      && Replies(f, ops)[2] == Answer(|data|, data)
  {
    var h := After(After(f, Write(data)), Seek(f.pos, 0));
    StoredBytes(f.bytes, f.pos, data);
    assert Available(h, |data|) == data;
    ThreeOps(f, capacity, Write(data), Seek(f.pos, 0), Read(|data|));
  }

  lemma StoredBytes(s: seq<byte>, off: nat, data: seq<byte>)
    ensures off + |data| <= |Store(s, off, data)| && Store(s, off, data)[off..off + |data|] == data
  {
  }

  /** Asking for the size changes neither the contents nor the position; the
      answer lies in the last sector and does not change by asking again, or by
      seeking to the end and back. */
  lemma SizeIsHarmless(f: Flat)
    requires |f.bytes| == RoundUp(f.size)
    ensures After(f, Size).bytes == f.bytes && After(f, Size).pos == f.pos
    ensures f.size <= Reply(f, Size).result <= |f.bytes| == RoundUp(Reply(f, Size).result)
    ensures Reply(After(f, Size), Size) == Reply(f, Size)
    ensures Reply(After(f, Seek(0, 2)), Seek(0, 2)) == Reply(f, Seek(0, 2)) == Reply(f, Size)
  {
  }
}
