/** Whole runs of calls on a binary channel. */
module BinaryRun {
  import opened Basics
  import opened Sectors
  import opened Disk
  import opened SectorReads
  import opened SectorWrites
  import opened Channel
  import opened PlainFile

  /** The channel, open on a binary file, stands for the plain file. */
  ghost predicate Represents(ch: Ccb, f: Flat)
    reads ch, ch.buffer, ch.bdos
  {
    && ch.isOpen && !ch.isAscii && ch.isRead == f.readOnly
    && ch.Sound() && ch.View() == f.bytes && |f.bytes| == RoundUp(f.size) <= 128 * ch.bdos.capacity
    && ch.hiwater == f.size && ch.offset == f.pos && ch.atEof == f.eof
    && f.pending == (if ch.dirty then ch.sector else -1)
    && (ch.Labelled() || ch.sector == f.stale) && StaleExists(f)
  }

  predicate StaleExists(f: Flat) {
    0 <= f.stale ==> 128 * f.stale + 128 <= |f.bytes|
  }

  /** What the channel believes of the file does not matter to a write that covers the
      sector it may be wrong about. */
  lemma BeliefIsCovered(ch: Ccb, f: Flat, data: seq<byte>)
    requires Represents(ch, f) && 0 <= f.pos && ch.Anchored(f.pos / 128)
    requires f.pos / 128 != f.stale || Covers(f.pos, |data|)
    ensures Store(ch.Believed(f.pos / 128), f.pos, data) == Store(f.bytes, f.pos, data)
  {
    if !ch.Truthful(f.pos / 128) {
      StoreAgrees(ch.Believed(f.pos / 128), f.bytes, f.pos, data);
    }
  }

  /** A write that went as `Ccb.StoredBinary` says is a write to the plain file. */
  lemma WriteKeeps(ch: Ccb, f: Flat, data: seq<byte>)
    requires Allowed(f, ch.bdos.capacity, Write(data)) && data != [] && !f.readOnly
    requires |f.bytes| == RoundUp(f.size) && StaleExists(f)
    requires ch.isOpen && !ch.isAscii && !ch.isRead && ch.atEof == f.eof && ch.Valid()
    requires ch.offset == f.pos + |data| && ch.hiwater == Max(f.size, ch.offset)
    requires WholeSectors(f.pos, |data|) ==>
      ch.bdos.data == Store(f.bytes, f.pos, data) && ch.sector == f.pos / 128 && !ch.dirty
    requires !WholeSectors(f.pos, |data|) ==>
      && ch.View() == Store(f.bytes, f.pos, data)
      && ch.dirty == (ch.offset % 128 != 0) && ch.sector == if ch.dirty then ch.offset / 128 else -1
    ensures Represents(ch, After(f, Write(data)))
  {
    hide Store, Patch, Record, RoundUp, After, Allowed, WholeSectors, Ccb.View, Ccb.Anchored, Max;
    WriteLands(f, ch.bdos.capacity, data);
    if WholeSectors(f.pos, |data|) {
      WholeIsWritten(ch, f, data);
    }
  }

  lemma WholeIsWritten(ch: Ccb, f: Flat, data: seq<byte>)
    requires data != [] && 0 <= f.pos && WholeSectors(f.pos, |data|) && !ch.dirty && ch.Valid()
    ensures (f.pos + |data|) % 128 == 0 && ch.View() == ch.bdos.data
  {
  }

  /** What a write makes of the plain file. */
  lemma WriteLands(f: Flat, capacity: nat, data: seq<byte>)
    requires Allowed(f, capacity, Write(data)) && data != [] && !f.readOnly && |f.bytes| == RoundUp(f.size)
    ensures 0 <= f.pos
    ensures var g := After(f, Write(data));
      && g.bytes == Store(f.bytes, f.pos, data) && |g.bytes| == RoundUp(g.size) <= 128 * capacity
      && g.pos == f.pos + |data| && g.size == Max(f.size, g.pos) && g.eof == f.eof && g.readOnly == f.readOnly
      && g.pending == (if g.pos % 128 == 0 then -1 else g.pos / 128)
      && g.stale == (if WholeSectors(f.pos, |data|) then f.pos / 128 else -1)
      && StaleExists(g)
  {
    hide Store, Patch, RoundUp;
    StoreLength(f.bytes, f.pos, data);
    StoreSize(f.bytes, f.size, f.pos, data);
  }

  method DoWrite(ch: Ccb, ghost f: Flat, data: seq<byte>) returns (a: Answer)
    requires Represents(ch, f) && Allowed(f, ch.bdos.capacity, Write(data))
    modifies ch, ch.buffer, ch.bdos
    ensures Represents(ch, After(f, Write(data))) && a == Reply(f, Write(data))
    ensures ch.bdos.currentUser == old(ch.bdos.currentUser)
  {
    hide Store, Patch, Record, RoundUp;
    var src := BufferOf(data);
    ghost var written := data != [] && !f.readOnly;
    if written {
      BeliefIsCovered(ch, f, data);
    }
    var r := ch.Write(src);
    a := Answer(r, []);
    assert src[..] == data;
    if written {
      WriteKeeps(ch, f, data);
    }
  }

  lemma ServedIsAvailable(f: Flat, dst: seq<byte>, r: nat)
    requires 0 <= f.pos && Served(dst, f.bytes, f.pos, r)
    ensures r <= |dst| && |Available(f, |dst|)| == r && Available(f, |dst|) == if r > 0 then dst[..r] else []
    ensures f.pos <= |f.bytes| ==> f.pos + r <= |f.bytes|
  {
  }

  /** A read that went as `Ccb.FetchedBinary` says is a read of the plain file. */
  lemma ReadKeeps(ch: Ccb, f: Flat, dst: seq<byte>, r: nat)
    requires Allowed(f, ch.bdos.capacity, Read(|dst|)) && !f.eof
    requires f.pos % 128 != 0 ==> f.pos < |f.bytes|
    requires |f.bytes| == RoundUp(f.size) <= 128 * ch.bdos.capacity && StaleExists(f)
    requires ch.isOpen && !ch.isAscii && ch.isRead == f.readOnly && ch.Valid() && ch.View() == f.bytes
    requires Served(dst, f.bytes, f.pos, r) && ch.offset == f.pos + r && ch.hiwater == Max(f.size, ch.offset)
    requires ch.Labelled() ||
      (ch.sector == f.stale && f.pos % 128 == 0 && !(|dst| % 128 != 0 && f.pos + |dst| <= |f.bytes|))
    requires ch.atEof == (0 < |dst| && |f.bytes| < f.pos + |dst|)
    requires ch.dirty == (f.pending != -1 && !ReadFlushes(f.pending, f.pos, |dst|, |f.bytes|))
    requires ch.dirty ==> ch.sector == f.pending
    ensures Represents(ch, After(f, Read(|dst|)))
    ensures Available(f, |dst|) == if r > 0 then dst[..r] else []
  {
    hide Ccb.View, ReadFlushes, RoundUp, Served, Available, After, Allowed, Max;
    ReadLands(f, ch.bdos.capacity, dst, r);
  }

  /** What a read makes of the plain file. */
  lemma ReadLands(f: Flat, capacity: nat, dst: seq<byte>, r: nat)
    requires Allowed(f, capacity, Read(|dst|)) && !f.eof && (f.pos % 128 != 0 ==> f.pos < |f.bytes|)
    requires |f.bytes| == RoundUp(f.size) && Served(dst, f.bytes, f.pos, r)
    ensures r <= |dst| && Available(f, |dst|) == if r > 0 then dst[..r] else []
    ensures 0 <= f.pos
    ensures var g, n := After(f, Read(|dst|)), |dst|;
      && g.bytes == f.bytes && |g.bytes| == RoundUp(g.size) && g.readOnly == f.readOnly
      && g.pos == f.pos + r && g.size == Max(f.size, g.pos) && g.eof == (0 < n && |f.bytes| < f.pos + n)
      && g.pending == (if ReadFlushes(f.pending, f.pos, n, |f.bytes|) then -1 else f.pending)
      && g.stale == (if f.pos % 128 != 0 || (n % 128 != 0 && f.pos + n <= |f.bytes|) then -1 else f.stale)
  {
    hide ReadFlushes, Served, Available;
    ServedIsAvailable(f, dst, r);
  }

  method DoRead(ch: Ccb, ghost f: Flat, n: nat) returns (a: Answer)
    requires Represents(ch, f) && Allowed(f, ch.bdos.capacity, Read(n))
    modifies ch, ch.buffer, ch.bdos
    ensures Represents(ch, After(f, Read(n))) && a == Reply(f, Read(n))
    ensures ch.bdos.currentUser == old(ch.bdos.currentUser)
  {
    hide Ccb.View;
    var dst := new byte[n];
    var r := ch.Read(dst);
    a := Answer(r, if r > 0 then dst[..r] else []);
    if !f.eof && r != -1 {
      ReadKeeps(ch, f, dst[..], r);
    }
  }

  method DoSeek(ch: Ccb, ghost f: Flat, offs: int, whence: int) returns (a: Answer)
    requires Represents(ch, f) && Allowed(f, ch.bdos.capacity, Seek(offs, whence))
    modifies ch, ch.buffer, ch.bdos
    ensures Represents(ch, After(f, Seek(offs, whence))) && a == Reply(f, Seek(offs, whence))
    ensures ch.bdos.currentUser == old(ch.bdos.currentUser)
  {
    var r := ch.Lseek(offs, whence);
    a := Answer(r, []);
  }

  method DoSize(ch: Ccb, ghost f: Flat) returns (a: Answer)
    requires Represents(ch, f)
    modifies ch, ch.buffer, ch.bdos
    ensures Represents(ch, After(f, Size)) && a == Reply(f, Size)
    ensures ch.bdos.currentUser == old(ch.bdos.currentUser)
  {
    var _, size, _ := ch.Fstat();
    a := Answer(size, []);
  }

  method Do(ch: Ccb, ghost f: Flat, op: Op) returns (a: Answer)
    requires Represents(ch, f) && Allowed(f, ch.bdos.capacity, op)
    modifies ch, ch.buffer, ch.bdos
    ensures Represents(ch, After(f, op)) && a == Reply(f, op)
    ensures ch.bdos.currentUser == old(ch.bdos.currentUser)
  {
    match op
    case Write(data) => a := DoWrite(ch, f, data);
    case Read(n) => a := DoRead(ch, f, n);
    case Seek(offs, whence) => a := DoSeek(ch, f, offs, whence);
    case Size => a := DoSize(ch, f);
  }

  /** Any run of allowed calls answers and leaves what it would on the plain file. */
  method Run(ch: Ccb, ghost f0: Flat, ops: seq<Op>) returns (answers: seq<Answer>)
    requires Represents(ch, f0) && AllowedRun(f0, ch.bdos.capacity, ops)
    modifies ch, ch.buffer, ch.bdos
    ensures Represents(ch, AfterRun(f0, ops)) && answers == Replies(f0, ops)
    ensures ch.bdos.currentUser == old(ch.bdos.currentUser)
  {
    hide Represents, Allowed, After, Reply;
    answers := [];
    ghost var f := f0;
    assert ops[0..] == ops;
    for i := 0 to |ops|
      invariant Represents(ch, f) && AllowedRun(f, ch.bdos.capacity, ops[i..])
      invariant AfterRun(f0, ops) == AfterRun(f, ops[i..])
      invariant Replies(f0, ops) == answers + Replies(f, ops[i..])
      invariant ch.bdos.currentUser == old(ch.bdos.currentUser)
    {
      assert ops[i..][1..] == ops[i + 1..];
      var a := Do(ch, f, ops[i]);
      answers := answers + [a];
      f := After(f, ops[i]);
    }
  }

  /** From creating the file to closing it. */
  method Session(bdos: Bdos, user: nat, ops: seq<Op>) returns (answers: seq<Answer>)
    requires AllowedRun(EMPTY, bdos.capacity, ops)
    modifies bdos
    ensures answers == Replies(EMPTY, ops)
    ensures bdos.data == AfterRun(EMPTY, ops).bytes
    ensures bdos.currentUser == old(bdos.currentUser)
  {
    var ch := Ccb.Creat(bdos, user, false, true);
    answers := Run(ch, EMPTY, ops);
    var _ := ch.Close(true);
  }

  /** From opening an existing file to closing it. */
  method Resume(bdos: Bdos, user: nat, readOnly: bool, ops: seq<Op>) returns (answers: seq<Answer>)
    requires bdos.Valid() && |bdos.data| <= 128 * bdos.capacity
    requires AllowedRun(Opened(bdos.data, readOnly), bdos.capacity, ops)
    modifies bdos
    ensures answers == Replies(Opened(old(bdos.data), readOnly), ops)
    ensures bdos.data == AfterRun(Opened(old(bdos.data), readOnly), ops).bytes
    ensures bdos.currentUser == old(bdos.currentUser)
  {
    ghost var f := Opened(bdos.data, readOnly);
    var ch := Ccb.Open(bdos, user, readOnly, false, true);
    answers := Run(ch, f, ops);
    var _ := ch.Close(true);
  }

  /** Writing a new file from start to end stores the data whichever way it is cut
      up: head copies, whole sectors and buffered tails do not show. */
  method WriteFile(bdos: Bdos, user: nat, chunks: seq<seq<byte>>)
    requires forall i :: 0 <= i < |chunks| ==> |chunks[i]| < 0x10000
    requires |Joined(chunks)| <= 0x80_0000 && RoundUp(|Joined(chunks)|) <= 128 * bdos.capacity
    modifies bdos
    ensures bdos.data == Padded(Joined(chunks)) && bdos.currentUser == old(bdos.currentUser)
  {
    AppendingIsAllowed(EMPTY, [], bdos.capacity, chunks);
    assert [] + Joined(chunks) == Joined(chunks);
    var _ := Session(bdos, user, Writes(chunks));
  }
}
