/** What the calls that are not `PlainFile.Allowed` can do: short runs on a new
    binary file in which the channel and the plain file part company. */
module BinaryLimits {
  import opened Basics
  import opened Sectors
  import opened Disk
  import opened SectorReads
  import opened Channel

  function Ones(n: nat): (r: seq<byte>)
    ensures |r| == n && forall i :: 0 <= i < n ==> r[i] == 1
  {
    seq(n, _ => 1)
  }

  lemma OneSector()
    ensures Store([], 0, Ones(128)) == Ones(128) && Record([], 0) == Zeros(128) && RoundUp(128) == 128
  {
  }

  /** A binary channel after `n` bytes have been written to a new file. */
  ghost predicate Started(ch: Ccb, n: nat)
    reads ch, ch.bdos
  {
    ch.Valid() && ch.isOpen && !ch.isRead && !ch.isAscii && !ch.atEof && ch.offset == ch.hiwater == n
  }

  /** Creates a file and writes `data` to it in one call. Whole sectors go straight to
      the disk, and the buffer keeps a label and the zeros it had from before. */
  method WriteNew(bdos: Bdos, data: seq<byte>) returns (ch: Ccb)
    requires 0 < |data| < 0x10000 && RoundUp(|data|) <= 128 * bdos.capacity
    modifies bdos
    ensures fresh(ch) && fresh(ch.buffer) && ch.bdos == bdos && Started(ch, |data|)
    ensures ch.View() == Store([], 0, data)
    ensures |data| % 128 == 0 ==>
      ch.sector == 0 && !ch.dirty && ch.buffer[..] == Zeros(128) && (ch.Coherent() <==> data[..128] == Zeros(128))
    ensures |data| < 128 ==> bdos.data == [] && ch.dirty && ch.sector == 0
  {
    hide Zeros, Store, Patch, Record, RoundUp, Ccb.Truthful, Ccb.Believed;
    ch := Ccb.Creat(bdos, 0, false, true);
    assert ch.Truthful(0) && Record([], 0) == Zeros(128) by {
      NothingThere(ch);
    }
    var src := BufferOf(data);
    assert src[..] == data;
    var _ := ch.Write(src);
  }

  lemma NothingThere(ch: Ccb)
    requires ch.Valid() && ch.sector == -1
    ensures ch.Truthful(0) && Record([], 0) == Zeros(128)
  {
  }

  /** 128 bytes other than zero, and the channel is no longer coherent. */
  method StaleBuffer(bdos: Bdos) returns (ch: Ccb)
    requires 0 < bdos.capacity
    modifies bdos
    ensures fresh(ch) && fresh(ch.buffer) && ch.bdos == bdos && Started(ch, 128)
    ensures bdos.data == ch.View() == Ones(128)
    ensures ch.sector == 0 && !ch.dirty && ch.buffer[..] == Zeros(128) && !ch.Coherent()
  {
    hide Ones, Zeros, Store, Patch, Record, RoundUp, Ccb.Coherent;
    OneSector();
    ch := WriteNew(bdos, Ones(128));
    assert Ones(128)[..128] == Ones(128);
    assert Zeros(128)[0] != Ones(128)[0];
  }

  lemma ReadAs(dst: seq<byte>, v: seq<byte>, off: nat, r: int)
    requires -1 <= r <= |dst| && (r == -1 || !Served(dst, v, off, r)) && 0 < |dst| && off + |dst| <= |v|
    ensures (if r < 0 then [] else dst[..r]) != v[off..off + |dst|]
  {
    if r == |dst| {
      assert dst[..r] == dst;
    }
  }

  /** A byte inside that sector then reads as something else. */
  method StaleRead(bdos: Bdos) returns (got: seq<byte>)
    requires 0 < bdos.capacity
    modifies bdos
    ensures bdos.data == Ones(128) && got != bdos.data[64..65]
  {
    hide Ones, Zeros, Store, Patch, Record, Served, Ccb.View;
    var ch := StaleBuffer(bdos);
    var _ := ch.Lseek(64, 0);
    var dst := new byte[1];
    assert !ch.HeadRight(1) by {
      assert Zeros(128)[64..][0] != Ones(128)[64];
      assert Zeros(128)[0] != Ones(128)[0];
      assert Record(Ones(128), 0) == Ones(128) by {
        OneRecord(Ones(128));
      }
    }
    var r := ch.Read(dst);
    ReadAs(dst[..], Ones(128), 64, r);
    got := if r < 0 then [] else dst[..r];
    var _ := ch.Close(true);
  }

  lemma OneRecord(s: seq<byte>)
    requires |s| == 128
    ensures Record(s, 0) == s
  {
  }

  lemma OneByte(at: nat)
    requires at < 128
    ensures Store(Zeros(128), at, [1]) == Patch(Zeros(128), at, [1])
    ensures at == 0 ==> Store([], at, [1]) == Patch(Zeros(128), 0, [1]) && RoundUp(1) == 128
    ensures Patch(Ones(128), 0, Zeros(128)) == Zeros(128)
  {
  }

  /** A byte written inside that sector takes the rest of the sector with it. */
  method StaleWrite(bdos: Bdos)
    requires 0 < bdos.capacity
    modifies bdos
    ensures bdos.data == Patch(Zeros(128), 64, [1])
  {
    hide Ones, Zeros, Store, Patch, Record, Ccb.View, Ccb.Truthful;
    var ch := StaleBuffer(bdos);
    var _ := ch.Lseek(64, 0);
    var src := BufferOf([1]);
    assert ch.Believed(0) == Patch(Ones(128), 0, Zeros(128));
    OneByte(64);
    var _ := ch.Write(src);
    assert src[..] == [1];
    var _ := ch.Close(true);
  }

  /** A byte waiting in the buffer is not seen by a read of its whole sector. */
  method HeldBack(bdos: Bdos) returns (got: seq<byte>)
    requires 0 < bdos.capacity
    modifies bdos
    ensures bdos.data == Patch(Zeros(128), 0, [1]) && got != bdos.data[0..128]
  {
    hide Zeros, Store, Patch, Record, Served;
    OneByte(0);
    var ch := WriteNew(bdos, [1]);
    ghost var v := ch.View();
    var _ := ch.Lseek(0, 0);
    var dst := new byte[128];
    var r := ch.Read(dst);
    ReadAs(dst[..], v, 0, r);
    got := if r < 0 then [] else dst[..r];
    var _ := ch.Close(true);
  }
}
