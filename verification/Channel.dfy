/** The channel control block: one write-back sector buffer over a file that can
    only be moved a whole 128-byte record at a time. */
module Channel {
  import opened Basics
  import opened Sectors
  import opened SectorReads
  import opened SectorWrites
  import opened SectorText
  import opened Disk
  import opened Text

  class Ccb {
    const bdos: Bdos
    const buffer: array<byte>
    var isOpen: bool
    var isRead: bool
    var isAscii: bool
    var atEof: bool
    var dirty: bool
    var user: nat
    var offset: int
    var sector: int
    var hiwater: int

    /** A channel as `__chinit` leaves it, on a file the system already holds. */
    constructor (bdos: Bdos)
      requires bdos.Valid()
      ensures this.bdos == bdos && fresh(buffer) && Coherent() && View() == bdos.data
      ensures !isOpen && !isRead && !isAscii && !atEof && !dirty
      ensures user == 0 && offset == 0 && sector == -1 && hiwater == 0
    {
      this.bdos := bdos;
      buffer := new byte[128];
      isOpen, isRead, isAscii, atEof, dirty := false, false, false, false, false;
      user, offset, sector, hiwater := 0, 0, -1, 0;
    }

    /** What the file holds once the buffer has been written back. */
    ghost function View(): (v: seq<byte>)
      requires Valid()
      reads `dirty, `sector, buffer, bdos`data
      ensures |v| % 128 == 0
    {
      if dirty then Patch(bdos.data, 128 * sector, buffer[..]) else bdos.data
    }

    ghost predicate Valid()
      reads `dirty, `sector, bdos`data
    {
      && buffer.Length == 128
      && bdos.Valid()
      && -1 <= sector
      && (dirty ==> 0 <= sector && 128 * sector <= |bdos.data|)
    }

    /** If the buffer is clean and labelled `k`, it is record `k` of the disk. */
    ghost predicate Truthful(k: nat)
      requires Valid()
      reads `dirty, `sector, buffer, bdos`data
    {
      sector == k && !dirty ==> 128 * k + 128 <= |bdos.data| && buffer[..] == Record(bdos.data, k)
    }

    /** The label says what the buffer is. */
    ghost predicate Labelled()
      reads `dirty, `sector, buffer, bdos`data
    {
      Valid() && (0 <= sector ==> Truthful(sector))
    }

    /** The high-water mark lies inside the file. */
    ghost predicate Sound()
      reads `dirty, `sector, `hiwater, buffer, bdos`data
    {
      Valid() && 0 <= hiwater <= |View()|
    }

    /** What every operation is meant to keep. */
    ghost predicate Coherent()
      reads `dirty, `sector, `hiwater, buffer, bdos`data
    {
      Sound() && Labelled()
    }

    /** The buffer holds bytes of sectors `first`, .., `first + count - 1` that the
        disk does not hold. */
    ghost predicate Unsaved(first: nat, count: nat)
      requires Valid()
      reads `dirty, `sector, buffer, bdos`data
    {
      dirty && first <= sector < first + count &&
      (128 * sector == |bdos.data| || Record(bdos.data, sector) != buffer[..])
    }

    /** `_blkio` with B_WRITE: writes sectors one at a time until one is refused. */
    method BlkWrite(first: nat, dma: array<byte>, start: nat, count: nat) returns (done: nat)
      requires bdos.Valid() && start + 128 * count <= dma.Length && 128 * first <= |bdos.data|
      modifies bdos
      ensures bdos.Valid() && bdos.currentUser == old(bdos.currentUser)
      ensures done <= count
      ensures bdos.data == Patch(old(bdos.data), 128 * first, dma[start..start + 128 * done])
      ensures first + count <= Max(|old(bdos.data)| / 128, bdos.capacity) ==> done == count
    {
      hide Patch;
      var record, left, at := first, count, start;
      done := 0;
      PatchNothing(bdos.data, 128 * first);
      assert dma[start..start] == [];
      var xuser := bdos.ChkUser(user);
      while left > 0
        invariant done + left == count && record == first + done && at == start + 128 * done
        invariant bdos.Valid()
        invariant user == 0 ==> bdos.currentUser == old(bdos.currentUser)
        invariant user != 0 ==> bdos.currentUser == user - 1
        invariant bdos.data == Patch(old(bdos.data), 128 * first, dma[start..start + 128 * done])
      {
        var code := bdos.WriteRandom(record, dma, at);
        if code != 0 {
          break;
        }
        WriteStep(old(bdos.data), dma[..], first, start, done);
        record, left, done, at := record + 1, left - 1, done + 1, at + 128;
      }
      bdos.UnChkUser(user, xuser);
    }

    /** `_blkio` with B_READ: reads sectors one at a time until one is missing. */
    method BlkRead(first: nat, dma: array<byte>, start: nat, count: nat) returns (done: nat)
      requires bdos.Valid() && start + 128 * count <= dma.Length
      modifies bdos`currentUser, dma
      ensures bdos.Valid() && bdos.currentUser == old(bdos.currentUser)
      ensures done == Max(0, Min(count, |bdos.data| / 128 - first))
      ensures forall i :: 0 <= i < dma.Length ==>
        dma[i] == if start <= i < start + 128 * done then bdos.data[128 * first + i - start] else old(dma[i])
    {
      var record, left, at := first, count, start;
      done := 0;
      var xuser := bdos.ChkUser(user);
      while left > 0
        invariant done + left == count && record == first + done && at == start + 128 * done
        invariant user == 0 ==> bdos.currentUser == old(bdos.currentUser)
        invariant user != 0 ==> bdos.currentUser == user - 1
        invariant done > 0 ==> 128 * (first + done) <= |bdos.data|
        invariant forall i :: 0 <= i < dma.Length ==>
          dma[i] == if start <= i < start + 128 * done then bdos.data[128 * first + i - start] else old(dma[i])
      {
        var code := bdos.ReadRandom(record, dma, at);
        if code != 0 {
          break;
        }
        record, left, done, at := record + 1, left - 1, done + 1, at + 128;
      }
      bdos.UnChkUser(user, xuser);
    }

    /** Makes the buffer a copy of `xsector`: read inside the high-water mark,
        zeros above it. */
    method Preread(xsector: nat) returns (ok: bool)
      requires buffer.Length == 128 && bdos.Valid() && 0 <= hiwater && xsector == offset / 128
      requires 128 * xsector < RoundUp(hiwater) <==> 128 * xsector < |bdos.data|
      modifies buffer, bdos`currentUser
      ensures ok && buffer[..] == Record(bdos.data, xsector) && bdos.currentUser == old(bdos.currentUser)
    {
      if SectorBase(offset) > SectorBase(hiwater - 1) {
        forall i | 0 <= i < 128 {
          buffer[i] := 0;
        }
      } else {
        var done := BlkRead(xsector, buffer, 0, 1);
        if done != 1 {
          return false;
        }
      }
      ok := true;
    }

    /** A clean buffer labelled `k` is labelled with a record that the disk has. */
    ghost predicate Anchored(k: nat)
      requires Valid()
      reads `dirty, `sector, bdos`data
    {
      sector == k && !dirty ==> 128 * k + 128 <= |bdos.data|
    }

    /** The file as a write into sector `k` takes it to be: it believes the label. */
    ghost function Believed(k: nat): (v: seq<byte>)
      requires Valid() && Anchored(k)
      reads `dirty, `sector, buffer, bdos`data
      ensures |v| == |View()| && (Truthful(k) ==> v == View())
    {
      if sector == k && !dirty then Patch(bdos.data, 128 * k, buffer[..]) else View()
    }

    /** The first step of `_wrtbin`: the buffer becomes sector `xsector`. */
    method FetchForWrite(xsector: nat) returns (ok: bool)
      requires Valid() && Anchored(xsector)
      requires 0 <= hiwater && 0 <= offset && xsector == offset / 128
      requires 128 * xsector <= |View()| == RoundUp(hiwater)
      modifies `dirty, `sector, buffer, bdos
      ensures Valid() && bdos.currentUser == old(bdos.currentUser)
      ensures |old(View())| <= 128 * bdos.capacity ==> ok
      ensures ok ==> sector == xsector && buffer[..] == Record(old(Believed(xsector)), xsector)
      ensures ok ==> SameBut(bdos.data, old(Believed(xsector)), xsector)
      ensures ok ==> dirty == (old(dirty) && old(sector) == xsector)
      ensures ok ==> bdos.data == if old(sector) == xsector then old(bdos.data) else old(View())
    {
      ghost var v := View();
      ok := true;
      if xsector != sector {
        if dirty {
          var done := BlkWrite(sector, buffer, 0, 1);
          if done != 1 {
            return false;
          }
          assert buffer[0..128] == buffer[..];
        }
        assert bdos.data == v;
        ok := Preread(xsector);
        if !ok {
          return;
        }
        dirty := false;
        sector := xsector;
      } else {
        PatchOver(bdos.data, 128 * xsector, buffer[..], buffer[..]);
        assert Record(Believed(xsector), xsector) == buffer[..];
      }
    }

    /** `blkmove` of user bytes into the buffer. */
    method MoveIn(at: nat, src: array<byte>, first: nat, n: nat)
      requires buffer.Length == 128 && at + n <= 128 && first + n <= src.Length && src != buffer
      modifies buffer
      ensures buffer[..] == Patch(old(buffer[..]), at, src[first..first + n])
    {
      forall i | at <= i < at + n {
        buffer[i] := src[first + i - at];
      }
    }

    /** The head of `_wrtbin`: bytes up to the end of the fetched sector, which
        is written through when it is full. */
    method WriteHead(src: array<byte>, nbs: nat, ghost v: seq<byte>) returns (ok: bool)
      requires Valid() && src != buffer
      requires 0 <= offset && 0 < nbs <= 128 - offset % 128 && nbs <= src.Length
      requires |v| % 128 == 0 && sector == offset / 128
      requires SameBut(bdos.data, v, sector) && buffer[..] == Record(v, sector)
      modifies `dirty, `sector, `offset, buffer, bdos
      ensures Valid() && bdos.currentUser == old(bdos.currentUser)
      ensures RoundUp(old(offset) + nbs) <= 128 * bdos.capacity ==> ok
      ensures ok ==> offset == old(offset) + nbs
      ensures ok ==> View() == Store(v, old(offset), src[..][..nbs])
      ensures ok && old(offset) % 128 + nbs < 128 ==> bdos.data == old(bdos.data)
      ensures ok ==> dirty == (offset % 128 != 0)
      ensures ok ==> sector == if dirty then offset / 128 else -1
    {
      hide Patch, Record, Store;
      var bufPos := offset % 128;
      var xsector := sector;
      ghost var a := src[..][..nbs];
      assert a == src[0..nbs];
      StoreInSector(bdos.data, v, offset, a);
      MoveIn(bufPos, src, 0, nbs);
      ghost var filled := buffer[..];
      assert filled == Patch(Record(v, xsector), bufPos, a);
      offset := offset + nbs;
      ok := true;
      if bufPos + nbs != 128 {
        dirty := true;
        sector := xsector;
      } else {
        assert buffer[0..128] == filled;
        var done := BlkWrite(xsector, buffer, 0, 1);
        if done != 1 {
          return false;
        }
        dirty := false;
        sector := -1;
      }
    }

    /** Copies bytes until the sector is full or the data ends, or none at all when
        whole sectors can go straight to the disk; answers how many. */
    method StartWrite(src: array<byte>, ghost data: seq<byte>, ghost v: seq<byte>) returns (nbs: int)
      requires Valid() && src != buffer && 0 < src.Length && data == src[..]
      requires 0 <= offset && |v| % 128 == 0 && sector == offset / 128
      requires SameBut(bdos.data, v, sector) && buffer[..] == Record(v, sector)
      modifies `dirty, `sector, `offset, buffer, bdos
      ensures Valid() && bdos.currentUser == old(bdos.currentUser)
      ensures -1 <= nbs <= src.Length
      ensures RoundUp(old(offset) + src.Length) <= 128 * bdos.capacity ==> nbs != -1
      ensures nbs != -1 ==> offset == old(offset) + nbs
      ensures nbs == 0 ==>
        old(offset) % 128 == 0 && 128 <= src.Length && bdos.data == old(bdos.data) &&
        dirty == old(dirty) && sector == old(sector) && buffer[..] == old(buffer[..])
      ensures nbs > 0 ==>
        View() == Store(v, old(offset), data[..nbs]) &&
        dirty == (offset % 128 != 0) && sector == if dirty then offset / 128 else -1
      ensures 0 < nbs < src.Length ==> offset % 128 == 0 && bdos.data == Store(v, old(offset), data[..nbs])
      ensures nbs > 0 ==> !WholeSectors(old(offset), src.Length)
      ensures old(offset) % 128 + src.Length < 128 && nbs != -1 ==> nbs == src.Length && bdos.data == old(bdos.data)
    {
      hide Store, Patch, SameBut, Record, RoundUp, Valid;
      RoundUpMonotone(offset + Min(src.Length, 128 - offset % 128), offset + src.Length);
      nbs := 128 - offset % 128;
      if nbs > src.Length {
        nbs := src.Length;
      } else if nbs == 128 {
        nbs := 0;
      }
      if nbs > 0 {
        var ok := WriteHead(src, nbs, v);
        if !ok {
          return -1;
        }
      }
    }

    /** The middle of `_wrtbin`: whole sectors go to the disk past the buffer. */
    method WriteMiddle(src: array<byte>, first: nat, xsector: nat, nsector: nat, ghost v: seq<byte>, ghost off: nat)
      returns (ok: bool)
      requires bdos.Valid() && |v| % 128 == 0
      requires 0 < nsector && first + 128 * nsector <= src.Length && 128 * xsector == off + first
      requires SameBut(bdos.data, Store(v, off, src[..][..first]), xsector)
      modifies bdos
      ensures bdos.Valid() && |old(bdos.data)| <= |bdos.data| && bdos.currentUser == old(bdos.currentUser)
      ensures xsector + nsector <= bdos.capacity ==> ok
      ensures ok ==> bdos.data == Store(v, off, src[..][..first + 128 * nsector])
    {
      hide Store, Patch, RoundUp;
      ghost var data, next := src[..], first + 128 * nsector;
      assert data[first..next] == src[first..next];
      StoreLength(v, off, data[..first]);
      StoreWhole(bdos.data, Store(v, off, data[..first]), xsector, data[first..next]);
      StorePrefix(v, off, data, first, next);
      var done := BlkWrite(xsector, src, first, nsector);
      ok := done == nsector;
    }

    /** The tail of `_wrtbin`: fewer bytes than a sector, buffered. The high-water
        mark is still the one from before the call. */
    method WriteTail(src: array<byte>, first: nat, xsector: nat, ghost v: seq<byte>, ghost off: nat) returns (ok: bool)
      requires buffer.Length == 128 && bdos.Valid() && src != buffer
      requires first < src.Length && src.Length - first < 128
      requires offset == off + first == 128 * xsector && 0 <= hiwater && RoundUp(hiwater) == |v|
      requires bdos.data == Store(v, off, src[..][..first])
      modifies `dirty, `sector, `offset, buffer, bdos`currentUser
      ensures Valid() && bdos.currentUser == old(bdos.currentUser)
      ensures ok
      ensures offset == off + src.Length
      ensures dirty && sector == xsector
      ensures View() == Store(v, off, src[..])
    {
      hide Store, Patch, RoundUp;
      ghost var data := src[..];
      StoreLength(v, off, data[..first]);
      ok := Preread(xsector);
      if !ok {
        return;
      }
      var n := src.Length - first;
      assert src[first..first + n] == data[first..];
      SameButSelf(bdos.data, xsector);
      StoreInSector(bdos.data, bdos.data, offset, data[first..]);
      StorePrefix(v, off, data, first, |data|);
      assert data[..|data|] == data && data[first..|data|] == data[first..];
      MoveIn(0, src, first, n);
      dirty := true;
      sector := xsector;
      offset := offset + n;
    }

    /** The part of `_wrtbin` that starts on a sector boundary: whole sectors past
        the buffer, then what is left into it. */
    method FinishWrite(src: array<byte>, first: nat, ghost data: seq<byte>, ghost v: seq<byte>, ghost off: nat)
      returns (ok: bool)
      requires Valid() && src != buffer && first < src.Length < 0x10000 && data == src[..]
      requires offset == off + first && offset % 128 == 0
      requires |v| % 128 == 0 && 0 <= hiwater && RoundUp(hiwater) == |v|
      requires off + src.Length <= 0x80_0000
      requires SameBut(bdos.data, Store(v, off, data[..first]), offset / 128)
      requires src.Length - first < 128 ==> bdos.data == Store(v, off, data[..first])
      modifies `dirty, `sector, `offset, buffer, bdos
      ensures Valid() && bdos.currentUser == old(bdos.currentUser)
      ensures off + src.Length < 128 * bdos.capacity + 128 ==> ok
      ensures ok ==> offset == off + src.Length
      ensures ok && offset % 128 == 0 ==>
        bdos.data == Store(v, off, data) &&
        dirty == old(dirty) && sector == old(sector) && buffer[..] == old(buffer[..])
      ensures ok && !old(dirty) ==> View() == Store(v, off, data)
      ensures ok && offset % 128 != 0 ==>
        View() == Store(v, off, data) && dirty && sector == offset / 128
    {
      hide Store, Patch, RoundUp, SameBut, Uword;
      var written, bytes := first, src.Length - first;
      var xsector := Uword(offset / 128);
      if bytes >= 128 {
        var nsector := bytes / 128;
        ok := WriteMiddle(src, written, xsector, nsector, v, off);
        if !ok {
          return;
        }
        xsector := Uword(xsector + nsector);
        var nbs := Uword(nsector * 128);
        written := Uword(written + nbs);
        offset := offset + nbs;
        bytes := bytes - nbs;
        if bytes == 0 {
          assert data[..written] == data;
          return;
        }
      }
      ok := WriteTail(src, written, xsector, v, off);
    }

    /** Everything `_wrtbin` does once the buffer is the sector at the offset. */
    method WriteData(src: array<byte>, ghost data: seq<byte>, ghost v: seq<byte>) returns (ok: bool)
      requires Valid() && src != buffer && data == src[..]
      requires 0 < src.Length < 0x10000 && offset + src.Length <= 0x80_0000
      requires 0 <= offset && sector == offset / 128
      requires 0 <= hiwater && |v| == RoundUp(hiwater)
      requires SameBut(bdos.data, v, sector) && buffer[..] == Record(v, sector)
      modifies `dirty, `sector, `offset, buffer, bdos
      ensures Valid() && bdos.currentUser == old(bdos.currentUser)
      ensures RoundUp(old(offset) + src.Length) <= 128 * bdos.capacity ==> ok
      ensures ok ==> offset == old(offset) + src.Length
      ensures ok && old(offset) % 128 + src.Length < 128 ==> bdos.data == old(bdos.data)
      ensures ok && !WholeSectors(old(offset), src.Length) ==>
        && View() == Store(v, old(offset), data)
        && dirty == (offset % 128 != 0)
        && sector == if dirty then offset / 128 else -1
      ensures ok && WholeSectors(old(offset), src.Length) ==>
        && bdos.data == Store(v, old(offset), data)
        && dirty == old(dirty) && sector == old(sector) && buffer[..] == old(buffer[..])
    {
      hide Store, Patch, Uword, Record, View, SameBut, RoundUp;
      ghost var off := offset;
      var nbs := StartWrite(src, data, v);
      if nbs == -1 {
        return false;
      }
      if nbs < src.Length {
        SameButFirst(bdos.data, v, off, data, nbs);
        ok := FinishWrite(src, nbs, data, v, off);
      } else {
        assert data[..nbs] == data;
        ok := true;
      }
    }

    /** What a successful `_wrtbin` of `data` does. A write of whole sectors from a
        sector boundary leaves the buffer as the fetch made it; one that does not
        fill its sector stays off the disk. */
    twostate predicate StoredBinary(data: seq<byte>)
      requires old(Valid() && 0 <= offset && Anchored(offset / 128)) && Valid()
      reads this, buffer, bdos
    {
      var v := old(Believed(offset / 128));
      && offset == old(offset) + |data|
      && hiwater == Max(old(hiwater), offset)
      && (old(offset) % 128 + |data| < 128 ==>
            bdos.data == if old(sector) == old(offset) / 128 then old(bdos.data) else old(View()))
      && if WholeSectors(old(offset), |data|) then
           && bdos.data == Store(v, old(offset), data)
           && sector == old(offset) / 128
           && dirty == (old(dirty) && old(sector) == sector)
           && buffer[..] == Record(v, sector)
         else
           && View() == Store(v, old(offset), data)
           && dirty == (offset % 128 != 0)
           && sector == if dirty then offset / 128 else -1
    }

    /** What a write of `n` bytes leaves of the buffered sector is what the file has. */
    ghost predicate RestRight(n: nat)
      requires Valid() && 0 <= offset && Anchored(offset / 128)
      reads `dirty, `sector, `offset, buffer, bdos
    {
      var k := offset / 128;
      Truthful(k) ||
      forall p :: 0 <= p < |View()| && p / 128 == k && !(offset <= p < offset + n) ==>
        Believed(k)[p] == View()[p]
    }

    /** Belief is wrong about the labelled sector at most. */
    twostate lemma BelievedElsewhere(k: nat)
      requires old(Valid() && Anchored(k))
      ensures forall p :: 0 <= p < |old(View())| && p / 128 != k ==> old(Believed(k))[p] == old(View())[p]
    {
    }

    /** Exactly when the file is right and the channel still coherent afterwards. */
    twostate lemma StoredExactly(data: seq<byte>)
      requires old(ReadyForBinary(|data|)) && Valid() && 0 < |data| && StoredBinary(data)
      ensures (Coherent() && View() == Store(old(View()), old(offset), data))
          <==> old(RestRight(|data|)) && KeepsBuffer(old(Believed(offset / 128)), old(offset), data)
    {
      hide Store, Patch, Record;
      ghost var v, off := old(Believed(offset / 128)), old(offset);
      StoreLength(v, off, data);
      if WholeSectors(off, |data|) {
        WholeWrite(v, off, data, buffer[..]);
      }
      if !old(Truthful(offset / 128)) {
        BelievedElsewhere(off / 128);
        StoreAgrees(v, old(View()), off, data);
      }
    }

    /** Room on the disk for `n` more bytes at the offset. */
    ghost predicate Room(n: nat)
      requires Valid() && 0 <= offset
      reads `dirty, `sector, `offset, buffer, bdos
    {
      Max(|View()|, RoundUp(offset + n)) <= 128 * bdos.capacity
    }

    /** What `_wrtbin` needs: no hole below the offset, and no buffer label for a
        record that is not there. */
    ghost predicate ReadyForBinary(n: nat)
      reads `dirty, `sector, `offset, `hiwater, buffer, bdos
    {
      && Valid()
      && 0 <= hiwater && |View()| == RoundUp(hiwater)
      && 0 <= offset && 128 * (offset / 128) <= |View()| && Anchored(offset / 128)
      && n < 0x10000 && offset + n <= 0x80_0000
    }

    /** Writes `src` at the current offset of a binary file. */
    method WrtBin(src: array<byte>) returns (r: int)
      requires ReadyForBinary(src.Length) && src != buffer && 0 < src.Length
      modifies `dirty, `sector, `offset, `hiwater, buffer, bdos
      ensures Valid() && bdos.currentUser == old(bdos.currentUser)
      ensures r == src.Length || r == -1
      ensures old(Room(src.Length)) ==> r == src.Length
      ensures r == src.Length ==> StoredBinary(src[..])
      ensures r == src.Length ==>
        (Coherent() && View() == Store(old(View()), old(offset), src[..])
         <==> old(RestRight(src.Length)) && KeepsBuffer(old(Believed(offset / 128)), old(offset), src[..]))
    {
      hide Store, Patch, RoundUp, SameBut, Uword, Record, Truthful, View, Believed;
      ghost var v, data := Believed(offset / 128), src[..];
      var ok := FetchForWrite(Uword(offset / 128));
      if !ok {
        return -1;
      }
      assert src[..] == data;
      ok := WriteData(src, data, v);
      if !ok {
        return -1;
      }
      assert src[..] == data;
      if offset > hiwater {
        hiwater := offset;
      }
      r := Uword(src.Length);
      StoredExactly(data);
    }

    /** A label that told the truth still does, and a false one was not added. */
    twostate predicate LabelKept()
      reads `dirty, `sector, buffer, bdos`data
    {
      (old(Labelled()) ==> Labelled()) && (Labelled() || sector == old(sector))
    }

    /** Writes a dirty buffer back. */
    method WriteBack() returns (ok: bool)
      requires Valid()
      modifies `dirty, bdos
      ensures Valid() && LabelKept() && (old(dirty) ==> Labelled()) && bdos.currentUser == old(bdos.currentUser)
      ensures View() == old(View())
      ensures |old(View())| <= 128 * bdos.capacity ==> ok
      ensures ok ==> !dirty && bdos.data == View()
      ensures !ok ==> dirty && old(dirty)
    {
      if dirty {
        var done := BlkWrite(sector, buffer, 0, 1);
        assert buffer[0..128] == buffer[..];
        assert buffer[0..0] == [];
        PatchNothing(old(bdos.data), 128 * sector);
        if done != 1 {
          return false;
        }
        PatchOver(old(bdos.data), 128 * sector, buffer[..], buffer[..]);
        dirty := false;
      }
      ok := true;
    }

    /** Copies buffered bytes to the user until either side is used up. */
    method MoveOut(first: nat, dst: array<byte>, at: nat) returns (n: nat)
      requires buffer.Length == 128 && first < 128 && at <= dst.Length && dst != buffer
      modifies dst
      ensures n == Min(128 - first, dst.Length - at)
      ensures forall i :: 0 <= i < dst.Length ==>
        dst[i] == if at <= i < at + n then buffer[first + i - at] else old(dst[i])
    {
      n := 0;
      while first + n < 128 && at + n < dst.Length
        invariant first + n <= 128 && at + n <= dst.Length
        invariant forall i :: 0 <= i < dst.Length ==>
          dst[i] == if at <= i < at + n then buffer[first + i - at] else old(dst[i])
      {
        dst[at + n] := buffer[first + n];
        n := n + 1;
      }
    }

    lemma BufferIsRecord()
      requires Labelled() && 0 <= sector
      ensures 128 * sector + 128 <= |View()| && buffer[..] == Record(View(), sector)
    {
      assert Record(View(), sector) == buffer[..];
    }

    /** Reads sector `k` over a clean buffer, if there is one. */
    method ReadBuffer(k: nat) returns (ok: bool)
      requires Valid() && !dirty
      modifies `sector, buffer, bdos`currentUser
      ensures Valid() && LabelKept() && (ok ==> Labelled()) && bdos.currentUser == old(bdos.currentUser)
      ensures View() == old(View()) == bdos.data
      ensures ok <==> 128 * k + 128 <= |bdos.data|
      ensures ok ==> sector == k && buffer[..] == Record(bdos.data, k)
      ensures !ok ==> sector == old(sector)
    {
      var done := BlkRead(k, buffer, 0, 1);
      ok := done == 1;
      if ok {
        sector := k;
      }
    }

    /** Makes the buffer sector `k`, writing back what it held; fails when the
        file has no such sector. A buffer labelled `k` is taken as it is. */
    method Fetch(k: nat) returns (ok: bool)
      requires Valid()
      modifies `dirty, `sector, buffer, bdos
      ensures Valid() && LabelKept() && bdos.currentUser == old(bdos.currentUser)
      ensures View() == old(View())
      ensures ok ==> sector == k && dirty == (old(dirty) && old(sector) == k)
      ensures ok && old(Truthful(k)) ==>
        Labelled() && 128 * k + 128 <= |View()| && buffer[..] == Record(View(), k)
      ensures |old(View())| <= 128 * bdos.capacity && old(Truthful(k)) ==> (ok <==> 128 * k + 128 <= |old(View())|)
      ensures |old(View())| <= 128 * bdos.capacity && !ok ==> !dirty
      ensures !old(Truthful(k)) ==> ok && buffer[..] == old(buffer[..]) && bdos.data == old(bdos.data) && !dirty
    {
      if sector != k {
        ok := WriteBack();
        if ok {
          ok := ReadBuffer(k);
        }
      } else {
        ok := true;
      }
    }

    /** The bytes that a read of `n` bytes takes from the buffer first are right: it
        starts on a sector boundary, or the buffer is not stale, or not there. */
    ghost predicate HeadRight(n: nat)
      requires Valid() && 0 <= offset
      reads `dirty, `sector, `offset, buffer, bdos`data
    {
      offset % 128 == 0 || Truthful(offset / 128) ||
      Delivered(buffer[offset % 128..], View(), offset, Min(n, 128 - offset % 128))
    }

    /** The head of `_rdbin`: an offset inside a sector is read through the buffer. */
    method ReadHead(dst: array<byte>) returns (r: int)
      requires 0 <= offset && offset % 128 != 0
      requires Valid() && dst != buffer
      modifies `dirty, `sector, `offset, buffer, bdos, dst
      ensures Valid() && LabelKept() && bdos.currentUser == old(bdos.currentUser)
      ensures View() == old(View())
      ensures |View()| <= 128 * bdos.capacity ==>
        (r == -1 <==> old(Truthful(offset / 128)) && old(offset) >= |View()|)
      ensures r == -1 ==> offset == old(offset)
      ensures |View()| <= 128 * bdos.capacity && r == -1 ==> !dirty
      ensures r != -1 ==>
        && r == Min(dst.Length, 128 - old(offset) % 128)
        && offset == old(offset) + r && sector == old(offset) / 128
        && dirty == (old(dirty) && old(sector) == sector)
        && (old(Truthful(offset / 128)) ==> Labelled())
        && (Delivered(dst[..], View(), old(offset), r) <==> old(HeadRight(dst.Length)))
    {
      hide Patch, View, Truthful;
      ghost var v := View();
      var ok := Fetch(offset / 128);
      if !ok {
        return -1;
      }
      var n := MoveOut(offset % 128, dst, 0);
      forall i | 0 <= i < n ensures dst[i] == buffer[..][offset % 128 + i] {
      }
      HeadDelivered(dst[..], buffer[..], v, offset, n);
      offset := offset + n;
      r := n;
    }

    /** Writes a dirty buffer back and reads sector `k` whatever the label says. Code -1
        is an I/O error, 1 a sector that the file does not have. */
    method Refill(k: nat) returns (code: int)
      requires Valid()
      modifies `dirty, `sector, buffer, bdos
      ensures Valid() && LabelKept() && bdos.currentUser == old(bdos.currentUser)
      ensures View() == old(View())
      ensures code == -1 || code == 0 || code == 1
      ensures |View()| <= 128 * bdos.capacity ==> code != -1
      ensures code != -1 ==> !dirty && (code == 0 <==> 128 * k + 128 <= |View()|)
      ensures code == 0 ==> Labelled() && sector == k && buffer[..] == Record(View(), k)
    {
      hide View, Truthful, Record;
      var ok := WriteBack();
      if !ok {
        return -1;
      }
      ok := ReadBuffer(k);
      code := if ok then 0 else 1;
    }

    /** The tail of `_rdbin`: fewer bytes than a sector, through the buffer. */
    method ReadTail(dst: array<byte>, at: nat) returns (r: int)
      requires Valid() && dst != buffer && 0 <= offset && offset % 128 == 0
      requires at < dst.Length && dst.Length - at < 128
      modifies `dirty, `sector, `offset, `hiwater, `atEof, buffer, bdos, dst
      ensures Valid() && LabelKept() && bdos.currentUser == old(bdos.currentUser)
      ensures View() == old(View())
      ensures r == -1 || r == at || r == dst.Length
      ensures |View()| <= 128 * bdos.capacity ==> r != -1
      ensures r != -1 ==> !dirty && offset == old(offset) + r - at
      ensures r != -1 ==> (r == at <==> |View()| <= old(offset))
      ensures r == at ==> hiwater == old(hiwater) && atEof
      ensures r == dst.Length ==> hiwater == Max(old(hiwater), offset) && atEof == old(atEof)
      ensures r == dst.Length ==> offset <= |View()| && Labelled()
      ensures r == dst.Length ==> forall i :: at <= i < r ==> dst[i] == View()[old(offset) + i - at]
      ensures forall j :: 0 <= j < at ==> dst[j] == old(dst[j])
    {
      hide View, Truthful, Record, Labelled;
      var code := Refill(offset / 128);
      if code == -1 {
        return -1;
      } else if code == 1 {
        atEof := true;
        return at;
      }
      ghost var v := View();
      var n := MoveOut(0, dst, at);
      InRecord(v, offset);
      assert View() == v && n == dst.Length - at;
      forall i | at <= i < at + n ensures dst[i] == v[offset + i - at] {
        assert dst[i] == buffer[..][i - at];
      }
      offset := offset + n;
      if offset > hiwater {
        hiwater := offset;
      }
      r := dst.Length;
    }

    /** What reading sectors past the buffer gives: the file's bytes, unless the
        buffer holds one of them back, and then byte `p` shows it. */
    lemma BypassCase(k: nat, count: nat) returns (p: nat)
      requires Valid()
      ensures |bdos.data| <= |View()|
      ensures !Unsaved(k, count) ==>
        && Max(0, Min(count, |bdos.data| / 128 - k)) == Max(0, Min(count, |View()| / 128 - k))
        && forall q :: 128 * k <= q < 128 * (k + count) && q < |bdos.data| ==> q < |View()| && bdos.data[q] == View()[q]
      ensures Unsaved(k, count) ==>
        && 128 * k <= p < 128 * (k + count) && p < |View()|
        && (p < |bdos.data| ==> bdos.data[p] != View()[p])
    {
      hide Patch, Record;
      p := 0;
      if Unsaved(k, count) {
        p := BypassUnsound(bdos.data, sector, buffer[..], k, count);
      } else if dirty {
        BypassSound(bdos.data, sector, buffer[..], k, count);
      }
    }

    /** The middle of `_rdbin`: whole sectors come from the disk past the buffer.
        If the buffer held one of them back, byte `bad` of `dst` shows it. */
    method ReadMiddle(dst: array<byte>, at: nat, nsector: nat) returns (i: nat, ghost bad: nat)
      requires Valid() && dst != buffer && 0 <= offset && offset % 128 == 0
      requires at + 128 * nsector <= dst.Length
      modifies `offset, `hiwater, `atEof, bdos`currentUser, dst
      ensures bdos.currentUser == old(bdos.currentUser)
      ensures i <= nsector
      ensures offset == old(offset) + 128 * i && hiwater == Max(old(hiwater), offset)
      ensures atEof == (old(atEof) || i != nsector)
      ensures forall j :: 0 <= j < at ==> dst[j] == old(dst[j])
      ensures i > 0 ==> offset <= |View()|
      ensures !Unsaved(old(offset) / 128, nsector) ==>
        && i == Max(0, Min(nsector, |View()| / 128 - old(offset) / 128))
        && forall j :: at <= j < at + 128 * i ==> dst[j] == View()[old(offset) + j - at]
      ensures Unsaved(old(offset) / 128, nsector) ==>
        && at <= bad < at + 128 * nsector && old(offset) + bad - at < |View()|
        && (bad < at + 128 * i ==> dst[bad] != View()[old(offset) + bad - at])
    {
      hide Unsaved, View;
      hide Min;
      ghost var v, off, held := View(), offset, Unsaved(offset / 128, nsector);
      ghost var p := BypassCase(offset / 128, nsector);
      bad := if held then p - off + at else 0;
      i := 0;
      if nsector > 0 {
        i := BlkRead(offset / 128, dst, at, nsector);
      }
      MiddleEnds(|bdos.data|, off, nsector, i);
      assert View() == v && Unsaved(off / 128, nsector) == held;
      if !held {
        MiddleEnds(|v|, off, nsector, i);
      }
      offset := offset + 128 * i;
      if offset > hiwater {
        hiwater := offset;
      }
      if i != nsector {
        atEof := true;
      }
    }

    /** The part of `_rdbin` that starts on a sector boundary. The bytes before
        `at` were delivered by the head. */
    method ReadRest(dst: array<byte>, at: nat, ghost off: nat) returns (r: int)
      requires Valid() && dst != buffer && 0 <= offset == off + at && offset % 128 == 0
      requires at <= dst.Length
      modifies `dirty, `sector, `offset, `hiwater, `atEof, buffer, bdos, dst
      ensures Valid() && LabelKept() && bdos.currentUser == old(bdos.currentUser)
      ensures View() == old(View())
      ensures |View()| <= 128 * bdos.capacity ==> r != -1
      ensures r != -1 ==> at <= r <= dst.Length && offset == off + r && hiwater == Max(old(hiwater), offset)
      ensures r != -1 ==> offset <= Max(old(offset), |View()|)
      ensures r == dst.Length && (dst.Length - at) % 128 != 0 ==> Labelled()
      ensures r != -1 ==>
        (Served(dst[..], View(), off, r)
         <==> old(Delivered(dst[..], View(), off, at)) && !old(Unsaved(offset / 128, (dst.Length - at) / 128)))
      ensures r != -1 && !old(Unsaved(offset / 128, (dst.Length - at) / 128)) && old(offset) <= |View()| ==>
        && atEof == (old(atEof) || (at < dst.Length && off + dst.Length > |View()|))
        && dirty == (old(dirty) && !(TailRead(off, dst.Length, |View()|) && at < dst.Length))
        && (dirty ==> sector == old(sector))
    {
      hide Unsaved, View, Truthful, TailRead, Served, Delivered, Min;
      ghost var v, before := View(), dst[..];
      var nsector := (dst.Length - at) / 128;
      var i, bad := ReadMiddle(dst, at, nsector);
      r := at + 128 * i;
      if i == nsector && r < dst.Length {
        r := ReadTail(dst, r);
      }
      if r != -1 {
        if !old(Unsaved(offset / 128, (dst.Length - at) / 128)) && old(offset) <= |v| {
          RestEnds(off, at, dst.Length, |v|, i);
        }
        StillDelivered(before, dst[..], v, off, at);
        ServedWhen(dst[..], v, off, at, i, r, old(Unsaved(offset / 128, (dst.Length - at) / 128)), bad);
      }
    }

    /** What a successful `_rdbin` into `dst` does: the bytes are the file's exactly
        when no whole sector it read past the buffer was held back in it. */
    twostate predicate FetchedBinary(dst: seq<byte>, r: nat)
      requires old(Valid()) && Valid() && 0 <= old(offset)
      reads this, buffer, bdos
    {
      && offset == old(offset) + r
      && hiwater == Max(old(hiwater), offset)
      && (old(offset % 128 != 0 && Truthful(offset / 128)) ==> Labelled())
      && (old(offset) % 128 == 0 && r == |dst| && |dst| % 128 != 0 ==> Labelled())
      && (old(offset) <= |View()| ==> offset <= |View()|)
      && (Served(dst, View(), old(offset), r)
          <==> old(HeadRight(|dst|)) && (old(offset) % 128 != 0 || !old(Unsaved(offset / 128, |dst| / 128))))
      && (old(offset) <= |View()| && Served(dst, View(), old(offset), r) ==>
            && atEof == (old(atEof) || (0 < |dst| && old(offset) + |dst| > |View()|))
            && dirty == (old(dirty) && !ReadFlushes(old(sector), old(offset), |dst|, |View()|))
            && (dirty ==> sector == old(sector)))
    }

    /** A read leaves the high-water mark inside the file unless it started past the end. */
    twostate lemma StaysSound()
      requires old(Sound()) && Valid() && View() == old(View())
      requires old(offset) <= offset && hiwater == Max(old(hiwater), offset)
      requires old(offset) <= |View()| ==> offset <= |View()|
      ensures Sound() <==> old(offset) <= |View()|
    {
    }

    /** What the buffer holds of an earlier sector does not hold back a later one. */
    lemma OtherIsSaved(first: nat, count: nat)
      requires Valid() && sector < first
      ensures !Unsaved(first, count)
    {
    }

    /** A read that ends in the sector it started in. */
    twostate lemma FetchedByHead(dst: seq<byte>)
      requires old(Valid()) && Valid() && 0 <= old(offset) && old(offset) % 128 != 0
      requires |dst| <= 128 - old(offset) % 128 && View() == old(View())
      requires offset == old(offset) + |dst| && hiwater == Max(old(hiwater), offset) && atEof == old(atEof)
      requires sector == old(offset) / 128 && dirty == (old(dirty) && old(sector) == sector)
      requires old(Truthful(offset / 128)) ==> Labelled()
      requires Delivered(dst, View(), old(offset), |dst|) <==> old(HeadRight(|dst|))
      requires old(offset) < |View()| ==> offset <= |View()|
      ensures FetchedBinary(dst, |dst|)
    {
      hide View, Truthful, Served, HeadRight, Delivered;
      InsideEnds(old(offset), |dst|);
      ServedByHead(dst, View(), old(offset));
    }

    /** A read that goes on past the sector it started in. */
    twostate lemma FetchedByRest(dst: seq<byte>)
      requires old(Valid()) && Valid() && 0 <= old(offset) && old(offset) % 128 != 0
      requires 128 - old(offset) % 128 < |dst| && View() == old(View())
      requires old(offset) <= offset && hiwater == Max(old(hiwater), offset)
      requires old(Truthful(offset / 128)) ==> Labelled()
      requires Served(dst, View(), old(offset), offset - old(offset)) <==> old(HeadRight(|dst|))
      requires old(offset) <= |View()| ==>
        && offset <= |View()|
        && atEof == (old(atEof) || old(offset) + |dst| > |View()|)
        && dirty == (old(dirty) && old(sector) == old(offset) / 128 && !TailRead(old(offset), |dst|, |View()|))
        && (dirty ==> sector == old(offset) / 128)
      ensures FetchedBinary(dst, offset - old(offset))
    {
      hide View, Truthful, Served, HeadRight, TailRead;
      InsideEnds(old(offset), |dst|);
    }

    /** The rest of a read whose first `at` bytes came through the buffer. */
    method ReadPast(dst: array<byte>, at: nat, ghost off: nat) returns (r: int)
      requires Valid() && dst != buffer && 0 <= offset == off + at && at == 128 - off % 128 < dst.Length
      requires sector == off / 128 && (off <= |View()| ==> offset <= |View()|)
      modifies `dirty, `sector, `offset, `hiwater, `atEof, buffer, bdos, dst
      ensures Valid() && LabelKept() && bdos.currentUser == old(bdos.currentUser)
      ensures View() == old(View())
      ensures |View()| <= 128 * bdos.capacity ==> r != -1
      ensures r != -1 ==> at <= r <= dst.Length && offset == off + r && hiwater == Max(old(hiwater), offset)
      ensures r != -1 ==> (Served(dst[..], View(), off, r) <==> old(Delivered(dst[..], View(), off, at)))
      ensures r != -1 && off <= |View()| ==>
        && offset <= |View()| && atEof == (old(atEof) || off + dst.Length > |View()|)
        && dirty == (old(dirty) && !TailRead(off, dst.Length, |View()|)) && (dirty ==> sector == off / 128)
    {
      hide View, Truthful, Served, Delivered, TailRead, Unsaved;
      OtherIsSaved(offset / 128, (dst.Length - at) / 128);
      r := ReadRest(dst, at, off);
    }

    /** `_rdbin` from inside a sector. */
    method ReadInside(dst: array<byte>) returns (r: int)
      requires Valid() && dst != buffer && 0 <= offset && offset % 128 != 0
      modifies `dirty, `sector, `offset, `hiwater, `atEof, buffer, bdos, dst
      ensures Valid() && LabelKept() && bdos.currentUser == old(bdos.currentUser)
      ensures View() == old(View())
      ensures -1 <= r <= dst.Length
      ensures |View()| <= 128 * bdos.capacity ==>
        (r == -1 <==> old(Truthful(offset / 128)) && old(offset) >= |View()|)
      ensures r == -1 && |View()| <= 128 * bdos.capacity ==>
        offset == old(offset) && hiwater == old(hiwater) && atEof == old(atEof) && !dirty
      ensures r != -1 ==> FetchedBinary(dst[..], r)
    {
      hide View, Truthful, Served, HeadRight, Delivered, FetchedBinary, TailRead, Unsaved;
      ghost var off := offset;
      InsideEnds(off, dst.Length);
      r := ReadHead(dst);
      if r == -1 {
        return;
      }
      if r == dst.Length {
        if offset > hiwater {
          hiwater := offset;
        }
        FetchedByHead(dst[..]);
        return;
      }
      r := ReadPast(dst, r, off);
      if r != -1 {
        FetchedByRest(dst[..]);
      }
    }

    /** Reads as many bytes as `dst` takes from a binary file at the current offset. */
    method RdBin(dst: array<byte>) returns (r: int)
      requires Valid() && dst != buffer && 0 <= offset
      modifies `dirty, `sector, `offset, `hiwater, `atEof, buffer, bdos, dst
      ensures Valid() && LabelKept() && bdos.currentUser == old(bdos.currentUser)
      ensures View() == old(View())
      ensures -1 <= r <= dst.Length
      ensures |View()| <= 128 * bdos.capacity ==>
        (r == -1 <==> old(offset % 128 != 0 && Truthful(offset / 128)) && old(offset) >= |View()|)
      ensures r == -1 && |View()| <= 128 * bdos.capacity ==>
        offset == old(offset) && hiwater == old(hiwater) && atEof == old(atEof) && !dirty
      ensures r != -1 ==> FetchedBinary(dst[..], r)
      ensures r != -1 && old(Sound()) ==> (Sound() <==> old(offset) <= |View()|)
    {
      hide View, Truthful;
      if offset % 128 != 0 {
        r := ReadInside(dst);
      } else {
        r := ReadRest(dst, 0, offset);
      }
      if r != -1 && old(Sound()) {
        StaysSound();
      }
    }

    /** The first step of `_wrtasc` for a sector: the buffer is labelled with it,
        and is read only when the sector is below the high-water mark. */
    method LabelForAscii(xsector: nat, ghost t: seq<byte>) returns (ok: bool)
      requires Labelled() && 0 <= hiwater && 0 <= offset && xsector == offset / 128
      requires |t| == Max(hiwater, offset) && t <= View()
      requires offset <= hiwater || offset % 128 == 0
      modifies `dirty, `sector, buffer, bdos
      ensures Valid() && bdos.currentUser == old(bdos.currentUser)
      ensures |old(View())| <= 128 * bdos.capacity ==> ok
      ensures ok ==> sector == xsector
      ensures ok ==> Elsewhere(bdos.data, old(View()), xsector) && HoldsText(t, buffer[..], xsector)
    {
      hide View, Truthful, HoldsText, Elsewhere;
      ghost var v := View();
      if xsector != sector {
        ok := WriteBack();
        if !ok {
          return;
        }
        TextBelow(t, v, hiwater, offset);
        if SectorBase(offset) <= SectorBase(hiwater - 1) {
          var done := BlkRead(xsector, buffer, 0, 1);
          if done != 1 {
            return false;
          }
          SectorHoldsText(t, v, buffer[..], xsector);
        } else {
          NoTextToHold(t, buffer[..], xsector);
        }
        sector := xsector;
      } else {
        LabelHolds();
        SectorHoldsText(t, v, buffer[..], xsector);
      }
      ok := true;
    }

    lemma LabelHolds()
      requires Labelled() && 0 <= sector
      ensures Elsewhere(bdos.data, View(), sector)
      ensures forall j :: 0 <= j < 128 && 128 * sector + j < |View()| ==> buffer[..][j] == View()[128 * sector + j]
    {
      BufferIsRecord();
    }

    /** The inner loop of `_wrtasc`: fills the buffer from the offset on, putting a
        CR before an LF that has none, even when the LF has to wait. */
    method FillAscii(src: array<byte>, first: nat, prev: byte) returns (next: nat, cc: byte, ghost em: seq<byte>)
      requires buffer.Length == 128 && src != buffer && 0 <= offset && first < src.Length
      modifies `offset, buffer
      ensures first <= next <= src.Length && (next > first || (cc == CR && prev != CR))
      ensures offset == old(offset) + |em| && 0 < |em| <= 128 - old(offset) % 128
      ensures next == src.Length || offset % 128 == 0
      ensures buffer[..] == Patch(old(buffer[..]), old(offset) % 128, em)
      ensures Expand(prev, src[..][first..]) == em + Expand(cc, src[..][next..])
    {
      hide Expand, Patch;
      var p1 := offset % 128;
      ghost var data, p0, all := src[..], p1, Expand(prev, src[..][first..]);
      next, cc, em := first, prev, [];
      while p1 < 128 && next < src.Length
        invariant src[..] == data
        invariant p1 == p0 + |em| <= 128 && offset == old(offset) + |em|
        invariant first <= next <= src.Length
        invariant next > first || (|em| == 0 && cc == prev) || (cc == CR && prev != CR)
        invariant next == first && |em| > 0 ==> data[next] == LF
        invariant forall j :: 0 <= j < 128 ==>
          buffer[j] == if p0 <= j < p1 then em[j - p0] else old(buffer[j])
        invariant all == em + Expand(cc, data[next..])
        decreases 128 - p1
      {
        FillStep(all, em, cc, data, next);
        if src[next] == LF && cc != CR {
          cc := CR;
        } else {
          cc := src[next];
          next := next + 1;
        }
        buffer[p1] := cc;
        em := em + [cc];
        p1 := p1 + 1;
        offset := offset + 1;
      }
      IsPatch(buffer[..], old(buffer[..]), p0, em);
    }

    /** The end of one round of `_wrtasc`: a full buffer is written through and
        stays labelled, a partly filled one is marked dirty. */
    method SettleAscii(xsector: nat, full: bool) returns (ok: bool)
      requires Valid() && sector == xsector && 128 * xsector <= |bdos.data|
      modifies `dirty, bdos
      ensures Valid() && bdos.currentUser == old(bdos.currentUser)
      ensures 128 * (xsector + 1) <= 128 * bdos.capacity ==> ok
      ensures ok ==> Labelled() && View() == Patch(old(bdos.data), 128 * xsector, buffer[..])
    {
      ok := true;
      if full {
        ghost var disk, filled := bdos.data, buffer[..];
        assert buffer[0..128] == filled;
        var done := BlkWrite(xsector, buffer, 0, 1);
        if done != 1 {
          return false;
        }
        PatchOver(disk, 128 * xsector, filled, filled);
        assert buffer[..] == filled;
        assert Record(bdos.data, xsector) == filled;
      } else {
        dirty := true;
      }
    }

    /** One round of the outer loop of `_wrtasc`, within one sector; `t` is the text
        so far. Code -1 is an I/O error, 1 a sector that could not be written. */
    method PutAscii(src: array<byte>, first: nat, prev: byte, ghost data: seq<byte>, ghost t: seq<byte>)
      returns (code: int, next: nat, cc: byte, ghost em: seq<byte>)
      requires Labelled() && src != buffer && first < src.Length && data == src[..]
      requires 0 <= hiwater && 0 <= offset
      requires |t| == Max(hiwater, offset) && t <= View()
      requires offset <= hiwater || offset % 128 == 0
      modifies `dirty, `sector, `offset, buffer, bdos
      ensures Valid() && bdos.currentUser == old(bdos.currentUser)
      ensures code == 0 || code == -1 || code == 1
      ensures 0 <= offset
      ensures |old(View())| <= 128 * bdos.capacity && RoundUp(offset) <= 128 * bdos.capacity ==> code == 0
      ensures code != -1 ==>
        && first <= next <= src.Length && (next > first || (cc == CR && prev != CR))
        && 0 < |em| && offset == old(offset) + |em|
        && Expand(prev, data[first..]) == em + Expand(cc, data[next..])
      ensures code == -1 ==> offset == old(offset)
      ensures code == 0 ==>
        && Labelled() && (next == src.Length || offset % 128 == 0)
        && Patch(t, old(offset), em) <= View()
        && |View()| <= Max(|old(View())|, RoundUp(offset))
    {
      hide Expand, Patch, Truthful, HoldsText;
      ghost var v, off := View(), offset;
      next, cc, em := first, prev, [];
      var xsector := offset / 128;
      var ok := LabelForAscii(xsector, t);
      if !ok {
        return -1, next, cc, em;
      }
      ghost var before, disk := buffer[..], bdos.data;
      assert src[..] == data;
      next, cc, em := FillAscii(src, first, prev);
      assert src[..] == data;
      PutInSector(disk, v, t, off, before, em);
      ok := SettleAscii(xsector, offset % 128 == 0);
      code := if ok then 0 else 1;
    }

    /** What a successful `_wrtasc` of `data` does: below the high-water mark the
        file is the old text overlaid by the expanded data. */
    twostate predicate StoredText(data: seq<byte>)
      requires old(Coherent()) && 0 <= old(offset) <= old(hiwater)
      reads this, buffer, bdos
    {
      && Coherent()
      && offset == old(offset) + |Expand(0, data)|
      && hiwater == Max(old(hiwater), offset)
      && View()[..hiwater] == Patch(old(View()[..hiwater]), old(offset), Expand(0, data))
      && |View()| <= Max(|old(View())|, RoundUp(offset))
    }

    lemma RoomMeans(n: nat)
      requires Valid() && 0 <= offset
      ensures Room(n) ==> Fits(|View()|, offset + n, bdos.capacity)
    {
    }

    /** The text `t0` has had `em` put into it from `off` on, the first part of `all`;
        `rest` is still to come. The file was `size` bytes long. */
    ghost predicate Putting(t: seq<byte>, t0: seq<byte>, off: nat, em: seq<byte>, rest: seq<byte>, all: seq<byte>,
                            size: nat)
      reads `dirty, `sector, `offset, `hiwater, buffer, bdos`data
    {
      && Labelled() && 0 <= hiwater && off <= |t0| && Written(t, t0, off, em, rest, all)
      && offset == off + |em| && |t| == Max(hiwater, offset) && t <= View()
      && |View()| <= Max(size, RoundUp(offset))
    }

    /** The text `t0` has had `all` put into it at `off`, in a file that was `size` bytes long. */
    ghost predicate PutIn(t0: seq<byte>, off: nat, all: seq<byte>, size: nat)
      reads `dirty, `sector, `offset, buffer, bdos`data
    {
      && Labelled() && offset == off + |all| && off <= |t0|
      && Patch(t0, off, all) <= View() && |View()| <= Max(size, RoundUp(offset))
    }

    /** One round, and how far the whole text has come with it. */
    method PutMore(src: array<byte>, first: nat, prev: byte, ghost data: seq<byte>, ghost t: seq<byte>,
                   ghost t0: seq<byte>, ghost off: nat, ghost em: seq<byte>, ghost all: seq<byte>, ghost size: nat)
      returns (code: int, next: nat, cc: byte, ghost t1: seq<byte>, ghost em1: seq<byte>)
      requires src != buffer && first < src.Length && data == src[..] && (offset <= hiwater || offset % 128 == 0)
      requires Putting(t, t0, off, em, StillToPut(prev, data, first), all, size)
      modifies `dirty, `sector, `offset, buffer, bdos
      ensures Valid() && bdos.currentUser == old(bdos.currentUser)
      ensures src[..] == data
      ensures Fits(size, off + |all|, bdos.capacity) ==> code == 0
      ensures code == 0 || code == -1 || code == 1
      ensures code != -1 ==> first <= next <= src.Length && (next > first || (cc == CR && prev != CR))
      ensures code == 0 ==>
        && Putting(t1, t0, off, em1, StillToPut(cc, data, next), all, size)
        && (next == src.Length || offset % 128 == 0)
    {
      hide Expand, Patch, Truthful, View, RoundUp, Written;
      ghost var was, len, rest, part := offset, |View()|, StillToPut(prev, data, first), [];
      WrittenFits(t, t0, off, em, rest, all);
      code, next, cc, part := PutAscii(src, first, prev, data, t);
      t1, em1 := t, em;
      if code != -1 {
        WrittenMore(t, t0, off, em, part, rest, StillToPut(cc, data, next), all);
        Grows(hiwater, was, |part|, size, len, |View()|);
        t1, em1 := Patch(t, was, part), em + part;
        WrittenFits(t1, t0, off, em1, StillToPut(cc, data, next), all);
      }
    }

    /** The outer loop of `_wrtasc`; `t0` is the text below the high-water mark and
        `all` what is to be put into it. Fewer bytes than there are mean a failure. */
    method PutAll(src: array<byte>, ghost data: seq<byte>, ghost t0: seq<byte>, ghost all: seq<byte>) returns (r: int)
      requires Labelled() && src != buffer && data == src[..] && 0 <= offset <= hiwater
      requires |t0| == hiwater && t0 <= View() && all == Expand(0, data)
      modifies `dirty, `sector, `offset, buffer, bdos
      ensures Valid() && bdos.currentUser == old(bdos.currentUser)
      ensures -1 <= r <= src.Length
      ensures Fits(|old(View())|, old(offset) + |all|, bdos.capacity) ==> r == src.Length
      ensures r == src.Length ==> PutIn(t0, old(offset), all, |old(View())|)
    {
      assert Valid();
      hide *;
      ghost var off, size, t, em := offset, |View()|, t0, [];
      ghost var fits := Fits(size, off + |all|, bdos.capacity);
      var next, cc := 0, 0;
      PutStart(t0, data, all);
      while next < src.Length
        invariant next <= src.Length && src[..] == data
        invariant Valid() && bdos.currentUser == old(bdos.currentUser)
        invariant Putting(t, t0, off, em, StillToPut(cc, data, next), all, size)
        invariant next == src.Length || offset <= hiwater || offset % 128 == 0
        decreases src.Length - next, if cc == CR then 0 else 1
      {
        var xbytes := src.Length - next;
        var code;
        code, next, cc, t, em := PutMore(src, next, cc, data, t, t0, off, em, all, size);
        if code == -1 {
          assert !fits;
          return -1;
        }
        if code == 1 {
          assert !fits;
          return src.Length - xbytes;
        }
      }
      PutDone(t, t0, off, em, cc, data, all, size);
      r := src.Length;
    }

    lemma PutStart(t0: seq<byte>, data: seq<byte>, all: seq<byte>)
      requires Labelled() && 0 <= offset <= hiwater && |t0| == hiwater && t0 <= View() && all == Expand(0, data)
      ensures Valid() && Putting(t0, t0, offset, [], StillToPut(0, data, 0), all, |View()|)
    {
      hide Expand, View, RoundUp;
      WrittenNothing(t0, offset, 0, data);
    }

    lemma PutDone(t: seq<byte>, t0: seq<byte>, off: nat, em: seq<byte>, cc: byte, data: seq<byte>, all: seq<byte>,
                  size: nat)
      requires Putting(t, t0, off, em, StillToPut(cc, data, |data|), all, size)
      ensures PutIn(t0, off, all, size)
    {
      hide View, RoundUp;
      WrittenAll(t, t0, off, em, cc, data, all);
    }

    /** Writes `src` as text at the current offset. */
    method WrtAsc(src: array<byte>) returns (r: int)
      requires Coherent() && src != buffer && 0 <= offset <= hiwater
      modifies `dirty, `sector, `offset, `hiwater, buffer, bdos
      ensures Valid() && bdos.currentUser == old(bdos.currentUser)
      ensures -1 <= r <= src.Length
      ensures old(Room(|Expand(0, src[..])|)) ==> r == src.Length
      ensures r == src.Length ==> StoredText(src[..])
    {
      hide Expand, Patch, Truthful, View, RoundUp, Room;
      RoomMeans(|Expand(0, src[..])|);
      r := PutAll(src, src[..], View()[..hiwater], Expand(0, src[..]));
      if r == src.Length && offset > hiwater {
        hiwater := offset;
      }
    }

    /** The inner loop of `_rdasc`, over the buffered sector of file `v`. */
    method TakeAscii(dst: array<byte>, first: nat, ghost v: seq<byte>, ghost off: nat) returns (at: nat, stop: bool)
      requires buffer.Length == 128 && dst != buffer && 0 <= offset && first < dst.Length
      requires 128 * (offset / 128) + 128 <= |v| && buffer[..] == Record(v, offset / 128)
      requires Continues(v, off, dst.Length, dst[..first], offset)
      modifies `offset, dst
      ensures first <= at <= dst.Length && old(offset) <= offset <= |v|
      ensures Continues(v, off, dst.Length, dst[..at], offset)
      ensures stop ==> at < dst.Length && offset < |v| && v[offset] == EOFCHAR
      ensures !stop ==> old(offset) < offset && (at == dst.Length || offset % 128 == 0)
    {
      hide Continues;
      var p1 := offset % 128;
      ghost var k := offset / 128;
      at, stop := first, false;
      while p1 < 128 && at < dst.Length
        invariant offset == 128 * k + p1 && old(offset) <= offset && p1 <= 128
        invariant first <= at <= dst.Length && (at > first ==> offset > old(offset))
        invariant Continues(v, off, dst.Length, dst[..at], offset)
      {
        var c := buffer[p1];
        assert c == buffer[..][p1] == v[offset];
        if c == EOFCHAR {
          stop := true;
          return;
        }
        ContinuesStep(v, off, dst.Length, dst[..at], offset);
        if c == CR {
          p1, offset := p1 + 1, offset + 1;
        } else {
          ghost var got := dst[..at];
          dst[at] := c;
          assert dst[..at + 1] == got + [c];
          at, p1, offset := at + 1, p1 + 1, offset + 1;
        }
      }
    }

    /** The first step of `_rdasc` for a sector: buffers it. Code -1 is an I/O error,
        1 a sector the file does not have. */
    method LabelForReading(xsector: nat) returns (code: int)
      requires Labelled()
      modifies `dirty, `sector, buffer, bdos
      ensures Labelled() && bdos.currentUser == old(bdos.currentUser)
      ensures View() == old(View())
      ensures code == -1 || code == 0 || code == 1
      ensures |View()| <= 128 * bdos.capacity ==> code != -1
      ensures code == 0 ==> 128 * xsector + 128 <= |View()| && buffer[..] == Record(View(), xsector)
      ensures code == 1 ==> |View()| <= 128 * xsector
    {
      hide View, Truthful;
      if xsector != sector {
        code := Refill(xsector);
        if code != 0 {
          return;
        }
      }
      BufferIsRecord();
      code := 0;
    }

    /** What a successful `_rdasc` into `dst` does. The high-water mark is passed
        over when the file ends without a ^Z. */
    twostate predicate FetchedText(dst: seq<byte>, r: nat)
      requires Labelled() && 0 <= old(offset)
      reads this, buffer, bdos
    {
      var seen := Scan(View(), old(offset), |dst|);
      && r <= |dst| && dst[..r] == seen.got && r == |seen.got| && offset == seen.end
      && atEof == (old(atEof) || seen.atEnd)
      && hiwater == if seen.atEnd && seen.end >= |View()| then old(hiwater) else Max(old(hiwater), offset)
    }

    /** Reads as many characters as `dst` takes from a text file. */
    method RdAsc(dst: array<byte>) returns (r: int)
      requires Labelled() && dst != buffer && 0 <= offset
      modifies `dirty, `sector, `offset, `hiwater, `atEof, buffer, bdos, dst
      ensures Labelled() && bdos.currentUser == old(bdos.currentUser)
      ensures View() == old(View())
      ensures -1 <= r <= dst.Length
      ensures |View()| <= 128 * bdos.capacity ==> r != -1
      ensures r != -1 ==> FetchedText(dst[..], r)
    {
      hide View, Truthful, Continues, Scan;
      ghost var v, off, high, eof := View(), offset, hiwater, atEof;
      var at := 0;
      ContinuesAtStart(v, off, dst.Length);
      assert dst[..0] == [];
      while at < dst.Length
        invariant Labelled() && bdos.currentUser == old(bdos.currentUser) && View() == v
        invariant at <= dst.Length && 0 <= offset && hiwater == high && atEof == eof
        invariant Continues(v, off, dst.Length, dst[..at], offset)
        decreases |v| - offset
      {
        var code := LabelForReading(offset / 128);
        if code == -1 {
          return -1;
        }
        if code == 1 {
          atEof := true;
          ContinuesDone(v, off, dst.Length, dst[..at], offset);
          return at;
        }
        var stop;
        at, stop := TakeAscii(dst, at, v, off);
        if stop {
          atEof := true;
          if offset > hiwater {
            hiwater := offset;
          }
          ContinuesDone(v, off, dst.Length, dst[..at], offset);
          return at;
        }
      }
      ContinuesDone(v, off, dst.Length, dst[..at], offset);
      if offset > hiwater {
        hiwater := offset;
      }
      r := dst.Length;
    }

    /** The end of the file as the channel sees it: the high-water mark while the
        buffer is dirty, else what the disk says. */
    ghost function EndOfFile(): (end: int)
      requires Valid()
      reads `dirty, `sector, `hiwater, `isAscii, buffer, bdos`data
    {
      if dirty then hiwater else if isAscii then TextEnd(View()) else |View()|
    }

    /** The scan of `_filesz`: where the first ^Z of the buffer is, or 128. */
    method FindEof() returns (p1: nat)
      requires buffer.Length == 128
      ensures p1 == |Cut(buffer[..])|
    {
      p1 := 0;
      while p1 < 128 && buffer[p1] != EOFCHAR
        invariant p1 <= 128 && EOFCHAR !in buffer[..p1]
      {
        p1 := p1 + 1;
      }
      assert buffer[..][..p1] == buffer[..p1];
      CutAt(buffer[..], p1);
    }

    /** The text case of `_filesz`; `xsector` is the last sector. */
    method SeekTextEnd(xsector: int) returns (ok: bool)
      requires Labelled() && !dirty && 128 * (xsector + 1) == |View()|
      modifies `sector, `offset, buffer, bdos`currentUser
      ensures ok && Labelled() && View() == old(View()) && bdos.currentUser == old(bdos.currentUser)
      ensures offset == TextEnd(View())
    {
      hide Truthful, Patch;
      ghost var v := View();
      if xsector >= 0 {
        if xsector != sector {
          ok := ReadBuffer(xsector);
          if !ok {
            return;
          }
        }
        BufferIsRecord();
        LastRecord(v, xsector);
        var p1 := FindEof();
        offset := 128 * xsector + p1;
      } else {
        offset := 0;
      }
      ok := true;
    }

    /** Computes the size of the file and leaves the offset there. */
    method Filesz() returns (r: int)
      requires Valid() && (isAscii ==> Labelled())
      modifies `sector, `offset, `hiwater, `atEof, buffer, bdos`currentUser
      ensures Valid() && LabelKept() && View() == old(View()) && bdos.currentUser == old(bdos.currentUser)
      ensures old(Sound()) ==> Sound()
      ensures !isOpen ==> r == -1 && offset == old(offset) && hiwater == old(hiwater) && atEof == old(atEof)
      ensures isOpen ==> r == offset == hiwater == old(EndOfFile()) && atEof
      ensures isOpen && dirty ==> r == old(hiwater)
      ensures isOpen && !dirty && !isAscii ==> r == |View()|
      ensures isOpen && !dirty && isAscii ==>
        var v := View();
        && 0 <= r <= |v| && (r < |v| ==> v[r] == 26)
        && if v == [] then r == 0 else |v| - 128 <= r && 26 !in v[|v| - 128..r]
      ensures isOpen && !dirty ==> Sound()
      ensures dirty || !isAscii ==> sector == old(sector) && buffer[..] == old(buffer[..])
    {
      if !isOpen {
        return -1;
      }
      hide TextEnd, Truthful, Patch;
      if dirty {
        offset := hiwater;
      } else {
        var xuser := bdos.ChkUser(user);
        var records := bdos.FileSize();
        bdos.UnChkUser(user, xuser);
        var xsector: int := records - 1;
        if isAscii {
          var ok := SeekTextEnd(xsector);
          if !ok {
            return -1;
          }
        } else {
          offset := 128 * (xsector + 1);
        }
      }
      hiwater := offset;
      atEof := true;
      r := offset;
    }

    /** Moves the offset: from the start, from where it is, or from the end. */
    method Lseek(offs: int, sense: int) returns (r: int)
      requires Valid() && (isAscii ==> Labelled())
      modifies `sector, `offset, `hiwater, `atEof, buffer, bdos`currentUser
      ensures Valid() && LabelKept() && View() == old(View()) && bdos.currentUser == old(bdos.currentUser)
      ensures old(Sound()) ==> Sound()
      ensures dirty || !isAscii ==> sector == old(sector) && buffer[..] == old(buffer[..])
      ensures !isOpen || !(0 <= sense <= 2) ==>
        r == -1 && offset == old(offset) && hiwater == old(hiwater) && atEof == old(atEof)
      ensures isOpen && 0 <= sense <= 2 ==>
        var base := if sense == 0 then 0 else if sense == 1 then old(offset) else old(EndOfFile());
        && r == offset == (if base + offs < 0 then -1 else base + offs)
        && hiwater == (if sense == 2 then base else old(hiwater))
        && !atEof
        && (sense == 2 && !dirty ==> Sound())
      ensures isOpen && sense == 2 && dirty ==> hiwater == old(hiwater)
      ensures isOpen && sense == 2 && !dirty && !isAscii ==> hiwater == |View()|
      ensures isOpen && sense == 2 && !dirty && isAscii ==> IsTextEnd(View(), hiwater)
    {
      hide EndOfFile, Truthful, View;
      if !isOpen {
        return -1;
      }
      if sense == 0 {
        offset := offs;
      } else if sense == 1 {
        offset := offset + offs;
      } else if sense == 2 {
        hiwater := Filesz();
        offset := hiwater + offs;
      } else {
        return -1;
      }
      atEof := false;
      if offset < 0 {
        offset := -1;
      }
      r := offset;
    }

    /** The size of the file, and that in sectors; the offset stays. */
    method Fstat() returns (r: int, size: int, blocks: int)
      requires Valid() && (isAscii ==> Labelled())
      modifies `sector, `offset, `hiwater, `atEof, buffer, bdos`currentUser
      ensures Valid() && LabelKept() && View() == old(View()) && bdos.currentUser == old(bdos.currentUser)
      ensures old(Sound()) ==> Sound()
      ensures offset == old(offset)
      ensures dirty || !isAscii ==> sector == old(sector) && buffer[..] == old(buffer[..])
      ensures !isOpen ==> r == -1 && hiwater == old(hiwater) && atEof == old(atEof)
      ensures isOpen ==> r == 0 && atEof && size == hiwater == old(EndOfFile())
      ensures isOpen && 0 <= size ==> 128 * blocks == RoundUp(size)
      ensures isOpen && dirty ==> size == old(hiwater)
      ensures isOpen && !dirty && !isAscii ==> size == |View()|
      ensures isOpen && !dirty && isAscii ==> IsTextEnd(View(), size)
      ensures isOpen && !dirty ==> Sound()
    {
      hide EndOfFile, Truthful, View;
      size, blocks := 0, 0;
      if !isOpen {
        return -1, size, blocks;
      }
      var curpos := offset;
      size := Filesz();
      offset := curpos;
      blocks := (size + SECSIZ - 1) / SECSIZ;
      r := 0;
    }

    /** Nothing about the channel or its file is different. */
    twostate predicate Untouched()
      reads this, buffer, bdos
    {
      && isOpen == old(isOpen) && isRead == old(isRead) && isAscii == old(isAscii) && atEof == old(atEof)
      && dirty == old(dirty) && user == old(user) && offset == old(offset)
      && sector == old(sector) && hiwater == old(hiwater)
      && buffer[..] == old(buffer[..]) && bdos.data == old(bdos.data) && bdos.currentUser == old(bdos.currentUser)
    }

    ghost predicate ReadyToWrite(n: nat)
      reads `isAscii, `dirty, `sector, `offset, `hiwater, buffer, bdos
    {
      if isAscii then Coherent() && 0 <= offset <= hiwater else ReadyForBinary(n)
    }

    /** The `write` call on a file. */
    method Write(src: array<byte>) returns (r: int)
      requires src != buffer
      requires isOpen && !isRead && 0 < src.Length ==> ReadyToWrite(src.Length)
      modifies `dirty, `sector, `offset, `hiwater, buffer, bdos
      ensures old(Valid()) ==> Valid()
      ensures bdos.currentUser == old(bdos.currentUser)
      ensures !isOpen || isRead || src.Length == 0 ==>
        Untouched() && r == if isOpen && src.Length == 0 then 0 else -1
      ensures isOpen && !isRead && 0 < src.Length && isAscii ==>
        && (old(Room(|Expand(0, src[..])|)) ==> r == src.Length)
        && (r == src.Length ==> StoredText(src[..]))
      ensures isOpen && !isRead && 0 < src.Length && !isAscii ==>
        && Valid()
        && (old(Room(src.Length)) ==> r == src.Length)
        && (r == src.Length ==> StoredBinary(src[..]))
        && (r == src.Length ==>
              (Coherent() && View() == Store(old(View()), old(offset), src[..])
               <==> old(RestRight(src.Length)) && KeepsBuffer(old(Believed(offset / 128)), old(offset), src[..])))
    {
      if !isOpen {
        return -1;
      }
      if src.Length == 0 {
        return 0;
      }
      if isRead {
        return -1;
      }
      if isAscii {
        r := WrtAsc(src);
      } else {
        r := WrtBin(src);
      }
    }

    /** The `read` call on a file. */
    method Read(dst: array<byte>) returns (r: int)
      requires Valid() && dst != buffer
      requires isOpen && !atEof ==>
        0 <= offset && (isAscii ==> Labelled())
      modifies `dirty, `sector, `offset, `hiwater, `atEof, buffer, bdos, dst
      ensures Valid() && LabelKept() && bdos.currentUser == old(bdos.currentUser)
      ensures View() == old(View())
      ensures -1 <= r <= dst.Length
      ensures !isOpen || old(atEof) ==>
        Untouched() && dst[..] == old(dst[..]) && r == if isOpen then 0 else -1
      ensures isOpen && !old(atEof) && isAscii ==>
        && (|View()| <= 128 * bdos.capacity ==> r != -1)
        && (r != -1 ==> FetchedText(dst[..], r))
      ensures isOpen && !old(atEof) && !isAscii ==>
        && (|View()| <= 128 * bdos.capacity ==>
              (r == -1 <==> old(offset % 128 != 0 && Truthful(offset / 128)) && old(offset) >= |View()|))
        && (r == -1 && |View()| <= 128 * bdos.capacity ==>
              offset == old(offset) && hiwater == old(hiwater) && atEof == old(atEof) && !dirty)
        && (r != -1 ==> FetchedBinary(dst[..], r))
    {
      if !isOpen {
        return -1;
      }
      if atEof {
        return 0;
      }
      if isAscii {
        r := RdAsc(dst);
      } else {
        r := RdBin(dst);
      }
    }

    /** Where `close` puts the ^Z of a text file. */
    ghost function CloseAt(): (end: nat)
      requires Coherent() && 0 <= offset
      reads `dirty, `sector, `offset, `hiwater, `isAscii, buffer, bdos`data
    {
      if offset < hiwater then EndOfFile() else offset
    }

    /** Room on the disk for what is buffered and for the ^Z. */
    ghost predicate CloseRoom()
      requires Coherent() && 0 <= offset
      reads `dirty, `sector, `offset, `hiwater, `isAscii, buffer, bdos
    {
      Max(|View()|, RoundUp(CloseAt() + 1)) <= 128 * bdos.capacity
    }

    /** A ^Z is written where the text ends. */
    method WriteEof()
      requires isOpen && isAscii && !isRead && Coherent() && 0 <= offset == hiwater
      modifies `dirty, `sector, `offset, `hiwater, buffer, bdos
      ensures Valid() && bdos.currentUser == old(bdos.currentUser)
      ensures old(Room(1)) ==>
        && Coherent() && |View()| <= 128 * bdos.capacity
        && Marked(View(), old(View()), old(offset))
    {
      ghost var v, end := View(), offset;
      EofMark();
      hide Patch, View, Truthful, Expand;
      var eof := new byte[1][EOFCHAR];
      assert eof[..] == [EOFCHAR];
      var _ := Write(eof);
      PatchAtEnd(v[..end], [EOFCHAR]);
    }

    /** The text part of `close`: a ^Z goes where the text ends. */
    method PutEof()
      requires isOpen && isAscii && !isRead && Coherent() && 0 <= offset <= hiwater
      modifies `dirty, `sector, `offset, `hiwater, `atEof, buffer, bdos
      ensures Valid() && bdos.currentUser == old(bdos.currentUser)
      ensures old(CloseRoom()) ==>
        && Coherent() && |View()| <= 128 * bdos.capacity
        && Marked(View(), old(View()), old(CloseAt()))
    {
      ghost var v, end, room := View(), CloseAt(), CloseRoom();
      hide EndOfFile, Patch, View, Truthful;
      if offset < hiwater {
        var _ := Lseek(0, 2);
      }
      assert View() == v && offset == hiwater == end;
      assert room ==> Room(1);
      WriteEof();
    }

    lemma CleanView()
      requires Valid()
      ensures !dirty ==> View() == bdos.data
    {
    }

    /** The first half of `close`: text gets its ^Z, and a dirty buffer is written. */
    method FlushAll() returns (r: int)
      requires Valid()
      requires isAscii && !isRead ==> isOpen && Coherent() && 0 <= offset <= hiwater
      modifies `dirty, `sector, `offset, `hiwater, `atEof, buffer, bdos
      ensures Valid() && bdos.currentUser == old(bdos.currentUser) && (r == 0 || r == -1)
      ensures isRead || !isAscii ==>
        (|old(View())| <= 128 * bdos.capacity ==> r == 0) && (r == 0 ==> bdos.data == old(View()))
      ensures isAscii && !isRead && old(CloseRoom()) ==>
        r == 0 && |bdos.data| <= 128 * bdos.capacity && Marked(bdos.data, old(View()), old(CloseAt()))
    {
      hide View, EndOfFile, CloseRoom, CloseAt, Truthful, Marked;
      r := 0;
      if isAscii && !isRead {
        PutEof();
      }
      ghost var v := View();
      CleanView();
      if dirty {
        var ok := WriteBack();
        if !ok {
          r := -1;
        }
      }
      assert r == 0 ==> bdos.data == v;
    }

    /** Ends access to the file: text gets its ^Z, a dirty buffer is written, the
        directory entry is closed, which succeeds if `filed`, and the control block is
        cleared. */
    method Close(filed: bool) returns (r: int)
      requires Valid()
      requires isOpen && isAscii && !isRead ==> Coherent() && 0 <= offset <= hiwater
      modifies this, buffer, bdos
      ensures Valid() && bdos.currentUser == old(bdos.currentUser)
      ensures old(!isOpen) ==> r == -1 && Untouched()
      ensures old(isOpen) ==>
        && !isOpen && !isRead && !isAscii && !atEof && !dirty
        && user == 0 && offset == 0 && sector == -1 && hiwater == 0
        && (r == 0 || r == -1) && (r == 0 ==> filed)
      ensures old(isOpen) && (old(isRead) || !old(isAscii)) ==>
        && (|old(View())| <= 128 * bdos.capacity ==> bdos.data == old(View()) && (r == 0 <==> filed))
        && (r == 0 ==> bdos.data == old(View()))
      ensures old(isOpen && isAscii && !isRead && CloseRoom()) ==>
        && (r == 0 <==> filed) && |bdos.data| <= 128 * bdos.capacity
        && Marked(bdos.data, old(View()), old(CloseAt()))
    {
      hide View, EndOfFile, CloseRoom, CloseAt, Truthful, Marked;
      if !isOpen {
        return -1;
      }
      r := FlushAll();
      var xuser := bdos.ChkUser(user);
      if !filed {
        r := -1;
      }
      bdos.UnChkUser(user, xuser);
      isOpen, isRead, isAscii, atEof, dirty := false, false, false, false, false;
      user, offset, sector, hiwater := 0, 0, -1, 0;
    }

    /** The file part of `_creat`, on a channel just allocated; `made` is whether the
        system makes the file, once it has deleted an old one. */
    static method Creat(bdos: Bdos, user: nat, ascii: bool, made: bool) returns (ch: Ccb)
      modifies bdos
      ensures fresh(ch) && fresh(ch.buffer) && ch.bdos == bdos && bdos.currentUser == old(bdos.currentUser)
      ensures ch.Coherent() && ch.View() == [] && bdos.data == []
      ensures ch.isOpen == made && !ch.isRead && ch.isAscii == ascii && !ch.atEof && !ch.dirty && ch.user == user
      ensures ch.offset == 0 && ch.hiwater == 0 && ch.sector == -1
    {
      var xuser := bdos.ChkUser(user);
      bdos.DeleteAndCreate();
      bdos.UnChkUser(user, xuser);
      ch := new Ccb(bdos);
      ch.isAscii := ascii;
      ch.user := user;
      ch.isOpen := made;
    }

    /** The file part of `_open`, on a channel just allocated; `found` is whether the
        system finds the file. Seeking to the end and back finds the high-water mark. */
    static method Open(bdos: Bdos, user: nat, readOnly: bool, ascii: bool, found: bool) returns (ch: Ccb)
      requires bdos.Valid()
      modifies bdos`currentUser
      ensures fresh(ch) && fresh(ch.buffer) && ch.bdos == bdos && bdos.currentUser == old(bdos.currentUser)
      ensures ch.Coherent() && ch.View() == bdos.data
      ensures ch.isOpen == found && ch.isRead == readOnly && ch.isAscii == ascii && !ch.atEof && !ch.dirty
      ensures ch.user == user && ch.offset == 0
      ensures ch.hiwater == if !found then 0 else if ascii then TextEnd(bdos.data) else |bdos.data|
      ensures found && ascii ==> IsTextEnd(bdos.data, ch.hiwater)
      ensures !ascii ==> ch.sector == -1
    {
      hide TextEnd, IsTextEnd;
      ch := new Ccb(bdos);
      ch.isRead := readOnly;
      ch.isAscii := ascii;
      ch.user := user;
      var xuser := bdos.ChkUser(user);
      bdos.UnChkUser(user, xuser);
      if !found {
        return;
      }
      ch.isOpen := true;
      var _ := ch.Lseek(0, 2);
      var _ := ch.Lseek(0, 0);
    }
  }
}
