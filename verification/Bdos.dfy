/** The operating system underneath the library, as far as one open file can
    see it: the file's records, the room left for it, and the user number. */
module Disk {
  import opened Basics
  import opened Sectors

  class Bdos {
    var data: seq<byte>      // the file's records, end to end
    const capacity: nat      // how many records the file may occupy
    var currentUser: nat     // the current user number

    ghost predicate Valid()
      reads this`data
    {
      |data| % 128 == 0
    }

    constructor (capacity: nat, user: nat)
      ensures Valid() && data == [] && this.capacity == capacity && currentUser == user
    {
      data, this.capacity, currentUser := [], capacity, user;
    }

    /** Function 33, read random: a record that was never written is an error
        and leaves the transfer buffer alone. */
    method ReadRandom(record: nat, dma: array<byte>, at: nat) returns (code: int)
      requires Valid() && at + 128 <= dma.Length
      modifies dma
      ensures code == 0 <==> 128 * record + 128 <= |data|
      ensures forall i :: 0 <= i < dma.Length ==>
        dma[i] == if code == 0 && at <= i < at + 128 then data[128 * record + i - at] else old(dma[i])
    {
      code := 1;
      if 128 * record + 128 <= |data| {
        code := 0;
        forall i | at <= i < at + 128 {
          dma[i] := data[128 * record + i - at];
        }
      }
    }

    /** Function 34, write random: replaces a record or appends one; appending
        fails when the disk is full. */
    method WriteRandom(record: nat, dma: array<byte>, at: nat) returns (code: int)
      requires Valid() && at + 128 <= dma.Length && 128 * record <= |data|
      modifies this`data
      ensures Valid()
      ensures code == 0 <==> 128 * record < |data| || record < capacity
      ensures data == if code == 0 then Patch(old(data), 128 * record, dma[at..at + 128]) else old(data)
    {
      code := 2;
      if 128 * record < |data| || record < capacity {
        code := 0;
        data := Patch(data, 128 * record, dma[at..at + 128]);
      }
    }

    /** Function 35, compute file size, in records. */
    method FileSize() returns (records: int)
      requires Valid()
      ensures 128 * records == |data|
    {
      records := |data| / 128;
    }

    /** Functions 19 and 22 in a row, as `__open` uses them to create a file. */
    method DeleteAndCreate()
      modifies this`data
      ensures Valid() && data == []
    {
      data := [];
    }

    /** Function 32 on behalf of a channel: user number 0 stands for "whatever
        is current", every other number is stored one too high. */
    method ChkUser(newUser: nat) returns (previous: nat)
      modifies this`currentUser
      ensures newUser == 0 ==> currentUser == old(currentUser) && previous == 0
      ensures newUser != 0 ==> currentUser == newUser - 1 && previous == old(currentUser) + 1
    {
      if newUser == 0 {
        return 0;
      }
      previous := currentUser + 1;
      if newUser != previous {
        currentUser := newUser - 1;
      }
    }

    /** Undoes `ChkUser`, given what it answered: while the user number is still the one
        that call made current, the one before it comes back. */
    method UnChkUser(newUser: nat, previous: nat)
      requires newUser != 0 ==> previous != 0
      modifies this`currentUser
      ensures newUser != 0 && old(currentUser) == newUser - 1 ==> currentUser == previous - 1
      ensures currentUser == if newUser == 0 || newUser == previous then old(currentUser) else previous - 1
    {
      if newUser == 0 {
        return;
      }
      if newUser != previous {
        currentUser := previous - 1;
      }
    }
  }

  /** A caller's buffer with the given contents. */
  method BufferOf(data: seq<byte>) returns (a: array<byte>)
    ensures fresh(a) && a[..] == data
  {
    a := new byte[|data|];
    forall i | 0 <= i < |data| {
      a[i] := data[i];
    }
  }
}
