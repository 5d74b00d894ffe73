/** Which of the sixteen channels are taken, and whose user number is current. */
module ChannelTable {
  import opened Disk

  const MAXCCBS: nat := 16

  /** What a file name leads to: the terminal or the list device, a file that the
      directory operation finds or does not find under a user number, or nothing,
      because the name is not a legal one. */
  datatype Target = Device | File(user: nat, found: bool) | BadName

  /** A call; a channel that is closed belongs to some user. */
  datatype Call = Open(target: Target) | Creat(target: Target) | Unlink(target: Target) | Close(fd: nat, user: nat)

  /** Bit i of `chvec`: channel i is allocated. Flag i of `isOpen`: its control block
      says that it is open. */
  datatype State = State(chvec: seq<bool>, isOpen: seq<bool>)

  const FRESH: State := State(seq(MAXCCBS, _ => false), seq(MAXCCBS, _ => false))

  predicate Sane(s: State) {
    |s.chvec| == |s.isOpen| == MAXCCBS && forall i :: 0 <= i < MAXCCBS && s.isOpen[i] ==> s.chvec[i]
  }

  /** Opening or creating it works, given a channel. */
  predicate Reachable(t: Target) {
    t.Device? || (t.File? && t.found)
  }

  /** The first free channel, or as many as there are. */
  function FirstFree(bits: seq<bool>): (k: nat)
    ensures k <= |bits| && (k < |bits| ==> !bits[k]) && forall i :: 0 <= i < k ==> bits[i]
  {
    if bits == [] || !bits[0] then 0 else 1 + FirstFree(bits[1..])
  }

  predicate Full(s: State) {
    FirstFree(s.chvec) == |s.chvec|
  }

  /** The table after a call. A `creat` that fails for want of anything but a channel
      keeps the channel. */
  function After(s: State, c: Call): (r: State)
    requires Sane(s)
    ensures Sane(r)
  {
    var k := FirstFree(s.chvec);
    match c
    case Open(target) =>
      if Full(s) || !Reachable(target) then s else State(s.chvec[k := true], s.isOpen[k := true])
    case Creat(target) =>
      if Full(s) then s else State(s.chvec[k := true], s.isOpen[k := Reachable(target)])
    case Unlink(_) => s
    case Close(fd, _) =>
      if fd < MAXCCBS && s.isOpen[fd] then State(s.chvec[fd := false], s.isOpen[fd := false]) else s
  }

  /** What the call answers. */
  function Result(s: State, c: Call): int
    requires Sane(s)
  {
    match c
    case Open(target) => if Full(s) || !Reachable(target) then -1 else FirstFree(s.chvec)
    case Creat(target) => if Full(s) || !Reachable(target) then -1 else FirstFree(s.chvec)
    case Unlink(target) => if !Full(s) && target.File? && target.found then 0 else -1
    case Close(fd, _) => if fd < MAXCCBS && s.isOpen[fd] then 0 else -1
  }

  function AfterAll(s: State, calls: seq<Call>): (r: State)
    requires Sane(s)
    ensures Sane(r)
    decreases |calls|
  {
    if calls == [] then s else AfterAll(After(s, calls[0]), calls[1..])
  }

  function Results(s: State, calls: seq<Call>): (r: seq<int>)
    requires Sane(s)
    ensures |r| == |calls|
    decreases |calls|
  {
    if calls == [] then [] else [Result(s, calls[0])] + Results(After(s, calls[0]), calls[1..])
  }

  /** A call that loses a channel: nobody can use it or give it back. */
  predicate Loses(s: State, c: Call) {
    c.Creat? && !Reachable(c.target) && !Full(s)
  }

  /** How many calls of a run lose one. */
  function Losses(s: State, calls: seq<Call>): nat
    requires Sane(s)
    decreases |calls|
  {
    if calls == [] then 0
    else (if Loses(s, calls[0]) then 1 else 0) + Losses(After(s, calls[0]), calls[1..])
  }

  function Count(bits: seq<bool>): nat {
    if bits == [] then 0 else (if bits[0] then 1 else 0) + Count(bits[1..])
  }

  /** Channels allocated and not open. */
  function Leaked(s: State): int {
    Count(s.chvec) - Count(s.isOpen)
  }

  lemma {:induction false} CountUpdate(bits: seq<bool>, i: nat, b: bool)
    requires i < |bits|
    ensures Count(bits[i := b]) == Count(bits) - (if bits[i] then 1 else 0) + (if b then 1 else 0)
    decreases |bits|
  {
    if i == 0 {
      assert bits[0 := b][1..] == bits[1..];
    } else {
      assert bits[i := b][1..] == bits[1..][i - 1 := b];
      CountUpdate(bits[1..], i - 1, b);
    }
  }

  lemma LeakedNext(s: State, c: Call)
    requires Sane(s)
    ensures Leaked(After(s, c)) == Leaked(s) + if Loses(s, c) then 1 else 0
  {
    hide Count;
    var k := if c.Close? then c.fd else FirstFree(s.chvec);
    if k < MAXCCBS {
      CountUpdate(s.chvec, k, !c.Close?);
      CountUpdate(s.isOpen, k, !c.Close? && Reachable(c.target));
    }
  }

  /** Over any run the channels lost are exactly those `creat` calls. */
  lemma {:induction false} LostByCreat(s: State, calls: seq<Call>)
    requires Sane(s)
    ensures Leaked(AfterAll(s, calls)) == Leaked(s) + Losses(s, calls)
    decreases |calls|
  {
    if calls == [] {
    } else {
      hide Leaked, Loses, After;
      LeakedNext(s, calls[0]);
      LostByCreat(After(s, calls[0]), calls[1..]);
    }
  }

  function Taken(n: nat): (bits: seq<bool>)
    requires n <= MAXCCBS
    ensures |bits| == MAXCCBS
  {
    seq(MAXCCBS, i => i < n)
  }

  lemma {:induction false} FirstFreeIs(bits: seq<bool>, k: nat)
    requires k <= |bits| && (k < |bits| ==> !bits[k]) && forall i :: 0 <= i < k ==> bits[i]
    ensures FirstFree(bits) == k
  {
    assert FirstFree(bits) <= k && k <= FirstFree(bits);
  }

  function BadCreats(n: nat): (calls: seq<Call>)
    ensures |calls| == n
  {
    if n == 0 then [] else [Creat(BadName)] + BadCreats(n - 1)
  }

  lemma OneBadCreat(m: nat)
    requires m < MAXCCBS
    ensures var s := State(Taken(m), Taken(0));
      && Sane(s) && After(s, Creat(BadName)) == State(Taken(m + 1), Taken(0)) && Loses(s, Creat(BadName))
  {
    FirstFreeIs(Taken(m), m);
    assert Taken(m)[m := true] == Taken(m + 1) && Taken(0)[m := false] == Taken(0);
    hide FirstFree, Taken;
  }

  lemma SaneTaken(m: nat)
    requires m <= MAXCCBS
    ensures Sane(State(Taken(m), Taken(0)))
  {
  }

  /** Creating a bad name over and over takes one channel after the other. */
  lemma {:induction false} ChannelsRunOut(m: nat, n: nat)
    requires m + n <= MAXCCBS
    ensures var s := State(Taken(m), Taken(0));
      && Sane(s) && AfterAll(s, BadCreats(n)) == State(Taken(m + n), Taken(0)) && Losses(s, BadCreats(n)) == n
    decreases n
  {
    hide After, Loses, Taken, Sane;
    SaneTaken(m);
    if n == 0 {
    } else {
      OneBadCreat(m);
      assert BadCreats(n)[0] == Creat(BadName) && BadCreats(n)[1..] == BadCreats(n - 1);
      ChannelsRunOut(m + 1, n - 1);
    }
  }

  /** One such call on a fresh table loses a channel; after sixteen of them nothing can be
      opened any more. */
  lemma NothingOpens(t: Target)
    ensures Sane(FRESH) && Losses(FRESH, BadCreats(1)) == 1
    ensures Losses(FRESH, BadCreats(MAXCCBS)) == MAXCCBS
    ensures Result(AfterAll(FRESH, BadCreats(MAXCCBS)), Open(t)) == -1
  {
    assert FRESH == State(Taken(0), Taken(0));
    ChannelsRunOut(0, 1);
    ChannelsRunOut(0, MAXCCBS);
    FirstFreeIs(Taken(MAXCCBS), MAXCCBS);
  }

  /** Opening `target` and closing the channel `k`, `n` times over. */
  function Pairs(target: Target, k: nat, user: nat, n: nat): (calls: seq<Call>)
    ensures |calls| == 2 * n
  {
    if n == 0 then [] else [Open(target), Close(k, user)] + Pairs(target, k, user, n - 1)
  }

  /** Opening and closing what was opened gives the table back, any number of times, and
      the channel is the same every time. */
  lemma {:induction false} PairsGiveBack(s: State, target: Target, k: nat, user: nat, n: nat)
    requires Sane(s) && Reachable(target)
    requires k < 16 && !s.chvec[k] && forall j :: 0 <= j < k ==> s.chvec[j]
    ensures AfterAll(s, Pairs(target, k, user, n)) == s
    ensures forall i :: 0 <= i < 2 * n ==> Results(s, Pairs(target, k, user, n))[i] == if i % 2 == 0 then k else 0
    decreases n
  {
    if n == 0 {
    } else {
      var calls := Pairs(target, k, user, n);
      PairGivesBack(s, target, k, user);
      PairsGiveBack(s, target, k, user, n - 1);
      hide After, Result, Sane;
      var t := After(s, Open(target));
      assert calls[0] == Open(target) && calls[1..][0] == Close(k, user);
      assert calls[1..][1..] == Pairs(target, k, user, n - 1);
      assert Results(s, calls) == [k as int] + Results(t, calls[1..]);
      assert Results(t, calls[1..]) == [0] + Results(s, calls[1..][1..]);
    }
  }

  lemma PairGivesBack(s: State, target: Target, k: nat, user: nat)
    requires Sane(s) && Reachable(target)
    requires k < 16 && !s.chvec[k] && forall j :: 0 <= j < k ==> s.chvec[j]
    ensures var t := After(s, Open(target));
      && Result(s, Open(target)) == k && Result(t, Close(k, user)) == 0 && After(t, Close(k, user)) == s
  {
    FirstFreeIs(s.chvec, k);
    assert s.chvec[k := true][k := false] == s.chvec && s.isOpen[k := true][k := false] == s.isOpen;
  }

  class Table {
    const bdos: Bdos
    var chvec: seq<bool>
    var isOpen: seq<bool>

    ghost function Now(): State
      reads this
    {
      State(chvec, isOpen)
    }

    ghost predicate Valid()
      reads this
    {
      Sane(Now())
    }

    constructor (bdos: Bdos)
      ensures Valid() && Now() == FRESH && this.bdos == bdos
    {
      this.bdos := bdos;
      chvec := seq(MAXCCBS, _ => false);
      isOpen := seq(MAXCCBS, _ => false);
    }

    /** Takes the first free channel. */
    method Allocc() returns (ch: int)
      requires Valid()
      modifies `chvec
      ensures ch == if old(Full(Now())) then -1 else old(FirstFree(chvec))
      ensures chvec == if ch == -1 then old(chvec) else old(chvec)[ch := true]
      ensures ch == -1 || (0 <= ch < 16 && !old(chvec[ch]) && forall j :: 0 <= j < ch ==> old(chvec[j]))
      ensures ch == -1 <==> forall j :: 0 <= j < 16 ==> old(chvec[j])
    {
      for i := 0 to MAXCCBS
        invariant chvec == old(chvec) && forall j :: 0 <= j < i ==> chvec[j]
      {
        if !chvec[i] {
          FirstFreeIs(chvec, i);
          chvec := chvec[i := true];
          return i;
        }
      }
      FirstFreeIs(chvec, MAXCCBS);
      ch := -1;
    }

    method Freec(ch: nat)
      requires ch < |chvec|
      modifies `chvec
      ensures chvec == old(chvec)[ch := false]
    {
      chvec := chvec[ch := false];
    }

    /** Clears a control block. */
    method Chinit(ch: nat)
      requires ch < |isOpen|
      modifies `isOpen
      ensures isOpen == old(isOpen)[ch := false]
    {
      isOpen := isOpen[ch := false];
    }

    /** The directory operation of `__open`, under the file's user number. */
    method DirectoryCall(target: Target) returns (ok: bool)
      modifies bdos`currentUser
      ensures ok <==> target.File? && target.found
      ensures bdos.currentUser == old(bdos.currentUser)
    {
      if !target.File? {
        return false;
      }
      var xuser := bdos.ChkUser(target.user);
      ok := target.found;
      bdos.UnChkUser(target.user, xuser);
    }

    method Open(target: Target) returns (ch: int)
      requires Valid()
      modifies this, bdos`currentUser
      ensures Now() == After(old(Now()), Call.Open(target)) && ch == Result(old(Now()), Call.Open(target))
      ensures ch == -1 || (0 <= ch < 16 && !old(chvec[ch]) && forall j :: 0 <= j < ch ==> old(chvec[j]))
      ensures ch == -1 <==>
        (forall j :: 0 <= j < 16 ==> old(chvec[j])) || !(target.Device? || (target.File? && target.found))
      ensures chvec == (if ch == -1 then old(chvec) else old(chvec)[ch := true])
      ensures isOpen == (if ch == -1 then old(isOpen) else old(isOpen)[ch := true])
      ensures bdos.currentUser == old(bdos.currentUser)
    {
      ch := Allocc();
      if ch == -1 {
        return;
      }
      Chinit(ch);
      if !target.Device? {
        var ok := DirectoryCall(target);
        if !ok {
          Freec(ch);
          assert isOpen == old(isOpen) && chvec == old(chvec);
          return -1;
        }
      }
      isOpen := isOpen[ch := true];
      assert isOpen == old(isOpen)[ch := true];
    }

    /** Creating differs in one thing: a failure keeps the channel. */
    method Creat(target: Target) returns (ch: int)
      requires Valid()
      modifies this, bdos`currentUser
      ensures Now() == After(old(Now()), Call.Creat(target)) && ch == Result(old(Now()), Call.Creat(target))
      ensures ch == -1 || (0 <= ch < 16 && !old(chvec[ch]) && forall j :: 0 <= j < ch ==> old(chvec[j]))
      ensures ch == -1 <==>
        (forall j :: 0 <= j < 16 ==> old(chvec[j])) || !(target.Device? || (target.File? && target.found))
      ensures ch != -1 ==> chvec == old(chvec)[ch := true] && isOpen == old(isOpen)[ch := true]
      ensures ch == -1 ==> isOpen == old(isOpen) && forall k :: 0 <= k < 16 ==>
        (chvec[k] <==> old(chvec[k]) || forall j :: 0 <= j < k ==> old(chvec[j]))
      ensures bdos.currentUser == old(bdos.currentUser)
    {
      ch := Allocc();
      if ch == -1 {
        return;
      }
      Chinit(ch);
      if !target.Device? {
        var ok := DirectoryCall(target);
        if !ok {
          return -1;
        }
      }
      isOpen := isOpen[ch := true];
      assert isOpen == old(isOpen)[ch := true];
    }

    method Unlink(target: Target) returns (r: int)
      requires Valid()
      modifies this, bdos`currentUser
      ensures Now() == After(old(Now()), Call.Unlink(target)) && r == Result(old(Now()), Call.Unlink(target))
      ensures r == 0 <==> (exists j :: 0 <= j < 16 && !old(chvec[j])) && target.File? && target.found
      ensures r == 0 || r == -1
      ensures chvec == old(chvec) && isOpen == old(isOpen)
      ensures bdos.currentUser == old(bdos.currentUser)
    {
      var ch := Allocc();
      if ch == -1 {
        return -1;
      }
      Chinit(ch);
      var ok := DirectoryCall(target);
      r := if ok then 0 else -1;
      Freec(ch);
      assert isOpen == old(isOpen) && chvec == old(chvec);
    }

    method Close(fd: nat, user: nat) returns (r: int)
      requires Valid()
      modifies this, bdos`currentUser
      ensures Now() == After(old(Now()), Call.Close(fd, user)) && r == Result(old(Now()), Call.Close(fd, user))
      ensures fd < 16 && old(isOpen[fd]) ==>
        && r == 0 && |chvec| == |isOpen| == 16 && !chvec[fd] && !isOpen[fd]
        && forall j :: 0 <= j < 16 && j != fd ==> chvec[j] == old(chvec[j]) && isOpen[j] == old(isOpen[j])
      ensures !(fd < 16 && old(isOpen[fd])) ==> r == -1 && chvec == old(chvec) && isOpen == old(isOpen)
      ensures bdos.currentUser == old(bdos.currentUser)
    {
      if fd >= MAXCCBS || !isOpen[fd] {
        return -1;
      }
      var xuser := bdos.ChkUser(user);
      bdos.UnChkUser(user, xuser);
      Chinit(fd);
      Freec(fd);
      r := 0;
    }
  }

  /** Any run of calls answers and leaves what the table's functions say: every open
      channel stays allocated, the user number is as it was, and the channels lost are
      the failed `creat` calls made while one was free. */
  method Run(t: Table, calls: seq<Call>) returns (results: seq<int>)
    requires t.Valid()
    modifies t, t.bdos`currentUser
    ensures t.Valid() && t.bdos.currentUser == old(t.bdos.currentUser)
    ensures t.Now() == AfterAll(old(t.Now()), calls) && results == Results(old(t.Now()), calls)
    ensures Leaked(t.Now()) == Leaked(old(t.Now())) + Losses(old(t.Now()), calls)
  {
    hide After, Result, Sane, Leaked, Losses;
    ghost var start := t.Now();
    results := [];
    assert calls[0..] == calls;
    for i := 0 to |calls|
      invariant t.Valid() && t.bdos.currentUser == old(t.bdos.currentUser)
      invariant AfterAll(start, calls) == AfterAll(t.Now(), calls[i..])
      invariant Results(start, calls) == results + Results(t.Now(), calls[i..])
    {
      assert calls[i..][1..] == calls[i + 1..];
      ghost var now := t.Now();
      var r;
      match calls[i] {
        case Open(target) => r := t.Open(target);
        case Creat(target) => r := t.Creat(target);
        case Unlink(target) => r := t.Unlink(target);
        case Close(fd, user) => r := t.Close(fd, user);
      }
      assert t.Now() == After(now, calls[i]) && r == Result(now, calls[i]);
      results := results + [r];
    }
    LostByCreat(start, calls);
  }
}
