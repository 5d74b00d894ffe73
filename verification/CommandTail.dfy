/** The command tail of a program, cut into arguments in place. */
module CommandTail {
  import opened Basics
  import opened Sectors

  const SPACE: byte := 32
  const LIMIT: nat := 0x7e

  predicate IsSpace(c: byte) {
    c == SPACE || 9 <= c <= 13
  }

  predicate IsQuote(c: byte) {
    c == 34 || c == 39
  }

  /** How many bytes come before the first one that ends a bare word. */
  function WordLength(s: seq<byte>): (n: nat)
    ensures n <= |s| && (n < |s| ==> IsSpace(s[n]) || s[n] == 0)
    ensures forall i :: 0 <= i < n ==> !IsSpace(s[i]) && s[i] != 0
  {
    if s == [] || IsSpace(s[0]) || s[0] == 0 then 0 else 1 + WordLength(s[1..])
  }

  /** How many bytes come before the first quote `q` or NUL. */
  function QuotedLength(s: seq<byte>, q: byte): (n: nat)
    ensures n <= |s| && (n < |s| ==> s[n] == q || s[n] == 0)
    ensures forall i :: 0 <= i < n ==> s[i] != q && s[i] != 0
  {
    if s == [] || s[0] == q || s[0] == 0 then 0 else 1 + QuotedLength(s[1..], q)
  }

  /** The arguments that a tail holds. */
  function Tokens(s: seq<byte>): Outcome<seq<seq<byte>>>
    decreases |s|
  {
    if s == [] || s[0] == 0 then Ok([])
    else if IsSpace(s[0]) then Tokens(s[1..])
    else if IsQuote(s[0]) then
      var n := QuotedLength(s[1..], s[0]);
      if 1 + n == |s| || s[1 + n] == 0 then Error("unterminated quote")
      else Prepend(s[1..1 + n], Tokens(s[n + 2..]))
    else
      var n := 1 + WordLength(s[1..]);
      Prepend(s[..n], Tokens(s[n..]))
  }

  function Prepend(t: seq<byte>, rest: Outcome<seq<seq<byte>>>): Outcome<seq<seq<byte>>> {
    if rest.Error? then rest else Ok([t] + rest.value)
  }

  /** The C string at `p` is `t`. */
  predicate StringAt(a: seq<byte>, p: nat, t: seq<byte>) {
    p + |t| < |a| && a[p..p + |t|] == t && a[p + |t|] == 0 && 0 !in t
  }

  /** An entry of the argument vector: the fixed program name, or a place in the tail. */
  datatype Entry = Program | InTail(at: nat)

  /** The vector for arguments that start at `places`. */
  function Vector(places: seq<nat>): seq<Entry> {
    [Program] + seq(|places|, i requires 0 <= i < |places| => InTail(places[i]))
  }

  lemma VectorNext(places: seq<nat>, p: nat)
    ensures Vector(places) + [InTail(p)] == Vector(places + [p])
    ensures Vector([]) == [Program]
  {
  }

  /** The C string that an entry points at. */
  predicate EntryIs(a: seq<byte>, e: Entry, t: seq<byte>, limit: nat) {
    e.InTail? && StringAt(a, e.at, t) && e.at + |t| <= limit
  }

  /** What the program gets: the program name, then the arguments, all before `limit`. */
  predicate Arguments(a: seq<byte>, argv: seq<Entry>, args: seq<seq<byte>>, limit: nat) {
    && |argv| == 1 + |args| && argv[0] == Program
    && forall i :: 0 <= i < |args| ==> EntryIs(a, argv[i + 1], args[i], limit)
  }

  lemma VectorIs(a: seq<byte>, places: seq<nat>, args: seq<seq<byte>>, limit: nat)
    requires Argv(a, places, args, limit)
    ensures Arguments(a, Vector(places), args, limit)
  {
  }

  /** `argv[i]` points at the i-th argument, and all of them lie before `limit`. */
  predicate Argv(a: seq<byte>, argv: seq<nat>, args: seq<seq<byte>>, limit: nat) {
    |argv| == |args| &&
    forall i :: 0 <= i < |argv| ==> StringAt(a, argv[i], args[i]) && argv[i] + |args[i]| <= limit
  }

  method FindQuote(tail: array<byte>, first: nat, q: byte, ghost lim: nat) returns (ep: nat, found: bool)
    requires first <= lim < tail.Length && tail[lim] == 0 && q != 0
    ensures first <= ep <= lim && ep == first + QuotedLength(tail[first..lim], q)
    ensures found <==> ep < lim && tail[ep] == q
    ensures !found ==> tail[ep] == 0
  {
    ep := first;
    while tail[ep] != q && tail[ep] != 0
      invariant first <= ep <= lim
      invariant QuotedLength(tail[first..lim], q) == ep - first + QuotedLength(tail[ep..lim], q)
      decreases lim - ep
    {
      assert tail[ep..lim][1..] == tail[ep + 1..lim];
      ep := ep + 1;
    }
    found := tail[ep] == q;
  }

  method FindWordEnd(tail: array<byte>, first: nat, ghost lim: nat) returns (ep: nat)
    requires first <= lim < tail.Length && tail[lim] == 0
    ensures first <= ep <= lim && ep == first + WordLength(tail[first..lim])
  {
    ep := first;
    while !IsSpace(tail[ep]) && tail[ep] != 0
      invariant first <= ep <= lim
      invariant WordLength(tail[first..lim]) == ep - first + WordLength(tail[ep..lim])
      decreases lim - ep
    {
      assert tail[ep..lim][1..] == tail[ep + 1..lim];
      ep := ep + 1;
    }
  }

  /** What the loop has done up to `cp`: the arguments found, and what is left of
      the tail is as it was. */
  ghost predicate Parsed(a: seq<byte>, s: seq<byte>, cp: nat, lim: nat, argv: seq<nat>, args: seq<seq<byte>>) {
    && 1 <= cp <= lim < |a| && lim == 1 + |s| && a[lim] == 0
    && a[cp..lim] == s[cp - 1..]
    && Argv(a, argv, args, cp)
    && match Tokens(s)
       case Ok(all) => Tokens(s[cp - 1..]).Ok? && all == args + Tokens(s[cp - 1..]).value
       case Error(_) => Tokens(s[cp - 1..]).Error?
  }

  lemma SkipSpace(a: seq<byte>, s: seq<byte>, cp: nat, lim: nat, argv: seq<nat>, args: seq<seq<byte>>)
    requires Parsed(a, s, cp, lim, argv, args) && a[cp] != 0 && IsSpace(a[cp])
    ensures Parsed(a, s, cp + 1, lim, argv, args)
  {
    assert a[cp] == a[cp..lim][0] == s[cp - 1];
    assert s[cp - 1..][1..] == s[cp..];
    assert a[cp..lim][1..] == a[cp + 1..lim];
  }

  /** An argument found from `from` to `ep`, its end marked, and the scan going on at
      `next`. */
  lemma TakeArg(a: seq<byte>, b: seq<byte>, s: seq<byte>, cp: nat, lim: nat, argv: seq<nat>, args: seq<seq<byte>>,
                from: nat, ep: nat, next: nat)
    requires Parsed(a, s, cp, lim, argv, args)
    requires cp <= from <= ep <= next <= ep + 1 && next <= lim && cp < next
    requires b == a[ep := 0] && 0 !in a[from..ep]
    requires next == ep ==> a[ep] == 0
    requires Tokens(s[cp - 1..]) == Prepend(a[from..ep], Tokens(s[next - 1..]))
    ensures Parsed(b, s, next, lim, argv + [from], args + [a[from..ep]])
  {
    hide Tokens;
    assert b[next..lim] == a[next..lim] == a[cp..lim][next - cp..] == s[next - 1..] by {
      assert s[cp - 1..][next - cp..] == s[next - 1..];
    }
    assert b[from..ep] == a[from..ep];
    forall i | 0 <= i < |argv| ensures StringAt(b, argv[i], args[i]) {
      assert b[argv[i]..argv[i] + |args[i]|] == a[argv[i]..argv[i] + |args[i]|];
    }
    var rest := Tokens(s[next - 1..]);
    if rest.Ok? {
      assert args + ([a[from..ep]] + rest.value) == (args + [a[from..ep]]) + rest.value;
    }
  }

  lemma QuotedToken(a: seq<byte>, s: seq<byte>, cp: nat, lim: nat, argv: seq<nat>, args: seq<seq<byte>>, ep: nat)
    requires Parsed(a, s, cp, lim, argv, args) && a[cp] != 0 && IsQuote(a[cp]) && cp < lim
    requires ep == cp + 1 + QuotedLength(a[cp + 1..lim], a[cp])
    ensures ep <= lim
    ensures ep < lim && a[ep] == a[cp] ==>
      0 !in a[cp + 1..ep] && Tokens(s[cp - 1..]) == Prepend(a[cp + 1..ep], Tokens(s[ep..]))
    ensures !(ep < lim && a[ep] == a[cp]) ==> Tokens(s[cp - 1..]).Error?
  {
    var t, n := s[cp - 1..], ep - cp - 1;
    Rest(a, s, cp, lim, n);
    QuotedHead(t, n);
    hide *;
    if n + 1 < |t| {
      assert t[n + 1] == a[ep] && t[1..1 + n] == a[cp + 1..ep] && t[n + 2..] == s[ep..];
    }
  }

  /** Reading on in the tail is reading on in what is left of the text. */
  lemma Rest(a: seq<byte>, s: seq<byte>, cp: nat, lim: nat, n: nat)
    requires 1 <= cp < lim < |a| && lim == 1 + |s| && a[cp..lim] == s[cp - 1..]
    ensures var t := s[cp - 1..];
      && |t| == lim - cp && t[0] == a[cp] && t[1..] == a[cp + 1..lim]
      && (n + 1 < |t| ==>
            t[n + 1] == a[cp + n + 1] && t[1..1 + n] == a[cp + 1..cp + 1 + n] && t[n + 2..] == s[cp + 1 + n..])
  {
    SliceSlice(a, cp, lim, 1, lim - cp);
    if n + 1 < lim - cp {
      SliceSlice(a, cp, lim, 1, 1 + n);
      SliceSlice(s, cp - 1, |s|, n + 2, lim - cp);
      assert a[cp..lim][n + 1] == a[cp + n + 1];
    }
  }

  lemma QuotedHead(t: seq<byte>, n: nat)
    requires t != [] && t[0] != 0 && IsQuote(t[0]) && n == QuotedLength(t[1..], t[0])
    ensures 1 + n <= |t| && 0 !in t[1..1 + n]
    ensures 1 + n == |t| || t[1 + n] == 0 ==> Tokens(t).Error?
    ensures 1 + n < |t| && t[1 + n] != 0 ==>
      t[1 + n] == t[0] && Tokens(t) == Prepend(t[1..1 + n], Tokens(t[n + 2..]))
  {
  }

  lemma WordToken(a: seq<byte>, s: seq<byte>, cp: nat, lim: nat, argv: seq<nat>, args: seq<seq<byte>>, ep: nat)
    requires Parsed(a, s, cp, lim, argv, args) && a[cp] != 0 && !IsSpace(a[cp]) && !IsQuote(a[cp]) && cp < lim
    requires ep == cp + 1 + WordLength(a[cp + 1..lim])
    ensures ep <= lim && 0 !in a[cp..ep]
    ensures Tokens(s[cp - 1..]) == Prepend(a[cp..ep], Tokens(s[ep - 1..]))
    ensures ep < lim && a[ep] != 0 ==> Tokens(s[ep - 1..]) == Tokens(s[ep..])
  {
    var t := s[cp - 1..];
    assert a[cp] == t[0] && t[1..] == a[cp + 1..lim] by {
      assert a[cp..lim][1..] == a[cp + 1..lim];
    }
    assert t[..ep - cp] == a[cp..ep] by {
      assert a[cp..lim][..ep - cp] == a[cp..ep];
    }
    assert t[ep - cp..] == s[ep - 1..];
    if ep < lim {
      assert a[ep] == a[cp..lim][ep - cp] == s[ep - 1..][0];
      assert s[ep - 1..][1..] == s[ep..];
    }
  }

  /** A quoted argument: the closing quote becomes its end. */
  method TakeQuoted(tail: array<byte>, cp: nat, ghost s: seq<byte>, ghost lim: nat,
                    ghost argv: seq<nat>, ghost args: seq<seq<byte>>)
    returns (ok: bool, next: nat)
    requires cp <= lim < tail.Length && Parsed(tail[..], s, cp, lim, argv, args)
    requires tail[cp] != 0 && IsQuote(tail[cp]) && tail[lim] == 0
    modifies tail
    ensures !ok ==> Tokens(s).Error?
    ensures ok ==> cp + 1 < next <= lim
    ensures ok ==> Parsed(tail[..], s, next, lim, argv + [cp + 1], args + [old(tail[..])[cp + 1..next - 1]])
    ensures tail[lim] == 0
  {
    hide Tokens, Parsed;
    ghost var a := tail[..];
    var ep, found := FindQuote(tail, cp + 1, tail[cp], lim);
    assert tail[cp + 1..lim] == a[cp + 1..lim];
    QuotedToken(a, s, cp, lim, argv, args, ep);
    ok, next := found, ep + 1;
    if !found {
      StopParsing(a, s, cp, lim, argv, args);
      return;
    }
    tail[ep] := 0;
    assert tail[..] == a[ep := 0];
    TakeArg(a, tail[..], s, cp, lim, argv, args, cp + 1, ep, ep + 1);
  }

  /** A bare argument: the byte after it becomes its end. */
  method TakeWord(tail: array<byte>, cp: nat, ghost s: seq<byte>, ghost lim: nat,
                  ghost argv: seq<nat>, ghost args: seq<seq<byte>>)
    returns (next: nat, ghost ep: nat)
    requires cp < lim < tail.Length && Parsed(tail[..], s, cp, lim, argv, args)
    requires tail[cp] != 0 && !IsSpace(tail[cp]) && !IsQuote(tail[cp]) && tail[lim] == 0
    modifies tail
    ensures cp < next <= lim && cp <= ep <= tail.Length
    ensures Parsed(tail[..], s, next, lim, argv + [cp], args + [old(tail[..])[cp..ep]])
    ensures tail[lim] == 0
  {
    hide Tokens, Parsed;
    ghost var a := tail[..];
    var end := FindWordEnd(tail, cp + 1, lim);
    assert tail[cp + 1..lim] == a[cp + 1..lim];
    WordToken(a, s, cp, lim, argv, args, end);
    var terminal := tail[end] == 0;
    tail[end] := 0;
    assert tail[..] == a[end := 0];
    next, ep := if terminal then end else end + 1, end;
    TakeArg(a, tail[..], s, cp, lim, argv, args, cp, end, next);
  }

  /** Cuts the tail up: the vector starts with a fixed program name and then points into
      the tail itself, in which each argument now ends with a NUL. */
  method ParseArgs(tail: array<byte>) returns (r: Outcome<seq<Entry>>)
    requires 128 <= tail.Length && tail[0] < 128
    modifies tail
    ensures var s := old(tail[1..1 + Min(tail[0], 0x7e)]);
      match r
      case Ok(argv) => Tokens(s).Ok? && Arguments(tail[..], argv, Tokens(s).value, 1 + |s|)
      case Error(_) => Tokens(s).Error?
  {
    hide Tokens, Parsed, Argv, Arguments, Vector;
    var len := tail[0] as int;
    if len > LIMIT {
      len := LIMIT;
    }
    ghost var s := tail[1..1 + len];
    ghost var args: seq<seq<byte>> := [];
    ghost var places: seq<nat> := [];
    var argv := [Program];
    VectorNext(places, 0);
    var cp := 1;
    tail[cp + len] := 0;
    ghost var lim := 1 + len;
    StartParsing(tail[..], s);
    while tail[cp] != 0
      invariant 1 <= cp <= lim < tail.Length && tail[lim] == 0
      invariant argv == Vector(places)
      invariant Parsed(tail[..], s, cp, lim, places, args)
      decreases lim - cp
    {
      ghost var a := tail[..];
      if IsSpace(tail[cp]) {
        SkipSpace(a, s, cp, lim, places, args);
        cp := cp + 1;
      } else if IsQuote(tail[cp]) {
        var ok, next := TakeQuoted(tail, cp, s, lim, places, args);
        if !ok {
          return Error("unterminated quote");
        }
        VectorNext(places, cp + 1);
        argv, places, args := argv + [InTail(cp + 1)], places + [cp + 1], args + [a[cp + 1..next - 1]];
        cp := next;
      } else {
        var next;
        ghost var ep;
        next, ep := TakeWord(tail, cp, s, lim, places, args);
        VectorNext(places, cp);
        argv, places, args := argv + [InTail(cp)], places + [cp], args + [a[cp..ep]];
        cp := next;
      }
    }
    EndParsing(tail[..], s, cp, lim, places, args);
    VectorIs(tail[..], places, Tokens(s).value, lim);
    r := Ok(argv);
  }

  lemma StartParsing(a: seq<byte>, s: seq<byte>)
    requires 1 + |s| < |a| && a[1 + |s|] == 0 && a[1..1 + |s|] == s
    ensures Parsed(a, s, 1, 1 + |s|, [], [])
  {
    assert s[0..] == s;
  }

  lemma StopParsing(a: seq<byte>, s: seq<byte>, cp: nat, lim: nat, argv: seq<nat>, args: seq<seq<byte>>)
    requires Parsed(a, s, cp, lim, argv, args) && Tokens(s[cp - 1..]).Error?
    ensures Tokens(s).Error?
  {
  }

  lemma EndParsing(a: seq<byte>, s: seq<byte>, cp: nat, lim: nat, argv: seq<nat>, args: seq<seq<byte>>)
    requires Parsed(a, s, cp, lim, argv, args) && a[cp] == 0
    ensures Tokens(s).Ok? && Argv(a, argv, Tokens(s).value, lim)
  {
    var t := s[cp - 1..];
    if cp < lim {
      assert t[0] == a[cp..lim][0] == 0;
    }
    assert args + [] == args;
  }

  /** An argument as one types it: bare, or between quotes that it does not contain. */
  datatype Arg = Bare(text: seq<byte>) | Quoted(quote: byte, text: seq<byte>)

  /** White space, by number: the space and 9 to 13. */
  predicate Blank(s: seq<byte>) {
    forall c :: c in s ==> c == 32 || 9 <= c <= 13
  }

  predicate Typable(a: Arg) {
    0 !in a.text &&
    match a
    case Bare(w) => w != [] && w[0] != 34 && w[0] != 39 && forall c :: c in w ==> c != 32 && !(9 <= c <= 13)
    case Quoted(q, t) => (q == 34 || q == 39) && q !in t
  }

  function Shown(a: Arg): seq<byte> {
    match a
    case Bare(w) => w
    case Quoted(q, t) => [q] + t + [q]
  }

  /** An argument and the white space before it. */
  datatype Piece = Piece(gap: seq<byte>, arg: Arg)

  function Typed(pieces: seq<Piece>): seq<byte> {
    if pieces == [] then [] else pieces[0].gap + (Shown(pieces[0].arg) + Typed(pieces[1..]))
  }

  function Texts(pieces: seq<Piece>): (t: seq<seq<byte>>)
    ensures |t| == |pieces| && forall i :: 0 <= i < |t| ==> t[i] == pieces[i].arg.text
  {
    seq(|pieces|, i requires 0 <= i < |pieces| => pieces[i].arg.text)
  }

  /** A bare argument ends at white space, a quoted one at its quote. */
  predicate Separate(pieces: seq<Piece>) {
    && (forall i :: 0 <= i < |pieces| ==> Blank(pieces[i].gap) && Typable(pieces[i].arg))
    && forall i :: 0 < i < |pieces| && pieces[i - 1].arg.Bare? ==> pieces[i].gap != []
  }

  /** What comes after the arguments does not go on with the last of them. */
  predicate Apart(pieces: seq<Piece>, rest: seq<byte>) {
    pieces != [] && pieces[|pieces| - 1].arg.Bare? && rest != [] ==>
      rest[0] == 0 || rest[0] == 32 || 9 <= rest[0] <= 13
  }

  /** White space and the end of the tail, which a NUL is as well. */
  predicate Finished(rest: seq<byte>) {
    exists n :: 0 <= n <= |rest| && Blank(rest[..n]) && (n == |rest| || rest[n] == 0)
  }

  /** White space up to `n` and a quote there that is not closed before the end at `m`. */
  predicate OpenAt(rest: seq<byte>, n: nat, m: nat) {
    && n < m <= |rest| && Blank(rest[..n]) && (rest[n] == 34 || rest[n] == 39)
    && rest[n] !in rest[n + 1..m] && 0 !in rest[n + 1..m] && (m == |rest| || rest[m] == 0)
  }

  predicate LeftOpen(rest: seq<byte>) {
    exists n: nat, m: nat :: n <= |rest| && m <= |rest| && OpenAt(rest, n, m)
  }

  lemma {:induction false} WordThen(w: seq<byte>, rest: seq<byte>)
    requires 0 !in w && (forall c :: c in w ==> !IsSpace(c)) && (rest != [] ==> IsSpace(rest[0]) || rest[0] == 0)
    ensures WordLength(w + rest) == |w|
    decreases |w|
  {
    if w == [] {
      assert w + rest == rest;
    } else {
      assert (w + rest)[1..] == w[1..] + rest;
      WordThen(w[1..], rest);
    }
  }

  lemma {:induction false} QuotedThen(t: seq<byte>, q: byte, rest: seq<byte>)
    requires 0 !in t && q !in t && rest != [] && rest[0] == q
    ensures QuotedLength(t + rest, q) == |t|
    decreases |t|
  {
    if t == [] {
      assert t + rest == rest;
    } else {
      assert (t + rest)[1..] == t[1..] + rest;
      QuotedThen(t[1..], q, rest);
    }
  }

  lemma WordHead(t: seq<byte>, n: nat)
    requires t != [] && t[0] != 0 && !IsQuote(t[0]) && !IsSpace(t[0]) && n == 1 + WordLength(t[1..])
    ensures n <= |t| && Tokens(t) == Prepend(t[..n], Tokens(t[n..]))
  {
  }

  lemma FirstBare(w: seq<byte>, rest: seq<byte>)
    requires Typable(Bare(w)) && (rest != [] ==> IsSpace(rest[0]) || rest[0] == 0)
    ensures Tokens(w + rest) == Prepend(w, Tokens(rest))
  {
    hide Tokens;
    var s := w + rest;
    assert s[1..] == w[1..] + rest && forall c :: c in w[1..] ==> c in w;
    WordThen(w[1..], rest);
    assert s[0] == w[0] && w[0] in w;
    WordHead(s, |w|);
    assert s[..|w|] == w && s[|w|..] == rest;
  }

  lemma FirstQuoted(q: byte, t: seq<byte>, rest: seq<byte>)
    requires Typable(Quoted(q, t))
    ensures Tokens([q] + t + [q] + rest) == Prepend(t, Tokens(rest))
  {
    hide Tokens;
    var s := [q] + t + [q] + rest;
    assert s[1..] == t + ([q] + rest);
    QuotedThen(t, q, [q] + rest);
    QuotedHead(s, |t|);
    assert s[1..1 + |t|] == t && s[|t| + 2..] == rest;
  }

  /** One argument, then what does not go on with it. */
  lemma FirstToken(a: Arg, rest: seq<byte>)
    requires Typable(a) && (a.Bare? && rest != [] ==> IsSpace(rest[0]) || rest[0] == 0)
    ensures Tokens(Shown(a) + rest) == Prepend(a.text, Tokens(rest))
  {
    match a
    case Bare(w) => FirstBare(w, rest);
    case Quoted(q, t) => FirstQuoted(q, t, rest);
  }

  lemma {:induction false} GapThen(gap: seq<byte>, rest: seq<byte>)
    requires Blank(gap)
    ensures Tokens(gap + rest) == Tokens(rest)
    decreases |gap|
  {
    if gap == [] {
      assert gap + rest == rest;
    } else {
      assert (gap + rest)[1..] == gap[1..] + rest && gap[0] in gap;
      assert forall c :: c in gap[1..] ==> c in gap;
      GapThen(gap[1..], rest);
    }
  }

  function After(texts: seq<seq<byte>>, rest: Outcome<seq<seq<byte>>>): Outcome<seq<seq<byte>>> {
    if rest.Error? then rest else Ok(texts + rest.value)
  }

  /** Arguments typed with any white space between them, and what comes after them. */
  lemma {:induction false} PiecesThen(pieces: seq<Piece>, rest: seq<byte>)
    requires Separate(pieces) && Apart(pieces, rest)
    ensures Tokens(Typed(pieces) + rest) == After(Texts(pieces), Tokens(rest))
    decreases |pieces|
  {
    hide Tokens, Typable, Blank, Shown;
    if pieces == [] {
      assert Typed(pieces) + rest == rest;
      AfterNothing(Tokens(rest));
    } else {
      var p, more := pieces[0], Typed(pieces[1..]) + rest;
      RestOfPieces(pieces, rest);
      PiecesThen(pieces[1..], rest);
      GapThen(p.gap, Shown(p.arg) + more);
      FirstToken(p.arg, more);
      assert Typed(pieces) + rest == p.gap + (Shown(p.arg) + more) by {
        TypedHead(pieces, rest);
      }
      assert Texts(pieces) == [p.arg.text] + Texts(pieces[1..]);
      PrependAfter(p.arg.text, Texts(pieces[1..]), Tokens(rest));
    }
  }

  lemma TypedHead(pieces: seq<Piece>, rest: seq<byte>)
    requires pieces != []
    ensures Typed(pieces) + rest == pieces[0].gap + (Shown(pieces[0].arg) + (Typed(pieces[1..]) + rest))
  {
    hide Shown;
  }

  lemma AfterNothing(rest: Outcome<seq<seq<byte>>>)
    ensures After([], rest) == rest
  {
    if rest.Ok? {
      assert [] + rest.value == rest.value;
    }
  }

  lemma PrependAfter(t: seq<byte>, ts: seq<seq<byte>>, rest: Outcome<seq<seq<byte>>>)
    ensures Prepend(t, After(ts, rest)) == After([t] + ts, rest)
  {
    if rest.Ok? {
      assert [t] + (ts + rest.value) == ([t] + ts) + rest.value;
    }
  }

  lemma AddPiece(first: Piece, ps: seq<Piece>, r: seq<byte>)
    requires Blank(first.gap) && Typable(first.arg) && Separate(ps) && Apart(ps, r)
    requires first.arg.Bare? && ps != [] ==> ps[0].gap != []
    requires first.arg.Bare? && ps == [] && r != [] ==> IsSpace(r[0]) || r[0] == 0
    ensures var pieces := [first] + ps;
      && Typed(pieces) + r == first.gap + (Shown(first.arg) + (Typed(ps) + r))
      && Separate(pieces) && Apart(pieces, r)
  {
    hide Typable, Blank, Shown, Typed;
    var pieces := [first] + ps;
    TypedHead(pieces, r);
    assert pieces[1..] == ps && forall i :: 0 < i < |pieces| ==> pieces[i] == ps[i - 1];
  }

  lemma RestOfPieces(pieces: seq<Piece>, rest: seq<byte>)
    requires pieces != [] && Separate(pieces) && Apart(pieces, rest)
    ensures Separate(pieces[1..]) && Apart(pieces[1..], rest)
    ensures var more := Typed(pieces[1..]) + rest;
      pieces[0].arg.Bare? && more != [] ==> IsSpace(more[0]) || more[0] == 0
  {
    hide Typable, Shown;
    if |pieces| > 1 {
      assert pieces[1].gap != [] ==> pieces[1].gap[0] in pieces[1].gap;
    }
  }

  lemma FinishedIsOk(rest: seq<byte>)
    requires Finished(rest)
    ensures Tokens(rest) == Ok([])
  {
    var n :| 0 <= n <= |rest| && Blank(rest[..n]) && (n == |rest| || rest[n] == 0);
    GapThen(rest[..n], rest[n..]);
    assert rest[..n] + rest[n..] == rest;
  }

  lemma LeftOpenIsError(rest: seq<byte>)
    requires LeftOpen(rest)
    ensures Tokens(rest).Error?
  {
    var n: nat, m: nat :| n <= |rest| && m <= |rest| && OpenAt(rest, n, m);
    OpenTail(rest, n, m);
    hide Tokens, OpenAt, Blank;
    GapThen(rest[..n], rest[n..]);
    assert rest[..n] + rest[n..] == rest;
  }

  lemma OpenTail(rest: seq<byte>, n: nat, m: nat)
    requires OpenAt(rest, n, m)
    ensures n <= |rest| && Blank(rest[..n]) && Tokens(rest[n..]).Error?
  {
    hide Tokens, Blank;
    var t := rest[n..];
    assert t[1..] == rest[n + 1..m] + rest[m..];
    OpenThen(rest[n + 1..m], rest[n], rest[m..]);
    QuotedHead(t, m - n - 1);
    assert m < |rest| ==> t[m - n] == rest[m];
  }

  lemma {:induction false} OpenThen(t: seq<byte>, q: byte, rest: seq<byte>)
    requires 0 !in t && q !in t && (rest == [] || rest[0] == 0)
    ensures QuotedLength(t + rest, q) == |t|
    decreases |t|
  {
    if t == [] {
      assert t + rest == rest;
    } else {
      assert (t + rest)[1..] == t[1..] + rest;
      OpenThen(t[1..], q, rest);
    }
  }

  /** What is typed is what the program gets: the arguments if the tail ends after them,
      and an error if it ends in an open quote. */
  lemma TypedIsParsed(pieces: seq<Piece>, rest: seq<byte>)
    requires Separate(pieces) && Apart(pieces, rest)
    ensures Finished(rest) ==> Tokens(Typed(pieces) + rest) == Ok(Texts(pieces))
    ensures LeftOpen(rest) ==> Tokens(Typed(pieces) + rest).Error?
  {
    hide Tokens, Separate, Apart, Finished, LeftOpen;
    PiecesThen(pieces, rest);
    if Finished(rest) {
      FinishedIsOk(rest);
      assert Texts(pieces) + [] == Texts(pieces);
    }
    if LeftOpen(rest) {
      LeftOpenIsError(rest);
    }
  }

  /** And there is nothing else: every tail is arguments that one may type, and then its
      end or an open quote. */
  lemma {:induction false} EveryTail(s: seq<byte>) returns (pieces: seq<Piece>, rest: seq<byte>)
    ensures s == Typed(pieces) + rest && Separate(pieces) && Apart(pieces, rest)
    ensures Finished(rest) || LeftOpen(rest)
    decreases |s|
  {
    pieces, rest := [], s;
    hide Separate, Apart, Finished, LeftOpen, Typable, Blank, Typed;
    NoPieces(s);
    if s == [] || s[0] == 0 {
      NothingLeft(s);
    } else if IsSpace(s[0]) {
      var ps, r := EveryTail(s[1..]);
      pieces, rest := MoreGap(s, ps, r);
    } else if IsQuote(s[0]) {
      var n := QuotedLength(s[1..], s[0]);
      if 1 + n == |s| || s[1 + n] == 0 {
        OpenQuote(s, n);
      } else {
        var ps, r := EveryTail(s[n + 2..]);
        pieces, rest := [Piece([], Quoted(s[0], s[1..n + 1]))] + ps, r;
        QuoteFirst(s, n, ps, r);
      }
    } else {
      var n := 1 + WordLength(s[1..]);
      var ps, r := EveryTail(s[n..]);
      pieces, rest := [Piece([], Bare(s[..n]))] + ps, r;
      WordFirst(s, n, ps, r);
    }
  }

  lemma NoPieces(s: seq<byte>)
    ensures s == Typed([]) + s && Separate([]) && Apart([], s)
  {
  }

  lemma NothingLeft(s: seq<byte>)
    requires s == [] || s[0] == 0
    ensures Finished(s)
  {
    assert Blank(s[..0]);
  }

  lemma MoreBlank(s: seq<byte>, n: nat)
    requires s != [] && IsSpace(s[0]) && n < |s| && Blank(s[1..][..n])
    ensures Blank(s[..n + 1])
  {
    assert s[..n + 1] == [s[0]] + s[1..][..n];
  }

  lemma StillFinished(s: seq<byte>)
    requires s != [] && IsSpace(s[0]) && Finished(s[1..])
    ensures Finished(s)
  {
    var r := s[1..];
    var n :| 0 <= n <= |r| && Blank(r[..n]) && (n == |r| || r[n] == 0);
    MoreBlank(s, n);
    hide Blank;
    assert Blank(s[..n + 1]) && (n + 1 == |s| || s[n + 1] == 0);
  }

  lemma StillOpen(s: seq<byte>)
    requires s != [] && IsSpace(s[0]) && LeftOpen(s[1..])
    ensures LeftOpen(s)
  {
    var n: nat, m: nat :| n <= |s[1..]| && m <= |s[1..]| && OpenAt(s[1..], n, m);
    LaterOpen(s, n, m);
    hide OpenAt;
    assert OpenAt(s, n + 1, m + 1);
  }

  lemma LaterOpen(s: seq<byte>, n: nat, m: nat)
    requires s != [] && IsSpace(s[0]) && OpenAt(s[1..], n, m)
    ensures OpenAt(s, n + 1, m + 1)
  {
    MoreBlank(s, n);
    hide Blank;
    assert s[1..][n + 1..m] == s[n + 2..m + 1] && s[1..][n] == s[n + 1];
    assert m < |s[1..]| ==> s[1..][m] == s[m + 1];
  }

  /** White space in front belongs to the first argument, or to what is left. */
  lemma MoreGap(s: seq<byte>, ps: seq<Piece>, r: seq<byte>) returns (pieces: seq<Piece>, rest: seq<byte>)
    requires s != [] && IsSpace(s[0]) && s[1..] == Typed(ps) + r
    requires Separate(ps) && Apart(ps, r) && (Finished(r) || LeftOpen(r))
    ensures s == Typed(pieces) + rest && Separate(pieces) && Apart(pieces, rest)
    ensures Finished(rest) || LeftOpen(rest)
  {
    hide Separate, Apart, Finished, LeftOpen, Typable, Blank, Typed, Shown;
    if ps == [] {
      pieces, rest := [], s;
      NoPieces(s);
      NoPieces(r);
      if Finished(r) {
        StillFinished(s);
      } else {
        StillOpen(s);
      }
    } else {
      var first := Piece([s[0]] + ps[0].gap, ps[0].arg);
      pieces, rest := [first] + ps[1..], r;
      RestOfPieces(ps, r);
      NoPieces(r);
      FirstPiece(ps, s[0]);
      TypedHead(ps, r);
      AddPiece(first, ps[1..], r);
      var more := Shown(first.arg) + (Typed(ps[1..]) + r);
      assert s == [s[0]] + (ps[0].gap + more);
      assert ([s[0]] + ps[0].gap) + more == [s[0]] + (ps[0].gap + more);
    }
  }

  /** The first argument, with one more character of white space before it. */
  lemma FirstPiece(ps: seq<Piece>, c: byte)
    requires ps != [] && Separate(ps) && IsSpace(c)
    ensures Blank([c] + ps[0].gap) && Typable(ps[0].arg)
    ensures ps[0].arg.Bare? && |ps| > 1 ==> ps[1..][0].gap != []
  {
    hide Typable;
  }

  lemma OpenQuote(s: seq<byte>, n: nat)
    requires s != [] && s[0] != 0 && IsQuote(s[0]) && n == QuotedLength(s[1..], s[0])
    requires 1 + n == |s| || s[1 + n] == 0
    ensures LeftOpen(s)
  {
    assert Blank(s[..0]);
    assert s[1..n + 1] == s[1..][..n];
    assert OpenAt(s, 0, n + 1);
  }

  lemma QuoteFirst(s: seq<byte>, n: nat, ps: seq<Piece>, r: seq<byte>)
    requires s != [] && s[0] != 0 && IsQuote(s[0]) && n == QuotedLength(s[1..], s[0]) && 1 + n < |s| && s[1 + n] != 0
    requires s[n + 2..] == Typed(ps) + r && Separate(ps) && Apart(ps, r)
    ensures var pieces := [Piece([], Quoted(s[0], s[1..n + 1]))] + ps;
      s == Typed(pieces) + r && Separate(pieces) && Apart(pieces, r)
  {
    hide *;
    QuoteIsTypable(s, n);
    AddPiece(Piece([], Quoted(s[0], s[1..n + 1])), ps, r);
    Cut(s, n + 2, Typed(ps) + r);
  }

  lemma Cut(s: seq<byte>, n: nat, more: seq<byte>)
    requires n <= |s| && s[n..] == more
    ensures [] + (s[..n] + more) == s
  {
  }

  lemma QuoteIsTypable(s: seq<byte>, n: nat)
    requires s != [] && s[0] != 0 && IsQuote(s[0]) && n == QuotedLength(s[1..], s[0]) && 1 + n < |s| && s[1 + n] != 0
    ensures Typable(Quoted(s[0], s[1..n + 1])) && Blank([]) && s[..n + 2] == Shown(Quoted(s[0], s[1..n + 1]))
  {
    assert s[1..n + 1] == s[1..][..n] && s[n + 1] == s[1..][n];
    assert s[..n + 2] == [s[0]] + s[1..n + 1] + [s[n + 1]];
  }

  lemma WordFirst(s: seq<byte>, n: nat, ps: seq<Piece>, r: seq<byte>)
    requires s != [] && s[0] != 0 && !IsQuote(s[0]) && !IsSpace(s[0]) && n == 1 + WordLength(s[1..]) <= |s|
    requires s[n..] == Typed(ps) + r && Separate(ps) && Apart(ps, r)
    ensures var pieces := [Piece([], Bare(s[..n]))] + ps;
      s == Typed(pieces) + r && Separate(pieces) && Apart(pieces, r)
  {
    WordIsTypable(s, n);
    GapBefore(s[n..], ps, r);
    hide *;
    ShownBare(s[..n]);
    AddPiece(Piece([], Bare(s[..n])), ps, r);
    Cut(s, n, Typed(ps) + r);
  }

  lemma ShownBare(w: seq<byte>)
    ensures Shown(Bare(w)) == w
  {
  }

  lemma WordIsTypable(s: seq<byte>, n: nat)
    requires s != [] && s[0] != 0 && !IsQuote(s[0]) && !IsSpace(s[0]) && n == 1 + WordLength(s[1..]) <= |s|
    ensures Typable(Bare(s[..n])) && Blank([])
    ensures n < |s| ==> IsSpace(s[n]) || s[n] == 0
  {
    forall i | 0 <= i < n ensures s[..n][i] != 0 && !IsSpace(s[..n][i]) {
      if i > 0 {
        assert s[..n][i] == s[1..][i - 1];
      }
    }
    if n < |s| {
      assert s[n] == s[1..][n - 1];
    }
  }

  /** Where white space or a NUL comes next, it starts the gap before the next argument. */
  lemma GapBefore(s: seq<byte>, ps: seq<Piece>, r: seq<byte>)
    requires s == Typed(ps) + r && Separate(ps) && (s != [] ==> IsSpace(s[0]) || s[0] == 0)
    ensures ps != [] ==> ps[0].gap != []
    ensures ps == [] ==> r == s
  {
    hide Separate, Typed, Blank;
    NoPieces(r);
    if ps != [] && ps[0].gap == [] {
      ArgumentFirst(ps, r);
    }
  }

  lemma ArgumentFirst(ps: seq<Piece>, r: seq<byte>)
    requires ps != [] && Separate(ps) && ps[0].gap == []
    ensures var s := Typed(ps) + r; s != [] && s[0] != 0 && !IsSpace(s[0])
  {
    FirstIsTypable(ps);
    ShownStarts(ps[0].arg);
    TypedHead(ps, r);
    hide Separate, Typed, Typable, Shown;
    var shown, more := Shown(ps[0].arg), Typed(ps[1..]) + r;
    assert [] + (shown + more) == shown + more;
  }

  lemma FirstIsTypable(ps: seq<Piece>)
    requires ps != [] && Separate(ps)
    ensures Typable(ps[0].arg)
  {
    hide Typable, Blank;
  }

  lemma ShownStarts(a: Arg)
    requires Typable(a)
    ensures Shown(a) != [] && Shown(a)[0] != 0 && !IsSpace(Shown(a)[0])
  {
    match a
    case Bare(w) => assert w[0] in w;
    case Quoted(_, _) =>
  }

  /** The whole way: typed, cut up in place, read through `argv`. */
  method TypedArguments(pieces: seq<Piece>, rest: seq<byte>) returns (tail: array<byte>, argv: seq<Entry>)
    requires Separate(pieces) && Apart(pieces, rest) && Finished(rest) && |Typed(pieces) + rest| <= 0x7e
    ensures fresh(tail) && |argv| == 1 + |pieces| && argv[0] == Program
    ensures forall i :: 0 <= i < |pieces| ==>
      EntryIs(tail[..], argv[i + 1], pieces[i].arg.text, 1 + |Typed(pieces) + rest|)
  {
    hide Typed, Tokens, Separate, Apart, Finished;
    var text := Typed(pieces) + rest;
    tail := new byte[128](i => if i == 0 then |text| else if 0 < i <= |text| then text[i - 1] else 0);
    assert tail[1..1 + |text|] == text;
    TypedIsParsed(pieces, rest);
    var r := ParseArgs(tail);
    argv := r.value;
    assert forall i :: 0 <= i < |pieces| ==> EntryIs(tail[..], argv[i + 1], Texts(pieces)[i], 1 + |text|);
  }
}
