/** CP/M text: lines end in CR LF and the first ^Z ends the file. */
module Text {
  import opened Basics

  const LF: byte := 10
  const CR: byte := 13
  const EOFCHAR: byte := 26

  /** `s` with a CR put before every LF that does not follow one; `prev` is the
      character before `s`. */
  function Expand(prev: byte, s: seq<byte>): (r: seq<byte>)
    ensures |s| <= |r| <= 2 * |s|
    decreases |s|
  {
    if s == [] then []
    else (if s[0] == LF && prev != CR then [CR, LF] else [s[0]]) + Expand(s[0], s[1..])
  }

  /** The part of a text before its first ^Z. */
  function Cut(s: seq<byte>): (r: seq<byte>)
    ensures r <= s && 26 !in r
    ensures |r| < |s| ==> s[|r|] == 26
  {
    if s == [] || s[0] == EOFCHAR then [] else [s[0]] + Cut(s[1..])
  }

  function Strip(s: seq<byte>): (r: seq<byte>)
    ensures |r| <= |s| && CR !in r
  {
    if s == [] then [] else (if s[0] == CR then [] else [s[0]]) + Strip(s[1..])
  }

  /** Expanding goes character by character: 13 comes before a 10 that does not follow one. */
  lemma {:induction false} ExpandParts(prev: byte, s: seq<byte>, t: seq<byte>)
    ensures Expand(prev, s + t) == Expand(prev, s) + Expand(if s == [] then prev else s[|s| - 1], t)
    decreases |s|
  {
    if s == [] {
      assert s + t == t && [] + Expand(prev, t) == Expand(prev, t);
    } else {
      hide Expand;
      var one, last := if s[0] == LF && prev != CR then [CR, LF] else [s[0]], s[|s| - 1];
      assert (s + t)[1..] == s[1..] + t && (s + t)[0] == s[0];
      ExpandHead(prev, s);
      ExpandHead(prev, s + t);
      ExpandParts(s[0], s[1..], t);
      Append(one, Expand(s[0], s[1..]), Expand(last, t), Expand(s[0], s[1..] + t), Expand(prev, s + t));
    }
  }

  lemma ExpandHead(prev: byte, s: seq<byte>)
    requires s != []
    ensures Expand(prev, s) == (if s[0] == LF && prev != CR then [CR, LF] else [s[0]]) + Expand(s[0], s[1..])
  {
  }

  lemma ExpandOne(prev: byte, c: byte)
    ensures Expand(prev, []) == []
    ensures Expand(prev, [c]) == if c == 10 && prev != 13 then [13, 10] else [c]
  {
    assert [c][1..] == [];
    assert Expand(c, []) == [];
  }

  /** Stripping drops every 13 and nothing else. */
  lemma {:induction false} StripParts(s: seq<byte>, t: seq<byte>)
    ensures Strip(s + t) == Strip(s) + Strip(t)
    decreases |s|
  {
    if s == [] {
      assert s + t == t && [] + Strip(t) == Strip(t);
    } else {
      var one := if s[0] == CR then [] else [s[0]];
      assert (s + t)[1..] == s[1..] + t;
      StripParts(s[1..], t);
      assert one + (Strip(s[1..]) + Strip(t)) == (one + Strip(s[1..])) + Strip(t);
    }
  }

  lemma StripOne(c: byte)
    ensures Strip([]) == [] && Strip([c]) == if c == 13 then [] else [c]
  {
    assert [c][1..] == [];
    assert Strip([]) == [];
  }

  /** What a reader of the text `s` gets to see. */
  function Seen(s: seq<byte>): seq<byte> {
    Strip(Cut(s))
  }

  /** One step of the expansion, character by character of the output. */
  lemma ExpandStep(prev: byte, s: seq<byte>, i: nat)
    requires i < |s|
    ensures s[i] == LF && prev != CR ==> Expand(prev, s[i..]) == [CR] + Expand(CR, s[i..])
    ensures !(s[i] == LF && prev != CR) ==> Expand(prev, s[i..]) == [s[i]] + Expand(s[i], s[i + 1..])
  {
    assert s[i..][1..] == s[i + 1..];
  }

  lemma SeenCons(c: byte, s: seq<byte>)
    ensures Seen([c] + s) == if c == EOFCHAR then [] else if c == CR then Seen(s) else [c] + Seen(s)
  {
    assert ([c] + s)[1..] == s;
    assert ([c] + Cut(s))[1..] == Cut(s);
  }

  lemma SeenPrefix(c: byte, s: seq<byte>, t: seq<byte>)
    requires Seen(s) == Seen(t)
    ensures Seen([c] + s) == Seen([c] + t)
    ensures Seen([CR] + ([c] + s)) == Seen([c] + t)
  {
    SeenCons(c, s);
    SeenCons(c, t);
    SeenCons(CR, [c] + s);
  }

  lemma ExpandCons(prev: byte, s: seq<byte>, rest: seq<byte>)
    requires s != []
    ensures var tail := Expand(s[0], s[1..]) + rest;
      Expand(prev, s) + rest == if s[0] == LF && prev != CR then [CR] + ([LF] + tail) else [s[0]] + tail
  {
  }

  lemma SplitHead(s: seq<byte>, rest: seq<byte>)
    requires s != []
    ensures s + rest == [s[0]] + (s[1..] + rest)
  {
  }

  /** Expanding a text and reading it back shows the text without its CRs. */
  lemma {:induction false} SeenExpand(prev: byte, s: seq<byte>, rest: seq<byte>)
    ensures Seen(Expand(prev, s) + rest) == Seen(s + rest)
    decreases |s|
  {
    if s == [] {
      assert Expand(prev, s) + rest == s + rest;
    } else {
      hide Seen, Expand;
      ExpandCons(prev, s, rest);
      SeenExpand(s[0], s[1..], rest);
      SeenPrefix(s[0], Expand(s[0], s[1..]) + rest, s[1..] + rest);
      SplitHead(s, rest);
    }
  }

  /** The outcome of a text read: the characters, the offset after the last byte
      used, and whether the end of the text was met. */
  datatype Reading = Reading(got: seq<byte>, end: nat, atEnd: bool)

  /** Reads `n` characters of file `v` from `off` on: CRs are passed over, and the
      text ends before a ^Z or where the file ends. */
  function Scan(v: seq<byte>, off: nat, n: nat): (r: Reading)
    ensures |r.got| <= n && off <= r.end && (r.atEnd <==> |r.got| < n)
    decreases |v| - off
  {
    if n == 0 then Reading([], off, false)
    else if off >= |v| || v[off] == EOFCHAR then Reading([], off, true)
    else if v[off] == CR then Scan(v, off + 1, n)
    else var r := Scan(v, off + 1, n - 1); r.(got := [v[off]] + r.got)
  }

  /** A scan from `off0` that has collected `got` goes on at `off`. */
  ghost predicate Continues(v: seq<byte>, off0: nat, n: nat, got: seq<byte>, off: nat) {
    && |got| <= n
    && var rest := Scan(v, off, n - |got|);
       Scan(v, off0, n) == Reading(got + rest.got, rest.end, rest.atEnd)
  }

  lemma ContinuesAtStart(v: seq<byte>, off: nat, n: nat)
    ensures Continues(v, off, n, [], off)
  {
    assert [] + Scan(v, off, n).got == Scan(v, off, n).got;
  }

  lemma ContinuesStep(v: seq<byte>, off0: nat, n: nat, got: seq<byte>, off: nat)
    requires Continues(v, off0, n, got, off) && |got| < n && off < |v| && v[off] != EOFCHAR
    ensures v[off] == CR ==> Continues(v, off0, n, got, off + 1)
    ensures v[off] != CR ==> Continues(v, off0, n, got + [v[off]], off + 1)
  {
    if v[off] != CR {
      var rest := Scan(v, off + 1, n - |got| - 1).got;
      assert got + ([v[off]] + rest) == (got + [v[off]]) + rest;
    }
  }

  lemma ContinuesDone(v: seq<byte>, off0: nat, n: nat, got: seq<byte>, off: nat)
    requires Continues(v, off0, n, got, off)
    ensures |got| == n ==> Scan(v, off0, n) == Reading(got, off, false)
    ensures |got| < n && (off >= |v| || v[off] == EOFCHAR) ==> Scan(v, off0, n) == Reading(got, off, true)
  {
    assert got + [] == got;
  }

  /** `end` is at the first ^Z of the last sector, or where that sector ends. */
  predicate IsTextEnd(v: seq<byte>, end: int) {
    && 0 <= end <= |v| && (end < |v| ==> v[end] == 26)
    && if v == [] then end == 0 else |v| - 128 <= end && (|v| >= 128 ==> 26 !in v[|v| - 128..end])
  }

  /** Where the end of a text file is looked for: the first ^Z of the last sector. */
  function TextEnd(v: seq<byte>): (end: nat)
    requires |v| % 128 == 0
    ensures IsTextEnd(v, end)
  {
    if v == [] then 0 else |v| - 128 + |Cut(v[|v| - 128..])|
  }

  lemma {:induction false} CutAt(s: seq<byte>, i: nat)
    requires i <= |s| && EOFCHAR !in s[..i] && (i < |s| ==> s[i] == EOFCHAR)
    ensures Cut(s) == s[..i]
  {
    if i > 0 {
      assert s[0] == s[..i][0];
      assert s[1..][..i - 1] == s[..i][1..];
      CutAt(s[1..], i - 1);
    }
  }

  lemma {:induction false} SeenStops(s: seq<byte>, rest: seq<byte>)
    ensures Seen(s + [EOFCHAR] + rest) == Seen(s)
    decreases |s|
  {
    if s == [] {
      assert s + [EOFCHAR] + rest == [EOFCHAR] + rest;
      SeenCons(EOFCHAR, rest);
    } else {
      hide Seen;
      assert s + [EOFCHAR] + rest == [s[0]] + (s[1..] + [EOFCHAR] + rest);
      assert s == [s[0]] + s[1..];
      SeenStops(s[1..], rest);
      SeenCons(s[0], s[1..] + [EOFCHAR] + rest);
      SeenCons(s[0], s[1..]);
    }
  }

  /** What was read from `off` on was to be seen there, and it stops short only when
      nothing is left. */
  predicate Takes(v: seq<byte>, off: nat, r: Reading) {
    && off <= |v| && r.end <= |v|
    && Seen(v[off..]) == r.got + Seen(v[r.end..])
    && (r.atEnd ==> Seen(v[r.end..]) == [])
  }

  lemma TakesNothing(v: seq<byte>, off: nat)
    requires off <= |v|
    ensures Takes(v, off, Reading([], off, false))
    ensures off == |v| || v[off] == EOFCHAR ==> Takes(v, off, Reading([], off, true))
  {
    hide Seen;
    assert [] + Seen(v[off..]) == Seen(v[off..]);
    if off < |v| {
      SeenAt(v, off);
    } else {
      NothingSeen();
      assert v[off..] == [];
    }
  }

  lemma NothingSeen()
    ensures Seen([]) == []
  {
  }

  lemma SeenAt(v: seq<byte>, off: nat)
    requires off < |v|
    ensures var c := v[off];
      Seen(v[off..]) == if c == EOFCHAR then [] else if c == CR then Seen(v[off + 1..]) else [c] + Seen(v[off + 1..])
  {
    hide Seen;
    assert v[off..] == [v[off]] + v[off + 1..];
    SeenCons(v[off], v[off + 1..]);
  }

  lemma TakesMore(v: seq<byte>, off: nat, r: Reading)
    requires off < |v| && v[off] != EOFCHAR && Takes(v, off + 1, r)
    ensures v[off] == CR ==> Takes(v, off, r)
    ensures v[off] != CR ==> Takes(v, off, r.(got := [v[off]] + r.got))
  {
    hide Seen;
    SeenAt(v, off);
    AppendHead(v[off], r.got, Seen(v[r.end..]));
  }

  /** A scan takes characters off the front of what is to be seen, and stops short
      only when nothing is left. */
  lemma {:induction false} ScanTakes(v: seq<byte>, off: nat, n: nat)
    requires off <= |v|
    ensures Takes(v, off, Scan(v, off, n))
    decreases |v| - off
  {
    hide Takes;
    TakesNothing(v, off);
    if n == 0 || off == |v| {
    } else {
      var c := v[off];
      if c == CR {
        ScanTakes(v, off + 1, n);
        TakesMore(v, off, Scan(v, off + 1, n));
      } else if c != EOFCHAR {
        ScanTakes(v, off + 1, n - 1);
        TakesMore(v, off, Scan(v, off + 1, n - 1));
      }
    }
  }

  lemma AppendHead(c: byte, s: seq<byte>, t: seq<byte>)
    ensures [c] + (s + t) == ([c] + s) + t
  {
  }

  lemma {:induction false} SeenAfter(s: seq<byte>, x: seq<byte>, y: seq<byte>)
    requires Seen(x) == Seen(y)
    ensures Seen(s + x) == Seen(s + y)
    decreases |s|
  {
    if s == [] {
      assert s + x == x && s + y == y;
    } else {
      hide Seen;
      SeenAfter(s[1..], x, y);
      SplitHead(s, x);
      SplitHead(s, y);
      SeenPrefix(s[0], s[1..] + x, s[1..] + y);
    }
  }
}
