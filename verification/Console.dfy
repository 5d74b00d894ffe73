/** Output to the terminal and the printer. */
module Console {
  import opened Basics
  import opened Sectors
  import opened Text

  const DOLLAR: byte := 36

  /** What a device has to be sent so that it shows `s`: every LF with a CR before it. */
  function Crlf(s: seq<byte>): (r: seq<byte>) {
    if s == [] then [] else (if s[0] == LF then [CR, LF] else [s[0]]) + Crlf(s[1..])
  }

  lemma {:induction false} CrlfOfParts(a: seq<byte>, b: seq<byte>)
    ensures Crlf(a + b) == Crlf(a) + Crlf(b)
    decreases |a|
  {
    if a == [] {
      assert a + b == b;
    } else {
      CrlfOfParts(a[1..], b);
      assert (a + b)[1..] == a[1..] + b;
    }
  }

  lemma CrlfOne(c: byte)
    ensures Crlf([]) == [] && Crlf([c]) == if c == 10 then [13, 10] else [c]
  {
    assert [c][1..] == [];
    assert Crlf([]) == [];
  }

  lemma CrlfNext(s: seq<byte>, i: nat, j: nat)
    requires i <= j < |s|
    ensures Crlf(s[i..j + 1]) == Crlf(s[i..j]) + if s[j] == LF then [CR, LF] else [s[j]]
  {
    assert s[i..j + 1] == s[i..j] + [s[j]];
    CrlfOfParts(s[i..j], [s[j]]);
    assert [s[j]][1..] == [];
  }

  lemma Sent(before: seq<byte>, data: seq<byte>, i: nat, j: nat)
    requires i <= j <= |data|
    ensures (before + data[..i]) + data[i..j] == before + data[..j]
    ensures j < |data| ==> (before + data[..j]) + [data[j]] == before + data[..j + 1]
    ensures before + data[..0] == before && data[..|data|] == data
    ensures i == j ==> before + data[..i] == before + data[..j]
  {
  }

  class Devices {
    var console: seq<byte>
    var printer: seq<byte>

    /** Function 9: sends the bytes up to the first dollar sign. */
    method WriteString(buf: array<byte>, first: nat) returns (ghost end: nat)
      requires exists k :: first <= k < buf.Length && buf[k] == DOLLAR
      modifies `console
      ensures first <= end < buf.Length && buf[end] == DOLLAR
      ensures forall k :: first <= k < end ==> buf[k] != DOLLAR
      ensures console == old(console) + buf[first..end]
    {
      var k := first;
      ghost var last :| first <= last < buf.Length && buf[last] == DOLLAR;
      assert old(console) + buf[first..first] == old(console);
      while buf[k] != DOLLAR
        invariant first <= k <= last && forall j :: first <= j < k ==> buf[j] != DOLLAR
        invariant console == old(console) + buf[first..k]
        decreases last - k
      {
        console := console + [buf[k]];
        k := k + 1;
      }
      end := k;
    }

    /** Function 2. */
    method ConOut(c: byte)
      modifies `console
      ensures console == old(console) + [c]
    {
      console := console + [c];
    }

    /** Function 5. */
    method LstOut(c: byte)
      modifies `printer
      ensures printer == old(printer) + [c]
    {
      printer := printer + [c];
    }

    /** Sends a counted chunk to the terminal. Function 9 cannot send a dollar sign,
        so the chunk is split at each of them. */
    method TtyOut(buf: array<byte>) returns (n: nat)
      requires 0 < buf.Length && buf[0] <= 127 && buf[0] + 1 < buf.Length
      modifies `console, buf
      ensures n == old(buf[0]) && buf[..n + 1] == old(buf[..n + 1])
      ensures console == old(console) + buf[1..n + 1]
    {
      n := buf[0];
      buf[n + 1] := DOLLAR;
      ghost var whole, data, before := buf[..], buf[1..n + 1], console;
      var ii, cp := 0, 0;
      Sent(before, data, 0, 0);
      while ii < n
        invariant 0 <= cp <= ii <= n && buf[..] == whole
        invariant forall k :: 1 + cp <= k < 1 + ii ==> buf[k] != DOLLAR
        invariant console == before + data[..cp]
      {
        assert buf[1 + ii] == data[ii] && buf[1 + cp] == data[cp];
        if buf[1 + ii] == DOLLAR {
          Sent(before, data, cp, ii);
          if buf[1 + cp] != DOLLAR {
            SendPiece(buf, data, cp, ii);
          }
          ConOut(DOLLAR);
          cp := ii + 1;
        }
        ii := ii + 1;
      }
      Sent(before, data, cp, n);
      if cp != ii {
        SendPiece(buf, data, cp, n);
      }
    }

    /** Sends the bytes of a chunk from `cp` to the dollar sign at `ii`. */
    method SendPiece(buf: array<byte>, ghost data: seq<byte>, cp: nat, ghost ii: nat)
      requires cp <= ii <= |data| && |data| + 1 < buf.Length && buf[1..|data| + 1] == data
      requires (forall k :: 1 + cp <= k < 1 + ii ==> buf[k] != DOLLAR) && buf[1 + ii] == DOLLAR
      modifies `console
      ensures console == old(console) + data[cp..ii]
    {
      ghost var end := WriteString(buf, 1 + cp);
      assert end == 1 + ii;
      assert buf[1 + cp..end] == data[cp..ii];
    }

    /** Sends a counted chunk to the printer. */
    method LstChunk(buf: array<byte>) returns (n: nat)
      requires 0 < buf.Length && buf[0] < buf.Length
      modifies `printer
      ensures n == buf[0] && printer == old(printer) + buf[1..n + 1]
    {
      n := buf[0];
      var i := 0;
      assert buf[1..1] == [];
      while i < n
        invariant 0 <= i <= n && printer == old(printer) + buf[1..i + 1]
      {
        LstOut(buf[1 + i]);
        i := i + 1;
      }
    }

    /** The inner loop of `_wrtchr`: fills the chunk, an LF only together with its CR. */
    method FillChunk(src: array<byte>, first: nat, left: nat, chunk: array<byte>) returns (next: nat)
      requires chunk.Length == 129 && chunk != src && 0 < left && first + left <= src.Length
      modifies chunk
      ensures first < next <= first + left
      ensures chunk[0] <= 127 && chunk[1..chunk[0] + 1] == Crlf(src[first..next])
    {
      var ii, nbs := 1, left;
      next := first;
      assert src[first..first] == [] && chunk[1..1] == [];
      while ii < SECSIZ && nbs != 0
        invariant 1 <= ii <= 128 && 0 <= nbs && next + nbs == first + left && first <= next
        invariant next == first ==> ii == 1
        invariant chunk[1..ii] == Crlf(src[first..next])
      {
        CrlfNext(src[..], first, next);
        assert src[..][first..next] == src[first..next] && src[..][first..next + 1] == src[first..next + 1];
        ghost var was := chunk[1..ii];
        if src[next] == LF {
          if ii + 1 >= SECSIZ {
            break;
          }
          chunk[ii] := CR;
          ii := ii + 1;
          assert chunk[1..ii] == was + [CR];
        }
        ghost var was1 := chunk[1..ii];
        chunk[ii] := src[next];
        next, ii, nbs := next + 1, ii + 1, nbs - 1;
        assert chunk[1..ii] == was1 + [src[next - 1]];
      }
      ghost var filled := chunk[1..ii];
      chunk[0] := ii - 1;
      assert chunk[1..ii] == filled;
    }

    /** The `write` call on a device. The count is kept in 16 bits, and only so many
        bytes are sent. */
    method WrtChr(isTty: bool, isLpt: bool, src: array<byte>) returns (r: int)
      modifies this
      ensures !isTty && !isLpt ==> r == -1 && console == old(console) && printer == old(printer)
      ensures isTty || isLpt ==> r == src.Length
      ensures isTty ==> console == old(console) + Crlf(src[..src.Length % 0x10000]) && printer == old(printer)
      ensures !isTty && isLpt ==> printer == old(printer) + Crlf(src[..src.Length % 0x10000]) && console == old(console)
    {
      if !isTty && !isLpt {
        return -1;
      }
      hide Uword, Crlf, HasGone;
      var n := Uword(src.Length);
      UwordAtMost(src.Length);
      ghost var s := src[..];
      NothingGone(console, s);
      NothingGone(printer, s);
      var chunk := new byte[129];
      var nbs, next := n, 0;
      while nbs != 0
        invariant 0 <= nbs && nbs + next == n && 0 <= next && src[..] == s
        invariant if isTty then HasGone(console, old(console), s, next) else console == old(console)
        invariant if isTty then printer == old(printer) else HasGone(printer, old(printer), s, next)
        decreases nbs
      {
        var after := FillChunk(src, next, nbs, chunk);
        assert src[next..after] == s[next..after];
        if isTty {
          MoreGone(console, old(console), s, next, after);
          var _ := TtyOut(chunk);
        } else {
          MoreGone(printer, old(printer), s, next, after);
          var _ := LstChunk(chunk);
        }
        nbs := nbs - (after - next);
        next := after;
      }
      AllGone(if isTty then console else printer, if isTty then old(console) else old(printer), s, n);
      r := src.Length;
    }
  }

  /** A device that had got `before` has got the first `n` bytes of `s` since. */
  predicate HasGone(now: seq<byte>, before: seq<byte>, s: seq<byte>, n: nat) {
    n <= |s| && now == before + Crlf(s[..n])
  }

  lemma NothingGone(before: seq<byte>, s: seq<byte>)
    ensures HasGone(before, before, s, 0)
  {
  }

  lemma AllGone(now: seq<byte>, before: seq<byte>, s: seq<byte>, n: nat)
    requires HasGone(now, before, s, n)
    ensures n <= |s| && now == before + Crlf(s[..n])
  {
  }

  lemma MoreGone(now: seq<byte>, before: seq<byte>, s: seq<byte>, i: nat, j: nat)
    requires HasGone(now, before, s, i) && i <= j <= |s|
    ensures HasGone(now + Crlf(s[i..j]), before, s, j)
  {
    hide Crlf;
    var a, b, all := Crlf(s[..i]), Crlf(s[i..j]), Crlf(s[..j]);
    assert all == a + b by {
      assert s[..i] + s[i..j] == s[..j];
      CrlfOfParts(s[..i], s[i..j]);
    }
    Append(before, a, b, all, before + all);
  }

  lemma UwordAtMost(n: nat)
    ensures Uword(n) == n % 0x10000 <= n
    ensures Uword(n) == n <==> n < 0x10000
  {
  }

  /** A terminal is sent the whole of a write, whatever is in it, exactly when the
      count fits 16 bits. */
  lemma AllIsSent(s: seq<byte>)
    ensures Crlf(s[..|s| % 0x10000]) == Crlf(s) <==> |s| < 0x10000
  {
    UwordAtMost(|s|);
    var n := Uword(|s|);
    hide Uword;
    assert s[..n] + s[n..] == s;
    CrlfOfParts(s[..n], s[n..]);
    CrlfGrows(s[n..]);
    if n == |s| {
      assert s[..n] == s;
    }
  }

  lemma {:induction false} CrlfGrows(s: seq<byte>)
    ensures |s| <= |Crlf(s)|
    decreases |s|
  {
    if s == [] {
    } else {
      CrlfGrows(s[1..]);
    }
  }
}
