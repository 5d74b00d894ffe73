/** Text files from creation to the last character read back. */
module TextRun {
  import opened Basics
  import opened Sectors
  import opened Disk
  import opened Text
  import opened Channel
  import opened SectorText

  /** What a list of `write` calls puts into a text file. */
  function Emitted(chunks: seq<seq<byte>>): seq<byte> {
    if chunks == [] then [] else Expand(0, chunks[0]) + Emitted(chunks[1..])
  }

  /** However the text is cut up, a reader sees it cut at its first ^Z and without CRs. */
  lemma {:induction false} SeenEmitted(chunks: seq<seq<byte>>, rest: seq<byte>)
    ensures Seen(Emitted(chunks) + rest) == Seen(Joined(chunks) + rest)
    decreases |chunks|
  {
    if chunks == [] {
      assert Emitted(chunks) + rest == Joined(chunks) + rest;
    } else {
      hide Seen, Expand;
      var c, cs := chunks[0], chunks[1..];
      SeenEmitted(cs, rest);
      SeenExpand(0, c, Emitted(cs) + rest);
      SeenAfter(c, Emitted(cs) + rest, Joined(cs) + rest);
      Append(Expand(0, c), Emitted(cs), rest, Emitted(cs) + rest, Expand(0, c) + (Emitted(cs) + rest));
      Append(c, Joined(cs), rest, Joined(cs) + rest, c + (Joined(cs) + rest));
    }
  }

  /** A file that starts with the emitted text and a ^Z, whatever follows. */
  lemma SeenFile(v: seq<byte>, chunks: seq<seq<byte>>)
    requires Emitted(chunks) + [EOFCHAR] <= v
    ensures Seen(v) == Seen(Joined(chunks))
  {
    hide Seen;
    var e := Emitted(chunks);
    var rest := v[|e| + 1..];
    assert v == e + [EOFCHAR] + rest;
    SeenStops(e, rest);
    assert e + [] == e && Joined(chunks) + [] == Joined(chunks);
    SeenEmitted(chunks, []);
  }

  /** A text channel at the end of its text, to which more may be written. */
  ghost predicate Writing(ch: Ccb, text: seq<byte>)
    reads ch, ch.buffer, ch.bdos
  {
    && ch.isOpen && ch.isAscii && !ch.isRead && ch.Coherent()
    && ch.offset == ch.hiwater == |text| && text <= ch.View() && |ch.View()| <= RoundUp(|text| + 1)
  }

  method WriteOne(ch: Ccb, ghost text: seq<byte>, data: seq<byte>)
    requires Writing(ch, text) && RoundUp(|text| + |Expand(0, data)| + 1) <= 128 * ch.bdos.capacity
    modifies ch, ch.buffer, ch.bdos
    ensures Writing(ch, text + Expand(0, data)) && ch.bdos.currentUser == old(ch.bdos.currentUser)
  {
    hide Patch, RoundUp, Expand;
    RoundUpMonotone(|text| + 1, |text| + |Expand(0, data)| + 1);
    RoundUpMonotone(|text| + |Expand(0, data)|, |text| + |Expand(0, data)| + 1);
    var src := BufferOf(data);
    ghost var size := |ch.View()|;
    assert ch.View()[..ch.hiwater] == text;
    var _ := ch.Write(src);
    assert src[..] == data;
    if data != [] {
      GrownText(ch, text, Expand(0, data), size);
    } else {
      NothingToExpand(text);
    }
  }

  lemma NothingToExpand(text: seq<byte>)
    ensures text + Expand(0, []) == text
  {
  }

  lemma GrownText(ch: Ccb, text: seq<byte>, more: seq<byte>, size: nat)
    requires ch.isOpen && ch.isAscii && !ch.isRead && ch.Coherent()
    requires ch.offset == ch.hiwater == |text| + |more| && size <= RoundUp(|text| + 1)
    requires ch.View()[..ch.hiwater] == Patch(text, |text|, more) && |ch.View()| <= Max(size, RoundUp(ch.offset))
    ensures Writing(ch, text + more)
  {
    hide Patch, RoundUp, Ccb.View;
    PatchAtEnd(text, more);
    RoundUpMonotone(|text| + 1, |text| + |more| + 1);
    RoundUpMonotone(|text| + |more|, |text| + |more| + 1);
  }

  /** Writes the chunks one after the other. */
  method WriteChunks(ch: Ccb, ghost text: seq<byte>, chunks: seq<seq<byte>>)
    requires Writing(ch, text) && RoundUp(|text| + |Emitted(chunks)| + 1) <= 128 * ch.bdos.capacity
    modifies ch, ch.buffer, ch.bdos
    ensures Writing(ch, text + Emitted(chunks)) && ch.bdos.currentUser == old(ch.bdos.currentUser)
  {
    hide Writing, Expand, Emitted, RoundUp;
    ghost var all, now := text + Emitted(chunks), text;
    assert chunks[0..] == chunks;
    for i := 0 to |chunks|
      invariant Writing(ch, now) && ch.bdos.currentUser == old(ch.bdos.currentUser)
      invariant now + Emitted(chunks[i..]) == all
    {
      EmittedNext(chunks, i, now, all);
      RoundUpMonotone(|now| + |Expand(0, chunks[i])| + 1, |all| + 1);
      WriteOne(ch, now, chunks[i]);
      now := now + Expand(0, chunks[i]);
    }
    EmittedAll(chunks, now, all);
  }

  /** A file of exactly this text: a ^Z after it, and no sector behind that. */
  predicate TextFile(data: seq<byte>, text: seq<byte>) {
    |data| == RoundUp(|text| + 1) && text + [EOFCHAR] <= data
  }

  /** Closes a channel at the end of its text. */
  method CloseText(ch: Ccb, ghost text: seq<byte>)
    requires Writing(ch, text) && RoundUp(|text| + 1) <= 128 * ch.bdos.capacity
    modifies ch, ch.buffer, ch.bdos
    ensures TextFile(ch.bdos.data, text) && ch.bdos.currentUser == old(ch.bdos.currentUser)
  {
    hide Writing, TextFile, Ccb.View, RoundUp, Marked;
    ReadyToClose(ch, text);
    ghost var v := ch.View();
    var _ := ch.Close(true);
    MarkedIsFile(ch.bdos.data, v, text);
  }

  lemma MarkedIsFile(data: seq<byte>, v: seq<byte>, text: seq<byte>)
    requires Marked(data, v, |text|) && |data| % 128 == 0 && text <= v && |v| <= RoundUp(|text| + 1)
    ensures TextFile(data, text)
  {
  }

  /** Writes the chunks one after the other to a new text file and closes it. */
  method WriteText(bdos: Bdos, user: nat, chunks: seq<seq<byte>>)
    requires RoundUp(|Emitted(chunks)| + 1) <= 128 * bdos.capacity
    modifies bdos
    ensures TextFile(bdos.data, Emitted(chunks)) && bdos.currentUser == old(bdos.currentUser)
  {
    hide Writing, Expand, Emitted, RoundUp, TextFile;
    var ch := Ccb.Creat(bdos, user, true, true);
    NewTextFile(ch);
    WriteChunks(ch, [], chunks);
    assert [] + Emitted(chunks) == Emitted(chunks);
    CloseText(ch, Emitted(chunks));
  }

  /** Opens a text file for writing, goes to its end, writes more and closes it. The end
      is found because the text has no ^Z in its last sector. */
  method AppendText(bdos: Bdos, user: nat, ghost text: seq<byte>, chunks: seq<seq<byte>>)
    requires TextFile(bdos.data, text) && EndsClean(text)
    requires RoundUp(|text| + |Emitted(chunks)| + 1) <= 128 * bdos.capacity
    modifies bdos
    ensures TextFile(bdos.data, text + Emitted(chunks)) && bdos.currentUser == old(bdos.currentUser)
  {
    hide Writing, Expand, Emitted, RoundUp, TextFile, IsTextEnd, TextEnd, Ccb.View, Ccb.EndOfFile;
    WholeFile(bdos.data, text);
    RoundUpMonotone(|text| + 1, |text| + |Emitted(chunks)| + 1);
    var ch := Ccb.Open(bdos, user, false, true, true);
    var _ := ch.Lseek(0, 2);
    EndFound(bdos.data, text, ch.hiwater);
    AtTextEnd(ch, text);
    WriteChunks(ch, text, chunks);
    CloseText(ch, text + Emitted(chunks));
  }

  lemma WholeFile(data: seq<byte>, text: seq<byte>)
    requires TextFile(data, text)
    ensures |data| % 128 == 0 && |data| == RoundUp(|text| + 1)
  {
  }

  /** No ^Z in the last sector of the text. */
  predicate EndsClean(text: seq<byte>) {
    26 !in text[|text| / 128 * 128..]
  }

  lemma EndIsClean(text: seq<byte>)
    requires 26 !in text
    ensures EndsClean(text)
  {
  }

  /** The first ^Z of the last sector is the one behind the text, if and only if the text
      has none there. */
  lemma EndFound(data: seq<byte>, text: seq<byte>, end: int)
    requires TextFile(data, text) && IsTextEnd(data, end)
    ensures end == |text| <==> EndsClean(text)
  {
    LastSector(|text|);
    hide RoundUp, EndsClean;
    FirstEof(data, text, |data| - 128, end);
    assert EndsClean(text) <==> 26 !in text[|data| - 128..] by {
      CleanIs(text);
    }
  }

  lemma LastSector(n: nat)
    ensures RoundUp(n + 1) == n / 128 * 128 + 128
    ensures n / 128 * 128 <= n
  {
  }

  lemma CleanIs(text: seq<byte>)
    ensures EndsClean(text) <==> 26 !in text[|text| / 128 * 128..]
  {
  }

  lemma FirstEof(data: seq<byte>, text: seq<byte>, last: nat, end: int)
    requires text + [EOFCHAR] <= data && last <= |text| && last <= end <= |data| && 26 !in data[last..end]
    requires end < |data| ==> data[end] == 26
    ensures end == |text| <==> 26 !in text[last..]
  {
    var k := |text|;
    assert data[..k + 1] == text + [EOFCHAR];
    assert data[k] == data[..k + 1][k] == 26;
    forall p | 0 <= p < k ensures data[p] == text[p] {
      assert data[p] == data[..k + 1][p];
    }
    forall p | last <= p < end ensures data[p] != 26 {
      assert data[p] == data[last..end][p - last];
    }
    forall p | last <= p < k ensures text[p] in text[last..] {
      assert text[p] == text[last..][p - last];
    }
  }

  lemma AtTextEnd(ch: Ccb, text: seq<byte>)
    requires ch.isOpen && ch.isAscii && !ch.isRead && ch.Coherent() && ch.offset == ch.hiwater == |text|
    requires TextFile(ch.View(), text)
    ensures Writing(ch, text)
  {
  }

  lemma NewTextFile(ch: Ccb)
    requires ch.Coherent() && ch.View() == [] && ch.offset == ch.hiwater == 0
    requires ch.isOpen && ch.isAscii && !ch.isRead
    ensures Writing(ch, [])
  {
  }

  lemma ReadyToClose(ch: Ccb, text: seq<byte>)
    requires Writing(ch, text) && RoundUp(|text| + 1) <= 128 * ch.bdos.capacity
    ensures ch.Coherent() && ch.isOpen && ch.isAscii && !ch.isRead && ch.offset == ch.hiwater == |text|
    ensures ch.CloseRoom() && ch.CloseAt() == |text| && text <= ch.View() && |ch.View()| <= RoundUp(|text| + 1)
  {
  }

  lemma EmittedNext(chunks: seq<seq<byte>>, i: nat, text: seq<byte>, all: seq<byte>)
    requires i < |chunks| && text + Emitted(chunks[i..]) == all
    ensures (text + Expand(0, chunks[i])) + Emitted(chunks[i + 1..]) == all
    ensures |text| + |Expand(0, chunks[i])| <= |all|
  {
    hide Expand;
    assert chunks[i..][1..] == chunks[i + 1..];
    Append(text, Expand(0, chunks[i]), Emitted(chunks[i + 1..]), Emitted(chunks[i..]), all);
  }

  lemma EmittedAll(chunks: seq<seq<byte>>, text: seq<byte>, all: seq<byte>)
    requires text + Emitted(chunks[|chunks|..]) == all
    ensures text == all
  {
  }

  /** A text channel that has only been read. */
  ghost predicate Reading(ch: Ccb, v: seq<byte>)
    reads ch, ch.buffer, ch.bdos
  {
    && ch.isOpen && ch.isAscii && ch.Labelled() && ch.View() == v
    && 0 <= ch.offset <= |v| <= 128 * ch.bdos.capacity
    && (ch.atEof ==> Seen(v[ch.offset..]) == [])
  }

  method ReadOne(ch: Ccb, ghost v: seq<byte>, n: nat) returns (got: seq<byte>)
    requires Reading(ch, v) && 0 < n
    modifies ch, ch.buffer, ch.bdos
    ensures Reading(ch, v) && 0 <= old(ch.offset) <= |v|
    ensures Seen(v[old(ch.offset)..]) == got + Seen(v[ch.offset..])
    ensures got == [] ==> Seen(v[ch.offset..]) == []
    ensures ch.bdos.currentUser == old(ch.bdos.currentUser)
  {
    hide Seen, Scan, Ccb.View;
    ScanTakes(v, ch.offset, n);
    var dst := new byte[n];
    var r := ch.Read(dst);
    got := if r <= 0 then [] else dst[..r];
  }

  /** Reads an open text file to its end; `size(i)` is how much the i-th read asks for. */
  method ReadToEnd(ch: Ccb, ghost v: seq<byte>, size: nat -> nat) returns (text: seq<byte>)
    requires Reading(ch, v) && (forall i :: 0 < size(i))
    modifies ch, ch.buffer, ch.bdos
    ensures 0 <= old(ch.offset) <= |v| && text == Seen(v[old(ch.offset)..])
    ensures ch.bdos.currentUser == old(ch.bdos.currentUser)
  {
    hide Seen, Ccb.View;
    ghost var all := Seen(v[ch.offset..]);
    text := [];
    var i, done := 0, false;
    while !done
      invariant Reading(ch, v) && ch.bdos.currentUser == old(ch.bdos.currentUser)
      invariant all == text + Seen(v[ch.offset..])
      invariant done ==> Seen(v[ch.offset..]) == []
      decreases |all| - |text|, !done
    {
      var got := ReadOne(ch, v, size(i));
      text := text + got;
      done := got == [];
      i := i + 1;
    }
  }

  /** Opens a text file and reads all of it. */
  method ReadFile(bdos: Bdos, user: nat, ghost chunks: seq<seq<byte>>, size: nat -> nat) returns (text: seq<byte>)
    requires TextFile(bdos.data, Emitted(chunks)) && |bdos.data| <= 128 * bdos.capacity
    requires forall i :: 0 < size(i)
    modifies bdos
    ensures text == Seen(Joined(chunks)) && bdos.currentUser == old(bdos.currentUser)
  {
    hide Emitted, Seen, RoundUp;
    WholeFile(bdos.data, Emitted(chunks));
    SeenFile(bdos.data, chunks);
    var ch := Ccb.Open(bdos, user, true, true, true);
    assert bdos.data[0..] == bdos.data;
    text := ReadToEnd(ch, bdos.data, size);
  }

  /** A text file written in any chunks and read back in any portions. */
  method RoundTrip(bdos: Bdos, user: nat, chunks: seq<seq<byte>>, size: nat -> nat) returns (text: seq<byte>)
    requires RoundUp(|Emitted(chunks)| + 1) <= 128 * bdos.capacity
    requires forall i :: 0 < size(i)
    modifies bdos
    ensures text == Seen(Joined(chunks)) && bdos.currentUser == old(bdos.currentUser)
  {
    hide TextFile;
    WriteText(bdos, user, chunks);
    WholeFile(bdos.data, Emitted(chunks));
    text := ReadFile(bdos, user, chunks, size);
  }

  /** The chunks of several sessions, one after the other. */
  function AllChunks(sessions: seq<seq<seq<byte>>>): seq<seq<byte>>
    decreases |sessions|
  {
    if sessions == [] then [] else AllChunks(sessions[..|sessions| - 1]) + sessions[|sessions| - 1]
  }

  lemma {:induction false} EmittedParts(a: seq<seq<byte>>, b: seq<seq<byte>>)
    ensures Emitted(a + b) == Emitted(a) + Emitted(b)
    decreases |a|
  {
    if a == [] {
      assert a + b == b && [] + Emitted(b) == Emitted(b);
    } else {
      hide Expand;
      EmittedParts(a[1..], b);
      assert (a + b)[0] == a[0] && (a + b)[1..] == a[1..] + b;
      Append(Expand(0, a[0]), Emitted(a[1..]), Emitted(b), Emitted(a[1..] + b), Emitted(a + b));
    }
  }

  /** Text without a ^Z has none when it is written either. */
  lemma {:induction false} NoEofExpanded(prev: byte, s: seq<byte>)
    requires 26 !in s
    ensures 26 !in Expand(prev, s)
    decreases |s|
  {
    if s == [] {
    } else {
      assert forall c :: c in s[1..] ==> c in s;
      NoEofExpanded(s[0], s[1..]);
    }
  }

  lemma {:induction false} NoEofEmitted(chunks: seq<seq<byte>>)
    requires forall c :: c in chunks ==> 26 !in c
    ensures 26 !in Emitted(chunks)
    decreases |chunks|
  {
    if chunks == [] {
    } else {
      hide Expand;
      assert chunks[0] in chunks && forall c :: c in chunks[1..] ==> c in chunks;
      NoEofExpanded(0, chunks[0]);
      NoEofEmitted(chunks[1..]);
    }
  }

  lemma {:induction false} NoEofJoined(chunks: seq<seq<byte>>)
    requires forall c :: c in chunks ==> 26 !in c
    ensures 26 !in Joined(chunks)
    decreases |chunks|
  {
    if chunks == [] {
    } else {
      assert chunks[0] in chunks && forall c :: c in chunks[1..] ==> c in chunks;
      NoEofJoined(chunks[1..]);
    }
  }

  /** A session more, and how much room there is for it. */
  lemma SessionNext(sessions: seq<seq<seq<byte>>>, i: nat)
    requires i < |sessions|
    ensures AllChunks(sessions[..i + 1]) == AllChunks(sessions[..i]) + sessions[i]
    ensures Emitted(AllChunks(sessions[..i + 1])) == Emitted(AllChunks(sessions[..i])) + Emitted(sessions[i])
  {
    assert sessions[..i + 1][..i] == sessions[..i];
    EmittedParts(AllChunks(sessions[..i]), sessions[i]);
  }

  lemma {:induction false} SessionsGrow(sessions: seq<seq<seq<byte>>>, i: nat)
    requires i <= |sessions|
    ensures |Emitted(AllChunks(sessions[..i]))| <= |Emitted(AllChunks(sessions))|
    ensures forall c :: c in AllChunks(sessions[..i]) ==> c in AllChunks(sessions)
    decreases |sessions| - i
  {
    hide Emitted, AllChunks;
    if i == |sessions| {
      assert sessions[..i] == sessions;
    } else {
      SessionNext(sessions, i);
      SessionsGrow(sessions, i + 1);
    }
  }

  /** A text written in any number of sessions, each but the first opening the file again
      and seeking to its end, is read back as one: all that was written, without CRs. */
  method Sessions(bdos: Bdos, user: nat, sessions: seq<seq<seq<byte>>>, size: nat -> nat) returns (text: seq<byte>)
    requires sessions != [] && forall c :: c in AllChunks(sessions) ==> 26 !in c
    requires RoundUp(|Emitted(AllChunks(sessions))| + 1) <= 128 * bdos.capacity
    requires forall i :: 0 < size(i)
    modifies bdos
    ensures text == Strip(Joined(AllChunks(sessions))) && bdos.currentUser == old(bdos.currentUser)
  {
    hide Emitted, AllChunks, TextFile, RoundUp, Strip, EndsClean;
    ghost var all := |Emitted(AllChunks(sessions))|;
    SessionsGrow(sessions, 1);
    RoundUpMonotone(|Emitted(AllChunks(sessions[..1]))| + 1, all + 1);
    SessionNext(sessions, 0);
    assert AllChunks(sessions[..1]) == sessions[0] by {
      FirstSession(sessions);
    }
    WriteText(bdos, user, sessions[0]);
    for i := 1 to |sessions|
      invariant TextFile(bdos.data, Emitted(AllChunks(sessions[..i]))) && bdos.currentUser == old(bdos.currentUser)
    {
      SessionNext(sessions, i);
      SessionsGrow(sessions, i);
      SessionsGrow(sessions, i + 1);
      NoEofEmitted(AllChunks(sessions[..i]));
      EndIsClean(Emitted(AllChunks(sessions[..i])));
      RoundUpMonotone(|Emitted(AllChunks(sessions[..i + 1]))| + 1, all + 1);
      AppendText(bdos, user, Emitted(AllChunks(sessions[..i])), sessions[i]);
    }
    assert sessions[..|sessions|] == sessions;
    WholeFile(bdos.data, Emitted(AllChunks(sessions)));
    text := ReadFile(bdos, user, AllChunks(sessions), size);
    NoEofJoined(AllChunks(sessions));
    NothingCut(Joined(AllChunks(sessions)));
  }

  lemma FirstSession(sessions: seq<seq<seq<byte>>>)
    requires sessions != []
    ensures AllChunks(sessions[..1]) == sessions[0]
  {
    assert sessions[..1][..0] == [];
    assert AllChunks([]) + sessions[0] == sessions[0];
  }

  lemma NothingCut(s: seq<byte>)
    requires 26 !in s
    ensures Seen(s) == Strip(s)
  {
    assert Cut(s) == s;
  }
}
