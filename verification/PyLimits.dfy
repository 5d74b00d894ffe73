/** Programs that the Python converter accepts and does not convert. */
module PyLimits {
  import opened Basics
  import opened Sectors
  import opened Reloc
  import opened Image
  import opened ElfImage
  import opened LoadTime
  import opened PyConverter

  /** A program of `size` zeros, all of it text, with pointers to its start at the
      addresses `at`, through an undefined weak symbol or not. */
  function ZeroProgram(size: nat, at: seq<nat>, weak: bool): Elf {
    Elf(true, true, 2, Segment(true, PF_RX, 0, Zeros(size), size), Segment(true, PF_RW, size, [], 0), [],
        seq(|at|, i requires 0 <= i < |at| => Rela(at[i], R_68K_32, true, true, 0, weak, 0)))
  }

  lemma ZeroProgramConverts(size: nat, at: seq<nat>, weak: bool)
    requires forall a :: a in at ==> a + 4 <= size
    ensures var e := ZeroProgram(size, at, weak);
      && Convertible(e) && Low(e) == size && Linked(e) == Zeros(size)
      && forall a :: a in KeptAt(e.relas) <==> a in at
  {
    var e := ZeroProgram(size, at, weak);
    assert TextOf(e) == Zeros(size) && DataOf(e) == [] && BssSize(e) == 0;
    forall i | 0 <= i < |e.relas| ensures Consider(e.relas[i], TextOf(e), DataOf(e), BssSize(e)).Ok? {
      assert at[i] in at;
    }
    forall a | a in at ensures a in KeptAt(e.relas) {
      var i :| 0 <= i < |at| && at[i] == a;
      assert e.relas[i].address == a;
    }
  }

  /** All of them are accepted; only those are converted whose pointers are at even
      addresses and apart, and whose size is even if there are any. */
  lemma WhichSurvive(size: nat, at: seq<nat>)
    requires forall a :: a in at ==> a + 4 <= size
    ensures Convertible(ZeroProgram(size, at, false))
    ensures Survives(ZeroProgram(size, at, false)) <==>
      at == [] || (size % 2 == 0 && forall a :: a in at ==> a % 2 == 0 && a + 2 !in at)
  {
    ZeroProgramConverts(size, at, false);
    var e := ZeroProgram(size, at, false);
    hide Convertible, KeptAt, Low, ZeroProgram, Linked;
    if at == [] {
      assert KeptAt(e.relas) == {};
    } else {
      assert at[0] in at;
    }
  }

  /** A pointer at an odd address, two pointers two bytes apart, and a pointer in a program
      of odd size are accepted and lost. */
  lemma NoSurvivors()
    ensures Convertible(ZeroProgram(6, [1], false)) && !Survives(ZeroProgram(6, [1], false))
    ensures Convertible(ZeroProgram(8, [2, 0], false)) && !Survives(ZeroProgram(8, [2, 0], false))
    ensures Convertible(ZeroProgram(5, [0], false)) && !Survives(ZeroProgram(5, [0], false))
  {
    hide Convertible, Survives, ZeroProgram;
    WhichSurvive(6, [1]);
    WhichSurvive(8, [2, 0]);
    WhichSurvive(5, [0]);
    assert 1 in [1] && 0 in [2, 0] && 2 in [2, 0];
  }

  const PAIR: Places := map[0 := Place(Text, true), 2 := Place(Text, true)]

  const LUCKY: Places := map[0 := Place(Text, true), 4 := Place(Text, false)]

  /** The table of two pointers two bytes apart, the second packed first: a long and a
      word. */
  lemma LuckyTable()
    ensures PackAll(PAIR, 8, [2, 0]) == [0, 5, 0, 2, 0, 2, 0, 0]
    ensures Legal(PackAll(PAIR, 8, [2, 0])) && Decoded(PackAll(PAIR, 8, [2, 0])) == LUCKY
  {
    assert [2, 0][..1] == [2] && [2][..0] == [];
    assert PackAll(PAIR, 8, []) == Zeros(8);
    assert PackAll(PAIR, 8, [2]) == [0, 0, 0, 5, 0, 2, 0, 0];
    assert PackAll(PAIR, 8, [2, 0]) == [0, 5, 0, 2, 0, 2, 0, 0];
    LuckyMeans(PackAll(PAIR, 8, [2, 0]));
  }

  lemma LuckyMeans(table: seq<byte>)
    requires table == [0, 5, 0, 2, 0, 2, 0, 0]
    ensures Legal(table) && Decoded(table) == LUCKY
  {
    assert Tag(table, 0) == 5 && Tag(table, 2) == 2 && Tag(table, 4) == 2 && Tag(table, 6) == 0;
    hide Tag;
    forall o: nat ensures WideAt(table, o) <==> o == 0 {
    }
    forall o: nat ensures NarrowAt(table, o) <==> o == 4 {
    }
  }

  lemma LuckyFields()
    ensures MovedField(Zeros(8), LUCKY[0], 0, Uniform(0x2_0002)) == [0, 2, 0, 2]
    ensures MovedField(Zeros(8), LUCKY[4], 4, Uniform(0x2_0002)) == [0, 2]
  {
    NothingThere();
    PutTwo();
    hide Get32, Get16, Put32, Put16;
    assert LUCKY[0] == Place(Text, true) && LUCKY[4] == Place(Text, false);
    assert (0 + 0x2_0002) % WORD32 == 0x2_0002 && (0 + 0x2_0002) % WORD16 == 2;
  }

  lemma NothingThere()
    ensures Get32(Zeros(8), 0) == 0 && Get32(Zeros(8), 2) == 0 && Get16(Zeros(8), 4) == 0
  {
    assert Get16(Zeros(8), 0) == Get16(Zeros(8), 2) == Get16(Zeros(8), 4) == 0;
    hide Get16;
  }

  lemma PutTwo()
    ensures Put32(0x2_0002) == [0, 2, 0, 2] && Put16(2) == [0, 2]
  {
    assert Put16(2) == [0, 2];
    hide Put16;
    assert 0x2_0002 / 0x1_0000 == 2 && 0x2_0002 % 0x1_0000 == 2;
    assert [0, 2] + [0, 2] == [0, 2, 0, 2];
  }

  lemma LuckyOwners(p: nat)
    ensures Owner(LUCKY, p) == if p < 4 then 0 else if p < 6 then 4 else -1
  {
  }

  /** Moving that long and that word by this much moves both pointers. */
  lemma LuckyMove()
    ensures Apart(LUCKY, 8)
    ensures Moved(Relocate(Zeros(8), LUCKY, Uniform(0x2_0002)), Zeros(8), {0, 2}, 0x2_0002)
  {
    hide MovedField, Owner, Moved;
    LuckyFields();
    var mem := Relocate(Zeros(8), LUCKY, Uniform(0x2_0002));
    var want: seq<byte> := [0, 2, 0, 2, 0, 2, 0, 0];
    forall p | 0 <= p < 8 ensures mem[p] == want[p] {
      LuckyOwners(p);
    }
    assert mem == want;
    LuckyBytes(mem);
  }

  lemma LuckyBytes(mem: seq<byte>)
    requires mem == [0, 2, 0, 2, 0, 2, 0, 0]
    ensures Moved(mem, Zeros(8), {0, 2}, 0x2_0002)
  {
    hide Get32, Moved;
    NothingThere();
    LongsOf(mem);
    assert (0 + 0x2_0002) % WORD32 == 0x2_0002;
    MovedPair(mem, Zeros(8), 0x2_0002);
  }

  lemma MovedPair(mem: seq<byte>, orig: seq<byte>, base: nat)
    requires |mem| == |orig| == 8 && mem[6] == orig[6] && mem[7] == orig[7]
    requires Get32(mem, 0) == (Get32(orig, 0) + base) % WORD32
    requires Get32(mem, 2) == (Get32(orig, 2) + base) % WORD32
    ensures Moved(mem, orig, {0, 2}, base)
  {
    hide Get32;
    forall p | 0 <= p < 8 && Outside(p, {0, 2}) ensures p == 6 || p == 7 {
      assert 0 in {0, 2} && 2 in {0, 2};
    }
  }

  lemma LongsOf(mem: seq<byte>)
    requires mem == [0, 2, 0, 2, 0, 2, 0, 0]
    ensures Get32(mem, 0) == Get32(mem, 2) == 0x2_0002
  {
    assert Get16(mem, 0) == Get16(mem, 2) == Get16(mem, 4) == 2;
    hide Get16;
  }

  lemma LuckyImage()
    ensures PyImage(ZeroProgram(8, [2, 0], false)) == Image(Zeros(8), 0, [], 0, PAIR)
  {
    var e := ZeroProgram(8, [2, 0], false);
    assert TextOf(e) == Zeros(8) && DataOf(e) == [] && BssSize(e) == 0;
    assert e.relas[..1][..0] == [] && e.relas[..2] == e.relas && e.relas[..2][..1] == e.relas[..1];
    assert Recorded(e.relas[..1], 8, 0, 0) == map[2 := Text];
    assert Recorded(e.relas, 8, 0, 0) == map[2 := Text, 0 := Text];
  }

  /** What is lost need not show at every base: at this one the words that are moved
      happen to be right. */
  lemma RunsByLuck()
    ensures var e, img := ZeroProgram(8, [2, 0], false), PyImage(ZeroProgram(8, [2, 0], false));
      && Convertible(e) && !Survives(e) && FitsHeader(img) && img.relocs == PAIR && Walks([2, 0], PAIR)
      && RunsAt(Body(img) + PackAll(PAIR, 8, [2, 0]), e, 0x2_0002)
  {
    hide Convertible, PyImage, Load, Body, Survives, ZeroProgram, KeptAt, Low, Linked, Relocate, Legal, Decoded, Apart;
    hide PackAll, Moved, Launch;
    NoSurvivors();
    ZeroProgramConverts(8, [2, 0], false);
    LuckyImage();
    LuckyTable();
    LuckyMove();
    var e, table := ZeroProgram(8, [2, 0], false), PackAll(PAIR, 8, [2, 0]);
    var img := PyImage(e);
    assert Walks([2, 0], PAIR);
    assert KeptAt(e.relas) == {0, 2};
    assert table[..8] == table;
    LoadBody(img, table);
    Launched(Body(img) + table, img, 0x2_0002);
    assert Memory(img) == Zeros(8);
  }
}
