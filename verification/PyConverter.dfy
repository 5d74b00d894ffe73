/** The Python converter, from the ELF file to the program as it runs. */
module PyConverter {
  import opened Basics
  import opened Reloc
  import opened Image
  import opened ElfImage
  import opened LoadTime

  /** A recorded relocation lies in a long of the program that holds target and addend. */
  lemma LinkedField(e: Elf, i: nat)
    requires Convertible(e) && i < |e.relas| && Kept(e.relas[i])
    ensures var r := e.relas[i];
      && r.address + 4 <= Low(e) <= |Linked(e)|
      && Get32(Linked(e), r.address) == r.target + r.addend
  {
    LowLimit(e);
    var r, text, data := e.relas[i], TextOf(e), DataOf(e);
    FieldIsThere(r, text, data, BssSize(e));
    assert Linked(e)[0..|text|] == text && Linked(e)[|text|..|text| + |data|] == data;
    hide Get32, Consider, Linked, TextOf, DataOf;
    if r.address < |text| {
      Get32Part(Linked(e), text, 0, r.address);
    } else {
      Get32Part(Linked(e), data, |text|, r.address - |text|);
    }
  }

  lemma FieldIsThere(r: Rela, text: seq<byte>, data: seq<byte>, bssSize: nat)
    requires Kept(r) && Consider(r, text, data, bssSize).Ok?
    ensures r.address + 4 <= |text| + |data| && (r.address < |text| ==> r.address + 4 <= |text|)
    ensures r.target + r.addend ==
      if r.address < |text| then Get32(text, r.address) else Get32(data, r.address - |text|)
  {
    hide Get32, Classify;
  }

  /** Relocations that a table can hold: of longs at even addresses and apart, and, if
      there are any, in a program whose code ends at an even address. */
  predicate Survives(e: Elf) {
    KeptAt(e.relas) == {} ||
    (Low(e) % 2 == 0 && forall k :: k in KeptAt(e.relas) ==> k % 2 == 0 && k + 2 !in KeptAt(e.relas))
  }

  function PyImage(e: Elf): Image {
    ImageOf(LoadedOf(e))
  }

  lemma PyImageIs(e: Elf)
    requires Convertible(e)
    ensures PyImage(e).relocs.Keys == KeptAt(e.relas) && InBounds(PyImage(e).relocs, CodeSize(PyImage(e)))
    ensures CodeSize(PyImage(e)) == Low(e) && Memory(PyImage(e)) == Linked(e)
    ensures forall o :: o in PyImage(e).relocs ==> PyImage(e).relocs[o].wide
  {
    RecordedAt(e.relas, TextOf(e), DataOf(e), BssSize(e));
    forall k | k in KeptAt(e.relas) ensures k + 4 <= Low(e) {
      var i :| 0 <= i < |e.relas| && Kept(e.relas[i]) && e.relas[i].address == k;
      LinkedField(e, i);
    }
  }

  lemma SurvivesMeans(e: Elf)
    requires Convertible(e)
    ensures Survives(e) <==>
      PyImage(e).relocs == map[] || WellFormed(PyImage(e).relocs, CodeSize(PyImage(e)))
  {
    PyImageIs(e);
    hide PyImage, Convertible, KeptAt, Low;
    LongsFit(PyImage(e).relocs, Low(e));
  }

  /** Longs inside the code are well formed if and only if they are even and apart, and
      so is the size. */
  lemma LongsFit(relocs: Places, size: nat)
    requires InBounds(relocs, size) && forall o :: o in relocs ==> relocs[o].wide
    ensures relocs == map[] <==> relocs.Keys == {}
    ensures WellFormed(relocs, size) <==>
      size % 2 == 0 && forall k :: k in relocs.Keys ==> k % 2 == 0 && k + 2 !in relocs.Keys
  {
  }

  /** The file, launched at `base`, is the program as it is wanted there. */
  ghost predicate RunsAt(file: seq<byte>, e: Elf, base: nat) {
    Runs(file, Linked(e), KeptAt(e.relas), base)
  }

  /** With a table that holds the relocations the program runs at every base. */
  lemma SurvivorRuns(file: seq<byte>, e: Elf, base: nat)
    requires Convertible(e) && Load(file) == Ok(PyImage(e))
    ensures RunsAt(file, e, base)
  {
    PyImageIs(e);
    PyImageOf(e);
    hide Load, Runs, Linked, Convertible, PyImage, KeptAt, Memory;
    RunsByTable(file, PyImage(e), KeptAt(e.relas), base);
  }

  /** Otherwise it fails, at least at every base that is a multiple of 64K: then all the
      longs would have to be in the table, and they cannot. */
  lemma OthersDoNot(file: seq<byte>, e: Elf, base: nat)
    requires Convertible(e) && HighOnly(base) && RunsAt(file, e, base) && Load(file).Ok?
    requires Load(file).value == PyImage(e).(relocs := Load(file).value.relocs)
    ensures Survives(e)
  {
    hide Load, Runs, Linked, Convertible, PyImage, KeptAt, Memory, HighOnly, Low, Survives;
    PyImageIs(e);
    PyImageOf(e);
    TableOf(file, e);
    forall k | k in KeptAt(e.relas) ensures k in Load(file).value.relocs && Load(file).value.relocs[k].wide {
      RunsOnlyBy(file, PyImage(e), KeptAt(e.relas), base, k);
    }
    AllInTable(e, Load(file).value.relocs);
  }

  lemma TableOf(file: seq<byte>, e: Elf)
    requires Convertible(e) && Load(file).Ok?
    requires Load(file).value == PyImage(e).(relocs := Load(file).value.relocs)
    ensures var places := Load(file).value.relocs; places == map[] || WellFormed(places, Low(e))
  {
    hide Load, Convertible, PyImage, KeptAt, Low, WellFormed, InBounds, Linked;
    PyImageIs(e);
    LoadIsWellFormed(file);
    assert CodeSize(Load(file).value) == CodeSize(PyImage(e));
  }

  lemma AllInTable(e: Elf, places: Places)
    requires places == map[] || WellFormed(places, Low(e))
    requires forall k :: k in KeptAt(e.relas) ==> k in places && places[k].wide
    ensures Survives(e)
  {
    hide KeptAt, Low;
  }

  /** The converter. Whether it runs depends on the ELF file; whether the result does, on
      `Survives`. */
  method Convert(e: Elf) returns (file: Outcome<seq<byte>>)
    ensures file.Ok? <==> Convertible(e) && FitsHeader(PyImage(e))
    ensures file.Ok? ==> (Load(file.value) == Ok(PyImage(e)) <==> Survives(e))
    ensures file.Ok? && Survives(e) ==> forall base: nat :: RunsAt(file.value, e, base)
    ensures file.Ok? && !Survives(e) ==> forall base: nat :: HighOnly(base) ==> !RunsAt(file.value, e, base)
  {
    hide Load, Launch, Relocate, Linked, Convertible, Survives, PyImage, RunsAt, HighOnly, FitsHeader, PackAll, Body;
    var l := LoadElf(e);
    if l.Error? {
      return Error(l.why);
    }
    assert ImageOf(l.value) == PyImage(e) by {
      PyImageOf(e);
    }
    PyImageIs(e);
    SurvivesMeans(e);
    ghost var order;
    file, order := Save(ImageOf(l.value));
    if file.Ok? {
      SavedLoads(PyImage(e), order, file.value);
      if Survives(e) {
        forall base: nat ensures RunsAt(file.value, e, base) {
          SurvivorRuns(file.value, e, base);
        }
      } else {
        forall base: nat | HighOnly(base) ensures !RunsAt(file.value, e, base) {
          NotRuns(file.value, e, base);
        }
      }
    }
  }

  lemma PyImageOf(e: Elf)
    ensures PyImage(e) == ImageOf(LoadedOf(e))
    ensures PyImage(e).textAddress == 0
  {
  }

  lemma NotRuns(file: seq<byte>, e: Elf, base: nat)
    requires Convertible(e) && HighOnly(base) && !Survives(e)
    requires Load(file).Ok? ==> Load(file).value == PyImage(e).(relocs := Load(file).value.relocs)
    ensures !RunsAt(file, e, base)
  {
    hide Load, Convertible, Survives, PyImage, HighOnly, Moved;
    if RunsAt(file, e, base) {
      assert Load(file).Ok?;
      OthersDoNot(file, e, base);
    }
  }
}
