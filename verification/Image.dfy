/** A CP/M-68K command file: a header, the text, the data and, if anything is to be
    relocated, a relocation table. */
module Image {
  import opened Basics
  import opened Reloc

  const CONTIG: nat := 0x601a
  const NONCONTIG: nat := 0x601b
  const NO_RELOCS: nat := 0xffff
  const WITH_RELOCS: nat := 0

  datatype Image = Image(text: seq<byte>, textAddress: nat, data: seq<byte>, bssSize: nat, relocs: Places)

  /** Big-endian fields. */
  function Put16(n: nat): (b: seq<byte>)
    requires n < 0x1_0000
    ensures |b| == 2 && Get16(b, 0) == n
  {
    [n / 256, n % 256]
  }

  function Put32(n: nat): (b: seq<byte>)
    requires n < 0x1_0000_0000
    ensures |b| == 4 && Get32(b, 0) == n
  {
    Put16(n / 0x1_0000) + Put16(n % 0x1_0000)
  }

  function Get16(b: seq<byte>, o: nat): (n: nat)
    requires o + 2 <= |b|
    ensures n < 0x1_0000
  {
    256 * (b[o] as int) + b[o + 1]
  }

  function Get32(b: seq<byte>, o: nat): (n: nat)
    requires o + 4 <= |b|
    ensures n < 0x1_0000_0000
  {
    Get16(b, o) * 0x1_0000 + Get16(b, o + 2)
  }

  /** The highest byte comes first. */
  lemma LongInBytes(n: nat)
    requires n < 0x1_0000_0000
    ensures var b := Put32(n);
      n == (b[0] as int) * 0x100_0000 + (b[1] as int) * 0x1_0000 + (b[2] as int) * 256 + b[3] as int
  {
    assert Put32(n) == Put16(n / 0x1_0000) + Put16(n % 0x1_0000);
  }

  lemma Get32Shift(b: seq<byte>, o: nat, k: nat)
    requires o + k + 4 <= |b|
    ensures Get32(b, o + k) == Get32(b[o..], k)
    ensures Get32(b, o + k) == Get32(b[o..o + k + 4], k)
  {
  }

  /** A long inside one part of a whole. */
  lemma Get32Part(whole: seq<byte>, part: seq<byte>, at: nat, o: nat)
    requires at + |part| <= |whole| && whole[at..at + |part|] == part && o + 4 <= |part|
    ensures Get32(whole, at + o) == Get32(part, o)
  {
    assert part[o] == whole[at + o] && part[o + 1] == whole[at + o + 1];
    assert part[o + 2] == whole[at + o + 2] && part[o + 3] == whole[at + o + 3];
  }

  /** The fields that both kinds of header start with. */
  function Fields(magic: nat, textSize: nat, dataSize: nat, bssSize: nat, symbols: nat, reserved: nat, address: nat,
                  flag: nat): (h: seq<byte>)
    requires magic < 0x1_0000 && textSize < 0x1_0000_0000 && dataSize < 0x1_0000_0000 && bssSize < 0x1_0000_0000
    requires symbols < 0x1_0000_0000 && reserved < 0x1_0000_0000 && address < 0x1_0000_0000 && flag < 0x1_0000
    ensures |h| == 28
  {
    Put16(magic) + Put32(textSize) + Put32(dataSize) + Put32(bssSize) + Put32(symbols) + Put32(reserved)
    + Put32(address) + Put16(flag)
  }

  /** The fields a loader finds in a header, whatever comes after it. */
  lemma FieldsAre(magic: nat, textSize: nat, dataSize: nat, bssSize: nat, symbols: nat, reserved: nat, address: nat,
                  flag: nat, rest: seq<byte>)
    requires magic < 0x1_0000 && textSize < 0x1_0000_0000 && dataSize < 0x1_0000_0000 && bssSize < 0x1_0000_0000
    requires symbols < 0x1_0000_0000 && reserved < 0x1_0000_0000 && address < 0x1_0000_0000 && flag < 0x1_0000
    ensures var b := Fields(magic, textSize, dataSize, bssSize, symbols, reserved, address, flag) + rest;
      && Get16(b, 0) == magic && Get32(b, 2) == textSize && Get32(b, 6) == dataSize && Get32(b, 10) == bssSize
      && Get32(b, 14) == symbols && Get32(b, 18) == reserved && Get32(b, 22) == address && Get16(b, 26) == flag
      && b[28..] == rest
  {
  }

  /** The 28-byte header of a contiguous file without symbols. */
  function Header(textSize: nat, dataSize: nat, bssSize: nat, textAddress: nat, flag: nat): (h: seq<byte>)
    requires textSize < 0x1_0000_0000 && dataSize < 0x1_0000_0000 && bssSize < 0x1_0000_0000
    requires textAddress < 0x1_0000_0000 && flag < 0x1_0000
    ensures |h| == 28
  {
    Fields(CONTIG, textSize, dataSize, bssSize, 0, 0, textAddress, flag)
  }

  function Decode(table: seq<byte>): Outcome<Places> {
    if Legal(table) then Ok(Decoded(table)) else Error("relocation table")
  }

  /** Parses a command file. The symbols are passed over. */
  function Load(b: seq<byte>): Outcome<Image> {
    if |b| < 2 then Error("no header") else
    if Get16(b, 0) != CONTIG && Get16(b, 0) != NONCONTIG then Error("invalid header magic") else
    var headerSize := if Get16(b, 0) == CONTIG then 28 else 36;
    if |b| < headerSize then Error("short header") else
    var textEnd := headerSize + Get32(b, 2);
    var dataEnd := textEnd + Get32(b, 6);
    var symtabEnd := dataEnd + Get32(b, 14);
    var relocEnd := if Get16(b, 26) == WITH_RELOCS then symtabEnd + (dataEnd - headerSize) else symtabEnd;
    if relocEnd > |b| then Error("header / file size mismatch") else
    var image := Image(b[headerSize..textEnd], Get32(b, 22), b[textEnd..dataEnd], Get32(b, 10), map[]);
    if Get16(b, 26) != WITH_RELOCS then Ok(image) else
    if image.textAddress > 0 then Error("relocatable file but text address != 0") else
    var decoded := Decode(b[symtabEnd..relocEnd]);
    if decoded.Error? then Error(decoded.why) else Ok(image.(relocs := decoded.value))
  }

  /** Whatever file is loaded, its relocations are well formed. */
  lemma LoadIsWellFormed(b: seq<byte>)
    ensures Load(b).Ok? ==>
      Load(b).value.relocs == map[] || WellFormed(Load(b).value.relocs, CodeSize(Load(b).value))
  {
    hide Legal, Decoded, WellFormed, Get16, Get32;
    if Load(b).Ok? && Get16(b, 26) == WITH_RELOCS {
      var headerSize := if Get16(b, 0) == CONTIG then 28 else 36;
      var dataEnd := headerSize + Get32(b, 2) + Get32(b, 6);
      var symtabEnd := dataEnd + Get32(b, 14);
      DecodedIsWellFormed(b[symtabEnd..symtabEnd + (dataEnd - headerSize)]);
    }
  }

  /** What the fields and the parts of a file make of it. */
  lemma LoadByParts(b: seq<byte>, text: seq<byte>, data: seq<byte>, symbols: nat, rest: seq<byte>)
    requires |b| >= 28 && (Get16(b, 0) == 0x601a || Get16(b, 0) == 0x601b)
    requires Get32(b, 2) == |text| && Get32(b, 6) == |data| && Get32(b, 14) == symbols
    requires var i := if Get16(b, 0) == 0x601a then 28 else 36;
      var j := i + |text| + |data| + symbols;
      && |b| == j + |rest| && b[i..i + |text|] == text && b[i + |text|..i + |text| + |data|] == data
      && forall n :: 0 <= n <= |rest| ==> b[j..j + n] == rest[..n]
    ensures var size, address := |text| + |data|, Get32(b, 22);
      var image := Image(text, address, data, Get32(b, 10), map[]);
      && (Get16(b, 26) != 0 ==> Load(b) == Ok(image))
      && (Get16(b, 26) == 0 ==>
            && (Load(b).Ok? <==> size <= |rest| && address == 0 && Legal(rest[..size]))
            && (size <= |rest| && address == 0 && !Legal(rest[..size]) ==> Load(b) == Error("relocation table"))
            && (Load(b).Ok? ==> Load(b).value == image.(relocs := Decoded(rest[..size]))))
  {
    hide Legal, Decoded, Get16, Get32;
  }

  /** A file put together from any parts loads as those parts: the symbols are passed
      over, the extra fields of the other kind of header too, and there is a table if and
      only if the flag is 0. */
  lemma LoadOfParts(magic: nat, text: seq<byte>, data: seq<byte>, symbols: seq<byte>, bssSize: nat, reserved: nat,
                    address: nat, flag: nat, extra: seq<byte>, rest: seq<byte>)
    requires |text| < 0x1_0000_0000 && |data| < 0x1_0000_0000 && |symbols| < 0x1_0000_0000 && bssSize < 0x1_0000_0000
    requires reserved < 0x1_0000_0000 && address < 0x1_0000_0000 && flag < 0x1_0000
    requires (magic == 0x601a && |extra| == 0) || (magic == 0x601b && |extra| == 8)
    ensures var size := |text| + |data|;
      var b := Put16(magic) + Put32(|text|) + Put32(|data|) + Put32(bssSize) + Put32(|symbols|) + Put32(reserved)
        + Put32(address) + Put16(flag) + (extra + text + data + symbols + rest);
      && (flag != 0 ==> Load(b) == Ok(Image(text, address, data, bssSize, map[])))
      && (flag == 0 ==>
            && (Load(b).Ok? <==> size <= |rest| && address == 0 && Legal(rest[..size]))
            && (size <= |rest| && address == 0 && !Legal(rest[..size]) ==> Load(b) == Error("relocation table"))
            && (Load(b).Ok? ==> Load(b).value == Image(text, address, data, bssSize, Decoded(rest[..size]))))
  {
    hide Legal, Decoded, Get16, Get32, Put16, Put32, Load;
    var h := Fields(magic, |text|, |data|, bssSize, |symbols|, reserved, address, flag);
    FieldsAre(magic, |text|, |data|, bssSize, |symbols|, reserved, address, flag, extra + text + data + symbols + rest);
    PartsAre(h, extra, text, data, symbols, rest);
    LoadByParts(h + (extra + text + data + symbols + rest), text, data, |symbols|, rest);
  }

  lemma PartsAre(head: seq<byte>, extra: seq<byte>, text: seq<byte>, data: seq<byte>, symbols: seq<byte>,
                 rest: seq<byte>)
    ensures var b := head + (extra + text + data + symbols + rest);
      var i := |head| + |extra|;
      var j := i + |text| + |data| + |symbols|;
      && |b| == j + |rest| && b[i..i + |text|] == text && b[i + |text|..i + |text| + |data|] == data
      && b[j..] == rest
      && forall n :: 0 <= n <= |rest| ==> b[j..j + n] == rest[..n]
  {
  }

  /** And every file that loads is put together like that. */
  lemma LoadedHasParts(b: seq<byte>)
    returns (magic: nat, symbols: seq<byte>, reserved: nat, flag: nat, extra: seq<byte>, rest: seq<byte>)
    requires Load(b).Ok?
    ensures (magic == 0x601a && |extra| == 0) || (magic == 0x601b && |extra| == 8)
    ensures var img := Load(b).value;
      && |img.text| < 0x1_0000_0000 && |img.data| < 0x1_0000_0000 && |symbols| < 0x1_0000_0000
      && img.bssSize < 0x1_0000_0000 && reserved < 0x1_0000_0000 && img.textAddress < 0x1_0000_0000 && flag < 0x1_0000
      && b == Put16(magic) + Put32(|img.text|) + Put32(|img.data|) + Put32(img.bssSize) + Put32(|symbols|)
              + Put32(reserved) + Put32(img.textAddress) + Put16(flag)
              + (extra + img.text + img.data + symbols + rest)
  {
    hide Legal, Decoded, Get16, Get32, Put16, Put32, Load;
    var img := Load(b).value;
    LoadedSizes(b);
    magic, reserved, flag := Get16(b, 0), Get32(b, 18), Get16(b, 26);
    var i := if magic == 0x601a then 28 else 36;
    var j := i + |img.text|;
    var k := j + |img.data|;
    var l := k + Get32(b, 14);
    extra, symbols, rest := b[28..i], b[k..l], b[l..];
    CutInParts(b, i, j, k, l);
    HeaderParts(b);
  }

  lemma LoadedSizes(b: seq<byte>)
    requires Load(b).Ok?
    ensures |b| >= 28 && (Get16(b, 0) == 0x601a || Get16(b, 0) == 0x601b)
    ensures var img, i := Load(b).value, if Get16(b, 0) == 0x601a then 28 else 36;
      && |img.text| == Get32(b, 2) && |img.data| == Get32(b, 6)
      && img.bssSize == Get32(b, 10) && img.textAddress == Get32(b, 22)
      && i + |img.text| + |img.data| + Get32(b, 14) <= |b|
      && img.text == b[i..i + |img.text|] && img.data == b[i + |img.text|..i + |img.text| + |img.data|]
  {
    hide Legal, Decoded, Get16, Get32;
  }

  lemma CutInParts(b: seq<byte>, i: nat, j: nat, k: nat, l: nat)
    requires 28 <= i <= j <= k <= l <= |b|
    ensures b == b[..28] + (b[28..i] + b[i..j] + b[j..k] + b[k..l] + b[l..])
  {
    assert b[28..] == b[28..i] + b[i..j] + b[j..k] + b[k..l] + b[l..];
  }

  lemma HeaderParts(b: seq<byte>)
    requires |b| >= 28
    ensures b[..28] == Put16(Get16(b, 0)) + Put32(Get32(b, 2)) + Put32(Get32(b, 6)) + Put32(Get32(b, 10))
      + Put32(Get32(b, 14)) + Put32(Get32(b, 18)) + Put32(Get32(b, 22)) + Put16(Get16(b, 26))
  {
    hide *;
    WordIs(b, 0);
    LongIs(b, 2);
    LongIs(b, 6);
    LongIs(b, 10);
    LongIs(b, 14);
    LongIs(b, 18);
    LongIs(b, 22);
    WordIs(b, 26);
    assert b[..28] == b[0..2] + b[2..6] + b[6..10] + b[10..14] + b[14..18] + b[18..22] + b[22..26] + b[26..28];
  }

  lemma WordIs(b: seq<byte>, o: nat)
    requires o + 2 <= |b|
    ensures Put16(Get16(b, o)) == b[o..o + 2]
  {
  }

  lemma LongIs(b: seq<byte>, o: nat)
    requires o + 4 <= |b|
    ensures Put32(Get32(b, o)) == b[o..o + 4]
  {
    WordIs(b, o);
    WordIs(b, o + 2);
    hide Get16, Put16;
  }

  function CodeSize(img: Image): nat {
    |img.text| + |img.data|
  }

  /** The sizes and the address fit the header's fields. */
  predicate FitsHeader(img: Image) {
    && |img.text| < 0x1_0000_0000 && |img.data| < 0x1_0000_0000
    && img.bssSize < 0x1_0000_0000 && img.textAddress < 0x1_0000_0000
  }

  /** The bytes of a file, the table apart. */
  function Body(img: Image): seq<byte>
    requires FitsHeader(img)
  {
    Header(|img.text|, |img.data|, img.bssSize, img.textAddress, if img.relocs == map[] then NO_RELOCS else WITH_RELOCS)
    + img.text + img.data
  }

  /** Writes a command file; `order` is the order in which the map is walked. */
  method Save(img: Image) returns (r: Outcome<seq<byte>>, ghost order: seq<nat>)
    ensures r.Ok? <==> Savable(img)
    ensures r.Ok? <==>
      && |img.text| < 0x1_0000_0000 && |img.data| < 0x1_0000_0000
      && img.bssSize < 0x1_0000_0000 && img.textAddress < 0x1_0000_0000
      && (img.relocs == map[] || img.textAddress == 0)
      && forall o :: o in img.relocs ==> o + (if img.relocs[o].wide then 4 else 2) <= |img.text| + |img.data|
    ensures r.Ok? && img.relocs == map[] ==> r.value == Body(img)
    ensures r.Ok? && img.relocs != map[] ==>
      Walks(order, img.relocs) && r.value == Body(img) + PackAll(img.relocs, CodeSize(img), order)
    ensures r.Ok? && img.relocs != map[] && WellFormed(img.relocs, CodeSize(img)) ==>
      r.value == Body(img) + Encoded(img.relocs, CodeSize(img))
    ensures r.Ok? ==>
      && 28 + |img.text| + |img.data| <= |r.value| && r.value[28..28 + |img.text| + |img.data|] == img.text + img.data
      && r.value[..28] == Put16(0x601a) + Put32(|img.text|) + Put32(|img.data|) + Put32(img.bssSize) + Put32(0)
                          + Put32(0) + Put32(img.textAddress) + Put16(if img.relocs == map[] then 0xffff else 0)
  {
    hide Put16, Put32, PackAll, Walks, WellFormed;
    order := [];
    if img.relocs != map[] && img.textAddress != 0 {
      return Error("cannot write relocatable file with text address != 0"), order;
    }
    if !FitsHeader(img) {
      return Error("header field"), order;
    }
    var out := Body(img);
    if img.relocs != map[] {
      var table;
      table, order := EncodeRelocs(img.relocs, CodeSize(img));
      if table.Error? {
        return Error(table.why), order;
      }
      out := out + table.value;
    }
    r := Ok(out);
  }

  /** The images that can be written. */
  predicate Savable(img: Image) {
    FitsHeader(img) && (img.relocs == map[] || (img.textAddress == 0 && InBounds(img.relocs, CodeSize(img))))
  }

  /** Loading a file with anything in place of the table for `img`: what follows the
      table is not looked at. */
  lemma LoadBody(img: Image, table: seq<byte>)
    requires FitsHeader(img) && (img.relocs != map[] ==> img.textAddress == 0 && |table| >= CodeSize(img))
    ensures Load(Body(img) + table) ==
      if img.relocs == map[] then Ok(img)
      else if Legal(table[..CodeSize(img)]) then Ok(img.(relocs := Decoded(table[..CodeSize(img)])))
      else Error("relocation table")
  {
    hide Legal, Decoded, Load, Put16, Put32;
    var flag := if img.relocs == map[] then NO_RELOCS else WITH_RELOCS;
    LoadOfParts(CONTIG, img.text, img.data, [], img.bssSize, 0, img.textAddress, flag, [], table);
    var none: seq<byte> := [];
    assert none + img.text + img.data + none + table == img.text + img.data + table;
    var h := Header(|img.text|, |img.data|, img.bssSize, img.textAddress, flag);
    assert Body(img) + table == h + (img.text + img.data + table);
  }

  /** The images that a file can hold. */
  predicate Storable(img: Image) {
    FitsHeader(img) && (img.relocs == map[] || (img.textAddress == 0 && WellFormed(img.relocs, CodeSize(img))))
  }

  /** What a saved file loads as: the image, if and only if it is storable. */
  lemma SavedLoads(img: Image, order: seq<nat>, file: seq<byte>)
    requires Savable(img)
    requires if img.relocs == map[] then file == Body(img)
      else Walks(order, img.relocs) && file == Body(img) + PackAll(img.relocs, CodeSize(img), order)
    ensures Load(file) == Ok(img) <==> Storable(img)
    ensures Load(file).Ok? ==>
      Load(file).value == img.(relocs := Load(file).value.relocs) &&
      (Load(file).value.relocs == map[] || WellFormed(Load(file).value.relocs, CodeSize(img)))
  {
    hide Load, Body, PackAll, Legal, Decoded, Encoded, WellFormed;
    if img.relocs == map[] {
      assert Body(img) + [] == Body(img);
      LoadBody(img, []);
    } else {
      var table := PackAll(img.relocs, CodeSize(img), order);
      assert table[..CodeSize(img)] == table;
      LoadBody(img, table);
      if WellFormed(img.relocs, CodeSize(img)) {
        AllPacked(img.relocs, CodeSize(img), order);
      }
      RoundTripExactly(img.relocs, table);
      if Legal(table) {
        DecodedIsWellFormed(table);
      }
    }
  }

  /** Saving and loading gives the same image back for exactly the storable ones. */
  method SaveThenLoad(img: Image) returns (r: Outcome<Image>)
    ensures r == Ok(img) <==> Storable(img)
  {
    hide Load, Body, Walks, PackAll, WellFormed, InBounds;
    if Storable(img) {
      StorableIsSavable(img);
    }
    var saved, order := Save(img);
    if saved.Error? {
      return Error(saved.why);
    }
    SavedLoads(img, order, saved.value);
    r := Load(saved.value);
  }

  lemma StorableIsSavable(img: Image)
    requires Storable(img)
    ensures Savable(img)
  {
  }
}
