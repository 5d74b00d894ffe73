# A model of the CP/M-68K C library's file channels and of its executable tools

The library under `cpmlib/` gives C programs byte-addressable files on an operating system that only moves whole
128-byte records, and the programs under `tools/` turn linked ELF programs into CP/M-68K command files with a
relocation table. This project models both in Dafny and proves what they promise, and where the code keeps a promise
only sometimes, exactly when.

## How it is organised

| file | models |
|---|---|
| `Basics.dfy` | bytes, machine words, results and a few facts of arithmetic |
| `Sectors.dfy`, `SectorWrites.dfy`, `SectorReads.dfy`, `SectorText.dfy` | byte strings cut into records; `Store` is what a byte-addressable file made of whole records does; what writing past a buffer, reading past it and putting text into it mean |
| `Bdos.dfy` | the operating system as one open file sees it: records, free space, the user number |
| `Channel.dfy` | the channel control block as a class: `_blkio`, `_wrtbin`, `_rdbin`, `_wrtasc`, `_rdasc`, `_filesz`, `lseek`, `fstat`, `read`, `write`, `close`, `_creat`, `_open` |
| `PlainFile.dfy`, `BinaryRun.dfy` | the plain byte array a binary channel stands for, and whole runs of calls refined to it |
| `BinaryLimits.dfy` | concrete runs in which a binary channel and the byte array part company |
| `Text.dfy`, `TextRun.dfy` | CR/LF text ended by ^Z, and the write, close, reopen, read round trip |
| `Reloc.dfy`, `RelocStream.dfy` | the relocation table: decoder, random-access encoder, streaming encoder |
| `Image.dfy`, `LoadTime.dfy` | command files, and what the system's program loader makes of them |
| `ElfImage.dfy`, `PyConverter.dfy`, `PyLimits.dfy` | the Python converter from the ELF file to the running program, and programs it accepts and breaks |
| `CConverter.dfy`, `Converters.dfy` | the C converter likewise, and the two side by side |
| `Console.dfy`, `CommandTail.dfy`, `FileName.dfy`, `ChannelTable.dfy` | device output, argument tokenizer, file name parser, channel allocation |

The abstraction of a channel is `Ccb.View`: the disk, overlaid by the buffer if the buffer is dirty. `Ccb.Coherent` is
the invariant: a clean label tells the truth, a dirty label names a record that exists or comes next, and the high-water
mark lies inside the file. The operating system calls are those of the BDOS chapter (section 4) of the CP/M-68K
Operating System Programmer's Guide: a random read past the end fails and leaves the buffer alone, a random write at or
before the end replaces or appends a record. Methods follow the C functions loop by loop; a function of the source that
is long is cut into methods at its comments (head, middle and tail of `_rdbin` and `_wrtbin`).

The program loader is the operating system's and not part of the repository. `LoadTime.Relocate` is what it is taken to
do: it places the three segments, and adds to each place that the table names the distance by which the segment named
there has moved. A converter is then judged by `LoadTime.Moved`: in the running program every long that the ELF file
wants relocated is moved by the base, and every other byte is as it was linked.

## Where the code keeps its promise only sometimes

* A binary write of whole sectors from a sector boundary goes past the buffer but leaves it labelled with the first of
  those sectors. `Ccb.WrtBin` says exactly when file and channel are right afterwards; `BinaryLimits.StaleRead` and
  `BinaryLimits.StaleWrite` are runs of three calls in which a written byte is not read back, and in which written
  bytes are lost.
* A binary read of whole sectors goes past a dirty buffer. `Ccb.RdBin` says exactly when the bytes are right;
  `BinaryLimits.HeldBack` is a run in which they are not.
* Neither matters to a program that only appends (`PlainFile.AppendingIsAllowed`, `BinaryRun.WriteFile`).
* A read from a sector boundary past the end of the file moves the high-water mark past the end as well, and no other
  read does (`Ccb.RdBin`, `Ccb.StaysSound`).
* `_wrtchr` counts in 16 bits: all of a write is sent if and only if it is shorter than 65536 bytes
  (`Console.AllIsSent`).
* The Python converter accepts longs to be relocated at odd addresses and two bytes apart, and a code size that is odd,
  none of which a relocation table can express. `PyConverter.Convert` says exactly which accepted programs are
  converted: the others run at no base that is a multiple of 64K and not of 2^32. `PyLimits.NoSurvivors` has three
  programs of a few bytes. At other bases such a program can run by luck (`PyLimits.RunsByLuck`).
* `write_cpm_relocs` pads with 32-bit differences: its table is the right one if and only if the relocations are even,
  sorted, a long apart and in bounds (`RelocStream.WriteCpmRelocs`), and a reader gets the relocations if and only if
  that holds of the longest front part in order and the rest repeat it (`RelocStream.StreamMeans`). The C converter
  checks only that they are sorted, and loses the second of two pointers two bytes apart (`Converters.PairIsLost`).
* The two ELF converters classify some targets differently (`Converters.ClassifiersAgree`). A loaded program cannot tell
  if and only if the segments are placed one after the other (`LoadTime.KindDoesNotMatter`).
* They differ about undefined weak references: the C converter leaves them alone, the Python one relocates them. On a
  program that both accept, with relocations well spaced, the two results are the same program at a base if and only if
  there is no such reference or the base is a multiple of 2^32 (`Converters.Compare`, `Converters.WeakReference`).
* `_creat` keeps its channel when it fails, and `_open` does not: over any run the channels lost are the failed `_creat`
  calls made while a channel was free (`ChannelTable.Run`), and sixteen of them leave none (`ChannelTable.NothingOpens`).
* The `user:drive` prefix of a file name is checked after truncation to a signed byte, so that `256:` passes for user 0
  and `$:` for a drive (`FileName.WhichPrefixes`, `FileName.WrongIsAccepted`).
* Seeking to the end of a text file finds the ^Z behind its text if and only if the text has none of its own in its last
  sector (`TextRun.EndFound`), so text without one can be appended to any number of times (`TextRun.Sessions`).
* The comment at the head of `cpmlib/parsefn.c` describes a `;passwd` part and a returned pointer to the next item. In
  the code a semicolon does not end a token, so a password is found only after a `*`, and the result is success or
  failure. The model follows the code.

## Model

| member | source | states |
|---|---|---|
| Disk.Bdos.ChkUser | cpmlib/chkuser.c:20-31 | user 0 means "whatever is current"; any other is made current and the previous one, plus one, is answered |
| Disk.Bdos.UnChkUser | cpmlib/chkuser.c:34-42 | undoes `ChkUser`: while the user number is the one that call made current, the one before it comes back |
| Sectors.StoreStore | cpmlib/writebin.c:65-118 | storing two pieces one after the other is storing them joined, zero filling included |
| Channel.Ccb.constructor | cpmlib/channels.c:98-111 | a fresh control block is coherent and shows the file as the disk has it |
| Channel.Ccb.BlkWrite | cpmlib/blkio.c:33-78 | a prefix of the records is written, all of them if there is room; the user number is restored |
| Channel.Ccb.BlkRead | cpmlib/blkio.c:33-78 | as many records are read as the file has of those asked for, and nothing else is touched |
| Channel.Ccb.Preread | cpmlib/writebin.c:58-62 | the pre-read never fails inside the high-water mark and gives the record, or zeros past the end |
| Channel.Ccb.FetchForWrite | cpmlib/writebin.c:53-65 | afterwards the buffer is the sector at the offset as the file has it (or as the label claims), and the old buffer is on disk |
| Channel.Ccb.WriteHead | cpmlib/writebin.c:76-92 | bytes up to the end of a sector are stored; a full sector is written through, a partial one is dirty and not on disk |
| Channel.Ccb.StartWrite | cpmlib/writebin.c:71-92 | the head ends with the data or on a sector boundary, or is skipped for whole sectors from a boundary |
| Channel.Ccb.WriteMiddle | cpmlib/writebin.c:95-106 | whole sectors past the buffer extend what is stored |
| Channel.Ccb.WriteTail | cpmlib/writebin.c:108-121 | the rest is buffered over the pre-read sector and completes the store |
| SectorWrites.StoreInSector | cpmlib/writebin.c:77-85 | changing a copy of a sector and putting it back stores the bytes in the file |
| SectorWrites.StoreWhole | cpmlib/writebin.c:96-99 | whole sectors written past the buffer are stored in the file |
| SectorWrites.WholeWrite | cpmlib/writebin.c:74-99 | a buffer held over a whole-sector write is right if and only if it equals the first sector written |
| Channel.Ccb.StoredExactly | cpmlib/writebin.c:53-126 | after a write the file is right and the channel coherent if and only if the buffer survives it and what it put back was the file's |
| Channel.Ccb.WrtBin | cpmlib/writebin.c:36-127 | refines `Store` at the offset with its exact condition, moves offset and high-water mark, succeeds if there is room |
| Channel.Ccb.WriteBack | cpmlib/readbin.c:44-50 | writing the buffer back changes the disk and not the file |
| Channel.Ccb.Fetch | cpmlib/readbin.c:42-56 | fetching a sector fails exactly when the file has none, and the file stays the same |
| Channel.Ccb.ReadHead | cpmlib/readbin.c:40-76 | bytes from inside a sector are the file's if and only if the buffer was not stale for them |
| SectorReads.BypassSound | cpmlib/readbin.c:83-88 | reading sectors past a dirty buffer misses nothing when the buffer is none of them or already on disk |
| SectorReads.BypassUnsound | cpmlib/readbin.c:83-88 | otherwise some byte comes out stale or is missing |
| Channel.Ccb.ReadMiddle | cpmlib/readbin.c:83-99 | how many whole sectors come, and a witness byte if the buffer held one of them back |
| Channel.Ccb.ReadTail | cpmlib/readbin.c:103-125 | a last partial sector comes through the buffer, or the end of the file is met |
| SectorReads.ServedWhen | cpmlib/readbin.c:37-126 | head, middle and tail together are the file's bytes if and only if the head was right and no sector was held back |
| Channel.Ccb.ReadRest | cpmlib/readbin.c:80-126 | the part from a sector boundary: result, end-of-file flag, flush and exact correctness |
| Channel.Ccb.ReadInside | cpmlib/readbin.c:40-126 | from inside a sector: fails exactly inside a sector that is not there, else the bytes are the file's if and only if the buffer was not stale for them |
| Channel.Ccb.RdBin | cpmlib/readbin.c:24-127 | delivers exactly the next bytes of the file if and only if the buffer neither is stale for the head nor holds back a sector; the file never changes; fails exactly inside a missing sector; the mark stays sound exactly for reads from inside the file |
| Channel.Ccb.StaysSound | cpmlib/readbin.c:92-126 | a read leaves the high-water mark inside the file if and only if it did not start past the end |
| Channel.Ccb.LabelForAscii | cpmlib/writeasc.c:47-66 | after labelling, disk and buffer together still hold the text, though the buffer is not always read |
| Channel.Ccb.FillAscii | cpmlib/writeasc.c:68-83 | the buffer takes a prefix of the expanded text, a CR going in even when its LF has to wait for the next sector |
| Channel.Ccb.SettleAscii | cpmlib/writeasc.c:84-91 | a full buffer is written through and stays labelled, a partial one becomes dirty; either way the file has it |
| SectorText.PutInSector | cpmlib/writeasc.c:68-91 | text put into the buffered sector is put into the text of the file |
| Channel.Ccb.PutAll | cpmlib/writeasc.c:45-98 | all rounds together put the whole expansion in, and end because an inserted CR is followed by its LF |
| Channel.Ccb.WrtAsc | cpmlib/writeasc.c:30-100 | below the high-water mark the file becomes the old text overlaid at the offset by the CR-expanded data; the channel stays coherent |
| Channel.Ccb.TakeAscii | cpmlib/readasc.c:62-87 | the buffered sector continues the scan: CRs are dropped, ^Z stops it, the offset is just after the last byte used |
| Channel.Ccb.RdAsc | cpmlib/readasc.c:27-93 | takes the next characters of the text as `Scan` does, sets end-of-file and the mark as the code does, and terminates on any file |
| Channel.Ccb.FindEof | cpmlib/filesz.c:70-74 | the scan finds the first ^Z of the buffer or its end |
| Channel.Ccb.Filesz | cpmlib/filesz.c:26-85 | the high-water mark when dirty; else all records of a binary file, and of a text file the first ^Z of its last sector or where that ends; offset and mark go there, which makes them sound again, and the contents stay |
| Channel.Ccb.Lseek | cpmlib/lseek.c:37-72 | the new offset for each sense, -1 for any negative one, on any valid channel; clears end-of-file; contents, label and user number stay; a seek from the end finds what `_filesz` finds |
| Channel.Ccb.Fstat | cpmlib/fstat.c:11-38 | size and blocks of the file on any valid channel, with position and contents as before |
| Channel.Ccb.Write | cpmlib/write.c:34-58 | the dispatch with its error cases, each kind of file with its full effect |
| Channel.Ccb.Read | cpmlib/read.c:33-54 | the end-of-file gate and the dispatch, each kind of file with its full effect |
| Channel.Ccb.PutEof | cpmlib/close.c:44-49 | a ^Z is stored right where the text ends |
| Channel.Ccb.Close | cpmlib/close.c:32-63 | what the disk holds in the end is what the channel showed, with a ^Z after text; succeeds exactly if all was written and the directory entry was closed; the user number comes back and the block is cleared |
| Channel.Ccb.Creat | cpmlib/__open.c:63-81 | a created file is empty and its channel coherent; it is open exactly if the directory call succeeds, and the user number comes back |
| Channel.Ccb.Open | cpmlib/open.c:46-78 | an opened channel is coherent, at the start, and its high-water mark is at the first ^Z of the last sector of a text file or at the end of a binary one; it is open exactly if the file is found |
| BinaryRun.WriteKeeps | cpmlib/writebin.c:53-126 | an allowed write keeps the channel standing for the plain file |
| BinaryRun.ReadKeeps | cpmlib/readbin.c:37-126 | an allowed read delivers the plain file's bytes and keeps the channel standing for it |
| BinaryRun.BeliefIsCovered | cpmlib/writebin.c:53-106 | what the buffer wrongly says of a sector does not matter to a write that covers the sector |
| BinaryRun.Run | cpmlib/writebin.c:36-127 | any run of allowed writes, reads, seeks and size queries, on a channel that may be read-only, answers and leaves what it would on a plain byte array |
| BinaryRun.Session | cpmlib/close.c:32-63 | the same from creating a file to closing it: the disk ends up with the plain file's bytes |
| BinaryRun.Resume | cpmlib/open.c:46-78 | the same from opening an existing file, read-only or not, to closing it |
| BinaryRun.WriteFile | cpmlib/writebin.c:65-121 | writes of any sizes leave the joined data padded with zeros: head, bypass and tail do not show |
| PlainFile.AppendingIsAllowed | cpmlib/writebin.c:53-126 | appending never meets one of the excluded cases, however the data is cut up |
| PlainFile.WrittenIsReadBack | cpmlib/readbin.c:37-126 | on the plain file, and so on the channel, a write followed by a seek back and a read returns the data |
| PlainFile.SizeIsHarmless | cpmlib/filesz.c:39-84 | on the plain file, and by `BinaryRun.Run` on the channel: asking for the size changes no contents, rounds up by less than a sector, and answers the same again |
| BinaryLimits.WriteNew | cpmlib/writebin.c:65-121 | one write to a new file: whole sectors leave the buffer labelled 0 with the zeros it had, coherent exactly if they start with a sector of zeros |
| BinaryLimits.StaleBuffer | cpmlib/writebin.c:74-101 | 128 bytes written to a new file leave a clean buffer labelled 0 that holds something else |
| BinaryLimits.StaleRead | cpmlib/readbin.c:42-66 | a byte of them then reads wrong |
| BinaryLimits.StaleWrite | cpmlib/writebin.c:53-85 | a byte written among them takes the others with it |
| BinaryLimits.HeldBack | cpmlib/readbin.c:83-99 | a byte waiting in the buffer is not seen by a read of its whole sector |
| Text.SeenExpand | cpmlib/writeasc.c:74-80 | expanding text and reading it back shows it without its CRs and up to its ^Z |
| Text.ExpandOne | cpmlib/writeasc.c:68-80 | by number: 13 goes before a 10 that does not follow one, and every other character stays |
| Text.ExpandParts | cpmlib/writeasc.c:68-80 | and so character by character, the one before remembered |
| Text.StripOne | cpmlib/readasc.c:62-87 | by number: 13 is dropped and every other character stays |
| Text.StripParts | cpmlib/readasc.c:62-87 | and so character by character |
| Text.ScanTakes | cpmlib/readasc.c:41-92 | a read takes characters off the front of what is to be seen and stops short only when nothing is left |
| TextRun.SeenEmitted | cpmlib/writeasc.c:42-43 | although each call forgets whether the last byte was a CR, how text is cut into calls does not show to a reader |
| TextRun.SeenFile | cpmlib/close.c:44-49 | after the closing ^Z, whatever is left in the last sector is never seen |
| TextRun.WriteText | cpmlib/writeasc.c:30-100 | any list of writes to a new text file, closed, leaves exactly the expanded text, a ^Z, and no sector behind that |
| TextRun.EndFound | cpmlib/filesz.c:69-74 | the end that is looked for is where the text ends if and only if the text has no ^Z in its last sector |
| TextRun.AppendText | cpmlib/lseek.c:37-72 | a text file whose text has no ^Z in its last sector, opened for writing and sought to its end, takes more text just behind what it has |
| TextRun.ReadToEnd | cpmlib/readasc.c:27-93 | reads of any positive sizes until nothing comes return all there is to be seen |
| TextRun.RoundTrip | cpmlib/open.c:68-77 | write in any pieces, close, open, read in any portions: the text cut at its first ^Z, without CRs |
| TextRun.Sessions | cpmlib/filesz.c:58-80 | text free of ^Z written in any number of sessions, each opening the file, seeking to its end and closing it, is read back as one, without CRs |
| Reloc.DecodeRelocs | tools/cpm.py:131-185 | in numbers: refuses odd sizes and type bits 4 and 6; 1, 2 and 3 mark places of data, text and bss, longs where the word before ends in 5; and that is the meaning read off word by word |
| Reloc.TableInNumbers | tools/cpm.py:146-183 | the same for the meaning of a table |
| Reloc.EncodeRelocs | tools/cpm.py:187-210 | fails exactly out of bounds; every byte of the table of a well-formed map, in numbers, whatever the order of the walk; else the walk packed entry by entry over zeros |
| Reloc.EncodedInNumbers | tools/cpm.py:29-38 | the same for the table of a well-formed map |
| Reloc.PackedInAnyOrder | tools/cpm.py:192-210 | packing entries that do not overlap, in any order and up to any point, fills in exactly those entries |
| Reloc.DecodedIsWellFormed | tools/cpm.py:143-185 | whatever a table decodes to is even, in bounds and without overlaps |
| Reloc.DecodeEncode | tools/cpm.py:192-210 | decoding the encoded table of a well-formed map gives the map |
| Reloc.RoundTripExactly | tools/cpm.py:187-210 | the round trip works for exactly the well-formed maps |
| Reloc.EncodeDecode | tools/cpm.py:143-210 | encoding a decoded table gives the canonical table, which means the same and is its own canonical form |
| RelocStream.PackIsLossless | tools/elf2cpm68k.c:335-340 | offset and type are recovered from the 32-bit packing |
| RelocStream.WriteCpmRelocs | tools/elf2cpm68k.c:473-495 | the streamed table equals the random-access one if and only if the relocations are even, apart, sorted and in bounds |
| RelocStream.SpacedIsWellFormed | tools/elf2cpm68k.c:480-492 | such relocations make a well-formed map of longs |
| RelocStream.StreamMeans | tools/elf2cpm68k.c:473-495 | a reader of the stream gets the relocations if and only if the longest front part in order is spaced and the rest repeat it; and what is got otherwise |
| Image.FieldsAre | tools/cpm.py:82-112 | a loader finds in the header the fields that were put there, whatever comes after it |
| Image.LongInBytes | tools/cpm.py:221-229 | a field has its highest byte first |
| Image.Save | tools/cpm.py:212-235 | when saving fails, in sizes and places; the header field by field, and the bytes written, those of a map that is not well formed included |
| Image.LoadOfParts | tools/cpm.py:71-128 | a file put together from any header of either kind, text, data, symbols and table: it loads as text, address, data and bss with the table's relocations if the flag is 0 and none otherwise, whatever the symbols are, and when it does not |
| Image.LoadedHasParts | tools/cpm.py:71-128 | and every file that loads is put together like that |
| Image.LoadIsWellFormed | tools/cpm.py:65-128 | whatever is loaded, its relocation map is empty or well formed for the size of its code |
| Image.SavedLoads | tools/cpm.py:65-235 | a saved file loads as the image if and only if the image is storable; whatever its table then says, the rest is the image's |
| Image.LoadBody | tools/cpm.py:65-128 | a file with any table in its place loads as the image with that table's meaning |
| Image.SaveThenLoad | tools/cpm.py:65-128 | saving and loading gives the image back for exactly the storable images |
| ElfImage.BssBounds | tools/elf.py:110-135 | least address and greatest limit of the zero-initialised sections, both attained |
| ElfImage.LoadRelocs | tools/elf.py:175-263 | in numbers: which types are passed over, what an absolute one needs of its target, addend and field, and that any other stops the loader; recorded are the absolute ones, the last at each place with the part it points into |
| ElfImage.LoadElf | tools/elf.py:86-268 | in numbers: exactly which executables are taken, relocations included; how far text and data are filled up, the bss, and the relocations recorded, each with its part |
| ElfImage.LinkedIs | tools/elf.py:137-166 | the padded parts together are the program as linked: each segment at its address, zeros in the gaps, every bss section inside |
| PyConverter.LinkedField | tools/elf.py:248-263 | each recorded relocation lies in a long of the linked program that holds its target plus its addend |
| PyConverter.SurvivesMeans | tools/cpm.py:192-210 | the recorded relocations fit a table if and only if they are even and apart, and the code size is even when there are any |
| PyConverter.Convert | tools/elf2cpm.py:13-53 | when it succeeds; the file loads as the program if and only if the relocations fit a table; then it runs at every base as linked there, and otherwise at no multiple of 64K that is not one of 2^32 |
| PyLimits.WhichSurvive | tools/elf.py:189-263 | of programs of zeros and pointers to their start all are accepted, and exactly those with even, spaced pointers are converted |
| PyLimits.NoSurvivors | tools/elf.py:189-263 | an odd address, two longs two bytes apart and an odd code size are accepted and lost |
| PyLimits.RunsByLuck | tools/cpm.py:192-210 | such a program can yet run at some base: a table that is wrong moves the right bytes |
| LoadTime.PointerMoves | tools/cpm.py:155-179 | a pointer to a byte of a segment points at that byte wherever the segment is placed, if the table names the segment |
| LoadTime.SameProgram | tools/cpm.py:155-179 | two tables of the same places, whatever segments they name, give the same program if and only if the biases are alike at each place |
| LoadTime.KindDoesNotMatter | tools/elf.py:229-244 | which segment a table names for a place does not matter to the loaded program if and only if the segments are placed one after the other |
| LoadTime.KindMatters | tools/elf.py:229-244 | placed otherwise, two tables of one long that differ in its segment load different programs |
| LoadTime.MovedByTable | tools/cpm.py:155-179 | a table of exactly the longs wanted gives the program wanted, at every base |
| LoadTime.MovedOnlyBy | tools/cpm.py:155-179 | and at a base that only changes upper halves no other table does |
| CConverter.LoadElfRelocs | tools/elf2cpm68k.c:257-350 | in numbers: which types are passed over, which targets and offsets an absolute one may have, fewer than 5000 and sorted; each is packed as its offset and 1, 2 or 3 above it |
| CConverter.FilteredOne | tools/elf2cpm68k.c:304-321 | kept is an absolute relocation that is no null weak reference |
| CConverter.FilteredParts | tools/elf2cpm68k.c:296-341 | and of several each by itself, in their order |
| CConverter.LoadElfC | tools/elf2cpm68k.c:353-419 | in numbers: exactly which programs are taken, by segments and relocations, and the packed relocations |
| CConverter.CopyBytes | tools/elf2cpm68k.c:446-459 | copying in pieces copies the range, and fails exactly when it is not there |
| CConverter.WriteCpm | tools/elf2cpm68k.c:497-522 | fails exactly when segment bytes are missing; the header field by field; link address a is at file position 28 + a; the file loads as the program if and only if the relocations in front are spaced, the rest repeat them, and the code size is even |
| CConverter.AssembledLoads | tools/elf2cpm68k.c:461-522 | what a file of that header, padded text, data and streamed table loads as |
| CConverter.ConvertC | tools/elf2cpm68k.c:257-522 | the whole way: when it succeeds, what the file holds, and that it runs at every base if and only if the relocations reach the reader, else at no multiple of 64K that is not one of 2^32 |
| Converters.ClassifiersAgree | tools/elf2cpm68k.c:321-333 | the two classifiers agree outside the two gaps and the point where data meets bss, and only there |
| Converters.MovedAlike | tools/elf2cpm68k.c:304-307 | the two moved programs are the same if and only if nothing moves or no weak reference was kept |
| Converters.Compare | tools/elf2cpm68k.c:304-307 | on a program both accept, well spaced: both run, and at a base they are the same program if and only if no undefined weak reference is kept or the base is a multiple of 2^32 |
| Converters.WeakReference | tools/elf2cpm68k.c:304-307 | one null weak pointer, converted both ways, gives two different programs |
| Converters.PairIsLost | tools/elf2cpm68k.c:343-349 | two pointers two bytes apart are sorted, accepted, and do not survive |
| Console.Devices.TtyOut | cpmlib/ttyout.c:20-42 | the terminal is sent exactly the chunk, dollar signs included |
| Console.Devices.LstChunk | cpmlib/lstout.c:22-33 | the printer is sent exactly the chunk |
| Console.Devices.FillChunk | cpmlib/wrtchr.c:61-88 | a chunk is a non-empty part of the data, expanded; an LF goes in only together with its CR |
| Console.CrlfOne | cpmlib/wrtchr.c:63-72 | by number: 10 goes out as 13, 10 and every other character as it is |
| Console.Devices.WrtChr | cpmlib/wrtchr.c:27-92 | the device is sent the expanded data, as many bytes of it as the count is modulo 65536 |
| Console.AllIsSent | cpmlib/wrtchr.c:59-91 | that is all of it if and only if it is shorter than 65536 bytes |
| CommandTail.ParseArgs | cpmlib/_main.c:71-119 | after the fixed program name the arguments in place are the tokens of the tail, no NUL put in later damages an earlier one, and an open quote is the only error |
| CommandTail.TypedIsParsed | cpmlib/_main.c:83-118 | arguments typed with any white space between them, bare or in either quote, are the tokens if the tail ends after them, and an error if a quote is left open |
| CommandTail.EveryTail | cpmlib/_main.c:83-118 | and every tail is of that form |
| CommandTail.TypedArguments | cpmlib/_main.c:71-126 | the whole way: typed, cut up in place, read through the argument vector behind the program name |
| FileName.StuffDrive | cpmlib/parsefn.c:154-176 | user and drive bytes as the prefix says, 16-bit and signed-byte arithmetic included, and when it is refused |
| FileName.WhichPrefixes | cpmlib/parsefn.c:154-176 | in terms of the decimal number typed and the letter: the two bytes stored, and exactly which prefixes are accepted |
| FileName.RightIsAccepted | cpmlib/parsefn.c:154-176 | users up to 15 and drives up to O, capital or small, are among them |
| FileName.WrongIsAccepted | cpmlib/parsefn.c:154-176 | so are user 256, taken for user 0, and a dollar sign, taken for a drive |
| FileName.GetToken | cpmlib/parsefn.c:123-135 | the longest run of at most 32 non-delimiters |
| FileName.TokenIs | cpmlib/parsefn.c:122-135 | the token is the one text of plain characters, by number, that is as long as it can be |
| FileName.ParseFn | cpmlib/parsefn.c:40-87 | on any name, result and block are those of the pure parser, also when the name is refused; `AcceptedNames` and `WrittenIsParsed` say what that parser takes and makes |
| FileName.WrittenIsParsed | cpmlib/parsefn.c:48-87 | a name written from its parts, with or without prefix, stars, dot and password, gives its block: capitals, long fields cut, a star filling with question marks; it is refused only for its prefix |
| FileName.AcceptedNames | cpmlib/parsefn.c:75-87 | the names taken are exactly those written from parts, by the numbers of their characters |
| FileName.RefusedByCharacter | cpmlib/parsefn.c:122-135 | a name with any of `<>,=` a bar or a square bracket in it is refused |
| FileName.UserDriveOf | cpmlib/parsefn.c:154-176 | a typed user number and drive letter, capital or small, give their bytes |
| ChannelTable.Table.Allocc | cpmlib/channels.c:47-63 | the least free channel, or failure exactly when all sixteen are taken |
| ChannelTable.Table.Open | cpmlib/open.c:46-77 | fails exactly without a free channel or a reachable target and then changes nothing; else the least free channel is taken and open; the user number comes back |
| ChannelTable.Table.Creat | cpmlib/creat.c:36-60 | fails under the same conditions, and then a free channel stays taken and not open |
| ChannelTable.Table.Unlink | cpmlib/unlink.c:27-40 | succeeds exactly with a free channel and a file that is found; table and user number stay |
| ChannelTable.Table.Close | cpmlib/close.c:39-62 | an open channel is freed and closed and no other changes; anything else is refused and nothing changes |
| ChannelTable.LostByCreat | cpmlib/creat.c:36-57 | over any run the channels taken and not open grow by exactly the failed `_creat` calls made while a channel was free |
| ChannelTable.ChannelsRunOut | cpmlib/creat.c:36-57 | creating a bad name n times takes the next n channels |
| ChannelTable.NothingOpens | cpmlib/creat.c:36-57 | after one such call a channel is lost, after sixteen every `_open` fails |
| ChannelTable.Run | cpmlib/channels.c:47-70 | any run answers and leaves what the calls one by one do: every open channel stays allocated, the user number comes back, and the channels lost are those `_creat` calls counted |
| ChannelTable.PairsGiveBack | cpmlib/close.c:58-59 | opening and closing, any number of times, answers the same channel every time and gives the table back |

## Left out

- Terminal, printer and queue flags on a control block: devices are modelled in `Console.dfy`, apart from files.
- Channel.Ccb.BlkWrite: the first record is at most one past the end of the file, because what a random write beyond that leaves in between is the system's affair.
- Channel.Ccb.Preread: the pre-read is stated for a high-water mark inside the last sector of the file, which is where every call leaves it but a read from past the end.
- Channel.Ccb.FetchForWrite: the same, and no hole below the offset.
- Channel.Ccb.WrtBin: counts under 65536 and files up to 65536 sectors, because the 16-bit counters of `_wrtbin` wrap beyond that; no hole below the offset.
- Channel.Ccb.Write: what `WrtBin` and `WrtAsc` leave out.
- Channel.Ccb.WrtAsc: needs 0 <= offset <= high-water mark; text written past the mark or at a negative offset meets bytes the code never set.
- Channel.Ccb.PutEof: needs 0 <= offset <= high-water mark, as `WrtAsc` does.
- Channel.Ccb.Close: how the ^Z lies in text that was sought in and not changed afterwards is stated by `CloseAt`, the place where `_filesz` finds the end; stale bytes of a last sector that was written through can make that place early. Of a write that fails only that the block is cleared is stated.
- Channel.Ccb.Creat: device names, bad names and the channel allocation, which `ChannelTable.dfy` has.
- Channel.Ccb.Open: device names, bad names and the channel allocation, which `ChannelTable.dfy` has; the read-only attribute bit that it puts into the name.
- BinaryRun.Run: the calls that `PlainFile.Allowed` excludes; `Ccb.WrtBin` and `Ccb.RdBin` say what each of them does.
- State after a failed transfer: only that the control block is still valid is stated, because the code promises no more.
- Offsets are unbounded integers: the 32-bit wrap of `LONG` is not modelled.
- User buffers are whole arrays; a `write` or `read` of part of one is the same call on an array of that part.
- Console.Devices.FillChunk: the chunk has one byte more than `wrtchr.c` gives it, the one `_ttyout` writes its terminator to.
- Console.Devices.WrtChr: tab expansion, which only a special terminal flag turns on.
- CommandTail.ParseArgs: a tail length byte of 128 or more, and the growing of the argument vector itself.
- FileName.GetToken: the terminator that a 32-character token puts one past the token buffer.
- CConverter.LoadElfRelocs: the 32-bit wrap of segment ends; segments are taken to end below 2^32.
- CConverter.LoadElfC: the fields of the ELF header other than type and machine, and the number of segments, which it does not look at.
- LoadTime.Relocate: the loader itself is the system's; it is taken to add one distance for each segment.
- The ELF container: segments, sections, looked-up symbols and relocations of loaded sections are inputs, in the order in which the files list them.
- `O_EXCL` and the `open` wrapper, terminal input, `stty`, `gtty`, `isatty`, `rename`, `sbrk`, start-up and exit code: they would add only easy members.
