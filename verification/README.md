# GANOS: boot loaders, line readers, shell input and small cores

A Dafny model of the parts of GANOS that are algorithms, proved correct for
all inputs or shown to be correct under an exact condition.

- **FAT12 loader** (`Chs`, `Fat12Table`, `Fat12Volume`, `RealMode`,
  `Fat12Loader`). The volume boot record adds sector counts to packed
  cylinder/head/sector registers, loads FAT and root directory, looks the
  target up by name and copies its cluster chain to a segment. Memory is an
  array; the disk is a byte string read by linear sector number; the drive
  may refuse any attempt.
- **FAT32 loader** (`Fat32Volume`, `Fat32Loader`). 64-bit sector numbers in two
  halves, the table read through a window of one sector, the copying loop.
  Both loaders are proved against one chain specification (`ClusterChain`).
- **Line readers** (`TextLines`, `Stdio`, `LineBuffers`, `GetDelim`,
  `LexGetline`, `LineReaders`, `LexSections`). `getdelim` of the C library,
  `getline` of lex over `fgets`, their agreement, and lex's sections.
- **Shell input** (`ShellText`, `Shell`, `EchoShell`). The escape machine and
  the splitter work in place on one buffer; `echo` is their printer.
- **Smaller cores** (`NumberPrinters`, `GptLayout`, `Smbios`).

Machine integers are mathematical ones with their wrap-around written out
(`Machine`). Nothing was executed. `hide` keeps definitions out of single proofs
and changes no statement.

## What the proofs found

- FAT12: with the stack at 0x0600 and the code linked at 0x0a00, the loader
  overwrites itself. On every well-formed volume the FAT, which is read to 0x0500
  on, covers all of the stack in use (`SourcePlacementFails`); the first load
  returns to an address taken from FAT bytes (`ReturnsIntoFat`). The code is spared
  exactly by tables of at most 0x500 bytes, and the boot record's own parameter
  block describes tables that cover it (`FloppyOverwritesCode`). Stack and
  code are therefore parameters of the model, and what is proved of `LoadFat` and
  `Boot` holds for a placement that the tables and the target spare
  (`TablesSpareIff`); with the values in the source there is none.
- FAT12: the table lookup adds 16-bit registers in segment 0, so it is right
  exactly for clusters up to 42836 (`AddressableIff`). Of a chain only the first
  cluster can lie above (`ChainAddressableIff`), and on a volume of fewer than 4085
  clusters none does (`SpecifiedClustersAddressable`); `HighClusterMisread` is a
  larger volume on which the loader reads a word below the table.
- FAT12: a file larger than 64 KiB wraps in the target segment;
  `RealMode.StoreAllAt` says which byte every offset then holds. The end of a
  chain is recognised by equality with entry 1 only, so a chain that ends in
  another end mark is not followed to its end (`MarkMeetsSpecificationIff`).
  The final jump reaches the file only for load segments below 0x1000
  (`JumpTarget`).
- FAT32: `data_lba + 12` is written where `data_lba + 4` is meant, so the data
  area is right exactly while its number fits 32 bits. The destination
  moves by one sector per cluster, and the end threshold has two digits too
  few; `LoadFromPartition` gives the exact condition for a file to arrive whole.
  All of it presumes a file that ends below the loader's stack: with the target at
  0x0500 that is 59 sectors of 512 bytes, and from 60 on the loader overwrites its
  own return addresses (`TargetSparesLoaderIff`).
- `getdelim` writes outside a buffer of one byte unless the delimiter is 0, the
  stream is empty or its only byte is not the delimiter (`WritesInsideIff`), and
  does not terminate a last line without delimiter. lex's `getline` reports the end
  of the stream as an empty line when it is given a buffer of one byte, and
  returns a line whole exactly when it holds no NUL (`LineWholeIff`); it joins a line with what
  follows exactly when the chunk in which the line ends holds a NUL
  (`OneLineTakenIff`).
- `printl` ends on exactly the numbers above the least (`PrintSignedEndsIff`).
- lex indexes past its table of section parsers exactly when a line follows a
  third separator.
- echo into the shell gives back exactly the word lists with at least one
  word, no blank, newline or backslash, and no empty word before the last.
- The configurator's layout is sound exactly for sectors of 512, 1024, 2048, 4096,
  8192 and 16384 bytes and devices of at least 68 sectors more than 64 MiB. The EFI partition's last
  sector is inclusive, so the partition has one sector more than 64 MiB.

Where comments and code differ the code was followed; fields of the FAT12
parameter block are read as the comments beside their loads name them, since the
offsets there count from two different labels. Only the low byte of the head
count and of the sectors per track takes part in the comparisons.

## Model
| member | source | states |
|---|---|---|
| ClusterChain.ChainUnique | boot/x86/vbr/vbr.S:231-277 | a table determines the chain from a cluster |
| ClusterChain.ChainNoRepeat | boot/x86/vbr/vbr.S:231-277 | a chain that reaches the end mark visits no cluster twice |
| ClusterChain.ChainExistsIff | boot/x86/vbr/vbr.S:231-277 | the walk ends, and a chain exists, exactly when it meets the end mark within as many links as there are clusters |
| ClusterChain.ChainExistsFromAnywhereIff | boot/x86/vbr/vbr.S:231-277 | the same from a first cluster outside the table, with one link more |
| ClusterChain.ContentsAt | boot/x86/vbr/vbr.S:246-254 | byte r of the i-th cluster is byte i times cluster size plus r of the file |
| Chs.EncodeLinear | boot/x86/vbr/vbr.S:356-364 | valid packed addresses denote sectors of the disk, and encoding inverts decoding |
| Chs.LinearEncode | boot/x86/vbr/vbr.S:384-388 | every sector number of the disk has a valid packed address that denotes it |
| Chs.LinearOfFields | boot/x86/vbr/vbr.S:356-364 | cylinder, head and sector in the bits of their registers denote cylinder times heads plus head, times sectors per track, plus sector less one |
| Chs.LinearInjective | boot/x86/vbr/vbr.S:354-391 | two valid addresses of one sector are the same registers |
| Chs.AdvanceLinear | boot/x86/vbr/vbr.S:354-391 | the advanced address is valid and denotes the sum modulo the disk size |
| Chs.AdvanceAdditive | boot/x86/vbr/vbr.S:354-391 | adding m and then n gives the registers of adding m + n |
| Chs.AddChs | boot/x86/vbr/vbr.S:354-391 | the register loop computes the address n sectors further, for every 16-bit n |
| Fat12Table.EntryOfPack | boot/x86/vbr/vbr.S:259-274 | unpacking inverts packing, for every table of 12-bit values |
| Fat12Table.PackOfUnpack | boot/x86/vbr/vbr.S:259-274 | packing inverts unpacking, for every table of whole pairs |
| Fat12Table.EntryOne | boot/x86/vbr/vbr.S:145-148 | the saved end mark is entry 1 |
| Fat12Table.AddressableIff | boot/x86/vbr/vbr.S:260-266 | the 16-bit sums of the lookup reach the table's word exactly for clusters up to 42836 |
| Fat12Table.LookupIsNext | boot/x86/vbr/vbr.S:260-274 | a lookup in memory that holds the table is the table's entry, for every covered cluster up to there |
| Fat12Volume.ChainAddressableIff | boot/x86/vbr/vbr.S:231-277 | all clusters of a chain can be looked up exactly when the first can |
| Fat12Volume.SpecifiedClustersAddressable | boot/x86/vbr/vbr.S:260-266 | on a volume with as many clusters as the FAT specification allows every cluster can be looked up |
| Fat12Volume.HighClusterMisread | boot/x86/vbr/vbr.S:260-266 | a well-formed larger volume with a cluster whose lookup wraps below the table |
| Fat12Volume.FileEndsIff | boot/x86/vbr/vbr.S:259-277 | from every 16-bit first cluster, on whatever words the wrapping lookups read, the loader meets the mark within 4097 links or never |
| Fat12Volume.MarkMeetsSpecificationIff | boot/x86/vbr/vbr.S:276-277 | the loader's chain is the specified one exactly when it ends in the saved mark, whatever that mark is |
| Fat12Volume.RootSectorsExactIff | boot/x86/vbr/vbr.S:175-181 | 16-bit shift, truncating division and byte register give the specified root size exactly when there are fewer than 2048 entries that fill whole sectors, fewer than 256 of them |
| Fat12Volume.AddsReachCluster | boot/x86/vbr/vbr.S:151-195 | the successive adds land on the first sector of every cluster of the volume |
| Fat12Volume.FloppyWellFormed | boot/x86/vbr/vbr.S:31-43 | the boot record's own parameter block is well formed: root directory at sector 19, data area at 33, last cluster 2848 |
| Fat12Volume.VolumeTiles | boot/x86/vbr/vbr.S:129-195 | in bytes of the disk: the FAT behind the reserved sectors, the root directory behind all FATs, and the clusters from number 2 on tile the data area |
| Fat12Volume.MarkIsEntryOne | boot/x86/vbr/vbr.S:145-148 | the mark is entry 1 of every table packed at the start of the FAT, and is held by its bytes 1 and 2 |
| Fat12Volume.DirectoryReads | boot/x86/vbr/vbr.S:197-223 | on a directory of encoded entries the name test is equality with BOOTLD  SYS and the word read is the first cluster |
| RealMode.StoreAllAt | boot/x86/vbr/vbr.S:251-254 | for files of any size, what every offset of the target segment holds after the wrapping stores |
| RealMode.StoreAllFits | boot/x86/vbr/vbr.S:251-254 | a file of at most 64 KiB is stored as it is and nothing behind it changes |
| RealMode.LastPositionIsLast | boot/x86/vbr/vbr.S:251-254 | the position StoreAllAt speaks of is the last byte of the file stored at an offset |
| Fat12Loader.Loader.Load | boot/x86/vbr/vbr.S:323-350 | succeeds exactly when the address is readable and one of five attempts works; failure changes nothing |
| Fat12Loader.FiveAttempts | boot/x86/vbr/vbr.S:323-346 | after four failures the fifth attempt decides |
| Fat12Loader.Loader.LoadFat | boot/x86/vbr/vbr.S:129-148 | for a stack and code that the tables spare: memory at 0x0500 is the FAT, the rest is unchanged, the mark saved is the second entry packed in the FAT, from its bytes 1 and 2 |
| Fat12Loader.TablesSpareIff | boot/x86/vbr/vbr.S:134-142 | the table loads spare a region exactly when it ends by 0x0500 or starts behind the root directory |
| Fat12Loader.SourcePlacementFails | boot/x86/vbr/vbr.S:62-63 | with the source's values the FAT covers the whole stack in use on every volume, and the code is spared exactly by tables of at most 0x500 bytes |
| Fat12Loader.ReturnsIntoFat | boot/x86/vbr/vbr.S:349-350 | what the first load pops as ax and return address are two words of the FAT |
| Fat12Loader.FloppyOverwritesCode | boot/x86/vbr/makefile:3 | the tables of the boot record's own parameter block cover the code linked at 0x0a00 |
| Fat12Loader.FloppyFitsElsewhere | boot/x86/vbr/vbr.S:22-23 | a stack below 0x7c00 and code left there meet the placement condition for the same tables and a target at 0x10000 |
| Fat12Loader.Loader.LoadRoot | boot/x86/vbr/vbr.S:152-195 | the root directory lies behind the FAT, the address left is that of the data area |
| Fat12Loader.Loader.FindFile | boot/x86/vbr/vbr.S:197-216 | finds the first root entry with the eleven-byte name, or reports that there is none |
| Fat12Loader.Loader.NextCluster | boot/x86/vbr/vbr.S:257-274 | the word at the wrapped address is decoded, and it is the table's entry for every covered cluster that can be looked up |
| Fat12Loader.Loader.LoadCluster | boot/x86/vbr/vbr.S:231-274 | one pass stores the cluster's bytes at the offset, advances it by the cluster size and finds the table's successor |
| Fat12Loader.Loader.LoadFile | boot/x86/vbr/vbr.S:220-279 | stores as many clusters as the chain has, in order, and ends; a failed read leaves exactly the clusters before it |
| Fat12Loader.Loader.Boot | boot/x86/vbr/vbr.S:129-287 | for a stack and code that tables and target spare, which then stay as they are: boots exactly when the name is found (on a drive without five failures in a row), with the file of the first match in the target segment; without a match the target is untouched |
| Fat12Loader.JumpTarget | boot/x86/vbr/vbr.S:281-287 | the jump offset is the load address exactly for segments below 0x1000 |
| Fat32Volume.PairSum | boot/i386_fat.old/boot0.asm:251-266 | adding halves with carry is addition modulo 2^64 |
| Fat32Volume.WindowEntry | boot/i386_fat.old/boot0.asm:296-321 | quotient sector and remainder index address the entry of the whole table |
| Fat32Volume.NextOfPackTable | boot/i386_fat.old/boot0.asm:296-322 | the successor function gives back every entry of a table packed as little-endian double words |
| Fat32Volume.DataAreaTiled | boot/i386_fat.old/boot0.asm:282-289 | the clusters from number 2 on, one behind the other, are the bytes of the data area |
| Fat32Volume.EndTests | boot/i386_fat.old/boot0.asm:324-325 | both end tests in numbers |
| Fat32Volume.LoaderFollowsPrefix | boot/i386_fat.old/boot0.asm:324-325 | the loader follows a prefix of every file's chain, all of it exactly when no interior entry reaches the threshold |
| Fat32Volume.LoadedIsFileIff | boot/i386_fat.old/boot0.asm:326-332 | what is left in memory is the file exactly for one cluster, or one sector per cluster and the whole chain followed |
| Fat32Volume.FileLoadedIff | boot/i386_fat.old/boot0.asm:277-332 | both conditions together, for every file |
| Fat32Loader.Loader.Add64 | boot/i386_fat.old/boot0.asm:251-254 | the two-register sum modulo 2^64 |
| Fat32Loader.Loader.InitFat | boot/i386_fat.old/boot0.asm:181-203 | the FAT's sector is right; the data area's is right exactly when its high half is what the variable held |
| Fat32Loader.Loader.BlockFields | boot/i386_fat.old/boot0.asm:181-203 | from the bytes of a parameter block: the fields read are its own, and the number added is the sum of the lengths of all FATs |
| Fat32Loader.Loader.NextCluster | boot/i386_fat.old/boot0.asm:296-322 | the windowed lookup equals indexing the whole table, and only the window changes |
| Fat32Loader.Loader.LoadFile | boot/i386_fat.old/boot0.asm:277-332 | for a destination and window clear of the loader's stack, code and variables: the destination holds one sector of each cluster and the whole last one; memory outside destination and window is unchanged |
| Fat32Loader.Loader.LoadFromPartition | boot/i386_fat.old/boot0.asm:181-332 | from the partition's first sector, for files that spare the loader: the bytes left, and exactly when they are the file |
| Fat32Loader.Loader.TargetSparesLoaderIff | boot/i386_fat.old/boot0.asm:95-117 | the largest file the source's target has room for below stack and code, for every sector and cluster size |
| TextLines.LinesPartition | lib/libc/stdio/getline.c:34-51 | lines concatenate to the text, hold the delimiter only at their end, and only the last can lack it |
| TextLines.PartitionUnique | lib/libc/stdio/getline.c:34-51 | there is no other such partition |
| TextLines.ReadsBackIff | lib/libc/stdio/getline.c:43-46 | a line in a buffer reads back as a string exactly when a NUL follows it |
| Stdio.Stream.Fgets | usr/bin/lex/main.c:106-121 | the fgets that lex relies on (section 7.19.7.2 of C99): bytes taken, NUL, indicator, rest of the buffer unchanged |
| GetDelim.GetDelim | lib/libc/stdio/getline.c:13-52 | for every buffer its stores stay inside: returns the first line and its length, leaves the stream behind it, terminates it exactly if it has its delimiter, and stores at exactly the indices of Writes; capacities start at 12 and grow by twelves, and a buffer that grew has at most 13 bytes more than the line |
| GetDelim.WritesInsideIff | lib/libc/stdio/getline.c:34-47 | every store is below the capacity exactly unless the delimiter is not 0, the buffer has one byte, and the stream is neither empty nor a single undelimited byte |
| GetDelim.ReadLines | lib/libc/stdio/getline.c:13-59 | repeated calls return exactly the lines of the stream |
| LexGetline.GetLine | usr/bin/lex/main.c:86-126 | for all streams and buffers: string, capacity, position and indicator are those of LineBy; the end of the stream with a one-byte buffer is an empty line |
| LexGetline.LineWholeIff | usr/bin/lex/main.c:106-123 | a call returns the first line, and takes just it, exactly when the line holds no NUL, for every buffer |
| LexGetline.TakesWholeLines | usr/bin/lex/main.c:106-123 | on every stream a call takes whole lines and returns a NUL-free string with a newline at its end alone, unless the stream ended |
| LexGetline.OneLineTakenIff | usr/bin/lex/main.c:106-123 | for every buffer, the first line alone is taken exactly when the chunk in which it ends holds no NUL or nothing follows it |
| LexGetline.LexLinesAreLines | usr/bin/lex/main.c:213-214 | repeated calls return exactly the lines of a NUL-free stream |
| LineReaders.SameLine | usr/bin/lex/main.c:86-126 | both readers return the same bytes exactly when the line holds no NUL, and then leave the streams in the same state; at the end they agree unless lex has a one-byte buffer |
| LexSections.AfterSeparatorsAppend | usr/bin/lex/main.c:215-224 | what one more line adds to the text behind the k-th separator |
| LexSections.Lex.ParseLine | usr/bin/lex/main.c:215-224 | for every string: section, line number and output stay functions of the strings read, or the section table is left |
| LexSections.Lex.Parse | usr/bin/lex/main.c:208-231 | a whole input, string by string, for all bytes |
| LexSections.Run | usr/bin/lex/main.c:149-170 | over all inputs: with at most two separators the output is all text behind the second and the section is their number; undefined exactly when a string follows a third; and in bytes: for a NUL-free input with two separator lines of two percent signs and white space the section is 2 and the output what follows them, and a third such line is defined exactly as the last |
| ShellText.PendingStep | bin/sh/src/main.c:34-66 | what one character does to a reader, for the lines still to come |
| ShellText.EnterableIff | bin/sh/src/main.c:35-60 | exactly the lines without a newline can be entered |
| ShellText.LogicalLinesOf | bin/sh/src/main.c:34-60 | in bytes: 10 ends a line, 92 and 10 join lines, 92 and another byte put that byte into the line |
| ShellText.LinesSize | bin/sh/src/main.c:54-58 | lines and their ends are no longer than the input, and shorter when it holds a backslash |
| ShellText.ArgumentsAreWords | bin/sh/src/main.c:98-123 | on a NUL-free line the runs behind the starts are its words |
| ShellText.ArgumentsOfSpaced | bin/sh/src/main.c:98-123 | however words are spaced by bytes 32 and 9, they are the arguments |
| ShellText.WordsShape | bin/sh/src/main.c:98-123 | words hold no blank, only the last can be empty, exactly on an empty line or behind a trailing blank |
| Shell.Process | bin/sh/src/main.c:74-132 | for lines a 32-bit index can pass: pointers are, in ascending order, exactly the bytes other than 32 and 9 that come first or behind one of these, then null; from the first on bytes 32 and 9 are NUL and all others keep their value; every pointer reads back as its run, without 32 or 9 |
| Shell.RunReadsBack | bin/sh/src/main.c:109-111 | after the cuts the string at a start is the run from there |
| Shell.ReadLoop | bin/sh/src/main.c:34-66 | the lines handed on are exactly the completed logical lines, each split into its arguments, with the index inside the buffer throughout |
| EchoShell.Echo | bin/echo/src/main.c:8-11 | prints the words with spaces between and a newline behind |
| EchoShell.EchoBytes | bin/echo/src/main.c:8-11 | in bytes: 32 between words and 10 behind the last |
| EchoShell.WordsOfJoin | bin/sh/src/main.c:98-123 | splitting clean words joined by spaces gives them back |
| EchoShell.RoundTripIff | bin/echo/src/main.c:8-11 | echo's output read and split gives the word list exactly when it has a word, no byte 9, 10, 32 or 92, and no empty word before the last |
| EchoShell.EchoIntoShell | bin/sh/src/main.c:34-123 | the same for the methods run one after the other |
| NumberPrinters.PushRemainders | boot/x86/bootld/bootld.s:596-608 | popping what was pushed gives the digits, and the byte counter does not wrap |
| NumberPrinters.PrintD | boot/x86/bootld/bootld.s:582-624 | what is printed is the decimal numeral of every 32-bit number: characters 0 to 9, no leading zero, of that value |
| NumberPrinters.PrintX | boot/x86/bootld/bootld.s:515-569 | prints 0x and the hexadecimal numeral: characters 0 to 9 and a to f, no leading zero, of that value |
| NumberPrinters.PrintUnsigned | boot/i386_fat.old/boot2.c:231-247 | the recursive printer prints the same numeral |
| NumberPrinters.PrintHex | boot/i386_fat.old/boot2.c:280-298 | the recursive hexadecimal printer: letters A to F or a to f as asked for, no leading zero, of that value |
| NumberPrinters.PrintSigned | boot/i386_fat.old/boot2.c:231-248 | a minus and the numeral of the negation, for every value it ends on |
| NumberPrinters.PrintSignedEndsIff | boot/i386_fat.old/boot2.c:231-248 | with the 32-bit wrap of the negation the calls end on exactly the values above the least, and print the signed numeral then |
| NumberPrinters.PrintersAgree | boot/x86/bootld/bootld.s:515-624 | both kinds of printer emit the same characters |
| NumberPrinters.NumeralReads | boot/i386_fat.old/boot2.c:238-241 | a numeral has valid digits, no leading zero and reads back as its number |
| NumberPrinters.ValueOfConcat | boot/i386_fat.old/boot2.c:238-241 | leading digits count for as many powers of the base as digits follow |
| NumberPrinters.DigitsInOrder | boot/i386_fat.old/boot2.c:286-293 | the digits are 0123456789abcdef and 0123456789ABCDEF in order of their values |
| NumberPrinters.NumeralUnique | boot/i386_fat.old/boot2.c:238-241 | it is the only such digit string |
| NumberPrinters.SignedReads | boot/i386_fat.old/boot2.c:234-237 | signed numerals read back |
| GptLayout.SoundIff | tools.bak/configurator/configure.c:96-163 | for every sector size and device size, the layout exists and is sound exactly for the six powers of two from 512 to 16384 and enough sectors; below 128 the source divides by zero |
| GptLayout.LayoutBytes | tools.bak/configurator/configure.c:80-163 | the byte ranges of a sound layout: entry at 446, header in sector 1, array in sector 2, a partition of 64 MiB and one sector from sector 34 on, backup header in the last whole sector and backup array before it |
| GptLayout.WorkingSectorIff | tools.bak/configurator/configure.c:147 | from 128 bytes on, those are exactly the sizes of at least 512 bytes of which the computed number of sectors is the entry array |
| GptLayout.Device.Configure | tools.bak/configurator/configure.c:99-163 | for every layout whose writes lie on the device the result is their image; on a sound one every structure reads back and the EFI partition is as it was |
| GptLayout.ImageAt | tools.bak/configurator/configure.c:99-163 | every byte of the image is that of the last write covering it, or as it was |
| GptLayout.WorksReadsBack | tools.bak/configurator/configure.c:153-163 | on a sound layout no write destroys another structure |
| Smbios.LocateEntry | boot/i386_fat.old/boot2.c:166-188 | the least matching address of the window, or null exactly when there is none |
| Smbios.StructureAccepted | boot/i386_fat.old/boot2.c:166-188 | a structure in memory is accepted exactly when all its bytes sum to 0 modulo 256 |
| Smbios.SumOfConcat | boot/i386_fat.old/boot2.c:172-180 | the sum of bytes, by its laws |
| Smbios.CandidateIff | boot/i386_fat.old/boot2.c:166-188 | the window is 4096 addresses, sixteen bytes apart, from 0xf0000 on |

## Left out
- Fat12Loader.Loader.Boot: stack and code are regions that must stay as they are, not instructions and pushes; LOAD_SEGMENT is a parameter because the file does not define it.
- Fat12Loader.Loader.LoadFat: stated for placements of stack and code that the tables spare; with the source's own values the load returns into FAT bytes (`SourcePlacementFails`, `ReturnsIntoFat`).
- Fat12Loader.Loader.Load: a read that fails is taken to transfer nothing, and a failing BIOS call to leave `al` alone, which the retry (boot/x86/vbr/vbr.S:328-346) does not restore.
- Fat12Volume.Bpb.WellFormed: reserved sectors end within the first track and FAT and root directory fit into one segment, because the loader packs the first address without a carry and uses 16-bit offsets.
- Fat32Loader.Loader.LoadFile: the destination stays inside segment 0 and clear of the loader, the window and the parameter block, which the loader does not check; the stack the BIOS itself needs below the interrupt frame is not counted; cx is taken to hold the sector size; a failed read leaves memory as it was.
- Fat32Loader.Loader.InitFat: the load of the first FAT sector between the two sums is left out, as nothing reads it; the BIOS packet is left out as a mere record of the arguments.
- Shell.ReadLoop: inputs are shorter than 2^64 bytes, the range of the index, and lines shorter than 2^31 - 1.
- Shell.Process: lines of 2^31 bytes and more, on which the signed index overflows.
- GetDelim.GetDelim: buffers that its stores leave (`WritesInsideIff`), where the behaviour is undefined; streams near 2^64 bytes; allocation failure.
- LexGetline.GetLine: buffers stay below 2^31 bytes, the range of the size fgets takes.
- NumberPrinters.PrintSigned: not called with the least value, on which it does not end (`PrintSignedEndsIff`).
- GptLayout.Device.Configure: headers and entries are byte strings of the right sizes; writes behind the end of the device are left out; checksums are zlib's and not part of this model.
- BIOS calls other than disk reads, mode switching, screen memory and cursor: output is a sequence of characters.
- The GPT scan and the file search of the FAT32 loader (boot/i386_fat.old/boot0.asm:145-221), which are unfinished.
- fork, exec, built-in commands, prompts, locales and option parsing.
- The definition and rule parsers of lex, which only print that they were reached; its whitespace helpers.
- The FAT reader, the descriptor table creator, amake, uname and headers: easy or no algorithms.
