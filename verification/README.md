# BFD: archives, the a.out linker and their data structures

A Dafny model of parts of the BFD library of binutils, with proofs about whole files, whole runs and whole
lists rather than single calls.  `dafny verify dfyconfig.toml` checks everything.

* **Archives** (`Ar*.dfy`, `Archive.dfy`, `Decimal.dfy`).  The writer builds name table, index and members; the
  reader opens arbitrary bytes, walks them and keeps a cache of open elements.  Main results: what is written
  reads back (`ArRoundTrip.ArchiveReadsBack`), the index is true exactly under a stated guard
  (`ArIndex.IndexIsTrue`) and leads every symbol to its member (`ArIndex.IndexFinds`), and every walk makes progress (`ArWalk.WalkProgresses`).
* **The a.out final link** (`AoutIncludes`, `AoutSymbols`, `AoutCopy`, `AoutMeaning`, `AoutOutput`, `AoutLink`,
  `AoutFinal`).  A class with the fields of the link state and the output file as bytes.  Its invariant says that hash entries and output
  symbols match one to one and by name, that the symbol table in the file encodes the output symbols, and that the
  two reloc areas hold what was written and keep room for the rest.  `AoutFinal.Link` carries it over a whole run,
  together with what every symbol means to a reader (`AoutMeaning.CopyIsTrue`, `AoutSymbols.EntryReadsBack`).
* **Relocation** (`AoutReloc`, `PartialLink`, `RelocOverflow`, `RelocRecords`).  What `ld -r` does to a reloc
  against what a final link makes of it, what every field of a linked section reads as, the exact range of two branch
  relocs, and records in three formats.
* **Layout** (`Layout`), **the ARC GOT** with what a dynamic loader makes of it (`ArcGot`), **the section list** (`SectionList`) and **the in-memory
  file** (`MemoryFile`).

Things the proofs brought to light, each with its exact condition:

* Or-ing N_EXT into a weak type code turns weak data into weak bss and weak absolute into weak text
  (`AoutSymbols.WrittenSection`).
* The 64-bit index writer does not count BSD 4.4 names, so its offsets are too small in a BSD 4.4 archive that
  falls back to it (`ArIndex.IndexIsTrue`, `ArIndex.LongNamesMislead`); the BSD writer counts contents that thin
  archives do not store (`ArArmap.StepsExact`, `ArIndex.ThinBsdMisleads`).
* The position of the first member is predicted in an unsigned int (`ArArmap.FirstExact`,
  `ArIndex.LongTableMisleads`).
* Pc-relative relocs survive `ld -r` only when the patched section starts at the right vma
  (`PartialLink.PartialLinkMeans`, `PartialLink.DisplacementShifts`).
* A reloc against an indirect, warning or new entry without a symbol gets a negative symbol number
  (`AoutLink.FinalLink.RelocIndex`, `AoutFinal.StrandedReloc`).
* A common block of size zero is written as an undefined reference (`AoutSymbols.EntryReadsBack`).
* The dynamic reloc reserved for a local symbol's normal GOT entry in position-independent code is never written
  (`ArcGot.ReserveIsLeast`).
* Names with spaces at full length, newlines or backslashes do not read back (`ArRoundTrip.NameFoundIff`).

Integers are unbounded; where the width matters a modulus is written out.  The clock, user ids and file modes
enter as header columns, dynamic symbol indices and hash contents as parameters.

## Model

| member | source | states |
|---|---|---|
| `ArHeader.SizeFits` | binutils/bfd/archive.c:189-210 | a size column can be written exactly when the size has at most ten digits |
| `ArHeader.ShortNameReadsBack` | binutils/bfd/archive.c:2054-2089 | a short name parses back to itself if and only if its spaces are guarded by the padding slash |
| `ArHeader.TableFieldReadsBack` | binutils/bfd/archive.c:1742-1782 | a name-table index written into a header is parsed back as that index |
| `ArHeader.InlineFieldReadsBack` | binutils/bfd/archive.c:1791-1830 | a BSD 4.4 `#1/len` header is parsed back with that length, with or without a name table |
| `ArHeader.HeaderReads` | binutils/bfd/archive.c:483-614 | a built header is accepted by the reader and gives back its size |
| `ArNameTable.CountPass` | binutils/bfd/archive.c:1612-1694 | the first pass counts exactly the bytes of the name table and repairs the short names |
| `ArNameTable.FillPass` | binutils/bfd/archive.c:1696-1786 | the second pass writes exactly the counted bytes and notes the offset of every long name |
| `ArNameTable.ConstructExtendedNameTable` | binutils/bfd/archive.c:1596-1786 | both passes together: the table of all long names, and each header's name field short or pointing into it |
| `ArNameTable.CleanInPlace` | binutils/bfd/archive.c:1365-1378 | the in-place clean-up equals the pure rewriting of newline, slash and backslash |
| `ArNameTable.TableNameReadsBack` | binutils/bfd/archive.c:431-464 | the index in a header selects exactly the original name from the cleaned-up table, for any number of names, if and only if it holds no newline and no backslash |
| `ArArmap.CollectSymbols` | binutils/bfd/archive.c:2348-2436 | the index holds every symbol that is defined or common and seen outside its file, once, under its own member and in order, and nothing else; with the running name length |
| `ArArmap.CollectedIndex` | binutils/bfd/archive.c:2379-2428 | exactly those symbols, by their places in the members |
| `ArArmap.StepOver` | binutils/bfd/archive.c:2795-2802 | one step of a writer's position past a member, which stays even |
| `ArArmap.StepsExact` | binutils/bfd/archive.c:2462-2616 | the predicted distance of a member is the real one if and only if every member before it is stepped over exactly; BSD never predicts too little, COFF and 64-bit never too much |
| `ArArmap.FirstExact` | binutils/bfd/archive.c:2469-2482 | the first member is where it was predicted if and only if map size plus name table fits an unsigned int |
| `ArArmap.PadIsLeast` | binutils/bfd/archive64.c:165-180 | the index is padded by the least that makes it even, or a multiple of eight in the 64-bit format |
| `ArArmap.PlaceByMember` | binutils/bfd/archive.c:2773-2804 | the COFF and 64-bit offset walk gives the offset of each entry's member, or fails exactly when a COFF offset passes 4 GB |
| `ArArmap.PlaceByEntry` | binutils/bfd/archive.c:2555-2593 | the BSD offset walk, which only moves forward, gives the same offsets, or fails exactly past 4 GB |
| `ArArmap.Write64` | binutils/bfd/archive64.c:149-246 | the 64-bit writer emits header, count, entries, names and padding with the walked offsets |
| `ArArmap.Write32` | binutils/bfd/archive.c:2686-2824 | the COFF and BSD writers; in a BFD64 build the pre-check pass makes the 4 GB failure of the second pass unreachable |
| `ArArmapRead.FillCarsyms` | binutils/bfd/archive.c:1076-1092 | the carsym loop pairs the stored positions with the names in order |
| `ArArmapRead.WrittenIsMap` | binutils/bfd/archive64.c:149-246 | what a writer emits is an index from which its own (name, offset) pairs are read |
| `ArArmapRead.ArmapReadsBack` | binutils/bfd/archive.c:922-1100 | reading an index at the front of any file returns the same pairs in order, and what follows starts right behind it (BSD, COFF and 64-bit) |
| `ArArmapRead.SecondMapSkipped` | binutils/bfd/archive.c:1102-1117 | a second index behind the first is stepped over exactly |
| `ArWalk.WalkProgresses` | binutils/bfd/archive.c:787-816 | on arbitrary bytes of a non-thin archive, elements start at least a header apart, in order, inside the file; so the walk ends |
| `ArItems.WalkFinds` | binutils/bfd/archive.c:644-743 | a walk over soundly stored members finds exactly them and then the end |
| `ArItems.ReadAtDistance` | binutils/bfd/archive.c:644-743 | reading at the true distance of a member gives that member and its contents |
| `ArWrite.CopyContents` | binutils/bfd/archive.c:2259-2275 | the buffered copy loop copies all bytes of a member |
| `ArWrite.NameHeaders` | binutils/bfd/archive.c:2203-2205 | the naming pass leaves the name table and every name field as specified, in both name styles |
| `ArWrite.WriteMember` | binutils/bfd/archive.c:2244-2282 | header, inline name, contents and padding of one member, or failure exactly when its size does not fit |
| `ArWrite.WriteMap` | binutils/bfd/archive.c:2312-2460 | the index of the archive after leading `__.SYMDEF` members are dropped, and how many those are |
| `ArWrite.WriteArchiveContents` | binutils/bfd/archive.c:2153-2308 | the bytes of a whole archive: magic, index, name table, members; or the error |
| `ArRoundTrip.NameFoundIff` | binutils/bfd/archive.c:483-614 | a stored member is found under its own name if and only if the name passes the guards of its form |
| `ArRoundTrip.OpenReadsBack` | binutils/bfd/archive.c:818-920 | opening a written archive finds its index, its name table and the first member at the predicted position |
| `ArRoundTrip.ArchiveReadsBack` | binutils/bfd/archive.c:787-816 | whole-archive round trip: the same base names, date, owner and mode columns and contents in order, then the end; every member without an index, with one all but the leading ones called `__.SYMDEF` |
| `Archive.DroppedAre` | binutils/bfd/archive.c:2343-2346 | the members dropped are the leading ones called `__.SYMDEF`, and no other |
| `Archive.BasenameIs` | binutils/bfd/archive.c:1428-1432 | the stored name is what follows the last slash, or the whole name |
| `ArIndex.IndexIsTrue` | binutils/bfd/archive.c:2312-2460 | the stored offset of an index entry is the position of its member's header if and only if index and name table fit an unsigned int and the writer steps exactly over the members before it |
| `ArIndex.TruePositionReads` | binutils/bfd/archive.c:748-755 | reading at that position gives that member's name and contents |
| `ArIndex.IndexFinds` | binutils/bfd/archive.c:2312-2460 | looking a symbol up works: every symbol that belongs in the index is found under its name in the archive as opened and leads to its own member, name and contents; and every entry is such a symbol |
| `ArIndex.ThinIndexIsTrue` | binutils/bfd/archive64.c:202-225 | in a thin archive every header stands at its position, and the offset that the COFF or 64-bit writer stores for it is that position if and only if index and name table fit an unsigned int |
| `ArIndex.LongNamesMislead` | binutils/bfd/archive64.c:219-224 | an archive that falls back to the 64-bit index and stores a wrong offset: 5 GB under a 17-byte BSD 4.4 name, then an object |
| `ArIndex.LongTableMisleads` | binutils/bfd/archive.c:2708-2712 | an archive whose announced first position wraps: one object under a name of almost 4 GB |
| `ArIndex.ThinBsdMisleads` | binutils/bfd/archive.c:2563-2575 | a thin archive whose second member the BSD writer announces 100 bytes too late |
| `ArCache.ArchiveBfd.GetElement` | binutils/bfd/archive.c:644-743 | a lookup returns the cached object or a new one, with the outcome of reading the file; position p is cached as e iff e is the live element with key p |
| `ArCache.ArchiveBfd.Close` | binutils/bfd/archive.c:2859-2877 | closing an element clears exactly its slot; the assertion in the code holds |
| `ArCache.ArchiveBfd.CloseAll` | binutils/bfd/archive.c:2826-2857 | closing the archive closes every element and empties the cache |
| `AoutIncludes.SumString` | binutils/bfd/aoutx.h:5179-5194 | the character loop sums the name with the digit run after each `(` erased |
| `AoutIncludes.ScanHeader` | binutils/bfd/aoutx.h:5159-5196 | the first scan sums the depth-0 stabs up to the matching N_EINCL |
| `AoutIncludes.StrikeHeader` | binutils/bfd/aoutx.h:5231-5252 | the second scan strikes out, in place, exactly the depth-0 stabs and the matching N_EINCL |
| `AoutIncludes.RunOverForest` | binutils/bfd/aoutx.h:5156-5254 | on nested headers the loop does what elimination means on the forest they form, whatever follows |
| `AoutIncludes.EliminateNests` | binutils/bfd/aoutx.h:5156-5254 | what is left opens and closes the same headers |
| `AoutIncludes.ExclIff` | binutils/bfd/aoutx.h:5198-5225 | every header comes out in order, as N_EXCL if and only if one of the same name and sum was seen before or occurs earlier in the symbols |
| `AoutIncludes.EliminationIsExact` | binutils/bfd/aoutx.h:5156-5254 | every well-nested input is a forest, the loop is elimination on it, and the output is well nested |
| `AoutSymbols.WrittenSection` | binutils/bfd/aoutx.h:3676-3697 | a definition is written with the type of its own section if and only if it is not weak in data or absolute |
| `AoutSymbols.WeakDataIsMisread` | binutils/bfd/aoutx.h:3684-3692 | a weak definition in data is written as one in bss |
| `AoutSymbols.EntryReadsBack` | binutils/bfd/aoutx.h:3066-3190 | a reader takes the symbol of an entry for what the entry is, kind, section, address and size, if and only if it is no weak definition in data or absolute and no common block of size zero |
| `AoutSymbols.NothingIsStripped` | binutils/bfd/aoutx.h:3636-3657 | an entry is passed over only if it stands for nothing or may be stripped, and written only if it may not or a reloc needs it |
| `AoutSymbols.JudgeMaps` | binutils/bfd/aoutx.h:4876-5148 | a skipped symbol shares the position of its entry or has none; only a symbol whose entry is unwritten is copied for it |
| `AoutOutput.NumberedIsExact` | binutils/bfd/aoutx.h:3730-3732 | an entry with an index has exactly one output symbol standing for it, at that index; one without has none |
| `AoutOutput.NumberLeadsToName` | binutils/bfd/aoutx.h:3712-3732 | the symbol at an entry's index has the entry's name, and is the entry's own symbol with type and value unless it was copied from an input file |
| `AoutOutput.AddStringOk` | binutils/bfd/aoutx.h:1816-1843 | after a name is added every stored name still stands at its offset, NUL-terminated |
| `AoutOutput.NlistReadsBack` | binutils/bfd/aoutx.h:3712-3722 | an nlist entry reads back as written if and only if string index and value are unsigned words and the description a half word |
| `AoutOutput.SymTableGrows` | binutils/bfd/aoutx.h:3712-3726 | a new symbol extends the encoded table by one entry and changes no other |
| `AoutOutput.EntryAt` | binutils/bfd/aoutx.h:3712-3726 | entry p of the encoded table is the encoding of output symbol p |
| `AoutLink.FinalLink.constructor` | binutils/bfd/aout-tic30.c:689-700 | the cursors start at the end of data, after a_trsize bytes more, and after a_drsize more |
| `AoutLink.FinalLink.WriteOther` | binutils/bfd/aoutx.h:3617-3735 | writes what the hash entry calls for at the symbol cursor and numbers it; the invariant holds before and after |
| `AoutLink.FinalLink.OneHeader` | binutils/bfd/aoutx.h:5156-5253 | a header's sum, whether it was seen, and the stabs struck out if so |
| `AoutLink.FinalLink.OneSymbol` | binutils/bfd/aoutx.h:4876-5282 | one turn of the symbol loop: what is buffered, numbered, mapped and struck out |
| `AoutLink.FinalLink.CopySymbols` | binutils/bfd/aoutx.h:4869-5282 | the symbol loop follows the turns of its specification and encodes what it writes |
| `AoutCopy.PlainSymbolsEliminated` | binutils/bfd/aoutx.h:4869-5282 | nothing stripped or discarded, no indirect or warning symbols: the symbols without a hash entry come out exactly as header elimination says, and those with one open and close no header |
| `AoutCopy.NestedStaysNested` | binutils/bfd/aoutx.h:5156-5254 | well-nested N_BINCL/N_EINCL input, with any global symbols among it, gives well-nested output symbols |
| `AoutMeaning.JudgeRelocates` | binutils/bfd/aoutx.h:4960-5114 | a symbol that is copied keeps its distance from the start of its section, or has the address and section of the definition its entry leads to, or the size of the common block |
| `AoutMeaning.JudgeStays` | binutils/bfd/aoutx.h:4953-5146 | a symbol is copied only if the strip and discard rules let it stay, and dropped only if they do not or its entry was written |
| `AoutMeaning.JudgeFlags` | binutils/bfd/aoutx.h:4893-5015 | an indirection or warning that leads nowhere lets the symbol after it through unchanged, any other drops it; no other symbol touches the next |
| `AoutMeaning.CopyIsTrue` | binutils/bfd/aoutx.h:4869-5282 | after the whole loop every symbol was copied with its meaning, shares the number of its entry, or was left out for a reason: rules, repeated header, resolved indirection or an entry that stands for nothing |
| `AoutMeaning.FileSymMeans` | binutils/bfd/aoutx.h:4845-4866 | the symbol of the file is a text symbol at the start of its text in the output, there exactly when the rules let it stay |
| `AoutMeaning.ResolveEnds` | binutils/bfd/aoutx.h:4938-4949 | a chain of indirections and warnings that ends at all is followed to its end |
| `AoutMeaning.TargetsAreReal` | binutils/bfd/aoutx.h:4934-4949 | relocs against a symbol go by the entry at the end of its chain |
| `AoutLink.FinalLink.WriteSymbols` | binutils/bfd/aoutx.h:4820-5300 | the symbol of the file and what the symbol loop writes land at the cursor; every symbol copied keeps its place in its section or takes over what its entry resolves to, and every one left out has a reason; numbering stays exact, the symbol map points at the symbol of the right entry or at a copy under the symbol's own name, and well-nested headers stay so |
| `AoutLink.FinalLink.RelocIndex` | binutils/bfd/aoutx.h:4121-4160 | the number a reloc gets is that of the output symbol for its entry, written after all if it was stripped; it is negative exactly for entries that stand for nothing |
| `AoutLink.FinalLink.OneReloc` | binutils/bfd/aoutx.h:4403-4553 | a reloc in a relocatable link, rewritten against the section of its definition or the right output symbol |
| `AoutLink.FinalLink.WriteRelocs` | binutils/bfd/aoutx.h:4797-4812 | relocs land in their area without touching the other two; both in-code assertions hold |
| `AoutLink.FinalLink.LinkInputSection` | binutils/bfd/aoutx.h:4739-4815 | all relocs of a section are rewritten in order and appended to the area of the section |
| `AoutLink.FinalLink.LinkInput` | binutils/bfd/aoutx.h:5304-5356 | symbols, then text, then data of one file: the whole trace it leaves in symbols, numbering and reloc areas, within the reloc space counted for it |
| `AoutLink.FinalLink.RelocLinkOrder` | binutils/bfd/aoutx.h:3738-3953 | one more reloc in text or data, at the number of its symbol; anywhere else it aborts |
| `AoutLink.FinalLink.WriteRest` | binutils/bfd/aoutx.h:5593-5596 | the traversal writes what each entry calls for, in order; afterwards nothing is left to decide for any entry |
| `AoutLink.TraverseStrips` | binutils/bfd/aoutx.h:3636-3657 | the traversal brings out only unwritten entries that stand for something and may not be stripped unless a reloc needs them |
| `AoutFinal.CountRelocs` | binutils/bfd/aoutx.h:5405-5466 | the reloc areas are sized for every input file once and every reloc order |
| `AoutLink.AreaSizeIs` | binutils/bfd/aoutx.h:5405-5440 | the space counted for a section of a file is the length of its rewritten records |
| `AoutFinal.MarkSections` | binutils/bfd/aoutx.h:5547-5556 | exactly the input sections that a link order puts into the output are marked |
| `AoutFinal.LinkOrders` | binutils/bfd/aoutx.h:5544-5591 | each file is handled once, at its first mention, with its full trace; the room left always covers the files and orders still to come |
| `AoutFinal.RelocOrders` | binutils/bfd/aoutx.h:5598-5618 | every reloc order leads to its reloc, in order, within the room left |
| `AoutFinal.DecidedIsNumbered` | binutils/bfd/aoutx.h:5593-5596 | once every entry is decided, each one that stands for something and may not be stripped has a number |
| `AoutFinal.Finish` | binutils/bfd/aoutx.h:5653-5679 | the string table follows the symbols, its size word counts it, every symbol reads back from the file at its position and its index leads to its name |
| `AoutFinal.Link` | binutils/bfd/aoutx.h:5365-5680 | over a whole run: numbering is exact; every entry that may not be stripped has its symbol, with its name, and a reader takes it for what the entry is exactly when a.out can express it; symbols copied from files keep their place in their section or take over what their entry resolves to; headers stay nested; the reloc areas hold exactly the relocs of files and orders and never collide; the finished file holds all symbols and names |
| `AoutFinal.StrandedReloc` | binutils/bfd/aoutx.h:3776-3790 | a reloc against a set symbol that is not being built gets a negative number |
| `AoutReloc.FieldSame` | binutils/bfd/reloc.c:1538-1544 | values equal modulo 2^32 put the same bits into any field that ends below bit 32 |
| `AoutReloc.ExtFits` | binutils/bfd/aoutx.h:179-210 | every field of the extended howto table ends below bit 32 |
| `AoutReloc.LinkSection` | binutils/bfd/aoutx.h:4554-4735 | patching a section in place carries out every reloc: a field that no later reloc touches reads as the shifted value modulo its width, the bits around it and all bytes no reloc covers are what they were |
| `AoutReloc.NewBytesRead` | binutils/bfd/reloc.c:1538-1544 | the bytes that replace a field read as floor(value / 2^rightshift) modulo 2^bits, the other bits as before; a reversed word as the sum, little-endian |
| `AoutReloc.ValueIsIntended` | binutils/bfd/aoutx.h:4559-4649 | the value handed to the inserter is symbol plus addend, or the addend moved with its section, less the start of the section or the field for displacements |
| `AoutReloc.LinkedHolds` | binutils/bfd/aoutx.h:4554-4735 | the same of all relocs applied one after the other |
| `AoutReloc.WholeWord` | binutils/bfd/aoutx.h:4559-4682 | a 32-bit reloc reads back as (symbol + addend) modulo 2^32 |
| `PartialLink.TwoStepsDiffer` | binutils/bfd/aoutx.h:4403-4553 | `ld -r` and a final link hand the inserter the value of one link plus an exact discrepancy, modulo 2^32 |
| `PartialLink.PartialLinkMeans` | binutils/bfd/aoutx.h:4403-4649 | the two routes agree modulo 2^32 if and only if that discrepancy vanishes: always for absolute relocs, and for pc-relative ones in sections at vma 0 |
| `PartialLink.DisplacementShifts` | binutils/bfd/aoutx.h:4559-4649 | a concrete displacement for which the two routes are 32 apart |
| `PartialLink.InPlaceMeans` | binutils/bfd/aoutx.h:4082-4251 | in-place standard relocs obey the same law modulo the width of their field |
| `PartialLink.PartialLinkOfSections` | binutils/bfd/aoutx.h:4403-4735 | for a section made of any number of files, patching the intermediate section gives the bytes of linking each file directly |
| `PartialLink.PartialLinkIsTrue` | binutils/bfd/aoutx.h:4403-4735 | after both steps every reloc of every file has been carried out on its contents with the addresses of a direct link |
| `RelocOverflow.Tic30IsExact` | binutils/bfd/aout-tic30.c:426-520 | no overflow exactly when floor(relocation/4) plus the sign-extended field fits 16 signed bits; then the stored field is that sum |
| `RelocOverflow.Tic30FinalLink` | binutils/bfd/aout-tic30.c:523-547 | the same for the two bytes in the section; all other bytes stay |
| `RelocOverflow.ArmIsExact` | binutils/bfd/aout-arm.c:259-288 | the branch checks hold exactly for displacements in [-2^25, 2^25); what is stored decodes to the displacement, the top byte stays |
| `RelocOverflow.FixPcrel26` | binutils/bfd/aout-arm.c:234-289 | ok exactly for multiples of 4 in that range when the fix is performed; otherwise the word is unchanged |
| `RelocRecords.TypeByteReadsBack` | binutils/bfd/aoutx.h:303-316 | a type byte names its howto if and only if it is one of ARM's ten, ns32k's eighteen, or reachable from reloc_type_lookup |
| `RelocRecords.ArmReadsBack` | binutils/bfd/aout-arm.c:94-134 | each ARM howto and extern flag comes back in either byte order |
| `RelocRecords.Ns32kReadsBack` | binutils/bfd/aout-ns32k.c:143-193 | each ns32k howto and extern flag comes back |
| `RelocRecords.RecordReadsBack` | binutils/bfd/aoutx.h:1945-2030 | a record decodes to itself if and only if its howto does, its symbol is in the table and it is not base-relative against a section |
| `RelocRecords.Squirt` | binutils/bfd/aoutx.h:2373-2442 | the writing loop emits the records in order |
| `RelocRecords.Slurp` | binutils/bfd/aoutx.h:2284-2369 | the reading loop decodes as many records as fit |
| `RelocRecords.ListReadsBack` | binutils/bfd/aoutx.h:2209-2280 | a list of relocs reads back if and only if each of its records does |
| `AoutLink.ExtRecordReadsBack` | binutils/bfd/aoutx.h:4372-4394 | an extended record reads back as the reloc it was written from if and only if index, type, address and addend fit their fields |
| `AoutLink.StdRecordReadsBack` | binutils/bfd/aoutx.h:4040-4078 | a standard record reads back if and only if index, type bits and address fit and there is no addend |
| `AoutLink.StdPcrel` | binutils/bfd/aoutx.h:4056-4078 | a standard reloc counts as a displacement if and only if its record says so |
| `AoutLink.RelAt` | binutils/bfd/aoutx.h:4797-4803 | record k of a written reloc area is the encoding of reloc k |
| `Layout.AlignIsLeast` | binutils/bfd/bfd-in2.h:283-293 | aligning gives the least multiple of the boundary not below the address |
| `Layout.BfdAlignNeverWraps` | binutils/bfd/bfd-in2.h:286-293 | BFD_ALIGN aligns exactly when there is room below 2^64 and gives the last address otherwise |
| `Layout.Exec.AdjustO` | binutils/bfd/aoutx.h:907-965 | the file has no gap; without user-set addresses memory has none; a bss address above the data stretches the data to it |
| `Layout.Exec.AdjustZ` | binutils/bfd/aoutx.h:967-1082 | text starts where the user or the target says, or at 0 with relocs; it ends on a page, data follows in the file, and a_data + a_bss is the larger of a_data and data plus bss when bss follows data |
| `ArcGot.ReserveCovers` | binutils/bfd/arc-got.h:421-506 | the dynamic relocs written for an entry never exceed those reserved for it, whatever became of the symbol |
| `ArcGot.ReserveIsLeast` | binutils/bfd/arc-got.h:215-261 | and some symbol needs all of them, except for the normal entry of a local symbol in position-independent code, whose reloc is never written |
| `ArcGot.RelasMean` | binutils/bfd/arc-got.h:421-506 | under the loader's reading of the reloc types: a preemptible normal slot has one reloc, naming its own symbol, and holds its address; one defined here moves with the load base; a general-dynamic pair is module and offset; an initial-exec word the thread offset; every reloc lies in its slot |
| `ArcGot.LoadedWithin` | binutils/bfd/arc-got.h:421-506 | what the loader makes of a word depends only on the relocs for its own slot |
| `ArcGot.SlotsDisjoint` | binutils/bfd/arc-got.h:197-261 | slots of different allocations do not overlap |
| `ArcGot.ByteHasSlot` | binutils/bfd/arc-got.h:197-261 | every byte the table grew by belongs to a slot |
| `ArcGot.Got.Fill` | binutils/bfd/arc-got.h:215-261 | a first request appends one slot and reserves its relocs, a repeated one changes nothing, a failed one allocates nothing |
| `ArcGot.Got.Fix` | binutils/bfd/arc-got.h:264-415 | the value goes into its own slot once, and is the thread-local offset or address that leads to the symbol; every value stored before is still there |
| `ArcGot.Got.CreateRelas` | binutils/bfd/arc-got.h:418-506 | the relocs of an entry are written once, within the space reserved and inside its slot, and make of its words what the program should find there |
| `ArcGot.Got.CreateAllRelas` | binutils/bfd/arc-got.h:508-525 | the same for every slot of a symbol, all relocs of the table taken together |
| `SectionList.InsertShape` | binutils/bfd/bfd-in2.h:1735-1802 | any of the four insertions turns pointers for a sequence into pointers for the sequence with the section inserted |
| `SectionList.RemoveShape` | binutils/bfd/bfd-in2.h:1719-1734 | removal leaves pointers for the rest, although the removed section keeps its own |
| `SectionList.RemovalTest` | binutils/bfd/bfd-in2.h:1803-1804 | the removal test is true if and only if the section is not in the list, despite stale pointers |
| `SectionList.Sections.RemovedFromList` | binutils/bfd/bfd-in2.h:1803-1804 | the same of the pointers in memory |
| `SectionList.Sections.Remove` | binutils/bfd/bfd-in2.h:1719-1734 | the list loses exactly that section |
| `SectionList.Sections.Append` | binutils/bfd/bfd-in2.h:1735-1753 | the section becomes the last |
| `SectionList.Sections.Prepend` | binutils/bfd/bfd-in2.h:1754-1772 | the section becomes the first |
| `SectionList.Sections.InsertAfter` | binutils/bfd/bfd-in2.h:1773-1787 | the section comes right after the given one |
| `SectionList.Sections.InsertBefore` | binutils/bfd/bfd-in2.h:1788-1802 | the section comes right before the given one |
| `MemoryFile.Memory.BRead` | binutils/bfd/bfdio.c:493-511 | reads the bytes of the plain file from the position, short only at the end |
| `MemoryFile.Memory.BWrite` | binutils/bfd/bfdio.c:513-540 | writes over the plain file; capacity stays size rounded up to 128 with a zero tail |
| `MemoryFile.Memory.BSeek` | binutils/bfd/bfdio.c:548-600 | moves as in the plain file: a gap of zeros in write mode, failure at the end in read mode, failure at the start below zero |
| `MemoryFile.Memory.MakeReadable` | binutils/bfd/opncls.c:876-915 | what was written can be read from the start and no longer grows |
| `MemoryFile.Perform` | binutils/bfd/bfdio.c:493-600 | any run of reads, writes and seeks refines the plain file |
| `MemoryFile.RunHoldsLast` | binutils/bfd/bfdio.c:513-600 | a file written from scratch holds at each position the byte last written there, zero if none was |

## Left out

- ArNameTable.CountPass: leaves out traditional format, which cuts long names short, and the name table of thin
  archives.
- ArNameTable.FillPass: leaves out the same, and two consecutive members that share one file name string, which the
  table stores once.
- ArNameTable.ConstructExtendedNameTable: leaves out what its two passes leave out.
- The i960 alignment hack, nested thin archives and reading thin archives.
- Members copied from another archive with their old headers, and the file-system stamps of headers and index.
- A BSD index entry whose name offset lies outside the index, which the reader does not accept from the writers.
- ArRoundTrip.ArchiveReadsBack: is stated for files below 2^63 bytes, because file_ptr is signed.
- ArWalk.WalkProgresses: covers non-thin archives only; thin ones take their next position from the header end.
- Allocation failure, read and write errors, callbacks and warning messages; a call that aborts is a failed call.
- AoutLink.FinalLink.LinkInputSection: does not include the section contents, which `AoutReloc.LinkSection` patches;
  relocs must name symbols of their file, which the code does not check.
- AoutLink.FinalLink.LinkInput: does not include the section contents either, nor dynamic objects.
- AoutLink.FinalLink.RelocLinkOrder: does not store the addend of a standard reloc into the section contents.
- AoutReloc.LinkSection: leaves out base-relative relocs and the overflow report, and needs relocs that lie in
  their section, where the code aborts otherwise.
- PartialLink.PartialLinkOfSections: needs an intermediate section below 2^31 bytes, because reloc addresses are
  read as signed words.
- AoutLink.FinalLink.WriteSymbols: chains of indirections are followed at most as often as there are entries, so a
  cyclic chain, on which the code does not return, is cut; include sums do not wrap at 2^64.
- AoutFinal.Link: needs reloc link orders to occur in relocatable links only, as the linker emits them, and stabs
  without hash entries, as reading the symbols leaves them; dynamic-link hooks and inputs that are not a.out are not
  modelled.
- A string offset above 2^32 is stored modulo 2^32.
- RelocOverflow.Tic30FinalLink: needs two bytes at the address; at the very end of a section the code reads past it.
- Layout.AlignIsLeast: is about alignment without wrap-around; `Layout.BfdAlignNeverWraps` adds the test for it.
- Layout.Exec.AdjustZ: addresses do not wrap around, except in the size of contiguously mapped text.
- adjust_n_magic, the 24- and 32-bit C30 fields, and the storage methods of ns32k immediates and displacements.
- ArcGot.Got.Fix: the symbol value, its section and whether it resolves locally are parameters.
- ArcGot.RelasMean: the dynamic loader is not part of BFD; its reading of the five reloc types is stated in the model.
- Local GOT lists per input file: one list per symbol, local or global, is modelled.
- MemoryFile.Memory.BSeek: positions inside archive elements, which are shifted by the origins of their parents.
- Core files, target vectors, machine tables, symbol printing, line lookup and the PLT.
