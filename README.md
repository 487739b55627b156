# Deferred ELF layout bookkeeping

This project models the deferred content builders that an ELF generator for
a binary-rewriting toolkit uses to lay out its output file
(`src/generate/concretedeferred.h`). Each builder collects rows while the
output is declared. Its size is known before any address is final, and its
bytes are only produced once every address is frozen. The model covers:

- the symbol table (`SymbolTableContent`), whose rows stay sorted by
  `SymbolInTable`'s order: NULL, SECTION, LOCAL, UNDEF, GLOBAL. The table
  counts the non-global rows in `firstGlobalIndex`, the header's `sh_info`
  (System V ABI, chapter 4, "Symbol Table").
- the section and program header tables (`ShdrTableContent`,
  `PhdrTableContent`) and segments (`SegmentInfo`).
- the layout rule that places a segment's sections one after another, each
  at its own alignment (`assignAddressesToSections`; System V ABI, chapter
  5, "Program Header").
- page padding between segments (`PagePaddingContent`), with a page size of
  0x200000.
- the three relocation table builders, maps keyed by source address.
- the `.dynamic` section (`DynamicSectionContent`, `DynamicDataPair`).
- the init array (`InitArraySectionContent`).

Files:

- `deferred.dfy` holds addresses, errors, rounding, and the keyed
  append-only row list that every table builder shares.
- `symtab.dfy`, `headers.dfy`, `padding.dfy`, `reloc.dfy`, `dynamic.dfy`
  and `initarray.dfy` hold one builder family each.

Builders that the source mutates are classes. Their methods say exactly
what the new state is. Orders, placements and encodings are functions with
lemmas about them.

`src/generate/concretedeferred.cpp` and `src/generate/deferred.h` are not
part of this model. The header gives the data members and signatures, but
not the bodies. Where a body is not shown, the model follows the layout
engine's design:

- **Duplicate keys.** Every keyed builder rejects a second row under a key
  it already holds (`DuplicateKey`). It never overwrites the existing row.
- **Symbol tie-break.** Two symbols of the same type are ordered by the
  null symbol first, then name (lexicographic), then symbol identity, then
  binding. This order is total and strict.
- **`getTypeFor`.** A function whose symbol has local binding gets a LOCAL
  row. Any other function gets a GLOBAL row.
- **Alignment.** An alignment of 0 counts as 1, as ELF reads it. A
  segment's sections are placed from `addr`. Each one goes at its own
  alignment boundary at or after the previous one's end. Placement fails
  (`Misaligned`) if a section's alignment exceeds the segment's.
- **Page padding.** The size is `roundUp(desiredOffset, 0x200000)` minus
  the previous section's end. A desired offset before that end is an error
  (`NegativeSize`), even when the rounded-up boundary still lies past the
  end. Under this rule the header's default `desiredOffset` of 0 is an
  error whenever the previous section ends after offset 0.
- **Relocations.** `RelocSectionContent::add` accepts an instruction source
  with a `DataOffsetLink`, `PLTLink` or `SymbolOnlyLink`. Anything else is
  `UnsupportedLink`.
- **Init array serialisation.** It runs the callbacks in registration
  order, then writes one pointer-sized word per slot.
- **`.dynamic` records.** Each row is a `DynamicDataPair` that `addPair`
  hands back, so the caller can still change its key or value. At
  serialise time each row becomes one record of two 64-bit words: the
  pair's current tag, then its current value, or the generator's value for
  a row added with a generator.

## Model

| member | source | states |
|---|---|---|
| Deferred.Add | src/generate/concretedeferred.h:120-175 | registering a row fails with DuplicateKey exactly when the key is already present; otherwise the old rows stay as a prefix, the new row is last, and key uniqueness is preserved |
| Deferred.AddAllSucceedsIffDistinct | src/generate/concretedeferred.h:120-175 | a run of registrations succeeds iff no key repeats, then the table is the rows in registration order; otherwise it stops with DuplicateKey |
| Deferred.RoundUp | src/generate/concretedeferred.h:103-116 | the result is a multiple of the alignment, at least the input and less than one alignment above it |
| Deferred.RoundUpIsLeast | src/generate/concretedeferred.h:103-116 | no multiple of the alignment at or above the input is smaller than RoundUp |
| SymbolTable.LessIrreflexive | src/generate/concretedeferred.h:33 | no key is below itself in SymbolInTable's order |
| SymbolTable.LessTransitive | src/generate/concretedeferred.h:33 | SymbolInTable's order is transitive |
| SymbolTable.LessTotal | src/generate/concretedeferred.h:33-34 | two distinct keys are always ordered one way: no ties |
| SymbolTable.InsertSortedElements | src/generate/concretedeferred.h:39-42 | inserting a key yields the old rows plus exactly that key (as a multiset) |
| SymbolTable.InsertSortedKeepsOrder | src/generate/concretedeferred.h:39-42 | inserting a new key into a sorted table keeps it strictly sorted |
| SymbolTable.CountNonGlobalInsert | src/generate/concretedeferred.h:53-56 | the non-GLOBAL count grows by one exactly when the inserted key is not GLOBAL |
| SymbolTable.GlobalBoundary | src/generate/concretedeferred.h:48-60 | in a sorted table the first CountNonGlobal rows are non-GLOBAL and every later row is GLOBAL |
| SymbolTable.LocalsPrecedeGlobals | src/generate/concretedeferred.h:20-26 | every non-GLOBAL row has a lower index than every GLOBAL row, with the boundary between them |
| SymbolTable.NullRowFirst | src/generate/concretedeferred.h:20-53 | the null key is least, so a sorted table holding it holds it at index 0 |
| SymbolTable.TypeForPlacesRow | src/generate/concretedeferred.h:55-62 | a function's row sits below the local/global boundary iff the function's symbol has local binding, and at or above it otherwise |
| SymbolTable.SymbolTableContent.constructor | src/generate/concretedeferred.h:50-51 | a new table is empty with firstGlobalIndex 0 |
| SymbolTable.SymbolTableContent.Declare | src/generate/concretedeferred.h:42 | a duplicate key is rejected with the table unchanged; a new key is inserted in order, the table stays sorted and firstGlobalIndex stays the non-GLOBAL count |
| SymbolTable.SymbolTableContent.AddNullSymbol | src/generate/concretedeferred.h:53 | inserts the NULL row (rejected if present) and moves the boundary by one; afterwards the NULL row is row 0 |
| SymbolTable.SymbolTableContent.AddSectionSymbol | src/generate/concretedeferred.h:54 | inserts a SECTION row and appends it to sectionSymbols; duplicates rejected |
| SymbolTable.SymbolTableContent.AddSymbol | src/generate/concretedeferred.h:55 | inserts a row typed by getTypeFor; only a LOCAL row moves the boundary; the new row lands below firstGlobalIndex iff the function's symbol has local binding |
| SymbolTable.SymbolTableContent.AddUndefinedSymbol | src/generate/concretedeferred.h:56 | inserts an UNDEF row and moves the boundary by one |
| SymbolTable.SymbolTableContent.IndexOfSectionSymbol | src/generate/concretedeferred.h:58-59 | returns the index of a SECTION row with that name, or NotFound exactly when no such row exists |
| SymbolTable.SymbolTableContent.GetFirstGlobalIndex | src/generate/concretedeferred.h:60 | the boundary splits the table: all rows before it are non-GLOBAL, all from it on are GLOBAL |
| SymbolTable.DeclarationScenario | src/generate/concretedeferred.h:53-60 | null, section S1, local sym1, undefined sym2, global sym3 give [NULL, S1, sym1, sym2, sym3] with boundary 4 |
| Headers.ShdrTableContent.Add | src/generate/concretedeferred.h:65-70 | appends one header row per section in insertion order; a section already present is rejected |
| Headers.SegmentInfo.constructor | src/generate/concretedeferred.h:80-81 | type, flags and alignment are as given (and constant thereafter); additionalMemSize is 0 and containsList empty |
| Headers.SegmentInfo.SetAdditionalMemSize | src/generate/concretedeferred.h:83 | sets additionalMemSize and may modify nothing else |
| Headers.SegmentInfo.AddContains | src/generate/concretedeferred.h:84 | appends the section at the end of containsList and may modify nothing else |
| Headers.PlacementFailsIffOveraligned | src/generate/concretedeferred.h:103 | placement fails exactly when some section's alignment exceeds the segment's |
| Headers.PlacementAligned | src/generate/concretedeferred.h:103 | every placed section sits at a multiple of its own alignment |
| Headers.PlacementChain | src/generate/concretedeferred.h:103 | each later section is at its predecessor's end rounded up to its own alignment, so never before that end |
| Headers.PlacementSound | src/generate/concretedeferred.h:103 | a placement starts at addr rounded up, aligns every section, and puts each section at the first aligned address at or after its predecessor's end |
| Headers.PlacementDisjoint | src/generate/concretedeferred.h:103 | every placed section ends at or before the start of every later one |
| Headers.PlacementExample | src/generate/concretedeferred.h:103 | sizes 0x10 and 0x20 from 0x400000 place the second section at 0x400010, ending at 0x400030 |
| Headers.PhdrTableContent.Add | src/generate/concretedeferred.h:101-102 | appends one segment row, pinned or floating; a segment already present is rejected |
| Headers.PhdrTableContent.AssignAddressesToSections | src/generate/concretedeferred.h:103 | the loop computes exactly the placement of the segment's containsList from addr |
| Padding.GetSize | src/generate/concretedeferred.h:106-116 | fails iff the desired offset is before the previous section's end; otherwise the padding ends on a page boundary at or after the desired offset and less than a page past it |
| Padding.GetSizeIsLeast | src/generate/concretedeferred.h:116 | no shorter padding reaches a page boundary at or after the desired offset |
| Padding.Serialize | src/generate/concretedeferred.h:117 | writes exactly getSize() zero bytes |
| Padding.PaddingExample | src/generate/concretedeferred.h:108-116 | previous end 0x1050 and desired offset 0x200000 give 0x1FEFB0 |
| Relocations.CodeRow | src/generate/concretedeferred.h:134-139 | a row exists iff the source is an instruction and the Link is data-offset, PLT or symbol-only; it is keyed by the source address; otherwise UnsupportedLink |
| Relocations.RelocSectionContent.Add | src/generate/concretedeferred.h:134-139 | unsupported kinds fail with UnsupportedLink; a duplicate source address fails with DuplicateKey; otherwise one row is appended; keys stay unique |
| Relocations.RelocSectionContent2.AddDataRef | src/generate/concretedeferred.h:155-156 | appends a data-reference row keyed by source; a duplicate source is rejected; keys stay unique |
| Relocations.DataRelocSectionContent.AddUndefinedRef | src/generate/concretedeferred.h:172 | appends a loader-symbol row keyed by the variable's address; a duplicate is rejected |
| Relocations.DataRelocSectionContent.AddDataRef | src/generate/concretedeferred.h:173-174 | appends a data-reference row keyed by source; a duplicate is rejected |
| Relocations.DataRelocSectionContent.AddTLSOffsetRef | src/generate/concretedeferred.h:175 | appends a TLS-offset row keyed by source; a duplicate is rejected |
| Dynamic.DynamicDataPair.constructor | src/generate/concretedeferred.h:183-184 | key as given; value as given, 0 by default |
| Dynamic.DynamicDataPair.SetKey | src/generate/concretedeferred.h:187 | sets the key and may modify nothing else |
| Dynamic.DynamicDataPair.SetValue | src/generate/concretedeferred.h:188 | sets the value and may modify nothing else |
| Dynamic.Evaluate | src/generate/concretedeferred.h:179-198 | one record per row in the same order, each with its pair's current key; a constant row's record carries its pair's current value, a generated row's record the generator's value |
| Dynamic.EncodeIndex | src/generate/concretedeferred.h:191-198 | record i occupies words 2i (tag) and 2i + 1 (value) |
| Dynamic.DecodeEncode | src/generate/concretedeferred.h:191-198 | re-reading serialised records recovers exactly the records in order |
| Dynamic.EncodeDecode | src/generate/concretedeferred.h:191-198 | words read back iff their count is even, and then re-encode to the same words |
| Dynamic.DynamicSectionContent.AddPair | src/generate/concretedeferred.h:197 | appends exactly one constant row at the end, backed by a new pair with that key and value, and returns that pair |
| Dynamic.DynamicSectionContent.AddGeneratedPair | src/generate/concretedeferred.h:195-196 | appends exactly one generator row at the end, backed by a new pair with that key and value 0, and returns that pair |
| Dynamic.DynamicSectionContent.WriteTo | src/generate/concretedeferred.h:191-198 | n rows serialise to 2n words, the records of the pairs as they are at that moment; the words read back as those records in insertion order |
| InitArray.InitArraySectionContent.AddPointer | src/generate/concretedeferred.h:205 | appends to the pointer list and may modify nothing else |
| InitArray.InitArraySectionContent.AddCallback | src/generate/concretedeferred.h:206 | appends to the callback list and may modify nothing else |
| InitArray.InitArraySectionContent.GetSize | src/generate/concretedeferred.h:207 | the size is a multiple of the pointer width, and that multiple is the pointer count |
| InitArray.InitArraySectionContent.WriteTo | src/generate/concretedeferred.h:208 | the trace is every callback in registration order, then every slot's word written in slot order, so no callback runs after a word is written; one word per pointer, each its thunk's value; the output length matches getSize() |
| InitArray.SizeIgnoresCallbacks | src/generate/concretedeferred.h:205-207 | adding a callback leaves the size unchanged; adding a pointer grows it by one pointer width |

## Left out

- Byte-exact `ElfXX_Sym`, `ElfXX_Shdr`, `ElfXX_Phdr` and `ElfXX_Rela` encodings are not modelled. Their layout comes from `elf/elfxx.h`, which is not part of this model. Header and relocation rows are kept as abstract records.
- `writeTo(std::ostream&)` is modelled as returning the written words or bytes, with no stream I/O.
- `DeferredStringList` and string-table offsets are not modelled, so the symbol table's `strtab` member is left out.
- A symbol row's value and size, taken lazily from the function's final address, are not modelled. Link resolution and the addresses of `Function`, `Instruction` and `Section` are external.
- Address thunks, generators and callbacks are modelled as handles. The functions that resolve them are parameters supplied at serialise time. A callback's own side effects are not modelled.
- `getTargetSection` of the three relocation builders is not modelled. It resolves a `SectionRef` through the external `SectionList`.
- Symbol.getName and SymbolInTable.get are accessors on external objects. They are modelled as fields.
- `SegmentInfo`'s getters are not separate members. The model reads the fields directly.
- Headers.PhdrTableContent.AssignAddressesToSections: returns the placed addresses instead of writing them into the external sections' headers. On failure it reports no partial assignment.
- Headers.PhdrTableContent.Add: does not enforce that only one segment is pinned to a fixed address.
- SymbolTable.SymbolTableContent.IndexOfSectionSymbol: finds the section symbol by name in the table. It does not go through a `SectionList`.
- Padding.GetSize: rejects any desired offset before the previous section's end, even when the page boundary at or after the desired offset lies past that end and the padding size would not be negative. As a result the header's default `desiredOffset` of 0 is rejected for any previous section that ends after offset 0. The body of `getSize` is not shown, so the model keeps this stricter rule.
- Dynamic.DynamicSectionContent.AddGeneratedPair: the generator's value is written into the record, not stored back into the row's pair. The body of `writeTo` is not shown.
- Addresses, offsets and sizes are unbounded integers. Wrap-around past 2^64 is not modelled.
- The serialise-once lifecycle of a deferred unit is not modelled. That rule belongs to `deferred.h`, which is not part of this model.
- The resolver pass (`src/pass/relocdata.h`) is not modelled. Its `FindAnywhere::resolveName` and `RelocDataPass` search external module and symbol maps, and their bodies are not shown.
- Sandbox code copying (`src/regression/elfgenmanager.cpp`) is not modelled because it is memory and I/O plumbing.
- The chunk visitor (`src/pass/chunkpass.h`) is not modelled because it is traversal over the external IR.
- Register-use and dataflow analysis (`src/analysis/`) and the loader's data-structure migrator (`src/load/datastruct.h`) are not modelled. They are outside ELF generation.
