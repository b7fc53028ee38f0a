# Offline patchers for the LG V60 IMS stack: model and proofs

Three offline tools prepare files for the phone, and each claims that what it does not touch stays
intact. This project models their computation on bytes and lines and proves that claim, and what each
edit means, for all inputs.

**Binary manifests** (`tools/axml_patch.py`). `AxmlReader` is what the patcher reads, on any bytes, with
every out-of-range read an error. `AxmlFormat` gives the abstract view of a file, a string pool and the
chunks that tile the rest, and says openly what a well-formed file is: a UTF-16 pool without styles, the
offset table right behind the header, the string data right behind the table, sizes that are multiples
of 4 or tile exactly, and string references that resolve. `View` and `Serialize` are inverse.
`AxmlEdits`, `AxmlElements`, `AxmlManifest` and `AxmlInPlace` are the edits of the view and what they
keep; `AxmlDocument` and `AxmlRecipe` look every index up and state what the documented recipe does to
the list of permissions. `AxmlPatcher.AXML` is the patcher: a mutable buffer with cached fields, whose
methods perform the insertions and header updates step by step. On any buffer they are proved equal to
the calls of `AxmlCalls`, which say what is written, in which order, and where a call raises half way; on
a well-formed one, to the edits of the view. `Synced` says that the cached fields are what a fresh parse
would give. `AxmlCalls` runs any calls in any order, failing ones included, and says when the cached
fields are fresh; `AxmlRuns` runs the edits and says when the file stays well formed; `AxmlRefinement`
proves that the runs of calls are the runs of edits. `AxmlSample` is a concrete manifest that meets the
conditions of the recipe.

**The daemon patcher** (`tools/patch_ipsecd.py`). `ElfSections` walks the section table, `PltLayout` finds
the stubs, `IpsecdPatch` holds the scan, the walk back, the getter test and the two edits, `Utf8` the decoding of symbol names, and `A64`
the instruction encodings (section C6.2 of the Arm Architecture Reference Manual, DDI 0487) with a step
semantics for the words written.
The original looks at the two functions in set order; the model leaves that order open.

**The policy merge and its validator** (`tools/build_lg_substrate_image.py`,
`tools/validate_substrate.py`). `Text` and `LineKeys` are Python's line and white-space handling,
`PolicyMerge` the append of the donor's own lines, `PolicyPipeline` both appends and their repetition,
`Validator` the checker; `Substrate` and `PropertyMerge` relate the two programs, for the syntax check and
for the property check. `Headroom` is the image growth.
A file is its text; the empty text is a missing file.

Most lemmas whose name ends in `Exact` say what an operation computes from its inputs alone, with every
constant, word and offset spelled out and without naming the definitions that compute it; the other lemmas
say what follows.

Where the code and its own words differ, the model follows the code:

- `tools/axml_patch.py:4-7` says that no chunk is ever resized; `append_string` and
  `duplicate_uses_permission` resize. It also asks for an equal UTF-16 length of a replacement, but the
  code compares `len`, which counts code points. `AxmlInPlace.OverwriteReadsBackExactly` and
  `Utf16.ShortReadExact` give the exact condition under which a stored text reads back: all of it in the
  Basic Multilingual Plane.
- `tools/axml_patch.py:126-128` asks that strings be appended before any element is inserted; the
  documented recipe alternates the two, and `AxmlPatcher.GrantPermissions` shows that this is safe.
- `tools/build_lg_substrate_image.py:127-130` explains that a `;` line must never reach a contexts file.
  The merge drops such lines, but a target without the file gets the donor's file whole, `;` lines
  included, and the validator then rejects it. `Substrate.WellFormedDonorExact` is the exact condition
  and `Substrate.GraftedCommentFails` a concrete input.
- `tools/axml_patch.py:172` re-parses so that the cached fields are fresh. It is the only place that does,
  and an append that raises between the string count and there leaves them stale:
  `AxmlCalls.TornAppendIsStale` is such a file, and `AxmlCalls.RunFreshExact` the exact condition for
  every sequence of calls that leave the rest of the pool header alone.
- `tools/patch_ipsecd.py:153-159` relies on the edits being apart and inside `.text` without checking
  either. `IpsecdPatch.EditsApart` and `IpsecdPatch.EditsInside` are the exact conditions,
  `IpsecdPatch.SafeExact` is the one condition on the input, and `IpsecdSample.AcceptedAndBroken` a file
  that the tool accepts and breaks. Both hold whenever the service stub is not itself a marker and the
  size of `.text` is a multiple of 4.
- `tools/build_lg_substrate_image.py:163` drops donor lines that the target has, and compares whole lines;
  `tools/validate_substrate.py:136-156` rejects a key that is defined twice. A donor that labels a property
  of the target differently passes the first and fails the second: `PropertyMerge.MergedImageExact` is the
  exact condition and `PropertyMerge.MergeRedefines` a concrete input.

## Model

| member | source | states |
|---|---|---|
| Bytes.NumbersExact | tools/axml_patch.py:15-17 | numbers are read low byte first |
| Bytes.SignedExact | tools/axml_patch.py:17 | a signed field reads FFFFFFFF as -1, anything below 2^31 as itself, the rest less 2^32 |
| Utf16.EncodableExact | tools/axml_patch.py:139 | a text encodes exactly when none of its code points is in D800 to DFFF |
| Utf16.EncodeOneExact | tools/axml_patch.py:139 | a code point up to FFFF is one unit, a higher one the two units whose ten bits each give it back |
| Utf16.PairExample | tools/axml_patch.py:51-55 | U+10345 is D800 DF45; a lone half and an odd byte do not decode |
| Utf16.DecodeEncode | tools/axml_patch.py:51-55 | every text without lone surrogates survives encoding to UTF-16-LE and back |
| Utf16.EncodeDecode | tools/axml_patch.py:51-55 | every buffer that decodes is the encoding of what it decodes to |
| Utf16.ShortReadExact | tools/axml_patch.py:139-140 | a record whose length field is `len(value)` gives the text back if and only if the text is all BMP |
| AxmlReader.ParsePoolExact | tools/axml_patch.py:24-45 | which bytes make the parse succeed, and which bytes each cached field is |
| AxmlReader.WalkStepExact | tools/axml_patch.py:83-101 | which chunks yield an element, from which bytes its fields come, and how far the walk moves |
| AxmlReader.WalkEnds | tools/axml_patch.py:83-101 | the walk and the search end behind the buffer, in a cut header or at a chunk of size 0, each with its own result, and go on behind any other chunk |
| AxmlReader.ReadStringExact | tools/axml_patch.py:47-55 | on any buffer: where the table entry, the length and the units of a string are, and which error comes first |
| AxmlReader.GetAttrExact | tools/axml_patch.py:103-113 | an attribute is read exactly when its 20 bytes are there; which bytes each field is; an absent namespace or raw value is -1 |
| AxmlReader.WalkCommutesWithGrowth | tools/axml_patch.py:81-101 | on any bytes: over equal tails the walk yields the same elements, every offset shifted by the distance, or fails in the same way |
| AxmlFormat.FlattenChunks | tools/axml_patch.py:83-101 | bytes tiled by their size fields are the concatenation of their chunks |
| AxmlFormat.ChunksFlatten | tools/axml_patch.py:83-101 | a list of chunks is recovered from its bytes by following the size fields |
| AxmlFormat.SerializeView | tools/axml_patch.py:20-45 | reading a well-formed file and writing it back changes nothing |
| AxmlFormat.ViewSerialize | tools/axml_patch.py:20-45 | every valid manifest serialises to a well-formed file whose view it is |
| AxmlLookup.ParseView | tools/axml_patch.py:24-45 | the cached fields of a well-formed file are the ones of its pool |
| AxmlLookup.ReadStringView | tools/axml_patch.py:51-55 | reading string `i` through the absolute offsets reads entry `i` of the pool, with its position and length |
| AxmlLookup.WalkYieldsStarts | tools/axml_patch.py:81-101 | on a well-formed file the walk succeeds and yields exactly the START chunks, in order, at their offsets |
| AxmlLookup.FirstLeafIsFirst | tools/axml_patch.py:178-194 | the search returns a START chunk of that name directly followed by an END chunk, and no earlier one qualifies |
| AxmlLookup.FirstLeafExact | tools/axml_patch.py:178-194 | every result of the search: it finds the first leaf of that name if and only if all START names in front of it decode, and which error it gives otherwise |
| AxmlLookup.FindLeafView | tools/axml_patch.py:178-194 | the byte-level search equals the search over the chunks, error for error |
| AxmlEdits.GrowHead | tools/axml_patch.py:160-167 | a grown pool has one more entry, its string data still begins at the end of its offset table, and its size is still a multiple of 4 |
| AxmlEdits.GrowKeeps | tools/axml_patch.py:142-150 | every old entry has the same units after an append, four bytes further on |
| AxmlEdits.GrowAdds | tools/axml_patch.py:134-150 | the new table entry leads to the new record |
| AxmlEdits.GrowRecord | tools/axml_patch.py:134-158 | the new entry is at the end of the old pool, and is, byte by byte, the length in code points, the encoded text, a zero unit, and fewer than four zero bytes up to the end of the pool |
| AxmlEdits.GrowthExact | tools/axml_patch.py:142-158 | the bytes added are the least multiple of 4 that holds all that |
| AxmlEdits.StorableExact | tools/axml_patch.py:139-140 | a text can be stored exactly when it has no surrogates and fewer than 65536 code points |
| AxmlEdits.GrowStrings | tools/axml_patch.py:124-176 | after an append the strings are the old ones and then what the new length field covers; the pool stays well formed |
| AxmlManifest.AppendValid | tools/axml_patch.py:160-173 | appending keeps the whole file well formed; file and pool grow by the same amount |
| AxmlManifest.DuplicateValid | tools/axml_patch.py:196-222 | duplicating keeps the whole file well formed and tiled; it grows by exactly the two chunks copied |
| AxmlManifest.DuplicateValidExact | tools/axml_patch.py:196-222 | the file stays well formed if and only if the copy is pointed at a string of the pool |
| AxmlManifest.LeafEndCloses | tools/axml_patch.py:178-194 | in a well-nested file the END chunk the search settles for is the matching one, by name and depth |
| AxmlManifest.DuplicateNested | tools/axml_patch.py:218-222 | a well-nested file stays well nested, and the copied END closes the copied START |
| AxmlElements.RecordsApart | tools/axml_patch.py:103-104 | attribute records of one element never overlap |
| AxmlElements.PutFieldRecord | tools/axml_patch.py:115-117 | writing one field of an attribute record changes that field and leaves every other record of the element unchanged |
| AxmlElements.RetargetEffect | tools/axml_patch.py:206-216 | the copied START chunk is the template byte for byte, except for the raw value and the data word of attribute 0, which both name the new string |
| AxmlDocument.EventStable | tools/axml_patch.py:124-176 | a chunk says the same over a longer pool with the same beginning |
| AxmlDocument.AppendKeepsDocument | tools/axml_patch.py:124-176 | no element or attribute of the document reads differently after an append |
| AxmlDocument.DuplicateDocument | tools/axml_patch.py:196-222 | the document afterwards is the old one with one START and END right after the template, the START naming the given string |
| AxmlRecipe.GrantKeepsFirst | docs/PATCH-RECIPES.md:173-175 | after each round the search finds the same template again |
| AxmlRecipe.RecipeDocument | docs/PATCH-RECIPES.md:173-175 | for every list of permissions: the old document with the granted elements right after the template, nothing else added, lost, moved or read differently; the file is well formed and its size is exact |
| AxmlRecipe.RecipeChunks | docs/PATCH-RECIPES.md:173-175 | on the bytes: every old chunk is unchanged and in place, and behind the template come the retargeted copies of it, the last permission first, each with its END |
| AxmlRecipe.RecipeNested | docs/PATCH-RECIPES.md:173-175 | a well-nested manifest is well nested after the whole recipe |
| AxmlRecipe.SomesReverses | docs/PATCH-RECIPES.md:173-175 | the granted permissions appear in reverse order |
| AxmlRecipe.RecipePermissions | docs/PATCH-RECIPES.md:173-175 | the permissions afterwards are the old first one, the new ones in reverse, then the other old ones |
| AxmlInPlace.GetAttrView | tools/axml_patch.py:103-113 | reading an attribute of a well-formed file gives the fields of its record |
| AxmlInPlace.SetDataFile | tools/axml_patch.py:115-117 | writing the data word of an attribute changes that word of the view only; the file stays well formed if a string-typed value still names a string |
| AxmlInPlace.SetDataValid | tools/axml_patch.py:115-117 | it stays well formed if and only if that holds |
| AxmlInPlace.SetDataReads | tools/axml_patch.py:103-117 | reading back gives the word written, and every other attribute of every element reads as before |
| AxmlInPlace.SetThenGet | tools/axml_patch.py:103-117 | on any buffer: after a set, get gives the old attribute with the value modulo 2^32, and every attribute record of any array that does not overlap it reads as before |
| AxmlInPlace.UnwrittenStays | tools/axml_patch.py:73-79 | a string none of whose bytes are written keeps its units, also under an overwrite that takes more bytes than it announces |
| AxmlInPlace.RewrittenOther | tools/axml_patch.py:73-79 | a string whose bytes are apart from the overwritten one keeps its units |
| AxmlInPlace.RewrittenStrings | tools/axml_patch.py:73-79 | for every pool: an equal-length BMP overwrite makes the string and its aliases read the new text, leaves every string that does not overlap it and every byte outside its units unchanged, and without partial overlaps that is all the strings |
| AxmlInPlace.LengthsExact | tools/axml_patch.py:73-79 | an overwrite that ends inside the pool leaves the pool well formed if and only if no length field it overwrites announces too much |
| AxmlInPlace.OverwriteReadsBackExactly | tools/axml_patch.py:73-79 | an overwrite of equal `len` reads back the new text if and only if it is all BMP |
| AxmlCalls.AppendShiftsWalk | tools/axml_patch.py:81-176 | on any buffer an append that touches it moves every element the walk yields by exactly the bytes added, or leaves the same error, also when it raises afterwards; when it returns from a fresh cache, the walk starts at the moved position |
| AxmlPatcher.AppendReadBack | tools/axml_patch.py:47-55 | append, then read, on the bytes: the new index reads the text if and only if it is all BMP, and every old index reads what it read, four bytes further on |
| AxmlPatcher.DuplicateExact | tools/axml_patch.py:196-222 | every outcome of a duplication of a well-formed file: which error comes first, or the position of the copy |
| AxmlCalls.OverwriteExact | tools/axml_patch.py:73-79 | every outcome of an overwrite, on any buffer: which error comes first, or the buffer with exactly the encoded text in place of as many bytes |
| AxmlCalls.DuplicateRefused | tools/axml_patch.py:196-216 | on any buffer: what a duplication checks of the element it found, in order, with which error; otherwise the buffer grows by that element |
| AxmlCalls.SetDataExact | tools/axml_patch.py:115-117 | on any buffer: the four bytes of the value modulo 2^32 and no other, or an error past the end |
| AxmlCalls.AppendRefused | tools/axml_patch.py:128-145 | on any buffer: the appends that raise before the buffer is touched, and with which error; any other adds its bytes |
| AxmlPatcher.AXML.Open | tools/axml_patch.py:20-45 | succeeds exactly when the pool header can be parsed, with the fields cached, and otherwise raises the error of the first read or check that fails |
| AxmlPatcher.AXML.ParseStringPool | tools/axml_patch.py:24-45 | re-reads the cached fields without changing the buffer; on failure, which error, and exactly which two fields may have been set before it |
| AxmlPatcher.AXML.ReadUtf16String | tools/axml_patch.py:47-55 | reads a string, on any buffer; on a valid one, the entry of the pool |
| AxmlPatcher.AXML.IterStartElements | tools/axml_patch.py:81-101 | the loop over the chunks yields the walk, and terminates on any bytes |
| AxmlPatcher.AXML.ReadAttr | tools/axml_patch.py:103-113 | reads the attribute record at that position, or fails past the end |
| AxmlPatcher.AXML.SetAttrIntData | tools/axml_patch.py:115-117 | on any buffer: writes the value modulo 2^32 and nothing else, or raises past the end; off the pool header the cached fields stay right |
| AxmlPatcher.AXML.AppendString | tools/axml_patch.py:124-176 | on any buffer the result and the bytes are those of the specified call, raise or not, and a success leaves every cached field fresh; on a well-formed file it succeeds exactly for text that can be stored and a result below 4 GiB; the buffer is then the edited view byte for byte, the old count is returned, and the pool holds the record under it byte by byte |
| AxmlPatcher.AXML.FindStartElement | tools/axml_patch.py:178-194 | the loop returns the first leaf of that name, on any buffer |
| AxmlPatcher.AXML.DuplicateUsesPermission | tools/axml_patch.py:196-222 | on any buffer the result and the bytes are those of the specified call, and the cached fields stay right although nothing re-parses; on a well-formed file every failure is one of the listed ones and leaves the buffer alone, except that a copy that makes the file reach 4 GiB is left inserted under the old size; success is the duplicated view byte for byte |
| AxmlPatcher.AXML.OverwriteUtf16String | tools/axml_patch.py:73-79 | on any buffer the result and the bytes are those of the specified call: an unequal length changes nothing, otherwise exactly the units are overwritten; on a well-formed file an overwrite that ends inside the pool, as every BMP text does, is the rewritten view byte for byte, and exactly when it is well formed |
| AxmlPatcher.GrantPermissions | docs/PATCH-RECIPES.md:173-175 | the recipe loop never fails while the file fits, and ends in the recipe's edited view with all cached fields right |
| AxmlCalls.StartedFields | tools/axml_patch.py:160-176 | when the header lies in front of its data, an append that gets as far as the header comes to its end exactly when pool size, string start and file size still fit 32 bits; which header fields are written either way |
| AxmlCalls.StartedFreshExact | tools/axml_patch.py:124-176 | on any buffer an append that gets as far as the header leaves the cached fields equal to a fresh parse if and only if it returns |
| AxmlCalls.StepFreshExact | tools/axml_patch.py:73-222 | on any buffer, for any call with any arguments, returned or raised, that writes no byte of the pool header other than the fields an append sets: such an append leaves the cached fields fresh if and only if it returns, every other call leaves them as fresh or stale as they were |
| AxmlCalls.RunFreshExact | tools/axml_patch.py:73-222 | for every interleaving of such calls, failing ones included, the cached fields equal a fresh parse at the end if and only if the last append that got as far as the header returned, or there was none and they were fresh before |
| AxmlCalls.BehindRun | tools/axml_patch.py:73-222 | on a file whose header says that strings and chunks lie behind it, every run is of that kind, but for attribute writes into the header |
| AxmlCalls.RunStaysFresh | tools/axml_patch.py:73-222 | without an append that raises half way the cached fields equal a fresh parse after any interleaving |
| AxmlCalls.TornAppendIsStale | tools/axml_patch.py:160-173 | a concrete 36-byte file on which an append raises after writing the count, so that the cached fields are stale |
| AxmlRuns.EditKeeps | tools/axml_patch.py:73-222 | an edit that goes through, and ends inside the pool when it is an overwrite, leaves the file well formed if and only if the strings it refers to exist and no length field it overwrites announces too much; it shrinks nothing, and only an append changes the pool header |
| AxmlRuns.SeparateIsSound | tools/axml_patch.py:73-79 | overwriting a string that shares no bytes with others, or shares all of them, by a BMP text always does |
| AxmlRuns.RunKeepsCacheFresh | tools/axml_patch.py:73-222 | after any interleaving of sound edits of the view its bytes are a well-formed file with exactly the appended strings added, and the cached fields are those of the view |
| AxmlRefinement.CallIsEdit | tools/axml_patch.py:73-222 | every call on the bytes of a well-formed file that goes through leaves exactly the serialised edited view and a fresh cache; the file is well formed afterwards if and only if the edit is sound |
| AxmlRefinement.GrowingCallExact | tools/axml_patch.py:124-222 | an append or a duplication with any arguments leaves a well-formed file well formed if and only if it is refused untouched or does a sound edit |
| AxmlRefinement.RunIsEdits | tools/axml_patch.py:73-222 | a run of calls on the bytes, refused ones included, is the run of its edits on the view: the bytes at the end are a well-formed file, the view is the edited one, the cached fields are fresh |
| AxmlSample.SampleMeetsTheRecipe | docs/PATCH-RECIPES.md:173-175 | a concrete 128-byte manifest meets every condition of the recipe |
| A64.BranchRoundTrip | tools/patch_ipsecd.py:155-158 | a written branch read back by the scanner's sign extension reaches its target if and only if the distance is word aligned and in [-2^27, 2^27 - 4]; it is never taken for a call |
| A64.FixedWords | tools/patch_ipsecd.py:36-39 | none of the fixed words is a call |
| A64.SetterRuns | tools/patch_ipsecd.py:153-154 | any state entering the patched setter returns to the link register with everything else unchanged |
| A64.GetterRuns | tools/patch_ipsecd.py:155-159 | any state entering the patched getter reaches the target with the third argument as the first, no default, everything else unchanged |
| ElfSections.U64Exact | tools/patch_ipsecd.py:48-58 | 64-bit fields are read low byte first, all eight of them |
| ElfSections.TableExact | tools/patch_ipsecd.py:46-57 | which fields of the file header place the section table and its names; a shorter file is refused |
| ElfSections.HeaderExact | tools/patch_ipsecd.py:51-57 | which bytes a table entry is read from, and when they are all there |
| ElfSections.ReadSections | tools/patch_ipsecd.py:46-65 | the loop over the section header table computes the dictionary of sections, or fails with the first entry that cannot be read |
| ElfSections.SectionsExact | tools/patch_ipsecd.py:58-65 | the walk succeeds exactly when every entry and its name can be read; a name means the last entry that has it |
| PltLayout.ZeroFrom | tools/patch_ipsecd.py:79 | finds the first terminator at or after a position, or there is none |
| Utf8.IsUtf8Exact | tools/patch_ipsecd.py:80 | bytes decode as a name if and only if they are the UTF-8 encoding of a text without surrogates |
| Utf8.OneExamples | tools/patch_ipsecd.py:80 | the boundary encodings of one to four bytes, and overlong, surrogate, too large, truncated and stray sequences refused |
| PltLayout.EntryNameExact | tools/patch_ipsecd.py:76-80 | the name of an entry is exactly the zero-free UTF-8 bytes between its start in the string table and its terminator |
| PltLayout.PltTargets | tools/patch_ipsecd.py:68-84 | succeeds exactly when every entry's name can be read and decoded; names in order, and each name's stub from the derived stub size |
| PltLayout.AddressOf | tools/patch_ipsecd.py:84 | a name has the stub of its last entry |
| PltLayout.LayoutRecovered | tools/patch_ipsecd.py:81-84 | for any number and size of stubs, names repeated or not, the stub size is recovered from the section size; a name has the stub of its last entry, the stubs of different names do not overlap, and all lie inside `.plt` |
| PltLayout.StubExact | tools/patch_ipsecd.py:83 | the stub size is the quotient of the section behind its header by the number of entries, or by 1 |
| IpsecdPatch.CallExact | tools/patch_ipsecd.py:107-116 | a call is a `bl` word, bit by bit, whose signed 26-bit distance in words leads to the target |
| IpsecdPatch.ReadableExact | tools/patch_ipsecd.py:107-108 | the scan fails exactly when one of the words at every fourth byte of `.text` is not inside the file |
| IpsecdPatch.PrologueExact | tools/patch_ipsecd.py:37 | a prologue is the four bytes of `paciasp` |
| IpsecdPatch.FindCalls | tools/patch_ipsecd.py:106-116 | finds exactly the words of `.text` that call the target, in order; fails exactly when one lies outside the file |
| IpsecdPatch.PrologueBefore | tools/patch_ipsecd.py:120-126 | the nearest prologue before a call, or there is none in `.text` |
| IpsecdPatch.IsGetter | tools/patch_ipsecd.py:132-143 | true exactly when a marker is called within the limit and before the next prologue |
| IpsecdPatch.GetterFnExact | tools/patch_ipsecd.py:132-143 | what that means in offsets: within 2048 bytes, on the grid of `.text`, with no prologue between |
| IpsecdPatch.ImportsExact | tools/patch_ipsecd.py:95-130 | from the relocation entries: the imports are there exactly when a name holds both service substrings and one is `property_get`; the service stub is that of the first such name; a stub is a marker exactly when its name is `property_get` or holds `hidl_string5c_strEv`; a repeated name counts with its last entry |
| IpsecdSample.OtherNames | tools/patch_ipsecd.py:97-130 | the string constructor is no marker and the interface cast no service |
| IpsecdPatch.CallsSeparated | tools/patch_ipsecd.py:106-126 | two calls and their distinct prologues alternate: p1 < c1 < p2 < c2 |
| IpsecdPatch.EditsApart | tools/patch_ipsecd.py:132-159 | for every pair the patcher can choose: the edits overlap if and only if the setter is the third word of the getter, if and only if the words are `paciasp; bl svc; paciasp` with a second `bl svc` behind; and then the service stub is a marker |
| IpsecdPatch.EditsInside | tools/patch_ipsecd.py:145-159 | the setter's edit is always inside `.text`, the getter's if and only if three words are left before its end, which holds when the service stub is no marker |
| IpsecdPatch.EditStaysInFunction | tools/patch_ipsecd.py:153-159 | the getter's edit reaches into another function if and only if its third word is a prologue, which cannot be when the service stub is no marker |
| IpsecdPatch.SafeExact | tools/patch_ipsecd.py:87-159 | for a file that can be patched: every possible choice has edits apart and inside `.text` if and only if no function is a colliding or overhanging one, which are read off the words before the call |
| IpsecdPatch.EditedExact | tools/patch_ipsecd.py:153-159 | otherwise: the output is longer than the input if and only if the getter overhangs the file, and the setter no longer returns if and only if it is the getter's third word |
| IpsecdSample.AcceptedAndBroken | tools/patch_ipsecd.py:87-159 | a concrete 639-byte ELF file: the section table walk finds the code and the tables, the imports are there with a service stub that is a marker, and both possible choices overlap or leave `.text` |
| IpsecdSample.ReturnedBroken | tools/patch_ipsecd.py:87-164 | whatever the patch returns for that file is a success with such edits |
| IpsecdPatch.PlanUnique | tools/patch_ipsecd.py:145-151 | if only one of the two functions looks like a getter, the choice does not depend on the order of the set |
| IpsecdPatch.EditedFrame | tools/patch_ipsecd.py:153-159 | the output has equal length and differs from the input only in the setter's first word and the getter's first three |
| IpsecdPatch.PatchedRuns | tools/patch_ipsecd.py:153-159 | in the patched file, unless the edits collide or overhang, every call of the setter returns at once and every call of the getter tail-calls `property_get` |
| IpsecdPatch.PatchText | tools/patch_ipsecd.py:93-159 | given the sections, succeeds exactly when the imports are there, there are exactly two calls with different prologues and one of the functions is a getter; then edits such a pair; each refusal means what it says |
| IpsecdPatch.PatchIpsecd | tools/patch_ipsecd.py:87-159 | the same from the bytes of the file alone: no ELF, an unreadable section table and a missing section are refused, and otherwise the sections found are the ones used |
| IpsecdPatch.PatchedImports | tools/patch_ipsecd.py:95-151 | a success, and every refusal that looks at the code, is about these very stubs; the imports are reported missing exactly when they are |
| Text.IsSpaceExact | tools/build_lg_substrate_image.py:114-115 | the white space characters |
| Text.IsBreakExact | tools/build_lg_substrate_image.py:144 | the line break characters |
| Text.LinesExact | tools/build_lg_substrate_image.py:144 | a break ends its line, CR LF is one break, and what follows has its own lines |
| Text.UniversalNewlinesExact | tools/build_lg_substrate_image.py:144 | text-mode reading leaves no CR and changes no text without one |
| Text.LinesOfTextMode | tools/build_lg_substrate_image.py:144 | text-mode newline translation does not change where lines break |
| Text.LinesBreakFree | tools/build_lg_substrate_image.py:158 | a line holds no line break |
| Text.LinesConcat | tools/build_lg_substrate_image.py:177-180 | after a newline the following text has its own lines |
| Text.LinesOfJoin | tools/build_lg_substrate_image.py:180 | lines joined by newlines split into the same lines again |
| Text.StripUnique | tools/build_lg_substrate_image.py:114-115 | stripping gives the only middle between two runs of white space |
| LineKeys.NormIsFields | tools/build_lg_substrate_image.py:114-115 | the regular-expression key of a line is its fields joined by single spaces |
| LineKeys.SameKeyIffSameFields | tools/build_lg_substrate_image.py:114-115 | two lines have the same key if and only if they have the same fields |
| LineKeys.SameKey | tools/build_lg_substrate_image.py:159-160 | lines that agree after stripping have the same key |
| LineKeys.BlankKey | tools/build_lg_substrate_image.py:161 | a line has no key exactly when it has no content |
| PolicyMerge.MergePolicy | tools/build_lg_substrate_image.py:118-180 | the loops compute the merge; it fails exactly without a baseline or a donor file, and otherwise grafts the donor or keeps the target as a prefix |
| PolicyMerge.TypeNameExact | tools/build_lg_substrate_image.py:166 | a line declares a type if and only if it begins with one of the two heads and a word with a `)`; the name runs to the last `)` of that word |
| PolicyMerge.DeclarationExact | tools/build_lg_substrate_image.py:153 | the two heads are `(type ` and `(typealias ` |
| PolicyMerge.WantedExact | tools/build_lg_substrate_image.py:148-169 | the line test from the three files: a donor line is appended exactly when it is not blank, does not begin with `;`, has the key of no line of the baseline and of no line of the target, and, in a `.cil`, declares no type a target line declares |
| PolicyMerge.MarkerExact | tools/build_lg_substrate_image.py:131 | the marker begins with `;` in a `.cil` file and with `#` in any other |
| PolicyMerge.DeltaMembers | tools/build_lg_substrate_image.py:157-169 | the appended lines are exactly the wanted donor lines, right-stripped |
| PolicyMerge.DeltaConcat | tools/build_lg_substrate_image.py:157-169 | they appear in the donor's order |
| PolicyMerge.MergedLines | tools/build_lg_substrate_image.py:177-180 | the merged file has the target's lines, an empty one, the marker and the delta |
| PolicyMerge.MergeKeepsTarget | tools/build_lg_substrate_image.py:171-180 | the output starts with the target verbatim; what follows is at most one newline, an empty line, the marker and the delta |
| PolicyMerge.MergedExact | tools/build_lg_substrate_image.py:118-180 | the merge from its inputs alone: the donor whole without a target file; the target as it is with the marker or with nothing new; otherwise exactly the target's lines, an empty one, the marker and the new donor lines, right-stripped and in order |
| PolicyPipeline.RemergeIsEmpty | tools/build_lg_substrate_image.py:144-173 | against any text that keeps the lines of the output the delta is empty, marker or not, merged or grafted whole |
| PolicyPipeline.AppendCilTwice | tools/build_lg_substrate_image.py:222-230 | a tagged block is appended at most once, whatever it holds |
| PolicyPipeline.AppendCilExact | tools/build_lg_substrate_image.py:222-230 | the tag is in the result; a text that has it stays; any other is kept in front and gains one newline and exactly the block, all its lines included |
| PolicyPipeline.AppendGrants | tools/build_lg_substrate_image.py:222-230 | the step that reads the file and writes it computes this |
| PolicyPipeline.PipelineExact | tools/build_lg_substrate_image.py:305-309 | after both steps a `.cil` file is the merged one with the block behind it unless the tag was there, and any other file is the merged one |
| PolicyPipeline.PipelineIdempotent | tools/build_lg_substrate_image.py:305-309 | running both appends on their own output changes nothing, for every kind of file, target, donor, baseline and block |
| PolicyPipeline.DeltaDeclares | tools/build_lg_substrate_image.py:165-168 | the delta declares only types of the donor that the target does not declare, each once |
| PolicyPipeline.TypesDeclaredOnce | tools/build_lg_substrate_image.py:150-168 | if target and donor each declare every type once, so does the merged file |
| PolicyPipeline.PipelineDeclaresOnce | tools/build_lg_substrate_image.py:305-309 | and so does the file after both appends, when the block declares no type |
| Validator.ReadEntries | tools/validate_substrate.py:72-78 | the numbered entries of a file: stripped lines that are neither blank nor `#` comments |
| Validator.EntriesExact | tools/validate_substrate.py:72-78 | an entry is exactly a line with its number, stripped, that is neither blank nor a comment |
| Validator.AcceptedExact | tools/validate_substrate.py:81-106 | what is accepted for each kind of file, as a grammar of fields with the literal words and labels |
| Validator.ReasonExact | tools/validate_substrate.py:81-106 | which lines are rejected and with which reason, by the kind of the file and the fields of the line, with every word and label spelled out |
| Validator.ReportedExact | tools/validate_substrate.py:72-124 | from the two files: a failure is reported exactly for a line that is neither blank nor a comment, is no entry of the stock file, and is rejected, with its number, reason and text |
| Validator.BadLinesExact | tools/validate_substrate.py:116-122 | exactly the new and malformed entries are reported, with line, reason and text |
| Substrate.BadLinesConcat | tools/validate_substrate.py:116-122 | the reports come in the order of the entries, each once |
| Validator.PartsExact | tools/validate_substrate.py:42 | a context is exactly three colon-free parts and a rest, none empty or with white space |
| Validator.Checker.CheckContexts | tools/validate_substrate.py:109-124 | adds exactly one failure per entry that is not in the stock file and is malformed, and counts them |
| Validator.Checker.CheckProperties | tools/validate_substrate.py:136-156 | adds exactly one failure per definition of a key seen before, naming the partition that had it first |
| Validator.PropertyKeyExact | tools/validate_substrate.py:127-133 | an entry defines a key exactly when its label and match kind are right; the key is its name and whether it says `exact` |
| Validator.KeysExact | tools/validate_substrate.py:127-133 | the keys of a file are those of its entries, entry by entry |
| Validator.DefinitionsConcat | tools/validate_substrate.py:137-153 | the definitions of the image are those of its partitions, one after the other |
| Validator.RedefinitionOrigin | tools/validate_substrate.py:148-154 | each report names the partition that repeats the key and the one that had it first |
| Validator.RedefinitionsExact | tools/validate_substrate.py:143-154 | one more definition adds one report at the end, with the partition that had its key first, or none for a new key |
| Validator.PropertyFailuresExact | tools/validate_substrate.py:143-156 | the failures are as many as the definitions beyond the distinct keys; none if and only if all keys differ |
| Validator.PropertyOrderIrrelevant | tools/validate_substrate.py:137-153 | verdict and count do not depend on the order of the partitions |
| Validator.AcceptedIsCounted | tools/validate_substrate.py:97-105 | an entry of a property file that passes the syntax check is one that the trie check counts |
| Substrate.VerdictOfMerge | tools/validate_substrate.py:109-124 | of a merged file the validator reports the malformed delta lines, each once and at its line, and nothing else |
| Substrate.VerdictExact | tools/validate_substrate.py:109-124 | when a merged, unchanged or grafted file passes, exactly |
| Substrate.WellFormedDonorExact | tools/build_lg_substrate_image.py:139-173 | a donor that is well formed but for `;` lines passes if and only if the target has the file or there is no such line |
| Substrate.GraftedCommentFails | tools/build_lg_substrate_image.py:139-142 | a one-line donor that is rejected after being grafted whole |
| PropertyMerge.MergedKeys | tools/build_lg_substrate_image.py:157-180 | a merged property file defines the target's keys and then the delta's |
| PropertyMerge.DeltaKeysExact | tools/build_lg_substrate_image.py:157-169 | the delta's keys are exactly those of the wanted donor entries |
| PropertyMerge.MergedPropertyReports | tools/validate_substrate.py:136-156 | if target and donor each define every property key once, the check reports exactly the delta's keys that the target defines too, in order |
| PropertyMerge.AddedToPartition | tools/build_lg_substrate_image.py:139-180 | merged, merged before or grafted, the partition defines what the stock one does and then the added keys |
| PropertyMerge.AddedKeysExact | tools/build_lg_substrate_image.py:139-169 | the added keys are exactly those of the donor entries that reach the partition: the wanted ones, or all of a grafted file |
| PropertyMerge.MergedImageExact | tools/validate_substrate.py:136-156 | for any donor, target, missing target and other partitions: the image with the new file passes if and only if the stock image does, the added keys are distinct, and no partition of the stock image defines one of them |
| PropertyMerge.RelabelledProperty | tools/build_lg_substrate_image.py:163-164 | for any donor, target, baseline and other partitions: a donor entry that reaches the partition with a key that some partition already defines makes the image fail |
| PropertyMerge.PassesUnlessRelabelled | tools/validate_substrate.py:136-156 | over a passing image, a donor that defines every key once fails it if and only if it has such an entry |
| PropertyMerge.RelabelledLine | tools/build_lg_substrate_image.py:163-164 | for one-line files: two labels for one property give exactly one report |
| PropertyMerge.MergeRedefines | tools/build_lg_substrate_image.py:163-164 | a concrete pair of such lines |
| Headroom.EnsureHeadroom | tools/build_lg_substrate_image.py:251-266 | sums the known sizes and the slack and asks for growth exactly when the free space is smaller |
| Headroom.NeedExact | tools/build_lg_substrate_image.py:251-258 | the need is 16 MiB over no files, each known size more, and nothing for an unknown one |
| Headroom.GrowthSuffices | tools/build_lg_substrate_image.py:259-266 | the image grows exactly when the free space is smaller than the need; the new count is the least multiple of 1024 that has the least sufficient number of blocks more |

## Left out

- `debugfs`, `resize2fs`, `e2fsck`, `dumpe2fs`, `secilc`, temporary files, argument parsing, printing and labels: foreign processes and I/O.
- UTF-8 pools and style pools: the patcher rejects or ignores them, so they are not well formed here.
- `find_string_index` (`tools/axml_patch.py:64-71`): a search over the reads that are modelled.
- The smali, APK and module packaging tools: thin wrappers around libraries, or code whose subject is not in the repository.
- The hash, compile and stock-image checks of the validator: they look at foreign files and processes.
- AxmlReader.StartElements: yields the whole list at once; the original is a generator, so a consumer that stops early does not meet a later error. The leaf search is modelled on its own, with its early stop.
- AxmlReader.GetAttr: an index past the end of the buffer is the same error as a `struct` read past it.
- AxmlCalls.StartedFields: assumes a header that says that its string data and the chunks lie behind the 36 bytes of the two headers.
- AxmlCalls.StepFreshExact: assumes a call that writes no byte of the pool header, other than the fields an append sets; a call that does changes what a parse gives, depending on what it writes.
- AxmlCalls.RunFreshExact: the same for every call of the run; `AxmlCalls.BehindRun` says which files have only such runs.
- AxmlPatcher.AXML.AppendString: assumes that both headers are present, 36 bytes, as they are in everything that can be opened.
- AxmlPatcher.AXML.OverwriteUtf16String: for text that runs past the pool it states the bytes written, not when the file is still well formed.
- AxmlRuns.EditKeeps: covers overwrites that end inside the pool; one by text outside the Basic Multilingual Plane that runs past it overwrites chunks, and `AxmlCalls.OverwriteCall` says which bytes.
- AxmlRefinement.RunIsEdits: covers attribute writes that hit the data word of an attribute and overwrites of strings of the pool; writes anywhere else are covered by `AxmlCalls`, for the cached fields.
- IpsecdPatch.PatchedRuns: assumes edits that are apart and inside `.text`, exactly as `IpsecdPatch.EditsApart` and `IpsecdPatch.EditsInside` say, and, for the getter, that `property_get` is within branch range; outside it `A64.BranchRoundTrip` says the branch goes elsewhere.
- A64.Run: models only the instructions that are written, without branch-target or pointer authentication checks; `pc` does not wrap at 64 bits.
- PolicyMerge.MergePolicy: works on decoded text; bytes that are not UTF-8 are replaced before comparison in the original, which still copies them verbatim.
- PolicyPipeline.TypesDeclaredOnce: counts declarations as the merge recognises them, one at the start of a line.
- Validator.Checker.CheckContexts: one contexts file per call; the original loops over three names and shortens the quoted line.
