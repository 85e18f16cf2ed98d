# Proofs about the board support tools and the host simulator

This project models the parts of the repository where a mistake would corrupt data or
hang a device, and proves what they promise. The modules follow the source files.

**Protocol buffers** (`Pb*.dfy`; `tools/protogen`). A message descriptor is a list of
fields sorted by number, a schema a list of descriptors that may refer to each other, and a
message one slot per field. `PbEncode` and `PbDecode` are the encodings and the single-pass
decoder of the Rust runtime; the C writer, which runs once to measure and once to write, and
the C decoder, which measures, allocates one arena and then counts and fills each message,
are methods proved to compute exactly these. `PbGrammar` says the wire format without a reader,
`PbWire` and `PbForm` what decoding and encoding mean on its bytes. Encoding and decoding are
inverse up to null submessages; the arena never runs out; the two decoders agree on every input
exactly when no oneof holds a message; the two encoders agree on every message exactly when the
generator accepts the oneofs.

**NVS store** (`Nvs*.dfy`; `idf_compat/src/nvs.c`). A file is a list of text lines, each
with the fields read from it. Whatever a setter stores is read back from the text it prints,
every call keeps the cached fields in step with the text, and over every run of calls and
restarts the list is a map from namespace and key to a typed value (for restarts, see below).
`NvsRun` holds the runs, whose steps the calls in `NvsStore` are shown to take; `NvsFormat` and
`NvsLayout` the documented format, up to the example file and what the getters give on it.

**Region allocator** (`HeapBlocks`, `HeapMemory`, `MultiHeap`; `idf_compat/src/multi_heap.c`).
Headers and back pointers live at addresses of one region. The blocks tile the region in every
state the calls reach, and the free count is the sum of the free blocks.

**Glyph codec** (`Glyph*.dfy`, `FontCmaps`; `tools/resgen/resgen.py` and
`libs/ui_framework/src/packed_font.cpp`). The run-length encoder, the Python decoder and the
device's reader are loops proved against one bit-level description, which `GlyphRuns` spells out
on runs; every glyph of a pack comes back from its entry in the offset table.

**Protocols between threads** (`Dispatch`, `DispatchWait`, `DispatchRace`, `RecursiveMutex`,
`ToneStream`, `ToneClash`). Each shared read and write is a step, and the theorems are about every
interleaving of the steps. The dispatch model also keeps the true time of every 32-bit tick
count, so its waits are bounded in true time.

**Queue, buttons and blit** (`RingQueue`, `Button`, `ButtonGestures`, `Blit`).

## Where code and expectation differ

- A decoder that keeps oneof messages encoded accepts inputs the C decoder refuses
  (`PbLazy.LazyAcceptsMore`); the two agree on all inputs if and only if a schema has no such
  member (`PbLazy.AgreementIffNoLazy`). An input the former accepts is accepted by the latter
  if and only if every oneof message on the wire decodes (`PbLazy.EagerExact`).
- Comments in `idf_compat/src/nvs.c` say untouched lines are written back verbatim. Loading
  takes one carriage return off the end of a line and saving does not put it back, so a line
  ended by a carriage return and a newline is written back without the former
  (`NvsFile.CrlfIsLost`). A file that is loaded and saved comes back byte for byte if and only
  if it holds no NUL, its last line is ended, and no carriage return stands before a newline
  (`NvsFile.SaveLoadExact`).
- Lines in memory that end in a carriage return lose it when they are saved and loaded again;
  saving and loading gives the same lines if and only if there are none
  (`NvsFile.ReloadExact`). What the lines mean survives more: entries and sections end in one
  only inside a comment, so nothing but the carriage returns changes if and only if no raw line
  becomes an entry or a section without its own (`NvsFile.ReloadKeepsMeaning`; for writing and
  restarting several times `NvsRun.CyclesExact`). The line `[a]` followed by two carriage
  returns is raw when it is loaded, and a section once it was saved and loaded again
  (`NvsFile.ReloadCounterexample`). A restart without a write before it changes nothing
  (`NvsRun.RestartAlone`).
- `nvs_commit` is the one call that saves without loading first. After
  `nvs_flash_sim_set_path` with a handle still open it empties the new file
  (`NvsStore.Store.Commit`, `NvsStore.CommitAfterSetPath`).
- `bsp_dispatch_add_source` guards its list but not its start-up. If no registration begins
  beside another one while there is no semaphore, no notification is ever lost
  (`Dispatch.NoLostNotification`). From every state such runs reach, a registration that breaks
  this can end with the task asleep for good on a semaphore nobody finds any more
  (`DispatchRace.OverlapLosesNotification`). In the same way there is one task if no
  registration begins beside another while there is none, and otherwise there can be two
  (`DispatchRace.OneTask`, `DispatchRace.OverlapMakesTwoTasks`).
- `build_cmaps` lets a list span 65536 code points, but its length is emitted into a member of
  16 bits and then reads as 0 (`FontCmaps.WideListHides`). Every code point finds its glyph if
  and only if every map spans at most 65535 code points and begins at a glyph below 65536
  (`FontCmaps.LookupExact`).
- The audio calls rely on being made from one thread. Some may overlap: a close must not
  stand beside an open, a write or another close, a tone call not beside an open or a quiesce,
  and the first tone calls not beside each other. If no call begins beside one it clashes with,
  the stream has one owner (`ToneStream.StreamHasOneOwner`); every clash can break this
  (`ToneClash.ClashBreaks`, `ToneClash.EveryClashBreaks`).

## Model

| member | source | states |
|---|---|---|
| PbVarint.VarintRoundTrip | tools/protogen/pb.c:90-96 | every 64-bit value reads back from its varint with the length written, whatever bytes follow |
| PbVarint.PutVarint | tools/protogen/pb.c:89-96 | writes exactly the varint at the cursor and nothing else; without a buffer returns the same count |
| PbVarint.VarintSize | tools/protogen/pb.c:83-87 | counts exactly the bytes of the varint |
| PbVarint.GetVarint | tools/protogen/pb.c:168-179 | accepts exactly the readable varints of at most ten bytes, wrapping at 64 bits, and moves the cursor behind them |
| PbVarint.ReadVarintPrefix | tools/protogen/pb.c:189-192 | a varint is read again from just the bytes it took, as the later passes do |
| PbVarint.VarintLenIsLength | tools/protogen/pb.rs:287-289 | the closed form by leading zeros is the number of bytes written |
| PbVarint.KeyLength | tools/protogen/pb.rs:291-293 | the wire type never changes the length of a key |
| PbGrammar.ReadVarintExact | tools/protogen/pb.c:168-179 | a varint is read exactly where one of the first ten bytes is the first without a continuation bit; its value is the sum of the groups modulo 2 to the 64 |
| PbGrammar.NextFieldExact | tools/protogen/pb.c:181-210 | a field is read exactly where the grammar has one: a key with a number from 1 to 0xffffffff, then a varint, eight bytes, a length and as many bytes, or four bytes, nothing cut short |
| PbSchema.ScalarRoundTrip | tools/protogen/pb.c:55-81 | storing what was fetched gives the member back for every type, and zero is written as zero only for zero |
| PbSchema.WireMeaning | tools/protogen/pb.c:55-66 | the wire value of a member is the number it stands for, as 64 bits of two's complement for a signed type: a negative int32 is sign extended |
| PbSchema.StoredMeaning | tools/protogen/pb.c:68-81 | a wire value is stored as the number it says where the member can hold that, else as its low 32 bits; a flag is set by every value but zero |
| PbSchema.FindField | tools/protogen/pb.c:212-222 | the binary search finds the field with the number, or reports that there is none |
| PbMeasure.NextWire | tools/protogen/pb.c:181-210 | the C cursor accepts exactly the fields the Rust reader accepts, with the same number, payload and size, and the bytes it moves over are a field of the grammar |
| PbMeasure.ElemSizeExact | tools/protogen/pb.c:34-49 | an array element of a number type has exactly the bits its values take |
| PbMeasure.AlignIsLeast | tools/protogen/pb.c:16-16 | aligning gives the least multiple of eight that is not below the size |
| PbMeasure.CountVarints | tools/protogen/pb.c:224-228 | counts the bytes without a continuation bit |
| PbMeasure.VarintTerminates | tools/protogen/pb.c:224-228 | each varint that can be read has exactly one such byte, so the count is the element count of a packed field |
| PbMeasure.Measure | tools/protogen/pb.c:234-252 | computes the bound summed over occurrences, and fails exactly where that sum is undefined |
| PbArena.CountWithinArray | tools/protogen/pb.c:242-245 | the array of a repeated field fits what its occurrences were measured at, the seven bytes of slack paying for its alignment |
| PbArena.ArenaSuffices | tools/protogen/pb.c:284-303 | the arrays of a message together with all its submessages fit what was measured |
| PbArena.NeedBound | tools/protogen/pb.c:234-252 | the bound is at most 32780 bytes per input byte, so a 64-bit sum does not overflow |
| PbUnpack.Arena.Alloc | tools/protogen/pb.c:254-260 | hands out the aligned size exactly while it fits |
| PbUnpack.FillPacked | tools/protogen/pb.c:322-328 | every element write is inside the array the counting pass sized; the elements are appended in order |
| PbUnpack.FillField | tools/protogen/pb.c:309-328 | stores one field as the single-pass decoder merges it, and uses no more arena than measured for it |
| PbUnpack.CountPass | tools/protogen/pb.c:287-293 | leaves in each count the elements the input holds for the field |
| PbUnpack.AllocPass | tools/protogen/pb.c:294-303 | gives every counted field an array of its count; no allocation is refused |
| PbUnpack.FillPass | tools/protogen/pb.c:305-330 | the unchecked second walk succeeds field by field and gives the single-pass result |
| PbUnpack.Decode | tools/protogen/pb.c:284-331 | with the measured arena, accepts exactly what the single-pass decoder accepts and holds the same message |
| PbUnpack.RefusedByMeasure | tools/protogen/pb.c:336 | what measuring refuses no decoder accepts |
| PbUnpack.Unpack | tools/protogen/pb.c:333-346 | for every schema and every input the result is that of the single-pass decoder, whose meaning on bytes the PbWire rows state |
| PbWire.UnknownFields | tools/protogen/pb.c:189-206 | an unknown field of each of the four wire types in front, on its bytes, changes nothing |
| PbWire.UnknownFieldAppended | tools/protogen/test/pbcheck.c:250-299 | an unknown field behind an accepted message leaves the message as it was |
| PbWire.RefusedTag | tools/protogen/pb.c:183-206 | a tag with number 0, a number above 32 bits or wire type 3, 4, 6 or 7 is refused at once |
| PbWire.RefusedType | tools/protogen/pb.c:264-282 | a known field with a wire type its member cannot have is refused; only a repeated scalar may come in two forms |
| PbWire.Concatenation | tools/protogen/pb.c:305-330 | two encodings behind each other decode as the second merged into the first |
| PbWire.LastWins | tools/protogen/pb.c:310-313 | of two occurrences of a singular member, or of two members of one oneof, nothing of the first remains |
| PbWire.PackedIsElementwise | tools/protogen/pb.rs:177-190 | packed elements and elements written one at a time append the same values in order |
| PbWire.NumberKept | tools/protogen/pb.c:55-81 | the bytes written for a signed integer member read back as the same number in any signed integer member that can hold it, a negative int32 in an int64 included |
| PbWire.SixteenLevels | tools/protogen/pb.c:15-15 | sixteen levels of nesting are decoded, seventeen refused |
| PbPack.PackValue | tools/protogen/pb.c:109-125 | writes one value at the cursor and nothing else, or measures the same length; the bytes of a scalar say the number the member stands for, all 64 bits of a negative int32 |
| PbPack.PackPacked | tools/protogen/pb.c:147-150 | the summed length prefix is the length of the elements that follow |
| PbPack.PackMsg | tools/protogen/pb.c:133-158 | the measuring and the writing run agree: exactly the encoding is written, no byte beside it changes; PbForm and PbWire state what the encoding is |
| PbForm.EncodingForm | tools/protogen/pb.c:127-158 | the field numbers on the wire ascend; a member at its default is left out, an active oneof member never; a repeated scalar is one packed field, and other members are one field for each value |
| PbWire.ScalarSays | tools/protogen/pb.c:123-124 | the encoding of a scalar member is one varint field that says the number the member stands for |
| PbRoundTrip.MsgRoundTrip | tools/protogen/pb.c:133-331 | for every schema and message: it reads back, null submessages of repeated and oneof fields as empty ones, if it is nested at most 16 deep, and is refused otherwise |
| PbCanonical.DecodedCanonical | tools/protogen/pb.c:284-331 | every accepted input decodes to a typed message within the depth limit that has nothing left to normalise |
| PbCanonical.ReencodeStable | tools/protogen/pb.c:133-331 | what was accepted survives encoding and decoding again |
| PbLazy.EagerImpliesLazy | tools/protogen/pb.rs:160-175 | the Rust decoder accepts what the C decoder accepts, and what it kept encoded stands for what C decoded |
| PbLazy.EagerExact | tools/protogen/pb.rs:160-175 | the C decoder accepts an input if and only if the Rust decoder does and every oneof message on the wire, replaced and nested ones included, decodes at its depth |
| PbLazy.DecodersAgree | tools/protogen/pb.rs:53-84 | without oneof messages the two decoders accept the same inputs and yield the same values |
| PbLazy.LazyAcceptsMore | tools/protogen/pb.rs:164-175 | for every oneof message member there is an input only the Rust decoder accepts |
| PbLazy.AgreementIffNoLazy | tools/protogen/pb.rs:164-175 | the decoders agree on all inputs if and only if the schema has no oneof message member |
| PbRustEncode.MsgLength | tools/protogen/gen_rust.py:279-290 | the closed-form length of every message is the number of bytes its encoder writes |
| PbRustEncode.MsgSame | tools/protogen/gen_rust.py:267-303 | with contiguous oneofs the Rust encoder, which writes a oneof at its first member, writes the bytes of the C encoder |
| PbOneofRule.CheckIsContiguity | tools/protogen/gen_rust.py:39-45 | the generator's span test accepts exactly the field lists whose oneofs are contiguous |
| PbInterleave.InterleavedDiffers | tools/protogen/gen_rust.py:267-303 | every interleaved oneof has a message the two encoders write differently |
| PbInterleave.RuleIsExact | tools/protogen/gen_rust.py:39-45 | the generator accepts a schema's oneofs if and only if both encoders write the same bytes for every message |
| NvsText.SkipWsLoop | idf_compat/src/nvs.c:192-195 | stops at the first character that is not a blank |
| NvsText.QuotedRoundTrip | idf_compat/src/nvs.c:132-144 | a printed string without NUL reads back byte for byte, whatever follows the closing quote |
| NvsText.ParseStringLocal | idf_compat/src/nvs.c:218-254 | reading a string looks at nothing past its closing quote |
| NvsText.Utf8Decodes | idf_compat/src/nvs.c:202-215 | an escape stands for the UTF-8 of its code point, read back by the table of RFC 3629, section 3 |
| NvsText.ParsedHasNoNul | idf_compat/src/nvs.c:217-254 | no string that can be read holds a NUL, escapes included |
| NvsText.NameRoundTrip | idf_compat/src/nvs.c:146-149 | a printed name, bare or quoted, reads back before anything that cannot extend it |
| NvsText.ParseNameLocal | idf_compat/src/nvs.c:256-273 | a name reads the same whatever ends it, so a key may be printed again with another tail |
| NvsValue.IntFitsIsRange | idf_compat/src/nvs.c:313-321 | the guard on sign and magnitude is exactly the range of the type |
| NvsValue.SetterFits | idf_compat/src/nvs.c:589-597 | sign and magnitude of every argument a setter takes pass the guard of its type and denote the argument |
| NvsValue.IntReadsBack | idf_compat/src/nvs.c:621-627 | the two's complement cast of a getter gives the stored number for every width |
| NvsValue.OverflowGuardExact | idf_compat/src/nvs.c:303 | the division in the digit loop refuses exactly the numbers beyond 64 bits |
| NvsValue.DecimalRoundTrip | idf_compat/src/nvs.c:301-305 | every 64-bit number reads back from its decimal digits |
| NvsValue.ReadDigitsLoop | idf_compat/src/nvs.c:300-305 | the digit loop is the digit-by-digit reading, with the same refusals |
| NvsValue.HexTextReads | idf_compat/src/nvs.c:159-162 | every byte sequence reads back from its hexadecimal text |
| NvsValue.ValueRoundTrip | idf_compat/src/nvs.c:151-164 | every literal a setter can store reads back from its text, before nothing, a blank or a comment |
| NvsLine.TailRoundTrip | idf_compat/src/nvs.c:166-180 | type, sign, magnitude, bytes and the end of the value come back from the printed tail, whatever blanks or comment follow |
| NvsLine.EntryShape | idf_compat/src/nvs.c:350-372 | an entry that was read has a key prefix, a blank or commented tail, and a value that passes its type check |
| NvsLine.EntryRoundTrip | idf_compat/src/nvs.c:334-373 | key as written, printed tail and any comment read back as exactly that entry, ends included |
| NvsLine.ReadIsStorable | idf_compat/src/nvs.c:217-373 | what was read from a line can be stored again |
| NvsLine.RenderReads | idf_compat/src/nvs.c:166-180 | a line given a new value and printed reads back as the line in memory |
| NvsLine.NewEntryReads | idf_compat/src/nvs.c:565-569 | the line made for a new key, given a value and printed, reads back as the line in memory |
| NvsLine.SectionReads | idf_compat/src/nvs.c:439-443 | the header written for a new namespace reads back as that section |
| NvsValue.ParseValueLocal | idf_compat/src/nvs.c:275-311 | a value reads the same whatever ends it, and does not end in a carriage return |
| NvsLine.EntryLocal | idf_compat/src/nvs.c:334-373 | an entry reads the same with any other blanks or comment behind its value |
| NvsLine.EntryStripped | idf_compat/src/nvs.c:517 | an entry is the same entry without the carriage return its line ends in |
| NvsLine.SectionStripped | idf_compat/src/nvs.c:517 | a section header is the same section without the carriage return its line ends in |
| NvsLine.RenderIsLine | idf_compat/src/nvs.c:166-180 | a printed line holds no NUL and no newline, and ends in a carriage return exactly if its old tail did |
| NvsReader.PutQuoted | idf_compat/src/nvs.c:132-144 | the loop writes the quoted text |
| NvsReader.PutValue | idf_compat/src/nvs.c:151-164 | the printer writes the text of the literal |
| NvsReader.EntryRender | idf_compat/src/nvs.c:166-180 | keeps the key as written and the old tail, and moves the end of the value |
| NvsReader.ReadString | idf_compat/src/nvs.c:218-254 | the loop over characters and escapes accepts and yields what the recursive reading does |
| NvsReader.ReadValue | idf_compat/src/nvs.c:275-311 | the pointer walk over a value, its overflow checks included |
| NvsReader.ReadLine | idf_compat/src/nvs.c:334-373 | the pointer walk over a line yields the line the round trips are about |
| NvsLines.FindIsLast | idf_compat/src/nvs.c:416-426 | the line found binds the key in its section and no later line does |
| NvsLines.FindIsLookup | idf_compat/src/nvs.c:416-426 | a line is found exactly for the bound keys and carries the bound value |
| NvsLines.SetBinds | idf_compat/src/nvs.c:561-582 | a set changes that one binding and no other |
| NvsLines.SetKeepsLines | idf_compat/src/nvs.c:428-447 | every other line keeps its text and order: one line is replaced, or the entry, with its header if the namespace is new, is put in |
| NvsLines.RemoveUnbinds | idf_compat/src/nvs.c:449-465 | exactly the keys asked for become unbound, earlier duplicates included |
| NvsLines.RemovedSome | idf_compat/src/nvs.c:749 | a removal count of zero means exactly that no key asked for was bound, and then nothing changed |
| NvsLines.RemovedKeepsRest | idf_compat/src/nvs.c:449-465 | only entries disappear; all other lines stay in order |
| NvsLines.EraseKeepsReserved | idf_compat/src/nvs.c:467-479 | erasing the flash keeps exactly the reserved namespace's bindings |
| NvsLines.UsedIsKeys | idf_compat/src/nvs.c:796-800 | the used count is the number of distinct bound keys |
| NvsFile.SetCoherent | idf_compat/src/nvs.c:552-587 | after a set every line is still what reading its text at its place gives, and every entry lies under a section |
| NvsFile.RemoveCoherent | idf_compat/src/nvs.c:449-465 | after a removal every line is still what reading its text at its place gives, and every entry lies under a section |
| NvsFile.EraseCoherent | idf_compat/src/nvs.c:467-479 | after erasing the flash every line is still what reading its text at its place gives, and every entry lies under a section |
| NvsFile.LoadCoherent | idf_compat/src/nvs.c:494-537 | whatever the file holds, every loaded line is what reading its text at its place gives, and every entry lies under a section |
| NvsFile.SaveLoadExact | idf_compat/src/nvs.c:494-547 | saving what was loaded gives the file byte for byte if and only if it holds no NUL, its last line is ended, and no carriage return stands directly before a newline |
| NvsFile.CrlfIsLost | idf_compat/src/nvs.c:517 | a file of one line with carriage return and newline is written back without the carriage return |
| NvsFile.ReloadExact | idf_compat/src/nvs.c:494-547 | loading what was saved gives the same lines if and only if no text ends in a carriage return |
| NvsFile.ReloadKeepsMeaning | idf_compat/src/nvs.c:494-547 | loading what was saved takes a carriage return off each text and keeps every other field, if and only if no raw line reads as an entry or a section without it |
| NvsFile.ReloadCounterexample | idf_compat/src/nvs.c:517 | a raw line that is a section header once it was saved and loaded |
| NvsRun.StepRefines | idf_compat/src/nvs.c:552-587 | every call does to the map what it should and keeps lines, texts and file in agreement; so does a restart, if the file was not written since it was loaded or no raw line reads differently without its carriage return |
| NvsRun.StepEndures | idf_compat/src/nvs.c:428-587 | no call makes a line that a later restart reads differently; a restart uses up one carriage return of each line only if the file was written since it was loaded |
| NvsRun.RunRefines | idf_compat/src/nvs.c:494-587 | over every run of calls and restarts the store behaves as a map, if its raw lines stay raw over as many restarts as follow a write |
| NvsRun.EnduresOften | idf_compat/src/nvs.c:494-547 | that asks nothing of a run in which no restart follows a write, and holds for every run when no text ends in a carriage return |
| NvsRun.FileRefines | idf_compat/src/nvs.c:494-587 | from any file whose raw lines endure the run, the bindings develop as a map over every run that starts by loading it |
| NvsRun.RestartAlone | idf_compat/src/nvs.c:494-537 | a restart of a file nobody has written changes neither lines nor file |
| NvsRun.CyclesExact | idf_compat/src/nvs.c:494-547 | any number of cycles of writing and restarting keep all but the carriage returns if and only if every raw line stays raw while as many come off |
| NvsStore.SetThenGet | idf_compat/src/nvs.c:611-627 | a set integer is read by the getter of its own type and by no other |
| NvsStore.SetThenGetBytes | idf_compat/src/nvs.c:634-651 | a set string or blob is read whole by its own getter and by no other |
| NvsStore.UntypedGet | idf_compat/src/nvs.c:617 | an untyped number is read by exactly the getters whose range holds it |
| NvsStore.UntypedGetBytes | idf_compat/src/nvs.c:641 | an untyped string is read by the string getter with its NUL and by the blob getter without, an untyped blob by the blob getter alone, an untyped number by neither; no integer getter reads either |
| NvsStore.OtherGetters | idf_compat/src/nvs.c:617-641 | a key that is unbound or bound with another type is read by no getter |
| NvsStore.SizeIsEnough | idf_compat/src/nvs.c:643-651 | the size reported without a buffer is that of the value, and a buffer is accepted exactly if it has that size |
| NvsStore.LoadLines | idf_compat/src/nvs.c:512-535 | the splitting loop gives the loaded lines, one carriage return stripped, an entry outside a section kept as text |
| NvsStore.Store.SaveUnlocked | idf_compat/src/nvs.c:539-547 | the file becomes the texts, each with a newline |
| NvsStore.Store.FindEntry | idf_compat/src/nvs.c:416-426 | the loop with its section flag finds the last binding line |
| NvsStore.Store.InsertEntry | idf_compat/src/nvs.c:428-447 | inserts after the last line of the namespace that is not raw, or opens the namespace at the end |
| NvsStore.Store.RemoveEntries | idf_compat/src/nvs.c:449-465 | compacting in place leaves the kept lines in order and counts the removed ones |
| NvsStore.Store.EraseExceptReserved | idf_compat/src/nvs.c:467-479 | compacting in place leaves the lines the reserved namespace keeps |
| NvsStore.Store.SetValue | idf_compat/src/nvs.c:552-587 | error codes as listed; on success one binding changes and lines and file take the set step of a run, on error nothing changes |
| NvsStore.Store.SetInt | idf_compat/src/nvs.c:589-597 | after success the getter of the type finds the value |
| NvsStore.Store.EraseKey | idf_compat/src/nvs.c:741-754 | not-found exactly if the key is unbound; else the key is unbound; lines and file take the erase step of a run, which writes nothing for an unbound key |
| NvsStore.Store.EraseAll | idf_compat/src/nvs.c:756-769 | unbinds exactly the keys of the handle's namespace; lines and file take the step of a run |
| NvsStore.Store.FlashErase | idf_compat/src/nvs.c:675-682 | keeps exactly the reserved namespace's bindings; lines and file take the step of a run |
| NvsStore.Store.Open | idf_compat/src/nvs.c:688-718 | a read-only open of a namespace without a section is refused; else a handle not in use is bound to it |
| NvsStore.Store.Commit | idf_compat/src/nvs.c:731-739 | writes the lines in memory; on a store that is not loaded this empties the file |
| NvsStore.CommitAfterSetPath | idf_compat/src/nvs.c:660-739 | choosing a file with a handle open and committing empties that file, whatever key it binds |
| NvsStore.StartAgain | idf_compat/src/nvs.c:494-537 | a new start on the file takes the restart step of a run, with no handle open |
| NvsStore.Store.GetInt | idf_compat/src/nvs.c:611-631 | finds a value exactly if the binding has the type, or has none and fits it, and returns that number |
| NvsStore.Store.GetVar | idf_compat/src/nvs.c:633-655 | reports the size, refuses a short buffer, else the first bytes of the buffer are the value, for a string with its NUL, and the bytes after them stay; SizeIsEnough and UntypedGetBytes state which values and sizes |
| NvsFormat.TypeWords | idf_compat/README.md:86 | an integer type is named u or i and its number of bits, and has the range of an unsigned or two's complement number of so many bits |
| NvsFormat.WordsOfBytes | idf_compat/src/nvs.c:65 | the names of the string and the blob type |
| NvsFormat.BareChars | idf_compat/README.md:84-85 | a bare name is made of letters, digits, underscore and minus sign |
| NvsFormat.Escapes | idf_compat/src/nvs.c:132-144 | the escape each byte is written with |
| NvsFormat.EscapesRead | idf_compat/src/nvs.c:226-249 | the byte each escape stands for, whatever follows |
| NvsFormat.CodePointsRead | idf_compat/src/nvs.c:234-246 | four hexadecimal digits in either case are read as a code point; NUL and surrogates are refused |
| NvsFormat.AfterLastEntry | idf_compat/README.md:98-99 | a new key goes directly behind the last entry or header of its namespace, and there is no place exactly if it has neither |
| NvsFormat.ExampleFile | idf_compat/README.md:73-82 | the documented example file is read as its four bindings |
| NvsFormat.ExampleGetters | idf_compat/README.md:90-97 | on it the typed getters find each value by its type alone, and the untyped ssid as a string with its NUL and as a blob without |
| NvsLayout.AnyLayout | idf_compat/src/nvs.c:334-373 | an entry with any spaces and tabs around its key, colon, type, equals sign and value, and any comment behind, is read as that key, type and value, its ends included |
| NvsLayout.AnyHeader | idf_compat/src/nvs.c:340-348 | the same for a section header |
| NvsLayout.RemarkIsRaw | idf_compat/src/nvs.c:335-338 | blank lines and comments are kept as text |
| NvsLayout.NewNamespace | idf_compat/src/nvs.c:436-446 | a new namespace is opened at the end, its header behind an empty line or at the start of the file, with at most that one line added |
| NvsStore.Store.UsedEntryCount | idf_compat/src/nvs.c:787-806 | the number of distinct bound keys of the handle's namespace |
| HeapBlocks.BytesConserved | idf_compat/src/multi_heap.c:21-88 | sizes and headers of blocks that tile the region add up to its length |
| HeapBlocks.PlacedInside | idf_compat/src/multi_heap.c:43-49 | an aligned request, its alignment raised to a word, that suits a block lies inside it with its back pointer in front |
| HeapBlocks.SuitsIsRoom | idf_compat/src/multi_heap.c:46-49 | a free block suits a request exactly if some aligned address leaves a word behind its header and the request, rounded up to words, ends inside it; the address given is the least such |
| HeapBlocks.TakeIsTight | idf_compat/src/multi_heap.c:50-58 | the block given ends less than the smallest block behind what was needed; what is cut off is one free block, and all others stay |
| HeapBlocks.CoalesceTiled | idf_compat/src/multi_heap.c:79-87 | merging keeps the tiling and leaves no two free neighbours |
| HeapBlocks.CoalesceUsed | idf_compat/src/multi_heap.c:79-87 | merging touches no used block |
| HeapMemory.NothingOverlaps | idf_compat/src/multi_heap.c:41-68 | an allocation with its back pointer overlaps no header and no other allocation |
| HeapMemory.TakeRegion | idf_compat/src/multi_heap.c:50-64 | splitting and taking keep list, tiling, back pointers and free count |
| HeapMemory.FreeRegion | idf_compat/src/multi_heap.c:76-78 | marking a block free keeps list, tiling, back pointers and free count |
| HeapMemory.MergeRegion | idf_compat/src/multi_heap.c:80-84 | swallowing a free successor keeps list, tiling, back pointers and free count |
| MultiHeap.Register | idf_compat/src/multi_heap.c:21-35 | refuses exactly a region that cannot hold the bookkeeping and one smallest block; else one free block fills it from the first word behind the bookkeeping |
| MultiHeap.Heap.FirstFit | idf_compat/src/multi_heap.c:44-49 | the walk stops at the first free block with room for the aligned request and gives the least address there is room at |
| MultiHeap.Heap.AlignedAlloc | idf_compat/src/multi_heap.c:41-68 | NULL exactly for size 0 or when no free block has an aligned address with room for the request; else the least such address in the first such block, which is cut behind the request if the rest is worth it; the low mark follows |
| MultiHeap.Heap.Free | idf_compat/src/multi_heap.c:74-88 | frees that block, merges free neighbours, keeps all other allocations and the low mark; the block and each merged header become free bytes |
| MultiHeap.Heap.MergeWalk | idf_compat/src/multi_heap.c:79-87 | the loop merges every run of free blocks and counts the headers it frees |
| MultiHeap.Heap.GetAllocatedSize | idf_compat/src/multi_heap.c:90-94 | from the address to the end of its block, at least what was asked for |
| MultiHeap.Heap.GetInfo | idf_compat/src/multi_heap.c:100-115 | all seven numbers are those of the block list |
| MultiHeap.LargestFreeIsLargest | idf_compat/src/multi_heap.c:107-109 | the reported largest block is free and none is larger |
| MultiHeap.Heap.LiveAllocationsApart | idf_compat/src/multi_heap.c:41-88 | in every reachable state live allocations are aligned, lead back to their blocks and are pairwise disjoint |
| MultiHeap.Heap.FreedIsInitial | idf_compat/src/multi_heap.c:74-88 | with everything freed there is one block of the initial size |
| MultiHeap.Heap.Accounting | idf_compat/src/multi_heap.c:21-88 | free, used and header bytes fill the region, and the low mark is the least free count any call left |
| GlyphBits.ToBytesIsPack | tools/resgen/resgen.py:248-249 | the big integer turned into bytes is the bit sequence packed |
| GlyphBits.Read | tools/resgen/resgen.py:256-266 | the bit loop reads the bits at the position, zeros past the end |
| GlyphBits.WindowReads | libs/ui_framework/src/packed_font.cpp:103-110 | the three-byte window gives the same bits |
| GlyphRle.RleRoundTrip | tools/resgen/resgen.py:208-304 | decoding undoes encoding for all levels below the depth, whatever bytes follow, and reads no further than the code |
| GlyphRle.RleSize | tools/resgen/resgen.py:203-249 | the code is at most the raw bits and half a bit a level |
| GlyphRuns.RunCode | tools/resgen/resgen.py:216-246 | the bits of a run: the level twice, a one for each of the next eleven, then a six-bit count of the rest and the level behind, 63 at most; a zero ends a shorter repeat |
| GlyphCodec.RleEncode | tools/resgen/resgen.py:208-249 | the loop writes exactly the bits of the code, its cut at eleven repeats and its count included |
| GlyphCodec.RleDecode | tools/resgen/resgen.py:252-304 | the three-state loop is the state machine of the code |
| GlyphCodec.EncodeThenDecode | tools/resgen/resgen.py:208-304 | the two loops are inverse |
| GlyphCodec.Reader.NextLevel | libs/ui_framework/src/packed_font.cpp:63-92 | the device's reader takes the same steps, inside the data |
| GlyphPack.FilterRoundTrip | tools/resgen/resgen.py:307-324 | the row filter is undone by its inverse |
| GlyphPack.XorBits | tools/resgen/resgen.py:317-324 | a bit is set exactly if it is set in one of the two levels |
| GlyphPack.PrefilterRows | tools/resgen/resgen.py:317-324 | the loop over rows: a bit of a filtered level is set exactly if the level and the one above it differ in it, above the first row being zeros |
| GlyphPack.UnprefilterRows | tools/resgen/resgen.py:307-314 | the loop over rows: a bit of a level is set exactly if the filtered level and the level above it differ in it |
| GlyphPack.PackLevelsCarry | tools/resgen/resgen.py:397-408 | raw packing carries every level in its bits, in order, for each depth |
| GlyphFont.EncodePackGlyph | tools/resgen/resgen.py:658-664 | writes the code of the levels, or of levels that differ from them by the bits of the row above, exactly if compression is asked for and that code is shorter than raw, else the raw levels |
| GlyphFont.GeneratePack | tools/resgen/resgen.py:667-694 | refused exactly for a code point above U+FFFF or a glyph above 255 pixels; else every table entry leads to its glyph's code with two bytes of slack behind it |
| GlyphFont.DecodeGlyph | libs/ui_framework/src/packed_font.cpp:226-243 | from its entry every glyph comes back, and no read leaves the data |
| FontCmaps.Runs | tools/resgen/resgen.py:411-417 | the runs are consecutive and together are the code points |
| FontCmaps.LookupFindsGlyph | tools/resgen/resgen.py:457-476 | looking a code point up in sound maps whose members fit finds its place in the order; any other code point finds nothing in any sound maps |
| FontCmaps.LookupExact | tools/resgen/resgen.py:457-476 | with a length and a first glyph of 16 bits, all code points find their glyphs if and only if every map spans at most 65535 and begins below glyph 65536 |
| FontCmaps.WideListHides | tools/resgen/resgen.py:422 | two code points 65535 apart share a list of emitted length 0, and neither is found |
| FontCmaps.BuildCmaps | tools/resgen/resgen.py:411-428 | the maps hold the code points in order, ranges of at least eight, list offsets in 16 bits; all are found exactly if the maps fit, as they do when the code points span at most 65535 |
| Dispatch.RemainIsTrue | bsp/src/bsp_dispatch.c:59 | the signed 32-bit difference is the true one for intervals below 2^31, across wraps |
| Dispatch.DeadlineIsDue | bsp/src/bsp_dispatch.c:46-50 | the deadline that is stored is the low word of the true time the source is due, snapped or not |
| Dispatch.DeadlineInTime | bsp/src/bsp_dispatch.c:45-50 | a snapped deadline is a multiple of the period, neither due at once nor later than the period |
| Dispatch.StepKeepsNothingLost | bsp/src/bsp_dispatch.c:36-101 | after every step, with any number of tasks, a pending listed source will be looked at, is signalled, or is owed a signal |
| Dispatch.NoLostNotification | bsp/src/bsp_dispatch.c:36-106 | while all tasks sleep on an empty semaphore, a listed source is pending only if some notifier or registrar has still to give, in every run where no registration begins beside another before there is a semaphore |
| DispatchWait.StepKeepsTime | bsp/src/bsp_dispatch.c:39-55 | tick counts and deadlines stay the low words of true times, and no deadline is 2^31 ticks ahead |
| DispatchWait.WaitIsLeast | bsp/src/bsp_dispatch.c:55-63 | in every run, while all tasks are blocked, an armed source has a task that waits no longer than the true time until it is due, if that task read the clock less than 2^31 ticks past due; a single task's bounded wait is the time left of some source |
| DispatchWait.RunsWhatIsDue | bsp/src/bsp_dispatch.c:40-42 | in every run a task that comes to a source runs it exactly if it is pending, or armed and due in true time, and passes it otherwise |
| DispatchRace.OverlapLosesNotification | bsp/src/bsp_dispatch.c:27-29 | wherever a run has kept that rule, any registration that breaks it can end with its source listed, pending and owed nothing, and with all tasks asleep whatever is called later |
| DispatchRace.OneTask | bsp/src/bsp_dispatch.c:86-93 | there is never a second task if no registration begins beside another while there is none |
| DispatchRace.OverlapMakesTwoTasks | bsp/src/bsp_dispatch.c:86-93 | wherever a run has kept that rule, any registration that breaks it can make a second task |
| RecursiveMutex.StepKeepsInv | idf_compat/src/freertos_queue.c:165-198 | one holder, owner and count agree with it, after every step |
| RecursiveMutex.MutualExclusion | idf_compat/src/freertos_queue.c:165-198 | two threads never hold the mutex at once |
| RecursiveMutex.ShortcutIsHolders | idf_compat/src/freertos_queue.c:180-188 | the re-entry test passes exactly for the holder, who never waits for itself |
| RecursiveMutex.TokenReturnsOutermost | idf_compat/src/freertos_queue.c:190-198 | the token is back exactly when nobody holds, and goes back only with the outermost give |
| RecursiveMutex.GiveUndoesTake | idf_compat/src/freertos_queue.c:173-198 | an inner give lowers the count by one; the outermost leaves the mutex free |
| ToneStream.StepKeepsInv | bsp/src/bsp_audio.c:381-527 | an open app stream bars the tone task, and what each call in progress relies on holds, after every step of any number of threads |
| ToneStream.StreamHasOneOwner | bsp/src/bsp_audio.c:381-527 | in every interleaving in which no call begins beside one it clashes with, each provider call fits the stream that is open and a task that has claimed it shares it with nobody |
| ToneStream.OneCallerIsApart | bsp/src/bsp_audio.c:501-688 | calls from one thread at a time never clash |
| ToneClash.ClashBreaks | bsp/src/bsp_audio.c:466-527 | wherever a run has kept the rule, a call that begins beside one it clashes with, the flag and the task being as the pair needs, can give the stream two owners with no further call |
| ToneClash.EveryClashBreaks | bsp/src/bsp_audio.c:466-527 | every pair of a position and a call that clash comes about in a run that has kept the rule, and breaks |
| RingQueue.SendBack | idf_compat/src/freertos_queue.c:88-91 | writing the slot after the last item appends it |
| RingQueue.SendFront | idf_compat/src/freertos_queue.c:85-88 | writing the slot before the head puts the item in front |
| RingQueue.Queue.Send | idf_compat/src/freertos_queue.c:74-97 | full exactly at the length; else the item is first or last and the others keep their order |
| RingQueue.Queue.Receive | idf_compat/src/freertos_queue.c:99-115 | the oldest item, removed unless peeked at |
| Button.RunAccounts | bsp/src/bsp_button.c:180-240 | over every sample sequence and registration, DOWN and UP alternate, the level agrees with the state, and every press is accounted for |
| Button.SettledOwesNothing | bsp/src/bsp_button.c:239 | settled is reported only with nothing outstanding |
| Button.DebounceExact | bsp/src/bsp_button.c:184-195 | the level changes exactly when all samples since some one differ from it and the first of those is at least 20 milliseconds old |
| Button.MsSinceIsTrue | bsp/src/bsp_button.c:68-70 | the time since a tick is the true one below 2 to the 32 milliseconds, across a wrap |
| ButtonGestures.LongPressExact | bsp/src/bsp_button.c:223-229 | over every run a long press is reported exactly when the last report was a Down at least its time ago, with a callback and a time set, and the level does not change now |
| ButtonGestures.ClickExact | bsp/src/bsp_button.c:207-235 | over every run a click is reported exactly when a press not yet long is released with no double click to wait for, or its Up was reported at least the double-click time ago and nothing since |
| ButtonGestures.DoubleClickExact | bsp/src/bsp_button.c:197-206 | over every run a double click is reported exactly with the press that follows a released press whose click was not yet reported |
| ButtonGestures.LevelTold | bsp/src/bsp_button.c:197-208 | Down and Up are reported exactly when the level changes, at once |
| Button.Machine.Sample | bsp/src/bsp_button.c:180-240 | the update in place is one step of the machine, and the answer is whether it is settled |
| Button.RawTick | bsp/src/bsp_button.c:242-260 | polls again with nothing changed when sampling fails; else each button takes its sample, and the source sleeps only when all are settled |
| Blit.PathsAgree | bsp/src/bsp_display.c:138-144 | the CPU index and the PPA coordinates name the same source pixel, inside the source |
| Blit.TurnBack | idf_compat/src/ppa.c:392-399 | turning by an angle and by its opposite finds every pixel at its old place |
| Blit.CounterClockwise | bsp/src/bsp_display.c:138-144 | turning by 90 begins in the lower left-hand corner, right becomes up and down becomes right |
| Blit.QuarterTurns | idf_compat/src/ppa.c:392-399 | a half turn is two quarter turns, 270 degrees three, and four are none |
| Blit.SourceIndexUnique | bsp/src/bsp_display.c:138-144 | every source pixel is drawn once |
| Blit.ChannelRoundTrip | idf_compat/src/ppa.c:89-92 | widening and narrowing a channel is the identity for five and six bits |
| Blit.ThroughPpa | idf_compat/src/ppa.c:121-252 | a pixel read and written in one format keeps its bytes |
| Blit.BlitIsUnique | bsp/src/bsp_display.c:130-148 | any two ways of drawing the picture leave the same buffer |
| Blit.BlitCpu | bsp/src/bsp_display.c:130-148 | the turned source inside the rectangle, nothing changed outside |
| Blit.BlitPpa | idf_compat/src/ppa.c:383-419 | the same picture through the PPA at scale 1 |
| Blit.BlitRows | bsp/src/bsp_display.c:274-280 | the same picture by copying rows, unturned |
| Blit.BlitRotated | bsp/src/bsp_display.c:259-288 | the picture does not depend on whether the PPA takes the job |

## Left out

- Allocation failure, file and console I/O, locks around single calls and log messages: allocation succeeds, a file is its bytes, a call under a lock is one step.
- PbUnpack.Unpack: `size_t` is unbounded here; `PbArena.NeedBound` says why that is enough for inputs below 2 to the 48. Element sizes are those of a 64-bit target; the owner block and `pb_free` are not modelled.
- PbPack.PackMsg: messages whose encoding reaches 2 to the 64 bytes are not covered.
- PbRustEncode.MsgSame: the `Writer` is modelled as the bytes it appends, and the closed-form lengths as functions; the borrow analysis of the generator and the text it emits are not modelled.
- PbLazy.EagerImpliesLazy: a lazy member is its bytes; decoding it later at its depth is the eager decoder.
- NvsStore.Store.Open: handle numbers are unbounded and closed slots are not reused, since a handle is only its number.
- NvsStore.Store.SetValue: a failed write of the file is not modelled; keys, names and strings are C strings, so they hold no NUL.
- NvsReader.ReadString: the escape after a backslash is one expression, not a switch inside the loop.
- MultiHeap.Heap.AlignedAlloc: addresses and sizes are unbounded naturals with 8-byte pointers, so sizes close to the top of the address space, which wrap when aligned, are not covered.
- MultiHeap.Heap.Free: a pointer that was never given out or was already freed is outside the contract, as in the source. `multi_heap_malloc` and `multi_heap_free_size` only forward.
- GlyphFont.GeneratePack: the metrics columns, the emitted C text and the optional check that each glyph decodes back are not modelled; the glyphs come as sorted by code point, and entries are offsets while the data is below 2^31 bytes.
- GlyphFont.DecodeGlyph: gives levels; the table that maps a level to an opacity, the cache and the destination stride are left out.
- FontCmaps.LookupExact: what LVGL does with the tables is modelled by their documented meaning, with `range_length` and `glyph_id_start` of 16 bits; LVGL is not part of this model.
- Dispatch.NoLostNotification: safety only, sequential consistency, and one critical section per registration; failure to make the semaphore or a task is not modelled.
- DispatchWait.WaitIsLeast: ticks asked for are given in ticks, after the conversion from milliseconds, and stay below 2^31.
- RecursiveMutex.MutualExclusion: gives by threads that do not hold the mutex are excluded, as FreeRTOS demands.
- ToneStream.StreamHasOneOwner: the tone task ignores the result of closing the provider, and the model takes that close to succeed; volume, mute, signal processing and switching the provider are left out. A tone asked for while the last one is being torn down is dropped by the source; that it is played is not claimed.
- RingQueue.Queue.Send: waiting with a timeout is not modelled beyond its outcome; condition variables are left out.
- Button.Machine.Sample: ticks are milliseconds; events go to a log instead of callbacks, so what is registered only matters where the machine asks.
- Blit.BlitPpa: scale 1, no mirroring, equal formats, coordinates as integers; a buffer is an array of pixels, each the bytes of one copy. Conversions, YUV input, blending, asynchronous completion and cache maintenance are left out.
- Board files, chip drivers, the SDL panel, libc interposition, event groups, timers and tasks of the simulator, and the text the generators emit: they would add only simple members.
