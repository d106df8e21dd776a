# STM32WB wireless catalog: a verified model

The repository generates the HCI command and event codecs of ST's wireless coprocessors.
Per-release extractions of ST's C sources are merged into a catalog of commands and events; macros turn each catalogued layout into an
encoder, a decoder, a streaming reader and a direct call of the stack's C function; and the
extraction itself decides, from the code of generated wrappers or from their structures alone,
what a layout is. This project models those four parts and proves what each is for.

**The layout-driven codec.** `Bytes`, `Arithmetic`, `Layout` (widths, validation and the size envelope), `Plan`
(matching declared fields to members, deriving counts and selectors), `Encoder`, `WireBytes` (which byte of the
parameters is which), `Constructor`, `DirectCall` and `RoundTrip` (parameters into the buffer and out again), `Unambiguous`,
`Returns` and `ReturnStream` (return parameters from a slice and from a stream),
`DirectReturns` (from the stack function's output pointers), `SameLayout`, `EncodedSizes`.
The generated code is modelled as interpreters over a layout value, for every layout. Values
are positional; a packed structure is its bytes, an integer is little-endian (Bluetooth Core,
Vol 4, Part E, section 5.2), and the parameter limit is 255 bytes (section 5.4.1).

**The release histories.** `Release`, `Runs`, `Catalog`, `Merge`, `MergeFaithful`,
`MergeCanonical`, `MergeAccepts` and `MergeExactly` (merging snapshots into ranges, and which snapshots merge), `Segments` (the common refinement of an
entry's histories), `Variants`, `Cfg`, `Features` and `Partition` (one declaration for
every target). `Cycles` decides which structure tables the catalog's recursion ends on.

**The extraction.** `CStructures` and `StructureFacts` (converting and collecting C records),
`Wrapper`, `UnionSizes`, `WrapperLayout`, `WrapperAccepted`, `WrapperRun`, `WrapperSound` and `WrapperExample` (the
analysis of a wrapper against what it does when it runs), `Declared` and `DeclaredAgrees`
(structures alone). libclang's tree is an abstract list of writes, increments and other nodes.

**Printers, parsers and builders.** `Text`, `Notation`, `Spelling` (which texts are read), `DomainItems`, `Advertising` (AD
structures: Bluetooth Core, Vol 3, Part C, section 11).

Failures are `None`: error texts are not modelled. Automatic induction is off in every lemma,
so that each proof is the one written.

Where the code does not keep what it promises for every input, the model follows the code, a
lemma gives a concrete input, and another says exactly when the promise holds:

- A count or selector with two dependents is derived from the first only. The direct call then
  reads other arguments (`RoundTrip.SharedCountMisread`), and distinct parameters can encode to
  the same bytes (`Unambiguous.SharedCountAmbiguous`). `RoundTrip.ReadsBack` is exact for the
  first. For the second, `Unambiguous.SameEncoding` is exact for every two values: the
  ambiguity lies in the lengths and alternatives that no earlier member tells, and values
  agreeing on those have one encoding only if they are equal. One dependent each suffices
  for both.
- The comment at crates/stm32wb-hci-macros/src/command.rs:914 says that a capacity leaves room
  for the fixed members; a count and 255 bytes of data pass the constructor and take 256 bytes
  (`Constructor.WholeCapacityTooLong`). `Constructor.PacketLimit` is exact, and
  `Constructor.EnvelopeLimit` gives it in terms of the catalog's envelope.
- A union copied in units of more than one byte is accepted by the wrapper analysis, and then
  `index_input` is not the encoded size (`WrapperExample.UnionUnitIgnored`). A case of a
  `switch` may fall through, and then the width read for it is not the size it gives
  (`UnionSizes.FallThroughIgnored`); `UnionSizes.SwitchEvaluates` is exact.
  `WrapperSound.IndexIsEncodedSize` gives the difference for every call, truncated arguments
  included: by member, and so when it is nothing.

## Model

| member | source | states |
|---|---|---|
| Layout.ScalarRoundTrips | crates/stm32wb-catalog/src/layout.rs:38-66 | every integer a scalar type holds, negative ones in two's complement, is decoded from its little-endian bytes |
| Layout.ScalarBytesRoundTrip | crates/stm32wb-catalog/src/layout.rs:38-66 | every byte string of a scalar's width decodes to an integer the type holds, and that integer encodes back to it |
| Layout.ScalarRanges | crates/stm32wb-catalog/src/layout.rs:38-66 | how many bytes each integer type takes, and which integers it holds |
| Layout.EncodedLeastFirst | crates/stm32wb-hci-macros/src/command.rs:853-866 | byte `i` of an encoded integer is its digit for 256 to the `i`, negative integers in two's complement: the least significant byte comes first |
| Layout.DecodedLeastFirst | crates/stm32wb-hci-macros/src/command.rs:625-670 | a decoded integer is the sum of its bytes times 256 to their positions, less the type's range where it is signed and the highest bit set |
| Layout.ComputeStructWidth | crates/stm32wb-catalog/src/layout.rs:288-312 | the loop with checked 16-bit additions and multiplications computes the recursive width of an acyclic structure table, failing where it fails |
| Layout.ComputeElementWidth | crates/stm32wb-catalog/src/layout.rs:314-319 | an element's width is its scalar's or its structure's |
| Layout.ComputeEnvelope | crates/stm32wb-catalog/src/layout.rs:321-388 | the loop accepts a layout exactly if names are distinct, counts and selectors are earlier unsigned integers, structures have widths, tags are distinct and optional members last; and it then returns the sums of the narrowest and of the widest members |
| Layout.CheckMember | crates/stm32wb-catalog/src/layout.rs:325-380 | one member's checks against the members before it pass exactly if the member is valid in the whole layout |
| Layout.ComputeMember | crates/stm32wb-catalog/src/layout.rs:335-405 | one member's size bounds, and the checks of its type and of the member it refers to |
| Layout.ValidExactly | crates/stm32wb-catalog/src/layout.rs:321-405 | a layout is accepted exactly if names differ, optional members come last, counts and selectors name earlier unsigned integers, structures have widths, and unions have alternatives with different tags |
| Plan.ParamsPlanned | crates/stm32wb-hci-macros/src/command.rs:2529-2812 | a valid parameter layout is planned exactly if arrays take fewer than 65536 bytes and every capacity can be counted by its count |
| Plan.ReturnsPlanned | crates/stm32wb-hci-macros/src/command.rs:2529-2812 | a valid return layout is planned exactly if, besides, it has no union and no optional member |
| Encoder.SizeIsLength | crates/stm32wb-hci-macros/src/command.rs:804-830 | the generated `size()`, which adds widths without encoding, is the number of bytes `write_hci` writes |
| Encoder.Sink.WriteAll | crates/stm32wb-hci-macros/src/command.rs:831-890 | a write into a slice succeeds exactly if the bytes fit, and appends exactly them |
| Encoder.WriteItems | crates/stm32wb-hci-macros/src/command.rs:874-887 | the loop writing an array element by element writes the concatenation of the elements |
| Encoder.WriteSlot | crates/stm32wb-hci-macros/src/command.rs:838-889 | one member's write: counts from the length of the field they serve, selectors from its alternative |
| Encoder.WriteHci | crates/stm32wb-hci-macros/src/command.rs:831-890 | the generated writes give exactly the encoding of all members in layout order, or fail where the buffer is too small |
| WireBytes.EncodedByteByByte | crates/stm32wb-hci-macros/src/command.rs:831-890 | the members follow one another in layout order, and byte `i` of each is fixed: a digit of an integer, a byte of a structure or union, the element of an array as many widths in |
| WireBytes.FieldWritten | crates/stm32wb-hci-macros/src/command.rs:831-890 | a member that is no count or selector is written from the value of its own field, at the position of the members before it that are declared, byte by byte as its type says |
| WireBytes.CountWritten | crates/stm32wb-hci-macros/src/command.rs:851-872 | a count or selector is written, byte by byte, as the number of elements or the tag of the first field it serves |
| Constructor.EnvelopeSound | crates/stm32wb-catalog/src/layout.rs:321-388 | every conforming value within the capacities encodes to `size()` bytes, between the envelope's minimum and maximum |
| Constructor.PacketLimit | crates/stm32wb-hci-macros/src/command.rs:891-927 | every accepted value encodes in at most 255 bytes if and only if there are several counted members, the largest values of all fields take at most 255 bytes together, or a union has no alternative its selector can choose |
| Constructor.EnvelopeLimit | crates/stm32wb-hci-macros/src/command.rs:912-927 | several counted members, or an envelope of at most 255 bytes, suffice for every layout; they are also needed where each union's widest alternative can be chosen |
| Constructor.EnvelopeAttained | crates/stm32wb-catalog/src/layout.rs:321-388 | where every union's narrowest and widest alternatives can be chosen, some values take exactly the envelope's minimum and maximum |
| Constructor.WholeCapacityTooLong | crates/stm32wb-hci-macros/src/command.rs:912-927 | a layout of a count and 255 bytes whose constructor accepts a value encoding to 256 bytes |
| DirectCall.Reader.constructor | crates/stm32wb-hci/src/direct.rs:69-72 | a reader starts with everything unread |
| DirectCall.Reader.Take | crates/stm32wb-hci/src/direct.rs:84-93 | the next bytes are taken off the rest, or nothing if too few are left |
| DirectCall.NewReader | crates/stm32wb-hci/src/direct.rs:74-82 | the parameters encoded into the buffer are the reader's rest, and there is no reader exactly if they do not fit |
| DirectCall.SplitAt | crates/stm32wb-hci/src/direct.rs:111-117 | element `i` copied out of the bytes is the `i`th element of the array |
| DirectCall.ReadItems | crates/stm32wb-hci-macros/src/direct.rs:358-390 | wider integers copied one by one into a zeroed buffer of the capacity are the array's elements |
| DirectCall.ReadOne | crates/stm32wb-hci-macros/src/direct.rs:164-240 | the generated read of a member: its width, the count's capacity check, the width the selector chooses |
| DirectCall.ReadArguments | crates/stm32wb-hci-macros/src/direct.rs:160-242 | the generated reads in order give the arguments of the layout interpreter, and `finish` demands that nothing is left |
| RoundTrip.IntegerHeld | crates/stm32wb-hci-macros/src/command.rs:851-872 | a count or selector the constructor lets through is written without truncation |
| RoundTrip.ReferenceIsEarlier | crates/stm32wb-catalog/src/layout.rs:390-405 | in a valid layout a count or selector is the first member of its name, earlier and unsigned |
| RoundTrip.ReadsBack | crates/stm32wb-hci-macros/src/direct.rs:151-242 | for every valid layout without optional members and every accepted value: the direct call reads back exactly the values written, with nothing left, if and only if every count and selector suits the member it serves |
| RoundTrip.OneDependentSuits | crates/stm32wb-hci-macros/src/command.rs:2518-2527 | with one dependent each, counts and selectors suit every accepted value |
| RoundTrip.PassParameters | crates/stm32wb-hci-macros/src/direct.rs:331-334 | encoding into a buffer of the envelope's size always fits, and the arguments read are the values accepted |
| RoundTrip.SharedCountMisread | crates/stm32wb-hci-macros/src/command.rs:2518-2527 | a valid layout with a count shared by two buffers whose accepted value is not read back |
| Unambiguous.SuppliedPrefix | crates/stm32wb-hci-macros/src/command.rs:928-951 | the pairwise gap checks make the supplied optional members a prefix |
| Unambiguous.AcceptsExactly | crates/stm32wb-hci-macros/src/command.rs:891-951 | conforming values are accepted exactly if every buffer is within its capacity, the encoding is at most 255 bytes where several are counted, and the optional members supplied are a prefix |
| Unambiguous.SameEncoding | crates/stm32wb-hci-macros/src/command.rs:831-890 | two accepted values of any valid layout with the same encoding are equal if and only if they agree on the lengths and alternatives no earlier count or selector is derived from |
| Unambiguous.DistinctEncodings | crates/stm32wb-hci-macros/src/command.rs:831-890 | with one dependent for each count and selector, two accepted values with the same encoding are equal, whichever optional members they supply |
| Unambiguous.SharedCountAmbiguous | crates/stm32wb-hci-macros/src/command.rs:2518-2527 | with a shared count, two different accepted values with one encoding |
| Returns.DecodesEncoding | crates/stm32wb-hci-macros/src/command.rs:625-670 | the slice decoder reads the encoding of every value within the capacities back, leaving what follows it |
| Returns.DecodedWasEncoded | crates/stm32wb-hci-macros/src/command.rs:625-670 | whatever the slice decoder accepts is within the capacities and encodes to exactly the bytes consumed |
| ReturnStream.Stream.ReadExact | crates/stm32wb-hci-macros/src/command.rs:714-719 | an exact read fills its part of the buffer from the front of the stream, or fails |
| ReturnStream.Fill | crates/stm32wb-hci-macros/src/command.rs:685-723 | the reads, each as long as the counts read so far say, take from the stream exactly what the members take, never more |
| ReturnStream.ReadHci | crates/stm32wb-hci-macros/src/command.rs:746-756 | a success is what the slice decoder gives on exactly the bytes consumed, and every such result is found |
| ReturnStream.ReadEncoded | crates/stm32wb-hci-macros/src/command.rs:746-756 | on a stream starting with the encoding of a value within the capacities, with a buffer of `MAX_LEN`, exactly those bytes are consumed and the value returned |
| ReturnStream.EncodesWithinMaxLen | crates/stm32wb-hci-macros/src/command.rs:671-684 | no value within the capacities encodes to more than `MAX_LEN` bytes |
| ReturnStream.PlannedDecodable | crates/stm32wb-hci-macros/src/command.rs:2529-2812 | every return layout the catalog accepts and the plan supports, with one dependent each, is decodable |
| DirectReturns.Writer.Put | crates/stm32wb-hci/src/direct.rs:140-150 | bytes are appended if they fit, and otherwise nothing is written |
| DirectReturns.MaxLenIsEnvelope | crates/stm32wb-hci-macros/src/direct.rs:306-316 | the writer's buffer, sized by the envelope, is as large as the longest return value |
| DirectReturns.CollectReturns | crates/stm32wb-hci-macros/src/direct.rs:244-318 | for every output and every echoed parameter: counts of what the stack wrote are checked, all bytes put must fit the envelope, and the result is their decoding without a rest |
| DirectReturns.ReturnsWhatWasWritten | crates/stm32wb-hci-macros/src/direct.rs:244-318 | what the caller gets is what the stack wrote through its pointers, buffers cut to their counts and echoed parameters of every type included; there is nothing only if a count exceeds its capacity |
| SameLayout.Equivalence | crates/stm32wb-hci-macros/src/command.rs:2036-2070 | having the same layout is reflexive, symmetric and transitive |
| SameLayout.SamePlan | crates/stm32wb-hci-macros/src/command.rs:2036-2070 | layouts that are the same have the same plan: counts and selectors refer to the same positions |
| SameLayout.RenamingInvariance | crates/stm32wb-hci-macros/src/command.rs:2024-2070 | layouts that are the same have the same envelope and plans, hence encode every value to the same bytes, and are read alike from every byte string |
| SameLayout.SameUpToNames | crates/stm32wb-hci-macros/src/command.rs:2036-2070 | layouts with distinct names are the same exactly if one is the other with its members renamed |
| EncodedSizes.ReadsEncodedSize | crates/stm32wb-hci-macros/src/direct.rs:160-242 | the direct call reads exactly the encoded size of the layout under the integers it reads, from every buffer it accepts |
| Release.OrderedByNumber | crates/stm32wb-catalog/src/release.rs:11-18 | releases are ordered as the numbers whose digits are major, minor and patch |
| Release.ContainedByNumber | crates/stm32wb-catalog/src/release.rs:96-103 | a range contains exactly the releases between its ends by number, and ranges overlap exactly if they share a release |
| Runs.RunsCanonical | crates/stm32wb-catalog/src/merge.rs:318-343 | coalescing strictly ascending entries gives ascending disjoint runs, none continued by the next, ending with the last entry |
| Runs.RunsLookUp | crates/stm32wb-catalog/src/merge.rs:318-343 | looking any release up in the runs gives the fact recorded for it, or nothing |
| Runs.RunsUnique | crates/stm32wb-catalog/src/merge.rs:286-287 | two canonical lists of runs that give every release the same fact are equal |
| Catalog.IndexIn | crates/stm32wb-catalog/src/lib.rs:295-335 | the range found is the first holding in the release, and none is found only if none holds |
| Merge.Push | crates/stm32wb-catalog/src/merge.rs:76-136 | one release's facts are appended to their keys' lists; a second fact for a key is an error, detected by the last entry, exactly where the kind forbids it |
| Merge.Gather | crates/stm32wb-catalog/src/merge.rs:69-137 | the table groups every release's facts by key, and fails exactly if some release repeats a forbidden key |
| Merge.RangeTable | crates/stm32wb-catalog/src/merge.rs:145-160 | every key with facts, and no other, gets the runs of its facts as ranges of releases |
| Merge.MergeHistory | crates/stm32wb-catalog/src/merge.rs:161-192 | names, normalized profiles, definitions and documented values of one command are each the runs of the releases' facts |
| Merge.MergeHistories | crates/stm32wb-catalog/src/merge.rs:161-220 | every command or event some release has, and no other, gets its merged history |
| MergeExactly.MergeSnapshots | crates/stm32wb-catalog/src/merge.rs:62-252 | merging succeeds exactly if there are snapshots, their releases differ, and each by itself lists nothing twice and is sound; the result is then the validated merged catalog of the sorted snapshots, whose releases ascend by the number their major, minor and patch parts spell |
| MergeExactly.ValidExactlyIfSound | crates/stm32wb-catalog/src/lib.rs:457-900 | a merged catalog validates exactly if its snapshots are of ascending releases and each is sound: profiles listed, names present, layouts valid, completions matching results, bearers and documented values suiting their layouts, no status name or value twice |
| Cycles.IsAcyclic | crates/stm32wb-catalog/src/layout.rs:288-312 | whether the recursion over a table of structures ends is decided in as many rounds as there are structures |
| Merge.NormalizedSorts | crates/stm32wb-catalog/src/merge.rs:95-97 | sorted, deduplicated profiles are the same profiles in strictly ascending order |
| MergeFaithful.Lossless | crates/stm32wb-catalog/src/merge.rs:60-252 | when merging succeeds, looking up any binary, command, event, name, profile set, documented value or status in any release gives exactly what that release's snapshot says, or nothing |
| MergeCanonical.SnapshotsMerged | crates/stm32wb-catalog/src/merge.rs:62-252 | for snapshots in any order: the catalog lists exactly their releases, and shows every one of them what its snapshot says |
| MergeFaithful.HistoriesShown | crates/stm32wb-catalog/src/lib.rs:276-335 | a history shows every release its name, normalized profiles, definition and documented values, or nothing where the release has no such entry |
| MergeFaithful.ApartStrict | crates/stm32wb-catalog/src/lib.rs:668-683 | where validation finds no overlapping ranges, no release recorded a fact twice |
| MergeFaithful.StatusesApart | crates/stm32wb-catalog/src/lib.rs:704-724 | the check that no release defines a status twice leaves a status's runs disjoint |
| MergeCanonical.MaximalUnique | crates/stm32wb-catalog/src/merge.rs:60-61 | two lists of maximal ranges giving every release the same fact are the same list |
| MergeCanonical.CatalogMaximal | crates/stm32wb-catalog/src/merge.rs:60-252 | every list of a validated merged catalog consists of disjoint ascending ranges, none of which the next one continues with an equal fact |
| MergeCanonical.CatalogUnique | crates/stm32wb-catalog/src/merge.rs:138-252 | the sorted snapshots determine the catalog |
| MergeCanonical.OrderIrrelevant | crates/stm32wb-catalog/src/merge.rs:62-67 | the same snapshots in any order merge to the same catalog |
| Segments.FindSegments | crates/stm32wb-catalog/src/history.rs:116-156 | the loop fails exactly if a release has two entries or none has any, and otherwise coalesces consecutive releases with the same facts |
| Segments.CommandSegments | crates/stm32wb-catalog/src/history.rs:39-77 | a command name's segments are the common refinement of its histories: maximal ranges giving each release its facts, and covering no other release |
| Segments.EventSegments | crates/stm32wb-catalog/src/history.rs:80-111 | the same for events |
| Segments.CommandSegmentsAnswer | crates/stm32wb-catalog/src/view.rs:198-228 | for every release, the segment holding in it is of a command with the name whose availability, name and definition are those in the release, with its parameter, return and exclusion annotations each asked for that release's name; and every such command has a segment |
| Segments.EventSegmentsAnswer | crates/stm32wb-catalog/src/view.rs:230-245 | the same for events, with the payload and exclusion annotations |
| Segments.SegmentsRefine | crates/stm32wb-catalog/src/history.rs:113-156 | segments are ascending, disjoint, cover exactly the releases with the entry, and give each exactly its facts |
| Segments.RefinementUnique | crates/stm32wb-catalog/src/history.rs:1-11 | there is only one such list of segments |
| Segments.NeighboursDiffer | crates/stm32wb-catalog/src/history.rs:55-76 | in a merged catalog, segments of consecutive releases differ in the command, its name, profiles, definition or annotations as values, although only identities are compared |
| Segments.EventNeighboursDiffer | crates/stm32wb-catalog/src/history.rs:80-111 | the same for the segments of an event |
| Segments.SegmentsAgreeWithView | crates/stm32wb-catalog/src/view.rs:111-118 | a target accepts a command carrying the name exactly when the segment of its release says so, with the same facts |
| Cfg.ConditionMeansCovered | crates/stm32wb-hci-macros/src/cfg.rs:12-40 | for every release and profile it has, the generated condition holds exactly if some segment covers the pair, including where only the number of covered pairs was compared with the number of targets |
| Features.NamesDistinct | crates/stm32wb-catalog/src/target.rs:94-172 | the names of platform, release and profile features never coincide, so comparing names compares what they stand for |
| Features.ReleaseRoundTrips | crates/stm32wb-catalog/src/release.rs:34-51 | the release a feature name is made for is read back from it |
| Features.ReleaseText | crates/stm32wb-catalog/src/release.rs:36-51 | the names of two releases' features, letter by letter |
| Features.ProfileText | crates/stm32wb-catalog/src/target.rs:94-172 | the names of platform and profile features, letter by letter |
| Cfg.TargetsDistinct | crates/stm32wb-catalog/src/lib.rs:375-381 | a validated catalog lists no target twice |
| Catalog.ProfilesListed | crates/stm32wb-catalog/src/lib.rs:348-381 | the profiles of a listed release: all of the platform's on STM32WB, otherwise those it lists |
| Cfg.AllCovered | crates/stm32wb-hci-macros/src/cfg.rs:23-26 | as many covered pairs as targets means that all are covered |
| Variants.BoundsExact | crates/stm32wb-hci-macros/src/command.rs:2339-2393 | with ordered bounds at known releases, a field agrees with its segments in every release if and only if no bound is inside a segment, which is what is refused |
| Variants.ExistsByNumber | crates/stm32wb-hci-macros/src/command.rs:2339-2393 | a field exists in a release exactly if it is on the platform and its bounds there hold, `since` included and `before` excluded |
| Variants.ExistsAtEnds | crates/stm32wb-hci-macros/src/command.rs:2339-2393 | a field exists throughout a range exactly if it exists at both ends |
| Variants.AllowedExactly | crates/stm32wb-hci-macros/src/command.rs:2339-2420 | bounds are allowed exactly if they ascend and, on the platform, are releases of the catalog at which segments start, with segments inside and outside them |
| Variants.SameWireEquivalence | crates/stm32wb-hci-macros/src/command.rs:2024-2034 | being the same on the wire is an equivalence, so comparing with the latest facts compares all |
| Variants.Resolve | crates/stm32wb-hci-macros/src/command.rs:2142-2334 | the loop succeeds exactly if every segment can be declared and segments with the same fields are the same on the wire; then there is one variant for each set of fields, made of exactly its segments, with the latest facts and their span |
| Variants.AgreeingExactly | crates/stm32wb-hci-macros/src/command.rs:2024-2214 | segments can be declared together exactly if each is on the channel, not excluded and has its layouts, and those with the same fields have equal opcodes, completions and structures and layouts alike |
| Variants.MadeOfLatest | crates/stm32wb-hci-macros/src/command.rs:2142-2334 | a variant has the opcode, completion, parameters and results of the last segment with its fields |
| Variants.MadeOfAll | crates/stm32wb-hci-macros/src/command.rs:2142-2334 | a variant spans all its segments, from the first release of one to the last of one |
| Partition.VariantsPartition | crates/stm32wb-hci-macros/src/command.rs:2142-2334 | every supported release and profile is covered by exactly one variant, the one with the fields whose bounds hold at that single release; no other pair is covered |
| Partition.VariantWire | crates/stm32wb-hci-macros/src/command.rs:2026-2034 | a variant is the same on the wire as the segment of every release it covers |
| Partition.OneDeclaration | crates/stm32wb-hci-macros/src/command.rs:2310-2334 | for every selection of a release and a profile it has, exactly one variant compiles if the command is supported there, and none otherwise |
| Partition.DeclaredWhereSupported | crates/stm32wb-catalog/src/view.rs:107-118 | from the validated catalog to the condition: exactly one declaration compiles on a target where the catalog has a command of the name whose availability there lists the profile, and none elsewhere |
| Partition.DeclaredAsResolved | crates/stm32wb-hci-macros/src/command.rs:2026-2214 | a declaration compiled on a target is of a command the catalog offers there: its opcode, scope and completion, no exclusion, parameters like those of the parameter annotation or else of the definition, and results like those of the return annotation or else of the definition, each with the structures of that source |
| Partition.ValidReferenced | crates/stm32wb-catalog/src/layout.rs:390-405 | in a validated catalog with valid annotations, every count and selector of a resolved layout is one of its members |
| CStructures.Table.FixedField | crates/stm32wb-catalog-extract/src/c.rs:511-543 | a member converts exactly if it is fixed-width and everything it holds can be defined; what is defined is closed, kept, and needed |
| CStructures.Table.ElementType | crates/stm32wb-catalog-extract/src/c.rs:545-558 | the same for an array element |
| CStructures.Table.DefineStruct | crates/stm32wb-catalog-extract/src/c.rs:569-593 | a structure is defined exactly if it and everything it holds is packed, no union and fixed-width; the table stays closed, keeps what it had, and gains nothing a closed table with the structure could lack, also on failure |
| StructureFacts.DefinableExactly | crates/stm32wb-catalog-extract/src/c.rs:511-593 | a structure can be defined exactly if it is one of some packed records, none a union, that hold only integers, one another, and fixed arrays of either |
| CStructures.Table.Collect | crates/stm32wb-catalog-extract/src/commands.rs:191-211 | the recursion ends on every table, cyclic ones too, as the defined structures not yet visited become fewer; it adds the structures the fields hold with what those hold, and only structures every closed set with them has |
| StructureFacts.BuiltAcyclic | crates/stm32wb-catalog-extract/src/c.rs:569-593 | tables converted from acyclic records are acyclic, and no structure holds itself |
| StructureFacts.BuiltClosed | crates/stm32wb-catalog-extract/src/c.rs:569-593 | they hold every structure their structures hold |
| StructureFacts.BuiltMemberByMember | crates/stm32wb-catalog-extract/src/c.rs:511-593 | a converted structure has its record's members, in order, by name and type |
| StructureFacts.WidthIsSize | crates/stm32wb-catalog/src/layout.rs:288-319 | whenever a converted structure has a width, it is the record's C size: nothing wraps |
| StructureFacts.SizeIsWidth | crates/stm32wb-catalog/src/layout.rs:288-319 | where all C sizes fit in 16 bits, every converted structure has its width |
| StructureFacts.CollectedIsLeast | crates/stm32wb-catalog-extract/src/commands.rs:191-211 | from a closed starting table, the result is the least closed one with the structures the fields hold |
| StructureFacts.CollectedIsReferred | crates/stm32wb-hci-macros/src/structs.rs:297-316 | on acyclic tables, the structures collected are exactly those the separate recursion says the fields refer to |
| Wrapper.Scan | crates/stm32wb-catalog-extract/src/commands.rs:319-385 | the loop over pending writes succeeds exactly if writes to the views and increments alternate and no member is written twice, and records every write with its increment, in order |
| Wrapper.StepsAlternate | crates/stm32wb-catalog-extract/src/commands.rs:319-385 | writes and increments are paired exactly if they alternate, a write first and an increment last |
| WrapperLayout.UnionType | crates/stm32wb-catalog-extract/src/commands.rs:478-494 | with readable code and a stored selector, a union is typed exactly if every alternative is at most as wide as it, and then has those alternatives and that selector |
| WrapperLayout.BufferType | crates/stm32wb-catalog-extract/src/commands.rs:512-545 | a variable buffer is counted by the member storing its length's parameter, in elements or, with unit 1, in bytes |
| UnionSizes.VariantsEvaluate | crates/stm32wb-catalog-extract/src/commands.rs:643-688 | the alternatives read off a conditional size give every selector value the width the expression evaluates to, repeated equalities included |
| UnionSizes.ReadSwitch | crates/stm32wb-catalog-extract/src/commands.rs:579-624 | the loop over labels reads one alternative for each case or default assigning directly under one label, and fails for any other label but a returning default |
| UnionSizes.SwitchEvaluates | crates/stm32wb-catalog-extract/src/commands.rs:579-624 | for every selector value, the alternative read is the size the switch gives if and only if the case entered does not run on to a return or to a last assignment of another width; without an alternative there is no size |
| UnionSizes.FallThroughIgnored | crates/stm32wb-catalog-extract/src/commands.rs:587-604 | an accepted switch that falls through and gives 2 where the alternative read has width 1 |
| UnionSizes.FindVariants | crates/stm32wb-catalog-extract/src/commands.rs:551-624 | the alternatives come from the initializer or from the switch on a parameter, and from nothing else |
| UnionSizes.SizeIsChosen | crates/stm32wb-catalog-extract/src/commands.rs:551-624 | for both forms, without falling through, the size is the alternative the selecting argument chooses |
| WrapperLayout.MemberType | crates/stm32wb-catalog-extract/src/commands.rs:439-547 | a member's type, exactly as its write and increment allow it |
| WrapperLayout.ParamsLayout | crates/stm32wb-catalog-extract/src/commands.rs:280-435 | a wrapper resolves exactly if its parts are numbered and packed, every member is written once in structure order, and every member's type can be derived; the fields are then those derived, with their structures defined |
| WrapperAccepted.AcceptedExactly | crates/stm32wb-catalog-extract/src/commands.rs:280-547 | a wrapper resolves exactly if its parts are numbered and packed, each member is written once in order, and its write and increment make it an integer, a structure, an array, a buffer counted by a stored member or a union whose alternatives fit; the fields are those |
| WrapperAccepted.CountsReported | crates/stm32wb-catalog-extract/src/commands.rs:512-547 | the count relationships reported are those of the layout's buffers in order, each with whether its count is the member right before; members counted in bytes are those copied in units other than their elements' size |
| WrapperSound.WritesEveryMemberOnce | crates/stm32wb-catalog-extract/src/commands.rs:12-14 | running a resolved wrapper writes every member of its structures exactly once, in the order of the layout's fields |
| WrapperSound.ReferenceHolds | crates/stm32wb-catalog-extract/src/commands.rs:15-19 | every count and selector of the layout is an earlier unsigned member, which the wrapper assigns the very parameter the member's length depends on |
| WrapperSound.IndexIsEncodedSize | crates/stm32wb-catalog-extract/src/commands.rs:280-435 | for every call, the final `index_input` is the encoded size of the layout under the values stored plus each member's excess: what its count loses where it is stored, or what its union's code copies beyond the alternative chosen; an excess is nothing if and only if the count is stored whole or its elements are empty, or the union is copied with its chosen width; and where no member falls short, the sum is nothing only if each is |
| WrapperSound.NeverShort | crates/stm32wb-catalog-extract/src/commands.rs:439-547 | no member falls short if counts are not negative, selectors are stored whole, and sizes are copied in units of at least a byte without falling through |
| WrapperSound.CountsItsBytes | crates/stm32wb-catalog-extract/src/commands.rs:439-547 | with union copies of unit 1 from code that does not fall through, and arguments that fit their members, the final `index_input` is the encoded size for all arguments |
| WrapperRun.HeldWhole | crates/stm32wb-catalog-extract/src/commands.rs:425-429 | a parameter the member's type holds is stored unchanged |
| WrapperRun.TruncatedModulo | crates/stm32wb-catalog-extract/src/commands.rs:425-429 | what is kept of an argument is held by the member's type and differs from it by a multiple of the type's range |
| WrapperExample.UnionUnitIgnored | crates/stm32wb-catalog-extract/src/commands.rs:466-494 | an accepted wrapper whose union its widest alternative fills, copied in units of 2: it counts 3 bytes for a layout of 2 |
| Declared.RecordFields | crates/stm32wb-catalog-extract/src/declared.rs:121-157 | a packed structure's members are appended, each variable buffer counted by the unsigned member before it, or the structure is refused |
| Declared.Params | crates/stm32wb-catalog-extract/src/declared.rs:77-99 | the parts numbered from 0 are appended in order, and a part after a gap is an error; the loop ends because part names are distinct |
| Declared.DeclaredExactly | crates/stm32wb-catalog-extract/src/declared.rs:77-157 | structures alone give parameters exactly if those named as parts are numbered from 0 without a gap and packed and each member can be typed; the fields are those |
| DeclaredAgrees.StructuresReproduceCode | crates/stm32wb-catalog-extract/src/snapshot.rs:470-524 | whenever the code's analysis resolves with adjacent counts, no buffer counted in bytes, no union, and views of all the parts, the structures alone give the identical field list, so that no contradiction can be reported |
| DeclaredAgrees.SameReferenced | crates/stm32wb-catalog-extract/src/declared.rs:64-75 | the structures referenced are the same from either table |
| Text.DigitsDenote | crates/stm32wb-catalog/src/domain.rs:59-64 | printed decimal or hexadecimal digits denote the number printed and have no leading zero |
| Text.DigitAt | crates/stm32wb-catalog/src/domain.rs:59-64 | the digit `i` places from the end is the number's digit for the base to the `i` |
| Text.ZerosIgnored | crates/stm32wb-catalog/src/layout.rs:456-513 | a leading zero or a plus sign does not change what a number is read as |
| Notation.PrintedIsParsed | crates/stm32wb-catalog/src/layout.rs:171-213 | every well-formed field, with any number of alternatives, is read back from its printed form |
| Notation.ParsedIsPrintable | crates/stm32wb-catalog/src/layout.rs:407-513 | any accepted text gives a well-formed field, whose printed form reads back as the same field |
| Notation.RoundTrips | crates/stm32wb-catalog/src/layout.rs:171-213 | a field is read back from its printed form if and only if names are identifiers, structures are not named as integers, a count does not read as a 16-bit length, and unions have alternatives |
| Notation.NotUnion | crates/stm32wb-catalog/src/layout.rs:441-443 | a structure named like, or beginning with, the union keyword is not taken for a union |
| Notation.NamedByWidth | crates/stm32wb-catalog/src/layout.rs:65-91 | an integer type is written as `i` or `u` and its width in bits, and nothing else is read as it |
| Notation.WrittenAs | crates/stm32wb-catalog/src/layout.rs:100-194 | how arrays, buffers, unions and their alternatives are written, for all names and numbers |
| Spelling.ReadExactly | crates/stm32wb-catalog/src/layout.rs:196-513 | a text is read as a field exactly if it is the field's name, a colon and the tokens of its type, leading zeros allowed in numbers, with any whitespace before and after each and nothing else |
| DomainItems.PrintedIsParsed | crates/stm32wb-catalog/src/domain.rs:59-130 | every well-formed item, with any label, is read back from its printed form |
| DomainItems.AcceptedIsPrinted | crates/stm32wb-catalog/src/domain.rs:101-130 | an accepted string is exactly the printed form of its item, which is well-formed |
| DomainItems.RoundTrips | crates/stm32wb-catalog/src/domain.rs:59-130 | an item is read back from its printed form if and only if its range is ordered and a hexadecimal first value is not negative and fits its 1 to 16 digits |
| DomainItems.HexadecimalRangeText | crates/stm32wb-catalog/src/domain.rs:59-99 | a range from 0 to 31 of one-digit hexadecimal values is written `0x0..=0x1F` |
| Advertising.AdvData.constructor | crates/stm32wb-hci/src/adv_data.rs:59-66 | new data holds no structures |
| Advertising.AdvData.Structure | crates/stm32wb-hci/src/adv_data.rs:73-95 | appends length, type and the concatenated parts after unchanged bytes, or changes nothing and reports the bytes needed, exactly if they exceed the capacity or the data 254 bytes |
| Advertising.AdvData.Uuid16List | crates/stm32wb-hci/src/adv_data.rs:171-187 | the patched length byte never overflows, and data and error are those of a structure of the little-endian UUIDs |
| Advertising.AdvData.Flags | crates/stm32wb-hci/src/adv_data.rs:97-100 | appends the three bytes of the flags structure |
| Advertising.AdvData.LocalName | crates/stm32wb-hci/src/adv_data.rs:102-110 | appends the complete or shortened local name |
| Advertising.AdvData.PeripheralConnIntervalRange | crates/stm32wb-hci/src/adv_data.rs:139-149 | appends the minimum, then the maximum, little-endian |
| Advertising.AdvData.Identified | crates/stm32wb-hci/src/adv_data.rs:151-169 | appends data after a little-endian UUID or company identifier |
| Advertising.EncodedParses | crates/stm32wb-hci/src/adv_data.rs:73-95 | the bytes of any structures appended read back as exactly those structures, in order |
| Advertising.ParsedEncodes | crates/stm32wb-hci/src/adv_data.rs:73-95 | data that reads as structures contains nothing else |
| Advertising.AppendReads | crates/stm32wb-hci/src/adv_data.rs:73-95 | appending to any data that reads as structures adds one at the end and keeps the others, or changes nothing |
| Advertising.ListsAgree | crates/stm32wb-hci/src/adv_data.rs:171-187 | a list appended in place and one appended as flattened bytes leave equal builders equal |
| Advertising.LocalNameStructure | crates/stm32wb-hci/src/adv_data.rs:217-242 | the name after its type, without a length, or an error with the bytes needed |

## Left out

- Catalog order: the program's tables are ordered; the model's are finite maps by identity, so the order in which entries are listed is not modelled.
- Catalog.Valid: `validate` is a predicate, not a loop, and false of a catalog whose structures hold themselves, on which the program's recursion does not end; the values documented for a member are checked by a parameter of it, and the check of structure fields against each release's structures is left out, as no result needs them.
- Plan.PlanOf: the widths, values and structure identities the plan asserts of the declared Rust types are taken as given, as is the spelling of their names; so is that user types encode to their width.
- RoundTrip.ReadsBack: layouts with optional members have no direct call.
- Returns.DecodesEncoding: a declared type that refuses some bit patterns, such as an enumeration, is not modelled.
- ReturnStream.ReadHci: the asynchronous variant has the same steps.
- DirectReturns.CollectReturns: the stack function is arbitrary and writes typed outputs; the status it returns, the function pointer types, and the refusal to generate a call for a buffer whose count is echoed, are left out.
- Variants.Resolve: the names members had, bearers and documented values a variant collects beside its targets are left out.
- Segments.CommandSegments: the annotation chosen for a name, question and release is a parameter.
- Wrapper.Scan: libclang's tree is abstract, control flow is flattened to the order of its nodes as the analysis flattens it, and views come sorted by number.
- UnionSizes.ReadSwitch: labels are those directly in the body of the switch, and the size variable is an unbounded integer; labels in nested statements are left out.
- WrapperSound.IndexIsEncodedSize: `index_input` is an unbounded integer; a selector value with no alternative counts 0 bytes on both sides, where the wrapper returns early or leaves its size unassigned.
- StructureFacts.WidthIsSize: records are acyclic and packed ones as large as their members, as C and the extraction make them.
- Declared.Params: return and event layouts, which use the same rule, and the return side of the wrapper analysis are left out.
- DomainItems.RoundTrips: only single items; lists, units and validation of ranges are left out.
- The parameter sets per PHY of the extended scan and connect commands, dispatch of events, and the choice of representative targets.
- libclang traversal, HTML and TOML, token generation, error texts, formatting and derives.
