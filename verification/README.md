# zero-schema, verified

zero-schema turns a declared schema (records, scalar enums, externally tagged unions, fixed and
nested arrays, zero-sentinel options, bounded strings) into code that validates, reads and mutates a
fixed-layout byte span. This project models that pipeline in Dafny as a deep embedding and proves what
it promises, for every schema rather than for chosen ones: the emitters write the generated code once,
so one recursive datatype stands for all of it. Nothing here executes the original program.

`dafny verify dfyconfig.toml` checks the whole project.

## How the model is laid out

| file | what it holds |
|---|---|
| `Bytes`, `Leaves` | byte strings, endian integers, the leaf wires and the four string forms, UTF-8 (section 4 of RFC 3629) |
| `Unicode`, `LeafBytes` | scalar values and their octets (section 3 of RFC 3629); leaves byte by byte: digits, units, what is accepted, what fits |
| `Schemas`, `Codec` | the schema datatype, the eager proof (`Valid`), `copy_into` (`Decode`) and the span after a write (`Encode`) |
| `RoundTrip` | the two round trips and what they say of the proof |
| `ZeroStates`, `ZeroChoices` | `ZERO_IS_VALID`, `ZeroState`, `ClearState`, and the last two told through the first |
| `Patches`, `PatchLaws` | patches, the preflight pass over bytes and the meaning of a patch on logical values |
| `PatchExact`, `PatchPlaces` | completeness, acceptance and meaning of a patch without the passes that compute them; a patch place by place |
| `Frames`, `Actives` | which bytes a write and a patch may change, and that these are exactly the right ones |
| `Buffers`, `Stages`, `Traces` | the exclusive buffer with a ghost record of its stores, how far a commit has come, and the order of its stores |
| `Commits`, `PatchCommits` | the commit pass that writes the buffer in place, field by field |
| `CopyLaws`, `Runs`, `Places` | what `copy_from` and initialisation promise as a whole; runs of capability operations at any depth; the place a path names, its bytes, and what calls do to it |
| `Handles`, `Execution` | the capabilities as handles over the shared buffer, and runs of calls through them |
| `Alignments`, `Layout`, `LayoutExact`, `Padding`, `Access` | `repr(C)` placement and why it is the tightest one, the emitted padding ranges, checked selection, root access |
| `NestedArrays` | flat positions, saturating arithmetic, the first failing leaf, index paths |
| `TagLinks`, `Lifetimes` | linking external tags; lifetime rewriting, fresh names and kept where-predicates |

Records and arrays are seen alike, as a list of children with a kind and a storage each. Offsets are
data of the schema: `Layout.Place` computes them as `repr(C)` does and `Layout.PlaceWf` proves every
placed declaration well formed, so the other modules hold for it.

The commit code is imperative and writes one live buffer. It re-reads that buffer for the decisions
preflight already made (the current tag, an option absent or present); `Stages` says how far a
declaration-order commit has come, and `Stages.TagUntouched` is why both passes decide alike. Every
commit method is held to `Encode` of the logical result; every handle method to the operations of
`Runs`; and `Execution.ExecuteAll` ties a whole run of handle calls to the run on logical values. The
record of stores lets the commit methods also say what a reader would see half-way:
`Traces.Published` states, for every union of the committed value at every depth, that no byte of its
tag is stored before its payload is final.

Conventions. Integers and floats are their bit patterns. A wire carries its width, its alignment on
the target and its byte order; a native wire is one whose order is the target's. `usize::MAX` is a
parameter where it matters. Values that Rust's types rule out are preconditions or do nothing:
`Typed`, `TypedPatch` and `Offered` say what the types admit. An error is modelled as rejection
without a store; error kinds are not distinguished, and a length prefix too large for `usize` is
rejected like one above the capacity. A scalar-enum patch that is present but carries no value does
the same as an absent one and is `Keep`. `copy_from_slice` is byte stores at increasing addresses. A
value starts its aligned storage, so the value offset of an aligned wire is 0.

Two results are worth knowing beforehand.

- `ZERO_IS_VALID` is a third answer: `ZeroStates.SandwichStrict` gives records where it differs from
  `ZeroState` and from `ClearState`.
- Rebinding a type to the fixed names `'wire` and `'view` is not capture-avoiding for every
  declaration. `Lifetimes.FixedNameCaptured` gives the type; `Lifetimes.SubstOccurrences` and
  `Lifetimes.EraseAfterRebind` give the exact condition, that no free source lifetime stands under a
  binder of the new name; and `Lifetimes.FreshRebind` shows that a generated fresh name always meets it.

## Model

| member | source | states |
|---|---|---|
| Bytes.LoadStore | src/wire.rs:264-295 | for every width and either byte order, a stored integer loads back unchanged; `StoreAt` and `LoadSum` say which byte is which |
| Bytes.StoreLoad | src/wire.rs:264-295 | storing what was loaded reproduces the same bytes, in either byte order |
| Bytes.LoadZero | src/wire.rs:264-295 | zero is the value of the all-zero wire and of no other byte string |
| Bytes.StoreAt | src/wire.rs:126-137 | byte `i` of a stored integer is its base-256 digit of weight `i` in little-endian order and of weight `width - 1 - i` in big-endian order |
| Bytes.LoadSum | src/wire.rs:126-137 | a loaded integer is the sum of its bytes, each times the power of 256 its byte order gives it |
| Unicode.Utf8Exactly | src/strings.rs:55-64 | the UTF-8 test accepts exactly the octets that RFC 3629 writes for some sequence of Unicode scalar values |
| Leaves.DecodeEncodeUnits | src/strings.rs:153-158 | native `u16` (and byte) units survive being stored and read |
| Leaves.EncodeDecodeUnits | src/strings.rs:153-158 | units read from any storage store back to the same bytes |
| Leaves.LeafRoundTrip | src/strings.rs:160-287 | for every leaf, all four string forms, every prefix width and order: a preflighted value written over any bytes is proved and read back unchanged |
| Leaves.LeafIdentity | src/strings.rs:43-118 | a proved leaf holds a value preflight accepts, and writing it back changes no byte |
| Leaves.LeafFrame | src/strings.rs:171-180 | a commit leaves the tail behind the active value and the gap after the prefix alone |
| Leaves.LeafLocal | src/strings.rs:43-118 | the proof and the value depend on no byte past the active value |
| Leaves.LeafZero | zero-schema-macros/src/emit_access.rs:2255-2266 | the all-zero storage of a leaf is valid except for a scalar enum without a zero discriminant |
| LeafBytes.WrittenLeaf | src/strings.rs:171-287 | what a commit leaves in the active bytes: digits in the wire's own order, 0 or 1 for a Boolean, fixed bytes as they are, string units in the unit's own order behind the prefix or before a zero unit |
| LeafBytes.ReadLeaf | src/wire.rs:215-221 | what is read is what the bytes hold: byte 0 is `false`, byte 1 is `true`, numbers, lengths and units are their digits |
| LeafBytes.AcceptedLeaf | src/strings.rs:43-95 | the leaf proof accepts exactly: Booleans 0 and 1, declared discriminants, lengths within the capacity over encoded scalar values, C strings with a zero unit, and every number and fixed byte string |
| LeafBytes.EncodedUnits | src/strings.rs:153-158 | unit `i` of stored units is one byte, or its two bytes in the unit's own order, at its own offset |
| LeafBytes.TypedText | src/strings.rs:160-287 | the string sources the types admit, of any length: UTF-8 encodes scalar values, C strings hold no zero unit |
| LeafBytes.FittingText | src/strings.rs:120-141 | a string source fits exactly when its units have room and its length survives the prefix, or when the terminator has room |
| LeafBytes.TextPlaced | src/wire.rs:361-411 | `DATA_OFFSET` is the first multiple of the unit alignment at or after the prefix, and the storage ends at the first multiple of its own alignment |
| Codec.KidDecoded | zero-schema-macros/src/emit_access.rs:1356-1554 | every child of a proved span is proved, under the variant its tag selects, and is decoded from its own storage alone |
| Codec.EncodeParts | zero-schema-macros/src/emit_mutation.rs:1549-1685 | a committed value reaches exactly the storages of the children; the record's own padding keeps its bytes |
| RoundTrip.EncodeThenDecode | zero-schema-macros/src/emit_mutation.rs:1794-1916 | for every schema, any value that fits, written over arbitrary bytes, makes a span the eager proof accepts and `copy_into` reads back, through nested options, unions and arrays |
| RoundTrip.DecodeThenEncode | zero-schema-macros/src/emit_access.rs:1295-1354 | a proved span holds a value that fits (tags name their variants), and writing that value back changes no byte |
| RoundTrip.FitsIffRepresentable | zero-schema-macros/src/emit_access.rs:1365-1554 | a value fits if and only if some span the proof accepts reads as that value |
| RoundTrip.ValidIffWritten | zero-schema-macros/src/emit_access.rs:1356-1554 | the eager proof accepts a span if and only if the span is some fitting value written over itself |
| RoundTrip.DecodeCoupled | zero-schema-macros/src/emit_access.rs:1486-1506 | in a proved record the decoded tag names the variant decoded beside it |
| ZeroStates.ZeroExact | zero-schema-macros/src/emit_access.rs:2255-2334 | `ZERO_IS_VALID` holds if and only if the eager proof accepts the all-zero span, for every schema, with the zero tag coupled to the variant it selects |
| ZeroStates.Sandwich | src/__private.rs:71-124 | `ClearState = ZeroValid` implies `ZERO_IS_VALID`, which implies `ZeroState = ZeroValid`, so nothing eligible for `Option` is clearable |
| ZeroStates.SandwichStrict | src/__private.rs:192-216 | both implications are strict: two concrete records where the three answers differ |
| ZeroStates.ValidNotZero | src/__private.rs:119-124 | no valid value of a type eligible for `Option` is all zero |
| ZeroStates.ClearKeepsValid | zero-schema-macros/src/emit_mutation.rs:40-66 | the gated record `clear()` leaves a span the proof accepts |
| ZeroStates.WireTypeState | zero-schema-macros/src/emit_access.rs:2126-2154 | the fold over the fields with `Or`, from the last to the first, computes the recursive answer for both projections |
| ZeroStates.FieldState | zero-schema-macros/src/emit_access.rs:2211-2243 | the state of a field is the answer for its kind, which `ZeroChoices` characterises from both sides |
| ZeroStates.PayloadZeroState | zero-schema-macros/src/emit_access.rs:2158-2171 | the fold with `And` from `ZeroInvalid` is valid exactly when some variant is |
| ZeroStates.PayloadClearState | zero-schema-macros/src/emit_access.rs:2180-2209 | the fold with `Or` from the zero-tag flag is valid exactly when the zero tag is claimed and every variant is zero-valid |
| ZeroChoices.PayloadFreeExact | src/__private.rs:71-93 | for a declaration without payloads outside options, `ClearState`, `ZERO_IS_VALID` and `ZeroState` agree |
| ZeroChoices.MayBeZeroExactly | src/__private.rs:71-93 | `ZeroState` is `ZeroValid` if and only if replacing every payload by some one of its variants can make the declaration zero-valid |
| ZeroChoices.ClearableExactly | src/__private.rs:197-206 | `ClearState` is `ZeroValid` if and only if every tag claims zero and every replacement of payloads by variants is zero-valid |
| ZeroChoices.ResolvedPayloadFree | src/__private.rs:71-93 | such a replacement leaves no payload, so the three answers agree on it |
| PatchLaws.PreflightValueExact | zero-schema-macros/src/emit_mutation.rs:1421-1547 | the preflight pass over bytes accepts a logical source if and only if the value fits, over a live span or, when initialising, over any bytes |
| PatchLaws.PreflightIffRepresentable | zero-schema-macros/src/emit_mutation.rs:1686-1793 | preflight accepts exactly the sources some valid span can hold |
| PatchLaws.PreflightExact | zero-schema-macros/src/emit_patch.rs:359-547 | the two-pass preflight, reading the live tag and scanning option storage, accepts a patch if and only if the patch is acceptable over the decoded value, which `PatchExact.AcceptsExactly` characterises by its result |
| PatchLaws.CompleteIgnores | zero-schema-macros/src/emit_patch.rs:142-168 | a complete patch, one `PatchExact.CompleteExactly` shows to be a converted value, means the same over every previous value and over none |
| PatchLaws.CompleteAccepts | zero-schema-macros/src/emit_patch.rs:494-509 | whether a complete patch is accepted does not depend on the value it is applied to, nor on there being one |
| PatchLaws.AcceptedFits | zero-schema-macros/src/emit_patch.rs:458-479 | an accepted patch gives a value that fits: strings within bounds, every tag naming its payload's variant |
| PatchLaws.ApplyTwice | zero-schema-macros/src/emit_patch.rs:549-768 | an accepted patch is accepted again on its own result and then means nothing new |
| PatchLaws.FromValueMeans | zero-schema-macros/src/emit_patch.rs:123-141 | the patch converted from a logical value is complete, is accepted exactly when the value fits, and means that value over anything |
| PatchExact.CompleteExactly | zero-schema-macros/src/emit_patch.rs:142-168 | `is_complete` holds of a typed patch if and only if it is the patch converted from some logical value: every entry present at every depth, tag siblings included |
| PatchExact.CompleteMeans | zero-schema-macros/src/emit_patch.rs:494-509 | an accepted complete patch means exactly the value it was converted from, over anything |
| PatchExact.AcceptsExactly | zero-schema-macros/src/emit_patch.rs:359-547 | over a value that fits, or over nothing for a complete patch, a patch is accepted if and only if its result fits, at every depth each supplied tag stands with a chosen variant and is the tag of the result, and no incomplete patch stands over an absent option or another variant |
| PatchExact.TagOptional | zero-schema-macros/src/emit_patch.rs:458-462 | beside a chosen variant the tag entry may be left out: the meaning stays, and with the entry the patch is accepted exactly when it is without and the entry names that variant |
| PatchExact.ApplyOverlays | zero-schema-macros/src/emit_patch.rs:549-768 | the result of an accepted patch with its tag entries, converted, is the patch laid over the converted live value: supplied entries replace, absent ones stay, at every depth |
| PatchExact.LeastReaches | zero-schema-macros/src/emit_patch.rs:359-547 | from any value that fits to any other, the patch with an entry only where they differ, partial over live options and variants and with no tag entry, is accepted and means the other value |
| Frames.EncodeFrame | zero-schema-macros/src/emit_mutation.rs:1549-1685 | a write changes no byte that is inactive in the new value: padding, unused capacity, other variants' storage |
| Frames.PatchFrame | zero-schema-macros/src/emit_patch.rs:549-768 | a committed patch changes no byte outside the ranges it selects, at any depth |
| Frames.PatchFrameTag | zero-schema-macros/src/emit_patch.rs:735-762 | a tag whose payload is not switched keeps every byte |
| PatchPlaces.SuppliedReads | zero-schema-macros/src/emit_patch.rs:549-768 | a leaf or array the patch supplies at a path is what its result holds at that path, through records, options made present and variants chosen |
| PatchPlaces.KeptBytes | zero-schema-macros/src/emit_patch.rs:549-768 | a committed patch leaves every byte of every place on whose path it has an absent entry, at every depth |
| PatchPlaces.KeptUnselected | zero-schema-macros/src/emit_patch.rs:549-768 | no byte of such a place counts as selected |
| Actives.EncodeActive | zero-schema-macros/src/emit_mutation.rs:1549-1685 | an active byte of a value ends up the same whatever the destination held |
| Actives.ActiveExactly | src/mutation.rs:132-145 | a byte is active in a value if and only if writing the value determines it: the active ranges are neither too many nor too few |
| Actives.SelectedActive | zero-schema-macros/src/emit_patch.rs:549-768 | every byte a patch selects is active in the patched value |
| Buffers.Buffer.constructor | src/access.rs:243-267 | the wrapped contents, with an empty record of stores |
| Buffers.Buffer.Put | src/mutation.rs:50-61 | the buffer becomes the old one with the range replaced; every store lies in the range |
| Buffers.Buffer.Clear | src/access.rs:334-340 | the exact range is zeroed and nothing else |
| Buffers.StoreWide | src/strings.rs:153-158 | the unit loop stores the encoding of all units |
| Buffers.CommitLeaf | src/strings.rs:171-287 | a leaf commit in place writes exactly the active bytes of the value |
| Buffers.CommitText | src/strings.rs:177-216 | the result is the encoded string, tail and gap kept; in the trace every store to the units comes before every store to the prefix |
| Buffers.ReplayAside | src/tagged.rs:244-256 | stores outside a range leave the range as it was in every prefix of the trace |
| Stages.TagUntouched | zero-schema-macros/src/emit_patch.rs:745-748 | until its payload is committed a tag and the payload still read as before the commit, although earlier fields were written: the commit repeats preflight's decision |
| Stages.StageSwitch | zero-schema-macros/src/emit_patch.rs:752-760 | a switch finishes the payload and its tag and touches no other field |
| Stages.StageEnd | zero-schema-macros/src/emit_patch.rs:549-768 | after the last field the span is the complete target |
| Traces.OrderPublishes | src/tagged.rs:168-213 | payload stores followed by tag stores publish the payload first, in every prefix of the trace |
| Traces.PublishedExtend | zero-schema-macros/src/emit_patch.rs:568-767 | stores outside a span, earlier or later in the same commit, keep every union inside it published |
| Traces.StepPublished | zero-schema-macros/src/emit_patch.rs:568-767 | one more field of the commit leaves the unions of the earlier fields published and adds its own, because no step stores into another field or into another payload's tag |
| Traces.TagSeesPayload | src/tagged.rs:244-257 | in the middle of a commit, once any byte of a tag is stored the payload storage is already valid for the variant the final tag selects |
| Commits.CommitValue | zero-schema-macros/src/emit_mutation.rs:1549-1685 | the field-by-field commit of a logical source leaves exactly the specified span, over a live value or, when initialising, over any bytes; over its whole trace every union at every depth is published payload first |
| Commits.CommitValueKids | src/array.rs:621-638 | the index loop over a record's fields or an array's elements ends at the specified span |
| Commits.CommitValueKind | zero-schema-macros/src/emit_mutation.rs:295-440 | an option is zeroed for `None` and initialised in place for `Some` |
| Commits.ValueBeforeTag | src/tagged.rs:215-257 | payload then tag: in every prefix of the stores in which a tag byte was written the payload already holds its final bytes, which are valid; unions inside the payload are published likewise |
| Commits.TagWire | src/tagged.rs:276-286 | the tag and the payload of one union never overlap |
| Commits.PayloadStage | zero-schema-macros/src/emit_patch.rs:735-762 | one payload step takes the decision preflight took and ends with payload and tag done |
| Commits.CommitValuePayload | zero-schema-macros/src/emit_mutation.rs:1218-1380 | same variant updates in place, another variant switches payload before tag, and the trace publishes in that order |
| PatchCommits.CommitPatch | zero-schema-macros/src/emit_patch.rs:549-768 | `commit` and `commit_init` of a preflighted patch leave exactly the span of the patch applied to what was there; over the whole trace, for every union of the result at every depth, a stored tag byte means the payload is final |
| PatchCommits.CommitPatchKids | zero-schema-macros/src/emit_patch.rs:568-767 | the declaration-order loop over the fields reaches that span and keeps that order |
| PatchCommits.CommitPatchKind | zero-schema-macros/src/emit_patch.rs:655-712 | an option is cleared, updated while present or initialised while absent, as its live storage says |
| PatchCommits.CommitPatchPayload | zero-schema-macros/src/emit_patch.rs:735-762 | the same-variant or switch decision is taken again from the live tag, with the specified result, and the payload is published before the tag |
| PatchCommits.PatchBeforeTag | zero-schema-macros/src/emit_patch.rs:752-760 | a switch by patch publishes the complete, valid payload before any byte of the tag |
| PatchCommits.KeptTag | zero-schema-macros/src/emit_patch.rs:458-460 | a payload that is not patched keeps its tag's bytes |
| CopyLaws.CopyFromRefines | zero-schema-macros/src/emit_access.rs:274-283 | after an accepted `copy_from` the span is valid and decodes to the patch applied to the old value |
| CopyLaws.InitOverGarbage | zero-schema-macros/src/emit_patch.rs:464-501 | a complete patch that passes `preflight_init` passes over any other bytes too, and both become valid with the same value, the patch's own |
| CopyLaws.CompleteCommitsAlike | zero-schema-macros/src/emit_patch.rs:549-768 | over a live value `preflight` and `preflight_init` accept the same complete patches, and an accepted one writes the same bytes whether it updates or initialises |
| CopyLaws.CopyFromTwice | zero-schema-macros/src/emit_access.rs:274-283 | applying an accepted patch a second time is accepted and changes no byte |
| CopyLaws.CopyOwnValue | zero-schema-macros/src/emit_patch.rs:123-141 | patching a record with the patch of its own `copy_into` value is accepted and changes no byte |
| Runs.HereKeepsValid | src/mutation.rs:119-217 | every operation of a capability keeps its own span valid |
| Runs.KidKeepsValid | src/tagged.rs:111-166 | replacing one child's bytes by bytes valid under the same tag keeps the whole record valid and changes that child's value alone |
| Runs.ExecKeepsValid | zero-schema-macros/src/emit_access.rs:848-870 | every call at every depth, through options, elements and selected variants, keeps the whole root valid |
| Runs.ExecRefines | zero-schema-macros/src/emit_access.rs:848-870 | a call on bytes is the same call on the logical value |
| Runs.RunRefines | src/mutation.rs:274-383 | every run of calls keeps the root valid, and what it then holds is the run on logical values: no byte outside the value ever matters |
| Runs.PresenceKept | src/mutation.rs:334-355 | no mutation reached through an option changes whether it is present, whatever the local padding holds |
| Runs.SetThenGet | src/mutation.rs:357-382 | `set` then `get`: `None` reads absent, every value that fits reads back present and unchanged, over any storage |
| Runs.ZeroText | src/mutation.rs:205-216 | zeroed string storage is the empty string, for all four forms |
| Runs.StrayPadding | src/access.rs:141-149 | presence is decided by the complete storage with its local padding: all zero is absent, zeroed value bytes beside a stray padding byte are rejected |
| Places.FoundInBytes | zero-schema-macros/src/emit_access.rs:1295-1354 | every nested place of a decoded root is proved and read from its own bytes, at the sum of the offsets on its path |
| Places.CallInto | zero-schema-macros/src/emit_access.rs:848-870 | a call along a path is the call on what the first part of the path leads to, along the rest |
| Places.CallAside | zero-schema-macros/src/emit_access.rs:848-870 | a call changes no place that neither contains nor lies in its own, through options and variants |
| Places.CallNowhere | src/mutation.rs:339-342 | a call whose path leads nowhere (an absent option, another variant, a tag, out of bounds) changes nothing, `OptionMut::set` excepted |
| Places.CallReads | src/mutation.rs:119-217 | after a setter or `clear()` at any depth, the bytes of the place read what the operation makes of it and the bytes of every place apart read as before |
| Places.PublishedEverywhere | src/tagged.rs:244-257 | a published commit means: in every record at every path, at its byte offset, no tag byte was stored before its payload was final |
| Handles.LeafMut.Get | src/mutation.rs:111-118 | the value read is one `set` accepts, and setting it again would change no byte |
| Handles.LeafMut.Set | src/mutation.rs:196-203 | accepted exactly when the value fits; then the field reads back as that value and only its active bytes were written; a rejected source stores nothing |
| Handles.LeafMut.Clear | src/mutation.rs:214-216 | the whole string storage is zeroed and reads back empty |
| Handles.SchemaMut.CopyInto | zero-schema-macros/src/emit_access.rs:340-342 | the value read has a representation, and `copy_from` of the patch made from it would change no byte |
| Handles.SchemaMut.CopyFrom | zero-schema-macros/src/emit_access.rs:274-283 | accepted exactly when the patch is acceptable over the decoded value; then the span decodes to the patch applied to the old value and every union in it was published payload first; otherwise no byte is stored |
| Handles.SchemaMut.FieldMut | zero-schema-macros/src/emit_mutation.rs:110-293 | the mutator of a field is a live capability of its category, over the field's own storage, a payload under the tag read now |
| Handles.SchemaMut.Clear | zero-schema-macros/src/emit_mutation.rs:40-66 | the whole record is zeroed and stays proved |
| Handles.OptionMut.Get | src/mutation.rs:313-332 | the live observation is one `set` accepts, and setting it again would change no byte |
| Handles.OptionMut.GetMut | src/mutation.rs:334-355 | a proved child capability exactly when the storage is not all zero |
| Handles.OptionMut.Set | src/mutation.rs:357-382 | accepted exactly when the value fits, and then reads back as that value, its unions published payload first; a rejected source stores nothing |
| Handles.ArrayMut.Get | src/array.rs:274-288 | the element, or none out of bounds |
| Handles.ArrayMut.GetMut | src/array.rs:290-306 | a proved capability of the element at its place in the buffer, exactly when the index is in bounds |
| Handles.ArrayMut.Set | src/array.rs:328-349 | accepted exactly when the index is in bounds and the value fits; then that element reads back as the value and the others as before, and only its active bytes changed |
| Handles.ArrayMut.CopyFrom | src/array.rs:351-384 | accepted exactly when the length is right and every value fits, and then the array reads back as the values; every element is preflighted before the first store, so a late bad element leaves every byte of every row |
| Handles.TaggedMut.VariantMut | zero-schema-macros/src/emit_access.rs:848-870 | a proved capability of a variant exactly when the tag selects it |
| Handles.TaggedMut.CopyFrom | zero-schema-macros/src/emit_access.rs:964-971 | a patch of another variant is rejected without a store; the selected one is patched in place, reads as the patch applied, and the tag cannot change |
| Execution.AssignIsUpdate | zero-schema-macros/src/emit_patch.rs:123-141 | assigning a record's logical value is `copy_from` of the converted patch |
| Execution.PutIsAssign | zero-schema-macros/src/emit_access.rs:609-618 | the patch entry of a leaf or an array does what its setter does |
| Execution.Execute | zero-schema-macros/src/emit_access.rs:848-870 | a call that navigates from capability to capability (field mutators, `get_mut`, elements, selected variants) and then operates on the last changes the buffer exactly as its specification says |
| Execution.ExecuteElement | src/array.rs:290-349 | a call through an array, by `set` or through the element's capability, is the call on that element |
| Execution.ExecutePayload | zero-schema-macros/src/emit_access.rs:848-870 | a call into a payload reaches the selected variant through its capability, or patches it |
| Execution.ExecuteAll | src/mutation.rs:119-383 | any run of such calls, each from a new root capability over one live buffer, keeps the root proved and ends with the run on logical values |
| Alignments.AlignUpMultiple | src/wire.rs:484-504 | rounding up ends on a multiple and moves nothing that is one |
| Alignments.AlignUpLeast | src/wire.rs:484-504 | no multiple lies between a number and its rounding |
| Alignments.MultipleMod | src/access.rs:484-492 | multiples are what the remainder test of `check_alignment` accepts |
| Layout.PlaceAligned | zero-schema-macros/src/emit_wire.rs:137-142 | every field and nested value of a placed declaration lies at a multiple of its alignment, and every size is a multiple of it, with `AlignedWire` wrappers and unions |
| Layout.PlacedLeast | zero-schema-macros/src/emit_wire.rs:1249-1281 | the first field starts the record, each other field lies at the first multiple of its alignment after the field before, and the record ends at the first multiple of its own |
| Layout.PlacedOrder | zero-schema-macros/src/emit_wire.rs:1175-1192 | field storages follow one another without overlapping |
| Layout.PlaceWf | zero-schema-macros/src/emit_wire.rs:1249-1281 | placement makes every declaration well formed: storages ordered, disjoint and in bounds, with room for every variant, and tags still linked |
| Layout.PlaceMayBeZero | zero-schema-macros/src/emit_access.rs:2126-2154 | placement changes no answer about the all-zero span |
| Layout.PlacePositive | zero-schema-macros/src/analyze.rs:384-389 | no placed declaration is empty |
| Layout.ArmsLayout | zero-schema-macros/src/emit_wire.rs:276-310 | a union is at least as large and as aligned as each of its variants |
| LayoutExact.AlignmentExactly | zero-schema-macros/src/emit_wire.rs:137-142 | the alignment of a placed declaration is the largest one any of its wires has or any of its fields or records declares, at any depth, and 1 when there is none |
| LayoutExact.RecordAlignment | zero-schema-macros/src/emit_wire.rs:137-142 | a record has the largest alignment among its declared one, those of its field storages and 1, and one of them is attained |
| LayoutExact.UnionAlignment | zero-schema-macros/src/emit_wire.rs:276-310 | a union has the largest alignment among its variants and 1, and it is attained |
| LayoutExact.UnionSize | zero-schema-macros/src/emit_wire.rs:276-310 | a union ends at the first multiple of its alignment that leaves room for one byte and for every variant |
| LayoutExact.StorageLeast | src/wire.rs:484-504 | a field storage is its value padded to the first multiple of the storage's alignment |
| Padding.PaddingRanges | zero-schema-macros/src/emit_wire.rs:1213-1247 | the emitted ranges are ordered and disjoint, a byte lies in one exactly when it lies in no field's value, and the lengths of ranges and values add up to the size |
| Access.EnterSucceeds | src/access.rs:163-172 | one checked selection from an exact, aligned view is in bounds, free of overflow, exact and aligned |
| Access.WalkSucceeds | src/access.rs:163-172 | every chain of selections along a placed schema succeeds, through every element, option and variant, and down to the prefix and the units of a string |
| Access.WalkIsDirect | zero-schema-macros/src/emit_access.rs:2335-2355 | a chain of selections equals the single selection at the sum of the offsets, which is how generated code takes a field's value |
| Access.StringSelections | zero-schema-macros/src/emit_access.rs:1399-1474 | from a record, the length prefix and the units of a string field are selected directly, in bounds and aligned, so the length is read and the `u16` view exists |
| Access.RootSelections | src/access.rs:124-139 | for any declaration as the compiler places it, once the root passed the exact size and alignment check, every chain of selections succeeds and so does the one direct selection it amounts to |
| Access.FreshAccess | zero-schema-macros/src/emit_access.rs:363-385 | after any run of calls a fresh access of the same root succeeds and reads the run on what the first access read |
| Access.SelectionExactly | src/access.rs:163-172 | a selection succeeds if and only if its end does not overflow, lies in the slice and its start is aligned; it is the range asked for, and the three failures are reported in that order |
| Access.AccessExactly | zero-schema-macros/src/emit_access.rs:363-385 | access succeeds if and only if the length is exact, the address is a multiple of the alignment and the proof accepts; then the value read is the one the bytes hold; the layout errors come first |
| NestedArrays.Unflatten | zero-schema-macros/src/emit_access.rs:2688-2744 | the div/mod steps recover the one index tuple whose row-major position was given, in range when the position is |
| NestedArrays.FlatUnique | zero-schema-macros/src/emit_access.rs:2688-2721 | two index tuples with the same position are equal |
| NestedArrays.FlatMonotone | zero-schema-macros/src/emit_access.rs:2685-2721 | row-major positions are ordered as their index tuples are |
| NestedArrays.ChainIsFlat | src/array.rs:547-556 | the saturating steps of a chain of row handles never saturate while the leaves can be counted, and end at the row-major position |
| NestedArrays.NestedSize | src/array.rs:569-569 | a nested array is its leaves one after the other: size is the product of the dimensions times the leaf size |
| NestedArrays.OffsetIsFlat | src/array.rs:527-536 | selecting row after row reaches byte position times leaf stride |
| NestedArrays.RowElement | src/array.rs:571-584 | leaf `q` of row `j` is leaf `j` times the row's leaf count plus `q` of the whole, byte for byte |
| NestedArrays.ProveNested | src/array.rs:571-584 | leaves are visited at consecutive increasing positions; the proof succeeds exactly when every leaf is valid and otherwise reports the least invalid position |
| NestedArrays.ProveArray | zero-schema-macros/src/emit_access.rs:2685-2721 | the index path of a failed proof is the lexicographically first index tuple whose leaf, reached row by row, is invalid |
| NestedArrays.LeavesCounted | src/array.rs:597-603 | the leaves of a placed array are no more than its bytes |
| NestedArrays.ExactPositions | src/array.rs:386-392 | for a placed array that fits memory the handle chain gives the exact row-major position, and its leaf starts at the offset reached row by row |
| TagLinks.LinkExternalTags | zero-schema-macros/src/analyze.rs:1169-1223 | accepts exactly the declarations in which every payload names another, untagged path field and no two name the same one; then each is linked to the field it names |
| TagLinks.LinkedIsTagLinked | zero-schema-macros/src/analyze.rs:1202-1220 | the linked tag exists, is another ordinary field and is claimed once; the schema's tag condition then holds exactly when the tag is a scalar enum with the discriminants the variants name, all different |
| Lifetimes.Rewriter.Visit | zero-schema-macros/src/analyze.rs:1680-1727 | the in-place visit restores its scope stack and equals substitution on free lifetimes |
| Lifetimes.Rewriter.VisitLifetime | zero-schema-macros/src/analyze.rs:1786-1794 | a lifetime is rewritten exactly when no enclosing binder binds it |
| Lifetimes.SubstOccurrences | zero-schema-macros/src/analyze.rs:1729-1795 | every free occurrence moves to its target and stays free, every bound one is untouched, if and only if nothing is captured |
| Lifetimes.EraseAfterRebind | zero-schema-macros/src/analyze.rs:1492-1511 | erasing after rebinding equals erasing, if and only if the rebinding captures nothing |
| Lifetimes.FreshRebind | zero-schema-macros/src/analyze.rs:1533-1567 | for every name that is not written in the type, each free source lifetime becomes that name and stays free, every other occurrence is untouched, and erasing afterwards is erasing directly |
| Lifetimes.ErasedFree | zero-schema-macros/src/analyze.rs:1680-1727 | after erasure no lifetime is free but `'static` |
| Lifetimes.RebindDeclaration | zero-schema-macros/src/analyze.rs:1533-1567 | choosing the fresh name over all names of a declaration and rebinding its types: free sources take the name and stay free, none is left, nothing else moves, erasure is unaffected |
| Lifetimes.FixedNameCaptured | zero-schema-macros/src/emit_access.rs:1295-1316 | a fixed target name is captured by a binder of that name: the concrete type |
| Lifetimes.FreshLifetime | zero-schema-macros/src/analyze.rs:1555-1566 | the loop ends with the first candidate that is not in use |
| Lifetimes.CandidateInjective | zero-schema-macros/src/analyze.rs:1557-1561 | different suffixes give different names |
| Lifetimes.UseFinder.Visit | zero-schema-macros/src/emit_wire.rs:884-931 | the flag is raised exactly when a free source lifetime occurs; the scope stack is restored |
| Lifetimes.MentionsOccurrence | zero-schema-macros/src/emit_wire.rs:922-930 | a type depends on a source lifetime exactly when one of its free occurrences is one |
| Lifetimes.DependsOn | zero-schema-macros/src/emit_wire.rs:933-968 | a part of a predicate is tested under the predicate's own binder |
| Lifetimes.ErasedWherePredicates | zero-schema-macros/src/emit_wire.rs:821-852 | the kept predicates are what is left of each declared one, in order and as often as declared, and none mentions a free source lifetime |
| Lifetimes.ErasedKeeps | zero-schema-macros/src/emit_wire.rs:821-852 | predicates that mention no source lifetime all survive unchanged |
| Lifetimes.ErasedFacts | zero-schema-macros/src/emit_wire.rs:821-852 | bound by bound: the bounds that survive erasure are exactly those where neither the bounded type nor the bound names a free source lifetime, under the same binder, in order |

## Left out

- Token streams, hygiene, visibility and trait-bound plumbing of the emitters: the model is of what the generated code does.
- Capability tokens, brands and borrow lifetimes: rustc enforces them; a handle here shares its buffer and its liveness is a precondition.
- Precise error kinds and paths: nested patch failures are deliberately coarse, and only acceptance is modelled. Flat positions and index paths of array errors are modelled.
- `src/layout.rs` descriptors apart from the padding ranges: they are accessors without behaviour.
- `SchemaBuffer` is zeroed storage of a given alignment; `from_prefix` is the exact access of a leading slice; the array iterators repeat `get` with a counter.
- Attribute parsing, crate-path resolution, path rebasing and stable suffixes.
- Validity of a record between the payload stores and the tag store of a switch: the code does not promise it.
- Syntax trees are values: a visitor that rewrites in place returns the rewritten tree. Binders of a predicate and of a type are one node kind, and only lifetime parameters are listed in a binder.
- NestedArrays.ProveNested: starts from a row whose leaves can be counted in `usize`, which LeavesCounted shows for every placed array; the saturated positions of other rows are not described.
- NestedArrays.ProveArray: the same, for a whole array.
- Runs.ExecRefines: a call is stated for a superset of the setters, since `Assign` at any node stands for scalar, string, byte, element and whole-array setters and for `copy_from` of a converted logical value.
- Access.RootSelections: addresses are numbers and adding an offset to an address does not overflow, as the language guarantees for a slice.
