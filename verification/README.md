# Hurray tensor format: verified models

Dafny models of the parts of Hurray that decide whether a tensor means what its bytes say:

- **Composites.** A head tensor and members that tile it, layer over it, or are grouped under it.
  `Shapes`, `Boxes`, `Coverage` and `Tiling` hold the counting and the partition check, `Descriptors`,
  `Validator` and `Composites` the stateful validator and what whole runs of it decide, `Rejections`
  with which error it refuses what.
- **Trees at the C boundary.** `Trees` defines a composite tree, its preorder array and the
  independent definition of "this array spells one tree". `Flatten` prints, `Rebuild` checks,
  `Builder` builds, and both directions are shown to undo each other.
- **Trees in streams.** `Assembler` is the stack machine that puts composites back together from
  flat tensors; `Assembly` proves exactly which streams it accepts and what it gives back,
  `Refusals` where and why it gives up on the others.
  `Writer` is the other half: it checks an item and offers its bytes to a sink, with a stack of
  frames; `Writing` puts the two together.
- **Elements.** `Packing` and `Decoding` read packed codes and micro-floats, `Scalars` says what each
  element shows, `Display` nests them, `RowMajor` addresses them.
- **Descriptors.** `Encoding` writes a descriptor, `Offsets` says where each value is, `Reader` cuts a
  descriptor into displayed rows, and `Inspection` shows that these rows are what was written.
- **The Hilbert layout.** `Hilbert` has the normative mapping and its inverse, `HilbertCurve` an
  independent recursive definition of the curve, `HilbertLocality` the neighbour argument and
  `HilbertLayout` the offsets of a tensor and the loops that compute them.
- **Handles.** `Handles` is the ownership state machine of C buffers and buffer lists.

Code that updates state is modelled by classes and methods with loops, proved against a
specification function; what that function is worth is then proved by lemmas over every input,
run or stream. 64-bit and 32-bit words, checked and saturating arithmetic and truncating casts
are written out where they matter. Release callbacks are entries in a log. `Descriptors` reduces a
descriptor to the fields the validator looks at, `Encoding` has all of it.

## Where the code and its documentation part ways

- `Shape::element_count` documents the count of a shape with an empty dimension as zero. The
  loop gives up on an overflow before it reaches that dimension. `Shapes.EmptyShapeWithoutCount`
  names a shape, `Shapes.ZeroDimensionCount` the exact condition.
- The partition check skips the gap test when the volume of the head does not fit in 64 bits, and
  its comment calls that unreachable. It is reachable: `Tiling.UncountedHeadAcceptsGap` names
  a head, `Tiling.SoundHeads` says for which heads acceptance always means exact cover.
- The validator documents an error whenever the number of members differs from the declared one,
  but compares only its low 32 bits. `Composites.TruncatedCountAccepted` names a group that declares
  no members and is accepted with `2^32`; `Composites.CountTrustedBelow` says that the count can be
  trusted exactly below `2^32` members.
- The format wants the decoded type of every partition and overlay member to be the head's; the
  validator leaves quantized members out, as its own documentation says
  (`Composites.QuantizedTypeUnchecked`). It does not look at the reserved member count
  (`Composites.ReservedCountAccepted`) nor at a head that carries a member role, both forbidden by
  the format. `Composites.ValidExactly` puts all of this together: it says, for every input, by what
  exactly acceptance falls short of validity.
- The writer promises that a torn item never reaches a sink, because an item is validated before
  its first byte. Descriptors inside a composite are encoded only when their turn comes, and
  encoding can fail. `Writing.NestedOverlayIsCut` names an overlay that passes all checks and is cut
  short, `Writer.WriteItem` says that exactly the items with a tensor that does not encode are, and
  where, and `Writing.WholeExactly` which items those are: a composite inside an overlay suffices.
- The writer takes items that its own reader does not give back: a head passed as a plain tensor
  (`Writing.DisguisedHeadIsTorn`), heads without members, nesting beyond the reader's limit.
  `Writing.RoundTrip` is the exact condition.
- A Hilbert layout is meant for a shape of its own rank with sides of `2^order`, but addressing
  checks neither. `HilbertLayout.OffsetsDistinctIff` says that elements share an offset exactly when
  a side within the rank is longer or a further one is not one; `HilbertLayout.ExtraDimensionShares`
  names such a shape. With a rank above the shape's the loops run past the end of the index, which
  `HilbertLayout.ElementOffset` therefore excludes.
- A head that declares no members is valid in the format, and the validator accepts an empty
  group, but the stream assembler never closes one. `Assembly.EmptyGroupIsTorn` gives the run,
  `Assembly.ReadBackIffNoEmptyHead` the exact condition.
- The inspector shows the quantization section as the scheme's parameters and goes on after them. The
  section has a length of its own, which nothing compares with the scheme's. `Inspection.ShowEncoded`
  says that the rows are the written fields if and only if the two lengths agree.
- The descriptor's own chapter of the format (docs/spec/metadata.md:249-254) reserves the last three
  bytes of a buffer entry. The encoder writes the synchronisation mode and the memory class there
  (`Offsets.HandleTable`), as docs/spec/buffer-protocol.md has it; the inspector shows the mode and takes
  the memory class for reserved (`Inspection.ShownHandle`).
- A member count is cast to 32 bits when a tree is flattened. `Builder.BuildOfFlattened` says
  that exactly the trees whose counts survive the cast come back.

The Hilbert specification says without argument that consecutive indices are neighbouring
elements, and the source's tests look at one 4 by 4 curve. It is true for every rank and order:
see `HilbertLayout.ConsecutiveAreAdjacent`.

The format defines overlap by an interval formula, by which an empty box strictly inside another one
overlaps it although it holds no index. A partition can therefore cover every index exactly once and
still be invalid: `Tiling.EmptyBoxInsideRejected` names one, `Tiling.NonOverlapDecides` and
`Tiling.OverlapDecides` say which pairs are concerned.

## Model

| member | source | states |
|---|---|---|
| Shapes.ElementCount | hurray-core/src/shape.rs:186-195 | a count is returned exactly when nothing is dynamic and every prefix product fits in a word; it is then the product |
| Shapes.ZeroDimensionCount | hurray-core/src/shape.rs:163-195 | for a static shape with an empty dimension, the count is zero exactly when nothing overflows before the first empty dimension |
| Shapes.EmptyShapeWithoutCount | hurray-core/src/shape.rs:180-195 | a shape with an empty dimension that has no count |
| Shapes.CountFitsMonotone | hurray-core/src/composite.rs:495-501 | a box inside a countable head is itself countable |
| Boxes.CellCount | hurray-core/src/composite.rs:495-501 | the volume of a box is the number of indices it contains |
| Coverage.FindOverlap | hurray-core/src/composite.rs:471-480 | the pair loop reports the lexicographically first overlapping pair, or that there is none |
| Coverage.CoveredVolume | hurray-core/src/composite.rs:493-507 | the checked accumulation is present exactly when every volume and every partial sum fits, and is then their sum |
| Tiling.OverlapDecides | hurray-core/src/composite.rs:526-536 | for in-bounds boxes the saturating interval test says "they share an index, or one is empty and in every dimension they share a coordinate or one has no extent and sits strictly inside the other" |
| Tiling.NonOverlapDecides | docs/spec/layouts/composite.md:200-211 | for in-bounds boxes the format's non-overlap constraint is what the saturating pair test decides, and is sharing no index together with no empty box across another |
| Tiling.ExactCoverByVolume | docs/spec/layouts/composite.md:186-200 | in-bounds boxes cover every index exactly once if and only if they share none and their volumes add up to the head's |
| Tiling.GapCheckDecided | hurray-core/src/composite.rs:482-513 | with a countable head and no overlap, every member volume and partial sum fits and stays within the total |
| Tiling.AcceptedIffExactCover | hurray-core/src/composite.rs:471-516 | with a countable head the fast check accepts exactly the in-bounds lists that cover every index once and in which no empty box crosses another |
| Tiling.NonEmptyBoxesDecided | hurray-core/src/composite.rs:471-536 | for non-empty boxes acceptance is exact cover, a gap is reported exactly for disjoint boxes that miss an index, and a reported overlap is the first pair that shares one |
| Tiling.SoundHeads | hurray-core/src/composite.rs:482-493 | acceptance means exact cover for precisely the heads that are countable or have no index |
| Tiling.UncountedHeadAcceptsGap | hurray-core/src/composite.rs:482-493 | an uncountable head accepted with no members at all |
| Tiling.EmptyBoxInsideRejected | hurray-core/src/composite.rs:526-536 | an exact cover that is refused because of an empty box |
| Tiling.Locate | docs/spec/layouts/composite.md:188-191 | in an exact cover every head index has a member and a local index inside it that translate back to it |
| Tiling.LocateIsBijection | docs/spec/layouts/composite.md:188-198 | the lookup and the translation undo each other on every member and local index |
| Validator.OutOfBounds | hurray-core/src/descriptor/shard.rs:102-118 | the first dimension where offset plus size, saturating, exceeds the parent, or none |
| Validator.CompositeValidator.constructor | hurray-core/src/composite.rs:260-287 | the initial state for a head that may be validated |
| Validator.CompositeValidator.PushMember | hurray-core/src/composite.rs:301-327 | a push either takes the state machine's step or changes nothing and returns its error |
| Validator.CompositeValidator.Finish | hurray-core/src/composite.rs:343-364 | the closing verdict is the state machine's, which `Rejections.CloseError` characterises error by error |
| Validator.CloseState | hurray-core/src/composite.rs:343-364 | count check, then coverage or non-empty overlay, computed by the fast loops |
| Composites.OnlyAcceptedCount | hurray-core/src/composite.rs:301-327 | pushing on after failures leaves the state, and the closing verdict, of the accepted members alone |
| Composites.RunInvariant | hurray-core/src/composite.rs:301-327 | after any sequence of pushes the accepted members fit, the boxes are theirs, as many as were seen under partition and none otherwise, and all in bounds |
| Composites.ShardBoxAccepts | hurray-core/src/composite.rs:371-388 | on a static head check 1 is "declares this parent and lies inside it", with no wrap-around |
| Composites.AdmitDecides | hurray-core/src/composite.rs:301-327 | one push succeeds exactly when the member fits the rule at its position |
| Composites.RunDecides | hurray-core/src/composite.rs:301-327 | a whole run of pushes succeeds exactly when every member fits, and its state is a function of head and members |
| Composites.ValidateDecides | hurray-core/src/composite.rs:233-364 | for every head and members, acceptance is: all members fit, the count agrees in 32 bits, and a partition shares no index, has no crossing empty box and, if its volume is counted, covers every index once |
| Composites.ValidExactly | docs/spec/layouts/composite.md:186-211 | for every head and members, validity as the format defines it (proper heads, definite count, decoded types, exact cover and non-overlap) is acceptance together with what the validator leaves out: the upper bits of the count, the reserved count, what heads carry, the decoded type of quantized members, and unbounded volumes that add up; so every valid composite is accepted |
| Composites.ValidateMeansValid | docs/spec/layouts/composite.md:251-286 | with a head that is countable or has no index, and with what the validator does not look at in order, acceptance is validity |
| Composites.QuantizedTypeUnchecked | hurray-core/src/composite.rs:390-408 | an accepted overlay whose quantized base decodes to another type than the head's |
| Composites.ReservedCountAccepted | docs/spec/layouts/composite.md:93-96 | a group accepted with the reserved count of members |
| Composites.TruncatedCountAccepted | hurray-core/src/composite.rs:343-349 | a group that declares no members, accepted with 2^32 of them |
| Composites.CountTrustedBelow | hurray-core/src/composite.rs:334-349 | acceptance implies the declared count for all composites of n members exactly when n is below 2^32 |
| Composites.PartitionTilesHead | docs/spec/layouts/composite.md:186-198 | an accepted partition of a countable head has every head index in exactly one member |
| Composites.TilingAccepted | hurray-core/src/composite.rs:471-516 | every tiling by non-empty fitting members is accepted |
| Composites.OverlayHasBase | hurray-core/src/composite.rs:411-444 | an accepted overlay starts with a base at the origin with the head's shape, which covers every index; all other members are corrections inside the head |
| Composites.NewAtDepth | hurray-core/src/composite.rs:123-147 | construction succeeds exactly when the depth budget holds for the head and its visible nested heads and the composite passes validation; otherwise it answers what the validator does, unless the budget is exceeded by the head or by a nested head before which all members fit |
| Rejections.AdmitError | hurray-core/src/composite.rs:301-455 | one push is refused with an error exactly when the error says what is wrong with the member: its shard, the first dimension in which it leaves the head, its type or its role, in this order |
| Rejections.UnfitError | hurray-core/src/composite.rs:301-327 | a composite with a member that does not fit is refused with what is wrong with the first such member |
| Rejections.OverlapReported | hurray-core/src/composite.rs:471-480 | an overlap is reported exactly for the lexicographically first pair that overlaps by the format's formula |
| Rejections.GapReported | hurray-core/src/composite.rs:482-513 | a gap is reported exactly if no pair overlaps, the head's volume is counted and an index of it is in no member |
| Rejections.CloseError | hurray-core/src/composite.rs:343-364 | with fitting members, a composite is refused with an error exactly when it says what is wrong with them together: count mismatch, empty overlay, first overlapping pair, uncovered index |
| Rejections.ErrorExplained | hurray-core/src/composite.rs:233-364 | for every head, list of members and error, the validator answers with the error if and only if it is explained by the head, by the first member that does not fit, or by all members together |
| Trees.ParsePrinted | hurray-ffi/src/composite.rs:95-135 | reading a printed tree in front of any forest gives the tree and the forest back |
| Trees.PrintParsed | hurray-ffi/src/composite.rs:95-135 | printing what an array spells gives the array, up to fields that tensor nodes ignore |
| Trees.PreorderInjective | hurray-ffi/src/item.rs:303-338 | different trees have different arrays |
| Trees.OneTreeIffForest | hurray-ffi/src/composite.rs:105-135 | the running count accepts the same arrays as the recursive parse into a single tree |
| Trees.AcceptedIffOneTree | hurray-ffi/src/composite.rs:97-104 | the running count accepts an array exactly when it is the preorder of a tree, and then of one only |
| Trees.PrintedOwed | hurray-ffi/src/item.rs:322-331 | a printed tree owes nothing at its end exactly when no member count was truncated, and otherwise less than nothing |
| Flatten.ItemNodes | hurray-ffi/src/item.rs:303-338 | the explicit-stack walk yields the recursive preorder, and ends because the trees on the stack shrink in total |
| Rebuild.RootsAreOwed | hurray-ffi/src/composite.rs:105-135 | in an accepted array the unclaimed nodes of every suffix are as many as are owed before it |
| Rebuild.MembersComplete | hurray-ffi/src/composite.rs:97-104 | in an accepted array every head gets all the members it declares |
| Rebuild.LowerTop | hurray-ffi/src/composite.rs:120-124 | taking one member off a positive count and closing full heads; the subtraction cannot underflow |
| Rebuild.MembersOf | hurray-ffi/src/composite.rs:105-135 | accepts exactly the arrays of one tree, and resolves every node's member list as the recursive definition does |
| Builder.TakeMembers | hurray-ffi/src/composite.rs:357-368 | built members are moved out of their slots in order, and only those slots change |
| Builder.RootCheck | hurray-ffi/src/composite.rs:346-355 | not-a-composite exactly for an empty array or a tensor root; otherwise the structural check |
| Builder.TreeOf | hurray-ffi/src/composite.rs:247-345 | every outcome: the tree the array spells, the structural error, or the status of the last unreadable node; never an internal error |
| Builder.ConversionUnique | hurray-ffi/src/composite.rs:247-280 | the promised outcome is determined by the array |
| Builder.BuildOfFlattened | hurray-ffi/src/item.rs:303-338 | building a flattened tree gives it back exactly when its root is a head and its counts fit in 32 bits |
| Builder.FlattenOfBuilt | hurray-ffi/src/composite.rs:247-280 | flattening a built tree gives the accepted array back, normalised, which builds the same tree again |
| Builder.ClaimsDisjoint | hurray-ffi/src/composite.rs:112-124 | no two heads claim the same node |
| Builder.OneParent | hurray-ffi/src/composite.rs:112-124 | in an accepted array every node but the root is in exactly one member list, of a head before it |
| Assembler.CompositeAssembler.Push | hurray-io/src/stream/sans_io/composite.rs:117-142 | a head opens a level or is refused at the limit; a tensor is delivered |
| Assembler.CompositeAssembler.DeliverItem | hurray-io/src/stream/sans_io/composite.rs:179-207 | the closing loop computes the recursive delivery |
| Assembler.CompositeAssembler.Finish | hurray-io/src/stream/sans_io/composite.rs:156-164 | end of input is clean exactly when nothing is open, and otherwise names the innermost head's counts |
| Assembly.FeedItem | hurray-io/src/stream/sans_io/composite.rs:117-207 | feeding the wire order of a valid item with no empty head delivers that item at any level |
| Assembly.DeliverSound | hurray-io/src/stream/sans_io/composite.rs:179-207 | a delivery keeps the stack invariant and conserves the tensors: what is open or given out is what came in |
| Assembly.FeedSound | hurray-io/src/stream/sans_io/composite.rs:117-207 | over any stream, the items given out and the open heads hold exactly the tensors fed, in order, and every item is valid |
| Assembly.AssemblerDecides | hurray-io/src/stream/sans_io/composite.rs:26-36 | a stream comes back as these items with nothing left open if and only if it is their wire order and they are valid with no empty head |
| Assembly.ReadBackIffNoEmptyHead | docs/spec/layouts/composite.md:98-102 | a valid item written out is read back exactly when no head in it is empty |
| Assembly.EmptyGroupIsTorn | hurray-io/src/stream/sans_io/composite.rs:190-196 | an empty group is a valid item whose stream is left open |
| Assembly.AssembledItemsAreTiled | hurray-io/src/stream/sans_io/composite.rs:35-36 | whatever a stream holds, in every item given out each countable partition head, at any depth, is tiled exactly by its members |
| Refusals.DeliverRefuses | hurray-io/src/stream/sans_io/composite.rs:179-207 | a failing delivery drops the open heads from one on; all that was held above that head makes up its next member, and the error is the validator's answer to its members with that one |
| Refusals.StreamRefused | hurray-io/src/stream/sans_io/composite.rs:117-207 | a stream that fails does so at one tensor, everything before which is given out or held, in order; the error is the nesting limit, a head that cannot be validated, or a member that an open head cannot take |
| Writer.ValidateTensor | hurray-io/src/stream/sans_io/write.rs:249-275 | passes exactly the payloads that match the buffer table in number, length and synchronisation; otherwise names the first thing that is wrong |
| Writer.ValidateComposite | hurray-io/src/stream/sans_io/write.rs:277-301 | passes exactly the composites whose every head is accepted against its members and whose every tensor's payloads match; otherwise reports the validator's error of the head, or the fault of its first member that is not writable |
| Writer.OneFault | hurray-io/src/stream/sans_io/write.rs:249-301 | only one error says what is wrong with an item, at whatever depth that is |
| Writer.FrameAdvance | hurray-io/src/stream/sans_io/write.rs:577-590 | taking a node off the frames takes exactly its own tensor off what is left to write, at any depth |
| Writer.NextNode | hurray-io/src/stream/sans_io/write.rs:577-620 | the next tensor of the item in wire order is staged, or the item is through, or the operation ends at a tensor that does not encode with all before it sent |
| Writer.BeginPayload | hurray-io/src/stream/sans_io/write.rs:566-574 | the next slice of the current tensor, or the next tensor; the frames or the slices left shrink |
| Writer.StreamWriterCore.Submit | hurray-io/src/stream/sans_io/write.rs:141-230 | an item is taken exactly if the core is not retired, the item is writable and its first descriptor encodes; otherwise the refusal names the first of these that fails; the sink is untouched |
| Writer.WriteOp.Step | hurray-io/src/stream/sans_io/write.rs:360-394 | what is offered is never empty; the item is said to be written only when all its bytes are sent, and otherwise the operation ends at a tensor that does not encode |
| Writer.WriteOp.ReportWritten | hurray-io/src/stream/sans_io/write.rs:430-467 | exactly between one and all offered bytes are accepted and count as sent; every refusal says why, and a larger report retires the core |
| Writer.WriteOp.CoreSound | hurray-io/src/stream/sans_io/write.rs:238-246 | whenever an operation is dropped, the sink starts with the written items, whole and in order, and holds nothing else unless the core is retired |
| Writer.WriteOp.ReportSinkClosed | hurray-io/src/stream/sans_io/write.rs:509-515 | retires the core as incomplete |
| Writer.WriteOp.MarkUnusable | hurray-io/src/stream/sans_io/write.rs:549-552 | retires the core for a lost count |
| Writer.WriteItem | hurray-io/src/stream/sans_io/write.rs:27-33 | for every sink, in whatever portions it accepts, the writing ends and the sink has received exactly the item's bytes; it is cut short exactly if a tensor does not encode, right before the first such tensor; a refusal names the retired core, the item's fault or the encoding |
| Writing.RoundTrip | docs/spec/layouts/composite.md:98-102 | the tensors of written items are assembled to these items if and only if no head is given as a tensor, none is empty or has 2^32 members, and the nesting stays within the reader's limit |
| Writing.DisguisedHeadIsTorn | hurray-io/src/stream/sans_io/write.rs:277-301 | a composite head given as a tensor is written and leaves the reader waiting |
| Writing.NestedOverlayIsCut | hurray-core/src/descriptor/encode.rs:98-108 | an overlay with a composite as correction passes all checks and is cut before its third tensor |
| Writing.WholeExactly | hurray-core/src/descriptor/encode.rs:98-108 | with an encoder that refuses heads with a role, a writable item encodes to its last tensor if and only if no overlay at any level has a composite among its members and every descriptor otherwise fits |
| Packing.Pow2CodeIsDigit | hurray-inspect/src/main.rs:183-189 | the 1, 2 and 4-bit reader returns digit `idx` of the buffer as a little-endian number, and nothing exactly past its end |
| Packing.F6CodeIsDigit | hurray-inspect/src/main.rs:193-206 | the 6-bit reader returns digit `idx` in base 64; a cut-off group reads as if padded with zeros |
| Packing.Pow2CodesDetermineBuffer | hurray-inspect/src/main.rs:183-189 | buffers with equal codes everywhere are equal |
| Packing.F6CodesDetermineBuffer | hurray-inspect/src/main.rs:193-206 | the same for whole groups of 6-bit codes |
| Decoding.SignExtendIsTwosComplement | hurray-inspect/src/main.rs:209-212 | shifting up and arithmetically down is two's complement, for every width and code |
| Decoding.MagnitudeGrows | hurray-inspect/src/main.rs:247-251 | magnitudes grow across mantissas, exponents and the subnormal boundary |
| Decoding.MicroFloatIncreases | hurray-inspect/src/main.rs:219-252 | for every format, decoding is strictly increasing on finite sign-free codes |
| Decoding.SignBitNegates | hurray-inspect/src/main.rs:227-231 | setting the sign bit negates the value, special values included |
| Decoding.FiniteCodes | hurray-inspect/src/main.rs:237-246 | which sign-free codes are finite, for each use of the top exponent |
| Decoding.InfiniteCode | hurray-inspect/src/main.rs:237-246 | of the sign-free codes above the finite ones the first is infinity, if the format has one, and the others are NaNs |
| Decoding.NeighboursApart | hurray-inspect/src/main.rs:247-251 | for every format, neighbouring finite codes are 2^(exponent - bias - mantissa bits) apart, subnormal ones as if their exponent were one, also across the boundary |
| Decoding.EvenlySpaced | hurray-inspect/src/main.rs:247-251 | up to the second exponent a code is that many times the smallest positive value, 2^(1 - bias - mantissa bits) |
| Decoding.LargestFiniteE4M3 | hurray-inspect/src/main.rs:367-369 | 448 is the largest finite value: every finite code, of either sign, lies between -448 and 448, and 0x7E reaches it |
| Decoding.LargestFiniteE5M2 | hurray-inspect/src/main.rs:370-372 | the same for 57344, reached at 0x7B |
| Decoding.LargestFiniteSubByte | hurray-inspect/src/main.rs:376-384 | the same for 7.5, 28 and 6 in the 6-bit and 4-bit formats |
| RowMajor.ValidateIndex | hurray-core/src/layout/addressing/mod.rs:132-152 | no error exactly for a cell of a static shape; otherwise a wrong rank, or the first dimension that is dynamic or that the index leaves |
| RowMajor.RowMajorOffset | hurray-core/src/layout/addressing/row_major.rs:18-34 | the checked loop returns the row-major offset exactly when largest stride and offset fit in a word, and overflow otherwise |
| RowMajor.ElementOffset | hurray-core/src/layout/addressing/row_major.rs:9-12 | validation and offset together, with the exact condition of each outcome |
| RowMajor.CountedIsAddressable | hurray-core/src/layout/addressing/row_major.rs:18-34 | every cell of a countable shape is addressed without overflow |
| RowMajor.OffsetIsBijection | hurray-core/src/layout/addressing/row_major.rs:15-34 | every cell has its own offset below the element count |
| RowMajor.OffsetOfUnravel | hurray-core/src/layout/addressing/row_major.rs:15-34 | every offset below the element count is that of a cell |
| Hilbert.HilbertRoundTrip | docs/spec/layouts/hilbert.md:56-112 | decoding an encoded index gives the coordinates back, for every rank and order |
| Hilbert.HilbertOnto | docs/spec/layouts/hilbert.md:56-112 | encoding decoded coordinates gives the index back |
| HilbertCurve.CoordsAreCurve | docs/spec/layouts/hilbert.md:88-112 | the iterative inverse mapping computes the recursive curve: a Gray-code walk over cells with a twisted smaller curve in each |
| HilbertLocality.CurveStart | docs/spec/layouts/hilbert.md:88-112 | the curve of every order starts at the origin |
| HilbertLocality.CurveEnd | docs/spec/layouts/hilbert.md:88-112 | it ends at the far corner of the first coordinate |
| HilbertLocality.CellsMeet | docs/spec/layouts/hilbert.md:10-14 | leaving one cell for the next moves a single coordinate by one |
| HilbertLocality.CurveLocal | docs/spec/layouts/hilbert.md:10-14 | consecutive indices of the recursive curve differ by one in one coordinate, said in bits |
| HilbertLayout.PointOfOffset | docs/spec/layouts/hilbert.md:43-57 | every element has its own offset, below the element count |
| HilbertLayout.OffsetOfPoint | docs/spec/layouts/hilbert.md:43-57 | every offset below the element count is used |
| HilbertLayout.ConsecutiveAreAdjacent | docs/spec/layouts/hilbert.md:10-14 | consecutive offsets hold elements that differ by exactly one in exactly one coordinate, for every rank and order |
| HilbertLayout.NeighboursInMemory | docs/spec/layouts/hilbert.md:127 | elements with consecutive offsets are neighbours |
| HilbertLayout.TopBits | docs/spec/layouts/hilbert.md:56-112 | which of the symmetric curves it is: the top bit of coordinate `d` of the element at an offset is bit `r - 1 - d` of the Gray code of the offset's upper `r` bits |
| HilbertLayout.FirstAndLast | docs/spec/layouts/hilbert.md:56-112 | the first offset is the origin's, the last one that of the far end of the first coordinate |
| HilbertLayout.OffsetsDistinctIff | hurray-core/src/layout/addressing/hilbert.rs:12-77 | for a layout of any rank and order and a shape with elements of at least that rank, no two elements share an offset if and only if no side within the rank is longer than 2^order and every further side is one |
| HilbertLayout.ExtraDimensionShares | hurray-core/src/layout/addressing/hilbert.rs:12-77 | two elements of a 4 by 4 by 2 shape with one offset in a layout of rank 2 and order 2 |
| HilbertLayout.Transform | hurray-core/src/layout/addressing/hilbert.rs:33-46 | the in-place round loops compute the rounds of the mapping on the low bits of the first coordinates, whatever lies above and after |
| HilbertLayout.GrayCode | hurray-core/src/layout/addressing/hilbert.rs:48-62 | the running exclusive-or, mask and application, all in place, compute the Gray-code part |
| HilbertLayout.PackBits | hurray-core/src/layout/addressing/hilbert.rs:64-75 | the packing loop puts bit `b` of coordinate `d` at `b * r + (r - 1 - d)` |
| HilbertLayout.ElementOffset | hurray-core/src/layout/addressing/hilbert.rs:12-77 | for any layout and shape, the offset is that of the mapping on the first `rank` coordinates and their low `order` bits, and overflow is reported exactly for valid indices of layouts with more than 64 index bits |
| HilbertLayout.BoundOffset | hurray-core/src/layout/hilbert.rs:13-20 | with the shape a layout is bound to, the offset determines the element |
| Display.EveryElementThere | hurray-core/src/lib.rs:80-97 | a buffer of the computed size holds every element of a built-in type, and whole 6-bit groups |
| Display.SizeIsLeast | hurray-core/src/lib.rs:80-97 | the computed size is the least whole number of bytes, or of three-byte groups for six bits, with a bit for every bit of the elements |
| Display.LastElementThere | hurray-core/src/lib.rs:80-97 | the last element is shown exactly if the buffer has its last byte, or some byte of its last group for six bits: one unit less than the computed size is too little |
| Scalars.ScalarIsDigit | hurray-inspect/src/main.rs:266-411 | in a well-sized buffer every element of a built-in type is shown as what its type makes of digit `idx` of the whole buffer as one number: two's complement, micro-float, scale, or the plain number |
| Scalars.ScalesDouble | hurray-inspect/src/main.rs:254-261 | the scale type shows the powers of two from 2^-126 to 2^127: code 127 is one, and each code twice the code before it |
| Scalars.IntegerRange | hurray-inspect/src/main.rs:266-411 | each integer type shows exactly the numbers of its range |
| Display.NestedReadsFlat | hurray-inspect/src/main.rs:450-480 | read left to right, the nested form shows its block in memory order, each element once |
| Display.NestedAtPath | hurray-inspect/src/main.rs:450-480 | the value nested under an index is the element at its row-major offset |
| Display.NumpyReads | hurray-inspect/src/main.rs:419-447 | a display reads as all elements in memory order or, of more than a thousand, as the first three and the last three |
| Display.DisplayComplete | hurray-inspect/src/main.rs:419-447 | nested, shortened or scalar, a display of a well-sized buffer has no missing value exactly if the type is built in or there are no elements |
| Display.DisplayInWords | hurray-inspect/src/main.rs:419-480 | when element count and byte size fit in a word, no product, stride, offset or byte position of the display overflows, and it is the display in unbounded numbers |
| Reader.FieldReader.TakeRow | hurray-inspect/src/main.rs:549-559 | a row is cut at the end of the window, at the cursor's offset, and the cursor moves past it |
| Reader.FieldReader.SkipTo | hurray-inspect/src/main.rs:562-575 | a row for skipped bytes exactly when the target is ahead and inside the window |
| Reader.FieldReader.TakeRows | hurray-inspect/src/main.rs:549-559 | any run of fields goes on tiling the data, each row as long as what the window leaves of its field |
| Reader.TiledRows | hurray-inspect/src/main.rs:819-857 | a tiled layout's fields at any nesting depth, in order, with the same guarantee |
| Reader.ClampedFits | hurray-inspect/src/main.rs:549-559 | fields that fit in the window are shown whole |
| Reader.DescriptorRows | hurray-inspect/src/main.rs:865-1025 | for every layout, quantization scheme and set of sections, the rows of a descriptor tile a prefix of the data with consecutive offsets, all of it exactly when the data is long enough; when the fields fit, each is a row of its own at the sum of the widths before it, plus one row for the rest; the fourth row, six bytes in, reads as the total length, and the buffer table starts 28 bytes, 8 for each dimension and the layout's fields in |
| Reader.LayoutSize | docs/spec/metadata.md:118-233 | the fields of each layout add up to the size the format gives it: 16 bytes for COO, CSR and CSC, 16 and 4 for each mode for CSF, 32 for block-paged, 8 for a head and for Hilbert, tiled layouts level by level |
| Reader.DescriptorSize | docs/spec/metadata.md:30-46 | the size of a whole descriptor from its rank, layout and sections: 16 bytes a buffer, 72 for statistics, 20 for an extension type, 16 for a member |
| Reader.FieldStarts | docs/spec/metadata.md:52-65 | where the length field and the buffer table are in every descriptor |
| Encoding.WordRoundTrip | hurray-core/src/descriptor/cursor.rs:150-160 | a number that fits is read back from its little-endian bytes |
| Encoding.EncodeTiled | hurray-core/src/descriptor/layout_codec.rs:133-176 | a tiled layout is written level by level, and refused exactly if it is nested too deep |
| Encoding.EncodeLayout | hurray-core/src/descriptor/layout_codec.rs:47-82 | each layout is written or refused for its own reason |
| Encoding.Encode | hurray-core/src/descriptor/encode.rs:18-124 | a descriptor is encoded exactly unless its layout cannot be, it has more than 255 buffers, it is a head marked as a member, or it is too long, in this order; its bytes are its fields with the length filled in afterwards |
| Offsets.HeaderTable | docs/spec/metadata.md:52-110 | in an encoded descriptor the header fields, the total length among them, and each dimension are at the offsets of the format |
| Offsets.FlagBits | docs/spec/metadata.md:77-86 | each flag bit tells whether its section is present |
| Offsets.HandleTable | docs/spec/buffer-protocol.md:26-33 | the values of a buffer's sixteen bytes, at their offsets |
| Offsets.StatisticsTable | docs/spec/metadata.md:330-349 | the values of the statistics section at the offsets of the format |
| Offsets.ExtensionTable | docs/spec/metadata.md:376-389 | the values of the extension type section at the offsets of the format |
| Inspection.AllBytesShown | hurray-inspect/src/main.rs:865-1025 | what should be shown of a descriptor is all of its bytes |
| Inspection.ShownSizes | hurray-inspect/src/main.rs:865-1025 | its pieces have the widths of the inspector's rows if and only if a decoded quantization section is as long as its scheme |
| Inspection.ShowEncoded | hurray-inspect/src/main.rs:865-1025 | a descriptor is encoded and inspected: the rows are all of its bytes, and row by row the written fields, if and only if a decoded quantization section is as long as its scheme |
| Handles.StepSound | hurray-ffi/src/buffer_list.rs:340-384 | every allowed call keeps "each live list owns live handles once" and "a callback has run exactly for the dead buffers that have one, once" |
| Handles.RunSound | hurray-ffi/src/buffer.rs:188-218 | over any run of allowed calls no callback runs twice, and it has run exactly when its buffer is gone |
| Handles.SlotsArePushes | hurray-ffi/src/buffer_list.rs:182-199 | while a list lives, slot `i` holds the `i`-th handle pushed onto it |
| Handles.DestroyReleasesAll | hurray-ffi/src/buffer_list.rs:313-384 | destroying a list runs the callback of each handle that was pushed onto it and came with one, once, in push order, and leaves none alive |
| Handles.ReleasedIff | hurray-ffi/src/buffer.rs:188-218 | said of the calls alone: a callback has run if and only if its handle came with one and was destroyed, by itself or with a list it was pushed onto, and then once |
| Handles.CallbacksOfCalls | hurray-ffi/src/buffer_list.rs:313-384 | which callbacks a run has made, and in what order, is a function of its calls |
| Handles.LiveFromCalls | hurray-ffi/src/buffer.rs:128-218 | which buffers are alive is a function of the calls |
| Handles.PerformAll | hurray-ffi/src/buffer_list.rs:182-384 | the object, driven through any run of allowed calls, ends in the heap the results above are about, has made exactly the callbacks the calls ask for, and every get returned the handle pushed at its position |
| Handles.Library.Perform | hurray-ffi/src/buffer_list.rs:182-384 | any allowed call on a sound heap takes the state machine's step and leaves the heap sound |
| Handles.Library.BufferFromPtr | hurray-ffi/src/buffer.rs:128-175 | registers a live buffer |
| Handles.Library.BufferDestroy | hurray-ffi/src/buffer.rs:188-218 | marks the buffer dead and runs its callback if it has one |
| Handles.Library.BufferListNew | hurray-ffi/src/buffer_list.rs:106-126 | an empty live list |
| Handles.Library.BufferListPush | hurray-ffi/src/buffer_list.rs:182-199 | the handle becomes the last slot |
| Handles.Library.BufferListGet | hurray-ffi/src/buffer_list.rs:277-300 | the handle in a slot, or out of bounds past the end or at a nulled slot |
| Handles.Library.DestroySlots | hurray-ffi/src/buffer_list.rs:363-373 | the loop nulls each slot before destroying its handle and ends with every slot null |
| Handles.Library.BufferListDestroy | hurray-ffi/src/buffer_list.rs:340-384 | destroys the handles, frees the list and nulls the caller's pointer; a null pointer is left alone |

## Left out

- The byte-level stream reader, the file reader and writer, and descriptor decoding; the stream writer
  takes an encoder as a parameter, since its descriptors are the reduced ones.
- Encoding.Encode: signed and floating-point fields are their bit patterns, and the parameters of a
  quantization scheme are bytes that were encoded before.
- Inspection.ShowEncoded: whether a quantization section can be decoded, and as what, is given.
- Writer: byte counts are unbounded, and payload slices are values, so borrowing is not modelled.
- The strided, column-major, tiled, block-paged, Morton and sparse layouts, byte addresses of
  elements, and quantization.
- Colocation and alignment checks of the buffers of a composite.
- Builder.TreeOf: names, payload slices and descriptors are one opaque content that can be read or
  not, so the stream and file variants, which differ only in what a node carries, are one member.
- Trees: the arena that owns the borrowed arrays, and the pointers into it.
- Validator.CompositeValidator.PushMember: `members_seen` is unbounded here; error texts are reduced to their data.
- Display.DisplayInWords: shapes whose element count or byte size does not fit in a word are not followed, since the source then wraps or stops depending on how it is built; number formatting, separators and the caption of a shortened display are not modelled.
- Decoding.MicroFloatIncreases: values are exact reals, so rounding and the sign of zero are not modelled.
- Scalars.ScalarIsDigit: 16-bit and wider floating-point and complex elements keep their bits, since
  turning those into numbers is left to the host.
- Reader.DescriptorRows: labels are left out; cursor positions are unbounded.
- Handles: memory reuse, null and sentinel checks, panics, rejected tag bytes, callbacks that re-enter the library, and the same null-then-destroy loop over the tensors of an item.
