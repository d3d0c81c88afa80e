# spirv_combimgsampsplitter in Dafny

A model of the SPIR-V rewriting library `spirv_combimgsampsplitter`. The library
takes a shader module as a flat stream of 32-bit words. The stream is laid out as
section 2.3 of the Khronos SPIR-V Specification describes: a five-word header
whose word 0 is the magic number `0x07230203` and whose word 3 is the id bound,
then instructions whose first word holds the word count in its high half and the
opcode in its low half. The library has two passes:

- **Combined image-sampler split** (`src/splitcombined.rs` and its helper steps).
  It turns every combined image-sampler into a separate image and sampler. It adds
  a sampler type and a sampler pointer type, retargets the combined pointers to
  the image type, and pairs every such variable and function parameter with a
  sampler of its own. It passes each sampler beside its image at every call,
  rewrites every load into an image load, a sampler load and an
  `OpSampledImage`, and gives every new sampler a descriptor set and binding.
  Bindings that then collide are renumbered.
- **Depth-comparison split** (`src/splitdref.rs`). It finds the image variables
  sampled both with and without depth comparison. It duplicates each one under a
  fresh id and word-inserts that id into each of its loads right after the
  pointer operand, so every `OpLoad` keeps reading the original variable and
  gains one extra operand.

Both passes share these parts, and the model covers each of them:

- the word helpers and the edit engine of `src/util.rs`: deferred word and
  instruction inserts, the removal of `OpNop`-headed instructions, and the new
  header;
- the decoration staging and binding correction of `src/util/decorate.rs`,
  `src/util/correct_decorate.rs` and `src/decorate.rs`, with the correction map
  of `src/correction.rs`;
- the backward walk, the function-type patch and the call-site trace of
  `src/util/function.rs`;
- the little-endian byte helpers of `src/lib.rs`, and the four steps where the
  one-piece version of the combined split in `src/lib.rs` differs from the
  helper version.

Modules follow the source files:

| module | source file |
|---|---|
| `Spirv`, `Layout` | `src/lib.rs`, `src/util.rs` |
| `Outcome` | the panics and early returns, as named errors |
| `Edits`, `EditShape`, `ShapeKeep`, `Assemble` | `src/util.rs` |
| `ByteCodec` | `src/lib.rs` |
| `CorrectDecorate` | `src/util/correct_decorate.rs` |
| `Correction`, `CorrectionBuild`, `CorrectionStamp`, `UtilDecorate` | `src/correction.rs` and `src/util/decorate.rs` |
| `UtilFunction` | `src/util/function.rs` |
| `TypePointer`, `Variable`, `TypeFunction`, `FunctionParameter`, `FunctionCall`, `Load`, `ImageOp`, `CombinedDecorate` | the helper file of the same name |
| `CombinedBindings`, `CombinedFacts`, `SplitCombined` | `src/splitcombined.rs` |
| `SplitDref` | `src/splitdref.rs` |
| `Monolith` | `src/lib.rs` |
| `Search`, `Slots` | the `find`/`find_map`/`filter_map` searches the steps share |

Vectors the source grows or writes in place are `seq` values. The methods
thread them through and return the new value. Each method is proved equal to a
specification function, and the properties are lemmas about that function.
A panic or an `unwrap` on `None` becomes a named `Error` in a `Result`. Where the
output depends on `HashMap` or `HashSet` iteration order, the method picks the
order with `:|`, and its contract holds for every order.

## Model

| member | source | states |
|---|---|---|
| `Spirv.EncodeWord` | src/util.rs:9-19 | the high half of `encode_word(h, l)` is `h` and the low half is `l` |
| `Spirv.EncodeHiLo` | src/util.rs:9-19 | re-encoding a word's two halves gives the word back |
| `Spirv.HalvesDetermineWord` | src/util.rs:9-19 | two words with equal halves are equal |
| `Layout.Offsets` | src/splitcombined.rs:55-92 | the scan lists offsets in increasing order, each of an instruction of the selected opcode |
| `Layout.OffsetsAreHeads` | src/splitcombined.rs:55-92 | an offset is listed exactly when it is an instruction head of the selected opcode: the scan visits every head and only heads |
| `Edits.InsertNewInstructions` | src/util.rs:21-61 | applying the merged, sorted edits in descending order fails exactly when a head's word count would pass 0xFFFF; otherwise the result is `Ideal`, where each original word is followed by everything inserted after it |
| `Edits.SortByKeySorted` | src/util.rs:39-42 | the sort orders edits by original offset and is a permutation |
| `Edits.SortByKeyStable` | src/util.rs:39-42 | edits with the same offset keep their relative order |
| `Edits.IdealLength` | src/util.rs:43-60 | output length = input length + number of word inserts + total length of the inserted instructions |
| `EditShape.IdealWellFormed` | src/util.rs:43-60 | when word counts are kept and every inserted instruction is well formed, the edited body still walks exactly to its end |
| `ShapeKeep.IdealShaped` | src/util.rs:43-60 | the edits keep every instruction's minimum operand count |
| `ShapeKeep.PlainWritesKeepShape` | src/splitcombined.rs:65-67 | in-place operand writes and tombstoned heads keep the body's shape |
| `Assemble.PruneNoops` | src/util.rs:63-78 | the while loop with `Vec::remove` computes `PruneFrom`: the body without its `OpNop`-headed instructions |
| `Assemble.PruneKeepsLive` | src/util.rs:63-78 | the pruned body is well formed, and its instructions are the live ones, in order, with their contents |
| `Assemble.PruneLeavesNoTombstone` | src/util.rs:70-76 | no instruction of the pruned body has an `OpNop` head |
| `Assemble.PruneLength` | src/util.rs:70-76 | pruning removes exactly the words of the tombstoned instructions |
| `Assemble.PruneWithoutTombstones` | src/util.rs:63-78 | a body without tombstones is left unchanged |
| `Assemble.FuseFinal` | src/util.rs:80-89 | fails exactly when the header has no word 3, where the index panics; otherwise the output is the header with only word 3 replaced by the new bound, followed by the body unchanged |
| `Assemble.FuseRestores` | src/util.rs:80-89 | splitting the output and restoring the old bound gives back the header and body: the round trip |
| `ByteCodec.BytesOf` | src/lib.rs:57-69 | four bytes per word |
| `ByteCodec.WordsRoundTrip` | src/lib.rs:40-69 | words to bytes and back is the identity |
| `ByteCodec.BytesRoundTrip` | src/lib.rs:40-69 | bytes whose length is a multiple of four, to words and back, are the same bytes |
| `ByteCodec.WordsOfMeaning` | src/lib.rs:41-45 | decoding fails exactly when the length is not a multiple of four, and otherwise gives a quarter as many words |
| `ByteCodec.BytesOrder` | src/lib.rs:57-69 | byte `4i + k` is byte `k` of word `i`, least significant first |
| `ByteCodec.PackBytes` | src/lib.rs:49-52 | packing a word's four bytes gives the word |
| `ByteCodec.BytesOfPack` | src/lib.rs:49-52 | the bytes of a packed word are the bytes it was packed from |
| `ByteCodec.ShiftsAreDivisions` | src/lib.rs:57-69 | the shifts and byte masks are the divisions and remainders the model uses |
| `ByteCodec.OrsAreSums` | src/lib.rs:49-52 | the ors of shifted bytes are sums, because the bytes do not overlap |
| `CorrectDecorate.ScanDecorations` | src/util/correct_decorate.rs:15-41 | the head-by-head loop computes `Scan`, the candidate map of descriptor sets and bindings |
| `CorrectDecorate.ScanSound` | src/util/correct_decorate.rs:17-41 | an id is in the map exactly when it is decorated with Binding or DescriptorSet; each field is present exactly when that decoration exists, and a binding records its decoration's offset |
| `CorrectDecorate.CollectSet` | src/util/correct_decorate.rs:43-52 | fails exactly when some candidate lacks a set or a binding, as the `unwrap`s do; otherwise it gives exactly the set's bindings, sorted by value |
| `CorrectDecorate.ShiftSet` | src/util/correct_decorate.rs:56-64 | writes each binding slot with its value plus the cumulative increment, leaves every other word unchanged, and fails exactly when a value would pass 0xFFFFFFFF |
| `CorrectDecorate.NewValueIncreasing` | src/util/correct_decorate.rs:56-64 | in sorted order the new values strictly increase, so a corrected set has distinct bindings |
| `CorrectDecorate.NoRepeatNoShift` | src/util/correct_decorate.rs:59-62 | with no repeated value the increment stays 0, so the set is unchanged |
| `CorrectDecorate.CorrectSet` | src/util/correct_decorate.rs:43-64 | one set's correction keeps the sets already corrected and every word outside the touched slots |
| `CorrectDecorate.CorrectBindings` | src/util/correct_decorate.rs:10-66 | a scan failure is returned; a missing set or binding fails; complete candidates whose shifted bindings fit succeed; otherwise every listed set is corrected and all else is unchanged, in any set order: no binding goes down, the bindings of a set end pairwise distinct, a lower binding stays lower, and an already distinct set is kept; no sets leaves the body unchanged |
| `CorrectDecorate.CorrectSets` | src/util/correct_decorate.rs:43-65 | the per-set loop over any order of the sets gives `Corrected` |
| `CorrectDecorate.ShiftCorrects` | src/util/correct_decorate.rs:56-64 | a shifted set satisfies `SetCorrected`: raised, distinct, order-keeping, unchanged when already distinct |
| `CorrectDecorate.ShiftKeepsOrder` | src/util/correct_decorate.rs:52-64 | of two ids of a set, the one with the lower binding still has the lower one after the shift, since the sort puts it first and the shifted numbers increase |
| `CorrectDecorate.OtherSetsKept` | src/util/correct_decorate.rs:43-64 | correcting one set does not undo the correction of another |
| `CorrectionBuild.BuildSets` | src/util/decorate.rs:108-135 | the loop over the sorted rows computes `Build` |
| `CorrectionBuild.BuildMeaning` | src/util/decorate.rs:108-135 | the build succeeds exactly when every row has a set and the sets appear densely (`sets[set as usize]` is in range); it then holds one set per set value in first-appearance order, with each row's binding and no corrections |
| `CorrectionBuild.BuildFailureKept` | src/util/decorate.rs:114-132 | the first failure ends the build |
| `CorrectionBuild.SortRows` | src/util/decorate.rs:110-111 | the rows come out sorted by binding, as a permutation |
| `CorrectionBuild.BindingsInSorted` | src/util/decorate.rs:126-131 | each set's bindings are in binding order |
| `CorrectionBuild.DenseMembers` | src/util/decorate.rs:126 | dense set numbers contain every index below their count |
| `CorrectionStamp.StampVariable` | src/util/decorate.rs:171-204 | one stamp lands where the snapshot's counts place it, and fails where `Vec::insert` would panic |
| `CorrectionStamp.WalkMeaning` | src/util/decorate.rs:191-203 | the walk stops at the first entry whose running count reaches the binding, and the leftover is how far inside it the stamp goes |
| `CorrectionStamp.FreshWalk` | src/util/decorate.rs:191-203 | with no corrections yet, binding `n` lands on entry `n` at position 0 |
| `CorrectionStamp.Landing` | src/util/decorate.rs:172-177 | a stamp lands only in a set the map has; a missing set index is skipped |
| `CorrectionStamp.Stamps` | src/util/decorate.rs:140-206 | stamping keeps the map's sets and bindings, changing only corrections |
| `CorrectionStamp.StampsLanded` | src/util/decorate.rs:137 | every stamp is placed by the pre-stamp snapshot, so earlier stamps do not move later ones |
| `CorrectionStamp.StampsSucceed` | src/util/decorate.rs:196-198 | stamps that fit their landing entry all succeed |
| `CorrectionStamp.StampsFailureKept` | src/util/decorate.rs:140-206 | the first failing stamp ends the step |
| `CorrectionStamp.BareStampsSucceed` | src/util/decorate.rs:108-137 | stamping a freshly built map never fails |
| `CorrectionStamp.PutRead` | src/util/decorate.rs:196-198 | an insert changes only the corrections of the entry it targets, and keeps every set and binding value |
| `UtilDecorate.Decorate` | src/util/decorate.rs:24-211 | for some order of the maps, the result is `DecorateSpec`: survey, unwraps, the map build when none was given, the staged decorations, the stamps |
| `UtilDecorate.SurveyRecorded` | src/util/decorate.rs:41-84 | a new variable's Binding or DescriptorSet is recorded exactly when a decoration of that kind targets its original, and the record is that decoration's offset and literal |
| `UtilDecorate.SurveySets` | src/util/decorate.rs:66-73 | the sets to correct are exactly the DescriptorSet values of the affected originals |
| `UtilDecorate.SurveyKeys` | src/util/decorate.rs:52-73 | a new variable has an entry exactly when its original carries a Binding or a DescriptorSet |
| `UtilDecorate.SurveyLacks` | src/util/decorate.rs:90-98 | an entry lacks a binding, or a set, exactly when its original has one kind and not the other |
| `UtilDecorate.CatalogMeaning` | src/util/decorate.rs:60-80 | the catalog for a new map records, for every decorated id, its last Binding and DescriptorSet literals |
| `UtilDecorate.BoundMeaning` | src/util/decorate.rs:110-116 | the catalog can be unwrapped for bindings (`Bound`) exactly when every id decorated with a DescriptorSet is also decorated with a Binding |
| `UtilDecorate.DecorateRejects` | src/util/decorate.rs:86-105 | an operand out of range, a set without a binding, or a binding without a set each give its own failure |
| `UtilDecorate.DecorateSucceeds` | src/util/decorate.rs:139-210 | on success the inserts are the staged pairs after the given ones, and the sets to correct are the surveyed ones |
| `UtilDecorate.DecorateStages` | src/util/decorate.rs:140-169 | one pair of decorations per new variable (same set, binding + 1), all anchored at the first `OpDecorate`, and the sets to correct are exactly the surveyed sets |
| `UtilDecorate.DecorateStampsGiven` | src/util/decorate.rs:171-204 | with a map given, the output map is the given one with every stamp carried |
| `UtilDecorate.DecorateBuilds` | src/util/decorate.rs:107-135 | with no map given, a missing binding, a failed build or a binding at 0xFFFFFFFF each fail; otherwise the fresh map is built from the sorted rows and stamped |
| `UtilDecorate.StageChecked` | src/util/decorate.rs:139-206 | the stage after the checks computes `StagedSpec` |
| `UtilDecorate.ScanAll` | src/util/decorate.rs:41-84 | the nested survey loops compute the survey and, when a map is to be built, the catalog |
| `UtilDecorate.ScanVariables` | src/util/decorate.rs:42-83 | the inner loop over the affected variables computes one survey row |
| `UtilDecorate.BuildMap` | src/util/decorate.rs:108-135 | for some order of the catalog, the build is `BuildFrom` on it |
| `UtilDecorate.StageAll` | src/util/decorate.rs:140-206 | staging every entry gives the decoration pairs and the stamps |
| `UtilDecorate.TouchTwice` | src/util/decorate.rs:60-80 | recording the same decoration twice changes nothing |
| `UtilDecorate.PairsEvery` | src/util/decorate.rs:159-168 | every staged pair decorates its new variable with the entry's set and binding + 1 |
| `UtilFunction.GetFunctionFromParameter` | src/util/function.rs:11-45 | the loop computes `BackFrom`, the walk exactly as written |
| `UtilFunction.OwnerFound` | src/util/function.rs:15-30 | for parameter `j` of a run of parameters after an `OpFunction` whose result id has a low half other than 54 and 55, the walk returns that parameter's offset, the `OpFunction` offset and `j` |
| `UtilFunction.OwnerMisplaced` | src/util/function.rs:31-41 | when the function's result id is 54 (the OpFunction opcode), the two-word step reads it as a head and returns `f + 2` as the function |
| `UtilFunction.OwnerStalls` | src/util/function.rs:31-41 | when the function's result id is 55 (the OpFunctionParameter opcode), the walk steps back by the id's zero word count forever |
| `UtilFunction.FiftyFourMisplaced` | src/util/function.rs:31-41 | a concrete module where the walk misplaces the function |
| `UtilFunction.OwnerOfRun` | src/util/function.rs:15-30 | the intended owner lookup finds the `OpFunction` head and ordinal of every parameter in the run |
| `UtilFunction.BackAgrees` | src/util/function.rs:15-41 | on result ids other than 54 and 55 the written walk and the intended lookup agree |
| `UtilFunction.FiftyFourOwned` | src/util/function.rs:15-30 | on the same concrete module the intended lookup finds the true function |
| `UtilFunction.PatchFunctionType` | src/util/function.rs:59-90 | the staged edits are `PatchSpec` |
| `UtilFunction.PatchMeaning` | src/util/function.rs:70-89 | a 3-word `OpFunctionParameter(new type, new id)` is always staged after the parameter; a word insert at `type + 3 + ordinal` is staged exactly when some `OpTypeFunction` has the function's type id, and the first one is used |
| `UtilFunction.PatchValid` | src/util/function.rs:70-89 | the staged inserts are valid edits of the module |
| `UtilFunction.FirstTypeAt` | src/util/function.rs:71-74 | the search finds the first `OpTypeFunction` with that result id |
| `UtilFunction.DedupInPlace` | src/util/function.rs:130-131 | the in-place loop computes `Dedup` |
| `UtilFunction.DedupMeaning` | src/util/function.rs:130-131 | the result has no adjacent repeats and the same members |
| `UtilFunction.DedupKeeps` | src/util/function.rs:130-131 | a list without adjacent repeats is unchanged |
| `UtilFunction.DedupIdempotent` | src/util/function.rs:130-131 | doing it twice is doing it once |
| `UtilFunction.DedupOnlyAdjacent` | src/util/function.rs:130-131 | `[1, 2, 1]` keeps both 1s: only adjacent repeats go |
| `UtilFunction.FindParameter` | src/util/function.rs:157-161 | the search computes `ParameterFind`, which runs the as-written walk for every parameter it passes, as the eager `then_some` does |
| `UtilFunction.TraceInner` | src/util/function.rs:136-175 | one resolution step computes `Resolve` |
| `UtilFunction.Trace` | src/util/function.rs:104-134 | the mutual recursion computes `TraceFrom` |
| `UtilFunction.ResolveMeaning` | src/util/function.rs:154-174 | a variable with the id wins, and the first one is taken; an id that is neither a variable nor a parameter is dropped |
| `UtilFunction.ParameterFindNone` | src/util/function.rs:157-161 | with no parameter of that id the search finds nothing |
| `UtilFunction.ResolveFinds` | src/util/function.rs:136-175 | every resolved offset is a variable, and the recorded calls only grow, each addition a real call of the traced function |
| `UtilFunction.TraceFinds` | src/util/function.rs:116-128 | every traced variable is an `OpVariable` offset, and every recorded call is one the trace made |
| `UtilFunction.TraceMeaning` | src/util/function.rs:104-134 | the variables are `OpVariable` offsets without adjacent repeats; every call whose callee is the function is recorded with its entry |
| `UtilFunction.TraceDedups` | src/util/function.rs:130-131 | both output lists are free of adjacent repeats |
| `UtilFunction.TraceRecords` | src/util/function.rs:117-121 | every matching call from the current one on is recorded |
| `Search.First` | src/type_pointer.rs:32-35 | `find_map`: the first index whose element passes, or none when none passes |
| `Search.FilterMapOrder` | src/type_pointer.rs:27-43 | `filter_map` keeps exactly the mapped elements, in input order |
| `Search.CollectPicks` | src/splitdref.rs:88-111 | the collecting loop computes `FilterMap` |
| `TypePointer.RetargetPointers` | src/type_pointer.rs:16-57 | `new_spv` becomes `Retargeted`, and the entries are one per matched pointer |
| `TypePointer.SampledImageOf` | src/type_pointer.rs:31-35 | a pointer matches exactly when its pointee is some `OpTypeSampledImage` result, and the first one's image type is taken |
| `TypePointer.EntriesInScanOrder` | src/type_pointer.rs:27-53 | one entry per matched pointer, in scan order, and no entry for an unmatched one |
| `TypePointer.RetargetedWrites` | src/type_pointer.rs:44-46 | word `tp + 3` of each matched pointer becomes the image type, and no other word is written |
| `TypePointer.RetargetedPointee` | src/type_pointer.rs:46 | a matched pointer's pointee is the image type after the loop |
| `TypePointer.RetargetedFrame` | src/type_pointer.rs:46 | a word that is not a matched pointee is kept |
| `Variable.FindMatches` | src/variable.rs:35-53 | the search computes `Matches` |
| `Variable.MatchesInScanOrder` | src/variable.rs:39-52 | a variable matches exactly when its type is some entry's pointer id, the first such entry wins, and the matches are in scan order |
| `Variable.PairVariables` | src/variable.rs:22-83 | fails exactly when an arrayed match has no arrayed pointer; otherwise the bound grows by the match count and the staged variables and records are those of the matches |
| `Variable.StagedShape` | src/variable.rs:57-78 | each match stages a 4-word UniformConstant `OpVariable` after the original, typed by the arrayed or plain sampler pointer, with consecutive ids; its record holds the original id, that fresh id, the image type and the arrayed flag |
| `Variable.StagedAt` | src/variable.rs:57-78 | the `i`-th staged insert and record use id `bound + i` |
| `Variable.RecordIds` | src/variable.rs:73-78 | the recorded original ids are exactly the matched ids |
| `Variable.SamplerVariableShape` | src/variable.rs:59-71 | the new `OpVariable` is a well-formed instruction |
| `TypeFunction.RetypeFunctions` | src/type_function.rs:13-40 | the loops append `FunctionTypeInserts` to the word inserts |
| `TypeFunction.FunctionTypeInsertsMeaning` | src/type_function.rs:22-38 | an insert is staged exactly for every parameter-type slot `tf + 3 ..` that equals an entry's pointer id, with the sampler pointer as the word and that `OpTypeFunction` as head |
| `TypeFunction.PointerPairs` | src/type_function.rs:24 | one (pointer id, sampler pointer) pair per entry |
| `FunctionParameter.SplitParameters` | src/function_parameter.rs:20-79 | the bound grows by the match count; one sampler parameter is staged after each match; the output lists the map keyed by image parameter id |
| `FunctionParameter.ParameterInsertsShape` | src/function_parameter.rs:49-60 | each match stages a 3-word `OpFunctionParameter(sampler pointer, bound + i)` after the parameter |
| `FunctionParameter.PairedLastWins` | src/function_parameter.rs:61-64 | a repeated key keeps the last match's sampler id and image type |
| `FunctionParameter.PairedKeys` | src/function_parameter.rs:61-78 | the keys are exactly the matched parameter ids |
| `FunctionParameter.ListedIds` | src/function_parameter.rs:67-78 | the output's image ids, in any order, are exactly the matched ids |
| `FunctionCall.PassSamplers` | src/function_call.rs:13-57 | the loops append `FunctionCallInserts` to the word inserts |
| `FunctionCall.FunctionCallInsertsMeaning` | src/function_call.rs:22-56 | an insert is staged exactly for every argument slot `fc + 4 ..` that is a paired image id, with its paired sampler as the word and that call as head |
| `Load.RewriteLoads` | src/load.rs:16-90 | variable matches then parameter matches are rewritten in order, two fresh ids each, and the result is `Rewrites` |
| `Load.VariableMatchesSound` | src/load.rs:28-45 | each variable match is a load of a paired variable, carrying its sampler and image type |
| `Load.VariableMatchesComplete` | src/load.rs:28-45 | every load of a paired variable is matched |
| `Load.ParameterMatchesSound` | src/load.rs:46-61 | each parameter match is a load of a paired parameter, carrying its sampler and image type |
| `Load.ParameterMatchesComplete` | src/load.rs:46-61 | every load of a paired parameter is matched |
| `Load.LoadMatchesCounted` | src/load.rs:28-61 | the match count is the loads through paired variables plus the loads through paired parameters |
| `Load.RewritesLast` | src/load.rs:67-71 | each rewritten load's type becomes the image type and its result the fresh image-load id |
| `Load.RewritesInserts` | src/load.rs:73-88 | after each load a sampler `OpLoad` and an `OpSampledImage` with the load's original type and result are staged |
| `Load.RewritesKeepType` | src/load.rs:67-68 | a load's first rewrite records its original combined type |
| `Load.RecombineShape` | src/load.rs:77-87 | the staged 9 words are two well-formed instructions |
| `ImageOp.RewriteImageOps` | src/image_op.rs:21-219 | the arrayed loads and their first image uses are expanded as `Expand` |
| `ImageOp.ArrayedLoadsIn` | src/image_op.rs:38-77 | the arrayed loads are loads of paired variables or parameters |
| `ImageOp.ArrayedLoadsOnlyArrayed` | src/image_op.rs:50 | with no arrayed entry there is nothing to expand |
| `ImageOp.VariableArrayedSound` | src/image_op.rs:38-58 | each variable pick is an arrayed load of a paired variable |
| `ImageOp.UsesSound` | src/image_op.rs:86-94 | each use pairs a load with the first image op reading its result |
| `ImageOp.UsesComplete` | src/image_op.rs:86-94 | every arrayed load whose result some image op reads is used |
| `ImageOp.UseInsertsMeaning` | src/image_op.rs:119-216 | each use stages its block with 9 consecutive fresh ids, anchored after the image op |
| `ImageOp.TombstonedHeads` | src/image_op.rs:142-143 | the load and image op heads become `OpNop` with their word counts kept |
| `ImageOp.TombstonedFrame` | src/image_op.rs:142-143 | no other word is written |
| `ImageOp.ArrayedBlockShape` | src/image_op.rs:152-204 | the new block is 41 words of well-formed instructions |
| `ImageOp.PatchedCopy` | src/image_op.rs:207-211 | the copy of the image op has operand 3 replaced by the recombined id and every other word kept |
| `ImageOp.CopyAndPatch` | src/image_op.rs:207-211 | the staged instruction is the block followed by the patched copy |
| `CombinedDecorate.Decorate` | src/decorate.rs:17-106 | a missing binding, a missing set, no `OpDecorate`, or a binding of 0xFFFFFFFF each fail; otherwise one 8-word pair per paired variable is staged at the first `OpDecorate`, and the sets to correct are the surveyed ones |
| `CombinedDecorate.SurveyRecorded` | src/decorate.rs:30-53 | a sampler's Binding or DescriptorSet is recorded exactly when its variable carries one |
| `CombinedDecorate.SurveySets` | src/decorate.rs:43-48 | the sets to correct are exactly the DescriptorSet values of the paired variables |
| `CombinedDecorate.SurveyKeys` | src/decorate.rs:30-53 | a sampler has an entry exactly when its variable carries a Binding or DescriptorSet |
| `CombinedDecorate.SurveyLacks` | src/decorate.rs:55-64 | an entry lacks a binding, or a set, exactly when the variable has one kind and not the other |
| `CombinedDecorate.SamplerDecorationsShape` | src/decorate.rs:89-98 | the staged words are a DescriptorSet decoration with the same set and a Binding decoration with binding + 1 |
| `CombinedDecorate.StagesAllAnchored` | src/decorate.rs:88 | every staged pair is anchored at the first `OpDecorate` |
| `CombinedDecorate.StageSeen` | src/decorate.rs:55-101 | the unwraps and staging after the survey, with the same failures |
| `CombinedDecorate.FindLacking` | src/decorate.rs:57-64 | the first failing `unwrap` is found, and a binding is checked before a set |
| `CombinedDecorate.FindAtMax` | src/decorate.rs:97 | some binding would overflow at `binding + 1` exactly when the search says so |
| `CombinedBindings.CorrectSplitBindings` | src/splitcombined.rs:199-260 | the id-aware fix-up over any order of the sets: a scan failure or a missing set or binding fails; otherwise every listed set is `TieCorrected` (no binding lowered, a lower binding still lower, with ties, distinct and the higher id lower when no three share a number, unchanged when already distinct) and all else is unchanged |
| `CombinedBindings.TieShiftSet` | src/splitcombined.rs:240-259 | each slot gets its `Final` value, other words are kept, and failure is exactly an overflow or an underflow at the first failing step |
| `CombinedBindings.TieCorrectSet` | src/splitcombined.rs:227-259 | one set's fix-up makes that set `TieCorrected`, order across bindings included, and keeps the sets already corrected |
| `CombinedBindings.TieCorrects` | src/splitcombined.rs:240-259 | a shifted set satisfies `TieSetCorrected`, including that ids with different original bindings keep their order |
| `CombinedBindings.TieKeepsOrder` | src/splitcombined.rs:240-259 | an id whose scanned binding was lower than another's in the same set ends with a lower binding |
| `CombinedBindings.FinalKeepsOrder` | src/splitcombined.rs:244-258 | in sorted order, an entry with a lower binding ends lower than one with a higher binding, with any ties, three-way ones included |
| `CombinedBindings.FinalAtLeast` | src/splitcombined.rs:244-258 | no binding ends below its original value |
| `CombinedBindings.NoRepeatsKept` | src/splitcombined.rs:244-258 | a set with no repeated binding is unchanged |
| `CombinedBindings.TiePairOrder` | src/splitcombined.rs:247-253 | of two tied entries, the higher id gets the lower new binding |
| `CombinedBindings.FinalDistinct` | src/splitcombined.rs:244-258 | without three-way ties, the fix-up leaves the set's bindings distinct |
| `CombinedBindings.TripleTieCollides` | src/splitcombined.rs:244-258 | three equal bindings with ids 1, 2, 3 all end at 6 |
| `CombinedBindings.PairedFinalDistinct` | src/splitcombined.rs:244-258 | the fix-up that exchanges disjoint pairs of tied neighbours leaves every set distinct, with any ties |
| `CombinedBindings.PairedFinalAgrees` | src/splitcombined.rs:244-258 | without three-way ties it agrees with the fix-up as written |
| `CombinedBindings.TripleTieSeparated` | src/splitcombined.rs:244-258 | on the colliding triple it gives 6, 5 and 7 |
| `CombinedBindings.PairedFinalIsPartner` | src/splitcombined.rs:247-253 | each entry ends with the cumulative value of its exchange partner |
| `SplitCombined.ScanBody` | src/splitcombined.rs:55-92 | the scan loop computes `Located`, and every `OpTypeSampler` head is tombstoned with its word count kept |
| `SplitCombined.Tombstone` | src/splitcombined.rs:65-67 | only the sampler's head becomes `OpNop` |
| `SplitCombined.TombstonesPlain` | src/splitcombined.rs:65-67 | the tombstones are plain writes that keep the shape |
| `SplitCombined.WalkedLocated` | src/splitcombined.rs:55-92 | the walk's record is the scan's result |
| `SplitCombined.SamplerIds` | src/splitcombined.rs:101-110 | the last sampler's id is reused, or `bound` is drawn; the pointer takes the next id, and the bound passes it |
| `SplitCombined.SamplerTypes` | src/splitcombined.rs:115-122 | the 6-word sampler and pointer pair is well formed |
| `SplitCombined.DeclareSampler` | src/splitcombined.rs:101-123 | the bound grows by 1, or by 2 with no sampler, and the pair is anchored at the last `OpTypeVoid` |
| `SplitCombined.StagePairs` | src/splitcombined.rs:125-161 | pointer, variable, function-type and parameter steps: failure exactly on an arrayed match; the bound grows by the matched variables and parameters |
| `SplitCombined.StageParameters` | src/splitcombined.rs:153-161 | the parameter step grows the bound by the matched parameters and keeps earlier inserts |
| `SplitCombined.StageUses` | src/splitcombined.rs:163-182 | the call and load steps grow the bound by two per matched load |
| `SplitCombined.StageSteps` | src/splitcombined.rs:125-182 | the steps 3 to 8 fail exactly on an arrayed match and otherwise give exactly `SplitBound` |
| `SplitCombined.StagedBound` | src/splitcombined.rs:104-182 | the bound arithmetic of the steps adds up to `SplitBound` |
| `SplitCombined.StageDecorations` | src/splitcombined.rs:184-193 | the decoration step succeeds when its checks pass (`DecorateOk`), keeps every earlier insert and anchors its own |
| `SplitCombined.FinishSplit` | src/splitcombined.rs:184-263 | succeeds whenever the decoration step's checks pass and, for its inserts and sets, no word count passes 0xFFFF, the edited module's decorations scan, and the sets to correct are complete, fit and have no two ids at binding 0 (`Proceeds`); on success the body is the pruned result of an id-aware binding fix-up (`TieCorrected`) of the staged edits applied to the rewritten body (`Ideal`), over the sets the decoration step collected, and it is well formed without tombstones (`Assembled`) |
| `SplitCombined.SplitScanned` | src/splitcombined.rs:94-263 | no `OpTypeVoid` fails, an arrayed match fails, and with an `OpTypeVoid`, no arrayed match and steps 9 to 12 passing their checks it succeeds (`SplitProceeds`); on success the bound is exactly `SplitBound`, the sampler pair is the first insert and sits after the last `OpTypeVoid`, and the body is `SplitInto`: the tombstoned samplers, the staging of steps 3 to 8, the decorations, the edits, the fix-up and the pruning |
| `SplitCombined.SplitDeclared` | src/splitcombined.rs:125-263 | after step 2, an arrayed match fails, and without one it succeeds when steps 9 to 12 pass their checks for the staging (`StagesProceed`); on success the bound is exactly `SplitBound`, step 2's insert stays first, and the body is `SplitInto` |
| `SplitCombined.SplitStaged` | src/splitcombined.rs:184-263 | after steps 3 to 8, it succeeds when `Proceeds` holds; the bound is the staged one and the body is `SplitInto` of the input body |
| `SplitCombined.CombImgSampSplitter` | src/splitcombined.rs:24-267 | a short header or wrong magic fails, no `OpTypeImage` returns the input, no `OpTypeVoid` fails; it succeeds whenever every check of the split passes (`Promised`, `SplitProceeds`); on success (`ModuleSplit`) the header is kept except word 3, which becomes exactly `SplitBound`, and the body is the pruned, tie-corrected result of the staged edits (`SplitInto`), well formed and without tombstones |
| `SplitDref.VariantsPartition` | src/splitdref.rs:46-63 | every sampling opcode is Regular or Dref, never both |
| `SplitDref.ScanBody` | src/splitdref.rs:37-73 | the scan loop computes `Located` |
| `SplitDref.Dispatch` | src/splitdref.rs:43-70 | one opcode goes to its own list |
| `SplitDref.VariantOfMeaning` | src/splitdref.rs:93-95 | the first use of a sampled id gives its variant, or none when it is not used |
| `SplitDref.PickedImages` | src/splitdref.rs:88-98 | an image is picked exactly when some `OpSampledImage` with a used result reads it, with that use's variant |
| `SplitDref.PickedLoads` | src/splitdref.rs:101-111 | a load is picked exactly when its result is a picked image, with the pointer it reads |
| `SplitDref.MixImages` | src/splitdref.rs:114-130 | the map loop gives exactly the mixed ids and each id's loads in order |
| `SplitDref.MixedMeaning` | src/splitdref.rs:121-130 | an id is mixed exactly when it is used in both Regular and Dref mode |
| `SplitDref.LoadsOfImageMeaning` | src/splitdref.rs:119 | an id's loads are exactly the recorded loads of that id |
| `SplitDref.RecordLoad` | src/splitdref.rs:117-125 | one record updates both maps |
| `SplitDref.PatchesMeaning` | src/splitdref.rs:135-144 | a variable is patched exactly when its result id is mixed |
| `SplitDref.RenamedMeaning` | src/splitdref.rs:154-156 | the copy is the variable with word 2 replaced by the new id |
| `SplitDref.DuplicateVariables` | src/splitdref.rs:148-177 | the bound grows by the patched count; the copies, redirects and affected list are those of the patched variables |
| `SplitDref.DuplicateVariable` | src/splitdref.rs:148-176 | one loop round adds one copy, its redirects and its affected entry, with id `bound + i` |
| `SplitDref.RedirectLoads` | src/splitdref.rs:168-176 | one word insert of the new id after each load's pointer |
| `SplitDref.RedirectsMeaning` | src/splitdref.rs:168-176 | a redirect is staged exactly for each recorded load of each patched variable, with that variable's id |
| `SplitDref.DuplicatedMeaning` | src/splitdref.rs:75-144 | a variable is duplicated exactly when it is loaded into both a Regular and a Dref sampling op |
| `SplitDref.UsedAsLoaded` | src/splitdref.rs:101-124 | "used as" on the records is "loaded as" on the module |
| `SplitDref.TraceMixed` | src/splitdref.rs:75-144 | the back-trace gives the duplicated variables and the loads of each image |
| `SplitDref.StageDuplicates` | src/splitdref.rs:132-177 | the duplication step is `Staged` for the duplicated variables |
| `SplitDref.StagedFrom` | src/splitdref.rs:132-177 | the trace's outputs give `Staged` |
| `SplitDref.PlacedSplit` | src/splitdref.rs:157-188 | inserts placed in two parts are placed together |
| `SplitDref.StageDecorations` | src/splitdref.rs:179-188 | the decoration step succeeds when its order-free checks pass (`DecorateOk`: readable words, both decorations or neither, an OpDecorate to follow, no binding at 0xFFFFFFFF); with nothing copied it returns the given inserts and no set; its inserts are placed |
| `SplitDref.FinishSplit` | src/splitdref.rs:179-200 | succeeds whenever the decoration step's checks pass and, for every inserts and sets it may give, no word count passes 0xFFFF, the edited module's decorations scan and the sets to correct are complete and fit (`Proceeds`); with nothing staged and readable decorations it returns exactly the pruned body; on success the body is the pruned result of the binding correction (`Corrected`) of the staged edits applied to the body (`Ideal`), over the sets the decoration step collected, well formed without tombstones (`Assembled`) |
| `SplitDref.AssembleSplit` | src/splitdref.rs:190-200 | the edits, the binding correction and the pruning succeed when no word count passes 0xFFFF and the corrected sets are readable, complete and fit (`Fits`); with nothing to insert or correct the body is only pruned; on success the result is `Assembled` |
| `SplitDref.SplitBody` | src/splitdref.rs:24-200 | the new bound counts one id per duplicate; it succeeds whenever every check passes (`SplitProceeds`); with nothing to duplicate and readable decorations the body comes back only pruned; on success the body is `SplitInto` |
| `SplitDref.DrefTextureSplitter` | src/splitdref.rs:11-204 | a short header or wrong magic fails; it succeeds whenever every check of the split passes, and a module with nothing to duplicate and readable decorations comes back with its header and its pruned body (`Promised`); on success (`ModuleSplit`) the bound grows by exactly the number of duplicated variables, the header is otherwise kept, and the body is `SplitInto`: the duplicates and load inserts of the mixed variables, their decorations, the edits, the binding correction and the pruning, well formed without tombstones |
| `Slots.MatchingSlotsMeaning` | src/type_function.rs:26-37 | an insert is staged exactly for each slot in range that holds the id, with the given word and head, in slot order |
| `Slots.PairSlotsMeaning` | src/function_call.rs:41-55 | for one instruction, an insert is staged exactly for every slot that holds one pair's first id, with that pair's second id as the word |
| `Slots.SlotInsertsMeaning` | src/function_call.rs:22-56 | over all instructions, an insert is staged exactly for every slot that holds one of the pairs' first ids, naming its instruction as head |
| `Slots.StageMatchingSlots` | src/function_call.rs:43-54 | the slot loop appends `MatchingSlots` to the inserts |
| `Slots.StagePairSlots` | src/function_call.rs:41-55 | the loop over the pairs appends `PairSlots` |
| `Slots.StageSlotInserts` | src/function_call.rs:22-56 | the loop over the instructions appends `SlotInserts` |
| `Monolith.Nops` | src/lib.rs:112 | a fill of `c` one-word `OpNop`s |
| `Monolith.NopsPrune` | src/lib.rs:112 | a fill is well formed and prunes to nothing |
| `Monolith.BlankSamplers` | src/lib.rs:102-136 | the scan fills every word of every `OpTypeSampler` with the `OpNop` word, and records the last sampler and the first `OpTypeImage` |
| `Monolith.BlankedPrunes` | src/lib.rs:110-113 | the blanked body is well formed and prunes to the body without its samplers |
| `Monolith.Fill` | src/lib.rs:112 | the slice `fill` writes the range and nothing else |
| `Monolith.StageSamplerPair` | src/lib.rs:138-160 | no `OpTypeImage` fails, as the `unwrap` does; otherwise the pair is anchored at the first `OpTypeImage` and the bound grows by 1, or by 2 with no sampler |
| `Monolith.SurveySetsAsWritten` | src/lib.rs:279-298 | the sets to correct are exactly the Binding literals of the paired variables |
| `Monolith.SetsAsWrittenMissTheSet` | src/lib.rs:284-289 | a concrete module where the collected set is the binding 1 rather than the set 0 |
| `Monolith.DropNopWords` | src/lib.rs:564-568 | no `OpNop` word remains and nothing is added |
| `Monolith.DropKeeps` | src/lib.rs:564-568 | a body without the word is unchanged |
| `Monolith.DropCounts` | src/lib.rs:564-568 | every word other than the `OpNop` word keeps its count |
| `Monolith.DropBreaksBinding` | src/lib.rs:564-568 | a Binding decoration whose literal is `0x10000` loses that word, so the module is no longer well formed |

## Left out

- I/O and the binaries: `src/main.rs`, `src/bin/*` and `ffi/` (argument parsing, file reads and writes, printing, the C ABI). `src/test.rs` drives external validators and is not part of this model.
- Semantic validity of the produced SPIR-V (types, shader meaning): only word-level structure is modelled.
- `HashMap` and `HashSet` iteration order is modelled as a choice that every contract quantifies over, not as a fixed order.
- `SplitCombined.CombImgSampSplitter`: the requires `IdsFit` bounds `bound + 2 + |variables| + |parameters| + 4 * |loads|` by 0xFFFFFFFF. It counts every `OpVariable`, `OpFunctionParameter` and `OpLoad`, matched or not, so it excludes modules near the id limit that the source splits. It stands in for the debug-mode overflow of `instruction_bound += 1`, which is not modelled.
- `Load.RewriteLoads`: the requires `bound + 4 * |ls| <= 0xFFFFFFFF` excludes the same overflow, counting every load rather than the matched ones.
- `ImageOp.RewriteImageOps`: the requires `bound + 18 * |ls| <= 0xFFFFFFFF` excludes the same overflow for the nine ids drawn per use.
- `SplitDref.DrefTextureSplitter`: the requires bounds `bound + |variables|` by 0xFFFFFFFF, counting every variable, in place of the overflow of `instruction_bound += 1`.
- `Variable.PairVariables`, `FunctionParameter.SplitParameters`: the requires `bound + |vs|` counts every candidate, not only the matched ones.
- `CombinedDecorate.Decorate`: `binding + 1` is checked only for the staged pairs and fails as `BindingOverflow`, but every Binding and DescriptorSet decoration must have its literal inside the module (`LiteralsIn`).
- `CorrectDecorate.ShiftSet`, `CombinedBindings.TieShiftSet`: the overflow of `binding + increment`, and the underflow of `-= 1` in the id-aware fix-up, are modelled as the failures `BindingOverflow` and `BindingUnderflow` where the source panics in debug mode and wraps in release mode.
- `CombinedBindings.CorrectSplitBindings`: success is promised only when no tie sits at binding 0 (`NoZeroTie`), because `-= 1` on 0 is the underflow above.
- `SplitCombined.CombImgSampSplitter`, `SplitDref.DrefTextureSplitter`: success is promised under a sufficient condition (`SplitProceeds`) that must hold for every `HashMap` iteration order. A module that fails in one order and not in another gets no promise. After the decoration step, the pass-level contracts do not say which error a failing module returns; the step contracts (`Edits.InsertNewInstructions`, `CorrectDecorate.CorrectBindings`, `CombinedBindings.CorrectSplitBindings`) do.
- `CombinedBindings.FinalDistinct`: distinctness of the fix-up as written is proved only without three-way ties, because with them it fails (see Findings). The intended fix-up `PairedFinal` is proved distinct for every tie, but the pass keeps the fix-up as written.
- Zero word counts and reads past the end: every scan in the source (`src/splitcombined.rs:55-92`, `src/splitdref.rs:37-73`, `src/lib.rs:103-136`, `src/util.rs:63-78`, `src/util/correct_decorate.rs:17-41`) loops forever on a zero word count, and an operand read past the end panics. The model takes `WellFormed` (the walk by word counts ends exactly at the end, and every count is at least 1) and `Shaped` (every instruction the passes read has its operands) as preconditions of the passes, instead of modelling the hang and the panic.
- `UtilFunction.Trace`: the recursion takes a `fuel` bound, and running out is the failure `TraceTooDeep`, which the source cannot produce. The source recurses without a visited set and does not terminate on a cyclic call graph. The fuel bound is where that case goes.
- `UtilFunction.GetFunctionFromParameter`: a zero word count met on the walk back is the failure `NoProgress`, where the source loops forever.
- `UtilDecorate.Decorate`: the binding overflow at `binding + 1` (`BindingAtMax`) is checked before any stamp. In the source the order of the overflow and a stamp panic follows `HashMap` order, so when both would happen the model names the overflow.
- `SplitCombined.StagePairs`: `src/splitcombined.rs:135-142` builds `VariableIn` without `op_type_pointer_arrayed_sampler_res_id`, which `src/variable.rs:9` declares. The model passes `None`, so every split with an arrayed combined image fails as `MissingArrayedSamplerPointer`, the `unwrap` of `src/variable.rs:64`.
- `SplitCombined.StagePairs`: `src/splitcombined.rs:126-132` builds `TypePointerIn` without `op_type_image_idxs`, which `src/type_pointer.rs:22` reads. The model passes the scanned `OpTypeImage` offsets.
- `Load.RewriteLoads`: `src/load.rs:33-37` destructures a 3-field `VariableOut`, against the 4 fields of `src/variable.rs:15-20`. The model reads the three fields it names. `src/image_op.rs:43-49` destructures 5 fields, with `type_pointer_underlying_image_id`. `ImageOp` has its own records with that field, and no pass calls `image_op`, as in the source. `src/function_parameter.rs:37-40` destructures a 2-field `TypePointerOut` without `..`, against the 3 fields of `src/type_pointer.rs:10-14`; `FunctionParameter` reads the two fields it names.
- `SplitDref.StageDecorations`: `src/splitdref.rs:162-165` builds `DecorationVariable` without `correction_type`, and `src/splitdref.rs:182-188` calls `decorate` without `corrections`. The model stamps `SplitDrefComparison` and passes an empty map (`Some(CorrectionMap([]))`), so no stamp lands and no map is built.
- Opcodes that `src/lib.rs:8-18` does not define take their values from the Khronos SPIR-V Specification: `OpNop` 0, `OpTypeVoid` 19, `OpFunction` 54, the sampling opcodes, `OpVectorExtractDynamic` 77, `OpConvertFToI` 110 and `OpAccessChain` 65.
- The one-piece pass of `src/lib.rs:73-576` is not composed; only the four steps where it differs are modelled (`Monolith`). `Monolith` does not model the extra `OpTypePointer` that `src/lib.rs:162-191` adds after every matched pointer, with an id of its own. The binding fix-up of `src/lib.rs:513-562` follows the same steps as `src/util/correct_decorate.rs:17-64`, which `CorrectDecorate` models, and is not restated. No property of the one-piece pass's whole output (`src/lib.rs:570-575`) is stated.
- The instruction-insert payloads are not checked against SPIR-V typing. The `Ideal` result places them word for word, and the model proves them well formed.

## Findings

| source | as written | input that shows it | evidently intended | confidence | as-written member | corrected member |
|---|---|---|---|---|---|---|
| src/util/function.rs:31-41 | after one non-parameter word the walk steps back 2 words and reads `OpFunction`'s result id as if it were a head | an `OpFunction` whose result id is 54 is reported at `f + 2`; with result id 55 the walk reads a zero word count and never ends | find the `OpFunction` head and the parameter's ordinal | not executed | `UtilFunction.OwnerMisplaced` | `UtilFunction.OwnerOfRun` |
| src/lib.rs:284-289 | under the Binding branch the binding literal is inserted into the sets to correct | `OpDecorate %10 DescriptorSet 0; OpDecorate %10 Binding 1` with `%10` paired: set 1 is corrected and set 0 is not | insert the DescriptorSet literal, as `src/decorate.rs:43-48` does | not executed | `Monolith.SetsAsWrittenMissTheSet` | `CombinedDecorate.SurveySets` |
| src/lib.rs:565-568 | every word equal to the `OpNop` word `0x00010000` is dropped, operands included | `OpDecorate %10 Binding 65536` loses its literal and the module is no longer well formed | drop the `OpNop`-headed instructions, as `src/util.rs:63-78` does | not executed | `Monolith.DropBreaksBinding` | `Assemble.PruneKeepsLive` |
| src/splitcombined.rs:244-258 | each tie exchanges the previous entry and the current one by one, so the exchanges of a three-way tie overlap | bindings 5, 5, 5 with ids 1, 2, 3, when the map yields them in increasing id order, all end at 6 (the order 3, 2, 1 gives 5, 6, 7) | exchange disjoint pairs of tied neighbours, so every set ends with distinct bindings | not executed | `CombinedBindings.TripleTieCollides` | `CombinedBindings.PairedFinalDistinct` |
