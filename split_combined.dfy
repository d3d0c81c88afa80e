/** `combimgsampsplitter` of src/splitcombined.rs: every combined
    image-sampler of a module becomes an image and a separate sampler.  The
    pass scans the body once, stages edits through the helper steps, applies
    them, renumbers colliding bindings, drops the tombstoned instructions and
    writes the new id bound into the header. */
module SplitCombined {
  import opened Outcome
  import opened Spirv
  import opened Layout
  import opened Edits
  import opened ShapeKeep
  import opened Assemble
  import CorrectDecorate
  import CombinedBindings
  import TypePointer
  import Variable
  import TypeFunction
  import FunctionParameter
  import FunctionCall
  import Load
  import CombinedDecorate
  import opened CombinedFacts
  import Slots

  // ---------------------------------------------------------------------
  // Step 1: the scan

  /** What the scan remembers: the heads of each kind it needs, in body
      order (pointers only in the UniformConstant storage class), the last
      OpTypeSampler, the first OpDecorate and the last OpTypeVoid. */
  datatype Found = Found(
    images: seq<nat>, sampledImages: seq<nat>, pointers: seq<nat>, variables: seq<nat>,
    loads: seq<nat>, decorates: seq<nat>, typeFunctions: seq<nat>, parameters: seq<nat>,
    calls: seq<nat>, sampler: Option<nat>, firstDecorate: Option<nat>, typeVoid: Option<nat>)

  function Latest(l: seq<nat>): Option<nat>
  {
    if l == [] then None else Some(l[|l| - 1])
  }

  function Earliest(l: seq<nat>): Option<nat>
  {
    if l == [] then None else Some(l[0])
  }

  /** What a walk over the whole body finds. */
  function Located(body: seq<u32>): Found
    requires WellFormed(body)
  {
    Found(Offsets(body, 0, Opcode(OpTypeImage)), Offsets(body, 0, Opcode(OpTypeSampledImage)),
          Offsets(body, 0, UniformConstantPointer), Offsets(body, 0, Opcode(OpVariable)),
          Offsets(body, 0, Opcode(OpLoad)), Offsets(body, 0, Opcode(OpDecorate)),
          Offsets(body, 0, Opcode(OpTypeFunction)), Offsets(body, 0, Opcode(OpFunctionParameter)),
          Offsets(body, 0, Opcode(OpFunctionCall)),
          Latest(Offsets(body, 0, Opcode(OpTypeSampler))),
          Earliest(Offsets(body, 0, Opcode(OpDecorate))),
          Latest(Offsets(body, 0, Opcode(OpTypeVoid))))
  }

  /** `t` is the body with the heads in `hs` turned into tombstones of the
      same word count. */
  predicate Tombstones(body: seq<u32>, hs: seq<nat>, t: seq<u32>)
  {
    |t| == |body| && forall p :: 0 <= p < |body| ==> t[p] == if p in hs then NopHead(body[p]) else body[p]
  }

  /** The list-valued fields of `Found`, each filled by one arm of the
      dispatch. */
  datatype Kind = Images | SampledImages | Pointers | Variables | Loads | Decorates
                | TypeFunctions | Parameters | Calls

  function ListOf(f: Found, k: Kind): seq<nat>
  {
    match k
    case Images => f.images
    case SampledImages => f.sampledImages
    case Pointers => f.pointers
    case Variables => f.variables
    case Loads => f.loads
    case Decorates => f.decorates
    case TypeFunctions => f.typeFunctions
    case Parameters => f.parameters
    case Calls => f.calls
  }

  /** Which heads the arm for `k` pushes. */
  function SelectorOf(k: Kind): Selector
  {
    match k
    case Images => Opcode(OpTypeImage)
    case SampledImages => Opcode(OpTypeSampledImage)
    case Pointers => UniformConstantPointer
    case Variables => Opcode(OpVariable)
    case Loads => Opcode(OpLoad)
    case Decorates => Opcode(OpDecorate)
    case TypeFunctions => Opcode(OpTypeFunction)
    case Parameters => Opcode(OpFunctionParameter)
    case Calls => Opcode(OpFunctionCall)
  }

  const NothingFound := Found([], [], [], [], [], [], [], [], [], None, None, None)

  /** The dispatch of the scan on the opcode of the head at `i`. */
  function Visit(body: seq<u32>, i: nat, f: Found): Found
    requires i < |body|
  {
    var op := LoWord(body[i]);
    if op == OpTypeVoid then f.(typeVoid := Some(i))
    else if op == OpTypeSampler then f.(sampler := Some(i))
    else if op == OpTypeImage then f.(images := f.images + [i])
    else if op == OpTypeSampledImage then f.(sampledImages := f.sampledImages + [i])
    else if op == OpTypePointer then
      (if i + 2 < |body| && body[i + 2] == StorageClassUniformConstant then f.(pointers := f.pointers + [i]) else f)
    else if op == OpVariable then f.(variables := f.variables + [i])
    else if op == OpLoad then f.(loads := f.loads + [i])
    else if op == OpDecorate then
      f.(decorates := f.decorates + [i], firstDecorate := if f.firstDecorate.None? then Some(i) else f.firstDecorate)
    else if op == OpTypeFunction then f.(typeFunctions := f.typeFunctions + [i])
    else if op == OpFunctionParameter then f.(parameters := f.parameters + [i])
    else if op == OpFunctionCall then f.(calls := f.calls + [i])
    else f
  }

  /** The dispatch applied to every head from `i` on. */
  function Walked(body: seq<u32>, i: nat, f: Found): Found
    requires WalksFrom(body, i)
    decreases |body| - i
  {
    if i >= |body| then f else Walked(body, i + HiWord(body[i]), Visit(body, i, f))
  }

  lemma VisitList(body: seq<u32>, i: nat, f: Found, k: Kind)
    requires i < |body|
    ensures ListOf(Visit(body, i, f), k) == if Selects(body, i, SelectorOf(k)) then ListOf(f, k) + [i] else ListOf(f, k)
  {
  }

  /** Each list the walk fills is the heads its arm selects, in order. */
  lemma {:induction false} WalkedList(body: seq<u32>, i: nat, f: Found, k: Kind)
    requires WalksFrom(body, i)
    ensures ListOf(Walked(body, i, f), k) == ListOf(f, k) + Offsets(body, i, SelectorOf(k))
    decreases |body| - i
  {
    if i < |body| {
      var n, sel := i + HiWord(body[i]), SelectorOf(k);
      VisitList(body, i, f, k);
      WalkedList(body, n, Visit(body, i, f), k);
      var front: seq<nat> := if Selects(body, i, sel) then [i] else [];
      assert Offsets(body, i, sel) == front + Offsets(body, n, sel);
      ListFold(ListOf(Walked(body, i, f), k), ListOf(Visit(body, i, f), k), ListOf(f, k),
               front, Offsets(body, n, sel), Offsets(body, i, sel));
    }
  }

  lemma ListFold(w: seq<nat>, v: seq<nat>, x: seq<nat>, front: seq<nat>, rest: seq<nat>, all: seq<nat>)
    requires w == v + rest && v == x + front && all == front + rest
    ensures w == x + all
  {
  }

  lemma VisitMarks(body: seq<u32>, i: nat, f: Found)
    requires i < |body|
    ensures Visit(body, i, f).sampler == if LoWord(body[i]) == OpTypeSampler then Some(i) else f.sampler
    ensures Visit(body, i, f).typeVoid == if LoWord(body[i]) == OpTypeVoid then Some(i) else f.typeVoid
    ensures Visit(body, i, f).firstDecorate ==
      if LoWord(body[i]) == OpDecorate && f.firstDecorate.None? then Some(i) else f.firstDecorate
  {
  }

  /** `o` replaced by the last element of `l`, if any. */
  function LastOr(o: Option<nat>, l: seq<nat>): Option<nat>
  {
    if l == [] then o else Some(l[|l| - 1])
  }

  lemma LastOrStep(o: Option<nat>, i: nat, rest: seq<nat>)
    ensures LastOr(o, [i] + rest) == LastOr(Some(i), rest)
  {
  }

  /** The walk remembers the last OpTypeSampler. */
  lemma {:induction false} WalkedSampler(body: seq<u32>, i: nat, f: Found)
    requires WalksFrom(body, i)
    ensures Walked(body, i, f).sampler == LastOr(f.sampler, Offsets(body, i, Opcode(OpTypeSampler)))
    decreases |body| - i
  {
    if i < |body| {
      var n, sel := i + HiWord(body[i]), Opcode(OpTypeSampler);
      VisitMarks(body, i, f);
      WalkedSampler(body, n, Visit(body, i, f));
      if Selects(body, i, sel) {
        assert Offsets(body, i, sel) == [i] + Offsets(body, n, sel);
        LastOrStep(f.sampler, i, Offsets(body, n, sel));
      } else {
        assert Offsets(body, i, sel) == Offsets(body, n, sel);
      }
    }
  }

  /** The walk remembers the last OpTypeVoid. */
  lemma {:induction false} WalkedVoid(body: seq<u32>, i: nat, f: Found)
    requires WalksFrom(body, i)
    ensures Walked(body, i, f).typeVoid == LastOr(f.typeVoid, Offsets(body, i, Opcode(OpTypeVoid)))
    decreases |body| - i
  {
    if i < |body| {
      var n, sel := i + HiWord(body[i]), Opcode(OpTypeVoid);
      VisitMarks(body, i, f);
      WalkedVoid(body, n, Visit(body, i, f));
      if Selects(body, i, sel) {
        assert Offsets(body, i, sel) == [i] + Offsets(body, n, sel);
        LastOrStep(f.typeVoid, i, Offsets(body, n, sel));
      } else {
        assert Offsets(body, i, sel) == Offsets(body, n, sel);
      }
    }
  }

  /** `o` if set, else the first element of `l`, if any. */
  function FirstOr(o: Option<nat>, l: seq<nat>): Option<nat>
  {
    if o.Some? then o else Earliest(l)
  }

  /** The walk remembers the first OpDecorate. */
  lemma {:induction false} WalkedFirst(body: seq<u32>, i: nat, f: Found)
    requires WalksFrom(body, i)
    ensures Walked(body, i, f).firstDecorate == FirstOr(f.firstDecorate, Offsets(body, i, Opcode(OpDecorate)))
    decreases |body| - i
  {
    if i < |body| {
      var n := i + HiWord(body[i]);
      VisitMarks(body, i, f);
      WalkedFirst(body, n, Visit(body, i, f));
    }
  }

  /** What the walk from the start finds is what the body holds. */
  lemma WalkedLocated(body: seq<u32>)
    requires WellFormed(body)
    ensures Walked(body, 0, NothingFound) == Located(body)
  {
    var w := Walked(body, 0, NothingFound);
    forall k: Kind ensures ListOf(w, k) == Offsets(body, 0, SelectorOf(k)) {
      WalkedList(body, 0, NothingFound, k);
    }
    assert ListOf(w, Images) == Offsets(body, 0, Opcode(OpTypeImage));
    assert ListOf(w, SampledImages) == Offsets(body, 0, Opcode(OpTypeSampledImage));
    assert ListOf(w, Pointers) == Offsets(body, 0, UniformConstantPointer);
    assert ListOf(w, Variables) == Offsets(body, 0, Opcode(OpVariable));
    assert ListOf(w, Loads) == Offsets(body, 0, Opcode(OpLoad));
    assert ListOf(w, Decorates) == Offsets(body, 0, Opcode(OpDecorate));
    assert ListOf(w, TypeFunctions) == Offsets(body, 0, Opcode(OpTypeFunction));
    assert ListOf(w, Parameters) == Offsets(body, 0, Opcode(OpFunctionParameter));
    assert ListOf(w, Calls) == Offsets(body, 0, Opcode(OpFunctionCall));
    WalkedSampler(body, 0, NothingFound);
    WalkedVoid(body, 0, NothingFound);
    WalkedFirst(body, 0, NothingFound);
  }

  /** `acc` followed by the heads from `i` on that `sel` selects is `goal`. */
  predicate Gathered(s: seq<u32>, i: nat, acc: seq<nat>, sel: Selector, goal: seq<nat>)
    requires WalksFrom(s, i)
  {
    acc + Offsets(s, i, sel) == goal
  }

  /** One step of a scan: the head at `i` joins the list when selected. */
  lemma Collect(s: seq<u32>, i: nat, acc: seq<nat>, sel: Selector, goal: seq<nat>)
    requires WalksFrom(s, i) && i < |s| && Gathered(s, i, acc, sel, goal)
    ensures WalksFrom(s, i + HiWord(s[i]))
    ensures Gathered(s, i + HiWord(s[i]), if Selects(s, i, sel) then acc + [i] else acc, sel, goal)
  {
    var rest := Offsets(s, i + HiWord(s[i]), sel);
    if Selects(s, i, sel) {
      assert Offsets(s, i, sel) == [i] + rest;
      assert (acc + [i]) + rest == acc + ([i] + rest);
    }
  }

  /** The OpTypeSampler arm: the head at `i` becomes a tombstone of the
      same word count. */
  method Tombstone(body: seq<u32>, newSpv: seq<u32>, ghost samplers: seq<nat>, i: nat) returns (t: seq<u32>)
    requires i < |body| && Tombstones(body, samplers, newSpv)
    ensures Tombstones(body, samplers + [i], t)
  {
    t := newSpv[i := EncodeWord(HiWord(body[i]), OpNop)];
  }

  /** The body of the scan loop: the head at `i` joins the list of its
      opcode, or becomes the last OpTypeSampler or OpTypeVoid or the first
      OpDecorate. */
  method Dispatch(body: seq<u32>, i: nat, f0: Found) returns (f: Found)
    requires i < |body|
    ensures f == Visit(body, i, f0)
  {
    f := f0;
    var instruction := LoWord(body[i]);
    if instruction == OpTypeVoid {
      f := f.(typeVoid := Some(i));
    } else if instruction == OpTypeSampler {
      f := f.(sampler := Some(i));
    } else if instruction == OpTypeImage {
      f := f.(images := f.images + [i]);
    } else if instruction == OpTypeSampledImage {
      f := f.(sampledImages := f.sampledImages + [i]);
    } else if instruction == OpTypePointer {
      if i + 2 < |body| && body[i + 2] == StorageClassUniformConstant {
        f := f.(pointers := f.pointers + [i]);
      }
    } else if instruction == OpVariable {
      f := f.(variables := f.variables + [i]);
    } else if instruction == OpLoad {
      f := f.(loads := f.loads + [i]);
    } else if instruction == OpDecorate {
      f := f.(decorates := f.decorates + [i]);
      if f.firstDecorate.None? {
        f := f.(firstDecorate := Some(i));
      }
    } else if instruction == OpTypeFunction {
      f := f.(typeFunctions := f.typeFunctions + [i]);
    } else if instruction == OpFunctionParameter {
      f := f.(parameters := f.parameters + [i]);
    } else if instruction == OpFunctionCall {
      f := f.(calls := f.calls + [i]);
    }
  }

  /** Step 1: walks the body by word counts, collecting the heads the later
      steps need and tombstoning every OpTypeSampler, word count kept. */
  method ScanBody(body: seq<u32>) returns (f: Found, newSpv: seq<u32>)
    requires Shaped(body)
    ensures WellFormed(body) && f == Located(body)
    ensures Tombstones(body, Offsets(body, 0, Opcode(OpTypeSampler)), newSpv)
  {
    ShapedIsWellFormed(body);
    ghost var goal := Walked(body, 0, NothingFound);
    ghost var samplersGoal := Offsets(body, 0, Opcode(OpTypeSampler));
    ghost var samplers: seq<nat> := [];
    newSpv := body;
    f := NothingFound;
    var i: nat := 0;
    while i < |body|
      invariant WalksFrom(body, i) && ShapedFrom(body, i)
      invariant Walked(body, i, f) == goal
      invariant Gathered(body, i, samplers, Opcode(OpTypeSampler), samplersGoal)
      invariant Tombstones(body, samplers, newSpv)
      decreases |body| - i
    {
      i, f, newSpv, samplers := ScanOne(body, i, f, newSpv, samplers, goal, samplersGoal);
    }
    WalkedLocated(body);
  }

  /** The loop body of step 1: dispatches on the head at `i`, turns an
      OpTypeSampler into a tombstone and moves to the next head. */
  method ScanOne(body: seq<u32>, i: nat, f: Found, newSpv: seq<u32>, ghost samplers: seq<nat>,
                 ghost goal: Found, ghost samplersGoal: seq<nat>)
    returns (j: nat, f': Found, newSpv': seq<u32>, ghost samplers': seq<nat>)
    requires i < |body| && WalksFrom(body, i) && ShapedFrom(body, i)
    requires Walked(body, i, f) == goal
    requires Gathered(body, i, samplers, Opcode(OpTypeSampler), samplersGoal)
    requires Tombstones(body, samplers, newSpv)
    ensures i < j && WalksFrom(body, j) && ShapedFrom(body, j)
    ensures Walked(body, j, f') == goal
    ensures Gathered(body, j, samplers', Opcode(OpTypeSampler), samplersGoal)
    ensures Tombstones(body, samplers', newSpv')
  {
    var op := body[i];
    var wordCount := HiWord(op);
    assert body[i..i + wordCount][0] == op;
    Collect(body, i, samplers, Opcode(OpTypeSampler), samplersGoal);
    newSpv', samplers' := newSpv, samplers;
    if LoWord(op) == OpTypeSampler {
      newSpv' := Tombstone(body, newSpv, samplers, i);
      samplers' := samplers + [i];
    }
    f' := Dispatch(body, i, f);
    j := i + wordCount as nat;
  }

  /** The tombstoned samplers are heads, so the scan writes only heads, as
      tombstones. */
  lemma TombstonesPlain(body: seq<u32>, t: seq<u32>)
    requires WellFormed(body) && Tombstones(body, Offsets(body, 0, Opcode(OpTypeSampler)), t)
    ensures PlainWrites(body, t)
  {
    forall p: nat | p < |body| && t[p] != body[p]
      ensures IsHead(body, p) && t[p] == NopHead(body[p])
    {
      OffsetsAreHeads(body, Opcode(OpTypeSampler), p);
    }
  }

  // ---------------------------------------------------------------------
  // Steps 2 to 9: staging the edits

  /** The OpTypeSampler and its UniformConstant OpTypePointer that step 2
      declares after the last OpTypeVoid. */
  function SamplerTypes(samplerId: u32, pointerId: u32): (r: seq<u32>)
    ensures Shaped(r) && WellFormed(r)
  {
    var w := [EncodeWord(2, OpTypeSampler), samplerId,
              EncodeWord(4, OpTypePointer), pointerId, StorageClassUniformConstant, samplerId];
    assert w == w[..2] + w[2..];
    TwoShaped(w[..2], w[2..]);
    ShapedIsWellFormed(w);
    w
  }

  /** What steps 3 to 8 leave: the rewritten body, the id bound, the staged
      word and instruction inserts, and the paired variables and parameters
      the decoration step reads. */
  datatype Staging = Staging(newSpv: seq<u32>, bound: u32, wordInserts: seq<WordInsert>,
                             instructionInserts: seq<InstructionInsert>,
                             vRes: seq<Variable.VariableOut>,
                             parameterRes: seq<FunctionParameter.FunctionParameterOut>)

  /** The heads the scan found are heads of their opcode, with the words
      of that opcode. */
  lemma FoundHeads(body: seq<u32>, f: Found)
    requires Shaped(body) && WellFormed(body) && f == Located(body)
    ensures HeadsOf(body, f.pointers, OpTypePointer) && HeadsOf(body, f.sampledImages, OpTypeSampledImage)
    ensures HeadsOf(body, f.images, OpTypeImage) && HeadsOf(body, f.variables, OpVariable)
    ensures HeadsOf(body, f.typeFunctions, OpTypeFunction) && HeadsOf(body, f.parameters, OpFunctionParameter)
    ensures HeadsOf(body, f.calls, OpFunctionCall) && HeadsOf(body, f.loads, OpLoad)
  {
    ScannedHeads(body, UniformConstantPointer, OpTypePointer);
    ScannedHeads(body, Opcode(OpTypeSampledImage), OpTypeSampledImage);
    ScannedHeads(body, Opcode(OpTypeImage), OpTypeImage);
    ScannedHeads(body, Opcode(OpVariable), OpVariable);
    ScannedHeads(body, Opcode(OpTypeFunction), OpTypeFunction);
    ScannedHeads(body, Opcode(OpFunctionParameter), OpFunctionParameter);
    ScannedHeads(body, Opcode(OpFunctionCall), OpFunctionCall);
    ScannedHeads(body, Opcode(OpLoad), OpLoad);
  }

  /** The operands the steps read lie inside the body. */
  ghost predicate FoundOperands(body: seq<u32>, f: Found)
  {
    TypePointer.Inputs(body, f.pointers, f.sampledImages, f.images)
    && OperandsAt(body, f.variables, 2) && OperandsAt(body, f.parameters, 2)
  }

  lemma FoundInside(body: seq<u32>, f: Found)
    requires Shaped(body) && WellFormed(body) && f == Located(body)
    ensures FoundOperands(body, f)
  {
    FoundHeads(body, f);
    HeadsOperands(body, f.pointers, OpTypePointer, 3);
    HeadsOperands(body, f.sampledImages, OpTypeSampledImage, 2);
    HeadsOperands(body, f.images, OpTypeImage, 5);
    HeadsOperands(body, f.variables, OpVariable, 2);
    HeadsOperands(body, f.parameters, OpFunctionParameter, 2);
  }

  /** The records of the pointer step. */
  ghost function PointerRecords(body: seq<u32>, f: Found): seq<TypePointer.TypePointerOut>
    requires FoundOperands(body, f)
  {
    TypePointer.Entries(body, f.pointers, f.sampledImages, f.images)
  }

  /** Steps 3 to 6: the pointer, variable, function-type and parameter
      steps in the order of the source, from the tombstoned body `t0`, the
      id bound after step 2 and step 2's insert `ins0`. The variable step
      is given no arrayed sampler pointer, so it fails when a paired
      variable needs one. */
  method StagePairs(body: seq<u32>, t0: seq<u32>, f: Found, bound: u32, pointerId: u32,
                    ins0: seq<InstructionInsert>)
    returns (r: Result<Staging>)
    requires Shaped(body) && WellFormed(body) && f == Located(body) && FoundOperands(body, f)
    requires PlainWrites(body, t0) && Anchored(body, ins0)
    requires bound as int + |f.variables| + |f.parameters| + 4 * |f.loads| <= MaxU32
    ensures r.Failure? <==> Variable.NeedsArrayed(Variable.Matches(body, f.variables, PointerRecords(body, f)))
    ensures r.Failure? ==> r.error == MissingArrayedSamplerPointer
    ensures r.Success? ==>
      |r.value.newSpv| == |body| && PlainWrites(body, r.value.newSpv)
      && Grafted(body, r.value.wordInserts) && Anchored(body, r.value.instructionInserts)
    ensures r.Success? ==>
      r.value.bound as int == bound as int + |Variable.Matches(body, f.variables, PointerRecords(body, f))|
                                           + |Variable.Matches(body, f.parameters, PointerRecords(body, f))|
      && r.value.bound as int + 4 * |f.loads| <= MaxU32
    ensures r.Success? ==> r.value.vRes == Variable.Records(Variable.Matches(body, f.variables, PointerRecords(body, f)), bound)
    ensures r.Success? ==>
      (set p | p in r.value.parameterRes :: p.imageParameterResId) == Variable.MatchedIds(Variable.Matches(body, f.parameters, PointerRecords(body, f)))
    ensures r.Success? ==> |r.value.instructionInserts| >= |ins0| && r.value.instructionInserts[..|ins0|] == ins0
    ensures r.Success? ==>
      Slots.OperandRuns(body, f.typeFunctions, 3) && |t0| == |body| && PairsStaged(body, t0, f, bound, pointerId, ins0, r.value)
  {
    FoundHeads(body, f);
    var t1, tpRes := TypePointer.RetargetPointers(body, t0, f.images, f.pointers, f.sampledImages);
    RetargetPlain(body, t0, f.pointers, f.sampledImages);

    var v := Variable.PairVariables(body, bound, ins0, pointerId, None, f.variables, tpRes);
    if v.Failure? {
      return Failure(v.error);
    }
    var vm := Variable.Matches(body, f.variables, tpRes);
    VariablesAnchored(body, f.variables, tpRes, pointerId, bound);
    AnchoredConcat(body, ins0, Variable.Staged(vm, pointerId, None, bound));

    TypeFunctionsGrafted(body, f.typeFunctions, pointerId, tpRes);
    var ws := TypeFunction.RetypeFunctions(body, [], pointerId, f.typeFunctions, tpRes);
    assert ws == TypeFunction.FunctionTypeInserts(body, f.typeFunctions, pointerId, tpRes);

    var p := StageParameters(body, f, tpRes, pointerId, v.value.bound, v.value.inserts);
    assert tpRes == PointerRecords(body, f);
    assert v.value.inserts[..|ins0|] == ins0;
    PrefixChain(p.inserts, v.value.inserts, ins0);
    r := Success(Staging(t1, p.bound, ws, p.inserts, v.value.vRes, p.parameterRes));
    PairsStagedBy(body, t0, f, bound, pointerId, ins0, v.value, r.value);
  }

  /** The staging StagePairs builds from the variable step's result `v`
      is the one PairsStaged describes. */
  lemma PairsStagedBy(body: seq<u32>, t0: seq<u32>, f: Found, bound: u32, pointerId: u32,
                      ins0: seq<InstructionInsert>, v: Variable.VariableStep, st: Staging)
    requires FoundOperands(body, f) && Slots.OperandRuns(body, f.typeFunctions, 3) && |t0| == |body|
    requires var tp := PointerRecords(body, f);
      var vm := Variable.Matches(body, f.variables, tp);
      var pm := Variable.Matches(body, f.parameters, tp);
      && !Variable.NeedsArrayed(vm) && bound as int + |vm| <= MaxU32
      && v == Variable.VariableStep(bound + |vm| as u32, ins0 + Variable.Staged(vm, pointerId, None, bound), Variable.Records(vm, bound))
      && v.bound as int + |pm| <= MaxU32
      && st.newSpv == TypePointer.Retargeted(body, t0, f.pointers, f.sampledImages)
      && st.bound as int == v.bound as int + |pm|
      && st.wordInserts == TypeFunction.FunctionTypeInserts(body, f.typeFunctions, pointerId, tp)
      && st.instructionInserts == v.inserts + FunctionParameter.ParameterInserts(pm, pointerId, v.bound)
      && st.vRes == v.vRes
      && FunctionParameter.Lists(st.parameterRes, FunctionParameter.Paired(pm, v.bound))
    ensures PairsStaged(body, t0, f, bound, pointerId, ins0, st)
  {
  }

  /** What steps 3 to 6 stage, for some order of the parameter step's map:
      the retargeted pointers, the function-type inserts, step 2's insert
      followed by the variable and the parameter inserts, and the records
      of the paired variables and parameters. */
  ghost predicate PairsStaged(body: seq<u32>, t0: seq<u32>, f: Found, bound: u32, pointerId: u32,
                              ins0: seq<InstructionInsert>, st: Staging)
    requires FoundOperands(body, f) && Slots.OperandRuns(body, f.typeFunctions, 3) && |t0| == |body|
  {
    var tp := PointerRecords(body, f);
    var vm := Variable.Matches(body, f.variables, tp);
    var pm := Variable.Matches(body, f.parameters, tp);
    && !Variable.NeedsArrayed(vm)
    && bound as int + |vm| + |pm| <= MaxU32
    && var b1 := bound + |vm| as u32;
       st.newSpv == TypePointer.Retargeted(body, t0, f.pointers, f.sampledImages)
       && st.bound == b1 + |pm| as u32
       && st.wordInserts == TypeFunction.FunctionTypeInserts(body, f.typeFunctions, pointerId, tp)
       && st.instructionInserts
          == ins0 + Variable.Staged(vm, pointerId, None, bound) + FunctionParameter.ParameterInserts(pm, pointerId, b1)
       && st.vRes == Variable.Records(vm, bound)
       && FunctionParameter.Lists(st.parameterRes, FunctionParameter.Paired(pm, b1))
  }

  /** Step 6, the parameter step, after the variable step left the id
      bound at `bound` and the instruction inserts at `ins`. */
  method StageParameters(body: seq<u32>, f: Found, tpRes: seq<TypePointer.TypePointerOut>, pointerId: u32,
                         bound: u32, ins: seq<InstructionInsert>)
    returns (p: FunctionParameter.ParameterStep)
    requires Shaped(body) && WellFormed(body) && f == Located(body) && FoundOperands(body, f)
    requires Anchored(body, ins) && bound as int + |f.parameters| <= MaxU32
    ensures p.bound as int == bound as int + |Variable.Matches(body, f.parameters, tpRes)|
    ensures Anchored(body, p.inserts) && |p.inserts| >= |ins| && p.inserts[..|ins|] == ins
    ensures (set q | q in p.parameterRes :: q.imageParameterResId) == Variable.MatchedIds(Variable.Matches(body, f.parameters, tpRes))
    ensures var pm := Variable.Matches(body, f.parameters, tpRes);
      bound as int + |pm| <= MaxU32
      && p.inserts == ins + FunctionParameter.ParameterInserts(pm, pointerId, bound)
      && FunctionParameter.Lists(p.parameterRes, FunctionParameter.Paired(pm, bound))
  {
    FoundHeads(body, f);
    p := FunctionParameter.SplitParameters(body, bound, ins, pointerId, f.parameters, tpRes);
    var pm := Variable.Matches(body, f.parameters, tpRes);
    FunctionParameter.ListedIds(p.parameterRes, pm, bound);
    ParametersAnchored(body, f.parameters, tpRes, pointerId, bound);
    AnchoredConcat(body, ins, FunctionParameter.ParameterInserts(pm, pointerId, bound));
    assert p.inserts[..|ins|] == ins;
  }

  /** Steps 7 and 8: the call and load steps, from what steps 3 to 6 left.
      The sampler type is the id step 2 chose. */
  method StageUses(body: seq<u32>, f: Found, st: Staging, samplerId: u32) returns (r: Staging)
    requires Shaped(body) && WellFormed(body) && f == Located(body)
    requires |st.newSpv| == |body| && PlainWrites(body, st.newSpv)
    requires Grafted(body, st.wordInserts) && Anchored(body, st.instructionInserts)
    requires st.bound as int + 4 * |f.loads| <= MaxU32
    ensures |r.newSpv| == |body| && PlainWrites(body, r.newSpv)
    ensures Grafted(body, r.wordInserts) && Anchored(body, r.instructionInserts)
    ensures FoundOperands(body, f) && OperandsAt(body, f.loads, 3)
    ensures r.bound as int == st.bound as int + 2 * |Load.LoadMatches(body, f.loads, st.vRes, st.parameterRes)|
    ensures r.vRes == st.vRes && r.parameterRes == st.parameterRes
    ensures |r.instructionInserts| >= |st.instructionInserts|
      && r.instructionInserts[..|st.instructionInserts|] == st.instructionInserts
    ensures Slots.OperandRuns(body, f.calls, 4) && UsesStaged(body, f, st, samplerId, r)
  {
    FoundHeads(body, f);
    FoundInside(body, f);
    CallsGrafted(body, f.calls, st.vRes, st.parameterRes);
    var ws := FunctionCall.PassSamplers(body, st.wordInserts, f.calls, st.vRes, st.parameterRes);
    GraftedConcat(body, st.wordInserts, FunctionCall.FunctionCallInserts(body, f.calls, st.vRes, st.parameterRes));

    HeadsOperands(body, f.loads, OpLoad, 3);
    var l := Load.RewriteLoads(body, st.newSpv, st.bound, st.instructionInserts, samplerId, f.loads, st.vRes, st.parameterRes);
    var lm := Load.LoadMatches(body, f.loads, st.vRes, st.parameterRes);
    Load.MatchesIn(body, f.loads, st.vRes, st.parameterRes);
    LoadsAnchored(body, st.newSpv, f.loads, lm, samplerId, st.bound);
    AnchoredConcat(body, st.instructionInserts, Load.Rewrites(body, st.newSpv, lm, |lm|, samplerId, st.bound).inserts);
    RewritePlain(body, st.newSpv, f.loads, lm, samplerId, st.bound);
    r := Staging(l.newSpv, l.bound, ws, l.inserts, st.vRes, st.parameterRes);
    assert l.inserts[..|st.instructionInserts|] == st.instructionInserts;
  }

  /** What steps 7 and 8 add to the staging `st`: the call inserts after
      its word inserts, and the load rewrite of its body, bound and
      instruction inserts. */
  ghost predicate UsesStaged(body: seq<u32>, f: Found, st: Staging, samplerId: u32, r: Staging)
    requires OperandsAt(body, f.loads, 3) && Slots.OperandRuns(body, f.calls, 4)
  {
    var lm := Load.LoadMatches(body, f.loads, st.vRes, st.parameterRes);
    && |st.newSpv| == |body| && Load.LoadsIn(body, lm) && st.bound as int + 2 * |lm| <= MaxU32
    && var w := Load.Rewrites(body, st.newSpv, lm, |lm|, samplerId, st.bound);
       r == Staging(w.newSpv, w.bound, st.wordInserts + FunctionCall.FunctionCallInserts(body, f.calls, st.vRes, st.parameterRes),
                    st.instructionInserts + w.inserts, st.vRes, st.parameterRes)
  }

  /** Operands every staging step reads lie inside the body. */
  ghost predicate StagedInputs(body: seq<u32>, f: Found)
  {
    FoundOperands(body, f) && OperandsAt(body, f.loads, 3)
    && Slots.OperandRuns(body, f.typeFunctions, 3) && Slots.OperandRuns(body, f.calls, 4)
  }

  lemma StagedInputsHold(body: seq<u32>, f: Found)
    requires Shaped(body) && WellFormed(body) && f == Located(body)
    ensures StagedInputs(body, f)
  {
    FoundHeads(body, f);
    FoundInside(body, f);
    HeadsOperands(body, f.loads, OpLoad, 3);
    TypeFunctionsGrafted(body, f.typeFunctions, 0, []);
    CallsGrafted(body, f.calls, [], []);
  }

  /** Steps 3 to 8 from the tombstoned body `t0`, the id bound `b` and the
      sampler ids step 2 chose, and its insert `ins0`. */
  ghost predicate StagedFrom(body: seq<u32>, f: Found, t0: seq<u32>, b: u32, samplerId: u32, pointerId: u32,
                             ins0: seq<InstructionInsert>, st: Staging)
    requires StagedInputs(body, f) && |t0| == |body|
  {
    exists pairs :: PairsStaged(body, t0, f, b, pointerId, ins0, pairs) && UsesStaged(body, f, pairs, samplerId, st)
  }

  // ---------------------------------------------------------------------
  // Steps 2 and 9 to 12, and the whole pass

  /** Fresh ids never run out: the bound leaves room for the two sampler
      ids, one id per OpVariable and per OpFunctionParameter and four per
      OpLoad. */
  predicate IdsFit(f: Found, bound: u32)
  {
    bound as int + 2 + |f.variables| + |f.parameters| + 4 * |f.loads| <= MaxU32
  }

  /** The rewritten body, the id bound the header gets and the
      instruction inserts the edit engine was given. */
  datatype Split = Split(body: seq<u32>, bound: u32, inserts: seq<InstructionInsert>)

  /** Step 2's instructions: an OpTypeSampler under the id of the module's
      last one when it has one (whose own declaration became a NOP) or
      else under the bound, and its UniformConstant pointer under the next
      id. */
  function SamplerPair(body: seq<u32>, f: Found, bound: u32): seq<u32>
    requires (f.sampler.Some? ==> f.sampler.value + 1 < |body|) && bound as int + 2 <= MaxU32
  {
    SamplerTypes(SamplerId(body, f, bound), PointerId(f, bound))
  }

  /** Step 2's sampler type id: the last OpTypeSampler's result id, or
      else the bound. */
  function SamplerId(body: seq<u32>, f: Found, bound: u32): u32
    requires f.sampler.Some? ==> f.sampler.value + 1 < |body|
  {
    if f.sampler.Some? then body[f.sampler.value + 1] else bound
  }

  /** Step 2's pointer id: the next id the bound gives. */
  function PointerId(f: Found, bound: u32): u32
    requires bound as int + 2 <= MaxU32
  {
    if f.sampler.Some? then bound else bound + 1
  }

  /** The id bound the split leaves: a fresh id for the sampler type
      unless the module has one, one for its pointer, one per paired
      variable and per paired parameter, and two per load through either
      (the bare image load and the sampler load). */
  ghost function SplitBound(body: seq<u32>, f: Found, bound: u32): int
    requires Shaped(body) && WellFormed(body) && f == Located(body)
  {
    FoundHeads(body, f);
    FoundInside(body, f);
    HeadsOperands(body, f.loads, OpLoad, 3);
    var vm := Variable.Matches(body, f.variables, PointerRecords(body, f));
    var pm := Variable.Matches(body, f.parameters, PointerRecords(body, f));
    bound as int + (if f.sampler.None? then 2 else 1) + |vm| + |pm|
      + 2 * (Load.LoadsThrough(body, f.loads, Variable.MatchedIds(vm)) + Load.LoadsThrough(body, f.loads, Variable.MatchedIds(pm)))
  }

  /** Steps 2 and 9 to 12 around the staging: the sampler ids, the sampler
      types after the last OpTypeVoid, the decoration step, the edit
      engine, the binding fix-up and the pruning. */
  method SplitScanned(body: seq<u32>, f: Found, t0: seq<u32>, bound: u32) returns (r: Result<Split>)
    requires Shaped(body) && WellFormed(body) && f == Located(body)
    requires Tombstones(body, Offsets(body, 0, Opcode(OpTypeSampler)), t0)
    requires IdsFit(f, bound) && CombinedDecorate.LiteralsIn(body, f.decorates)
    ensures FoundOperands(body, f)
    ensures f.typeVoid.None? ==> r == Failure(MissingTypeVoid)
    ensures f.typeVoid.Some? && Variable.NeedsArrayed(Variable.Matches(body, f.variables, PointerRecords(body, f)))
      ==> r == Failure(MissingArrayedSamplerPointer)
    ensures r.Success? ==>
      WellFormed(r.value.body) && forall ins :: ins in Instructions(r.value.body, 0) ==> !IsTombstone(ins)
    ensures r.Success? ==> r.value.bound as int == SplitBound(body, f, bound)
    ensures f.sampler.Some? ==> f.sampler.value + 1 < |body|
    ensures r.Success? ==>
      f.typeVoid == Latest(Offsets(body, 0, Opcode(OpTypeVoid))) && f.typeVoid.Some? && |r.value.inserts| > 0
      && r.value.inserts[0] == InstructionInsert(f.typeVoid.value, SamplerPair(body, f, bound))
    ensures r.Success? ==> SplitInto(body, bound, r.value.body)
    ensures SplitProceeds(body, bound) ==> r.Success?
  {
    FoundInside(body, f);
    if f.sampler.Some? {
      ShapedOffset(body, Opcode(OpTypeSampler), f.sampler.value);
    }
    if f.typeVoid.None? {
      return Failure(MissingTypeVoid);
    }
    var samplerId, pointerId, b, ins0 := DeclareSampler(body, f, bound);
    assert Declared(body, bound, t0, b, samplerId, pointerId, ins0);
    r := SplitDeclared(body, f, t0, bound, samplerId, pointerId, b, ins0);
  }

  /** Step 2's choices: the tombstoned body `t0`, the bound `b` after the
      sampler ids, the ids themselves and their insert `ins0` after the
      last OpTypeVoid. */
  ghost predicate Declared(body: seq<u32>, bound: u32, t0: seq<u32>, b: u32, samplerId: u32, pointerId: u32,
                           ins0: seq<InstructionInsert>)
    requires Admissible(body, bound)
  {
    var f := Located(body);
    && f.typeVoid.Some? && (f.sampler.Some? ==> f.sampler.value + 1 < |body|)
    && b as int == bound as int + (if f.sampler.None? then 2 else 1)
    && samplerId == SamplerId(body, f, bound) && pointerId == PointerId(f, bound)
    && ins0 == [InstructionInsert(f.typeVoid.value, SamplerPair(body, f, bound))]
    && Tombstones(body, Offsets(body, 0, Opcode(OpTypeSampler)), t0)
  }

  /** Steps 9 to 12 pass every check for whatever steps 3 to 8 stage from
      step 2's choices. */
  ghost predicate StagesProceed(body: seq<u32>, f: Found, t0: seq<u32>, b: u32, samplerId: u32, pointerId: u32,
                                ins0: seq<InstructionInsert>)
  {
    StagedInputs(body, f) && |t0| == |body| && CombinedDecorate.LiteralsIn(body, f.decorates)
    && forall st :: StagedFrom(body, f, t0, b, samplerId, pointerId, ins0, st) ==> Proceeds(body, f, st)
  }

  /** Steps 2 to 12 pass every check: there is an OpTypeVoid, no paired
      variable needs the arrayed sampler pointer, and the later steps pass
      theirs. */
  ghost predicate SplitProceeds(body: seq<u32>, bound: u32)
    requires Admissible(body, bound)
  {
    var f := Located(body);
    FoundInside(body, f);
    && f.typeVoid.Some?
    && !Variable.NeedsArrayed(Variable.Matches(body, f.variables, PointerRecords(body, f)))
    && forall t0, b, samplerId, pointerId, ins0 :: Declared(body, bound, t0, b, samplerId, pointerId, ins0) ==>
         StagesProceed(body, f, t0, b, samplerId, pointerId, ins0)
  }

  /** Steps 3 to 12, once step 2 has chosen the sampler ids and staged
      their insert `ins0`. */
  method SplitDeclared(body: seq<u32>, f: Found, t0: seq<u32>, bound: u32, samplerId: u32, pointerId: u32, b: u32,
                       ins0: seq<InstructionInsert>) returns (r: Result<Split>)
    requires Shaped(body) && WellFormed(body) && f == Located(body) && FoundOperands(body, f)
    requires Tombstones(body, Offsets(body, 0, Opcode(OpTypeSampler)), t0)
    requires IdsFit(f, bound) && CombinedDecorate.LiteralsIn(body, f.decorates)
    requires f.typeVoid.Some? && (f.sampler.Some? ==> f.sampler.value + 1 < |body|)
    requires b as int == bound as int + (if f.sampler.None? then 2 else 1)
    requires samplerId == SamplerId(body, f, bound) && pointerId == PointerId(f, bound)
    requires ins0 == [InstructionInsert(f.typeVoid.value, SamplerPair(body, f, bound))] && Anchored(body, ins0)
    ensures Variable.NeedsArrayed(Variable.Matches(body, f.variables, PointerRecords(body, f)))
      ==> r == Failure(MissingArrayedSamplerPointer)
    ensures r.Success? ==>
      WellFormed(r.value.body) && forall ins :: ins in Instructions(r.value.body, 0) ==> !IsTombstone(ins)
    ensures r.Success? ==> r.value.bound as int == SplitBound(body, f, bound)
    ensures r.Success? ==> |r.value.inserts| > 0 && r.value.inserts[0] == ins0[0]
    ensures r.Success? ==> SplitInto(body, bound, r.value.body)
    ensures (!Variable.NeedsArrayed(Variable.Matches(body, f.variables, PointerRecords(body, f)))
             && StagesProceed(body, f, t0, b, samplerId, pointerId, ins0)) ==> r.Success?
  {
    // Steps 3 to 8.
    var staged := StageSteps(body, f, t0, bound, b, samplerId, pointerId, ins0);
    if staged.Failure? {
      return Failure(staged.error);
    }
    r := SplitStaged(body, f, t0, bound, samplerId, pointerId, b, ins0, staged.value);
  }

  /** Steps 9 to 12, once steps 3 to 8 have staged `st`. */
  method SplitStaged(body: seq<u32>, f: Found, t0: seq<u32>, bound: u32, samplerId: u32, pointerId: u32, b: u32,
                     ins0: seq<InstructionInsert>, st: Staging) returns (r: Result<Split>)
    requires Shaped(body) && WellFormed(body) && f == Located(body)
    requires Tombstones(body, Offsets(body, 0, Opcode(OpTypeSampler)), t0)
    requires IdsFit(f, bound) && CombinedDecorate.LiteralsIn(body, f.decorates)
    requires f.typeVoid.Some? && (f.sampler.Some? ==> f.sampler.value + 1 < |body|)
    requires b as int == bound as int + (if f.sampler.None? then 2 else 1)
    requires samplerId == SamplerId(body, f, bound) && pointerId == PointerId(f, bound)
    requires ins0 == [InstructionInsert(f.typeVoid.value, SamplerPair(body, f, bound))]
    requires |st.newSpv| == |body| && PlainWrites(body, st.newSpv)
    requires Grafted(body, st.wordInserts) && Anchored(body, st.instructionInserts)
    requires |st.instructionInserts| >= |ins0| && st.instructionInserts[..|ins0|] == ins0
    requires StagedInputs(body, f) && StagedFrom(body, f, t0, b, samplerId, pointerId, ins0, st)
    ensures r.Success? ==>
      WellFormed(r.value.body) && forall ins :: ins in Instructions(r.value.body, 0) ==> !IsTombstone(ins)
    ensures r.Success? ==> r.value.bound == st.bound
    ensures r.Success? ==> |r.value.inserts| > 0 && r.value.inserts[0] == ins0[0]
    ensures r.Success? ==> SplitInto(body, bound, r.value.body)
    ensures Proceeds(body, f, st) ==> r.Success?
  {
    var out, ins, sets := FinishSplit(body, f, st);
    if out.Failure? {
      return Failure(out.error);
    }
    PrefixFirst(ins, st.instructionInserts, ins0);
    r := Success(Split(out.value, st.bound, ins));
    SplitIntoBy(body, bound, t0, b, samplerId, pointerId, ins0, st, ins, sets, out.value);
  }

  /** Step 2 once there is an OpTypeVoid: the ids, and the insert of the
      sampler types after the last OpTypeVoid. */
  method DeclareSampler(body: seq<u32>, f: Found, bound: u32)
    returns (samplerId: u32, pointerId: u32, b: u32, ins0: seq<InstructionInsert>)
    requires Shaped(body) && WellFormed(body) && f == Located(body) && bound as int + 2 <= MaxU32 && f.typeVoid.Some?
    ensures f.sampler.Some? ==> f.sampler.value + 1 < |body|
    ensures b as int == bound as int + (if f.sampler.None? then 2 else 1)
    ensures samplerId == SamplerId(body, f, bound) && pointerId == PointerId(f, bound)
    ensures ins0 == [InstructionInsert(f.typeVoid.value, SamplerPair(body, f, bound))] && Anchored(body, ins0)
  {
    samplerId, pointerId, b := SamplerIds(body, f, bound);
    var pair := SamplerTypes(samplerId, pointerId);
    assert pair == SamplerPair(body, f, bound);
    VoidAnchor(body, f.typeVoid.value, pair);
    ins0 := [InstructionInsert(f.typeVoid.value, pair)];
  }

  /** An insert after an OpTypeVoid is anchored. */
  lemma VoidAnchor(body: seq<u32>, v: nat, pair: seq<u32>)
    requires WellFormed(body) && v in Offsets(body, 0, Opcode(OpTypeVoid)) && Shaped(pair)
    ensures Anchored(body, [InstructionInsert(v, pair)])
  {
    OffsetsAreHeads(body, Opcode(OpTypeVoid), v);
  }

  /** A list that starts with a list that starts with `c` starts with
      `c`. */
  lemma PrefixChain<T>(a: seq<T>, b: seq<T>, c: seq<T>)
    requires |a| >= |b| && a[..|b|] == b && |b| >= |c| && b[..|c|] == c
    ensures |a| >= |c| && a[..|c|] == c
  {
    assert a[..|c|] == a[..|b|][..|c|];
  }

  /** The first element of a list that starts with a list that starts
      with `c`. */
  lemma PrefixFirst<T>(a: seq<T>, b: seq<T>, c: seq<T>)
    requires |a| >= |b| && a[..|b|] == b && |b| >= |c| && b[..|c|] == c && |c| > 0
    ensures |a| > 0 && a[0] == c[0]
  {
    assert a[0] == a[..|b|][0];
    assert b[0] == b[..|c|][0];
  }

  /** Steps 3 to 8, from the tombstoned body and step 2's ids and insert. */
  method StageSteps(body: seq<u32>, f: Found, t0: seq<u32>, bound: u32, b: u32, samplerId: u32, pointerId: u32,
                    ins0: seq<InstructionInsert>)
    returns (r: Result<Staging>)
    requires Shaped(body) && WellFormed(body) && f == Located(body) && FoundOperands(body, f)
    requires Tombstones(body, Offsets(body, 0, Opcode(OpTypeSampler)), t0) && Anchored(body, ins0)
    requires IdsFit(f, bound) && b as int == bound as int + (if f.sampler.None? then 2 else 1)
    ensures Variable.NeedsArrayed(Variable.Matches(body, f.variables, PointerRecords(body, f))) ==> r == Failure(MissingArrayedSamplerPointer)
    ensures !Variable.NeedsArrayed(Variable.Matches(body, f.variables, PointerRecords(body, f))) ==> r.Success?
    ensures r.Success? ==>
      |r.value.newSpv| == |body| && PlainWrites(body, r.value.newSpv)
      && Grafted(body, r.value.wordInserts) && Anchored(body, r.value.instructionInserts)
    ensures r.Success? ==> r.value.bound as int == SplitBound(body, f, bound)
    ensures r.Success? ==> |r.value.instructionInserts| >= |ins0| && r.value.instructionInserts[..|ins0|] == ins0
    ensures r.Success? ==> StagedInputs(body, f) && StagedFrom(body, f, t0, b, samplerId, pointerId, ins0, r.value)
  {
    TombstonesPlain(body, t0);
    var staged := StagePairs(body, t0, f, b, pointerId, ins0);
    if staged.Failure? {
      return Failure(staged.error);
    }
    var st := StageUses(body, f, staged.value, samplerId);
    StagedBound(body, f, bound, b, staged.value, st);
    PrefixChain(st.instructionInserts, staged.value.instructionInserts, ins0);
    StagedInputsHold(body, f);
    r := Success(st);
  }

  /** The staged bound is the bound of the specification: the load step's
      two ids per matched load, counted by the ids the loads go through. */
  lemma StagedBound(body: seq<u32>, f: Found, bound: u32, b: u32, staged: Staging, st: Staging)
    requires Shaped(body) && WellFormed(body) && f == Located(body) && FoundOperands(body, f) && OperandsAt(body, f.loads, 3)
    requires b as int == bound as int + (if f.sampler.None? then 2 else 1)
    requires var vm := Variable.Matches(body, f.variables, PointerRecords(body, f));
      b as int + |vm| <= MaxU32
      && staged.bound as int == b as int + |vm| + |Variable.Matches(body, f.parameters, PointerRecords(body, f))|
      && staged.vRes == Variable.Records(vm, b)
    requires (set p | p in staged.parameterRes :: p.imageParameterResId)
      == Variable.MatchedIds(Variable.Matches(body, f.parameters, PointerRecords(body, f)))
    requires st.bound as int == staged.bound as int + 2 * |Load.LoadMatches(body, f.loads, staged.vRes, staged.parameterRes)|
    ensures st.bound as int == SplitBound(body, f, bound)
  {
    var vm := Variable.Matches(body, f.variables, PointerRecords(body, f));
    Load.LoadMatchesCounted(body, f.loads, staged.vRes, staged.parameterRes);
    Variable.RecordIds(vm, b);
  }

  /** Step 2: the sampler type id, the existing OpTypeSampler's or drawn
      from the bound, then its pointer id, drawn from the bound. */
  method SamplerIds(body: seq<u32>, f: Found, bound: u32) returns (samplerId: u32, pointerId: u32, b: u32)
    requires Shaped(body) && WellFormed(body) && f == Located(body) && bound as int + 2 <= MaxU32
    ensures f.sampler.Some? ==> f.sampler.value + 1 < |body| && samplerId == body[f.sampler.value + 1]
    ensures f.sampler.None? ==> samplerId == bound
    ensures pointerId as int == bound as int + (if f.sampler.None? then 1 else 0)
    ensures b as int == pointerId as int + 1
  {
    b := bound;
    if f.sampler.Some? {
      FoundInside(body, f);
      ShapedOffset(body, Opcode(OpTypeSampler), f.sampler.value);
      samplerId := body[f.sampler.value + 1];
    } else {
      samplerId := b;
      b := b + 1;
    }
    pointerId := b;
    b := b + 1;
  }

  /** Step 9: the decoration step, whose inserts follow the first
      OpDecorate. */
  method StageDecorations(body: seq<u32>, f: Found, st: Staging) returns (r: Result<CombinedDecorate.DecorateOut>)
    requires WellFormed(body) && f == Located(body) && CombinedDecorate.LiteralsIn(body, f.decorates)
    requires Anchored(body, st.instructionInserts)
    ensures r.Success? ==> Anchored(body, r.value.inserts)
    ensures r.Success? ==>
      |r.value.inserts| >= |st.instructionInserts| && r.value.inserts[..|st.instructionInserts|] == st.instructionInserts
    ensures r.Success? ==> Decorated(body, f, st, r.value.inserts, r.value.descriptorSetsToCorrect)
    ensures DecorateOk(body, f, st) ==> r.Success?
  {
    r := CombinedDecorate.Decorate(body, st.instructionInserts, f.firstDecorate, f.decorates, st.vRes);
    if r.Success? {
      ghost var m := CombinedDecorate.Survey(body, f.decorates, st.vRes, |f.decorates|).decorations;
      assert !CombinedDecorate.LacksBinding(m) && !CombinedDecorate.LacksSet(m) && !CombinedDecorate.BindingAtMax(m);
      assert |m| == 0 || f.firstDecorate.Some?;
      var ins := r.value.inserts;
      var n := |st.instructionInserts|;
      var anchor := if f.firstDecorate.Some? then f.firstDecorate.value else 0;
      assert CombinedDecorate.StagesAll(ins[n..], m, anchor);
      if f.firstDecorate.Some? {
        OffsetsAreHeads(body, Opcode(OpDecorate), anchor);
      }
      DecorationsAnchored(body, ins[n..], m, anchor);
      AnchoredSplit(body, st.instructionInserts, ins);
    }
  }

  /** Step 9 as the source composes it: every paired variable's binding
      and set are found, there is an OpDecorate to follow when there is
      anything to decorate, no binding is at the maximum, `ins` is the
      staged inserts followed by the pair decorations after the first
      OpDecorate, and `sets` are the sets the fix-up is to correct. */
  ghost predicate Decorated(body: seq<u32>, f: Found, st: Staging, ins: seq<InstructionInsert>, sets: set<u32>)
    requires CombinedDecorate.LiteralsIn(body, f.decorates)
  {
    var s := CombinedDecorate.Survey(body, f.decorates, st.vRes, |f.decorates|);
    var n := |st.instructionInserts|;
    && !CombinedDecorate.LacksBinding(s.decorations) && !CombinedDecorate.LacksSet(s.decorations)
    && (|s.decorations| == 0 || f.firstDecorate.Some?) && !CombinedDecorate.BindingAtMax(s.decorations)
    && sets == s.setsToCorrect
    && |ins| == n + |s.decorations| && ins[..n] == st.instructionInserts
    && CombinedDecorate.StagesAll(ins[n..], s.decorations, if f.firstDecorate.Some? then f.firstDecorate.value else 0)
  }

  /** The checks of the decoration step: every paired variable's original
      has a Binding exactly when it has a DescriptorSet, there is an
      OpDecorate to follow once there is anything to decorate, and no
      Binding is 0xFFFF_FFFF, so `binding + 1` fits. */
  ghost predicate DecorateOk(body: seq<u32>, f: Found, st: Staging)
    requires CombinedDecorate.LiteralsIn(body, f.decorates)
  {
    var m := CombinedDecorate.Survey(body, f.decorates, st.vRes, |f.decorates|).decorations;
    !CombinedDecorate.LacksBinding(m) && !CombinedDecorate.LacksSet(m)
    && (|m| == 0 || f.firstDecorate.Some?) && !CombinedDecorate.BindingAtMax(m)
  }

  /** The checks of steps 10 and 11 for the decoration step's `ins` and
      `sets`: no word count passes 0xFFFF, the decorations of the edited
      module can be read, and, when a set is to be corrected, every
      decorated id has both decorations, no shifted Binding passes
      0xFFFF_FFFF and no two ids of a set to correct share the Binding 0. */
  ghost predicate Fits(body: seq<u32>, newSpv: seq<u32>, ws: seq<WordInsert>, ins: seq<InstructionInsert>, sets: set<u32>)
  {
    NoOverflow(newSpv, Merge(ws, ins))
    && var e := Ideal(body, newSpv, Merge(ws, ins));
       Shaped(e) && WellFormed(e) && CorrectDecorate.Scan(e).Success?
       && (sets == {} || CorrectDecorate.Complete(CorrectDecorate.Scan(e).value))
       && CorrectDecorate.NoBindingOverflow(CorrectDecorate.Scan(e).value, sets)
       && CombinedBindings.NoZeroTie(CorrectDecorate.Scan(e).value, sets)
  }

  /** Steps 9 to 12 pass every check for the staging `st`. */
  ghost predicate Proceeds(body: seq<u32>, f: Found, st: Staging)
    requires CombinedDecorate.LiteralsIn(body, f.decorates)
  {
    DecorateOk(body, f, st)
    && forall ins, sets :: Decorated(body, f, st, ins, sets) ==> Fits(body, st.newSpv, st.wordInserts, ins, sets)
  }

  /** Steps 10 to 12 as the source composes them: the staged edits applied
      to the rewritten body, the binding fix-up with ties of `sets`, and
      the pruning. */
  ghost predicate Assembled(body: seq<u32>, newSpv: seq<u32>, ws: seq<WordInsert>, ins: seq<InstructionInsert>,
                            sets: set<u32>, out: seq<u32>)
  {
    NoOverflow(newSpv, Merge(ws, ins))
    && var e := Ideal(body, newSpv, Merge(ws, ins));
       Shaped(e) && WellFormed(e) && CorrectDecorate.Scan(e).Success?
       && exists c :: CombinedBindings.TieCorrected(e, c, CorrectDecorate.Scan(e).value, sets) && WellFormed(c) && out == PruneFrom(c, 0)
  }

  /** Steps 9 to 12: the decoration step, the edit engine, the binding
      fix-up and the pruning. */
  method FinishSplit(body: seq<u32>, f: Found, st: Staging) returns (r: Result<seq<u32>>, ins: seq<InstructionInsert>, sets: set<u32>)
    requires Shaped(body) && WellFormed(body) && f == Located(body)
    requires CombinedDecorate.LiteralsIn(body, f.decorates)
    requires |st.newSpv| == |body| && PlainWrites(body, st.newSpv)
    requires Grafted(body, st.wordInserts) && Anchored(body, st.instructionInserts)
    ensures r.Success? ==> WellFormed(r.value) && forall x :: x in Instructions(r.value, 0) ==> !IsTombstone(x)
    ensures r.Success? ==> |ins| >= |st.instructionInserts| && ins[..|st.instructionInserts|] == st.instructionInserts
    ensures r.Success? ==> Decorated(body, f, st, ins, sets) && Assembled(body, st.newSpv, st.wordInserts, ins, sets, r.value)
    ensures Proceeds(body, f, st) ==> r.Success?
  {
    var d := StageDecorations(body, f, st);
    if d.Failure? {
      return Failure(d.error), [], {};
    }
    ins, sets := d.value.inserts, d.value.descriptorSetsToCorrect;

    // Step 10.
    AnchoredEditsValid(body, st.newSpv, st.wordInserts, ins);
    var inserted := InsertNewInstructions(body, st.newSpv, st.wordInserts, ins);
    if inserted.Failure? {
      return Failure(inserted.error), ins, sets;
    }
    PlainWritesKeepShape(body, st.newSpv);
    IdealShaped(body, st.newSpv, Merge(st.wordInserts, ins));

    // Step 11.
    var corrected := CombinedBindings.CorrectSplitBindings(inserted.value, sets);
    if corrected.Failure? {
      return Failure(corrected.error), ins, sets;
    }
    CorrectionKeepsShape(inserted.value, corrected.value, sets);

    // Step 12.
    var pruned := PruneNoops(corrected.value);
    PruneLeavesNoTombstone(corrected.value);
    r := Success(pruned);
    assert CombinedBindings.TieCorrected(inserted.value, corrected.value, CorrectDecorate.Scan(inserted.value).value, sets);
  }

  /** Steps 2 to 12 on a body: the sampler ids and their insert after the
      last OpTypeVoid, the tombstoned samplers, the staging of steps 3 to
      8, the decorations, the edits, the fix-up and the pruning give
      `out`. */
  ghost predicate SplitInto(body: seq<u32>, bound: u32, out: seq<u32>)
    requires Admissible(body, bound)
  {
    exists t0, b, samplerId, pointerId, ins0, st, ins, sets ::
      SplitBy(body, bound, t0, b, samplerId, pointerId, ins0, st, ins, sets, out)
  }

  /** `SplitInto` with its parts given: the tombstoned body `t0`, step 2's
      bound `b`, ids and insert `ins0`, the staging `st`, the instruction
      inserts `ins` and the sets to correct `sets`. */
  ghost predicate SplitBy(body: seq<u32>, bound: u32, t0: seq<u32>, b: u32, samplerId: u32, pointerId: u32,
                          ins0: seq<InstructionInsert>, st: Staging, ins: seq<InstructionInsert>, sets: set<u32>, out: seq<u32>)
    requires Admissible(body, bound)
  {
    var f := Located(body);
    && StagedInputs(body, f) && f.typeVoid.Some? && (f.sampler.Some? ==> f.sampler.value + 1 < |body|)
    && b as int == bound as int + (if f.sampler.None? then 2 else 1)
    && samplerId == SamplerId(body, f, bound) && pointerId == PointerId(f, bound)
    && ins0 == [InstructionInsert(f.typeVoid.value, SamplerPair(body, f, bound))]
    && Tombstones(body, Offsets(body, 0, Opcode(OpTypeSampler)), t0)
    && StagedFrom(body, f, t0, b, samplerId, pointerId, ins0, st)
    && Decorated(body, f, st, ins, sets)
    && Assembled(body, st.newSpv, st.wordInserts, ins, sets, out)
  }

  /** The steps' results make a split of the body. */
  lemma SplitIntoBy(body: seq<u32>, bound: u32, t0: seq<u32>, b: u32, samplerId: u32, pointerId: u32,
                    ins0: seq<InstructionInsert>, st: Staging, ins: seq<InstructionInsert>, sets: set<u32>, out: seq<u32>)
    requires Admissible(body, bound) && SplitBy(body, bound, t0, b, samplerId, pointerId, ins0, st, ins, sets, out)
    ensures SplitInto(body, bound, out)
  {
  }

  /** What the pass needs of a body: its shape, its ids and its binding
      literals. */
  ghost predicate Admissible(body: seq<u32>, bound: u32)
  {
    Shaped(body) && WellFormed(body) && IdsFit(Located(body), bound)
    && CombinedDecorate.LiteralsIn(body, Located(body).decorates)
  }

  /** `combimgsampsplitter`: the header checks, the scan, the fast path
      for a module without OpTypeImage, the split, and the new header. */
  method CombImgSampSplitter(spv: seq<u32>) returns (r: Result<seq<u32>>)
    requires |spv| >= HeaderLength ==> Admissible(spv[HeaderLength..], spv[BoundOffset])
    ensures |spv| < HeaderLength ==> r == Failure(TruncatedHeader)
    ensures |spv| >= HeaderLength && spv[MagicOffset] != Magic ==> r == Failure(MagicMismatch)
    ensures |spv| >= HeaderLength && spv[MagicOffset] == Magic && Located(spv[HeaderLength..]).images == []
      ==> r == Success(spv)
    ensures (|spv| >= HeaderLength && spv[MagicOffset] == Magic && Located(spv[HeaderLength..]).images != []
             && Located(spv[HeaderLength..]).typeVoid.None?) ==> r == Failure(MissingTypeVoid)
    ensures (|spv| >= HeaderLength && Located(spv[HeaderLength..]).images != [] && r.Success?) ==>
      ModuleSplit(spv, r.value)
    ensures |spv| >= HeaderLength && spv[MagicOffset] == Magic ==> Promised(spv, r)
  {
    if |spv| < HeaderLength {
      return Failure(TruncatedHeader);
    }
    var bound := spv[BoundOffset];
    var header := spv[..HeaderLength];
    if spv[MagicOffset] != Magic {
      return Failure(MagicMismatch);
    }
    var body := spv[HeaderLength..];
    var f, t0 := ScanBody(body);
    if f.images == [] {
      return Success(spv);
    }
    var s := SplitScanned(body, f, t0, bound);
    if s.Failure? {
      return Failure(s.error);
    }
    r := FuseFinal(header, s.value.body, s.value.bound);
    RefittedBy(spv, body, bound, s.value, r.value);
    SplitIntoFused(spv, body, bound, s.value.body, r.value);
  }

  /** The pass succeeds on a module whose header checks pass whenever
      every check of the split passes. */
  ghost predicate Promised(spv: seq<u32>, r: Result<seq<u32>>)
    requires |spv| >= HeaderLength && Admissible(spv[HeaderLength..], spv[BoundOffset])
  {
    SplitProceeds(spv[HeaderLength..], spv[BoundOffset]) ==> r.Success?
  }

  /** The pass's output on a module with an OpTypeImage: the new header
      and a well-formed body without tombstones that is a split of the
      input's body. */
  ghost predicate ModuleSplit(spv: seq<u32>, out: seq<u32>)
    requires |spv| >= HeaderLength && Admissible(spv[HeaderLength..], spv[BoundOffset])
  {
    Refitted(spv, out) && SplitInto(spv[HeaderLength..], spv[BoundOffset], out[HeaderLength..])
  }

  /** The output's header keeps every word but the bound, which grows to
      `SplitBound`, and its body is well formed and free of tombstones. */
  ghost predicate Refitted(spv: seq<u32>, out: seq<u32>)
    requires |spv| >= HeaderLength && Admissible(spv[HeaderLength..], spv[BoundOffset])
  {
    var body := spv[HeaderLength..];
    && |out| >= HeaderLength && out[BoundOffset] > spv[BoundOffset]
    && out[BoundOffset] as int == SplitBound(body, Located(body), spv[BoundOffset])
    && (forall k :: 0 <= k < HeaderLength && k != BoundOffset ==> out[k] == spv[k])
    && WellFormed(out[HeaderLength..])
    && (forall ins :: ins in Instructions(out[HeaderLength..], 0) ==> !IsTombstone(ins))
  }

  /** The fused body and bound make the new header. */
  lemma RefittedBy(spv: seq<u32>, body: seq<u32>, bound: u32, s: Split, out: seq<u32>)
    requires |spv| >= HeaderLength && body == spv[HeaderLength..] && bound == spv[BoundOffset]
    requires Admissible(body, bound)
    requires WellFormed(s.body) && forall ins :: ins in Instructions(s.body, 0) ==> !IsTombstone(ins)
    requires s.bound as int == SplitBound(body, Located(body), bound)
    requires FuseFinal(spv[..HeaderLength], s.body, s.bound) == Success(out)
    ensures Refitted(spv, out) && |out| >= HeaderLength && out[HeaderLength..] == s.body
  {
  }

  /** A split of the body is a split of the module's body. */
  lemma SplitIntoFused(spv: seq<u32>, body: seq<u32>, bound: u32, out: seq<u32>, r: seq<u32>)
    requires |spv| >= HeaderLength && body == spv[HeaderLength..] && bound == spv[BoundOffset]
    requires Admissible(body, bound) && SplitInto(body, bound, out)
    requires |r| >= HeaderLength && r[HeaderLength..] == out
    ensures SplitInto(spv[HeaderLength..], spv[BoundOffset], r[HeaderLength..])
  {
  }
}
