/** Interprocedural helpers: the walk back from an `OpFunctionParameter` to
    the `OpFunction` that owns it, the patch that gives a function one more
    parameter, and the trace of a parameter back through its call sites to
    the variables passed in. */
module UtilFunction {
  import opened Spirv
  import opened Outcome
  import opened Layout
  import opened Edits
  import opened Search

  /** A parameter's offset, the offset of its function and the 0-based
      position of the parameter in the function's parameter list. */
  datatype ParameterEntry = ParameterEntry(parameterIdx: nat, functionIdx: nat, parameterInstructionIdx: nat)

  // ---------------------------------------------------------------------
  // The walk back from a parameter, as written

  /** The walk from `idx`, having stepped over `param` parameters and, when
      `bumped`, having made the 2-word step that is meant to cross the
      `OpFunction`'s extra operands. */
  function BackFrom(spv: seq<u32>, p: nat, idx: nat, param: nat, bumped: bool): Result<ParameterEntry>
    decreases idx
  {
    if idx >= |spv| then Failure(OperandOutOfRange)
    else
      var op := spv[idx];
      if LoWord(op) == OpFunctionParameter then
        if HiWord(op) > idx then Failure(OffsetUnderflow)
        else if HiWord(op) == 0 then Failure(NoProgress)
        else BackFrom(spv, p, idx - HiWord(op), param + 1, bumped)
      else if LoWord(op) == OpFunction then
        if param == 0 then Failure(OffsetUnderflow)
        else Success(ParameterEntry(p, idx, param - 1))
      else if bumped then Failure(UnexpectedInstruction)
      else if idx < 2 then Failure(OffsetUnderflow)
      else BackFrom(spv, p, idx - 2, param, true)
  }

  /** `get_function_from_parameter`: steps back by the word count of each
      parameter met, makes one 2-word step over anything else, and stops at
      an `OpFunction`. */
  method GetFunctionFromParameter(spv: seq<u32>, p: nat) returns (r: Result<ParameterEntry>)
    ensures r == BackFrom(spv, p, p, 0, false)
  {
    var idx: nat := p;
    var param: nat := 0;
    var bumped := false;
    while true
      invariant BackFrom(spv, p, idx, param, bumped) == BackFrom(spv, p, p, 0, false)
      decreases idx
    {
      if idx >= |spv| {
        return Failure(OperandOutOfRange);
      }
      var op := spv[idx];
      var wordCount := HiWord(op);
      var instruction := LoWord(op);
      if instruction == OpFunctionParameter {
        if wordCount > idx {
          return Failure(OffsetUnderflow);
        }
        if wordCount == 0 {
          return Failure(NoProgress);
        }
        idx := idx - wordCount;
        param := param + 1;
      } else if instruction == OpFunction {
        if param == 0 {
          return Failure(OffsetUnderflow);
        }
        return Success(ParameterEntry(p, idx, param - 1));
      } else {
        if bumped {
          return Failure(UnexpectedInstruction);
        }
        if idx < 2 {
          return Failure(OffsetUnderflow);
        }
        idx := idx - 2;
        bumped := true;
      }
    }
  }

  /** A 5-word `OpFunction` at `f` followed by `n` 3-word parameters. */
  predicate FunctionRun(spv: seq<u32>, f: nat, n: nat)
  {
    f + 5 + 3 * n <= |spv| && spv[f] == EncodeWord(5, OpFunction)
    && forall j :: 0 <= j < n ==> spv[f + 5 + 3 * j] == EncodeWord(3, OpFunctionParameter)
  }

  /** Where the first parameter's back step lands: the function's result
      id, two words after its head. */
  function ResultWord(spv: seq<u32>, f: nat): u32
    requires f + 2 < |spv|
  {
    spv[f + 2]
  }

  /** The walk over the parameters before the `j`-th one. */
  lemma {:induction false} BackOverRun(spv: seq<u32>, f: nat, n: nat, p: nat, j: nat, c: nat)
    requires FunctionRun(spv, f, n) && j < n
    ensures BackFrom(spv, p, f + 5 + 3 * j, c, false) == BackFrom(spv, p, f + 2, c + j + 1, false)
    decreases j
  {
    var idx := f + 5 + 3 * j;
    assert spv[idx] == EncodeWord(3, OpFunctionParameter);
    assert HiWord(spv[idx]) == 3 && LoWord(spv[idx]) == OpFunctionParameter;
    if j > 0 {
      assert idx - 3 == f + 5 + 3 * (j - 1);
      BackOverRun(spv, f, n, p, j - 1, c + 1);
    }
  }

  /** When the function's result id does not itself read as an
      `OpFunction` or `OpFunctionParameter` head, the walk from the `j`-th
      parameter finds the function and the ordinal `j`. */
  lemma OwnerFound(spv: seq<u32>, f: nat, n: nat, j: nat)
    requires FunctionRun(spv, f, n) && j < n
    requires LoWord(ResultWord(spv, f)) != OpFunction && LoWord(ResultWord(spv, f)) != OpFunctionParameter
    ensures BackFrom(spv, f + 5 + 3 * j, f + 5 + 3 * j, 0, false) == Success(ParameterEntry(f + 5 + 3 * j, f, j))
  {
    var p := f + 5 + 3 * j;
    BackOverRun(spv, f, n, p, j, 0);
    assert LoWord(spv[f]) == OpFunction;
  }

  /** A function result id whose low half is the `OpFunction` opcode (the
      id 54, for one) stops the walk two words early: the entry names the
      result id's offset as the function. */
  lemma OwnerMisplaced(spv: seq<u32>, f: nat, n: nat, j: nat)
    requires FunctionRun(spv, f, n) && j < n
    requires LoWord(ResultWord(spv, f)) == OpFunction
    ensures BackFrom(spv, f + 5 + 3 * j, f + 5 + 3 * j, 0, false) == Success(ParameterEntry(f + 5 + 3 * j, f + 2, j))
  {
    BackOverRun(spv, f, n, f + 5 + 3 * j, j, 0);
  }

  /** A function result id below 0x1_0000 whose low half is the
      `OpFunctionParameter` opcode (the id 55) reads as a parameter of zero
      words: the loop of the source never ends there. */
  lemma OwnerStalls(spv: seq<u32>, f: nat, n: nat, j: nat)
    requires FunctionRun(spv, f, n) && j < n
    requires ResultWord(spv, f) == OpFunctionParameter as u32
    ensures BackFrom(spv, f + 5 + 3 * j, f + 5 + 3 * j, 0, false) == Failure(NoProgress)
  {
    BackOverRun(spv, f, n, f + 5 + 3 * j, j, 0);
  }

  /** The module words of one function `%54 = OpFunction %1 None %2` with
      one parameter `%4 = OpFunctionParameter %3`. */
  function FunctionFiftyFour(): seq<u32>
  {
    [EncodeWord(5, OpFunction), 1, 54, 0, 2, EncodeWord(3, OpFunctionParameter), 3, 4]
  }

  /** The input that shows it: the parameter at offset 5 belongs to the
      function at offset 0, yet the walk reports offset 2. */
  lemma FiftyFourMisplaced()
    ensures BackFrom(FunctionFiftyFour(), 5, 5, 0, false) == Success(ParameterEntry(5, 2, 0))
    ensures FunctionRun(FunctionFiftyFour(), 0, 1)
  {
    var spv := FunctionFiftyFour();
    assert FunctionRun(spv, 0, 1);
    OwnerMisplaced(spv, 0, 1, 0);
  }

  // ---------------------------------------------------------------------
  // The owner of a parameter, as intended

  /** Walking forward from `i` by word counts, with `run` the function and
      the count of parameters seen since it, while the instructions seen
      since the last `OpFunction` are all parameters. */
  function OwnerFrom(s: seq<u32>, i: nat, p: nat, run: Option<(nat, nat)>): Result<ParameterEntry>
    requires WalksFrom(s, i)
    decreases |s| - i
  {
    if i >= |s| || p < i then Failure(UnexpectedInstruction)
    else if i == p then
      if LoWord(s[p]) == OpFunctionParameter && run.Some? then Success(ParameterEntry(p, run.value.0, run.value.1))
      else Failure(UnexpectedInstruction)
    else
      var next :=
        if LoWord(s[i]) == OpFunction then Some((i, 0))
        else if LoWord(s[i]) == OpFunctionParameter && run.Some? then Some((run.value.0, run.value.1 + 1))
        else None;
      OwnerFrom(s, i + HiWord(s[i]), p, next)
  }

  /** The entry of the parameter at `p`: the last `OpFunction` before it
      and the number of parameters between, found by walking the module
      forward from its first instruction. */
  function OwnerOf(s: seq<u32>, p: nat): Result<ParameterEntry>
    requires WellFormed(s)
  {
    OwnerFrom(s, 0, p, None)
  }

  /** The forward walk crosses everything before the function unchanged. */
  lemma {:induction false} OwnerReaches(s: seq<u32>, i: nat, f: nat, p: nat, run: Option<(nat, nat)>)
    requires WalksFrom(s, i) && ReachesFrom(s, i, f) && f < p && f < |s| && LoWord(s[f]) == OpFunction
    requires WalksFrom(s, f) && 1 <= HiWord(s[f])
    ensures WalksFrom(s, f + HiWord(s[f]))
    ensures OwnerFrom(s, i, p, run) == OwnerFrom(s, f + HiWord(s[f]), p, Some((f, 0)))
    decreases |s| - i
  {
    if i != f {
      var next :=
        if LoWord(s[i]) == OpFunction then Some((i, 0))
        else if LoWord(s[i]) == OpFunctionParameter && run.Some? then Some((run.value.0, run.value.1 + 1))
        else None;
      OwnerReaches(s, i + HiWord(s[i]), f, p, next);
    }
  }

  /** Along the parameter run, the count is the number of parameters so far. */
  lemma {:induction false} OwnerAlongRun(s: seq<u32>, f: nat, n: nat, j: nat, k: nat)
    requires FunctionRun(s, f, n) && k <= j < n && WalksFrom(s, f + 5 + 3 * k)
    ensures OwnerFrom(s, f + 5 + 3 * k, f + 5 + 3 * j, Some((f, k))) == Success(ParameterEntry(f + 5 + 3 * j, f, j))
    decreases j - k
  {
    var i := f + 5 + 3 * k;
    assert s[i] == EncodeWord(3, OpFunctionParameter);
    assert HiWord(s[i]) == 3 && LoWord(s[i]) == OpFunctionParameter;
    if k < j {
      assert i + 3 == f + 5 + 3 * (k + 1);
      OwnerAlongRun(s, f, n, j, k + 1);
    }
  }

  /** The intended property: in a well-formed module, the `j`-th parameter
      of the function at head `f` has owner `f` and ordinal `j`, whatever
      the function's result id. */
  lemma OwnerOfRun(s: seq<u32>, f: nat, n: nat, j: nat)
    requires WellFormed(s) && IsHead(s, f) && FunctionRun(s, f, n) && j < n
    ensures OwnerOf(s, f + 5 + 3 * j) == Success(ParameterEntry(f + 5 + 3 * j, f, j))
  {
    WalkThroughHead(s, 0, f);
    assert HiWord(s[f]) == 5 && LoWord(s[f]) == OpFunction;
    OwnerReaches(s, 0, f, f + 5 + 3 * j, None);
    OwnerAlongRun(s, f, n, j, 0);
  }

  /** Where the source's walk is right, it agrees with the owner. */
  lemma BackAgrees(s: seq<u32>, f: nat, n: nat, j: nat)
    requires WellFormed(s) && IsHead(s, f) && FunctionRun(s, f, n) && j < n
    requires LoWord(ResultWord(s, f)) != OpFunction && LoWord(ResultWord(s, f)) != OpFunctionParameter
    ensures BackFrom(s, f + 5 + 3 * j, f + 5 + 3 * j, 0, false) == OwnerOf(s, f + 5 + 3 * j)
  {
    OwnerFound(s, f, n, j);
    OwnerOfRun(s, f, n, j);
  }

  /** The module of the example, with its header gone, is well formed, and
      the owner names the function at offset 0. */
  lemma FiftyFourOwned()
    ensures WellFormed(FunctionFiftyFour())
    ensures OwnerOf(FunctionFiftyFour(), 5) == Success(ParameterEntry(5, 0, 0))
  {
    var s := FunctionFiftyFour();
    assert HiWord(s[0]) == 5 && HiWord(s[5]) == 3;
    assert WalksFrom(s, 8);
    assert WalksFrom(s, 5);
    assert WellFormed(s);
    assert ReachesFrom(s, 0, 0);
    OwnerOfRun(s, 0, 1, 0);
  }

  // ---------------------------------------------------------------------
  // Giving a function one more parameter

  /** The 3-word `OpFunctionParameter` of type `ty` and result `id`. */
  function NewParameter(ty: u32, id: u32): seq<u32>
  {
    [EncodeWord(3, OpFunctionParameter), ty, id]
  }

  /** The edits `patch_function_type` stages, or the read past the end it
      panics on. */
  datatype Patch = Patch(instructionInserts: seq<InstructionInsert>, wordInserts: seq<WordInsert>)

  /** The instruction at `t` has result id `typeId`. */
  function HasTypeId(spv: seq<u32>, typeId: u32): nat --> bool
  {
    (t: nat) requires t + 1 < |spv| => spv[t + 1] == typeId
  }

  /** The first listed instruction with result id `typeId` is the `k`-th
      when none before it has that id and the `k`-th, if any, does. */
  lemma FirstTypeAt(spv: seq<u32>, tfs: seq<nat>, typeId: u32, k: nat)
    requires OperandsAt(spv, tfs, 1) && k <= |tfs|
    requires forall j :: 0 <= j < k ==> spv[tfs[j] + 1] != typeId
    requires k < |tfs| ==> spv[tfs[k] + 1] == typeId
    ensures First(tfs, HasTypeId(spv, typeId)) == if k < |tfs| then Some(k) else None
  {
    var p := HasTypeId(spv, typeId);
    if k < |tfs| {
      assert p(tfs[k]);
    }
    forall j | 0 <= j < k ensures !p(tfs[j]) {
    }
    FirstIs(tfs, p, k);
  }

  function PatchSpec(spv: seq<u32>, ii: seq<InstructionInsert>, wi: seq<WordInsert>, tfs: seq<nat>,
                     entry: ParameterEntry, newTypeId: u32, newParameterId: u32): Result<Patch>
    requires OperandsAt(spv, tfs, 1)
  {
    if entry.functionIdx + 4 >= |spv| then Failure(OperandOutOfRange)
    else
      var typeId := spv[entry.functionIdx + 4];
      var found := First(tfs, HasTypeId(spv, typeId));
      var wi' := if found.Some? then wi + [WordInsert(tfs[found.value] + 3 + entry.parameterInstructionIdx, newTypeId, tfs[found.value])] else wi;
      Success(Patch(ii + [InstructionInsert(entry.parameterIdx, NewParameter(newTypeId, newParameterId))], wi'))
  }

  /** The staged edits when the `k`-th listed type, if any, is the first
      with the function's type id. */
  lemma PatchSpecAt(spv: seq<u32>, ii: seq<InstructionInsert>, wi: seq<WordInsert>, tfs: seq<nat>,
                    entry: ParameterEntry, newTypeId: u32, newParameterId: u32, typeId: u32, k: nat, wi': seq<WordInsert>)
    requires OperandsAt(spv, tfs, 1) && entry.functionIdx + 4 < |spv| && typeId == spv[entry.functionIdx + 4]
    requires k <= |tfs| && forall j :: 0 <= j < k ==> spv[tfs[j] + 1] != typeId
    requires k < |tfs| ==>
      spv[tfs[k] + 1] == typeId && wi' == wi + [WordInsert(tfs[k] + 3 + entry.parameterInstructionIdx, newTypeId, tfs[k])]
    requires k == |tfs| ==> wi' == wi
    ensures PatchSpec(spv, ii, wi, tfs, entry, newTypeId, newParameterId)
      == Success(Patch(ii + [InstructionInsert(entry.parameterIdx, NewParameter(newTypeId, newParameterId))], wi'))
  {
    FirstTypeAt(spv, tfs, typeId, k);
  }

  /** `patch_function_type`: a word insert into the first `OpTypeFunction`
      whose result id is the function's type (operand 4 of its
      `OpFunction`), after the parameter type at the entry's ordinal, and
      the new parameter after the entry's parameter. */
  method PatchFunctionType(spv: seq<u32>, ii: seq<InstructionInsert>, wi: seq<WordInsert>, tfs: seq<nat>,
                           entry: ParameterEntry, newTypeId: u32, newParameterId: u32)
    returns (r: Result<Patch>)
    requires OperandsAt(spv, tfs, 1)
    ensures r == PatchSpec(spv, ii, wi, tfs, entry, newTypeId, newParameterId)
  {
    if entry.functionIdx + 4 >= |spv| {
      return Failure(OperandOutOfRange);
    }
    var typeId := spv[entry.functionIdx + 4];
    var wi' := wi;
    var k := 0;
    while k < |tfs|
      invariant k <= |tfs| && forall j :: 0 <= j < k ==> spv[tfs[j] + 1] != typeId
    {
      if spv[tfs[k] + 1] == typeId {
        wi' := wi + [WordInsert(tfs[k] + 3 + entry.parameterInstructionIdx, newTypeId, tfs[k])];
        break;
      }
      k := k + 1;
    }
    PatchSpecAt(spv, ii, wi, tfs, entry, newTypeId, newParameterId, typeId, k, wi');
    r := Success(Patch(ii + [InstructionInsert(entry.parameterIdx, NewParameter(newTypeId, newParameterId))], wi'));
  }

  /** The staged edits: the old ones kept, the parameter always added after
      the entry's parameter, and the word insert present exactly when some
      listed type has the function's type id, placed in the first such. */
  lemma PatchMeaning(spv: seq<u32>, ii: seq<InstructionInsert>, wi: seq<WordInsert>, tfs: seq<nat>,
                     entry: ParameterEntry, newTypeId: u32, newParameterId: u32)
    requires OperandsAt(spv, tfs, 1) && entry.functionIdx + 4 < |spv|
    ensures var r := PatchSpec(spv, ii, wi, tfs, entry, newTypeId, newParameterId);
      r.Success? && r.value.instructionInserts == ii + [InstructionInsert(entry.parameterIdx, NewParameter(newTypeId, newParameterId))]
    ensures var r := PatchSpec(spv, ii, wi, tfs, entry, newTypeId, newParameterId).value;
      (r.wordInserts == wi <==> forall k :: 0 <= k < |tfs| ==> spv[tfs[k] + 1] != spv[entry.functionIdx + 4])
    ensures var r := PatchSpec(spv, ii, wi, tfs, entry, newTypeId, newParameterId).value;
      r.wordInserts != wi ==>
        exists k :: 0 <= k < |tfs| && spv[tfs[k] + 1] == spv[entry.functionIdx + 4]
          && (forall j :: 0 <= j < k ==> spv[tfs[j] + 1] != spv[entry.functionIdx + 4])
          && r.wordInserts == wi + [WordInsert(tfs[k] + 3 + entry.parameterInstructionIdx, newTypeId, tfs[k])]
  {
  }

  /** Both staged edits are ones the edit engine accepts when the type
      function at the chosen head has a parameter type at the entry's
      ordinal and the entry's parameter is an instruction head. */
  lemma PatchValid(spv: seq<u32>, ii: seq<InstructionInsert>, wi: seq<WordInsert>, tfs: seq<nat>,
                   entry: ParameterEntry, newTypeId: u32, newParameterId: u32)
    requires OperandsAt(spv, tfs, 1) && entry.functionIdx + 4 < |spv|
    requires forall k :: 0 <= k < |tfs| ==> IsHead(spv, tfs[k]) && 3 + entry.parameterInstructionIdx < HiWord(spv[tfs[k]])
    requires IsHead(spv, entry.parameterIdx)
    ensures var r := PatchSpec(spv, ii, wi, tfs, entry, newTypeId, newParameterId).value;
      forall x :: x in r.wordInserts[|wi|..] ==> InsertValid(spv, Word(x))
    ensures var r := PatchSpec(spv, ii, wi, tfs, entry, newTypeId, newParameterId).value;
      InsertValid(spv, Instruction(r.instructionInserts[|ii|]))
  {
    PatchMeaning(spv, ii, wi, tfs, entry, newTypeId, newParameterId);
  }

  // ---------------------------------------------------------------------
  // Removing adjacent duplicates

  /** `Vec::dedup`: each run of equal neighbours becomes one element. */
  function Dedup<T(==)>(xs: seq<T>): (r: seq<T>)
    ensures |r| <= |xs|
    ensures |xs| > 0 ==> |r| > 0 && r[|r| - 1] == xs[|xs| - 1]
  {
    if |xs| <= 1 then xs
    else
      var init := Dedup(xs[..|xs| - 1]);
      if xs[|xs| - 1] == xs[|xs| - 2] then init else init + [xs[|xs| - 1]]
  }

  predicate NoAdjacentDuplicates<T(==)>(xs: seq<T>)
  {
    forall i :: 0 < i < |xs| ==> xs[i] != xs[i - 1]
  }

  /** No two neighbours of the result are equal, and it holds the same
      elements. */
  lemma {:induction false} DedupMeaning<T>(xs: seq<T>)
    ensures NoAdjacentDuplicates(Dedup(xs))
    ensures forall x :: x in Dedup(xs) <==> x in xs
  {
    if |xs| > 1 {
      var init := xs[..|xs| - 1];
      DedupMeaning(init);
      assert xs == init + [xs[|xs| - 1]];
      assert xs[|xs| - 2] == init[|init| - 1];
    }
  }

  /** A sequence with no equal neighbours is left as it is, so `dedup` is
      idempotent. */
  lemma {:induction false} DedupKeeps<T>(xs: seq<T>)
    requires NoAdjacentDuplicates(xs)
    ensures Dedup(xs) == xs
  {
    if |xs| > 1 {
      var init := xs[..|xs| - 1];
      assert NoAdjacentDuplicates(init);
      DedupKeeps(init);
      assert xs[|xs| - 1] != xs[|xs| - 2];
      assert xs == init + [xs[|xs| - 1]];
    }
  }

  lemma DedupIdempotent<T>(xs: seq<T>)
    ensures Dedup(Dedup(xs)) == Dedup(xs)
  {
    DedupMeaning(xs);
    DedupKeeps(Dedup(xs));
  }

  /** Only neighbours are merged: a repeat further apart stays. */
  lemma DedupOnlyAdjacent()
    ensures Dedup([1, 2, 1]) == [1, 2, 1]
  {
    assert [1, 2, 1][..2] == [1, 2];
    assert [1, 2][..1] == [1];
  }

  /** `Vec::dedup` in place. */
  method DedupInPlace<T(==)>(xs: seq<T>) returns (r: seq<T>)
    ensures r == Dedup(xs)
  {
    if |xs| == 0 {
      return [];
    }
    r := [xs[0]];
    var k := 1;
    assert xs[..1] == [xs[0]];
    while k < |xs|
      invariant 1 <= k <= |xs| && r == Dedup(xs[..k])
    {
      var next := xs[..k + 1];
      assert next[..k] == xs[..k];
      assert next[k] == xs[k] && next[k - 1] == xs[k - 1];
      if xs[k] != xs[k - 1] {
        r := r + [xs[k]];
      }
      k := k + 1;
    }
    assert xs[..k] == xs;
  }

  // ---------------------------------------------------------------------
  // Tracing a parameter back to variables

  /** The offsets the trace reads: `OpVariable`s, `OpFunctionParameter`s and
      `OpFunctionCall`s of a well-formed module. */
  datatype TraceIn = TraceIn(spv: seq<u32>, variables: seq<nat>, parameters: seq<nat>, calls: seq<nat>)

  predicate TraceReady(t: TraceIn)
  {
    WellFormed(t.spv) && OperandsAt(t.spv, t.variables, 2) && OperandsAt(t.spv, t.parameters, 2)
    && OperandsAt(t.spv, t.calls, 3)
  }

  /** A recorded call site: the call's offset and the entry of the
      parameter it feeds. */
  type Call = (nat, ParameterEntry)

  /** The first parameter from `k` on whose result id is `id`, its owner
      found by the walk back of `get_function_from_parameter`, as written,
      for every parameter the search passes, as the eager `then_some`
      does. */
  function ParameterFind(t: TraceIn, id: u32, k: nat): Result<Option<ParameterEntry>>
    requires TraceReady(t) && k <= |t.parameters|
    decreases |t.parameters| - k
  {
    if k == |t.parameters| then Success(None)
    else
      var e := BackFrom(t.spv, t.parameters[k], t.parameters[k], 0, false);
      if e.Failure? then Failure(e.error)
      else if t.spv[t.parameters[k] + 2] == id then Success(Some(e.value))
      else ParameterFind(t, id, k + 1)
  }

  /** The variables an id resolves to, and the call sites recorded on
      the way: a variable with that result id wins, else a parameter is
      traced on through its own call sites, else the id is dropped. The
      parameter search runs in every case, as `Option::or` evaluates its
      argument. */
  function Resolve(t: TraceIn, fuel: nat, id: u32, traced: seq<Call>): Result<(Option<seq<nat>>, seq<Call>)>
    requires TraceReady(t)
    decreases fuel, 0, 0
  {
    var v := First(t.variables, (x: nat) requires x + 2 < |t.spv| => t.spv[x + 2] == id);
    var pf := ParameterFind(t, id, 0);
    if pf.Failure? then Failure(pf.error)
    else if v.Some? then Success((Some([t.variables[v.value]]), traced))
    else if pf.value.None? then Success((None, traced))
    else if fuel == 0 then Failure(TraceTooDeep)
    else
      match TraceFrom(t, fuel - 1, pf.value.value, 0, [], traced)
      case Failure(e) => Failure(e)
      case Success(out) => Success((Some(out.0), out.1))
  }

  /** The calls from the `k`-th on: those whose callee is the entry's
      function are recorded and their argument at the entry's ordinal is
      resolved; at the end both lists lose adjacent duplicates. */
  function TraceFrom(t: TraceIn, fuel: nat, entry: ParameterEntry, k: nat, vars: seq<nat>, traced: seq<Call>)
    : Result<(seq<nat>, seq<Call>)>
    requires TraceReady(t) && k <= |t.calls|
    decreases fuel, 1, |t.calls| - k
  {
    if k == |t.calls| then Success((Dedup(vars), Dedup(traced)))
    else if entry.functionIdx + 2 >= |t.spv| then Failure(OperandOutOfRange)
    else
      var c := t.calls[k];
      if t.spv[c + 3] != t.spv[entry.functionIdx + 2] then TraceFrom(t, fuel, entry, k + 1, vars, traced)
      else if c + 4 + entry.parameterInstructionIdx >= |t.spv| then Failure(OperandOutOfRange)
      else
        match Resolve(t, fuel, t.spv[c + 4 + entry.parameterInstructionIdx], traced + [(c, entry)])
        case Failure(e) => Failure(e)
        case Success(res) =>
          TraceFrom(t, fuel, entry, k + 1, if res.0.Some? then vars + res.0.value else vars, res.1)
  }

  method FindParameter(t: TraceIn, id: u32) returns (r: Result<Option<ParameterEntry>>)
    requires TraceReady(t)
    ensures r == ParameterFind(t, id, 0)
  {
    var k := |t.parameters|;
    r := Success(None);
    while k > 0
      invariant 0 <= k <= |t.parameters| && r == ParameterFind(t, id, k)
    {
      k := k - 1;
      var e := GetFunctionFromParameter(t.spv, t.parameters[k]);
      if e.Failure? {
        r := Failure(e.error);
      } else if t.spv[t.parameters[k] + 2] == id {
        r := Success(Some(e.value));
      }
    }
  }

  /** `trace_function_argument_to_variables_inner`. */
  method TraceInner(t: TraceIn, fuel: nat, id: u32, traced: seq<Call>) returns (r: Result<(Option<seq<nat>>, seq<Call>)>)
    requires TraceReady(t)
    ensures r == Resolve(t, fuel, id, traced)
    decreases fuel, 0
  {
    var v := First(t.variables, (x: nat) requires x + 2 < |t.spv| => t.spv[x + 2] == id);
    var pf := FindParameter(t, id);
    if pf.Failure? {
      return Failure(pf.error);
    }
    if v.Some? {
      return Success((Some([t.variables[v.value]]), traced));
    }
    if pf.value.None? {
      return Success((None, traced));
    }
    if fuel == 0 {
      return Failure(TraceTooDeep);
    }
    var out := Trace(t, fuel - 1, pf.value.value, traced);
    match out
    case Failure(e) => r := Failure(e);
    case Success(o) => r := Success((Some(o.0), o.1));
  }

  /** `trace_function_argument_to_variables`: the loop over the calls,
      appending to the variables and to the shared list of traced calls,
      then `dedup` on both. */
  method Trace(t: TraceIn, fuel: nat, entry: ParameterEntry, traced: seq<Call>) returns (r: Result<(seq<nat>, seq<Call>)>)
    requires TraceReady(t)
    ensures r == TraceFrom(t, fuel, entry, 0, [], traced)
    decreases fuel, 1
  {
    var vars: seq<nat> := [];
    var acc := traced;
    var k := 0;
    while k < |t.calls|
      invariant k <= |t.calls|
      invariant TraceFrom(t, fuel, entry, k, vars, acc) == TraceFrom(t, fuel, entry, 0, [], traced)
    {
      if entry.functionIdx + 2 >= |t.spv| {
        return Failure(OperandOutOfRange);
      }
      var c := t.calls[k];
      if t.spv[c + 3] == t.spv[entry.functionIdx + 2] {
        if c + 4 + entry.parameterInstructionIdx >= |t.spv| {
          return Failure(OperandOutOfRange);
        }
        var res := TraceInner(t, fuel, t.spv[c + 4 + entry.parameterInstructionIdx], acc + [(c, entry)]);
        if res.Failure? {
          return Failure(res.error);
        }
        if res.value.0.Some? {
          vars := vars + res.value.0.value;
        }
        acc := res.value.1;
      }
      k := k + 1;
    }
    vars := DedupInPlace(vars);
    acc := DedupInPlace(acc);
    r := Success((vars, acc));
  }

  // ---------------------------------------------------------------------
  // What the trace finds

  /** A call recorded by the trace: a listed call whose callee (operand 3)
      is the result id of its entry's function. */
  predicate Recorded(t: TraceIn, x: Call)
  {
    x.0 in t.calls && x.0 + 3 < |t.spv| && x.1.functionIdx + 2 < |t.spv| && t.spv[x.0 + 3] == t.spv[x.1.functionIdx + 2]
  }

  lemma {:induction false} ResolveFinds(t: TraceIn, fuel: nat, id: u32, traced: seq<Call>)
    requires TraceReady(t)
    requires Resolve(t, fuel, id, traced).Success?
    ensures var res := Resolve(t, fuel, id, traced).value;
      res.0.Some? ==> forall i :: 0 <= i < |res.0.value| ==> res.0.value[i] in t.variables
    ensures var res := Resolve(t, fuel, id, traced).value;
      (forall x :: x in traced ==> x in res.1)
      && forall x :: x in res.1 && x !in traced ==> Recorded(t, x)
    decreases fuel, 0, 0
  {
    var v := First(t.variables, (x: nat) requires x + 2 < |t.spv| => t.spv[x + 2] == id);
    var pf := ParameterFind(t, id, 0);
    if v.None? && pf.value.Some? {
      TraceFinds(t, fuel - 1, pf.value.value, 0, [], traced);
    }
  }

  lemma {:induction false} TraceFinds(t: TraceIn, fuel: nat, entry: ParameterEntry, k: nat, vars: seq<nat>, traced: seq<Call>)
    requires TraceReady(t) && k <= |t.calls|
    requires TraceFrom(t, fuel, entry, k, vars, traced).Success?
    ensures var out := TraceFrom(t, fuel, entry, k, vars, traced).value;
      (forall i :: 0 <= i < |vars| ==> vars[i] in t.variables) ==>
        forall i :: 0 <= i < |out.0| ==> out.0[i] in t.variables
    ensures var out := TraceFrom(t, fuel, entry, k, vars, traced).value;
      (forall x :: x in traced ==> x in out.1)
      && forall x :: x in out.1 && x !in traced ==> Recorded(t, x)
    decreases fuel, 1, |t.calls| - k
  {
    if k == |t.calls| {
      DedupMeaning(vars);
      DedupMeaning(traced);
      var out := Dedup(vars);
      forall i | 0 <= i < |out| && (forall j :: 0 <= j < |vars| ==> vars[j] in t.variables) ensures out[i] in t.variables {
        assert out[i] in vars;
      }
    } else {
      var c := t.calls[k];
      if t.spv[c + 3] != t.spv[entry.functionIdx + 2] {
        TraceFinds(t, fuel, entry, k + 1, vars, traced);
      } else {
        var traced' := traced + [(c, entry)];
        var id := t.spv[c + 4 + entry.parameterInstructionIdx];
        ResolveFinds(t, fuel, id, traced');
        var res := Resolve(t, fuel, id, traced').value;
        var vars' := if res.0.Some? then vars + res.0.value else vars;
        assert Recorded(t, (c, entry));
        TraceFinds(t, fuel, entry, k + 1, vars', res.1);
      }
    }
  }

  /** The trace from an entry returns only variable offsets, each list free
      of adjacent duplicates, keeps every call traced before, and adds only
      calls to the entry's function or to functions reached through it; and
      every call to the entry's function is recorded with the entry. */
  lemma TraceMeaning(t: TraceIn, fuel: nat, entry: ParameterEntry, traced: seq<Call>)
    requires TraceReady(t)
    requires TraceFrom(t, fuel, entry, 0, [], traced).Success?
    ensures var out := TraceFrom(t, fuel, entry, 0, [], traced).value;
      (forall i :: 0 <= i < |out.0| ==> out.0[i] in t.variables)
      && NoAdjacentDuplicates(out.0) && NoAdjacentDuplicates(out.1)
    ensures var out := TraceFrom(t, fuel, entry, 0, [], traced).value;
      (forall x :: x in traced ==> x in out.1)
      && forall x :: x in out.1 && x !in traced ==> Recorded(t, x)
    ensures var out := TraceFrom(t, fuel, entry, 0, [], traced).value;
      forall k :: 0 <= k < |t.calls| && t.spv[t.calls[k] + 3] == t.spv[entry.functionIdx + 2] ==> (t.calls[k], entry) in out.1
  {
    TraceFinds(t, fuel, entry, 0, [], traced);
    TraceDedups(t, fuel, entry, 0, [], traced);
    TraceRecords(t, fuel, entry, 0, [], traced);
  }

  lemma {:induction false} TraceDedups(t: TraceIn, fuel: nat, entry: ParameterEntry, k: nat, vars: seq<nat>, traced: seq<Call>)
    requires TraceReady(t) && k <= |t.calls|
    requires TraceFrom(t, fuel, entry, k, vars, traced).Success?
    ensures var out := TraceFrom(t, fuel, entry, k, vars, traced).value;
      NoAdjacentDuplicates(out.0) && NoAdjacentDuplicates(out.1)
    decreases |t.calls| - k
  {
    if k == |t.calls| {
      DedupMeaning(vars);
      DedupMeaning(traced);
    } else {
      var c := t.calls[k];
      if t.spv[c + 3] != t.spv[entry.functionIdx + 2] {
        TraceDedups(t, fuel, entry, k + 1, vars, traced);
      } else {
        var res := Resolve(t, fuel, t.spv[c + 4 + entry.parameterInstructionIdx], traced + [(c, entry)]).value;
        TraceDedups(t, fuel, entry, k + 1, if res.0.Some? then vars + res.0.value else vars, res.1);
      }
    }
  }

  /** Every call from the `k`-th on to the entry's function is recorded. */
  lemma {:induction false} TraceRecords(t: TraceIn, fuel: nat, entry: ParameterEntry, k: nat, vars: seq<nat>, traced: seq<Call>)
    requires TraceReady(t) && k <= |t.calls|
    requires TraceFrom(t, fuel, entry, k, vars, traced).Success?
    ensures var out := TraceFrom(t, fuel, entry, k, vars, traced).value;
      forall j :: k <= j < |t.calls| && t.spv[t.calls[j] + 3] == t.spv[entry.functionIdx + 2] ==> (t.calls[j], entry) in out.1
    decreases |t.calls| - k
  {
    if k < |t.calls| {
      var c := t.calls[k];
      if t.spv[c + 3] != t.spv[entry.functionIdx + 2] {
        TraceRecords(t, fuel, entry, k + 1, vars, traced);
      } else {
        var traced' := traced + [(c, entry)];
        var id := t.spv[c + 4 + entry.parameterInstructionIdx];
        ResolveFinds(t, fuel, id, traced');
        var res := Resolve(t, fuel, id, traced').value;
        var vars' := if res.0.Some? then vars + res.0.value else vars;
        assert (c, entry) in res.1;
        TraceRecords(t, fuel, entry, k + 1, vars', res.1);
        TraceFinds(t, fuel, entry, k + 1, vars', res.1);
      }
    }
  }

  /** The resolution of an id: a variable with that result id gives the
      first such variable; with none, an id without a parameter either is
      dropped. */
  lemma ResolveMeaning(t: TraceIn, fuel: nat, id: u32, traced: seq<Call>)
    requires TraceReady(t)
    requires Resolve(t, fuel, id, traced).Success?
    ensures var res := Resolve(t, fuel, id, traced).value;
      (exists i :: 0 <= i < |t.variables| && t.spv[t.variables[i] + 2] == id) ==>
        exists i :: 0 <= i < |t.variables| && t.spv[t.variables[i] + 2] == id
          && (forall j :: 0 <= j < i ==> t.spv[t.variables[j] + 2] != id)
          && res == (Some([t.variables[i]]), traced)
    ensures var res := Resolve(t, fuel, id, traced).value;
      (forall i :: 0 <= i < |t.variables| ==> t.spv[t.variables[i] + 2] != id)
      && (forall i :: 0 <= i < |t.parameters| ==> t.spv[t.parameters[i] + 2] != id) ==>
        res == (None, traced)
  {
    var pf := ParameterFind(t, id, 0);
    if forall i :: 0 <= i < |t.parameters| ==> t.spv[t.parameters[i] + 2] != id {
      ParameterFindNone(t, id, 0);
    }
  }

  lemma {:induction false} ParameterFindNone(t: TraceIn, id: u32, k: nat)
    requires TraceReady(t) && k <= |t.parameters|
    requires forall i :: k <= i < |t.parameters| ==> t.spv[t.parameters[i] + 2] != id
    requires ParameterFind(t, id, k).Success?
    ensures ParameterFind(t, id, k) == Success(None)
    decreases |t.parameters| - k
  {
    if k < |t.parameters| {
      ParameterFindNone(t, id, k + 1);
    }
  }
}
