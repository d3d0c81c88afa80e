/** The load step of the split pass: every load of a split image (a paired
    variable or a paired parameter) now loads the bare image under a fresh
    id, and right after it the sampler is loaded and recombined with the
    image under the load's original type and result id, so later uses of
    the combined value are untouched. */
module Load {
  import opened Spirv
  import opened Outcome
  import opened Layout
  import opened Search
  import opened Edits
  import opened Variable
  import opened FunctionParameter

  /** A load of a split image: the load's offset, the sampler to load with
      it and the image type it now loads. */
  datatype LoadMatch = LoadMatch(lIdx: nat, samplerId: u32, underlyingImageId: u32)

  /** What the step changes: the current body, the id bound and the staged
      instruction inserts. */
  datatype LoadStep = LoadStep(newSpv: seq<u32>, bound: u32, inserts: seq<InstructionInsert>)

  /** The load at `l` reads through a paired variable: the first one whose
      id is its pointer operand. */
  function VariableMatch(spv: seq<u32>, vRes: seq<VariableOut>, l: nat): Option<LoadMatch>
    requires l + 3 < |spv|
  {
    var pointer := spv[l + 3];
    match First(vRes, (v: VariableOut) => v.vResId == pointer)
    case None => None
    case Some(k) => Some(LoadMatch(l, vRes[k].newSamplerVResId, vRes[k].underlyingImageId))
  }

  /** The load at `l` reads through a paired parameter: the first one whose
      id is its pointer operand. */
  function ParameterMatch(spv: seq<u32>, ps: seq<FunctionParameterOut>, l: nat): Option<LoadMatch>
    requires l + 3 < |spv|
  {
    var pointer := spv[l + 3];
    match First(ps, (p: FunctionParameterOut) => p.imageParameterResId == pointer)
    case None => None
    case Some(k) => Some(LoadMatch(l, ps[k].samplerParameterResId, ps[k].underlyingImageId))
  }

  function VariablePick(spv: seq<u32>, vRes: seq<VariableOut>): nat --> Option<LoadMatch>
  {
    (l: nat) requires l + 3 < |spv| => VariableMatch(spv, vRes, l)
  }

  function ParameterPick(spv: seq<u32>, ps: seq<FunctionParameterOut>): nat --> Option<LoadMatch>
  {
    (l: nat) requires l + 3 < |spv| => ParameterMatch(spv, ps, l)
  }

  /** The loads through paired variables, in scan order, then the loads
      through paired parameters, in scan order. */
  function LoadMatches(spv: seq<u32>, ls: seq<nat>, vRes: seq<VariableOut>, ps: seq<FunctionParameterOut>): seq<LoadMatch>
    requires OperandsAt(spv, ls, 3)
  {
    FilterMap(ls, VariablePick(spv, vRes)) + FilterMap(ls, ParameterPick(spv, ps))
  }

  /** Every match names one of the listed loads. */
  predicate Listed(ls: seq<nat>, ms: seq<LoadMatch>)
  {
    forall i :: 0 <= i < |ms| ==> ms[i].lIdx in ls
  }

  /** Every match names a load whose operands are inside the body. */
  predicate LoadsIn(spv: seq<u32>, ms: seq<LoadMatch>)
  {
    forall i :: 0 <= i < |ms| ==> ms[i].lIdx + 3 < |spv|
  }

  /** Every load matched through a variable is a listed load reading
      through a paired variable, whose sampler and image type it carries. */
  lemma VariableMatchesSound(spv: seq<u32>, ls: seq<nat>, vRes: seq<VariableOut>)
    requires OperandsAt(spv, ls, 3)
    ensures LoadsIn(spv, FilterMap(ls, VariablePick(spv, vRes))) && Listed(ls, FilterMap(ls, VariablePick(spv, vRes)))
    ensures var vm := FilterMap(ls, VariablePick(spv, vRes));
      forall i :: 0 <= i < |vm| ==> (vm[i].lIdx in ls && vm[i].lIdx + 3 < |spv|
        && exists v :: v in vRes && v.vResId == spv[vm[i].lIdx + 3]
             && v.newSamplerVResId == vm[i].samplerId && v.underlyingImageId == vm[i].underlyingImageId)
  {
    var vm := FilterMap(ls, VariablePick(spv, vRes));
    var pos := FilterMapOrder(ls, VariablePick(spv, vRes));
    forall i | 0 <= i < |vm|
      ensures vm[i].lIdx in ls && vm[i].lIdx + 3 < |spv|
        && exists v :: v in vRes && v.vResId == spv[vm[i].lIdx + 3]
             && v.newSamplerVResId == vm[i].samplerId && v.underlyingImageId == vm[i].underlyingImageId
    {
      var l := ls[pos[i]];
      var pointer := spv[l + 3];
      var k := First(vRes, (v: VariableOut) => v.vResId == pointer).value;
      assert vm[i] == LoadMatch(l, vRes[k].newSamplerVResId, vRes[k].underlyingImageId);
      assert vRes[k] in vRes;
    }
  }

  /** Every listed load reading through a paired variable is matched. */
  lemma VariableMatchesComplete(spv: seq<u32>, ls: seq<nat>, vRes: seq<VariableOut>)
    requires OperandsAt(spv, ls, 3)
    ensures var vm := FilterMap(ls, VariablePick(spv, vRes));
      forall k :: 0 <= k < |ls| && (exists v :: v in vRes && v.vResId == spv[ls[k] + 3]) ==>
        exists i :: 0 <= i < |vm| && vm[i].lIdx == ls[k]
  {
    var vm := FilterMap(ls, VariablePick(spv, vRes));
    var pos := FilterMapOrder(ls, VariablePick(spv, vRes));
    forall k | 0 <= k < |ls| && (exists v :: v in vRes && v.vResId == spv[ls[k] + 3])
      ensures exists i :: 0 <= i < |vm| && vm[i].lIdx == ls[k]
    {
      var pointer := spv[ls[k] + 3];
      assert First(vRes, (v: VariableOut) => v.vResId == pointer).Some?;
      var j :| 0 <= j < |pos| && pos[j] == k;
      assert vm[j].lIdx == ls[k];
    }
  }

  /** Every load matched through a parameter is a listed load reading
      through a paired parameter, whose sampler and image type it carries. */
  lemma ParameterMatchesSound(spv: seq<u32>, ls: seq<nat>, ps: seq<FunctionParameterOut>)
    requires OperandsAt(spv, ls, 3)
    ensures LoadsIn(spv, FilterMap(ls, ParameterPick(spv, ps))) && Listed(ls, FilterMap(ls, ParameterPick(spv, ps)))
    ensures var pm := FilterMap(ls, ParameterPick(spv, ps));
      forall i :: 0 <= i < |pm| ==> (pm[i].lIdx in ls && pm[i].lIdx + 3 < |spv|
        && exists p :: p in ps && p.imageParameterResId == spv[pm[i].lIdx + 3]
             && p.samplerParameterResId == pm[i].samplerId && p.underlyingImageId == pm[i].underlyingImageId)
  {
    var pm := FilterMap(ls, ParameterPick(spv, ps));
    var pos := FilterMapOrder(ls, ParameterPick(spv, ps));
    forall i | 0 <= i < |pm|
      ensures pm[i].lIdx in ls && pm[i].lIdx + 3 < |spv|
        && exists p :: p in ps && p.imageParameterResId == spv[pm[i].lIdx + 3]
             && p.samplerParameterResId == pm[i].samplerId && p.underlyingImageId == pm[i].underlyingImageId
    {
      var l := ls[pos[i]];
      var pointer := spv[l + 3];
      var k := First(ps, (p: FunctionParameterOut) => p.imageParameterResId == pointer).value;
      assert pm[i] == LoadMatch(l, ps[k].samplerParameterResId, ps[k].underlyingImageId);
      assert ps[k] in ps;
    }
  }

  /** Every listed load reading through a paired parameter is matched. */
  lemma ParameterMatchesComplete(spv: seq<u32>, ls: seq<nat>, ps: seq<FunctionParameterOut>)
    requires OperandsAt(spv, ls, 3)
    ensures var pm := FilterMap(ls, ParameterPick(spv, ps));
      forall k :: 0 <= k < |ls| && (exists p :: p in ps && p.imageParameterResId == spv[ls[k] + 3]) ==>
        exists i :: 0 <= i < |pm| && pm[i].lIdx == ls[k]
  {
    var pm := FilterMap(ls, ParameterPick(spv, ps));
    var pos := FilterMapOrder(ls, ParameterPick(spv, ps));
    forall k | 0 <= k < |ls| && (exists p :: p in ps && p.imageParameterResId == spv[ls[k] + 3])
      ensures exists i :: 0 <= i < |pm| && pm[i].lIdx == ls[k]
    {
      var pointer := spv[ls[k] + 3];
      assert First(ps, (p: FunctionParameterOut) => p.imageParameterResId == pointer).Some?;
      var j :| 0 <= j < |pos| && pos[j] == k;
      assert pm[j].lIdx == ls[k];
    }
  }

  lemma MatchesIn(spv: seq<u32>, ls: seq<nat>, vRes: seq<VariableOut>, ps: seq<FunctionParameterOut>)
    requires OperandsAt(spv, ls, 3)
    ensures LoadsIn(spv, LoadMatches(spv, ls, vRes, ps)) && |LoadMatches(spv, ls, vRes, ps)| <= 2 * |ls|
    ensures Listed(ls, LoadMatches(spv, ls, vRes, ps))
  {
    var vm := FilterMap(ls, VariablePick(spv, vRes));
    var pm := FilterMap(ls, ParameterPick(spv, ps));
    VariableMatchesSound(spv, ls, vRes);
    ParameterMatchesSound(spv, ls, ps);
    LoadsInConcat(spv, vm, pm);
    var ms := vm + pm;
    forall i | 0 <= i < |ms| ensures ms[i].lIdx in ls {
      if i < |vm| {
        assert ms[i] == vm[i];
      } else {
        assert ms[i] == pm[i - |vm|];
      }
    }
  }

  // ---------------------------------------------------------------------
  // How many loads match

  /** How many of the loads read through a pointer whose id is one of `ids`. */
  function LoadsThrough(spv: seq<u32>, ls: seq<nat>, ids: set<u32>): nat
    requires OperandsAt(spv, ls, 3)
  {
    if |ls| == 0 then 0
    else
      var n := |ls| - 1;
      LoadsThrough(spv, ls[..n], ids) + if spv[ls[n] + 3] in ids then 1 else 0
  }

  /** A pick that picks exactly the loads through `ids` picks as many
      loads as `LoadsThrough` counts. */
  lemma {:induction false} PicksCounted(spv: seq<u32>, ls: seq<nat>, f: nat --> Option<LoadMatch>, ids: set<u32>)
    requires OperandsAt(spv, ls, 3)
    requires forall i :: 0 <= i < |ls| ==> f.requires(ls[i])
    requires forall i :: 0 <= i < |ls| ==> (f(ls[i]).Some? <==> spv[ls[i] + 3] in ids)
    ensures |FilterMap(ls, f)| == LoadsThrough(spv, ls, ids)
  {
    if |ls| > 0 {
      var n := |ls| - 1;
      PicksCounted(spv, ls[..n], f, ids);
    }
  }

  /** The loads matched through variables are those through the variables'
      ids, whatever their order. */
  lemma VariableLoadsCounted(spv: seq<u32>, ls: seq<nat>, vRes: seq<VariableOut>)
    requires OperandsAt(spv, ls, 3)
    ensures |FilterMap(ls, VariablePick(spv, vRes))| == LoadsThrough(spv, ls, set v | v in vRes :: v.vResId)
  {
    var ids := set v | v in vRes :: v.vResId;
    forall i | 0 <= i < |ls| ensures VariablePick(spv, vRes)(ls[i]).Some? <==> spv[ls[i] + 3] in ids {
      var pointer := spv[ls[i] + 3];
      if pointer in ids {
        var v :| v in vRes && v.vResId == pointer;
        var k :| 0 <= k < |vRes| && vRes[k] == v;
        assert First(vRes, (v: VariableOut) => v.vResId == pointer).Some?;
      }
    }
    PicksCounted(spv, ls, VariablePick(spv, vRes), ids);
  }

  /** The loads matched through parameters are those through the
      parameters' ids, whatever their order. */
  lemma ParameterLoadsCounted(spv: seq<u32>, ls: seq<nat>, ps: seq<FunctionParameterOut>)
    requires OperandsAt(spv, ls, 3)
    ensures |FilterMap(ls, ParameterPick(spv, ps))| == LoadsThrough(spv, ls, set p | p in ps :: p.imageParameterResId)
  {
    var ids := set p | p in ps :: p.imageParameterResId;
    forall i | 0 <= i < |ls| ensures ParameterPick(spv, ps)(ls[i]).Some? <==> spv[ls[i] + 3] in ids {
      var pointer := spv[ls[i] + 3];
      if pointer in ids {
        var p :| p in ps && p.imageParameterResId == pointer;
        var k :| 0 <= k < |ps| && ps[k] == p;
        assert First(ps, (p: FunctionParameterOut) => p.imageParameterResId == pointer).Some?;
      }
    }
    PicksCounted(spv, ls, ParameterPick(spv, ps), ids);
  }

  /** The number of matched loads: those through a paired variable plus
      those through a paired parameter. */
  lemma LoadMatchesCounted(spv: seq<u32>, ls: seq<nat>, vRes: seq<VariableOut>, ps: seq<FunctionParameterOut>)
    requires OperandsAt(spv, ls, 3)
    ensures |LoadMatches(spv, ls, vRes, ps)|
      == LoadsThrough(spv, ls, set v | v in vRes :: v.vResId) + LoadsThrough(spv, ls, set p | p in ps :: p.imageParameterResId)
  {
    VariableLoadsCounted(spv, ls, vRes);
    ParameterLoadsCounted(spv, ls, ps);
  }

  lemma LoadsInConcat(spv: seq<u32>, a: seq<LoadMatch>, b: seq<LoadMatch>)
    requires LoadsIn(spv, a) && LoadsIn(spv, b)
    ensures LoadsIn(spv, a + b)
  {
    forall i | 0 <= i < |a + b| ensures (a + b)[i].lIdx + 3 < |spv| {
      if i < |a| { assert (a + b)[i] == a[i]; } else { assert (a + b)[i] == b[i - |a|]; }
    }
  }

  /** The sampler load and the recombination staged after a load: load
      `sampler` as `samLoad` of the sampler type, then combine the image
      load `imgLoad` with it into the load's original result `comb` of its
      original type `combType`. */
  function Recombine(samplerType: u32, combType: u32, comb: u32, imgLoad: u32, samLoad: u32, sampler: u32): seq<u32>
  {
    [EncodeWord(4, OpLoad), samplerType, samLoad, sampler,
     EncodeWord(5, OpSampledImage), combType, comb, imgLoad, samLoad]
  }

  /** The step applied to the first `k` matches in order: the `i`-th draws
      the ids `bound + 2i` (image load) and `bound + 2i + 1` (sampler
      load). */
  function Rewrites(spv: seq<u32>, newSpv: seq<u32>, ms: seq<LoadMatch>, k: nat, samplerType: u32, bound: u32): (r: LoadStep)
    requires |newSpv| == |spv| && LoadsIn(spv, ms) && k <= |ms| && bound as int + 2 * |ms| <= MaxU32
    ensures |r.newSpv| == |spv| && r.bound as int == bound as int + 2 * k && |r.inserts| == k
  {
    if k == 0 then LoadStep(newSpv, bound, [])
    else RewriteOne(spv, Rewrites(spv, newSpv, ms, k - 1, samplerType, bound), ms[k - 1], samplerType)
  }

  /** One match applied to the step so far. */
  function RewriteOne(spv: seq<u32>, prev: LoadStep, m: LoadMatch, samplerType: u32): (r: LoadStep)
    requires |prev.newSpv| == |spv| && m.lIdx + 3 < |spv| && prev.bound as int + 2 <= MaxU32
  {
    var l := m.lIdx;
    var imgLoad := prev.bound;
    var samLoad := prev.bound + 1;
    var ins := Recombine(samplerType, prev.newSpv[l + 1], spv[l + 2], imgLoad, samLoad, m.samplerId);
    LoadStep(prev.newSpv[l + 1 := m.underlyingImageId][l + 2 := imgLoad], samLoad + 1,
             prev.inserts + [InstructionInsert(l, ins)])
  }

  /** No match before the `k`-th writes the word at `p`. */
  predicate Unwritten(ms: seq<LoadMatch>, k: nat, p: nat)
    requires k <= |ms|
  {
    forall i :: 0 <= i < k ==> p != ms[i].lIdx + 1 && p != ms[i].lIdx + 2
  }

  /** Matched loads are the same load or at least three words apart, as
      two loads of a well-formed body are. */
  predicate Apart(ms: seq<LoadMatch>)
  {
    forall i, j :: 0 <= i < |ms| && 0 <= j < |ms| ==>
      ms[i].lIdx == ms[j].lIdx || ms[i].lIdx + 3 <= ms[j].lIdx || ms[j].lIdx + 3 <= ms[i].lIdx
  }

  /** No match from the `i`-th to the `k`-th rewrites the `i`-th's load
      again. */
  predicate LastLoad(ms: seq<LoadMatch>, k: nat, i: nat)
    requires i < k <= |ms|
  {
    forall j :: i < j < k ==> ms[j].lIdx != ms[i].lIdx
  }

  /** Only the type and result words of matched loads change. */
  lemma {:induction false} RewritesFrame(spv: seq<u32>, newSpv: seq<u32>, ms: seq<LoadMatch>, k: nat, samplerType: u32, bound: u32)
    requires |newSpv| == |spv| && LoadsIn(spv, ms) && k <= |ms| && bound as int + 2 * |ms| <= MaxU32
    ensures var out := Rewrites(spv, newSpv, ms, k, samplerType, bound).newSpv;
      forall p :: 0 <= p < |spv| && Unwritten(ms, k, p) ==> out[p] == newSpv[p]
  {
    if k > 0 {
      RewritesFrame(spv, newSpv, ms, k - 1, samplerType, bound);
    }
  }

  /** A matched load ends up with the image type and the image-load id of
      its last match. */
  lemma RewritesLast(spv: seq<u32>, newSpv: seq<u32>, ms: seq<LoadMatch>, k: nat, samplerType: u32, bound: u32)
    requires |newSpv| == |spv| && LoadsIn(spv, ms) && k <= |ms| && bound as int + 2 * |ms| <= MaxU32 && Apart(ms)
    ensures var out := Rewrites(spv, newSpv, ms, k, samplerType, bound).newSpv;
      forall i :: 0 <= i < k && LastLoad(ms, k, i) ==>
        out[ms[i].lIdx + 1] == ms[i].underlyingImageId && out[ms[i].lIdx + 2] as int == bound as int + 2 * i
  {
    forall i | 0 <= i < k && LastLoad(ms, k, i)
      ensures var out := Rewrites(spv, newSpv, ms, k, samplerType, bound).newSpv;
        out[ms[i].lIdx + 1] == ms[i].underlyingImageId && out[ms[i].lIdx + 2] as int == bound as int + 2 * i
    {
      RewritesLastAt(spv, newSpv, ms, k, samplerType, bound, i);
    }
  }

  /** The same for one match. */
  lemma {:induction false} RewritesLastAt(spv: seq<u32>, newSpv: seq<u32>, ms: seq<LoadMatch>, k: nat, samplerType: u32, bound: u32, i: nat)
    requires |newSpv| == |spv| && LoadsIn(spv, ms) && k <= |ms| && bound as int + 2 * |ms| <= MaxU32 && Apart(ms)
    requires i < k && LastLoad(ms, k, i)
    ensures var out := Rewrites(spv, newSpv, ms, k, samplerType, bound).newSpv;
      out[ms[i].lIdx + 1] == ms[i].underlyingImageId && out[ms[i].lIdx + 2] as int == bound as int + 2 * i
  {
    var prev := Rewrites(spv, newSpv, ms, k - 1, samplerType, bound);
    var out := Rewrites(spv, newSpv, ms, k, samplerType, bound).newSpv;
    var m := ms[k - 1];
    assert out == prev.newSpv[m.lIdx + 1 := m.underlyingImageId][m.lIdx + 2 := prev.bound];
    if i < k - 1 {
      assert m.lIdx != ms[i].lIdx;
      assert m.lIdx + 3 <= ms[i].lIdx || ms[i].lIdx + 3 <= m.lIdx;
      assert LastLoad(ms, k - 1, i);
      RewritesLastAt(spv, newSpv, ms, k - 1, samplerType, bound, i);
      assert out[ms[i].lIdx + 1] == prev.newSpv[ms[i].lIdx + 1];
      assert out[ms[i].lIdx + 2] == prev.newSpv[ms[i].lIdx + 2];
    }
  }

  /** The `i`-th staged insert follows the `i`-th matched load: it loads the
      match's sampler as the fresh id `bound + 2i + 1` and recombines it
      with the image load `bound + 2i` under the load's original result id,
      taking the type the body holds at that point. */
  lemma RewritesInserts(spv: seq<u32>, newSpv: seq<u32>, ms: seq<LoadMatch>, k: nat, samplerType: u32, bound: u32)
    requires |newSpv| == |spv| && LoadsIn(spv, ms) && k <= |ms| && bound as int + 2 * |ms| <= MaxU32
    ensures var ins := Rewrites(spv, newSpv, ms, k, samplerType, bound).inserts;
      forall i :: 0 <= i < k ==> (
        ins[i].previousSpvIdx == ms[i].lIdx
        && |ins[i].instruction| == 9
        && ins[i].instruction == Recombine(samplerType, ins[i].instruction[5], spv[ms[i].lIdx + 2],
                                              bound + 2 * i as u32, bound + 2 * i as u32 + 1, ms[i].samplerId))
  {
    forall i | 0 <= i < k
      ensures var ins := Rewrites(spv, newSpv, ms, k, samplerType, bound).inserts;
        ins[i].previousSpvIdx == ms[i].lIdx && |ins[i].instruction| == 9
        && ins[i].instruction == Recombine(samplerType, ins[i].instruction[5], spv[ms[i].lIdx + 2],
                                              bound + 2 * i as u32, bound + 2 * i as u32 + 1, ms[i].samplerId)
    {
      RewritesInsertAt(spv, newSpv, ms, k, samplerType, bound, i);
    }
  }

  /** The same for one match. */
  lemma {:induction false} RewritesInsertAt(spv: seq<u32>, newSpv: seq<u32>, ms: seq<LoadMatch>, k: nat, samplerType: u32, bound: u32, i: nat)
    requires |newSpv| == |spv| && LoadsIn(spv, ms) && k <= |ms| && bound as int + 2 * |ms| <= MaxU32 && i < k
    ensures var ins := Rewrites(spv, newSpv, ms, k, samplerType, bound).inserts;
      ins[i].previousSpvIdx == ms[i].lIdx && |ins[i].instruction| == 9
      && ins[i].instruction == Recombine(samplerType, ins[i].instruction[5], spv[ms[i].lIdx + 2],
                                            bound + 2 * i as u32, bound + 2 * i as u32 + 1, ms[i].samplerId)
  {
    var prev := Rewrites(spv, newSpv, ms, k - 1, samplerType, bound);
    var ins := Rewrites(spv, newSpv, ms, k, samplerType, bound).inserts;
    assert ins == prev.inserts + [InstructionInsert(ms[k - 1].lIdx, Recombine(samplerType, prev.newSpv[ms[k - 1].lIdx + 1],
      spv[ms[k - 1].lIdx + 2], prev.bound, prev.bound + 1, ms[k - 1].samplerId))];
    if i < k - 1 {
      RewritesInsertAt(spv, newSpv, ms, k - 1, samplerType, bound, i);
      assert ins[i] == prev.inserts[i];
    } else {
      assert prev.bound == bound + 2 * i as u32;
    }
  }

  /** Staging more matches keeps the inserts already staged. */
  lemma {:induction false} RewritesPrefix(spv: seq<u32>, newSpv: seq<u32>, ms: seq<LoadMatch>, j: nat, k: nat, samplerType: u32, bound: u32)
    requires |newSpv| == |spv| && LoadsIn(spv, ms) && j <= k <= |ms| && bound as int + 2 * |ms| <= MaxU32
    ensures Rewrites(spv, newSpv, ms, j, samplerType, bound).inserts
         <= Rewrites(spv, newSpv, ms, k, samplerType, bound).inserts
    decreases k - j
  {
    if j < k {
      RewritesPrefix(spv, newSpv, ms, j, k - 1, samplerType, bound);
    }
  }

  /** No match before the `i`-th rewrites its load. */
  predicate FirstLoad(ms: seq<LoadMatch>, i: nat)
    requires i < |ms|
  {
    forall j :: 0 <= j < i ==> ms[j].lIdx != ms[i].lIdx
  }

  /** A load matched for the first time is recombined under the type it had
      before the step. */
  lemma RewritesKeepType(spv: seq<u32>, newSpv: seq<u32>, ms: seq<LoadMatch>, samplerType: u32, bound: u32, i: nat)
    requires |newSpv| == |spv| && LoadsIn(spv, ms) && bound as int + 2 * |ms| <= MaxU32 && Apart(ms)
    requires i < |ms| && FirstLoad(ms, i)
    ensures Rewrites(spv, newSpv, ms, |ms|, samplerType, bound).inserts[i].instruction
         == Recombine(samplerType, newSpv[ms[i].lIdx + 1], spv[ms[i].lIdx + 2],
                      bound + 2 * i as u32, bound + 2 * i as u32 + 1, ms[i].samplerId)
  {
    var m := ms[i];
    var prev := Rewrites(spv, newSpv, ms, i, samplerType, bound);
    var a := Rewrites(spv, newSpv, ms, i + 1, samplerType, bound).inserts;
    assert a == prev.inserts + [InstructionInsert(m.lIdx, Recombine(samplerType, prev.newSpv[m.lIdx + 1],
      spv[m.lIdx + 2], prev.bound, prev.bound + 1, m.samplerId))];
    RewritesFrame(spv, newSpv, ms, i, samplerType, bound);
    assert Unwritten(ms, i, m.lIdx + 1) by {
      forall j | 0 <= j < i ensures m.lIdx + 1 != ms[j].lIdx + 1 && m.lIdx + 1 != ms[j].lIdx + 2 {
        assert ms[j].lIdx != m.lIdx;
      }
    }
    assert prev.newSpv[m.lIdx + 1] == newSpv[m.lIdx + 1];
    RewritesPrefix(spv, newSpv, ms, i + 1, |ms|, samplerType, bound);
    assert a[i] == Rewrites(spv, newSpv, ms, |ms|, samplerType, bound).inserts[i];
  }

  /** Each staged block is a whole 4-word sampler load followed by a whole
      5-word recombination. */
  lemma RecombineShape(samplerType: u32, combType: u32, comb: u32, imgLoad: u32, samLoad: u32, sampler: u32)
    ensures WellFormed(Recombine(samplerType, combType, comb, imgLoad, samLoad, sampler))
  {
    var ins := Recombine(samplerType, combType, comb, imgLoad, samLoad, sampler);
    assert HiWord(ins[0]) == 4 && HiWord(ins[4]) == 5;
    assert WalksFrom(ins, 9);
    assert WalksFrom(ins, 4);
  }

  /** The loop body of the load step: one match rewrites its load in place
      and stages its recombination. */
  method RewriteMatch(spv: seq<u32>, cur0: seq<u32>, b0: u32, staged0: seq<InstructionInsert>, m: LoadMatch, samplerType: u32)
    returns (cur: seq<u32>, b: u32, staged: seq<InstructionInsert>)
    requires |cur0| == |spv| && m.lIdx + 3 < |spv| && b0 as int + 2 <= MaxU32
    ensures LoadStep(cur, b, staged) == RewriteOne(spv, LoadStep(cur0, b0, staged0), m, samplerType)
  {
    var l := m.lIdx;
    b := b0;
    var imgLoad := b;
    b := b + 1;
    var image := spv[l + 2];
    var comb := cur0[l + 1];
    cur := cur0[l + 1 := m.underlyingImageId];
    cur := cur[l + 2 := imgLoad];
    var samLoad := b;
    b := b + 1;
    staged := staged0 + [InstructionInsert(l, Recombine(samplerType, comb, image, imgLoad, samLoad, m.samplerId))];
  }

  /** Rewrites every load of a split image: two fresh ids per match. */
  method RewriteLoads(spv: seq<u32>, newSpv: seq<u32>, bound: u32, inserts: seq<InstructionInsert>,
                      samplerType: u32, ls: seq<nat>, vRes: seq<VariableOut>, ps: seq<FunctionParameterOut>)
    returns (r: LoadStep)
    requires OperandsAt(spv, ls, 3) && |newSpv| == |spv| && bound as int + 4 * |ls| <= MaxU32
    ensures var ms := LoadMatches(spv, ls, vRes, ps);
      LoadsIn(spv, ms) && |ms| <= 2 * |ls|
      && var w := Rewrites(spv, newSpv, ms, |ms|, samplerType, bound);
         r == LoadStep(w.newSpv, w.bound, inserts + w.inserts)
  {
    var vm := CollectPicks(ls, VariablePick(spv, vRes));
    var pm := CollectPicks(ls, ParameterPick(spv, ps));
    var ms := vm + pm;
    MatchesIn(spv, ls, vRes, ps);
    var cur: seq<u32> := newSpv;
    var b := bound;
    var staged: seq<InstructionInsert> := [];
    var j := 0;
    while j < |ms|
      invariant 0 <= j <= |ms|
      invariant Rewrites(spv, newSpv, ms, j, samplerType, bound) == LoadStep(cur, b, staged)
    {
      cur, b, staged := RewriteMatch(spv, cur, b, staged, ms[j], samplerType);
      j := j + 1;
    }
    r := LoadStep(cur, b, inserts + staged);
  }
}
