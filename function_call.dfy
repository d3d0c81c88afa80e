/** The function-call step of the split pass: every argument slot of a
    function call that passes a split image (a paired parameter or a paired
    variable) gets the matching sampler passed right after it. */
module FunctionCall {
  import opened Spirv
  import opened Edits
  import opened Slots
  import opened Variable
  import opened FunctionParameter

  /** The (image, sampler) id pairs of the paired parameters. */
  function ParameterPairs(ps: seq<FunctionParameterOut>): (r: seq<(u32, u32)>)
    ensures |r| == |ps|
  {
    seq(|ps|, i requires 0 <= i < |ps| => (ps[i].imageParameterResId, ps[i].samplerParameterResId))
  }

  /** The (image, sampler) id pairs of the paired variables. */
  function VariablePairs(vRes: seq<VariableOut>): (r: seq<(u32, u32)>)
    ensures |r| == |vRes|
  {
    seq(|vRes|, i requires 0 <= i < |vRes| => (vRes[i].vResId, vRes[i].newSamplerVResId))
  }

  /** The parameters' pairs first, then the variables'. */
  function CallPairs(vRes: seq<VariableOut>, ps: seq<FunctionParameterOut>): seq<(u32, u32)>
  {
    ParameterPairs(ps) + VariablePairs(vRes)
  }

  /** The word inserts of the step, call by call, pair by pair, slot by
      slot. */
  function FunctionCallInserts(spv: seq<u32>, fcs: seq<nat>, vRes: seq<VariableOut>, ps: seq<FunctionParameterOut>): seq<WordInsert>
    requires OperandRuns(spv, fcs, 4)
  {
    SlotInserts(spv, fcs, 4, CallPairs(vRes, ps))
  }

  /** The split image `id` has sampler `sampler`: a paired parameter or a
      paired variable says so. */
  predicate SplitInto(vRes: seq<VariableOut>, ps: seq<FunctionParameterOut>, id: u32, sampler: u32)
  {
    (exists p :: p in ps && p.imageParameterResId == id && p.samplerParameterResId == sampler)
    || (exists v :: v in vRes && v.vResId == id && v.newSamplerVResId == sampler)
  }

  /** An insert is staged exactly for each argument slot (from the fifth word
      on) of a listed call that holds a split image, and it passes that
      image's sampler after it. */
  lemma FunctionCallInsertsMeaning(spv: seq<u32>, fcs: seq<nat>, vRes: seq<VariableOut>, ps: seq<FunctionParameterOut>)
    requires OperandRuns(spv, fcs, 4)
    ensures forall x: WordInsert :: x in FunctionCallInserts(spv, fcs, vRes, ps) <==>
      (x.headIdx in fcs && x.headIdx < |spv| && x.headIdx + 4 <= x.idx < x.headIdx + HiWord(spv[x.headIdx])
       && x.idx < |spv| && SplitInto(vRes, ps, spv[x.idx], x.word))
  {
    var pairs := CallPairs(vRes, ps);
    SlotInsertsMeaning(spv, fcs, 4, pairs);
    forall x: WordInsert | x.idx < |spv|
      ensures (spv[x.idx], x.word) in pairs <==> SplitInto(vRes, ps, spv[x.idx], x.word)
    {
      var pp, vp := ParameterPairs(ps), VariablePairs(vRes);
      if (spv[x.idx], x.word) in pp {
        var i :| 0 <= i < |pp| && pp[i] == (spv[x.idx], x.word);
        assert ps[i] in ps;
      }
      if (spv[x.idx], x.word) in vp {
        var i :| 0 <= i < |vp| && vp[i] == (spv[x.idx], x.word);
        assert vRes[i] in vRes;
      }
      if exists p :: p in ps && p.imageParameterResId == spv[x.idx] && p.samplerParameterResId == x.word {
        var p :| p in ps && p.imageParameterResId == spv[x.idx] && p.samplerParameterResId == x.word;
        var i :| 0 <= i < |ps| && ps[i] == p;
        assert pp[i] == (spv[x.idx], x.word);
      }
      if exists v :: v in vRes && v.vResId == spv[x.idx] && v.newSamplerVResId == x.word {
        var v :| v in vRes && v.vResId == spv[x.idx] && v.newSamplerVResId == x.word;
        var i :| 0 <= i < |vRes| && vRes[i] == v;
        assert vp[i] == (spv[x.idx], x.word);
      }
    }
  }

  /** Appends the step's inserts to `wordInserts`, in the order the loops
      visit them. */
  method PassSamplers(spv: seq<u32>, wordInserts: seq<WordInsert>, fcs: seq<nat>,
                      vRes: seq<VariableOut>, ps: seq<FunctionParameterOut>)
    returns (r: seq<WordInsert>)
    requires OperandRuns(spv, fcs, 4)
    ensures r == wordInserts + FunctionCallInserts(spv, fcs, vRes, ps)
  {
    r := StageSlotInserts(spv, fcs, 4, CallPairs(vRes, ps), wordInserts);
  }
}
