/** The function-type step of the split pass: every parameter slot of a
    function type that names a retargeted pointer gets the sampler pointer
    type inserted right after it. */
module TypeFunction {
  import opened Spirv
  import opened Edits
  import opened Slots
  import opened TypePointer

  /** Each retargeted pointer paired with the sampler pointer type. */
  function PointerPairs(tpRes: seq<TypePointerOut>, ptr: u32): (r: seq<(u32, u32)>)
    ensures |r| == |tpRes|
  {
    seq(|tpRes|, i requires 0 <= i < |tpRes| => (tpRes[i].tpResId, ptr))
  }

  /** The word inserts of the step, function type by function type, record
      by record, slot by slot. */
  function FunctionTypeInserts(spv: seq<u32>, tfs: seq<nat>, ptr: u32, tpRes: seq<TypePointerOut>): seq<WordInsert>
    requires OperandRuns(spv, tfs, 3)
  {
    SlotInserts(spv, tfs, 3, PointerPairs(tpRes, ptr))
  }

  /** An insert is staged exactly for each parameter slot (from the fourth
      word on) of a listed function type that holds a retargeted pointer's
      id, and it inserts the sampler pointer type after that slot. */
  lemma FunctionTypeInsertsMeaning(spv: seq<u32>, tfs: seq<nat>, ptr: u32, tpRes: seq<TypePointerOut>)
    requires OperandRuns(spv, tfs, 3)
    ensures forall x: WordInsert :: x in FunctionTypeInserts(spv, tfs, ptr, tpRes) <==>
      (x.headIdx in tfs && x.headIdx < |spv| && x.headIdx + 3 <= x.idx < x.headIdx + HiWord(spv[x.headIdx])
       && x.idx < |spv| && x.word == ptr && exists e :: e in tpRes && e.tpResId == spv[x.idx])
  {
    var pairs := PointerPairs(tpRes, ptr);
    SlotInsertsMeaning(spv, tfs, 3, pairs);
    forall x: WordInsert | x.idx < |spv|
      ensures (spv[x.idx], x.word) in pairs <==> x.word == ptr && exists e :: e in tpRes && e.tpResId == spv[x.idx]
    {
      if (spv[x.idx], x.word) in pairs {
        var i :| 0 <= i < |pairs| && pairs[i] == (spv[x.idx], x.word);
        assert tpRes[i] in tpRes;
      }
      if x.word == ptr && exists e :: e in tpRes && e.tpResId == spv[x.idx] {
        var e :| e in tpRes && e.tpResId == spv[x.idx];
        var i :| 0 <= i < |tpRes| && tpRes[i] == e;
        assert pairs[i] == (spv[x.idx], x.word);
      }
    }
  }

  /** Appends the step's inserts to `wordInserts`, in the order the loops
      visit them. */
  method RetypeFunctions(spv: seq<u32>, wordInserts: seq<WordInsert>, ptr: u32, tfs: seq<nat>, tpRes: seq<TypePointerOut>)
    returns (r: seq<WordInsert>)
    requires OperandRuns(spv, tfs, 3)
    ensures r == wordInserts + FunctionTypeInserts(spv, tfs, ptr, tpRes)
  {
    r := StageSlotInserts(spv, tfs, 3, PointerPairs(tpRes, ptr), wordInserts);
  }
}
