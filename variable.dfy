/** The variable step of the split pass: every variable whose type is a
    retargeted pointer gets a paired sampler variable, inserted right after
    it with a fresh id. */
module Variable {
  import opened Spirv
  import opened Outcome
  import opened Layout
  import opened Search
  import opened Edits
  import opened TypePointer

  /** A paired variable: its id, the id of its new sampler variable, the
      image type its pointer now points at, and whether that image is
      arrayed. */
  datatype VariableOut = VariableOut(vResId: u32, newSamplerVResId: u32, underlyingImageId: u32, isArray: bool)

  /** A variable whose type is a retargeted pointer: its offset and result
      id, and the first record whose pointer is its type. */
  datatype Matched = Matched(vIdx: nat, vResId: u32, tp: TypePointerOut)

  /** What the pass changes: the id bound, the staged instruction inserts
      and the paired variables. */
  datatype VariableStep = VariableStep(bound: u32, inserts: seq<InstructionInsert>, vRes: seq<VariableOut>)

  function MatchAt(spv: seq<u32>, tpRes: seq<TypePointerOut>, v: nat): Option<Matched>
    requires v + 2 < |spv|
  {
    var ty := spv[v + 1];
    match First(tpRes, (e: TypePointerOut) => e.tpResId == ty)
    case None => None
    case Some(k) => Some(Matched(v, spv[v + 2], tpRes[k]))
  }

  function MatchPick(spv: seq<u32>, tpRes: seq<TypePointerOut>): nat --> Option<Matched>
  {
    (v: nat) requires v + 2 < |spv| => MatchAt(spv, tpRes, v)
  }

  /** The matched variables of `vs`, in scan order. */
  function Matches(spv: seq<u32>, vs: seq<nat>, tpRes: seq<TypePointerOut>): seq<Matched>
    requires OperandsAt(spv, vs, 2)
  {
    FilterMap(vs, MatchPick(spv, tpRes))
  }

  /** Some match needs the arrayed sampler pointer. */
  predicate NeedsArrayed(ms: seq<Matched>)
  {
    exists i :: 0 <= i < |ms| && ms[i].tp.isArray
  }

  /** The pointer type of the sampler variable paired with `m`. */
  function SamplerPointer(m: Matched, ptr: u32, arrayed: Option<u32>): u32
    requires !m.tp.isArray || arrayed.Some?
  {
    if m.tp.isArray then arrayed.value else ptr
  }

  /** A 4-word UniformConstant `OpVariable` of type `ty` and result `id`. */
  function SamplerVariable(ty: u32, id: u32): seq<u32>
  {
    [EncodeWord(4, OpVariable), ty, id, StorageClassUniformConstant]
  }

  /** The sampler variable of the `i`-th match, with id `bound + i`, after
      the variable it pairs with. */
  function Staged(ms: seq<Matched>, ptr: u32, arrayed: Option<u32>, bound: u32): seq<InstructionInsert>
    requires arrayed.Some? || !NeedsArrayed(ms)
    requires bound as int + |ms| <= MaxU32
  {
    if |ms| == 0 then []
    else
      var n := |ms| - 1;
      assert !NeedsArrayed(ms[..n]) || arrayed.Some? by {
        if NeedsArrayed(ms[..n]) { var i :| 0 <= i < n && ms[..n][i].tp.isArray; assert ms[i] == ms[..n][i]; }
      }
      Staged(ms[..n], ptr, arrayed, bound) + [SamplerInsert(ms[n], ptr, arrayed, bound + n as u32)]
  }

  function SamplerInsert(m: Matched, ptr: u32, arrayed: Option<u32>, id: u32): InstructionInsert
    requires !m.tp.isArray || arrayed.Some?
  {
    InstructionInsert(m.vIdx, SamplerVariable(SamplerPointer(m, ptr, arrayed), id))
  }

  /** The record of the `i`-th match, with its new id `bound + i`. */
  function Records(ms: seq<Matched>, bound: u32): seq<VariableOut>
    requires bound as int + |ms| <= MaxU32
  {
    if |ms| == 0 then []
    else
      var n := |ms| - 1;
      Records(ms[..n], bound) + [Record(ms[n], bound + n as u32)]
  }

  function Record(m: Matched, id: u32): VariableOut
  {
    VariableOut(m.vResId, id, m.tp.underlyingImageId, m.tp.isArray)
  }

  /** The ids of the matched variables (or parameters). */
  function MatchedIds(ms: seq<Matched>): set<u32>
  {
    set m | m in ms :: m.vResId
  }

  /** The records keep the ids of the matches: a load through one of them
      is a load through a matched variable. */
  lemma {:induction false} RecordIds(ms: seq<Matched>, bound: u32)
    requires bound as int + |ms| <= MaxU32
    ensures (set v | v in Records(ms, bound) :: v.vResId) == MatchedIds(ms)
  {
    if |ms| > 0 {
      var n := |ms| - 1;
      var init := ms[..n];
      RecordIds(init, bound);
      var rs := Records(ms, bound);
      assert rs == Records(init, bound) + [Record(ms[n], bound + n as u32)];
      assert ms == init + [ms[n]];
      assert (set v | v in rs :: v.vResId) == (set v | v in Records(init, bound) :: v.vResId) + {ms[n].vResId};
      assert MatchedIds(ms) == MatchedIds(init) + {ms[n].vResId};
    }
  }

  /** The matches are the variables whose type is a retargeted pointer, one
      each and in scan order, each with the FIRST record naming its type:
      `pos` maps every match to the position of its variable in `vs`. */
  lemma MatchesInScanOrder(spv: seq<u32>, vs: seq<nat>, tpRes: seq<TypePointerOut>) returns (pos: seq<nat>)
    requires OperandsAt(spv, vs, 2)
    ensures |pos| == |Matches(spv, vs, tpRes)| <= |vs|
    ensures forall i, j :: 0 <= i < j < |pos| ==> pos[i] < pos[j]
    ensures forall i :: 0 <= i < |pos| ==> (
      pos[i] < |vs|
      && var m := Matches(spv, vs, tpRes)[i];
         m.vIdx == vs[pos[i]] && m.vResId == spv[m.vIdx + 2]
         && m.tp in tpRes && m.tp.tpResId == spv[m.vIdx + 1]
         && exists k :: (0 <= k < |tpRes| && tpRes[k] == m.tp
              && forall j :: 0 <= j < k ==> tpRes[j].tpResId != spv[m.vIdx + 1]))
    ensures forall k :: 0 <= k < |vs| && (exists e :: e in tpRes && e.tpResId == spv[vs[k] + 1]) ==> k in pos
  {
    pos := FilterMapOrder(vs, MatchPick(spv, tpRes));
    var ms := Matches(spv, vs, tpRes);
    forall i | 0 <= i < |pos|
      ensures exists k :: (0 <= k < |tpRes| && tpRes[k] == ms[i].tp
        && forall j :: 0 <= j < k ==> tpRes[j].tpResId != spv[ms[i].vIdx + 1])
    {
      var v := vs[pos[i]];
      var ty := spv[v + 1];
      var k := First(tpRes, (e: TypePointerOut) => e.tpResId == ty).value;
      assert tpRes[k] == ms[i].tp;
    }
    forall k | 0 <= k < |vs| && (exists e :: e in tpRes && e.tpResId == spv[vs[k] + 1])
      ensures k in pos
    {
      var ty := spv[vs[k] + 1];
      var e :| e in tpRes && e.tpResId == ty;
      var j :| 0 <= j < |tpRes| && tpRes[j] == e;
      assert First(tpRes, (e: TypePointerOut) => e.tpResId == ty).Some?;
    }
  }

  lemma SamplerVariableShape(ty: u32, id: u32)
    ensures WellFormed(SamplerVariable(ty, id))
  {
    var ins := SamplerVariable(ty, id);
    assert HiWord(ins[0]) == 4;
    assert WalksFrom(ins, 4);
  }

  /** Every staged variable is a whole 4-word UniformConstant variable
      after the variable it pairs with, typed by the arrayed sampler pointer
      exactly when that variable's image is arrayed, and its result id is the
      fresh id `bound + i` recorded for it. */
  lemma {:induction false} StagedShape(ms: seq<Matched>, ptr: u32, arrayed: Option<u32>, bound: u32)
    requires arrayed.Some? || !NeedsArrayed(ms)
    requires bound as int + |ms| <= MaxU32
    ensures |Staged(ms, ptr, arrayed, bound)| == |Records(ms, bound)| == |ms|
    ensures forall i :: 0 <= i < |ms| ==> (
      var x := Staged(ms, ptr, arrayed, bound)[i];
      var ins := x.instruction;
      var rec := Records(ms, bound)[i];
      x.previousSpvIdx == ms[i].vIdx
      && WellFormed(ins) && |ins| == 4 && ins[0] == EncodeWord(4, OpVariable)
      && ins[1] == (if ms[i].tp.isArray then arrayed.value else ptr)
      && ins[2] == rec.newSamplerVResId == bound + i as u32
      && ins[3] == StorageClassUniformConstant
      && rec.vResId == ms[i].vResId && rec.underlyingImageId == ms[i].tp.underlyingImageId
      && rec.isArray == ms[i].tp.isArray)
  {
    StagedLength(ms, ptr, arrayed, bound);
    forall i | 0 <= i < |ms|
      ensures var x := Staged(ms, ptr, arrayed, bound)[i];
        var ins := x.instruction;
        var rec := Records(ms, bound)[i];
        x.previousSpvIdx == ms[i].vIdx
        && WellFormed(ins) && |ins| == 4 && ins[0] == EncodeWord(4, OpVariable)
        && ins[1] == (if ms[i].tp.isArray then arrayed.value else ptr)
        && ins[2] == rec.newSamplerVResId == bound + i as u32
        && ins[3] == StorageClassUniformConstant
        && rec.vResId == ms[i].vResId && rec.underlyingImageId == ms[i].tp.underlyingImageId
        && rec.isArray == ms[i].tp.isArray
    {
      StagedAt(ms, ptr, arrayed, bound, i);
      SamplerVariableShape(SamplerPointer(ms[i], ptr, arrayed), bound + i as u32);
    }
  }

  /** A prefix of the matches needs the arrayed pointer only if the whole
      list does. */
  lemma PrefixArrayed(ms: seq<Matched>, arrayed: Option<u32>, n: nat)
    requires arrayed.Some? || !NeedsArrayed(ms)
    requires n <= |ms|
    ensures arrayed.Some? || !NeedsArrayed(ms[..n])
  {
    if NeedsArrayed(ms[..n]) { var i :| 0 <= i < n && ms[..n][i].tp.isArray; assert ms[i] == ms[..n][i]; }
  }

  lemma {:induction false} StagedLength(ms: seq<Matched>, ptr: u32, arrayed: Option<u32>, bound: u32)
    requires arrayed.Some? || !NeedsArrayed(ms)
    requires bound as int + |ms| <= MaxU32
    ensures |Staged(ms, ptr, arrayed, bound)| == |Records(ms, bound)| == |ms|
    decreases |ms|
  {
    if |ms| > 0 {
      PrefixArrayed(ms, arrayed, |ms| - 1);
      StagedLength(ms[..|ms| - 1], ptr, arrayed, bound);
    }
  }

  /** The `i`-th staged variable and record belong to the `i`-th match. */
  lemma {:induction false} StagedAt(ms: seq<Matched>, ptr: u32, arrayed: Option<u32>, bound: u32, i: nat)
    requires arrayed.Some? || !NeedsArrayed(ms)
    requires bound as int + |ms| <= MaxU32 && i < |ms|
    ensures |Staged(ms, ptr, arrayed, bound)| == |Records(ms, bound)| == |ms|
    ensures !ms[i].tp.isArray || arrayed.Some?
    ensures Staged(ms, ptr, arrayed, bound)[i] == SamplerInsert(ms[i], ptr, arrayed, bound + i as u32)
    ensures Records(ms, bound)[i] == Record(ms[i], bound + i as u32)
    decreases |ms|
  {
    var n := |ms| - 1;
    var init := ms[..n];
    PrefixArrayed(ms, arrayed, n);
    StagedLength(init, ptr, arrayed, bound);
    StagedLength(ms, ptr, arrayed, bound);
    if i < n {
      StagedAt(init, ptr, arrayed, bound, i);
      assert init[i] == ms[i];
    } else if ms[i].tp.isArray {
      assert NeedsArrayed(ms);
    }
  }

  lemma PairStep(ms: seq<Matched>, m: Matched, ptr: u32, arrayed: Option<u32>, bound: u32)
    requires arrayed.Some? || !NeedsArrayed(ms)
    requires !m.tp.isArray || arrayed.Some?
    requires bound as int + |ms| + 1 <= MaxU32
    ensures arrayed.Some? || !NeedsArrayed(ms + [m])
    ensures Staged(ms + [m], ptr, arrayed, bound)
         == Staged(ms, ptr, arrayed, bound) + [SamplerInsert(m, ptr, arrayed, bound + |ms| as u32)]
    ensures Records(ms + [m], bound) == Records(ms, bound) + [Record(m, bound + |ms| as u32)]
  {
    if NeedsArrayed(ms + [m]) {
      var i :| 0 <= i < |ms + [m]| && (ms + [m])[i].tp.isArray;
      if i < |ms| { assert ms[i].tp.isArray; }
    }
    assert (ms + [m])[..|ms|] == ms;
  }

  /** The `filter_map` half of the pass: the matched variables of `vs`. */
  method FindMatches(spv: seq<u32>, vs: seq<nat>, tpRes: seq<TypePointerOut>) returns (ms: seq<Matched>)
    requires OperandsAt(spv, vs, 2)
    ensures ms == Matches(spv, vs, tpRes)
  {
    ms := [];
    var k := 0;
    while k < |vs|
      invariant 0 <= k <= |vs|
      invariant ms == Matches(spv, vs[..k], tpRes)
    {
      FilterMapSnoc(vs, k, MatchPick(spv, tpRes));
      var found := MatchAt(spv, tpRes, vs[k]);
      if found.Some? {
        ms := ms + [found.value];
      }
      k := k + 1;
    }
    assert vs[..k] == vs;
  }

  /** Pairs a sampler variable with every matched variable of `vs`: the
      pass fails, as its `unwrap` does, exactly when an arrayed match meets
      a missing arrayed sampler pointer; otherwise it draws one fresh id per
      match and stages the matches' sampler variables and records. */
  method PairVariables(spv: seq<u32>, bound: u32, inserts: seq<InstructionInsert>,
                       ptr: u32, arrayed: Option<u32>, vs: seq<nat>, tpRes: seq<TypePointerOut>)
    returns (r: Result<VariableStep>)
    requires OperandsAt(spv, vs, 2) && bound as int + |vs| <= MaxU32
    ensures var ms := Matches(spv, vs, tpRes);
      && (r.Failure? <==> arrayed.None? && NeedsArrayed(ms))
      && (r.Failure? ==> r.error == MissingArrayedSamplerPointer)
      && (r.Success? ==> (|ms| <= |vs|
            && r.value == VariableStep(bound + |ms| as u32, inserts + Staged(ms, ptr, arrayed, bound), Records(ms, bound))))
  {
    var ms := FindMatches(spv, vs, tpRes);
    var b := bound;
    var staged: seq<InstructionInsert> := [];
    var vRes: seq<VariableOut> := [];
    var j := 0;
    while j < |ms|
      invariant 0 <= j <= |ms|
      invariant arrayed.Some? || !NeedsArrayed(ms[..j])
      invariant b as int == bound as int + j
      invariant staged == Staged(ms[..j], ptr, arrayed, bound)
      invariant vRes == Records(ms[..j], bound)
    {
      var m := ms[j];
      if m.tp.isArray && arrayed.None? {
        return Failure(MissingArrayedSamplerPointer);
      }
      PairStep(ms[..j], m, ptr, arrayed, bound);
      assert ms[..j + 1] == ms[..j] + [m];
      staged := staged + [SamplerInsert(m, ptr, arrayed, b)];
      vRes := vRes + [Record(m, b)];
      b := b + 1;
      j := j + 1;
    }
    assert ms[..j] == ms;
    r := Success(VariableStep(b, inserts + staged, vRes));
  }
}
