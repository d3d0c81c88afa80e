/** The function-parameter step of the split pass: every function parameter
    whose type is a retargeted pointer gets a sampler parameter right after
    it, with a fresh id; the pairs are reported keyed by the image
    parameter's id. */
module FunctionParameter {
  import opened Spirv
  import opened Layout
  import opened Edits
  import opened TypePointer
  import opened Variable

  /** A paired parameter: the image parameter's id, the id of its new
      sampler parameter, and the image type its pointer now points at. */
  datatype FunctionParameterOut = FunctionParameterOut(imageParameterResId: u32, samplerParameterResId: u32, underlyingImageId: u32)

  /** What the step changes: the id bound, the staged instruction inserts
      and the paired parameters. */
  datatype ParameterStep = ParameterStep(bound: u32, inserts: seq<InstructionInsert>, parameterRes: seq<FunctionParameterOut>)

  /** A 3-word `OpFunctionParameter` of type `ty` and result `id`. */
  function SamplerParameter(ty: u32, id: u32): seq<u32>
  {
    [EncodeWord(3, OpFunctionParameter), ty, id]
  }

  /** The sampler parameter of the `i`-th match, typed by the sampler
      pointer `ptr` and numbered `bound + i`, after the parameter it pairs
      with. */
  function ParameterInserts(ms: seq<Matched>, ptr: u32, bound: u32): seq<InstructionInsert>
    requires bound as int + |ms| <= MaxU32
  {
    if |ms| == 0 then []
    else
      var n := |ms| - 1;
      ParameterInserts(ms[..n], ptr, bound) + [InstructionInsert(ms[n].vIdx, SamplerParameter(ptr, bound + n as u32))]
  }

  /** The map the step fills, in scan order: image parameter id to its
      sampler parameter id and underlying image. */
  function Paired(ms: seq<Matched>, bound: u32): map<u32, (u32, u32)>
    requires bound as int + |ms| <= MaxU32
  {
    if |ms| == 0 then map[]
    else
      var n := |ms| - 1;
      Paired(ms[..n], bound)[ms[n].vResId := (bound + n as u32, ms[n].tp.underlyingImageId)]
  }

  /** No later match has the id of the `i`-th. */
  predicate LastWithId(ms: seq<Matched>, i: nat)
    requires i < |ms|
  {
    forall j :: i < j < |ms| ==> ms[j].vResId != ms[i].vResId
  }

  /** The map has a key for each matched parameter id and no other. */
  lemma {:induction false} PairedKeys(ms: seq<Matched>, bound: u32)
    requires bound as int + |ms| <= MaxU32
    ensures forall id :: id in Paired(ms, bound) <==> exists i :: 0 <= i < |ms| && ms[i].vResId == id
  {
    if |ms| > 0 {
      var n := |ms| - 1;
      var init := ms[..n];
      PairedKeys(init, bound);
      assert Paired(ms, bound).Keys == Paired(init, bound).Keys + {ms[n].vResId};
      forall id ensures id in Paired(ms, bound) <==> exists i :: 0 <= i < |ms| && ms[i].vResId == id
      {
        if id in Paired(init, bound) {
          var i :| 0 <= i < n && init[i].vResId == id;
          assert ms[i].vResId == id;
        }
        if exists i :: 0 <= i < |ms| && ms[i].vResId == id {
          var i :| 0 <= i < |ms| && ms[i].vResId == id;
          if i < n { assert init[i].vResId == id; }
        }
      }
    }
  }

  /** Each key holds the value of the LAST match with that id: a later
      match overwrites an earlier one. */
  lemma {:induction false} PairedLastWins(ms: seq<Matched>, bound: u32)
    requires bound as int + |ms| <= MaxU32
    ensures forall i :: 0 <= i < |ms| && LastWithId(ms, i) ==>
      ms[i].vResId in Paired(ms, bound)
      && Paired(ms, bound)[ms[i].vResId] == (bound + i as u32, ms[i].tp.underlyingImageId)
  {
    if |ms| > 0 {
      var n := |ms| - 1;
      var init := ms[..n];
      PairedLastWins(init, bound);
      var p := Paired(ms, bound);
      assert p == Paired(init, bound)[ms[n].vResId := (bound + n as u32, ms[n].tp.underlyingImageId)];
      forall i | 0 <= i < |ms| && LastWithId(ms, i)
        ensures ms[i].vResId in p && p[ms[i].vResId] == (bound + i as u32, ms[i].tp.underlyingImageId)
      {
        if i < n {
          assert init[i] == ms[i];
          assert ms[n].vResId != ms[i].vResId;
          assert LastWithId(init, i) by {
            forall j | i < j < n ensures init[j].vResId != init[i].vResId { assert init[j] == ms[j]; }
          }
        }
      }
    }
  }

  /** Every staged parameter is a whole 3-word `OpFunctionParameter` of the
      sampler pointer type, numbered `bound + i`, after the `i`-th matched
      parameter. */
  lemma {:induction false} ParameterInsertsShape(ms: seq<Matched>, ptr: u32, bound: u32)
    requires bound as int + |ms| <= MaxU32
    ensures |ParameterInserts(ms, ptr, bound)| == |ms|
    ensures forall i :: 0 <= i < |ms| ==> (
      var x := ParameterInserts(ms, ptr, bound)[i];
      x.previousSpvIdx == ms[i].vIdx && x.instruction == SamplerParameter(ptr, bound + i as u32)
      && WellFormed(x.instruction))
  {
    if |ms| > 0 {
      var n := |ms| - 1;
      var init := ms[..n];
      ParameterInsertsShape(init, ptr, bound);
      var st := ParameterInserts(ms, ptr, bound);
      assert st == ParameterInserts(init, ptr, bound) + [InstructionInsert(ms[n].vIdx, SamplerParameter(ptr, bound + n as u32))];
      forall i | 0 <= i < n ensures st[i] == ParameterInserts(init, ptr, bound)[i] && ms[i] == init[i] { }
      var ins := SamplerParameter(ptr, bound + n as u32);
      assert HiWord(ins[0]) == 3;
      assert WalksFrom(ins, 3);
    }
  }

  /** `out` lists the map: one record per key, with that key's values,
      no key twice. */
  predicate Lists(out: seq<FunctionParameterOut>, m: map<u32, (u32, u32)>)
  {
    (forall i :: 0 <= i < |out| ==> (out[i].imageParameterResId in m
       && m[out[i].imageParameterResId] == (out[i].samplerParameterResId, out[i].underlyingImageId)))
    && (forall id :: id in m ==> exists i :: 0 <= i < |out| && out[i].imageParameterResId == id)
    && (forall i, j :: 0 <= i < j < |out| ==> out[i].imageParameterResId != out[j].imageParameterResId)
  }

  /** Records listing the map of the matches carry exactly the matched
      parameters' ids. */
  lemma ListedIds(ps: seq<FunctionParameterOut>, ms: seq<Matched>, bound: u32)
    requires bound as int + |ms| <= MaxU32 && Lists(ps, Paired(ms, bound))
    ensures (set p | p in ps :: p.imageParameterResId) == MatchedIds(ms)
  {
    PairedKeys(ms, bound);
    var m := Paired(ms, bound);
    forall id | id in MatchedIds(ms) ensures id in (set p | p in ps :: p.imageParameterResId) {
      var x :| x in ms && x.vResId == id;
      var i :| 0 <= i < |ms| && ms[i] == x;
      assert id in m;
      var k :| 0 <= k < |ps| && ps[k].imageParameterResId == id;
      assert ps[k] in ps;
    }
    forall id | id in (set p | p in ps :: p.imageParameterResId) ensures id in MatchedIds(ms) {
      var p :| p in ps && p.imageParameterResId == id;
      var k :| 0 <= k < |ps| && ps[k] == p;
      var i :| 0 <= i < |ms| && ms[i].vResId == id;
      assert ms[i] in ms;
    }
  }

  /** Drains the map into records, in whatever order its keys come. */
  method ListPaired(m: map<u32, (u32, u32)>) returns (out: seq<FunctionParameterOut>)
    ensures Lists(out, m)
  {
    out := [];
    var pending := m.Keys;
    while pending != {}
      invariant pending <= m.Keys
      invariant forall i :: 0 <= i < |out| ==> (out[i].imageParameterResId in m && out[i].imageParameterResId !in pending
        && m[out[i].imageParameterResId] == (out[i].samplerParameterResId, out[i].underlyingImageId))
      invariant forall id :: id in m ==> id in pending || exists i :: 0 <= i < |out| && out[i].imageParameterResId == id
      invariant forall i, j :: 0 <= i < j < |out| ==> out[i].imageParameterResId != out[j].imageParameterResId
      decreases pending
    {
      var id :| id in pending;
      ghost var prev := out;
      out := out + [FunctionParameterOut(id, m[id].0, m[id].1)];
      assert forall i :: 0 <= i < |prev| ==> out[i] == prev[i];
      assert out[|prev|].imageParameterResId == id;
      pending := pending - {id};
    }
  }

  /** Pairs a sampler parameter with every matched parameter of `fps`: one
      fresh id per match, its inserts staged in scan order, and the pairs
      reported, one per image parameter id, in any order. */
  method SplitParameters(spv: seq<u32>, bound: u32, inserts: seq<InstructionInsert>, ptr: u32,
                         fps: seq<nat>, tpRes: seq<TypePointerOut>)
    returns (r: ParameterStep)
    requires OperandsAt(spv, fps, 2) && bound as int + |fps| <= MaxU32
    ensures var ms := Matches(spv, fps, tpRes);
      |ms| <= |fps| && r.bound as int == bound as int + |ms|
      && r.inserts == inserts + ParameterInserts(ms, ptr, bound)
      && Lists(r.parameterRes, Paired(ms, bound))
  {
    var ms := FindMatches(spv, fps, tpRes);
    var b := bound;
    var staged: seq<InstructionInsert> := [];
    var paired: map<u32, (u32, u32)> := map[];
    var j := 0;
    while j < |ms|
      invariant 0 <= j <= |ms|
      invariant b as int == bound as int + j
      invariant staged == ParameterInserts(ms[..j], ptr, bound)
      invariant paired == Paired(ms[..j], bound)
    {
      var m := ms[j];
      assert ms[..j + 1][..j] == ms[..j];
      staged := staged + [InstructionInsert(m.vIdx, SamplerParameter(ptr, b))];
      paired := paired[m.vResId := (b, m.tp.underlyingImageId)];
      b := b + 1;
      j := j + 1;
    }
    assert ms[..j] == ms;
    var out := ListPaired(paired);
    r := ParameterStep(b, inserts + staged, out);
  }
}
