/** `dreftexturesplitter` of src/splitdref.rs: a texture variable that is
    sampled both with and without depth comparison gets a duplicate, and
    every load of the original is given the duplicate as an extra operand.
    The pass scans the body once, traces each sampling operation back to
    the variable it loads from, duplicates the variables used both ways,
    decorates the duplicates like their originals, applies the edits,
    renumbers colliding bindings, prunes and writes the new id bound. */
module SplitDref {
  import opened Outcome
  import opened Spirv
  import opened Layout
  import opened Edits
  import opened ShapeKeep
  import opened Assemble
  import opened Search
  import opened Correction
  import opened CombinedFacts
  import CombinedDecorate
  import UtilDecorate
  import CorrectDecorate
  import SplitCombined
  import CorrectionBuild
  import CorrectionStamp

  // ---------------------------------------------------------------------
  // The two kinds of sampling operation

  /** How a sampling operation reads its texture: plainly, or with a depth
      reference to compare against. */
  datatype Variant = Regular | Dref

  const RegularOps: set<u16> := {
    OpImageSampleImplicitLod, OpImageSampleExplicitLod, OpImageSampleProjImplicitLod,
    OpImageSampleProjExplicitLod, OpImageGather, OpImageSparseSampleImplicitLod,
    OpImageSparseSampleExplicitLod, OpImageSparseGather}

  const DrefOps: set<u16> := {
    OpImageSampleDrefImplicitLod, OpImageSampleDrefExplicitLod, OpImageSampleProjDrefImplicitLod,
    OpImageSampleProjDrefExplicitLod, OpImageDrefGather, OpImageSparseSampleDrefImplicitLod,
    OpImageSparseSampleDrefExplicitLod, OpImageSparseDrefGather}

  /** The two lists split the sampling operations between them. */
  lemma VariantsPartition(op: u16)
    ensures IsSamplingOp(op) <==> op in RegularOps || op in DrefOps
    ensures !(op in RegularOps && op in DrefOps)
  {
  }

  // ---------------------------------------------------------------------
  // Step 1: the scan

  /** What the scan remembers: the heads of each kind the later steps read,
      in body order, and the first OpDecorate. */
  datatype Found = Found(
    sampledImages: seq<nat>, loads: seq<nat>, drefOps: seq<nat>, regularOps: seq<nat>,
    variables: seq<nat>, decorates: seq<nat>, firstDecorate: Option<nat>)

  /** What a walk over the whole body finds. */
  function Located(body: seq<u32>): Found
    requires WellFormed(body)
  {
    Found(Offsets(body, 0, Opcode(OpSampledImage)), Offsets(body, 0, Opcode(OpLoad)),
          Offsets(body, 0, Opcodes(DrefOps)), Offsets(body, 0, Opcodes(RegularOps)),
          Offsets(body, 0, Opcode(OpVariable)), Offsets(body, 0, Opcode(OpDecorate)),
          SplitCombined.Earliest(Offsets(body, 0, Opcode(OpDecorate))))
  }

  /** The scan up to offset `i` has found `f`: each list followed by what
      the rest of the walk selects is the whole list, and the first
      OpDecorate is the first one listed. */
  ghost predicate ScannedTo(body: seq<u32>, i: nat, f: Found, goal: Found)
  {
    WalksFrom(body, i)
    && SplitCombined.Gathered(body, i, f.sampledImages, Opcode(OpSampledImage), goal.sampledImages)
    && SplitCombined.Gathered(body, i, f.loads, Opcode(OpLoad), goal.loads)
    && SplitCombined.Gathered(body, i, f.drefOps, Opcodes(DrefOps), goal.drefOps)
    && SplitCombined.Gathered(body, i, f.regularOps, Opcodes(RegularOps), goal.regularOps)
    && SplitCombined.Gathered(body, i, f.variables, Opcode(OpVariable), goal.variables)
    && SplitCombined.Gathered(body, i, f.decorates, Opcode(OpDecorate), goal.decorates)
    && f.firstDecorate == SplitCombined.Earliest(f.decorates)
  }

  /** The dispatch on the opcode of the head at `i`. */
  function Visit(body: seq<u32>, i: nat, f: Found): Found
    requires i < |body|
  {
    var instruction := LoWord(body[i]);
    if instruction == OpSampledImage then f.(sampledImages := f.sampledImages + [i])
    else if instruction == OpLoad then f.(loads := f.loads + [i])
    else if instruction in DrefOps then f.(drefOps := f.drefOps + [i])
    else if instruction in RegularOps then f.(regularOps := f.regularOps + [i])
    else if instruction == OpVariable then f.(variables := f.variables + [i])
    else if instruction == OpDecorate then
      f.(decorates := f.decorates + [i],
         firstDecorate := if f.firstDecorate.None? then Some(i) else f.firstDecorate)
    else f
  }

  /** One iteration keeps the scan on track. */
  lemma VisitScanned(body: seq<u32>, i: nat, f: Found, goal: Found)
    requires i < |body| && ScannedTo(body, i, f, goal)
    ensures ScannedTo(body, i + HiWord(body[i]), Visit(body, i, f), goal)
  {
    VisitFields(body, i, f);
    SplitCombined.Collect(body, i, f.sampledImages, Opcode(OpSampledImage), goal.sampledImages);
    SplitCombined.Collect(body, i, f.loads, Opcode(OpLoad), goal.loads);
    SplitCombined.Collect(body, i, f.drefOps, Opcodes(DrefOps), goal.drefOps);
    SplitCombined.Collect(body, i, f.regularOps, Opcodes(RegularOps), goal.regularOps);
    SplitCombined.Collect(body, i, f.variables, Opcode(OpVariable), goal.variables);
    SplitCombined.Collect(body, i, f.decorates, Opcode(OpDecorate), goal.decorates);
  }

  /** Each list of the dispatch grows by `i` exactly when its selector
      picks the head at `i`, and the first OpDecorate stays the first one
      listed. */
  lemma VisitFields(body: seq<u32>, i: nat, f: Found)
    requires i < |body| && f.firstDecorate == SplitCombined.Earliest(f.decorates)
    ensures var v := Visit(body, i, f);
      && v.sampledImages == (if Selects(body, i, Opcode(OpSampledImage)) then f.sampledImages + [i] else f.sampledImages)
      && v.loads == (if Selects(body, i, Opcode(OpLoad)) then f.loads + [i] else f.loads)
      && v.drefOps == (if Selects(body, i, Opcodes(DrefOps)) then f.drefOps + [i] else f.drefOps)
      && v.regularOps == (if Selects(body, i, Opcodes(RegularOps)) then f.regularOps + [i] else f.regularOps)
      && v.variables == (if Selects(body, i, Opcode(OpVariable)) then f.variables + [i] else f.variables)
      && v.decorates == (if Selects(body, i, Opcode(OpDecorate)) then f.decorates + [i] else f.decorates)
      && v.firstDecorate == SplitCombined.Earliest(v.decorates)
  {
    VariantsPartition(LoWord(body[i]));
  }

  /** The body of the scan loop: the head at `i` joins the list of its
      opcode. */
  method Dispatch(body: seq<u32>, i: nat, f0: Found) returns (f: Found)
    requires i < |body|
    ensures f == Visit(body, i, f0)
  {
    f := f0;
    var instruction := LoWord(body[i]);
    if instruction == OpSampledImage {
      f := f.(sampledImages := f.sampledImages + [i]);
    } else if instruction == OpLoad {
      f := f.(loads := f.loads + [i]);
    } else if instruction in DrefOps {
      f := f.(drefOps := f.drefOps + [i]);
    } else if instruction in RegularOps {
      f := f.(regularOps := f.regularOps + [i]);
    } else if instruction == OpVariable {
      f := f.(variables := f.variables + [i]);
    } else if instruction == OpDecorate {
      f := f.(decorates := f.decorates + [i]);
      if f.firstDecorate.None? {
        f := f.(firstDecorate := Some(i));
      }
    }
  }

  /** The dispatch applied to every head from `i` on. */
  function Walked(body: seq<u32>, i: nat, f: Found): Found
    requires WalksFrom(body, i)
    decreases |body| - i
  {
    if i >= |body| then f else Walked(body, i + HiWord(body[i]), Visit(body, i, f))
  }

  /** A scan on track ends with what a walk over the whole body finds. */
  lemma {:induction false} WalkedScanned(body: seq<u32>, i: nat, f: Found, goal: Found)
    requires ScannedTo(body, i, f, goal)
    requires goal.firstDecorate == SplitCombined.Earliest(goal.decorates)
    ensures Walked(body, i, f) == goal
    decreases |body| - i
  {
    if i < |body| {
      VisitScanned(body, i, f, goal);
      WalkedScanned(body, i + HiWord(body[i]), Visit(body, i, f), goal);
    } else {
      ScanEnds(body, i, f, goal);
    }
  }

  lemma ScanEnds(body: seq<u32>, i: nat, f: Found, goal: Found)
    requires ScannedTo(body, i, f, goal) && i >= |body|
    requires goal.firstDecorate == SplitCombined.Earliest(goal.decorates)
    ensures f == goal
  {
    assert f.sampledImages + [] == f.sampledImages && f.loads + [] == f.loads;
    assert f.drefOps + [] == f.drefOps && f.regularOps + [] == f.regularOps;
    assert f.variables + [] == f.variables && f.decorates + [] == f.decorates;
  }

  lemma WalkedLocated(body: seq<u32>)
    requires WellFormed(body)
    ensures Walked(body, 0, Found([], [], [], [], [], [], None)) == Located(body)
  {
    ScanStarts(body);
    WalkedScanned(body, 0, Found([], [], [], [], [], [], None), Located(body));
  }

  lemma ScanStarts(body: seq<u32>)
    requires WellFormed(body)
    ensures ScannedTo(body, 0, Found([], [], [], [], [], [], None), Located(body))
  {
    GatheredStart(body, Opcode(OpSampledImage));
    GatheredStart(body, Opcode(OpLoad));
    GatheredStart(body, Opcodes(DrefOps));
    GatheredStart(body, Opcodes(RegularOps));
    GatheredStart(body, Opcode(OpVariable));
    GatheredStart(body, Opcode(OpDecorate));
  }

  /** Before the walk, nothing is gathered and all is still to come. */
  lemma GatheredStart(body: seq<u32>, sel: Selector)
    requires WellFormed(body)
    ensures SplitCombined.Gathered(body, 0, [], sel, Offsets(body, 0, sel))
  {
    assert [] + Offsets(body, 0, sel) == Offsets(body, 0, sel);
  }

  /** Step 1: walks the body by word counts, collecting the offsets of
      every OpSampledImage, OpLoad, depth-comparison and regular sampling
      operation, OpVariable and OpDecorate, and the first OpDecorate. */
  method ScanBody(body: seq<u32>) returns (f: Found)
    requires WellFormed(body)
    ensures f == Located(body)
  {
    ghost var goal := Walked(body, 0, Found([], [], [], [], [], [], None));
    f := Found([], [], [], [], [], [], None);
    var i: nat := 0;
    while i < |body|
      invariant WalksFrom(body, i) && Walked(body, i, f) == goal
      decreases |body| - i
    {
      f := Dispatch(body, i, f);
      var wordCount := HiWord(body[i]);
      i := i + wordCount as nat;
    }
    WalkedLocated(body);
  }

  /** The heads of a kind the scan found, with the words of their opcode. */
  ghost predicate SamplingHeads(body: seq<u32>, hs: seq<nat>, ops: set<u16>)
  {
    forall k :: 0 <= k < |hs| ==>
      IsHead(body, hs[k]) && LoWord(body[hs[k]]) in ops && hs[k] + 3 < hs[k] + HiWord(body[hs[k]]) <= |body|
  }

  /** The operands the steps read lie inside the instructions found. */
  ghost predicate FoundShaped(body: seq<u32>, f: Found)
  {
    HeadsOf(body, f.sampledImages, OpSampledImage) && HeadsOf(body, f.loads, OpLoad)
    && HeadsOf(body, f.variables, OpVariable) && HeadsOf(body, f.decorates, OpDecorate)
    && SamplingHeads(body, f.drefOps, DrefOps) && SamplingHeads(body, f.regularOps, RegularOps)
  }

  lemma SampledHeads(body: seq<u32>, ops: set<u16>)
    requires Shaped(body) && WellFormed(body)
    requires forall op :: op in ops ==> IsSamplingOp(op)
    ensures SamplingHeads(body, Offsets(body, 0, Opcodes(ops)), ops)
  {
    var hs := Offsets(body, 0, Opcodes(ops));
    forall k | 0 <= k < |hs|
      ensures IsHead(body, hs[k]) && LoWord(body[hs[k]]) in ops && hs[k] + 3 < hs[k] + HiWord(body[hs[k]]) <= |body|
    {
      SampledHead(body, ops, hs[k]);
    }
  }

  /** A sampling operation the walk selects holds at least its image and
      coordinate operands. */
  lemma SampledHead(body: seq<u32>, ops: set<u16>, h: nat)
    requires Shaped(body) && WellFormed(body) && h in Offsets(body, 0, Opcodes(ops))
    requires forall op :: op in ops ==> IsSamplingOp(op)
    ensures IsHead(body, h) && LoWord(body[h]) in ops && h + 3 < h + HiWord(body[h]) <= |body|
  {
    ShapedOffset(body, Opcodes(ops), h);
    SamplingMinWords(LoWord(body[h]));
  }

  lemma FoundInside(body: seq<u32>)
    requires Shaped(body) && WellFormed(body)
    ensures FoundShaped(body, Located(body))
    ensures OperandsAt(body, Located(body).drefOps, 3) && OperandsAt(body, Located(body).regularOps, 3)
    ensures OperandsAt(body, Located(body).sampledImages, 3) && OperandsAt(body, Located(body).loads, 3)
    ensures OperandsAt(body, Located(body).variables, 2)
  {
    var f := Located(body);
    ScannedHeads(body, Opcode(OpSampledImage), OpSampledImage);
    ScannedHeads(body, Opcode(OpLoad), OpLoad);
    ScannedHeads(body, Opcode(OpVariable), OpVariable);
    ScannedHeads(body, Opcode(OpDecorate), OpDecorate);
    SampledHeads(body, DrefOps);
    SampledHeads(body, RegularOps);
    HeadsOperands(body, f.sampledImages, OpSampledImage, 3);
    HeadsOperands(body, f.loads, OpLoad, 3);
    HeadsOperands(body, f.variables, OpVariable, 2);
  }

  // ---------------------------------------------------------------------
  // Steps 2 to 4: tracing the sampling operations back to their loads

  /** The operands steps 2 to 4 read are inside the body. */
  predicate Traceable(body: seq<u32>, f: Found)
  {
    OperandsAt(body, f.regularOps, 3) && OperandsAt(body, f.drefOps, 3)
    && OperandsAt(body, f.sampledImages, 3) && OperandsAt(body, f.loads, 3)
  }

  /** Step 2: the sampled image each sampling operation reads (its operand
      3) with the kind of the operation, the regular operations first. */
  function SampledUses(body: seq<u32>, f: Found): seq<(u32, Variant)>
    requires Traceable(body, f)
  {
    seq(|f.regularOps|, i requires 0 <= i < |f.regularOps| => (body[f.regularOps[i] + 3], Regular))
    + seq(|f.drefOps|, i requires 0 <= i < |f.drefOps| => (body[f.drefOps[i] + 3], Dref))
  }

  /** The `find_map` of steps 3 and 4: the kind of the first entry for `id`. */
  function VariantOf(uses: seq<(u32, Variant)>, id: u32): Option<Variant>
  {
    match First(uses, (u: (u32, Variant)) => u.0 == id)
    case None => None
    case Some(k) => Some(uses[k].1)
  }

  /** `id` has an entry of kind `v`, and none of its entries before comes
      first. */
  lemma VariantOfMeaning(uses: seq<(u32, Variant)>, id: u32)
    ensures VariantOf(uses, id).None? <==> forall k :: 0 <= k < |uses| ==> uses[k].0 != id
    ensures VariantOf(uses, id).Some? ==>
      exists k :: 0 <= k < |uses| && uses[k] == (id, VariantOf(uses, id).value)
        && forall j :: 0 <= j < k ==> uses[j].0 != id
  {
    var r := First(uses, (u: (u32, Variant)) => u.0 == id);
    if r.Some? {
      assert uses[r.value] == (id, VariantOf(uses, id).value);
    }
  }

  /** A sampled image counts as regular when some regular operation reads
      it, and as depth-comparison only when no regular operation does. */
  lemma {:induction false} SampledVariant(body: seq<u32>, f: Found, id: u32)
    requires Traceable(body, f)
    ensures VariantOf(SampledUses(body, f), id) == Some(Regular) <==>
      exists k :: 0 <= k < |f.regularOps| && body[f.regularOps[k] + 3] == id
    ensures VariantOf(SampledUses(body, f), id) == Some(Dref) <==>
      (forall k :: 0 <= k < |f.regularOps| ==> body[f.regularOps[k] + 3] != id)
      && exists k :: 0 <= k < |f.drefOps| && body[f.drefOps[k] + 3] == id
    ensures VariantOf(SampledUses(body, f), id).None? <==>
      (forall k :: 0 <= k < |f.regularOps| ==> body[f.regularOps[k] + 3] != id)
      && (forall k :: 0 <= k < |f.drefOps| ==> body[f.drefOps[k] + 3] != id)
  {
    var reg := seq(|f.regularOps|, i requires 0 <= i < |f.regularOps| => body[f.regularOps[i] + 3]);
    var dref := seq(|f.drefOps|, i requires 0 <= i < |f.drefOps| => body[f.drefOps[i] + 3]);
    VariantOfTwo(reg, dref, SampledUses(body, f), id);
    if exists k :: 0 <= k < |f.regularOps| && body[f.regularOps[k] + 3] == id {
      var k :| 0 <= k < |f.regularOps| && body[f.regularOps[k] + 3] == id;
      assert reg[k] == id;
    }
    if exists k :: 0 <= k < |f.drefOps| && body[f.drefOps[k] + 3] == id {
      var k :| 0 <= k < |f.drefOps| && body[f.drefOps[k] + 3] == id;
      assert dref[k] == id;
    }
  }

  /** `uses` lists the ids of `reg` as regular, then those of `dref` as
      depth-comparison: the first entry for `id` is regular exactly when `id`
      is in `reg`. */
  lemma VariantOfTwo(reg: seq<u32>, dref: seq<u32>, uses: seq<(u32, Variant)>, id: u32)
    requires |uses| == |reg| + |dref|
    requires forall k :: 0 <= k < |reg| ==> uses[k] == (reg[k], Regular)
    requires forall k :: 0 <= k < |dref| ==> uses[|reg| + k] == (dref[k], Dref)
    ensures VariantOf(uses, id) == Some(Regular) <==> exists k :: 0 <= k < |reg| && reg[k] == id
    ensures VariantOf(uses, id) == Some(Dref) <==>
      (forall k :: 0 <= k < |reg| ==> reg[k] != id) && exists k :: 0 <= k < |dref| && dref[k] == id
    ensures VariantOf(uses, id).None? <==>
      (forall k :: 0 <= k < |reg| ==> reg[k] != id) && (forall k :: 0 <= k < |dref| ==> dref[k] != id)
  {
    var n := |reg|;
    VariantOfMeaning(uses, id);
    if VariantOf(uses, id).Some? {
      var k :| 0 <= k < |uses| && uses[k] == (id, VariantOf(uses, id).value) && forall j :: 0 <= j < k ==> uses[j].0 != id;
      if k >= n {
        assert uses[k] == (dref[k - n], Dref);
        assert forall j :: 0 <= j < n ==> uses[j].0 != id;
      } else {
        assert uses[k] == (reg[k], Regular);
      }
    } else {
      forall k | 0 <= k < |dref| ensures dref[k] != id {
        assert uses[n + k].0 != id;
      }
    }
  }

  /** Step 3, one OpSampledImage: the image it combines (operand 3), with
      the kind of the first operation that reads its result (operand 2). */
  function ImagePick(body: seq<u32>, uses: seq<(u32, Variant)>): nat --> Option<(u32, Variant)>
  {
    (s: nat) requires s + 3 < |body| =>
      match VariantOf(uses, body[s + 2])
      case None => None
      case Some(v) => Some((body[s + 3], v))
  }

  /** Step 3: the loaded images of the sampled images some operation
      reads, in scan order. */
  function ImageUses(body: seq<u32>, f: Found): seq<(u32, Variant)>
    requires Traceable(body, f)
  {
    FilterMap(f.sampledImages, ImagePick(body, SampledUses(body, f)))
  }

  /** A load step 4 keeps: the image variable it reads (operand 3), the
      load's offset and the kind of the operation its image feeds. */
  datatype ImageLoad = ImageLoad(image: u32, load: nat, variant: Variant)

  /** Step 4, one OpLoad: kept when its result (operand 2) is an image
      step 3 kept. */
  function LoadPick(body: seq<u32>, uses: seq<(u32, Variant)>): nat --> Option<ImageLoad>
  {
    (l: nat) requires l + 3 < |body| =>
      match VariantOf(uses, body[l + 2])
      case None => None
      case Some(v) => Some(ImageLoad(body[l + 3], l, v))
  }

  /** Step 4: the loads feeding some sampling operation, in scan order. */
  function ImageLoads(body: seq<u32>, f: Found): seq<ImageLoad>
    requires Traceable(body, f)
  {
    FilterMap(f.loads, LoadPick(body, ImageUses(body, f)))
  }

  /** Step 3 keeps exactly the sampled images whose result some operation
      reads, each with the kind its result counts as. */
  lemma {:induction false} PickedImages(body: seq<u32>, hs: seq<nat>, uses: seq<(u32, Variant)>, x: (u32, Variant))
    requires OperandsAt(body, hs, 3)
    ensures x in FilterMap(hs, ImagePick(body, uses)) <==>
      exists k :: 0 <= k < |hs| && body[hs[k] + 3] == x.0 && VariantOf(uses, body[hs[k] + 2]) == Some(x.1)
  {
    var pick := ImagePick(body, uses);
    var r := FilterMap(hs, pick);
    var pos := FilterMapOrder(hs, pick);
    if x in r {
      var i :| 0 <= i < |r| && r[i] == x;
      assert pick(hs[pos[i]]) == Some(x);
    }
    if exists k :: 0 <= k < |hs| && body[hs[k] + 3] == x.0 && VariantOf(uses, body[hs[k] + 2]) == Some(x.1) {
      var k :| 0 <= k < |hs| && body[hs[k] + 3] == x.0 && VariantOf(uses, body[hs[k] + 2]) == Some(x.1);
      assert pick(hs[k]).Some?;
      var i :| 0 <= i < |pos| && pos[i] == k;
      assert r[i] == x;
    }
  }

  /** Step 4 keeps only loads whose result step 3 traced, each with its
      pointer operand and the kind its result counts as. */
  lemma PickedLoadsSound(body: seq<u32>, hs: seq<nat>, uses: seq<(u32, Variant)>, x: ImageLoad)
    requires OperandsAt(body, hs, 3) && x in FilterMap(hs, LoadPick(body, uses))
    ensures x.load in hs && x.load + 3 < |body| && body[x.load + 3] == x.image
    ensures VariantOf(uses, body[x.load + 2]) == Some(x.variant)
  {
    var pick := LoadPick(body, uses);
    var r := FilterMap(hs, pick);
    var pos := FilterMapOrder(hs, pick);
    var i :| 0 <= i < |r| && r[i] == x;
    var h := hs[pos[i]];
    assert pick(h) == Some(x);
    PickedAt(body, uses, h, x);
  }

  /** What one kept load records. */
  lemma PickedAt(body: seq<u32>, uses: seq<(u32, Variant)>, l: nat, x: ImageLoad)
    requires l + 3 < |body| && LoadPick(body, uses)(l) == Some(x)
    ensures x.load == l && body[l + 3] == x.image && VariantOf(uses, body[l + 2]) == Some(x.variant)
  {
  }

  /** Step 4 keeps every load whose result step 3 traced. */
  lemma PickedLoadsComplete(body: seq<u32>, hs: seq<nat>, uses: seq<(u32, Variant)>, x: ImageLoad)
    requires OperandsAt(body, hs, 3)
    requires x.load in hs && x.load + 3 < |body| && body[x.load + 3] == x.image
    requires VariantOf(uses, body[x.load + 2]) == Some(x.variant)
    ensures x in FilterMap(hs, LoadPick(body, uses))
  {
    var pick := LoadPick(body, uses);
    var pos := FilterMapOrder(hs, pick);
    var k :| 0 <= k < |hs| && hs[k] == x.load;
    assert pick(hs[k]) == Some(x);
    var i :| 0 <= i < |pos| && pos[i] == k;
  }

  /** Step 4 keeps exactly the loads whose result step 3 traced. */
  lemma PickedLoads(body: seq<u32>, hs: seq<nat>, uses: seq<(u32, Variant)>, x: ImageLoad)
    requires OperandsAt(body, hs, 3)
    ensures x in FilterMap(hs, LoadPick(body, uses)) <==>
      x.load in hs && x.load + 3 < |body| && body[x.load + 3] == x.image
      && VariantOf(uses, body[x.load + 2]) == Some(x.variant)
  {
    if x in FilterMap(hs, LoadPick(body, uses)) {
      PickedLoadsSound(body, hs, uses, x);
    }
    if x.load in hs && x.load + 3 < |body| && body[x.load + 3] == x.image
        && VariantOf(uses, body[x.load + 2]) == Some(x.variant) {
      PickedLoadsComplete(body, hs, uses, x);
    }
  }

  // ---------------------------------------------------------------------
  // Step 5: the images read both ways

  /** Some traced load of image variable `id` feeds an operation of kind
      `v`. */
  predicate UsedAs(ils: seq<ImageLoad>, id: u32, v: Variant)
  {
    exists k :: 0 <= k < |ils| && ils[k].image == id && ils[k].variant == v
  }

  /** The image variables some traced load feeds to a regular operation
      and some to a depth-comparison one. */
  function MixedIds(ils: seq<ImageLoad>): set<u32>
  {
    set k | 0 <= k < |ils| && UsedAs(ils, ils[k].image, Regular) && UsedAs(ils, ils[k].image, Dref) :: ils[k].image
  }

  lemma MixedMeaning(ils: seq<ImageLoad>, id: u32)
    ensures id in MixedIds(ils) <==> UsedAs(ils, id, Regular) && UsedAs(ils, id, Dref)
  {
    if UsedAs(ils, id, Regular) && UsedAs(ils, id, Dref) {
      var k :| 0 <= k < |ils| && ils[k].image == id && ils[k].variant == Regular;
    }
  }

  /** The offsets of the traced loads of image variable `id`, in order. */
  function LoadsOfImage(ils: seq<ImageLoad>, id: u32): seq<nat>
  {
    if |ils| == 0 then []
    else
      var last := ils[|ils| - 1];
      LoadsOfImage(ils[..|ils| - 1], id) + if last.image == id then [last.load] else []
  }

  /** They are the loads of the traced entries for `id`. */
  lemma {:induction false} LoadsOfImageMeaning(ils: seq<ImageLoad>, id: u32, l: nat)
    ensures l in LoadsOfImage(ils, id) <==> exists k :: 0 <= k < |ils| && ils[k].image == id && ils[k].load == l
  {
    if |ils| > 0 {
      var n := |ils| - 1;
      LoadsOfImageMeaning(ils[..n], id, l);
      assert forall k :: 0 <= k < n ==> ils[..n][k] == ils[k];
    }
  }

  /** What step 5 records of one image variable. */
  datatype Usage = Usage(regular: bool, dref: bool)

  lemma UsedAsStep(ils: seq<ImageLoad>, i: nat, id: u32, v: Variant)
    requires i < |ils|
    ensures UsedAs(ils[..i + 1], id, v) <==> UsedAs(ils[..i], id, v) || (ils[i].image == id && ils[i].variant == v)
  {
    assert forall k :: 0 <= k < i ==> ils[..i + 1][k] == ils[..i][k];
    if UsedAs(ils[..i + 1], id, v) {
      var k :| 0 <= k < i + 1 && ils[..i + 1][k].image == id && ils[..i + 1][k].variant == v;
      if k < i {
        assert ils[..i][k] == ils[..i + 1][k];
      }
    }
    if ils[i].image == id && ils[i].variant == v {
      assert ils[..i + 1][i] == ils[i];
    }
  }

  /** The records of step 5 after the first `i` traced loads. */
  ghost predicate Recorded(ils: seq<ImageLoad>, i: nat, uses: map<u32, Usage>, loadsOf: map<u32, seq<nat>>)
  {
    i <= |ils|
    && (forall id :: id in uses <==> exists k :: 0 <= k < i && ils[k].image == id)
    && loadsOf.Keys == uses.Keys
    && (forall id :: id in uses ==>
         (uses[id].regular <==> UsedAs(ils[..i], id, Regular)) && (uses[id].dref <==> UsedAs(ils[..i], id, Dref)))
    && (forall id :: id in loadsOf ==> loadsOf[id] == LoadsOfImage(ils[..i], id))
  }

  /** Marks one use of kind `v`. */
  function Mark(u: Usage, v: Variant): Usage
  {
    if v == Regular then u.(regular := true) else u.(dref := true)
  }

  /** Step 5: per image variable, whether it feeds a regular and a
      depth-comparison operation, and its loads in order; the variables
      that feed both form the mixed set.  The source keeps the mixed ids in
      hash-map order and only ever searches them, so the model keeps a
      set. */
  method MixImages(ils: seq<ImageLoad>) returns (mixed: set<u32>, loadsOf: map<u32, seq<nat>>)
    ensures mixed == MixedIds(ils)
    ensures forall id :: id in loadsOf <==> exists k :: 0 <= k < |ils| && ils[k].image == id
    ensures forall id :: id in loadsOf ==> loadsOf[id] == LoadsOfImage(ils, id)
  {
    var uses: map<u32, Usage> := map[];
    loadsOf := map[];
    var i: nat := 0;
    while i < |ils|
      invariant Recorded(ils, i, uses, loadsOf)
      decreases |ils| - i
    {
      MixStep(ils, i, uses, loadsOf);
      uses, loadsOf := RecordLoad(uses, loadsOf, ils[i]);
      i := i + 1;
    }
    MixDone(ils, i, uses, loadsOf);
    mixed := BothUses(uses);
  }

  /** The records after every traced load give the mixed set and the loads
      of each image variable. */
  lemma MixDone(ils: seq<ImageLoad>, i: nat, uses: map<u32, Usage>, loadsOf: map<u32, seq<nat>>)
    requires i >= |ils| && Recorded(ils, i, uses, loadsOf)
    ensures BothUses(uses) == MixedIds(ils)
    ensures forall id :: id in loadsOf <==> exists k :: 0 <= k < |ils| && ils[k].image == id
    ensures forall id :: id in loadsOf ==> loadsOf[id] == LoadsOfImage(ils, id)
  {
    MixEnd(ils, uses, loadsOf);
    MixedFound(ils, uses, loadsOf);
  }

  /** The variables whose records show both kinds of use. */
  function BothUses(uses: map<u32, Usage>): set<u32>
  {
    set id | id in uses && uses[id].regular && uses[id].dref
  }

  lemma MixedFound(ils: seq<ImageLoad>, uses: map<u32, Usage>, loadsOf: map<u32, seq<nat>>)
    requires forall id :: (id in uses && uses[id].regular && uses[id].dref) <==> (UsedAs(ils, id, Regular) && UsedAs(ils, id, Dref))
    ensures BothUses(uses) == MixedIds(ils)
  {
    forall id ensures id in BothUses(uses) <==> id in MixedIds(ils) {
      MixedMeaning(ils, id);
    }
  }

  /** The loop body of step 5: records one traced load. */
  method RecordLoad(uses: map<u32, Usage>, loadsOf: map<u32, seq<nat>>, x: ImageLoad)
    returns (uses': map<u32, Usage>, loadsOf': map<u32, seq<nat>>)
    ensures uses' == NextUses(uses, x) && loadsOf' == NextLoads(loadsOf, x)
  {
    var entry := if x.image in uses then uses[x.image] else Usage(false, false);
    var ls := LoadsAt(loadsOf, x.image);
    loadsOf' := loadsOf[x.image := ls + [x.load]];
    if x.variant == Regular {
      entry := entry.(regular := true);
    } else {
      entry := entry.(dref := true);
    }
    uses' := uses[x.image := entry];
  }

  /** The loads recorded for `id` so far. */
  function LoadsAt(loadsOf: map<u32, seq<nat>>, id: u32): seq<nat>
  {
    if id in loadsOf then loadsOf[id] else []
  }

  /** The records after traced load `x`. */
  function NextUses(uses: map<u32, Usage>, x: ImageLoad): map<u32, Usage>
  {
    uses[x.image := Mark(if x.image in uses then uses[x.image] else Usage(false, false), x.variant)]
  }

  function NextLoads(loadsOf: map<u32, seq<nat>>, x: ImageLoad): map<u32, seq<nat>>
  {
    loadsOf[x.image := LoadsAt(loadsOf, x.image) + [x.load]]
  }

  /** One traced load extends the records of the loads before it. */
  lemma MixStep(ils: seq<ImageLoad>, i: nat, uses: map<u32, Usage>, loadsOf: map<u32, seq<nat>>)
    requires i < |ils| && Recorded(ils, i, uses, loadsOf)
    ensures Recorded(ils, i + 1, NextUses(uses, ils[i]), NextLoads(loadsOf, ils[i]))
  {
    MixKeys(ils, i, uses, loadsOf);
    MixUses(ils, i, uses, loadsOf);
    MixLoads(ils, i, uses, loadsOf);
  }

  lemma MixKeys(ils: seq<ImageLoad>, i: nat, uses: map<u32, Usage>, loadsOf: map<u32, seq<nat>>)
    requires i < |ils| && Recorded(ils, i, uses, loadsOf)
    ensures var uses2 := NextUses(uses, ils[i]);
      (forall id :: id in uses2 <==> exists k :: 0 <= k < i + 1 && ils[k].image == id)
      && NextLoads(loadsOf, ils[i]).Keys == uses2.Keys
  {
    var uses2 := NextUses(uses, ils[i]);
    forall id ensures id in uses2 <==> exists k :: 0 <= k < i + 1 && ils[k].image == id {
    }
  }

  lemma MixUses(ils: seq<ImageLoad>, i: nat, uses: map<u32, Usage>, loadsOf: map<u32, seq<nat>>)
    requires i < |ils| && Recorded(ils, i, uses, loadsOf)
    ensures var uses2 := NextUses(uses, ils[i]);
      forall id :: id in uses2 ==>
        (uses2[id].regular <==> UsedAs(ils[..i + 1], id, Regular)) && (uses2[id].dref <==> UsedAs(ils[..i + 1], id, Dref))
  {
    var uses2 := NextUses(uses, ils[i]);
    forall id | id in uses2
      ensures (uses2[id].regular <==> UsedAs(ils[..i + 1], id, Regular)) && (uses2[id].dref <==> UsedAs(ils[..i + 1], id, Dref))
    {
      UsedAsStep(ils, i, id, Regular);
      UsedAsStep(ils, i, id, Dref);
      if id !in uses {
        UsedAsFresh(ils, i, id, Regular);
        UsedAsFresh(ils, i, id, Dref);
      }
    }
  }

  lemma UsedAsFresh(ils: seq<ImageLoad>, i: nat, id: u32, v: Variant)
    requires i <= |ils| && forall k :: 0 <= k < i ==> ils[k].image != id
    ensures !UsedAs(ils[..i], id, v)
  {
    assert forall k :: 0 <= k < i ==> ils[..i][k] == ils[k];
  }

  lemma MixLoads(ils: seq<ImageLoad>, i: nat, uses: map<u32, Usage>, loadsOf: map<u32, seq<nat>>)
    requires i < |ils| && Recorded(ils, i, uses, loadsOf)
    ensures var loads2 := NextLoads(loadsOf, ils[i]);
      forall id :: id in loads2 ==> loads2[id] == LoadsOfImage(ils[..i + 1], id)
  {
    var x := ils[i];
    var loads2 := NextLoads(loadsOf, x);
    assert ils[..i + 1][..i] == ils[..i];
    assert ils[..i + 1][i] == x;
    forall id | id in loads2 ensures loads2[id] == LoadsOfImage(ils[..i + 1], id) {
      if id == x.image && x.image !in loadsOf {
        assert forall k :: 0 <= k < i ==> ils[..i][k] == ils[k];
        LoadsOfFresh(ils[..i], id);
      }
    }
  }

  /** An image with no traced load has no loads. */
  lemma LoadsOfFresh(ils: seq<ImageLoad>, id: u32)
    requires forall k :: 0 <= k < |ils| ==> ils[k].image != id
    ensures LoadsOfImage(ils, id) == []
  {
    if LoadsOfImage(ils, id) != [] {
      LoadsOfImageMeaning(ils, id, LoadsOfImage(ils, id)[0]);
    }
  }

  /** What the records say once every traced load is in. */
  lemma MixEnd(ils: seq<ImageLoad>, uses: map<u32, Usage>, loadsOf: map<u32, seq<nat>>)
    requires Recorded(ils, |ils|, uses, loadsOf)
    ensures forall id :: (id in uses && uses[id].regular && uses[id].dref) <==> (UsedAs(ils, id, Regular) && UsedAs(ils, id, Dref))
    ensures forall id :: id in loadsOf <==> exists k :: 0 <= k < |ils| && ils[k].image == id
    ensures forall id :: id in loadsOf ==> loadsOf[id] == LoadsOfImage(ils, id)
  {
    assert ils[..|ils|] == ils;
    forall id | UsedAs(ils, id, Regular) ensures id in uses {
      var k :| 0 <= k < |ils| && ils[k].image == id && ils[k].variant == Regular;
    }
  }

  // ---------------------------------------------------------------------
  // Step 5, continued: duplicating the variables of mixed images

  /** One OpVariable is patched when its result id (operand 2) is mixed. */
  function PatchPick(body: seq<u32>, mixed: set<u32>): nat --> Option<nat>
  {
    (v: nat) requires v + 2 < |body| => if body[v + 2] in mixed then Some(v) else None
  }

  /** The variables to duplicate, in scan order. */
  function Patches(body: seq<u32>, vs: seq<nat>, mixed: set<u32>): seq<nat>
    requires OperandsAt(body, vs, 2)
  {
    FilterMap(vs, PatchPick(body, mixed))
  }

  /** Where each patched variable stands in the scan. */
  lemma PatchesAt(body: seq<u32>, vs: seq<nat>, mixed: set<u32>) returns (pos: seq<nat>)
    requires OperandsAt(body, vs, 2)
    ensures |pos| == |Patches(body, vs, mixed)|
    ensures forall i :: 0 <= i < |pos| ==>
      pos[i] < |vs| && Patches(body, vs, mixed)[i] == vs[pos[i]] && body[vs[pos[i]] + 2] in mixed
    ensures forall i, j :: 0 <= i < j < |pos| ==> pos[i] < pos[j]
    ensures forall k :: 0 <= k < |vs| && body[vs[k] + 2] in mixed ==> k in pos
  {
    var pick := PatchPick(body, mixed);
    pos := FilterMapOrder(vs, pick);
    var ps := Patches(body, vs, mixed);
    forall i | 0 <= i < |pos| ensures ps[i] == vs[pos[i]] && body[vs[pos[i]] + 2] in mixed {
      assert pick(vs[pos[i]]) == Some(ps[i]);
    }
    forall k | 0 <= k < |vs| && body[vs[k] + 2] in mixed ensures k in pos {
      assert pick(vs[k]).Some?;
    }
  }

  /** The patched variables are OpVariable heads, in scan order. */
  lemma PatchesHeads(body: seq<u32>, vs: seq<nat>, mixed: set<u32>)
    requires HeadsOf(body, vs, OpVariable) && OperandsAt(body, vs, 2)
    ensures HeadsOf(body, Patches(body, vs, mixed), OpVariable)
  {
    var pos := PatchesAt(body, vs, mixed);
  }

  /** A variable is patched exactly when it is scanned and its result id is
      mixed. */
  lemma PatchesMembers(body: seq<u32>, vs: seq<nat>, mixed: set<u32>)
    requires OperandsAt(body, vs, 2)
    ensures forall v :: v in Patches(body, vs, mixed) <==> v in vs && body[v + 2] in mixed
  {
    forall v ensures v in Patches(body, vs, mixed) <==> v in vs && body[v + 2] in mixed {
      PatchesMember(body, vs, mixed, v);
    }
  }

  lemma PatchesMember(body: seq<u32>, vs: seq<nat>, mixed: set<u32>, v: nat)
    requires OperandsAt(body, vs, 2)
    ensures v in Patches(body, vs, mixed) <==> v in vs && body[v + 2] in mixed
  {
    var ps := Patches(body, vs, mixed);
    var pos := PatchesAt(body, vs, mixed);
    if v in vs && body[v + 2] in mixed {
      var k :| 0 <= k < |vs| && vs[k] == v;
      var i :| 0 <= i < |pos| && pos[i] == k;
      assert ps[i] == v;
    }
    if v in ps {
      var i :| 0 <= i < |ps| && ps[i] == v;
      assert ps[i] == vs[pos[i]];
    }
  }

  /** Exactly the variables whose result id is mixed are patched, in scan
      order. */
  lemma PatchesMeaning(body: seq<u32>, vs: seq<nat>, mixed: set<u32>)
    requires HeadsOf(body, vs, OpVariable)
    ensures OperandsAt(body, vs, 2)
    ensures HeadsOf(body, Patches(body, vs, mixed), OpVariable)
    ensures forall v :: v in Patches(body, vs, mixed) <==> v in vs && body[v + 2] in mixed
  {
    HeadsOperands(body, vs, OpVariable, 2);
    PatchesHeads(body, vs, mixed);
    PatchesMembers(body, vs, mixed);
  }

  /** The duplicate of the variable at `v`: its words with the result id
      replaced by `id`. */
  function Renamed(body: seq<u32>, v: nat, id: u32): seq<u32>
    requires v < |body| && v + 3 < v + HiWord(body[v]) <= |body|
  {
    body[v..v + HiWord(body[v])][2 := id]
  }

  /** A duplicate is a shaped OpVariable of the same length that differs
      from the original only in its result id. */
  lemma RenamedMeaning(body: seq<u32>, v: nat, id: u32)
    requires v < |body| && LoWord(body[v]) == OpVariable && v + 3 < v + HiWord(body[v]) <= |body|
    ensures var r := Renamed(body, v, id);
      |r| == HiWord(body[v]) && r[2] == id && (forall j :: 0 <= j < |r| && j != 2 ==> r[j] == body[v + j])
      && InstrShaped(r) && Shaped(r)
  {
    var r := Renamed(body, v, id);
    assert r[0] == body[v];
    OneShaped(r);
  }

  /** The instruction inserts of the duplicates, each right after its
      original, numbered from `bound` on. */
  function Copies(body: seq<u32>, ps: seq<nat>, bound: u32): seq<InstructionInsert>
    requires HeadsOf(body, ps, OpVariable) && bound + |ps| <= MaxU32
  {
    seq(|ps|, i requires 0 <= i < |ps| => InstructionInsert(ps[i], Renamed(body, ps[i], bound + i)))
  }

  /** The duplicates for the decoration step: original id, new id. */
  function Affected(body: seq<u32>, ps: seq<nat>, bound: u32): seq<UtilDecorate.DecorationVariable>
    requires OperandsAt(body, ps, 2) && bound + |ps| <= MaxU32
  {
    seq(|ps|, i requires 0 <= i < |ps| => UtilDecorate.DecorationVariable(body[ps[i] + 2], bound + i, SplitDrefComparison))
  }

  /** The new id as an extra operand after the pointer (operand 3) of each
      load in `ls`. */
  function LoadWords(ls: seq<nat>, id: u32): seq<WordInsert>
  {
    seq(|ls|, k requires 0 <= k < |ls| => WordInsert(ls[k] + 3, id, ls[k]))
  }

  /** The word inserts for the first `n` duplicates, in order. */
  function Redirects(body: seq<u32>, ps: seq<nat>, loadsOf: map<u32, seq<nat>>, bound: u32, n: nat): seq<WordInsert>
    requires n <= |ps| && OperandsAt(body, ps, 2) && bound + |ps| <= MaxU32
  {
    if n == 0 then []
    else Redirects(body, ps, loadsOf, bound, n - 1) + LoadWords(LoadsAt(loadsOf, body[ps[n - 1] + 2]), bound + n - 1)
  }

  /** What the duplication loop stages. */
  datatype Staging = Staging(bound: u32, instructionInserts: seq<InstructionInsert>, wordInserts: seq<WordInsert>,
                             affected: seq<UtilDecorate.DecorationVariable>)

  /** The loop over the patched variables: each takes the next id, gets a
      duplicate inserted after it and a record for the decoration step, and
      each load of it gets the new id as an extra operand. */
  method DuplicateVariables(body: seq<u32>, ps: seq<nat>, loadsOf: map<u32, seq<nat>>, bound: u32) returns (r: Staging)
    requires HeadsOf(body, ps, OpVariable) && bound + |ps| <= MaxU32
    ensures OperandsAt(body, ps, 2)
    ensures r == Staging(bound + |ps|, Copies(body, ps, bound), Redirects(body, ps, loadsOf, bound, |ps|), Affected(body, ps, bound))
  {
    HeadsOperands(body, ps, OpVariable, 2);
    var instructionBound := bound;
    var instructionInserts: seq<InstructionInsert> := [];
    var wordInserts: seq<WordInsert> := [];
    var affected: seq<UtilDecorate.DecorationVariable> := [];
    var i: nat := 0;
    while i < |ps|
      invariant i <= |ps| && instructionBound == bound + i
      invariant instructionInserts == Copies(body, ps, bound)[..i]
      invariant affected == Affected(body, ps, bound)[..i]
      invariant wordInserts == Redirects(body, ps, loadsOf, bound, i)
    {
      instructionBound, instructionInserts, wordInserts, affected :=
        DuplicateVariable(body, ps, loadsOf, bound, i, instructionBound, instructionInserts, wordInserts, affected);
      i := i + 1;
    }
    assert Copies(body, ps, bound)[..i] == Copies(body, ps, bound);
    assert Affected(body, ps, bound)[..i] == Affected(body, ps, bound);
    r := Staging(instructionBound, instructionInserts, wordInserts, affected);
  }

  /** The body of the duplication loop for the `i`-th patched variable. */
  method DuplicateVariable(body: seq<u32>, ps: seq<nat>, loadsOf: map<u32, seq<nat>>, bound: u32, i: nat,
                           instructionBound0: u32, instructionInserts0: seq<InstructionInsert>,
                           wordInserts0: seq<WordInsert>, affected0: seq<UtilDecorate.DecorationVariable>)
    returns (instructionBound: u32, instructionInserts: seq<InstructionInsert>,
             wordInserts: seq<WordInsert>, affected: seq<UtilDecorate.DecorationVariable>)
    requires HeadsOf(body, ps, OpVariable) && bound + |ps| <= MaxU32 && i < |ps| && OperandsAt(body, ps, 2)
    requires instructionBound0 == bound + i
    requires instructionInserts0 == Copies(body, ps, bound)[..i] && affected0 == Affected(body, ps, bound)[..i]
    requires wordInserts0 == Redirects(body, ps, loadsOf, bound, i)
    ensures instructionBound == bound + (i + 1)
    ensures instructionInserts == Copies(body, ps, bound)[..i + 1] && affected == Affected(body, ps, bound)[..i + 1]
    ensures wordInserts == Redirects(body, ps, loadsOf, bound, i + 1)
  {
    var variableIdx := ps[i];
    var wordCount := HiWord(body[variableIdx]);
    var newVariableId := instructionBound0;
    instructionBound := instructionBound0 + 1;
    var newVariable := body[variableIdx..variableIdx + wordCount];
    newVariable := newVariable[2 := newVariableId];
    instructionInserts := instructionInserts0 + [InstructionInsert(variableIdx, newVariable)];
    affected := affected0 + [UtilDecorate.DecorationVariable(body[variableIdx + 2], newVariableId, SplitDrefComparison)];
    CopiesStep(body, ps, bound, i);
    var loads := LoadsAt(loadsOf, body[variableIdx + 2]);
    wordInserts := RedirectLoads(wordInserts0, loads, newVariableId);
  }

  lemma CopiesStep(body: seq<u32>, ps: seq<nat>, bound: u32, i: nat)
    requires HeadsOf(body, ps, OpVariable) && bound + |ps| <= MaxU32 && i < |ps|
    ensures OperandsAt(body, ps, 2)
    ensures Copies(body, ps, bound)[..i + 1] == Copies(body, ps, bound)[..i]
      + [InstructionInsert(ps[i], body[ps[i]..ps[i] + HiWord(body[ps[i]])][2 := bound + i])]
    ensures Affected(body, ps, bound)[..i + 1] == Affected(body, ps, bound)[..i]
      + [UtilDecorate.DecorationVariable(body[ps[i] + 2], bound + i, SplitDrefComparison)]
  {
    HeadsOperands(body, ps, OpVariable, 2);
    assert Copies(body, ps, bound)[..i + 1] == Copies(body, ps, bound)[..i] + [Copies(body, ps, bound)[i]];
    assert Affected(body, ps, bound)[..i + 1] == Affected(body, ps, bound)[..i] + [Affected(body, ps, bound)[i]];
  }

  /** The inner loop: a word insert after the pointer of each load. */
  method RedirectLoads(ws: seq<WordInsert>, loads: seq<nat>, id: u32) returns (r: seq<WordInsert>)
    ensures r == ws + LoadWords(loads, id)
  {
    r := ws;
    var k: nat := 0;
    while k < |loads|
      invariant k <= |loads| && r == ws + LoadWords(loads[..k], id)
    {
      assert LoadWords(loads[..k + 1], id) == LoadWords(loads[..k], id) + [WordInsert(loads[k] + 3, id, loads[k])];
      r := r + [WordInsert(loads[k] + 3, id, loads[k])];
      k := k + 1;
    }
    assert loads[..k] == loads;
  }

  // ---------------------------------------------------------------------
  // Where the staged edits go

  /** Every word insert lies inside an OpLoad it names as its head. */
  ghost predicate LoadGrafted(body: seq<u32>, ws: seq<WordInsert>)
  {
    forall i :: 0 <= i < |ws| ==>
      IsHead(body, ws[i].headIdx) && LoWord(body[ws[i].headIdx]) == OpLoad
      && ws[i].headIdx < ws[i].idx < ws[i].headIdx + HiWord(body[ws[i].headIdx])
  }

  /** Every instruction insert follows an OpVariable or an OpDecorate head
      and inserts a shaped run. */
  ghost predicate Placed(body: seq<u32>, ins: seq<InstructionInsert>)
  {
    forall i :: 0 <= i < |ins| ==>
      IsHead(body, ins[i].previousSpvIdx)
      && (LoWord(body[ins[i].previousSpvIdx]) == OpVariable || LoWord(body[ins[i].previousSpvIdx]) == OpDecorate)
      && Shaped(ins[i].instruction)
  }

  /** Such edits are edits the engine accepts, with shaped payloads: a load
      is never an anchor. */
  lemma PlacedEditsValid(body: seq<u32>, newSpv: seq<u32>, ws: seq<WordInsert>, ins: seq<InstructionInsert>)
    requires WellFormed(body) && |newSpv| == |body| && LoadGrafted(body, ws) && Placed(body, ins)
    ensures EditsValid(body, newSpv, Merge(ws, ins)) && PayloadsShaped(Merge(ws, ins))
  {
    var e := Merge(ws, ins);
    forall x | x in e ensures InsertValid(body, x) && (x.Instruction? ==> Shaped(x.ins.instruction)) {
      MergeMembers(ws, ins, x);
      if x.Word? {
        var k :| 0 <= k < |ws| && x.w == ws[k];
      } else {
        var k :| 0 <= k < |ins| && x.ins == ins[k];
      }
    }
    forall x, y | x in e && y in e && x.Word? && y.Instruction? ensures x.w.headIdx != y.ins.previousSpvIdx {
      MergeMembers(ws, ins, x);
      MergeMembers(ws, ins, y);
      var k :| 0 <= k < |ws| && x.w == ws[k];
      var j :| 0 <= j < |ins| && y.ins == ins[j];
    }
  }

  /** The duplicates follow their originals. */
  lemma CopiesPlaced(body: seq<u32>, ps: seq<nat>, bound: u32)
    requires HeadsOf(body, ps, OpVariable) && bound + |ps| <= MaxU32
    ensures Placed(body, Copies(body, ps, bound))
  {
    var cs := Copies(body, ps, bound);
    forall i | 0 <= i < |cs| ensures Shaped(cs[i].instruction) {
      RenamedMeaning(body, ps[i], bound + i);
    }
  }

  /** Every load a loop records is a found OpLoad. */
  ghost predicate LoadsFound(loadsOf: map<u32, seq<nat>>, loads: seq<nat>)
  {
    forall id :: id in loadsOf ==> forall l :: l in loadsOf[id] ==> l in loads
  }

  /** The extra operands go inside found loads. */
  lemma {:induction false} RedirectsGrafted(body: seq<u32>, ps: seq<nat>, loadsOf: map<u32, seq<nat>>, bound: u32, n: nat,
                                            loads: seq<nat>)
    requires n <= |ps| && OperandsAt(body, ps, 2) && bound + |ps| <= MaxU32
    requires HeadsOf(body, loads, OpLoad) && LoadsFound(loadsOf, loads)
    ensures LoadGrafted(body, Redirects(body, ps, loadsOf, bound, n))
  {
    if n > 0 {
      RedirectsGrafted(body, ps, loadsOf, bound, n - 1, loads);
      var a: seq<WordInsert> := Redirects(body, ps, loadsOf, bound, n - 1);
      var ls := LoadsAt(loadsOf, body[ps[n - 1] + 2]);
      var b: seq<WordInsert> := LoadWords(ls, bound + n - 1);
      forall i | 0 <= i < |a + b|
        ensures IsHead(body, (a + b)[i].headIdx) && LoWord(body[(a + b)[i].headIdx]) == OpLoad
        ensures (a + b)[i].headIdx < (a + b)[i].idx < (a + b)[i].headIdx + HiWord(body[(a + b)[i].headIdx])
      {
        if i >= |a| {
          var k := i - |a|;
          assert (a + b)[i] == WordInsert(ls[k] + 3, bound + n - 1, ls[k]);
          assert ls[k] in ls;
          var j :| 0 <= j < |loads| && loads[j] == ls[k];
        }
      }
    }
  }

  /** The decoration pairs follow the first OpDecorate. */
  lemma DecorationsPlaced(body: seq<u32>, st: seq<InstructionInsert>, m: map<UtilDecorate.Target, UtilDecorate.Entry>, anchor: nat)
    requires UtilDecorate.StagesEvery(st, m, anchor)
    requires |st| > 0 ==> IsHead(body, anchor) && LoWord(body[anchor]) == OpDecorate
    ensures Placed(body, st)
  {
    var ks: seq<UtilDecorate.Target> :| CombinedDecorate.Lists(ks, m) && |st| == |ks| && forall i :: 0 <= i < |st| ==> UtilDecorate.PairsNew(st[i], m, ks[i], anchor);
    forall i | 0 <= i < |st|
      ensures IsHead(body, st[i].previousSpvIdx) && Shaped(st[i].instruction)
      ensures LoWord(body[st[i].previousSpvIdx]) == OpVariable || LoWord(body[st[i].previousSpvIdx]) == OpDecorate
    {
      assert UtilDecorate.PairsNew(st[i], m, ks[i], anchor);
      DecorationsShaped(ks[i].newResId, m[ks[i]].descriptorSet.value.1, m[ks[i]].binding.value.1);
    }
  }

  lemma PlacedSplit(body: seq<u32>, pre: seq<InstructionInsert>, ins: seq<InstructionInsert>)
    requires |pre| <= |ins| && ins[..|pre|] == pre
    requires Placed(body, pre) && Placed(body, ins[|pre|..])
    ensures Placed(body, ins)
  {
    forall i | |pre| <= i < |ins| ensures ins[i] == ins[|pre|..][i - |pre|] {
    }
  }

  // ---------------------------------------------------------------------
  // What steps 2 to 5 select

  /** Some found load of image variable `id` (its operand 3) produces an
      image that step 3 traced to an operation of kind `v`. */
  ghost predicate LoadedAs(body: seq<u32>, f: Found, id: u32, v: Variant)
    requires Traceable(body, f)
  {
    exists l :: l in f.loads && l + 3 < |body| && body[l + 3] == id && VariantOf(ImageUses(body, f), body[l + 2]) == Some(v)
  }

  lemma UsedAsLoaded(body: seq<u32>, f: Found, id: u32, v: Variant)
    requires Traceable(body, f)
    ensures UsedAs(ImageLoads(body, f), id, v) <==> LoadedAs(body, f, id, v)
  {
    if UsedAs(ImageLoads(body, f), id, v) {
      UsedIsLoaded(body, f, id, v);
    }
    if LoadedAs(body, f, id, v) {
      LoadedIsUsed(body, f, id, v);
    }
  }

  lemma UsedIsLoaded(body: seq<u32>, f: Found, id: u32, v: Variant)
    requires Traceable(body, f) && UsedAs(ImageLoads(body, f), id, v)
    ensures LoadedAs(body, f, id, v)
  {
    var ils := ImageLoads(body, f);
    var k :| 0 <= k < |ils| && ils[k].image == id && ils[k].variant == v;
    PickedLoadsSound(body, f.loads, ImageUses(body, f), ils[k]);
  }

  lemma LoadedIsUsed(body: seq<u32>, f: Found, id: u32, v: Variant)
    requires Traceable(body, f) && LoadedAs(body, f, id, v)
    ensures UsedAs(ImageLoads(body, f), id, v)
  {
    var ils := ImageLoads(body, f);
    var l :| l in f.loads && l + 3 < |body| && body[l + 3] == id && VariantOf(ImageUses(body, f), body[l + 2]) == Some(v);
    PickedLoadsComplete(body, f.loads, ImageUses(body, f), ImageLoad(id, l, v));
    var k :| 0 <= k < |ils| && ils[k] == ImageLoad(id, l, v);
  }

  /** The variables the pass duplicates. */
  ghost function Duplicated(body: seq<u32>): seq<nat>
    requires Shaped(body) && WellFormed(body)
  {
    FoundInside(body);
    var f := Located(body);
    Patches(body, f.variables, MixedIds(ImageLoads(body, f)))
  }

  /** A variable is duplicated exactly when it is loaded both for a regular
      and for a depth-comparison operation. */
  lemma DuplicatedMeaning(body: seq<u32>, v: nat)
    requires Shaped(body) && WellFormed(body)
    ensures Traceable(body, Located(body)) && OperandsAt(body, Located(body).variables, 2)
    ensures v in Duplicated(body) <==>
      v in Located(body).variables && v + 2 < |body|
      && LoadedAs(body, Located(body), body[v + 2], Regular) && LoadedAs(body, Located(body), body[v + 2], Dref)
  {
    FoundInside(body);
    var f := Located(body);
    var ils := ImageLoads(body, f);
    PatchesMeaning(body, f.variables, MixedIds(ils));
    if v in f.variables {
      var k :| 0 <= k < |f.variables| && f.variables[k] == v;
      MixedMeaning(ils, body[v + 2]);
      UsedAsLoaded(body, f, body[v + 2], Regular);
      UsedAsLoaded(body, f, body[v + 2], Dref);
    }
  }

  /** The traced loads of an image variable are found loads. */
  lemma TracedLoadsFound(body: seq<u32>, f: Found, loadsOf: map<u32, seq<nat>>)
    requires Traceable(body, f)
    requires forall id :: id in loadsOf ==> loadsOf[id] == LoadsOfImage(ImageLoads(body, f), id)
    ensures LoadsFound(loadsOf, f.loads)
  {
    var ils := ImageLoads(body, f);
    forall id, l | id in loadsOf && l in loadsOf[id] ensures l in f.loads {
      LoadsOfImageMeaning(ils, id, l);
      var k :| 0 <= k < |ils| && ils[k].image == id && ils[k].load == l;
      PickedLoadsSound(body, f.loads, ImageUses(body, f), ils[k]);
    }
  }

  /** The extra operands: duplicate `i` goes after the pointer of every
      recorded load of its original. */
  lemma {:induction false} RedirectsMeaning(body: seq<u32>, ps: seq<nat>, loadsOf: map<u32, seq<nat>>, bound: u32, n: nat, w: WordInsert)
    requires n <= |ps| && OperandsAt(body, ps, 2) && bound + |ps| <= MaxU32
    ensures w in Redirects(body, ps, loadsOf, bound, n) <==>
      exists i :: 0 <= i < n && w.word == bound + i && w.headIdx in LoadsAt(loadsOf, body[ps[i] + 2]) && w.idx == w.headIdx + 3
  {
    if n > 0 {
      RedirectsMeaning(body, ps, loadsOf, bound, n - 1, w);
      var ls := LoadsAt(loadsOf, body[ps[n - 1] + 2]);
      var b := LoadWords(ls, bound + n - 1);
      if w in b {
        var k :| 0 <= k < |b| && b[k] == w;
        assert w.headIdx == ls[k];
      }
      if w.word == bound + n - 1 && w.headIdx in ls && w.idx == w.headIdx + 3 {
        var k :| 0 <= k < |ls| && ls[k] == w.headIdx;
        assert b[k] == w;
      }
    }
  }

  /** The same, with the loads the trace found for each original. */
  lemma RedirectsTraced(body: seq<u32>, ps: seq<nat>, ils: seq<ImageLoad>, loadsOf: map<u32, seq<nat>>, bound: u32, w: WordInsert)
    requires OperandsAt(body, ps, 2) && bound + |ps| <= MaxU32
    requires forall id :: id in loadsOf <==> exists k :: 0 <= k < |ils| && ils[k].image == id
    requires forall id :: id in loadsOf ==> loadsOf[id] == LoadsOfImage(ils, id)
    ensures w in Redirects(body, ps, loadsOf, bound, |ps|) <==>
      exists i :: 0 <= i < |ps| && w.word == bound + i && w.idx == w.headIdx + 3
        && w.headIdx in LoadsOfImage(ils, body[ps[i] + 2])
  {
    RedirectsMeaning(body, ps, loadsOf, bound, |ps|, w);
    forall i | 0 <= i < |ps| ensures LoadsAt(loadsOf, body[ps[i] + 2]) == LoadsOfImage(ils, body[ps[i] + 2]) {
      LoadsAtTraced(ils, loadsOf, body[ps[i] + 2]);
    }
  }

  // ---------------------------------------------------------------------
  // The pass

  /** What the pass needs of a body: its shape, room for one new id per
      variable, and every decoration's target and kind inside the body. */
  ghost predicate Admissible(body: seq<u32>, bound: u32)
  {
    Shaped(body) && WellFormed(body) && bound + |Located(body).variables| <= MaxU32
    && UtilDecorate.DecorationsIn(body, Located(body).decorates)
  }

  /** The loads recorded for an image variable are its traced loads. */
  lemma LoadsAtTraced(ils: seq<ImageLoad>, loadsOf: map<u32, seq<nat>>, id: u32)
    requires forall id :: id in loadsOf <==> exists k :: 0 <= k < |ils| && ils[k].image == id
    requires forall id :: id in loadsOf ==> loadsOf[id] == LoadsOfImage(ils, id)
    ensures LoadsAt(loadsOf, id) == LoadsOfImage(ils, id)
  {
    if id !in loadsOf {
      LoadsOfFresh(ils, id);
    }
  }

  /** Steps 2 to 5a: the variables to duplicate, and the traced loads of
      every image variable. */
  method TraceMixed(body: seq<u32>, f: Found) returns (ps: seq<nat>, loadsOf: map<u32, seq<nat>>)
    requires Shaped(body) && WellFormed(body) && f == Located(body)
    ensures Traceable(body, f) && ps == Duplicated(body) && |ps| <= |f.variables|
    ensures OperandsAt(body, ps, 2) && HeadsOf(body, ps, OpVariable) && HeadsOf(body, f.loads, OpLoad)
    ensures forall id :: id in loadsOf <==> exists k :: 0 <= k < |ImageLoads(body, f)| && ImageLoads(body, f)[k].image == id
    ensures forall id :: id in loadsOf ==> loadsOf[id] == LoadsOfImage(ImageLoads(body, f), id)
  {
    FoundInside(body);
    var ils := ImageLoads(body, f);
    var mixed;
    mixed, loadsOf := MixImages(ils);
    ps := Patches(body, f.variables, mixed);
    PatchesMeaning(body, f.variables, mixed);
  }

  /** What the duplication step leaves for the later steps: duplicate `i`
      takes id `bound + i`, and goes after the pointer of every traced load
      of its original. */
  ghost predicate Staged(body: seq<u32>, f: Found, bound: u32, ps: seq<nat>, st: Staging)
    requires Traceable(body, f) && OperandsAt(body, ps, 2) && HeadsOf(body, ps, OpVariable) && bound + |ps| <= MaxU32
  {
    st.bound == bound + |ps|
    && st.instructionInserts == Copies(body, ps, bound)
    && st.affected == Affected(body, ps, bound)
    && (forall w :: w in st.wordInserts <==>
         exists i :: 0 <= i < |ps| && w.word == bound + i && w.idx == w.headIdx + 3
           && w.headIdx in LoadsOfImage(ImageLoads(body, f), body[ps[i] + 2]))
    && LoadGrafted(body, st.wordInserts) && Placed(body, st.instructionInserts)
  }

  lemma StagedFrom(body: seq<u32>, f: Found, bound: u32, ps: seq<nat>, loadsOf: map<u32, seq<nat>>, st: Staging)
    requires Traceable(body, f) && OperandsAt(body, ps, 2) && HeadsOf(body, ps, OpVariable) && bound + |ps| <= MaxU32
    requires HeadsOf(body, f.loads, OpLoad)
    requires forall id :: id in loadsOf <==> exists k :: 0 <= k < |ImageLoads(body, f)| && ImageLoads(body, f)[k].image == id
    requires forall id :: id in loadsOf ==> loadsOf[id] == LoadsOfImage(ImageLoads(body, f), id)
    requires st == Staging(bound + |ps|, Copies(body, ps, bound), Redirects(body, ps, loadsOf, bound, |ps|), Affected(body, ps, bound))
    ensures Staged(body, f, bound, ps, st)
  {
    var ils := ImageLoads(body, f);
    CopiesPlaced(body, ps, bound);
    TracedLoadsFound(body, f, loadsOf);
    RedirectsGrafted(body, ps, loadsOf, bound, |ps|, f.loads);
    forall w ensures w in st.wordInserts <==>
      exists i :: 0 <= i < |ps| && w.word == bound + i && w.idx == w.headIdx + 3
        && w.headIdx in LoadsOfImage(ils, body[ps[i] + 2])
    {
      RedirectsTraced(body, ps, ils, loadsOf, bound, w);
    }
  }

  /** Steps 2 to 5: the trace back from the sampling operations, the mixed
      images and the duplication loop. */
  method StageDuplicates(body: seq<u32>, f: Found, bound: u32) returns (st: Staging, loadsOf: map<u32, seq<nat>>)
    requires Admissible(body, bound) && f == Located(body)
    ensures Traceable(body, f) && OperandsAt(body, Duplicated(body), 2) && HeadsOf(body, Duplicated(body), OpVariable)
    ensures bound + |Duplicated(body)| <= MaxU32
    ensures Staged(body, f, bound, Duplicated(body), st)
    ensures LoadsIndexed(body, f, loadsOf) && st == Duplicates(body, bound, loadsOf)
  {
    var ps;
    ps, loadsOf := TraceMixed(body, f);
    st := DuplicateVariables(body, ps, loadsOf, bound);
    StagedFrom(body, f, bound, ps, loadsOf, st);
  }

  /** The index of step 5: every image id a load yields, with its loads in
      scan order. */
  ghost predicate LoadsIndexed(body: seq<u32>, f: Found, loadsOf: map<u32, seq<nat>>)
    requires Traceable(body, f)
  {
    && (forall id :: id in loadsOf <==> exists k :: 0 <= k < |ImageLoads(body, f)| && ImageLoads(body, f)[k].image == id)
    && (forall id :: id in loadsOf ==> loadsOf[id] == LoadsOfImage(ImageLoads(body, f), id))
  }

  /** What the duplication loop stages for the variables used both ways. */
  ghost function Duplicates(body: seq<u32>, bound: u32, loadsOf: map<u32, seq<nat>>): Staging
    requires Shaped(body) && WellFormed(body)
    requires OperandsAt(body, Duplicated(body), 2) && HeadsOf(body, Duplicated(body), OpVariable)
    requires bound + |Duplicated(body)| <= MaxU32
  {
    var ps := Duplicated(body);
    Staging(bound + |ps|, Copies(body, ps, bound), Redirects(body, ps, loadsOf, bound, |ps|), Affected(body, ps, bound))
  }

  /** Step 6 as the source composes it, for some iteration order of its
      maps: the decoration step's inserts and the sets it names, with an
      empty correction map given. */
  ghost predicate Decorated(body: seq<u32>, f: Found, st: Staging, ins: seq<InstructionInsert>, sets: set<u32>)
    requires UtilDecorate.DecorationsIn(body, f.decorates)
  {
    exists rows, keys :: UtilDecorate.Orders(body, f.decorates, st.affected, Some(CorrectionMap([])), rows, keys)
      && DecoratedBy(body, f, st, rows, keys, ins, sets)
  }

  ghost predicate DecoratedBy(body: seq<u32>, f: Found, st: Staging, rows: seq<CorrectionBuild.BindingRow>, keys: seq<UtilDecorate.Target>,
                              ins: seq<InstructionInsert>, sets: set<u32>)
    requires UtilDecorate.DecorationsIn(body, f.decorates)
  {
    var d := UtilDecorate.DecorateSpec(body, st.instructionInserts, f.firstDecorate, f.decorates, st.affected,
                                       Some(CorrectionMap([])), rows, keys);
    d.Success? && d.value.inserts == ins && d.value.descriptorSetsToCorrect == sets
  }

  /** Steps 7 to 9 as the source composes them: the staged edits applied to
      the body, the binding fix-up of `sets`, and the pruning. */
  ghost predicate Assembled(body: seq<u32>, ws: seq<WordInsert>, ins: seq<InstructionInsert>, sets: set<u32>, out: seq<u32>)
  {
    NoOverflow(body, Merge(ws, ins))
    && var e := Ideal(body, body, Merge(ws, ins));
       WellFormed(e) && CorrectDecorate.Scan(e).Success?
       && exists c :: CorrectDecorate.Corrected(e, c, CorrectDecorate.Scan(e).value, sets) && WellFormed(c) && out == PruneFrom(c, 0)
  }

  /** Steps 2 to 9 on a body: the duplicates of the variables used both
      ways, their decorations, the edits, the fix-up and the pruning give
      `out`. */
  ghost predicate SplitInto(body: seq<u32>, bound: u32, out: seq<u32>)
    requires Admissible(body, bound)
  {
    var f := Located(body);
    Traceable(body, f) && OperandsAt(body, Duplicated(body), 2) && HeadsOf(body, Duplicated(body), OpVariable)
    && bound + |Duplicated(body)| <= MaxU32 && UtilDecorate.DecorationsIn(body, f.decorates)
    && exists loadsOf, ins, sets :: LoadsIndexed(body, f, loadsOf)
         && Decorated(body, f, Duplicates(body, bound, loadsOf), ins, sets)
         && Assembled(body, Duplicates(body, bound, loadsOf).wordInserts, ins, sets, out)
  }

  /** The checks of the decoration step, none of which depends on an
      iteration order: the word after each decoration's kind is there, the
      original of each copy has a Binding exactly when it has a
      DescriptorSet, there is an OpDecorate to anchor at once a copy is
      decorated, and no such Binding is 0xFFFF_FFFF, so `binding + 1` fits.
      Stamping the empty map cannot fail. */
  ghost predicate DecorateOk(body: seq<u32>, f: Found, st: Staging)
    requires UtilDecorate.DecorationsIn(body, f.decorates)
  {
    UtilDecorate.ReadableTo(body, f.decorates, st.affected, |f.decorates|)
    && var m := UtilDecorate.Survey(body, f.decorates, st.affected, |f.decorates|).decorations;
       !CombinedDecorate.LacksBinding(m) && !CombinedDecorate.LacksSet(m)
       && (|m| > 0 ==> f.firstDecorate.Some?) && !CombinedDecorate.BindingAtMax(m)
  }

  /** The checks of steps 7 and 8 for the decoration step's `ins` and
      `sets`: no word count passes 0xFFFF, the decorations of the edited
      module can be read, and, when a set is to be corrected, every
      decorated id has both decorations and no shifted Binding passes
      0xFFFF_FFFF. */
  ghost predicate Fits(body: seq<u32>, ws: seq<WordInsert>, ins: seq<InstructionInsert>, sets: set<u32>)
  {
    NoOverflow(body, Merge(ws, ins))
    && var e := Ideal(body, body, Merge(ws, ins));
       WellFormed(e) && CorrectDecorate.Scan(e).Success?
       && (sets == {} || CorrectDecorate.Complete(CorrectDecorate.Scan(e).value))
       && CorrectDecorate.NoBindingOverflow(CorrectDecorate.Scan(e).value, sets)
  }

  /** Steps 6 to 9 pass every check, whatever order the maps are visited in. */
  ghost predicate Proceeds(body: seq<u32>, f: Found, st: Staging)
    requires UtilDecorate.DecorationsIn(body, f.decorates)
  {
    DecorateOk(body, f, st)
    && forall ins, sets :: Decorated(body, f, st, ins, sets) ==> Fits(body, st.wordInserts, ins, sets)
  }

  /** With the empty map given, `decorate` succeeds once its order-free
      checks pass. */
  lemma DecorateOkSucceeds(body: seq<u32>, f: Found, st: Staging, rows: seq<CorrectionBuild.BindingRow>, keys: seq<UtilDecorate.Target>)
    requires UtilDecorate.DecorationsIn(body, f.decorates) && DecorateOk(body, f, st)
    requires UtilDecorate.Orders(body, f.decorates, st.affected, Some(CorrectionMap([])), rows, keys)
    ensures UtilDecorate.DecorateSpec(body, st.instructionInserts, f.firstDecorate, f.decorates, st.affected,
                                      Some(CorrectionMap([])), rows, keys).Success?
  {
    var m := UtilDecorate.Survey(body, f.decorates, st.affected, |f.decorates|).decorations;
    CorrectionStamp.BareStampsSucceed([], UtilDecorate.StampsOf(m, keys));
  }

  /** With no variable to compare, the scan records nothing. */
  lemma {:induction false} SurveyOfNone(body: seq<u32>, ds: seq<nat>, k: nat)
    requires k <= |ds|
    ensures UtilDecorate.Survey(body, ds, [], k) == UtilDecorate.Seen(map[], {})
  {
    if k > 0 {
      SurveyOfNone(body, ds, k - 1);
    }
  }

  /** With nothing copied, `decorate` hands back the inserts it was given
      and no set to correct. */
  lemma DecorateNothing(body: seq<u32>, f: Found, st: Staging, rows: seq<CorrectionBuild.BindingRow>, keys: seq<UtilDecorate.Target>)
    requires UtilDecorate.DecorationsIn(body, f.decorates) && st.affected == []
    requires UtilDecorate.Orders(body, f.decorates, st.affected, Some(CorrectionMap([])), rows, keys)
    ensures UtilDecorate.DecorateSpec(body, st.instructionInserts, f.firstDecorate, f.decorates, st.affected,
                                      Some(CorrectionMap([])), rows, keys)
            == Success(UtilDecorate.DecorateOut(st.instructionInserts, CorrectionMap([]), {}))
  {
    SurveyOfNone(body, f.decorates, |f.decorates|);
    assert keys == [];
    assert st.instructionInserts + UtilDecorate.Pairs(map[], keys, if f.firstDecorate.Some? then f.firstDecorate.value else 0)
      == st.instructionInserts;
  }

  /** Step 6: the decoration step, whose inserts follow the first
      OpDecorate; no correction map is kept. */
  method StageDecorations(body: seq<u32>, f: Found, st: Staging) returns (r: Result<UtilDecorate.DecorateOut>)
    requires WellFormed(body) && f == Located(body) && UtilDecorate.DecorationsIn(body, f.decorates)
    requires Placed(body, st.instructionInserts)
    ensures r.Success? ==> Placed(body, r.value.inserts)
    ensures r.Success? ==> Decorated(body, f, st, r.value.inserts, r.value.descriptorSetsToCorrect)
    ensures DecorateOk(body, f, st) ==> r.Success?
    ensures st.affected == [] ==> r == Success(UtilDecorate.DecorateOut(st.instructionInserts, CorrectionMap([]), {}))
  {
    var corrections := Some(CorrectionMap([]));
    r := UtilDecorate.Decorate(body, st.instructionInserts, f.firstDecorate, f.decorates, st.affected, corrections);
    ghost var rows, keys :| UtilDecorate.Orders(body, f.decorates, st.affected, corrections, rows, keys)
      && r == UtilDecorate.DecorateSpec(body, st.instructionInserts, f.firstDecorate, f.decorates, st.affected, corrections, rows, keys);
    if DecorateOk(body, f, st) {
      DecorateOkSucceeds(body, f, st, rows, keys);
    }
    if st.affected == [] {
      DecorateNothing(body, f, st, rows, keys);
    }
    if r.Success? {
      assert DecoratedBy(body, f, st, rows, keys, r.value.inserts, r.value.descriptorSetsToCorrect);
      UtilDecorate.DecorateStages(body, st.instructionInserts, f.firstDecorate, f.decorates, st.affected, corrections, rows, keys);
      ghost var m := UtilDecorate.Survey(body, f.decorates, st.affected, |f.decorates|).decorations;
      assert |m| == 0 || f.firstDecorate.Some?;
      var n := |st.instructionInserts|;
      var anchor := if f.firstDecorate.Some? then f.firstDecorate.value else 0;
      if f.firstDecorate.Some? {
        OffsetsAreHeads(body, Opcode(OpDecorate), anchor);
      }
      DecorationsPlaced(body, r.value.inserts[n..], m, anchor);
      PlacedSplit(body, st.instructionInserts, r.value.inserts);
    }
  }

  /** Steps 6 to 9: the decoration step, the edit engine, the binding
      fix-up and the pruning. */
  method FinishSplit(body: seq<u32>, f: Found, st: Staging) returns (r: Result<seq<u32>>, ins: seq<InstructionInsert>, sets: set<u32>)
    requires Shaped(body) && WellFormed(body) && f == Located(body) && UtilDecorate.DecorationsIn(body, f.decorates)
    requires LoadGrafted(body, st.wordInserts) && Placed(body, st.instructionInserts)
    ensures r.Success? ==> WellFormed(r.value) && forall x :: x in Instructions(r.value, 0) ==> !IsTombstone(x)
    ensures r.Success? ==> Decorated(body, f, st, ins, sets) && Assembled(body, st.wordInserts, ins, sets, r.value)
    ensures Proceeds(body, f, st) ==> r.Success?
    ensures st.instructionInserts == [] && st.wordInserts == [] && st.affected == [] && CorrectDecorate.Scan(body).Success? ==>
      r == Success(PruneFrom(body, 0))
  {
    var d := StageDecorations(body, f, st);
    if d.Failure? {
      return Failure(d.error), [], {};
    }
    ins, sets := d.value.inserts, d.value.descriptorSetsToCorrect;
    r := AssembleSplit(body, st.wordInserts, ins, sets);
  }

  /** Steps 7 to 9: the edit engine, the binding correction and the
      pruning, which succeed when their checks pass; with nothing to
      insert and no set to correct they only prune. */
  method AssembleSplit(body: seq<u32>, ws: seq<WordInsert>, ins: seq<InstructionInsert>, sets: set<u32>) returns (r: Result<seq<u32>>)
    requires Shaped(body) && WellFormed(body)
    requires LoadGrafted(body, ws) && Placed(body, ins)
    ensures r.Success? ==> WellFormed(r.value) && forall x :: x in Instructions(r.value, 0) ==> !IsTombstone(x)
    ensures r.Success? ==> Assembled(body, ws, ins, sets, r.value)
    ensures Fits(body, ws, ins, sets) ==> r.Success?
    ensures ws == [] && ins == [] && sets == {} && CorrectDecorate.Scan(body).Success? ==> r == Success(PruneFrom(body, 0))
  {
    if ws == [] && ins == [] {
      assert Merge(ws, ins) == [];
      IdealOfNothing(body, body, 0);
      assert body[0..] == body;
    }

    // Step 7.
    PlacedEditsValid(body, body, ws, ins);
    var inserted := InsertNewInstructions(body, body, ws, ins);
    if inserted.Failure? {
      return Failure(inserted.error);
    }
    PlainWritesKeepShape(body, body);
    IdealShaped(body, body, Merge(ws, ins));

    // Step 8.
    var corrected := CorrectDecorate.CorrectBindings(inserted.value, sets);
    if corrected.Failure? {
      return Failure(corrected.error);
    }
    CorrectedKeepsShape(inserted.value, corrected.value, sets);

    // Step 9.
    var pruned := PruneNoops(corrected.value);
    PruneLeavesNoTombstone(corrected.value);
    r := Success(pruned);
    assert CorrectDecorate.Corrected(inserted.value, corrected.value, CorrectDecorate.Scan(inserted.value).value, sets);
  }

  /** Steps 2 to 9 pass every check: the duplication stages what it must,
      and steps 6 to 9 then succeed for every iteration order. */
  ghost predicate SplitProceeds(body: seq<u32>, bound: u32)
    requires Admissible(body, bound)
  {
    var f := Located(body);
    Traceable(body, f) && OperandsAt(body, Duplicated(body), 2) && HeadsOf(body, Duplicated(body), OpVariable)
    && bound + |Duplicated(body)| <= MaxU32
    && forall loadsOf :: LoadsIndexed(body, f, loadsOf) ==> Proceeds(body, f, Duplicates(body, bound, loadsOf))
  }

  /** Steps 1 to 9 on the body: the new bound counts one id per
      duplicate; the result is the split of `SplitInto`, succeeding
      whenever every check passes; and a body with nothing to duplicate
      comes back pruned and otherwise unchanged. */
  method SplitBody(body: seq<u32>, bound: u32) returns (r: Result<seq<u32>>, newBound: u32)
    requires Admissible(body, bound)
    ensures newBound as int == bound as int + |Duplicated(body)|
    ensures r.Success? ==>
      WellFormed(r.value) && (forall ins :: ins in Instructions(r.value, 0) ==> !IsTombstone(ins))
      && SplitInto(body, bound, r.value)
    ensures SplitProceeds(body, bound) ==> r.Success?
    ensures Duplicated(body) == [] && CorrectDecorate.Scan(body).Success? ==> r == Success(PruneFrom(body, 0))
  {
    // Step 1.
    var f := ScanBody(body);

    // Steps 2 to 5.
    var st, loadsOf := StageDuplicates(body, f, bound);
    newBound := st.bound;

    // Steps 6 to 9.
    var ins, sets;
    r, ins, sets := FinishSplit(body, f, st);
    if r.Success? {
      assert Decorated(body, f, Duplicates(body, bound, loadsOf), ins, sets);
    }
  }

  /** `dreftexturesplitter`: the header checks, steps 1 to 9 on the body,
      and the new header. */
  method DrefTextureSplitter(spv: seq<u32>) returns (r: Result<seq<u32>>)
    requires |spv| >= HeaderLength ==> Admissible(spv[HeaderLength..], spv[BoundOffset])
    ensures |spv| < HeaderLength ==> r == Failure(TruncatedHeader)
    ensures |spv| >= HeaderLength && spv[MagicOffset] != Magic ==> r == Failure(MagicMismatch)
    ensures r.Success? ==> |spv| >= HeaderLength && ModuleSplit(spv, r.value)
    ensures |spv| >= HeaderLength && spv[MagicOffset] == Magic ==> Promised(spv, r)
  {
    if |spv| < HeaderLength {
      return Failure(TruncatedHeader);
    }
    var instructionBound := spv[BoundOffset];
    var header := spv[..HeaderLength];
    if spv[MagicOffset] != Magic {
      return Failure(MagicMismatch);
    }
    var body := spv[HeaderLength..];

    // Steps 1 to 9.
    var out, newBound := SplitBody(body, instructionBound);
    if out.Failure? {
      return Failure(out.error);
    }

    // Step 10.
    r := FuseFinal(header, out.value, newBound);
    RefittedBy(spv, body, instructionBound, out.value, newBound, r.value);
    SplitIntoFused(spv, body, instructionBound, out.value, r.value);
  }

  /** When the pass succeeds on a module whose header checks pass: whenever
      every check of the split passes, and with the body only pruned when
      there is nothing to duplicate and its decorations can be read. */
  ghost predicate Promised(spv: seq<u32>, r: Result<seq<u32>>)
    requires |spv| >= HeaderLength && Admissible(spv[HeaderLength..], spv[BoundOffset])
  {
    var body := spv[HeaderLength..];
    && (SplitProceeds(body, spv[BoundOffset]) ==> r.Success?)
    && (Duplicated(body) == [] && CorrectDecorate.Scan(body).Success? ==> r == Success(spv[..HeaderLength] + PruneFrom(body, 0)))
  }

  /** The module a successful split returns: the header keeps every word
      but the bound, which grows by one id per duplicate, and the body is
      the split of `SplitInto`, well formed and free of tombstones. */
  ghost predicate ModuleSplit(spv: seq<u32>, out: seq<u32>)
    requires |spv| >= HeaderLength && Admissible(spv[HeaderLength..], spv[BoundOffset])
  {
    Refitted(spv, out) && SplitInto(spv[HeaderLength..], spv[BoundOffset], out[HeaderLength..])
  }

  ghost predicate Refitted(spv: seq<u32>, out: seq<u32>)
    requires |spv| >= HeaderLength && Admissible(spv[HeaderLength..], spv[BoundOffset])
  {
    && |out| >= HeaderLength
    && out[BoundOffset] as int == spv[BoundOffset] as int + |Duplicated(spv[HeaderLength..])|
    && (forall k :: 0 <= k < HeaderLength && k != BoundOffset ==> out[k] == spv[k])
    && WellFormed(out[HeaderLength..])
    && (forall ins :: ins in Instructions(out[HeaderLength..], 0) ==> !IsTombstone(ins))
  }

  /** The split body and the new bound make the new header; with nothing
      duplicated the header is the old one. */
  lemma RefittedBy(spv: seq<u32>, body: seq<u32>, bound: u32, out: seq<u32>, newBound: u32, r: seq<u32>)
    requires |spv| >= HeaderLength && body == spv[HeaderLength..] && bound == spv[BoundOffset]
    requires Admissible(body, bound)
    requires WellFormed(out) && forall ins :: ins in Instructions(out, 0) ==> !IsTombstone(ins)
    requires newBound as int == bound as int + |Duplicated(body)|
    requires FuseFinal(spv[..HeaderLength], out, newBound) == Success(r)
    ensures Refitted(spv, r) && r[HeaderLength..] == out
    ensures Duplicated(body) == [] ==> r == spv[..HeaderLength] + out
  {
    assert r[HeaderLength..] == out;
    if Duplicated(body) == [] {
      assert spv[..HeaderLength][BoundOffset := newBound] == spv[..HeaderLength];
    }
  }

  /** A split of the body is a split of the module's body. */
  lemma SplitIntoFused(spv: seq<u32>, body: seq<u32>, bound: u32, out: seq<u32>, r: seq<u32>)
    requires |spv| >= HeaderLength && body == spv[HeaderLength..] && bound == spv[BoundOffset]
    requires Admissible(body, bound) && SplitInto(body, bound, out)
    requires |r| >= HeaderLength && r[HeaderLength..] == out
    ensures SplitInto(spv[HeaderLength..], spv[BoundOffset], r[HeaderLength..])
  {
  }
}
