/** The arrayed rewrite of the split pass: an image operation that samples
    a load of an ARRAYED split image is replaced by code that extracts the
    array index from the coordinate, loads the image and the sampler from
    their arrays separately, recombines them, and repeats the operation on
    the recombined value; the original load and operation become no-ops. */
module ImageOp {
  import opened Spirv
  import opened Outcome
  import opened Layout
  import opened Search
  import opened Edits

  /** A paired variable as this step receives it: its image and sampler
      ids, the image type, whether it is arrayed, and the pointer type to a
      single image when one was found. */
  datatype ImageVariableOut = ImageVariableOut(vResId: u32, newSamplerVResId: u32, underlyingImageId: u32,
                                               isArray: bool, typePointerUnderlyingImageId: Option<u32>)

  /** A paired parameter as this step receives it. */
  datatype ImageParameterOut = ImageParameterOut(imageParameterResId: u32, samplerParameterResId: u32, underlyingImageId: u32,
                                                 isArray: bool, typePointerUnderlyingImageId: Option<u32>)

  /** The ids the emitted code refers to: the integer and float types, the
      constant 2 (the array layer's component), the sampler type and the
      pointer-to-sampler type. */
  datatype Constants = Constants(intType: u32, floatType: u32, constant2: u32, samplerType: u32, samplerPointer: u32)

  /** A load of an arrayed split image: its offset, the sampler array to
      index, the image type and the pointer type to one image. */
  datatype ArrayedLoad = ArrayedLoad(lIdx: nat, samplerId: u32, underlyingImageId: u32, texPointer: Option<u32>)

  /** An arrayed load and the image operation that samples it. */
  datatype ArrayedUse = ArrayedUse(ioIdx: nat, load: ArrayedLoad)

  /** What the step changes: the current body, the id bound and the staged
      instruction inserts. */
  datatype ImageOpStep = ImageOpStep(newSpv: seq<u32>, bound: u32, inserts: seq<InstructionInsert>)

  /** Every listed image operation is a whole instruction of at least five
      words inside the body, as a sampling operation is. */
  predicate ImageOpsIn(spv: seq<u32>, ios: seq<nat>)
  {
    forall k :: 0 <= k < |ios| ==> ios[k] < |spv| && 5 <= HiWord(spv[ios[k]]) && ios[k] + HiWord(spv[ios[k]]) <= |spv|
  }

  /** The load at `l` reads through an arrayed paired variable: the first
      one that is arrayed and whose id is the load's pointer. */
  function VariableArrayed(spv: seq<u32>, vRes: seq<ImageVariableOut>, l: nat): Option<ArrayedLoad>
    requires l + 3 < |spv|
  {
    var pointer := spv[l + 3];
    match First(vRes, (v: ImageVariableOut) => v.isArray && v.vResId == pointer)
    case None => None
    case Some(k) => Some(ArrayedLoad(l, vRes[k].newSamplerVResId, vRes[k].underlyingImageId, vRes[k].typePointerUnderlyingImageId))
  }

  /** The load at `l` reads through an arrayed paired parameter. */
  function ParameterArrayed(spv: seq<u32>, ps: seq<ImageParameterOut>, l: nat): Option<ArrayedLoad>
    requires l + 3 < |spv|
  {
    var pointer := spv[l + 3];
    match First(ps, (p: ImageParameterOut) => p.isArray && p.imageParameterResId == pointer)
    case None => None
    case Some(k) => Some(ArrayedLoad(l, ps[k].samplerParameterResId, ps[k].underlyingImageId, ps[k].typePointerUnderlyingImageId))
  }

  function VariablePick(spv: seq<u32>, vRes: seq<ImageVariableOut>): nat --> Option<ArrayedLoad>
  {
    (l: nat) requires l + 3 < |spv| => VariableArrayed(spv, vRes, l)
  }

  function ParameterPick(spv: seq<u32>, ps: seq<ImageParameterOut>): nat --> Option<ArrayedLoad>
  {
    (l: nat) requires l + 3 < |spv| => ParameterArrayed(spv, ps, l)
  }

  /** Every arrayed load names a load whose operands are inside the body. */
  predicate ArrayedIn(spv: seq<u32>, al: seq<ArrayedLoad>)
  {
    forall i :: 0 <= i < |al| ==> al[i].lIdx + 3 < |spv|
  }

  /** The loads through arrayed paired variables, in scan order, then those
      through arrayed paired parameters. */
  function ArrayedLoads(spv: seq<u32>, ls: seq<nat>, vRes: seq<ImageVariableOut>, ps: seq<ImageParameterOut>): seq<ArrayedLoad>
    requires OperandsAt(spv, ls, 3)
  {
    FilterMap(ls, VariablePick(spv, vRes)) + FilterMap(ls, ParameterPick(spv, ps))
  }

  /** The arrayed load reads through the arrayed paired variable whose
      sampler, image type and image pointer it carries. */
  predicate FromVariable(spv: seq<u32>, vRes: seq<ImageVariableOut>, a: ArrayedLoad)
  {
    a.lIdx + 3 < |spv|
    && exists v :: v in vRes && v.isArray && v.vResId == spv[a.lIdx + 3]
         && a == ArrayedLoad(a.lIdx, v.newSamplerVResId, v.underlyingImageId, v.typePointerUnderlyingImageId)
  }

  /** The arrayed load reads through the arrayed paired parameter whose
      sampler, image type and image pointer it carries. */
  predicate FromParameter(spv: seq<u32>, ps: seq<ImageParameterOut>, a: ArrayedLoad)
  {
    a.lIdx + 3 < |spv|
    && exists p :: p in ps && p.isArray && p.imageParameterResId == spv[a.lIdx + 3]
         && a == ArrayedLoad(a.lIdx, p.samplerParameterResId, p.underlyingImageId, p.typePointerUnderlyingImageId)
  }

  /** Each load matched through a variable is a load of the list, through
      an arrayed paired variable. */
  lemma VariableArrayedSound(spv: seq<u32>, ls: seq<nat>, vRes: seq<ImageVariableOut>)
    requires OperandsAt(spv, ls, 3)
    ensures ArrayedIn(spv, FilterMap(ls, VariablePick(spv, vRes)))
    ensures forall i :: 0 <= i < |FilterMap(ls, VariablePick(spv, vRes))| ==>
      FilterMap(ls, VariablePick(spv, vRes))[i].lIdx in ls && FromVariable(spv, vRes, FilterMap(ls, VariablePick(spv, vRes))[i])
  {
    var al := FilterMap(ls, VariablePick(spv, vRes));
    var pos := FilterMapOrder(ls, VariablePick(spv, vRes));
    forall i | 0 <= i < |al|
      ensures al[i].lIdx in ls && FromVariable(spv, vRes, al[i])
    {
      var l := ls[pos[i]];
      var pointer := spv[l + 3];
      var k := First(vRes, (v: ImageVariableOut) => v.isArray && v.vResId == pointer).value;
      assert al[i] == ArrayedLoad(l, vRes[k].newSamplerVResId, vRes[k].underlyingImageId, vRes[k].typePointerUnderlyingImageId);
      assert vRes[k] in vRes;
    }
  }

  /** Each load matched through a parameter is a load of the list, through
      an arrayed paired parameter. */
  lemma ParameterArrayedSound(spv: seq<u32>, ls: seq<nat>, ps: seq<ImageParameterOut>)
    requires OperandsAt(spv, ls, 3)
    ensures ArrayedIn(spv, FilterMap(ls, ParameterPick(spv, ps)))
    ensures forall i :: 0 <= i < |FilterMap(ls, ParameterPick(spv, ps))| ==>
      FilterMap(ls, ParameterPick(spv, ps))[i].lIdx in ls && FromParameter(spv, ps, FilterMap(ls, ParameterPick(spv, ps))[i])
  {
    var al := FilterMap(ls, ParameterPick(spv, ps));
    var pos := FilterMapOrder(ls, ParameterPick(spv, ps));
    forall i | 0 <= i < |al|
      ensures al[i].lIdx in ls && FromParameter(spv, ps, al[i])
    {
      var l := ls[pos[i]];
      var pointer := spv[l + 3];
      var k := First(ps, (p: ImageParameterOut) => p.isArray && p.imageParameterResId == pointer).value;
      assert al[i] == ArrayedLoad(l, ps[k].samplerParameterResId, ps[k].underlyingImageId, ps[k].typePointerUnderlyingImageId);
      assert ps[k] in ps;
    }
  }

  /** Only arrayed entries are handled: a load through a non-arrayed
      variable or parameter is never matched. */
  lemma ArrayedLoadsOnlyArrayed(spv: seq<u32>, ls: seq<nat>, vRes: seq<ImageVariableOut>, ps: seq<ImageParameterOut>)
    requires OperandsAt(spv, ls, 3)
    requires forall v :: v in vRes ==> !v.isArray
    requires forall p :: p in ps ==> !p.isArray
    ensures ArrayedLoads(spv, ls, vRes, ps) == []
  {
    forall k | 0 <= k < |ls| ensures VariablePick(spv, vRes)(ls[k]).None? && ParameterPick(spv, ps)(ls[k]).None? {
      var pointer := spv[ls[k] + 3];
      assert First(vRes, (v: ImageVariableOut) => v.isArray && v.vResId == pointer).None?;
      assert First(ps, (p: ImageParameterOut) => p.isArray && p.imageParameterResId == pointer).None?;
    }
    FilterMapNone(ls, VariablePick(spv, vRes));
    FilterMapNone(ls, ParameterPick(spv, ps));
  }

  lemma ArrayedLoadsIn(spv: seq<u32>, ls: seq<nat>, vRes: seq<ImageVariableOut>, ps: seq<ImageParameterOut>)
    requires OperandsAt(spv, ls, 3)
    ensures ArrayedIn(spv, ArrayedLoads(spv, ls, vRes, ps)) && |ArrayedLoads(spv, ls, vRes, ps)| <= 2 * |ls|
  {
    var a: seq<ArrayedLoad>, b: seq<ArrayedLoad> := FilterMap(ls, VariablePick(spv, vRes)), FilterMap(ls, ParameterPick(spv, ps));
    VariableArrayedSound(spv, ls, vRes);
    ParameterArrayedSound(spv, ls, ps);
    forall i | 0 <= i < |a + b| ensures (a + b)[i].lIdx + 3 < |spv| {
      if i < |a| { assert (a + b)[i] == a[i]; } else { assert (a + b)[i] == b[i - |a|]; }
    }
  }

  /** The first listed image operation whose sampled image is the result
      of the arrayed load. */
  function UseOf(spv: seq<u32>, ios: seq<nat>, a: ArrayedLoad): Option<ArrayedUse>
    requires ImageOpsIn(spv, ios) && a.lIdx + 3 < |spv|
  {
    var result := spv[a.lIdx + 2];
    match First(ios, (io: nat) requires io + 3 < |spv| => spv[io + 3] == result)
    case None => None
    case Some(k) => Some(ArrayedUse(ios[k], a))
  }

  function UsePick(spv: seq<u32>, ios: seq<nat>): ArrayedLoad --> Option<ArrayedUse>
    requires ImageOpsIn(spv, ios)
  {
    (a: ArrayedLoad) requires a.lIdx + 3 < |spv| => UseOf(spv, ios, a)
  }

  /** The arrayed loads that some listed image operation samples, each with
      the first such operation. */
  function Uses(spv: seq<u32>, al: seq<ArrayedLoad>, ios: seq<nat>): seq<ArrayedUse>
    requires ArrayedIn(spv, al) && ImageOpsIn(spv, ios)
  {
    FilterMap(al, UsePick(spv, ios))
  }

  /** The use's load operands and its whole image operation are inside
      the body. */
  predicate UseIn(spv: seq<u32>, u: ArrayedUse)
  {
    u.load.lIdx + 3 < |spv| && u.ioIdx < |spv| && 5 <= HiWord(spv[u.ioIdx]) && u.ioIdx + HiWord(spv[u.ioIdx]) <= |spv|
  }

  predicate UsesIn(spv: seq<u32>, us: seq<ArrayedUse>)
  {
    forall i :: 0 <= i < |us| ==> UseIn(spv, us[i])
  }

  /** The use pairs an arrayed load of `al` with the first listed image
      operation that samples the load's result. */
  predicate FirstUse(spv: seq<u32>, al: seq<ArrayedLoad>, ios: seq<nat>, u: ArrayedUse)
    requires ImageOpsIn(spv, ios) && u.load.lIdx + 3 < |spv|
  {
    u.load in al
    && exists k :: 0 <= k < |ios| && ios[k] == u.ioIdx && spv[ios[k] + 3] == spv[u.load.lIdx + 2]
         && forall j :: 0 <= j < k ==> spv[ios[j] + 3] != spv[u.load.lIdx + 2]
  }

  /** Every use is the first sampling of one of the arrayed loads. */
  lemma UsesSound(spv: seq<u32>, al: seq<ArrayedLoad>, ios: seq<nat>)
    requires ArrayedIn(spv, al) && ImageOpsIn(spv, ios)
    ensures UsesIn(spv, Uses(spv, al, ios))
    ensures forall i :: 0 <= i < |Uses(spv, al, ios)| ==> FirstUse(spv, al, ios, Uses(spv, al, ios)[i])
  {
    var us := Uses(spv, al, ios);
    var pos := FilterMapOrder(al, UsePick(spv, ios));
    forall i | 0 <= i < |us|
      ensures UseIn(spv, us[i]) && FirstUse(spv, al, ios, us[i])
    {
      var a := al[pos[i]];
      var result := spv[a.lIdx + 2];
      var k := First(ios, (io: nat) requires io + 3 < |spv| => spv[io + 3] == result).value;
      assert us[i] == ArrayedUse(ios[k], a);
    }
  }

  /** Every arrayed load that some listed image operation samples has a
      use. */
  lemma UsesComplete(spv: seq<u32>, al: seq<ArrayedLoad>, ios: seq<nat>)
    requires ArrayedIn(spv, al) && ImageOpsIn(spv, ios)
    ensures forall a :: a in al && (exists k :: 0 <= k < |ios| && spv[ios[k] + 3] == spv[a.lIdx + 2]) ==>
      exists i :: 0 <= i < |Uses(spv, al, ios)| && Uses(spv, al, ios)[i].load == a
  {
    var us := Uses(spv, al, ios);
    var pos := FilterMapOrder(al, UsePick(spv, ios));
    forall a | a in al && (exists k :: 0 <= k < |ios| && spv[ios[k] + 3] == spv[a.lIdx + 2])
      ensures exists i :: 0 <= i < |us| && us[i].load == a
    {
      var m :| 0 <= m < |al| && al[m] == a;
      var result := spv[a.lIdx + 2];
      assert First(ios, (io: nat) requires io + 3 < |spv| => spv[io + 3] == result).Some?;
      var j :| 0 <= j < |pos| && pos[j] == m;
      assert us[j].load == a;
    }
  }

  /** The heads of the five instruction kinds the block emits. */
  const ExtractHead: u32 := EncodeWord(5, OpVectorExtractDynamic)
  const ConvertHead: u32 := EncodeWord(4, OpConvertFToI)
  const ChainHead: u32 := EncodeWord(5, OpAccessChain)
  const LoadHead: u32 := EncodeWord(4, OpLoad)
  const CombineHead: u32 := EncodeWord(5, OpSampledImage)

  /** Extracts the array layer (component 2) of the coordinate as the
      float `layer` and converts it to the integer `index`. */
  function LayerIndex(c: Constants, coord: u32, layer: u32, index: u32): seq<u32>
  {
    [ExtractHead, c.floatType, layer, coord, c.constant2, ConvertHead, c.intType, index, layer]
  }

  /** Points at element `index` of the array variable `elements` and
      loads it. */
  function ElementLoad(pointerType: u32, elementType: u32, elements: u32, index: u32, pointer: u32, element: u32): seq<u32>
  {
    [ChainHead, pointerType, pointer, elements, index, LoadHead, elementType, element, pointer]
  }

  /** The 41 words emitted for a use whose nine fresh ids start at `b`:
      extract the coordinate's array layer, convert it to an integer,
      index the image array and load the image; the same for the sampler
      array; then recombine the two under the original load's result type
      and the id `b + 8`. */
  function ArrayedBlock(c: Constants, b: u32, coord: u32, tex: u32, combType: u32, texPointer: u32, image: u32, sampler: u32): seq<u32>
    requires b as int + 8 <= MaxU32
  {
    LayerIndex(c, coord, b, b + 1)
    + ElementLoad(texPointer, image, tex, b + 1, b + 2, b + 3)
    + LayerIndex(c, coord, b + 4, b + 5)
    + ElementLoad(c.samplerPointer, c.samplerType, sampler, b + 5, b + 6, b + 7)
    + [CombineHead, combType, b + 8, b + 3, b + 7]
  }

  /** The copy of the image operation at `io`, sampling `comb` instead. */
  function PatchedCopy(spv: seq<u32>, io: nat, comb: u32): (r: seq<u32>)
    requires io < |spv| && 4 <= HiWord(spv[io]) && io + HiWord(spv[io]) <= |spv|
    ensures |r| == HiWord(spv[io]) && r[3] == comb
    ensures forall j :: 0 <= j < |r| && j != 3 ==> r[j] == spv[io + j]
  {
    spv[io..io + HiWord(spv[io])][3 := comb]
  }

  /** The whole staged insert of a use: the block and the patched copy. */
  function UseInstructions(spv: seq<u32>, c: Constants, u: ArrayedUse, b: u32, texPointer: u32): seq<u32>
    requires b as int + 8 <= MaxU32 && UseIn(spv, u)
  {
    var l, io := u.load.lIdx, u.ioIdx;
    ArrayedBlock(c, b, spv[io + 4], spv[l + 3], spv[l + 1], texPointer, u.load.underlyingImageId, u.load.samplerId)
      + PatchedCopy(spv, io, b + 8)
  }

  /** Every use before the `k`-th has a pointer type to a single image. */
  predicate Pointed(us: seq<ArrayedUse>, k: nat)
    requires k <= |us|
  {
    forall i :: 0 <= i < k ==> us[i].load.texPointer.Some?
  }

  /** The body after the first `k` uses: each turns its load and its image
      operation into tombstones with the original word counts. */
  function Tombstoned(spv: seq<u32>, newSpv: seq<u32>, us: seq<ArrayedUse>, k: nat): (r: seq<u32>)
    requires |newSpv| == |spv| && UsesIn(spv, us) && k <= |us|
    ensures |r| == |spv|
  {
    if k == 0 then newSpv
    else
      var u := us[k - 1];
      Tombstoned(spv, newSpv, us, k - 1)[u.load.lIdx := NopHead(spv[u.load.lIdx])][u.ioIdx := NopHead(spv[u.ioIdx])]
  }

  /** The inserts of the first `k` uses, the `i`-th drawing its nine ids
      from `bound + 9i`. */
  function UseInserts(spv: seq<u32>, c: Constants, us: seq<ArrayedUse>, k: nat, bound: u32): (r: seq<InstructionInsert>)
    requires UsesIn(spv, us) && k <= |us| && Pointed(us, k) && bound as int + 9 * |us| <= MaxU32
    ensures |r| == k
  {
    if k == 0 then []
    else
      var u := us[k - 1];
      var b: u32 := bound + 9 * (k - 1) as u32;
      UseInserts(spv, c, us, k - 1, bound) + [InstructionInsert(u.ioIdx, UseInstructions(spv, c, u, b, u.load.texPointer.value))]
  }

  /** The whole step: it fails, with the missing-pointer error, when some
      use has no pointer type to a single image; otherwise every use is
      rewritten, with nine fresh ids each. */
  function Expand(spv: seq<u32>, newSpv: seq<u32>, bound: u32, inserts: seq<InstructionInsert>, c: Constants,
                  us: seq<ArrayedUse>): Result<ImageOpStep>
    requires |newSpv| == |spv| && UsesIn(spv, us) && bound as int + 9 * |us| <= MaxU32
  {
    if !Pointed(us, |us|) then Failure(MissingUnderlyingImagePointer)
    else Success(ImageOpStep(Tombstoned(spv, newSpv, us, |us|), bound + 9 * |us| as u32,
                             inserts + UseInserts(spv, c, us, |us|, bound)))
  }

  /** No use before the `k`-th tombstones the word at `p`. */
  predicate Untouched(us: seq<ArrayedUse>, k: nat, p: nat)
    requires k <= |us|
  {
    forall i :: 0 <= i < k ==> p != us[i].load.lIdx && p != us[i].ioIdx
  }

  /** No word but the heads of the used loads and image operations
      changes. */
  lemma {:induction false} TombstonedFrame(spv: seq<u32>, newSpv: seq<u32>, us: seq<ArrayedUse>, k: nat)
    requires |newSpv| == |spv| && UsesIn(spv, us) && k <= |us|
    ensures forall p :: 0 <= p < |spv| && Untouched(us, k, p) ==> Tombstoned(spv, newSpv, us, k)[p] == newSpv[p]
  {
    if k > 0 {
      TombstonedFrame(spv, newSpv, us, k - 1);
      assert UseIn(spv, us[k - 1]);
    }
  }

  /** The heads of the used loads and image operations become tombstones
      that keep their original word counts. */
  lemma {:induction false} TombstonedHeads(spv: seq<u32>, newSpv: seq<u32>, us: seq<ArrayedUse>, k: nat)
    requires |newSpv| == |spv| && UsesIn(spv, us) && k <= |us|
    ensures var out := Tombstoned(spv, newSpv, us, k);
      forall i :: 0 <= i < k ==>
        (out[us[i].load.lIdx] == NopHead(spv[us[i].load.lIdx]) && out[us[i].ioIdx] == NopHead(spv[us[i].ioIdx]))
  {
    if k > 0 {
      TombstonedHeads(spv, newSpv, us, k - 1);
      var u := us[k - 1];
      assert UseIn(spv, u);
      var prev := Tombstoned(spv, newSpv, us, k - 1);
      var upd: seq<u32> := prev[u.load.lIdx := NopHead(spv[u.load.lIdx])];
      upd := upd[u.ioIdx := NopHead(spv[u.ioIdx])];
      assert Tombstoned(spv, newSpv, us, k) == upd;
    }
  }

  /** `x` follows the use's image operation and holds the 41-word block
      with the nine ids from `b`, followed by the operation's copy, which
      samples the recombined id `b + 8`. */
  predicate InsertFor(spv: seq<u32>, c: Constants, u: ArrayedUse, b: u32, x: InstructionInsert)
    requires UseIn(spv, u) && u.load.texPointer.Some? && b as int + 8 <= MaxU32
  {
    var io := u.ioIdx;
    x.previousSpvIdx == io && |x.instruction| == 41 + HiWord(spv[io])
    && x.instruction[..41] == ArrayedBlock(c, b, spv[io + 4], spv[u.load.lIdx + 3], spv[u.load.lIdx + 1],
                                            u.load.texPointer.value, u.load.underlyingImageId, u.load.samplerId)
    && x.instruction[41..] == PatchedCopy(spv, io, b + 8)
  }

  /** A use's instructions are the block followed by the patched copy. */
  lemma UseInsertFor(spv: seq<u32>, c: Constants, u: ArrayedUse, b: u32)
    requires UseIn(spv, u) && u.load.texPointer.Some? && b as int + 8 <= MaxU32
    ensures InsertFor(spv, c, u, b, InstructionInsert(u.ioIdx, UseInstructions(spv, c, u, b, u.load.texPointer.value)))
  {
    var x := UseInstructions(spv, c, u, b, u.load.texPointer.value);
    var block := ArrayedBlock(c, b, spv[u.ioIdx + 4], spv[u.load.lIdx + 3], spv[u.load.lIdx + 1],
                              u.load.texPointer.value, u.load.underlyingImageId, u.load.samplerId);
    var copy := PatchedCopy(spv, u.ioIdx, b + 8);
    assert x == block + copy && |block| == 41;
    assert x[..41] == block && x[41..] == copy;
  }

  /** The `i`-th insert is the one of the `i`-th use, with the nine ids
      from `bound + 9i`. */
  lemma {:induction false} UseInsertsMeaning(spv: seq<u32>, c: Constants, us: seq<ArrayedUse>, k: nat, bound: u32)
    requires UsesIn(spv, us) && k <= |us| && Pointed(us, k) && bound as int + 9 * |us| <= MaxU32
    ensures forall i :: 0 <= i < k ==> InsertFor(spv, c, us[i], bound + 9 * i as u32, UseInserts(spv, c, us, k, bound)[i])
  {
    if k > 0 {
      assert Pointed(us, k - 1);
      UseInsertsMeaning(spv, c, us, k - 1, bound);
      var u := us[k - 1];
      var b: u32 := bound + 9 * (k - 1) as u32;
      UseInsertFor(spv, c, u, b);
      var prev := UseInserts(spv, c, us, k - 1, bound);
      var ins := UseInserts(spv, c, us, k, bound);
      assert ins == prev + [InstructionInsert(u.ioIdx, UseInstructions(spv, c, u, b, u.load.texPointer.value))];
      forall i | 0 <= i < k - 1 ensures InsertFor(spv, c, us[i], bound + 9 * i as u32, ins[i]) {
        assert ins[i] == prev[i];
      }
    }
  }

  /** The block is nine whole instructions. */
  lemma ArrayedBlockShape(c: Constants, b: u32, coord: u32, tex: u32, combType: u32, texPointer: u32, image: u32, sampler: u32)
    requires b as int + 8 <= MaxU32
    ensures |ArrayedBlock(c, b, coord, tex, combType, texPointer, image, sampler)| == 41
    ensures WellFormed(ArrayedBlock(c, b, coord, tex, combType, texPointer, image, sampler))
  {
    var s := ArrayedBlock(c, b, coord, tex, combType, texPointer, image, sampler);
    assert HiWord(s[0]) == 5 && HiWord(s[5]) == 4 && HiWord(s[9]) == 5 && HiWord(s[14]) == 4;
    assert HiWord(s[18]) == 5 && HiWord(s[23]) == 4 && HiWord(s[27]) == 5 && HiWord(s[32]) == 4 && HiWord(s[36]) == 5;
    assert WalksFrom(s, 41);
    assert WalksFrom(s, 36);
    assert WalksFrom(s, 32);
    assert WalksFrom(s, 27);
    assert WalksFrom(s, 23);
    assert WalksFrom(s, 18);
    assert WalksFrom(s, 14);
    assert WalksFrom(s, 9);
    assert WalksFrom(s, 5);
  }

  /** The `push` loop and the index patch: `block` followed by the words of
      the image operation at `io`, with its sampled image replaced. */
  method CopyAndPatch(spv: seq<u32>, io: nat, block: seq<u32>, comb: u32) returns (ins: seq<u32>)
    requires io < |spv| && 4 <= HiWord(spv[io]) && io + HiWord(spv[io]) <= |spv|
    ensures ins == block + PatchedCopy(spv, io, comb)
  {
    var wc := HiWord(spv[io]);
    ins := block;
    var i := 0;
    while i < wc
      invariant 0 <= i <= wc
      invariant ins == block + spv[io..io + i]
    {
      ins := ins + [spv[io + i]];
      assert spv[io..io + i + 1] == spv[io..io + i] + [spv[io + i]];
      i := i + 1;
    }
    ins := ins[|ins| - wc + 3 := comb];
    assert ins == block + spv[io..io + wc][3 := comb];
  }

  /** Rewrites every image operation that samples a load of an arrayed
      split image: nine fresh ids per use. */
  method RewriteImageOps(spv: seq<u32>, newSpv: seq<u32>, bound: u32, inserts: seq<InstructionInsert>, c: Constants,
                         ls: seq<nat>, ios: seq<nat>, vRes: seq<ImageVariableOut>, ps: seq<ImageParameterOut>)
    returns (r: Result<ImageOpStep>)
    requires OperandsAt(spv, ls, 3) && ImageOpsIn(spv, ios) && |newSpv| == |spv|
    requires bound as int + 18 * |ls| <= MaxU32
    ensures ArrayedIn(spv, ArrayedLoads(spv, ls, vRes, ps))
    ensures var us := Uses(spv, ArrayedLoads(spv, ls, vRes, ps), ios);
      UsesIn(spv, us) && |us| <= 2 * |ls| && r == Expand(spv, newSpv, bound, inserts, c, us)
  {
    var vm := CollectPicks(ls, VariablePick(spv, vRes));
    var pm := CollectPicks(ls, ParameterPick(spv, ps));
    var al := vm + pm;
    ArrayedLoadsIn(spv, ls, vRes, ps);
    var us := CollectPicks(al, UsePick(spv, ios));
    UsesSound(spv, al, ios);
    r := ExpandUses(spv, newSpv, bound, inserts, c, us);
  }

  /** The instructions one use inserts: the block, then the copied image
      operation. */
  method StageUse(spv: seq<u32>, c: Constants, u: ArrayedUse, ids: u32) returns (ins: seq<u32>)
    requires UseIn(spv, u) && u.load.texPointer.Some? && ids as int + 8 <= MaxU32
    ensures ins == UseInstructions(spv, c, u, ids, u.load.texPointer.value)
  {
    var l, io := u.load.lIdx, u.ioIdx;
    var block := ArrayedBlock(c, ids, spv[io + 4], spv[l + 3], spv[l + 1], u.load.texPointer.value,
                              u.load.underlyingImageId, u.load.samplerId);
    ins := CopyAndPatch(spv, io, block, ids + 8);
  }

  /** The use's load and image operation become tombstones. */
  method TombstoneUse(spv: seq<u32>, newSpv: seq<u32>, us: seq<ArrayedUse>, j: nat, cur: seq<u32>)
    returns (cur': seq<u32>)
    requires |newSpv| == |spv| && UsesIn(spv, us) && j < |us| && cur == Tombstoned(spv, newSpv, us, j)
    ensures cur' == Tombstoned(spv, newSpv, us, j + 1)
  {
    var u := us[j];
    assert UseIn(spv, u);
    cur' := cur[u.load.lIdx := NopHead(spv[u.load.lIdx])];
    cur' := cur'[u.ioIdx := NopHead(spv[u.ioIdx])];
  }

  /** The use's insert, with the nine ids from `bound + 9j`, is staged. */
  method StageUseInsert(spv: seq<u32>, c: Constants, us: seq<ArrayedUse>, j: nat, bound: u32, staged: seq<InstructionInsert>)
    returns (staged': seq<InstructionInsert>)
    requires UsesIn(spv, us) && j < |us| && Pointed(us, j + 1) && bound as int + 9 * |us| <= MaxU32
    requires staged == UseInserts(spv, c, us, j, bound)
    ensures staged' == UseInserts(spv, c, us, j + 1, bound)
  {
    var u := us[j];
    assert UseIn(spv, u) && u.load.texPointer.Some?;
    var ins := StageUse(spv, c, u, bound + 9 * j as u32);
    staged' := staged + [InstructionInsert(u.ioIdx, ins)];
  }

  /** The loop over the uses. */
  method ExpandUses(spv: seq<u32>, newSpv: seq<u32>, bound: u32, inserts: seq<InstructionInsert>, c: Constants,
                    us: seq<ArrayedUse>)
    returns (r: Result<ImageOpStep>)
    requires |newSpv| == |spv| && UsesIn(spv, us) && bound as int + 9 * |us| <= MaxU32
    ensures r == Expand(spv, newSpv, bound, inserts, c, us)
  {
    var cur: seq<u32> := newSpv;
    var b := bound;
    var staged: seq<InstructionInsert> := [];
    var j := 0;
    while j < |us|
      invariant 0 <= j <= |us| && Pointed(us, j)
      invariant b as int == bound as int + 9 * j
      invariant cur == Tombstoned(spv, newSpv, us, j)
      invariant staged == UseInserts(spv, c, us, j, bound)
    {
      cur := TombstoneUse(spv, newSpv, us, j, cur);
      b := b + 9;
      if us[j].load.texPointer.None? {
        return Failure(MissingUnderlyingImagePointer);
      }
      staged := StageUseInsert(spv, c, us, j, bound, staged);
      j := j + 1;
    }
    r := Success(ImageOpStep(cur, b, inserts + staged));
  }
}
