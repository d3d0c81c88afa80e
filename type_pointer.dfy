/** The pointer step of the split pass: every pointer type, whatever its
    storage class, that points at a sampled-image type is retargeted at
    that type's image type, and recorded with whether the image is
    arrayed. */
module TypePointer {
  import opened Spirv
  import opened Outcome
  import opened Layout
  import opened Search

  /** A retargeted pointer: its result id, the image type it now points at,
      and whether that image type is arrayed. */
  datatype TypePointerOut = TypePointerOut(tpResId: u32, underlyingImageId: u32, isArray: bool)

  /** The sampled-image type at `tss[k]` is the first that the pointer at
      `tp` points at. */
  predicate FirstSampled(spv: seq<u32>, tp: nat, tss: seq<nat>, k: nat)
    requires tp + 3 < |spv| && OperandsAt(spv, tss, 2)
  {
    k < |tss| && spv[tss[k] + 1] == spv[tp + 3]
    && forall j :: 0 <= j < k ==> spv[tss[j] + 1] != spv[tp + 3]
  }

  /** The image type of the first sampled-image type the pointer at `tp`
      points at, and nothing when none matches. */
  function SampledImageOf(spv: seq<u32>, tp: nat, tss: seq<nat>): (r: Option<u32>)
    requires tp + 3 < |spv| && OperandsAt(spv, tss, 2)
    ensures r.None? <==> forall k :: 0 <= k < |tss| ==> spv[tss[k] + 1] != spv[tp + 3]
    ensures r.Some? ==> exists k: nat :: FirstSampled(spv, tp, tss, k) && r.value == spv[tss[k] + 2]
  {
    var pointee := spv[tp + 3];
    match First(tss, (ts: nat) requires ts + 2 < |spv| => spv[ts + 1] == pointee)
    case None => None
    case Some(k) => assert FirstSampled(spv, tp, tss, k); Some(spv[tss[k] + 2])
  }

  /** Some OpTypeImage with result id `id` has a nonzero Arrayed operand. */
  predicate IsArrayed(spv: seq<u32>, id: u32, tis: seq<nat>)
    requires OperandsAt(spv, tis, 5)
  {
    exists k :: 0 <= k < |tis| && spv[tis[k] + 1] == id && spv[tis[k] + 5] != 0
  }

  /** The record for the pointer at `tp`, when it points at a sampled image. */
  function EntryOf(spv: seq<u32>, tp: nat, tss: seq<nat>, tis: seq<nat>): Option<TypePointerOut>
    requires tp + 3 < |spv| && OperandsAt(spv, tss, 2) && OperandsAt(spv, tis, 5)
  {
    match SampledImageOf(spv, tp, tss)
    case None => None
    case Some(image) => Some(TypePointerOut(spv[tp + 1], image, IsArrayed(spv, image, tis)))
  }

  ghost predicate Inputs(spv: seq<u32>, tps: seq<nat>, tss: seq<nat>, tis: seq<nat>)
  {
    OperandsAt(spv, tps, 3) && OperandsAt(spv, tss, 2) && OperandsAt(spv, tis, 5)
  }

  /** `EntryOf` as the test the scan applies to each pointer. */
  function EntryPick(spv: seq<u32>, tss: seq<nat>, tis: seq<nat>): nat --> Option<TypePointerOut>
    requires OperandsAt(spv, tss, 2) && OperandsAt(spv, tis, 5)
  {
    (tp: nat) requires tp + 3 < |spv| => EntryOf(spv, tp, tss, tis)
  }

  /** The records of the pointers in `tps`, in scan order. */
  function Entries(spv: seq<u32>, tps: seq<nat>, tss: seq<nat>, tis: seq<nat>): seq<TypePointerOut>
    requires Inputs(spv, tps, tss, tis)
  {
    FilterMap(tps, EntryPick(spv, tss, tis))
  }

  /** `newSpv` with the pointee of every matched pointer in `tps` replaced. */
  function Retargeted(spv: seq<u32>, newSpv: seq<u32>, tps: seq<nat>, tss: seq<nat>): seq<u32>
    requires OperandsAt(spv, tps, 3) && OperandsAt(spv, tss, 2) && |newSpv| == |spv|
  {
    RetargetedUpTo(spv, newSpv, tps, tss, |tps|)
  }

  /** The same for the first `n` pointers of `tps`, in order. */
  function RetargetedUpTo(spv: seq<u32>, newSpv: seq<u32>, tps: seq<nat>, tss: seq<nat>, n: nat): (r: seq<u32>)
    requires OperandsAt(spv, tps, 3) && OperandsAt(spv, tss, 2) && |newSpv| == |spv| && n <= |tps|
    ensures |r| == |spv|
  {
    if n == 0 then newSpv
    else
      var prev := RetargetedUpTo(spv, newSpv, tps, tss, n - 1);
      match SampledImageOf(spv, tps[n - 1], tss)
      case None => prev
      case Some(image) => prev[tps[n - 1] + 3 := image]
  }

  /** The records are the matched pointers, one each, in scan order: `f`
      maps every record to the position of its pointer in `tps`. */
  lemma EntriesInScanOrder(spv: seq<u32>, tps: seq<nat>, tss: seq<nat>, tis: seq<nat>)
    returns (f: seq<nat>)
    requires Inputs(spv, tps, tss, tis)
    ensures |f| == |Entries(spv, tps, tss, tis)|
    ensures forall i :: 0 <= i < |f| ==> f[i] < |tps| && EntryOf(spv, tps[f[i]], tss, tis) == Some(Entries(spv, tps, tss, tis)[i])
    ensures forall i, j :: 0 <= i < j < |f| ==> f[i] < f[j]
    ensures forall k :: 0 <= k < |tps| && EntryOf(spv, tps[k], tss, tis).Some? ==> k in f
  {
    f := FilterMapOrder(tps, EntryPick(spv, tss, tis));
  }

  /** Only the pointee word of a matched pointer is written, and it becomes
      the image type of the sampled image that pointer named. */
  lemma RetargetedWrites(spv: seq<u32>, newSpv: seq<u32>, tps: seq<nat>, tss: seq<nat>)
    requires OperandsAt(spv, tps, 3) && OperandsAt(spv, tss, 2) && |newSpv| == |spv| && Increasing(tps)
    ensures |Retargeted(spv, newSpv, tps, tss)| == |spv|
    ensures forall k :: 0 <= k < |tps| && SampledImageOf(spv, tps[k], tss).Some? ==>
      Retargeted(spv, newSpv, tps, tss)[tps[k] + 3] == SampledImageOf(spv, tps[k], tss).value
    ensures forall p :: 0 <= p < |spv| && (forall k :: 0 <= k < |tps| && SampledImageOf(spv, tps[k], tss).Some? ==> p != tps[k] + 3) ==>
      Retargeted(spv, newSpv, tps, tss)[p] == newSpv[p]
  {
    forall k | 0 <= k < |tps| && SampledImageOf(spv, tps[k], tss).Some?
      ensures Retargeted(spv, newSpv, tps, tss)[tps[k] + 3] == SampledImageOf(spv, tps[k], tss).value
    {
      assert forall j :: k < j < |tps| ==> tps[j] > tps[k];
      RetargetedPointee(spv, newSpv, tps, tss, |tps|, k);
    }
    forall p | 0 <= p < |spv| && (forall k :: 0 <= k < |tps| && SampledImageOf(spv, tps[k], tss).Some? ==> p != tps[k] + 3)
      ensures Retargeted(spv, newSpv, tps, tss)[p] == newSpv[p]
    {
      RetargetedFrame(spv, newSpv, tps, tss, |tps|, p);
    }
  }

  /** A matched pointer that no later one repeats keeps the image type it
      wrote. */
  lemma {:induction false} RetargetedPointee(spv: seq<u32>, newSpv: seq<u32>, tps: seq<nat>, tss: seq<nat>, n: nat, k: nat)
    requires OperandsAt(spv, tps, 3) && OperandsAt(spv, tss, 2) && |newSpv| == |spv| && n <= |tps|
    requires k < n && SampledImageOf(spv, tps[k], tss).Some?
    requires forall j :: k < j < n ==> tps[j] != tps[k]
    ensures RetargetedUpTo(spv, newSpv, tps, tss, n)[tps[k] + 3] == SampledImageOf(spv, tps[k], tss).value
  {
    if k < n - 1 {
      RetargetedPointee(spv, newSpv, tps, tss, n - 1, k);
    }
  }

  /** A word that no matched pointer names as its pointee is kept. */
  lemma {:induction false} RetargetedFrame(spv: seq<u32>, newSpv: seq<u32>, tps: seq<nat>, tss: seq<nat>, n: nat, p: nat)
    requires OperandsAt(spv, tps, 3) && OperandsAt(spv, tss, 2) && |newSpv| == |spv| && n <= |tps| && p < |spv|
    requires forall k :: 0 <= k < n && SampledImageOf(spv, tps[k], tss).Some? ==> p != tps[k] + 3
    ensures RetargetedUpTo(spv, newSpv, tps, tss, n)[p] == newSpv[p]
  {
    if n > 0 {
      RetargetedFrame(spv, newSpv, tps, tss, n - 1, p);
    }
  }

  /** Retargets the matched pointers of `tps` in `newSpv` and records them
      in scan order. */
  method RetargetPointers(spv: seq<u32>, newSpv: seq<u32>, tis: seq<nat>, tps: seq<nat>, tss: seq<nat>)
    returns (out: seq<u32>, tpRes: seq<TypePointerOut>)
    requires Inputs(spv, tps, tss, tis) && |newSpv| == |spv|
    ensures out == Retargeted(spv, newSpv, tps, tss)
    ensures tpRes == Entries(spv, tps, tss, tis)
  {
    out, tpRes := newSpv, [];
    var k := 0;
    while k < |tps|
      invariant 0 <= k <= |tps|
      invariant out == RetargetedUpTo(spv, newSpv, tps, tss, k)
      invariant tpRes == Entries(spv, tps[..k], tss, tis)
    {
      assert tps[..k + 1][..k] == tps[..k];
      FilterMapSnoc(tps, k, EntryPick(spv, tss, tis));
      var tp := tps[k];
      match SampledImageOf(spv, tp, tss) {
        case None =>
        case Some(image) =>
          out := out[tp + 3 := image];
          tpRes := tpRes + [TypePointerOut(spv[tp + 1], image, IsArrayed(spv, image, tis))];
      }
      k := k + 1;
    }
    assert tps[..k] == tps;
  }
}
