/** The binding fix-up at the end of the combined image-sampler split.  It
    scans the decorations and sorts each corrected set's slots by number as
    the generic correction does, but resolves a tie between two neighbours
    with the same number by their ids: the higher id takes the lower number,
    so a new sampler stays next to the image it was split from. */
module CombinedBindings {
  import opened Spirv
  import opened Outcome
  import opened Layout
  import opened CorrectDecorate

  // ---------------------------------------------------------------------
  // One set's sorted slots

  /** Slots belong to distinct decorations of at least four words each, so
      no word of one is a word of another. */
  predicate Apart(l: seq<Slot>)
  {
    forall j, k :: 0 <= j < k < |l| ==> l[j].idx + 4 <= l[k].idx || l[k].idx + 4 <= l[j].idx
  }

  /** The decorated id of every slot, as the i32 the loop compares. */
  function Ids(t: seq<u32>, l: seq<Slot>): (r: seq<int>)
    requires forall k :: 0 <= k < |l| ==> l[k].idx + 3 < |t|
    ensures |r| == |l|
  {
    seq(|l|, k requires 0 <= k < |l| => AsI32(t[l[k].idx + 1]))
  }

  /** Entry `k` repeats the number before it and its id is not below the
      one before it (the first entry compares against id -1), so the loop
      exchanges the two entries' numbers. */
  predicate Swaps(l: seq<Slot>, ids: seq<int>, k: nat)
    requires k < |l| == |ids|
  {
    Repeats(l, k) && (if k == 0 then -1 else ids[k - 1]) <= ids[k]
  }

  /** The number entry `k` holds once its own step is done: shifted by the
      increment, and one lower when it swaps with the entry before it. */
  function Stepped(l: seq<Slot>, ids: seq<int>, k: nat): int
    requires k < |l| == |ids|
  {
    NewValue(l, k) - (if Swaps(l, ids, k) then 1 else 0)
  }

  /** The number entry `k` ends with: one higher when the entry after it
      swaps with it. */
  function Final(l: seq<Slot>, ids: seq<int>, k: nat): int
    requires k < |l| == |ids|
  {
    Stepped(l, ids, k) + (if k + 1 < |l| && Swaps(l, ids, k + 1) then 1 else 0)
  }

  /** Step `k` panics: the first entry swaps with the index -1, raising the
      entry before it passes 0xFFFF_FFFF, lowering a 0 goes below zero, or
      adding the increment passes 0xFFFF_FFFF. */
  predicate StepFails(l: seq<Slot>, ids: seq<int>, k: nat)
    requires k < |l| == |ids|
  {
    || (k == 0 && Swaps(l, ids, 0))
    || (k > 0 && Swaps(l, ids, k) && Stepped(l, ids, k - 1) + 1 > MaxU32)
    || (Swaps(l, ids, k) && l[k].value == 0)
    || Stepped(l, ids, k) > MaxU32
  }

  /** The panic of a failing step, in the order the step meets them. */
  function StepError(l: seq<Slot>, ids: seq<int>, k: nat): Error
    requires k < |l| == |ids|
  {
    if k == 0 && Swaps(l, ids, 0) then IndexOverflow
    else if k > 0 && Swaps(l, ids, k) && Stepped(l, ids, k - 1) + 1 > MaxU32 then BindingOverflow
    else if Swaps(l, ids, k) && l[k].value == 0 then BindingUnderflow
    else BindingOverflow
  }

  /** Every step, in sorted order, succeeds. */
  predicate NoStepFails(l: seq<Slot>, ids: seq<int>)
    requires |l| == |ids|
  {
    forall k :: 0 <= k < |l| ==> !StepFails(l, ids, k)
  }

  /** Step `k` is the first that fails. */
  predicate FirstFailure(l: seq<Slot>, ids: seq<int>, k: nat)
    requires |l| == |ids|
  {
    k < |l| && StepFails(l, ids, k) && forall j :: 0 <= j < k ==> !StepFails(l, ids, j)
  }

  lemma WrittenBumpLast(t: seq<u32>, l: seq<Slot>, vals: seq<u32>, k: nat, v: u32)
    requires 0 < k <= |l| && k <= |vals| && forall i :: 0 <= i < k ==> l[i].idx + 3 < |t|
    ensures Written(t, l, vals[k - 1 := v], k) == Written(t, l, vals, k)[l[k - 1].idx + 3 := v]
  {
    WrittenSame(t, l, vals[k - 1 := v], vals, k - 1);
  }

  lemma WrittenNext(t: seq<u32>, l: seq<Slot>, vals: seq<u32>, u: seq<u32>, v: u32, k: nat)
    requires k < |l| && k == |vals| && forall i :: 0 <= i < |l| ==> l[i].idx + 3 < |t|
    requires u == Written(t, l, vals, k)
    ensures u[l[k].idx + 3 := v] == Written(t, l, vals + [v], k + 1)
  {
    WrittenExtend(t, l, vals, v, k);
  }

  lemma {:induction false} WrittenSame(t: seq<u32>, l: seq<Slot>, a: seq<u32>, b: seq<u32>, k: nat)
    requires k <= |l| && k <= |a| && k <= |b| && forall i :: 0 <= i < k ==> l[i].idx + 3 < |t|
    requires forall i :: 0 <= i < k ==> a[i] == b[i]
    ensures Written(t, l, a, k) == Written(t, l, b, k)
  {
    if k > 0 {
      WrittenSame(t, l, a, b, k - 1);
    }
  }

  /** What `t` holds on entry to step `k`. */
  lemma StepReads(t: seq<u32>, l: seq<Slot>, vals: seq<u32>, k: nat)
    requires Apart(l) && k < |l| && k <= |vals| && forall i :: 0 <= i < |l| ==> l[i].idx + 3 < |t|
    ensures Written(t, l, vals, k)[l[k].idx + 1] == t[l[k].idx + 1]
    ensures Written(t, l, vals, k)[l[k].idx + 3] == t[l[k].idx + 3]
    ensures k > 0 ==> Written(t, l, vals, k)[l[k - 1].idx + 3] == vals[k - 1]
  {
    WrittenElsewhere(t, l, vals, k, l[k].idx + 1);
    WrittenElsewhere(t, l, vals, k, l[k].idx + 3);
    if k > 0 {
      WrittenAt(t, l, vals, k, k - 1);
    }
  }

  /** The state of the loop before step `k`: the previous entry's number,
      id and offset, the increment so far, and the words written so far. */
  ghost predicate Before(t: seq<u32>, l: seq<Slot>, ids: seq<int>, u: seq<u32>, vals: seq<u32>, k: nat,
                         prevBinding: int, prevId: int, prevIdx: int, inc: nat)
    requires forall i :: 0 <= i < |l| ==> l[i].idx + 3 < |t|
  {
    && ids == Ids(t, l) && k <= |l| && |vals| == k
    && prevBinding == (if k == 0 then -1 else AsI32(l[k - 1].value))
    && prevId == (if k == 0 then -1 else ids[k - 1])
    && prevIdx == (if k == 0 then -1 else l[k - 1].idx)
    && inc == (if k == 0 then 0 else Increment(l, k - 1))
    && NoFailBefore(l, ids, k)
    && Settled(l, ids, vals, k)
    && u == Written(t, l, vals, k)
  }

  /** The swap in step `k`: raise the entry before, then check that this
      entry's number can be lowered. */
  method TieSwap(t: seq<u32>, l: seq<Slot>, ghost ids: seq<int>, u: seq<u32>, ghost vals: seq<u32>, k: nat,
                 prevIdx: int)
    returns (r: Result<seq<u32>>, ghost x: u32, ghost mid: seq<u32>)
    requires Apart(l) && forall i :: 0 <= i < |l| ==> l[i].idx + 3 < |t|
    requires forall i :: 0 <= i < |l| ==> t[l[i].idx + 3] == l[i].value
    requires k < |l| && ids == Ids(t, l) && |vals| == k && NoFailBefore(l, ids, k) && Settled(l, ids, vals, k)
    requires u == Written(t, l, vals, k) && Swaps(l, ids, k)
    requires prevIdx == (if k == 0 then -1 else l[k - 1].idx)
    ensures r.Failure? ==> FirstFailure(l, ids, k) && r.error == StepError(l, ids, k)
    ensures r.Success? ==> k > 0 && l[k].value > 0 && Stepped(l, ids, k - 1) + 1 <= MaxU32
    ensures r.Success? ==> x == Final(l, ids, k - 1) && mid == vals[k - 1 := x]
    ensures r.Success? ==> r.value == Written(t, l, mid, k)
  {
    x, mid := 0, vals;
    if prevIdx < 0 {
      assert FirstFailure(l, ids, k);
      return Failure(IndexOverflow), x, mid;
    }
    StepReads(t, l, vals, k);
    var pv := u[prevIdx + 3];
    if pv + 1 > MaxU32 {
      assert FirstFailure(l, ids, k);
      return Failure(BindingOverflow), x, mid;
    }
    WrittenBumpLast(t, l, vals, k, pv + 1);
    var w := u[prevIdx + 3 := pv + 1];
    x := pv + 1;
    mid := vals[k - 1 := x];
    if u[l[k].idx + 3] == 0 {
      assert FirstFailure(l, ids, k);
      return Failure(BindingUnderflow), x, mid;
    }
    return Success(w), x, mid;
  }

  /** One pass of the loop body, for the entry at `k`. */
  method TieStep(t: seq<u32>, l: seq<Slot>, ghost ids: seq<int>, u: seq<u32>, ghost vals: seq<u32>, k: nat,
                 prevBinding: int, prevId: int, prevIdx: int, inc: nat)
    returns (r: Result<seq<u32>>, thisId: int, inc': nat, ghost vals': seq<u32>)
    requires Apart(l) && forall i :: 0 <= i < |l| ==> l[i].idx + 3 < |t|
    requires forall i :: 0 <= i < |l| ==> t[l[i].idx + 3] == l[i].value
    requires k < |l| && Before(t, l, ids, u, vals, k, prevBinding, prevId, prevIdx, inc)
    ensures r.Failure? ==> FirstFailure(l, ids, k) && r.error == StepError(l, ids, k)
    ensures r.Success? ==> Before(t, l, ids, r.value, vals', k + 1, AsI32(l[k].value), thisId, l[k].idx, inc')
  {
    var sl := l[k];
    StepReads(t, l, vals, k);
    thisId := AsI32(u[sl.idx + 1]);
    var cur: int := u[sl.idx + 3];
    var w := u;
    inc' := inc;
    assert thisId == ids[k] && cur == sl.value;
    ghost var before := if k == 0 then 0 else Stepped(l, ids, k - 1);
    ghost var x := if k == 0 then 0 else vals[k - 1];
    ghost var mid := vals;
    assert u == Written(t, l, vals, k);
    if AsI32(sl.value) == prevBinding {
      inc' := inc' + 1;
      if prevId <= thisId {
        var bumped;
        bumped, x, mid := TieSwap(t, l, ids, u, vals, k, prevIdx);
        if bumped.Failure? {
          return bumped, thisId, inc', vals;
        }
        w := bumped.value;
        cur := cur - 1;
      }
    }
    assert w == Written(t, l, mid, k);
    assert mid == if k == 0 then vals else vals[k - 1 := x];
    assert k > 0 ==> x == Final(l, ids, k - 1);
    assert inc' == Increment(l, k);
    assert cur + inc' == Stepped(l, ids, k);
    if cur + inc' > MaxU32 {
      assert FirstFailure(l, ids, k);
      return Failure(BindingOverflow), thisId, inc', vals;
    }
    var v: u32 := cur + inc';
    StepSucceeds(l, ids, k, before);
    SettledStep(l, ids, vals, k, x, v);
    WrittenNext(t, l, mid, w, v, k);
    vals' := mid + [v];
    w := w[sl.idx + 3 := v];
    r := Success(w);
  }

  /** The tie-aware shift of one set's sorted slots, with the source's
      debug-mode panics as failures. */
  method TieShiftSet(t: seq<u32>, l: seq<Slot>) returns (r: Result<seq<u32>>)
    requires Apart(l) && forall k :: 0 <= k < |l| ==> l[k].idx + 3 < |t|
    requires forall k :: 0 <= k < |l| ==> t[l[k].idx + 3] == l[k].value
    ensures r.Failure? <==> !NoStepFails(l, Ids(t, l))
    ensures r.Failure? ==> exists k :: FirstFailure(l, Ids(t, l), k) && r.error == StepError(l, Ids(t, l), k)
    ensures r.Success? ==> |r.value| == |t|
    ensures r.Success? ==> forall k :: 0 <= k < |l| ==> r.value[l[k].idx + 3] == Final(l, Ids(t, l), k)
    ensures r.Success? ==> forall p :: 0 <= p < |t| && (forall k :: 0 <= k < |l| ==> p != l[k].idx + 3) ==>
      r.value[p] == t[p]
  {
    ghost var ids := Ids(t, l);
    var u := t;
    var prevBinding: int := -1;
    var prevId: int := -1;
    var prevIdx: int := -1;
    var inc: nat := 0;
    var k: nat := 0;
    ghost var vals: seq<u32> := [];
    while k < |l|
      invariant Before(t, l, ids, u, vals, k, prevBinding, prevId, prevIdx, inc)
      decreases |l| - k
    {
      var step, thisId, inc', vals' := TieStep(t, l, ids, u, vals, k, prevBinding, prevId, prevIdx, inc);
      if step.Failure? {
        return Failure(step.error);
      }
      u, vals, inc := step.value, vals', inc';
      prevBinding, prevId, prevIdx := AsI32(l[k].value), thisId, l[k].idx;
      k := k + 1;
    }
    TieWrittenAll(t, l, ids, vals);
    return Success(u);
  }

  /** No step before `k` fails. */
  predicate NoFailBefore(l: seq<Slot>, ids: seq<int>, k: nat)
    requires k <= |l| == |ids|
  {
    forall j :: 0 <= j < k ==> !StepFails(l, ids, j)
  }

  /** The numbers written by the first `k` steps: final for all but the
      last, which the next step may still raise. */
  predicate Settled(l: seq<Slot>, ids: seq<int>, vals: seq<u32>, k: nat)
    requires k <= |l| == |ids| && |vals| == k
  {
    (forall j :: 0 <= j < k - 1 ==> vals[j] == Final(l, ids, j))
    && (k > 0 ==> vals[k - 1] == Stepped(l, ids, k - 1))
  }

  lemma SettledStep(l: seq<Slot>, ids: seq<int>, vals: seq<u32>, k: nat, x: u32, v: u32)
    requires k < |l| == |ids| && |vals| == k && Settled(l, ids, vals, k)
    requires k > 0 ==> x == Final(l, ids, k - 1)
    requires v == Stepped(l, ids, k)
    ensures Settled(l, ids, (if k == 0 then vals else vals[k - 1 := x]) + [v], k + 1)
  {
  }

  lemma StepSucceeds(l: seq<Slot>, ids: seq<int>, k: nat, before: int)
    requires k < |l| == |ids| && (k > 0 ==> before == Stepped(l, ids, k - 1))
    requires Swaps(l, ids, k) ==> k > 0 && before + 1 <= MaxU32 && l[k].value != 0
    requires Stepped(l, ids, k) <= MaxU32
    requires NoFailBefore(l, ids, k)
    ensures !StepFails(l, ids, k) && NoFailBefore(l, ids, k + 1)
  {
  }

  /** After the last step every entry holds its final number. */
  lemma TieWrittenAll(t: seq<u32>, l: seq<Slot>, ids: seq<int>, vals: seq<u32>)
    requires Apart(l) && |vals| == |l| == |ids| && forall i :: 0 <= i < |l| ==> l[i].idx + 3 < |t|
    requires forall j :: 0 <= j < |l| - 1 ==> vals[j] == Final(l, ids, j)
    requires |l| > 0 ==> vals[|l| - 1] == Stepped(l, ids, |l| - 1)
    ensures forall k :: 0 <= k < |l| ==> Written(t, l, vals, |l|)[l[k].idx + 3] == Final(l, ids, k)
    ensures forall p :: 0 <= p < |t| && (forall k :: 0 <= k < |l| ==> p != l[k].idx + 3) ==>
      Written(t, l, vals, |l|)[p] == t[p]
  {
    WrittenAll(t, l, vals);
  }

  // ---------------------------------------------------------------------
  // What the final numbers are

  /** Ties come in pairs at most: no entry repeats a number that itself
      repeated the one before it. */
  predicate NoTriple(l: seq<Slot>)
  {
    forall k :: 0 < k < |l| ==> !(Repeats(l, k - 1) && Repeats(l, k))
  }

  /** The entry whose shifted number entry `k` ends up with: its neighbour
      when the two swap, itself otherwise. */
  function Partner(l: seq<Slot>, ids: seq<int>, k: nat): nat
    requires k < |l| == |ids|
  {
    if k + 1 < |l| && Swaps(l, ids, k + 1) then k + 1
    else if k > 0 && Swaps(l, ids, k) then k - 1
    else k
  }

  /** No final number is below the original one. */
  lemma FinalAtLeast(l: seq<Slot>, ids: seq<int>, k: nat)
    requires k < |l| == |ids|
    ensures Final(l, ids, k) >= l[k].value
  {
    if Swaps(l, ids, k) {
      assert Increment(l, k) >= 1;
    }
  }

  /** Without three-way ties, every entry ends with the shifted number of
      its partner. */
  lemma FinalIsPartner(l: seq<Slot>, ids: seq<int>, k: nat)
    requires k < |l| == |ids| && NoTriple(l) && !Swaps(l, ids, 0)
    ensures Partner(l, ids, k) < |l| && Final(l, ids, k) == NewValue(l, Partner(l, ids, k))
  {
    if k + 1 < |l| && Swaps(l, ids, k + 1) {
      RepeatsMeansEqual(l, k + 1);
      assert !Repeats(l, k);
    } else if k > 0 && Swaps(l, ids, k) {
      RepeatsMeansEqual(l, k);
    }
  }

  /** Partners are mutual. */
  lemma PartnerMutual(l: seq<Slot>, ids: seq<int>, k: nat)
    requires k < |l| == |ids| && NoTriple(l) && !Swaps(l, ids, 0)
    ensures Partner(l, ids, k) < |l| && Partner(l, ids, Partner(l, ids, k)) == k
  {
    if k + 1 < |l| && Swaps(l, ids, k + 1) {
      assert !Repeats(l, k);
      if k + 2 < |l| {
        assert !Repeats(l, k + 2);
      }
    } else if k > 0 && Swaps(l, ids, k) {
      if k > 1 {
        assert !Repeats(l, k - 1);
      }
    }
  }

  /** Without three-way ties, and when the first entry is not swapped with
      index -1, the final numbers of a sorted set are pairwise distinct. */
  lemma FinalDistinct(l: seq<Slot>, ids: seq<int>, j: nat, k: nat)
    requires SortedByValue(l) && j < |l| == |ids| && k < |l| && j != k
    requires NoTriple(l) && !Swaps(l, ids, 0)
    ensures Final(l, ids, j) != Final(l, ids, k)
  {
    FinalIsPartner(l, ids, j);
    FinalIsPartner(l, ids, k);
    PartnerMutual(l, ids, j);
    PartnerMutual(l, ids, k);
    var pj, pk := Partner(l, ids, j), Partner(l, ids, k);
    if pj < pk {
      NewValueIncreasing(l, pj, pk);
    } else if pk < pj {
      NewValueIncreasing(l, pk, pj);
    }
  }

  /** The increment never goes down along the sorted entries, and it grows
      by one at every entry that repeats the number before it. */
  lemma {:induction false} IncrementGrows(l: seq<Slot>, j: nat, k: nat)
    requires j < k < |l|
    ensures Increment(l, k) >= Increment(l, j) + (if Repeats(l, k) then 1 else 0)
    decreases k - j
  {
    if j < k - 1 {
      IncrementGrows(l, j, k - 1);
    }
  }

  /** In sorted order, an entry with a lower number ends lower, whatever
      the ties around the two: a swap lowers an entry only where its repeat
      already raised the increment, and raises one only where the repeat
      after it will raise it for every later entry. */
  lemma FinalKeepsOrder(l: seq<Slot>, ids: seq<int>, j: nat, k: nat)
    requires SortedByValue(l) && j < |l| == |ids| && k < |l| && l[j].value < l[k].value
    ensures Final(l, ids, j) < Final(l, ids, k)
  {
    SortedBefore(l, j, k);
    RepeatsMeansEqual(l, j + 1);
    RepeatsMeansEqual(l, k);
    if j + 1 == k {
      IncrementGrows(l, j, k);
    } else {
      IncrementGrows(l, j, j + 1);
      IncrementGrows(l, j + 1, k);
    }
  }

  /** In a tie between two neighbours with distinct ids, whichever order
      the sort left them in, the higher id ends with the lower of the two
      shifted numbers and the lower id with the higher. */
  lemma TiePairOrder(l: seq<Slot>, ids: seq<int>, k: nat)
    requires 0 < k < |l| == |ids| && Repeats(l, k) && NoTriple(l) && ids[k - 1] != ids[k]
    ensures var hi, lo := if ids[k - 1] > ids[k] then k - 1 else k, if ids[k - 1] > ids[k] then k else k - 1;
            Final(l, ids, hi) == NewValue(l, k - 1) && Final(l, ids, lo) == NewValue(l, k)
  {
    RepeatsMeansEqual(l, k);
    assert !Repeats(l, k - 1);
    if k + 1 < |l| {
      assert !Repeats(l, k + 1);
    }
  }

  /** Three entries with one number and rising ids all end with the same
      number: the pairwise swaps do not separate a three-way tie. */
  lemma TripleTieCollides()
    ensures var l := [Slot(0, 5), Slot(4, 5), Slot(8, 5)];
            var ids := [1, 2, 3];
            NoStepFails(l, ids) && Final(l, ids, 0) == 6 && Final(l, ids, 1) == 6 && Final(l, ids, 2) == 6
  {
    var l := [Slot(0, 5), Slot(4, 5), Slot(8, 5)];
    var ids := [1, 2, 3];
    assert Repeats(l, 1) && Repeats(l, 2) && !Repeats(l, 0);
    assert Increment(l, 2) == 2;
  }

  // ---------------------------------------------------------------------
  // A fix-up whose exchanges are disjoint

  /** Entry `k` exchanges numbers with the entry before it when the loop
      would swap them and the entry before has not already exchanged with
      its own predecessor: every entry takes part in at most one exchange,
      and the first never exchanges with index -1. */
  predicate PairSwaps(l: seq<Slot>, ids: seq<int>, k: nat)
    requires k < |l| == |ids|
    decreases k
  {
    k > 0 && Swaps(l, ids, k) && !PairSwaps(l, ids, k - 1)
  }

  /** The number entry `k` ends with under disjoint exchanges. */
  function PairedFinal(l: seq<Slot>, ids: seq<int>, k: nat): int
    requires k < |l| == |ids|
  {
    NewValue(l, k) - (if PairSwaps(l, ids, k) then 1 else 0)
      + (if k + 1 < |l| && PairSwaps(l, ids, k + 1) then 1 else 0)
  }

  /** The entry whose shifted number entry `k` ends with under disjoint
      exchanges. */
  function PairPartner(l: seq<Slot>, ids: seq<int>, k: nat): (r: nat)
    requires k < |l| == |ids|
    ensures r < |l|
  {
    if k + 1 < |l| && PairSwaps(l, ids, k + 1) then k + 1
    else if PairSwaps(l, ids, k) then k - 1
    else k
  }

  /** Every entry ends with the shifted number of its partner. */
  lemma PairedFinalIsPartner(l: seq<Slot>, ids: seq<int>, k: nat)
    requires k < |l| == |ids|
    ensures PairedFinal(l, ids, k) == NewValue(l, PairPartner(l, ids, k))
  {

  }

  /** Partners under disjoint exchanges are mutual. */
  lemma PairPartnerMutual(l: seq<Slot>, ids: seq<int>, k: nat)
    requires k < |l| == |ids|
    ensures PairPartner(l, ids, PairPartner(l, ids, k)) == k
  {

  }

  /** Under disjoint exchanges the final numbers of a sorted set are
      pairwise distinct, whatever ties it holds. */
  lemma PairedFinalDistinct(l: seq<Slot>, ids: seq<int>, j: nat, k: nat)
    requires SortedByValue(l) && j < |l| == |ids| && k < |l| && j != k
    ensures PairedFinal(l, ids, j) != PairedFinal(l, ids, k)
  {
    PairedFinalIsPartner(l, ids, j);
    PairedFinalIsPartner(l, ids, k);
    PairPartnerMutual(l, ids, j);
    PairPartnerMutual(l, ids, k);
    var pj, pk := PairPartner(l, ids, j), PairPartner(l, ids, k);
    if pj < pk {
      NewValueIncreasing(l, pj, pk);
    } else if pk < pj {
      NewValueIncreasing(l, pk, pj);
    }
  }

  /** Without three-way ties, and when the first entry is not swapped with
      index -1, the disjoint exchanges are the loop's swaps. */
  lemma PairSwapsAreSwaps(l: seq<Slot>, ids: seq<int>, k: nat)
    requires k < |l| == |ids| && NoTriple(l) && !Swaps(l, ids, 0)
    ensures PairSwaps(l, ids, k) == Swaps(l, ids, k)
  {

  }

  /** Without three-way ties, and when the first entry is not swapped with
      index -1, the disjoint exchanges give the numbers the loop writes. */
  lemma PairedFinalAgrees(l: seq<Slot>, ids: seq<int>, k: nat)
    requires k < |l| == |ids| && NoTriple(l) && !Swaps(l, ids, 0)
    ensures PairedFinal(l, ids, k) == Final(l, ids, k)
  {
    PairSwapsAreSwaps(l, ids, k);
    if k + 1 < |l| {
      PairSwapsAreSwaps(l, ids, k + 1);
    }
  }

  /** The three-way tie that collides under the loop's swaps comes out
      distinct under disjoint exchanges. */
  lemma TripleTieSeparated()
    ensures var l := [Slot(0, 5), Slot(4, 5), Slot(8, 5)];
            var ids := [1, 2, 3];
            PairedFinal(l, ids, 0) == 6 && PairedFinal(l, ids, 1) == 5 && PairedFinal(l, ids, 2) == 7
  {

  }

  /** A set that succeeds starts with no tie against index -1. */
  lemma FirstNotRepeated(l: seq<Slot>, ids: seq<int>)
    requires 0 < |l| == |ids| && NoStepFails(l, ids)
    ensures !Repeats(l, 0) && !Swaps(l, ids, 0)
  {
    assert !StepFails(l, ids, 0);
  }

  // ---------------------------------------------------------------------
  // Sets of the scanned decorations

  /** The Binding decorations of distinct ids never share a word. */
  predicate SlotsApart(m: Candidates)
  {
    forall a, b :: a in m && b in m && a != b && m[a].binding.Some? && m[b].binding.Some? ==>
      m[a].binding.value.idx + 4 <= m[b].binding.value.idx || m[b].binding.value.idx + 4 <= m[a].binding.value.idx
  }

  /** No three ids of set `ds` share a Binding number. */
  predicate NoTripleIn(m: Candidates, ds: u32)
  {
    forall a, b, c :: InSet(m, a, ds) && InSet(m, b, ds) && InSet(m, c, ds) && a != b && b != c && a != c ==>
      !(m[a].binding.value.value == m[b].binding.value.value == m[c].binding.value.value)
  }

  /** No two ids of one set to correct both carry the number 0. */
  predicate NoZeroTie(m: Candidates, sets: set<u32>)
  {
    forall a, b :: InSets(m, a, sets) && InSets(m, b, sets) && a != b && m[a].descriptorSet == m[b].descriptorSet ==>
      m[a].binding.value.value != 0 || m[b].binding.value.value != 0
  }

  /** What the tie-aware correction achieves for set `ds`: no number went
      down; an id whose number was lower still has a lower one; without
      three-way ties the numbers are distinct and of two ids that shared a
      number the higher id (compared as i32) has the lower one; a set whose
      numbers were already distinct is left as it was. */
  predicate TieSetCorrected(s: seq<u32>, t: seq<u32>, m: Candidates, ds: u32)
    requires Consistent(s, m) && |t| == |s|
  {
    && (forall id :: InSet(m, id, ds) ==> t[Pos(m, id)] >= s[Pos(m, id)])
    && (forall a, b :: InSet(m, a, ds) && InSet(m, b, ds) && s[Pos(m, a)] < s[Pos(m, b)] ==>
          t[Pos(m, a)] < t[Pos(m, b)])
    && (NoTripleIn(m, ds) ==> Separated(t, m, ds) && HigherIdLower(t, m, ds))
    && (DistinctValues(m, ds) ==> forall id :: InSet(m, id, ds) ==> t[Pos(m, id)] == s[Pos(m, id)])
  }

  /** Distinct ids of set `ds` hold distinct numbers in `t`. */
  predicate Separated(t: seq<u32>, m: Candidates, ds: u32)
    requires forall id :: InSet(m, id, ds) ==> Pos(m, id) < |t|
  {
    forall a, b :: InSet(m, a, ds) && InSet(m, b, ds) && a != b ==> t[Pos(m, a)] != t[Pos(m, b)]
  }

  /** Of two ids of set `ds` that shared a number, the higher (as i32) holds
      the lower number in `t`. */
  predicate HigherIdLower(t: seq<u32>, m: Candidates, ds: u32)
    requires forall id :: InSet(m, id, ds) ==> Pos(m, id) < |t|
  {
    forall a, b :: (InSet(m, a, ds) && InSet(m, b, ds)
                    && m[a].binding.value.value == m[b].binding.value.value && AsI32(a) > AsI32(b)) ==>
      t[Pos(m, a)] < t[Pos(m, b)]
  }

  /** A scan of a shaped body keeps its Binding decorations apart. */
  lemma ScanSlotsApart(s: seq<u32>)
    requires Shaped(s) && WellFormed(s) && Scan(s).Success?
    ensures Consistent(s, Scan(s).value) && SlotsApart(Scan(s).value)
  {
    var m := Scan(s).value;
    ScanConsistent(s, 0, map[]);
    forall a, b | a in m && b in m && a != b && m[a].binding.Some? && m[b].binding.Some?
      ensures m[a].binding.value.idx + 4 <= m[b].binding.value.idx || m[b].binding.value.idx + 4 <= m[a].binding.value.idx
    {
      ScanSound(s, a);
      ScanSound(s, b);
      var x, y := m[a].binding.value.idx, m[b].binding.value.idx;
      ShapedHead(s, x);
      ShapedHead(s, y);
      if x < y { HeadsApart(s, x, y); }
      if y < x { HeadsApart(s, y, x); }
    }
  }

  lemma ListApart(m: Candidates, ds: u32, l: seq<Slot>)
    requires SlotsApart(m) && DistinctIdx(l)
    requires forall x :: x in l <==> x in SlotsIn(m, ds, m.Keys)
    ensures Apart(l)
  {
    forall j, k | 0 <= j < k < |l| ensures l[j].idx + 4 <= l[k].idx || l[k].idx + 4 <= l[j].idx {
      var a := SlotOfSet(m, ds, l[j]);
      var b := SlotOfSet(m, ds, l[k]);
    }
  }

  /** Before set `ds` is corrected, its literal words and ids are as
      scanned. */
  lemma Untouched(s: seq<u32>, t: seq<u32>, m: Candidates, done: set<u32>, ds: u32, l: seq<Slot>)
    requires Consistent(s, m) && SlotsApart(m) && |t| == |s| && ds !in done
    requires forall x :: x in l <==> x in SlotsIn(m, ds, m.Keys)
    requires forall p :: 0 <= p < |s| && p !in Touched(m, done) ==> t[p] == s[p]
    ensures forall k :: 0 <= k < |l| ==> l[k].idx + 3 < |t| && t[l[k].idx + 3] == l[k].value
    ensures forall k :: 0 <= k < |l| ==> l[k].idx + 3 < |t| && t[l[k].idx + 1] == s[l[k].idx + 1]
  {
    forall k | 0 <= k < |l| ensures l[k].idx + 3 < |t| && t[l[k].idx + 3] == l[k].value && t[l[k].idx + 1] == s[l[k].idx + 1] {
      var a := SlotOfSet(m, ds, l[k]);
      assert l[k].idx + 3 !in Touched(m, done);
      assert l[k].idx + 1 !in Touched(m, done);
    }
  }

  /** The sorted slots of set `ds` with the ids decorated at them. */
  ghost predicate Listed(s: seq<u32>, m: Candidates, ds: u32, l: seq<Slot>, ids: seq<int>)
  {
    && Consistent(s, m) && |ids| == |l|
    && SortedByValue(l) && DistinctIdx(l)
    && (forall x :: x in l <==> x in SlotsIn(m, ds, m.Keys))
    && (forall k :: 0 <= k < |l| ==> l[k].idx + 3 < |s| && ids[k] == AsI32(s[l[k].idx + 1]))
  }

  /** `u` holds the final number of every entry at its literal word. */
  predicate WroteFinal(u: seq<u32>, l: seq<Slot>, ids: seq<int>)
    requires |ids| == |l|
  {
    forall k :: 0 <= k < |l| ==> l[k].idx + 3 < |u| && u[l[k].idx + 3] == Final(l, ids, k)
  }

  /** A set's sorted slots with their ids, shifted and written into `u`. */
  ghost predicate TieShifted(s: seq<u32>, u: seq<u32>, m: Candidates, ds: u32, l: seq<Slot>, ids: seq<int>)
  {
    Listed(s, m, ds, l, ids) && |u| == |s| && WroteFinal(u, l, ids) && NoStepFails(l, ids)
  }

  /** Where the slot of `id` sits in the sorted list. */
  lemma Locate(s: seq<u32>, m: Candidates, ds: u32, l: seq<Slot>, ids: seq<int>, id: u32) returns (k: nat)
    requires Listed(s, m, ds, l, ids) && InSet(m, id, ds)
    ensures k < |l| && l[k] == m[id].binding.value && Pos(m, id) == l[k].idx + 3
    ensures s[Pos(m, id)] == l[k].value && ids[k] == AsI32(id)
  {
    k := IndexOf(l, m[id].binding.value);
  }

  /** Without three ids on one number, the sorted slots have no three-way tie. */
  lemma TripleFree(s: seq<u32>, m: Candidates, ds: u32, l: seq<Slot>, ids: seq<int>)
    requires Listed(s, m, ds, l, ids) && NoStepFails(l, ids) && NoTripleIn(m, ds)
    ensures NoTriple(l) && (|l| > 0 ==> !Swaps(l, ids, 0))
  {
    ConsistentDistinct(s, m);
    if |l| > 0 {
      FirstNotRepeated(l, ids);
    }
    forall k | 1 < k < |l| ensures !(Repeats(l, k - 1) && Repeats(l, k)) {
      RepeatsMeansEqual(l, k);
      RepeatsMeansEqual(l, k - 1);
      var a := SlotOfSet(m, ds, l[k - 2]);
      var b := SlotOfSet(m, ds, l[k - 1]);
      var c := SlotOfSet(m, ds, l[k]);
      assert a != b && b != c && a != c;
    }
  }

  /** In sorted order, two entries with one number and no three-way tie are
      neighbours. */
  lemma TiedAreNeighbours(l: seq<Slot>, j: nat, k: nat)
    requires SortedByValue(l) && NoTriple(l) && j < k < |l| && l[j].value == l[k].value
    ensures k == j + 1
  {
    if k > j + 1 {
      RepeatsMeansEqual(l, j + 1);
      RepeatsMeansEqual(l, j + 2);
      assert l[j + 1].value == l[j].value && l[j + 2].value == l[j + 1].value;
      assert Repeats(l, j + 1) && Repeats(l, j + 2);
    }
  }

  /** Of two entries with one number, the one with the higher id ends lower. */
  lemma PairOrderAt(l: seq<Slot>, ids: seq<int>, ka: nat, kb: nat)
    requires SortedByValue(l) && NoTriple(l) && ka < |l| == |ids| && kb < |l|
    requires l[ka].value == l[kb].value && ids[ka] > ids[kb]
    ensures Final(l, ids, ka) < Final(l, ids, kb)
  {
    var k := if ka < kb then kb else ka;
    if ka < kb { TiedAreNeighbours(l, ka, kb); } else { TiedAreNeighbours(l, kb, ka); }
    RepeatsMeansEqual(l, k);
    TiePairOrder(l, ids, k);
    NewValueIncreasing(l, k - 1, k);
  }

  /** With no repeated number, no entry moves. */
  lemma NoRepeatsKept(l: seq<Slot>, ids: seq<int>, k: nat)
    requires k < |l| == |ids| && NoStepFails(l, ids)
    requires forall j :: 0 < j < |l| ==> l[j].value != l[j - 1].value
    ensures Final(l, ids, k) == l[k].value
  {
    FirstNotRepeated(l, ids);
    RepeatsMeansEqual(l, 0);
    NoRepeatNoShift(l, k);
    RepeatsMeansEqual(l, k);
    if k + 1 < |l| {
      RepeatsMeansEqual(l, k + 1);
    }
  }

  lemma TieRaisesAll(s: seq<u32>, u: seq<u32>, m: Candidates, ds: u32, l: seq<Slot>, ids: seq<int>)
    requires TieShifted(s, u, m, ds, l, ids)
    ensures forall id :: InSet(m, id, ds) ==> u[Pos(m, id)] >= s[Pos(m, id)]
  {
    forall id | InSet(m, id, ds) ensures u[Pos(m, id)] >= s[Pos(m, id)] {
      var k := Locate(s, m, ds, l, ids, id);
      FinalAtLeast(l, ids, k);
    }
  }

  lemma TieSeparate(s: seq<u32>, u: seq<u32>, m: Candidates, ds: u32, l: seq<Slot>, ids: seq<int>, a: u32, b: u32)
    requires Listed(s, m, ds, l, ids) && |u| == |s| && WroteFinal(u, l, ids)
    requires NoTriple(l) && (|l| > 0 ==> !Swaps(l, ids, 0))
    requires InSet(m, a, ds) && InSet(m, b, ds) && a != b
    ensures u[Pos(m, a)] != u[Pos(m, b)]
    ensures m[a].binding.value.value == m[b].binding.value.value && AsI32(a) > AsI32(b) ==> u[Pos(m, a)] < u[Pos(m, b)]
  {
    var ka, kb := TiePlaces(s, m, ds, l, ids, a, b);
    FinalDistinct(l, ids, ka, kb);
    if m[a].binding.value.value == m[b].binding.value.value && AsI32(a) > AsI32(b) {
      PairOrderAt(l, ids, ka, kb);
    }
  }

  /** An id whose scanned number was lower than another's ends lower. */
  lemma TieKeepsOrder(s: seq<u32>, u: seq<u32>, m: Candidates, ds: u32, l: seq<Slot>, ids: seq<int>, a: u32, b: u32)
    requires Listed(s, m, ds, l, ids) && |u| == |s| && WroteFinal(u, l, ids)
    requires InSet(m, a, ds) && InSet(m, b, ds) && s[Pos(m, a)] < s[Pos(m, b)]
    ensures u[Pos(m, a)] < u[Pos(m, b)]
  {
    var ka := Locate(s, m, ds, l, ids, a);
    var kb := Locate(s, m, ds, l, ids, b);
    FinalKeepsOrder(l, ids, ka, kb);
    FinalWritten(u, l, ids, ka);
    FinalWritten(u, l, ids, kb);
  }

  /** The word `u` holds at entry `k`'s literal is its final number. */
  lemma FinalWritten(u: seq<u32>, l: seq<Slot>, ids: seq<int>, k: nat)
    requires |ids| == |l| && WroteFinal(u, l, ids) && k < |l|
    ensures l[k].idx + 3 < |u| && u[l[k].idx + 3] == Final(l, ids, k)
  {
  }

  /** Two ids of the set sit at two different places of the sorted slots. */
  lemma TiePlaces(s: seq<u32>, m: Candidates, ds: u32, l: seq<Slot>, ids: seq<int>, a: u32, b: u32)
    returns (ka: nat, kb: nat)
    requires Listed(s, m, ds, l, ids) && InSet(m, a, ds) && InSet(m, b, ds) && a != b
    ensures ka < |l| && kb < |l| && ka != kb
    ensures Pos(m, a) == l[ka].idx + 3 && Pos(m, b) == l[kb].idx + 3
    ensures l[ka].value == m[a].binding.value.value && l[kb].value == m[b].binding.value.value
    ensures ids[ka] == AsI32(a) && ids[kb] == AsI32(b)
  {
    ConsistentDistinct(s, m);
    ka := Locate(s, m, ds, l, ids, a);
    kb := Locate(s, m, ds, l, ids, b);
    assert m[a].binding.value.idx != m[b].binding.value.idx;
  }

  lemma TieSeparatesAll(s: seq<u32>, u: seq<u32>, m: Candidates, ds: u32, l: seq<Slot>, ids: seq<int>)
    requires TieShifted(s, u, m, ds, l, ids) && NoTripleIn(m, ds)
    ensures Separated(u, m, ds) && HigherIdLower(u, m, ds)
  {
    TripleFree(s, m, ds, l, ids);
    forall a, b | InSet(m, a, ds) && InSet(m, b, ds) && a != b
      ensures u[Pos(m, a)] != u[Pos(m, b)]
      ensures m[a].binding.value.value == m[b].binding.value.value && AsI32(a) > AsI32(b) ==> u[Pos(m, a)] < u[Pos(m, b)]
    {
      TieSeparate(s, u, m, ds, l, ids, a, b);
    }
  }

  lemma TieKeepsAll(s: seq<u32>, u: seq<u32>, m: Candidates, ds: u32, l: seq<Slot>, ids: seq<int>)
    requires TieShifted(s, u, m, ds, l, ids) && DistinctValues(m, ds)
    ensures forall id :: InSet(m, id, ds) ==> u[Pos(m, id)] == s[Pos(m, id)]
  {
    forall j | 0 < j < |l| ensures l[j].value != l[j - 1].value {
      var a := SlotOfSet(m, ds, l[j]);
      var b := SlotOfSet(m, ds, l[j - 1]);
    }
    forall id | InSet(m, id, ds) ensures u[Pos(m, id)] == s[Pos(m, id)] {
      var k := Locate(s, m, ds, l, ids, id);
      NoRepeatsKept(l, ids, k);
    }
  }

  /** Shifting the sorted slots of `ds` with the tie rule corrects that set. */
  lemma TieCorrects(s: seq<u32>, u: seq<u32>, m: Candidates, ds: u32, l: seq<Slot>, ids: seq<int>)
    requires TieShifted(s, u, m, ds, l, ids)
    ensures TieSetCorrected(s, u, m, ds)
  {
    TieRaisesAll(s, u, m, ds, l, ids);
    forall a, b | InSet(m, a, ds) && InSet(m, b, ds) && s[Pos(m, a)] < s[Pos(m, b)]
      ensures u[Pos(m, a)] < u[Pos(m, b)]
    {
      TieKeepsOrder(s, u, m, ds, l, ids, a, b);
    }
    if NoTripleIn(m, ds) {
      TieSeparatesAll(s, u, m, ds, l, ids);
    }
    if DistinctValues(m, ds) {
      TieKeepsAll(s, u, m, ds, l, ids);
    }
  }

  /** Two bodies that agree on the literals of set `ds` agree on whether
      it is corrected. */
  lemma SameSlotsCorrected(s: seq<u32>, t: seq<u32>, u: seq<u32>, m: Candidates, ds: u32)
    requires Consistent(s, m) && |t| == |s| && |u| == |s|
    requires forall id :: InSet(m, id, ds) ==> u[Pos(m, id)] == t[Pos(m, id)]
    requires TieSetCorrected(s, t, m, ds)
    ensures TieSetCorrected(s, u, m, ds)
  {
    if NoTripleIn(m, ds) {
      assert Separated(t, m, ds) && HigherIdLower(t, m, ds);
      assert Separated(u, m, ds);
      assert HigherIdLower(u, m, ds);
    }
  }

  /** Writing set `ds` leaves the corrections of the other sets alone. */
  lemma TieOtherSetsKept(s: seq<u32>, t: seq<u32>, u: seq<u32>, m: Candidates, ds: u32, l: seq<Slot>, other: u32)
    requires Consistent(s, m) && |t| == |s| && |u| == |s| && other != ds
    requires forall x :: x in l <==> x in SlotsIn(m, ds, m.Keys)
    requires forall p :: 0 <= p < |t| && (forall k :: 0 <= k < |l| ==> p != l[k].idx + 3) ==> u[p] == t[p]
    requires TieSetCorrected(s, t, m, other)
    ensures TieSetCorrected(s, u, m, other)
  {
    forall id | InSet(m, id, other) ensures u[Pos(m, id)] == t[Pos(m, id)] {
      forall k | 0 <= k < |l| ensures Pos(m, id) != l[k].idx + 3 {
        var b := SlotOfSet(m, ds, l[k]);
      }
    }
    SameSlotsCorrected(s, t, u, m, other);
  }

  /** With every number of the set far enough below 0xFFFF_FFFF and no tie
      on 0, no step of the set fails. */
  lemma TieFits(s: seq<u32>, m: Candidates, sets: set<u32>, ds: u32, l: seq<Slot>, ids: seq<int>)
    requires Listed(s, m, ds, l, ids) && ds in sets && |l| <= |m|
    requires NoBindingOverflow(m, sets) && NoZeroTie(m, sets)
    ensures NoStepFails(l, ids)
  {
    ConsistentDistinct(s, m);
    forall k | 0 <= k < |l| ensures !StepFails(l, ids, k) {
      var a := SlotOfSet(m, ds, l[k]);
      assert InSets(m, a, sets);
      IncrementBound(l, k);
      RepeatsMeansEqual(l, k);
      if k > 0 {
        var b := SlotOfSet(m, ds, l[k - 1]);
        assert InSets(m, b, sets) && a != b;
        IncrementBound(l, k - 1);
      }
    }
  }

  lemma TieStepCorrects(s: seq<u32>, t: seq<u32>, u: seq<u32>, m: Candidates, done: set<u32>, ds: u32,
                        l: seq<Slot>, ids: seq<int>)
    requires TieShifted(s, u, m, ds, l, ids) && |t| == |s|
    requires forall p :: 0 <= p < |t| && (forall k :: 0 <= k < |l| ==> p != l[k].idx + 3) ==> u[p] == t[p]
    requires forall p :: 0 <= p < |s| && p !in Touched(m, done) ==> t[p] == s[p]
    requires forall d :: d in done ==> TieSetCorrected(s, t, m, d)
    ensures forall p :: 0 <= p < |s| && p !in Touched(m, done + {ds}) ==> u[p] == s[p]
    ensures forall d :: d in done + {ds} ==> TieSetCorrected(s, u, m, d)
  {
    TieCorrects(s, u, m, ds, l, ids);
    forall other | other in done && other != ds ensures TieSetCorrected(s, u, m, other) {
      TieOtherSetsKept(s, t, u, m, ds, l, other);
    }
    TouchedGrows(s, t, u, m, done, ds, l);
  }

  /** `t` is `s` with only the Binding literals of the sets in `sets`
      changed, each set corrected with the tie rule. */
  predicate TieCorrected(s: seq<u32>, t: seq<u32>, m: Candidates, sets: set<u32>)
  {
    && Consistent(s, m) && |t| == |s|
    && (forall p :: 0 <= p < |s| && p !in Touched(m, sets) ==> t[p] == s[p])
    && (forall ds :: ds in sets ==> TieSetCorrected(s, t, m, ds))
  }

  /** The slots collected for a set not yet corrected, with the ids the
      body still holds at them. */
  lemma TieListed(s: seq<u32>, t: seq<u32>, m: Candidates, done: set<u32>, ds: u32, l: seq<Slot>)
    requires SlotsApart(m) && TieCorrected(s, t, m, done) && ds !in done
    requires SortedByValue(l) && DistinctIdx(l) && forall x :: x in l <==> x in SlotsIn(m, ds, m.Keys)
    ensures forall k :: 0 <= k < |l| ==> l[k].idx + 3 < |t| && t[l[k].idx + 3] == l[k].value
    ensures Listed(s, m, ds, l, Ids(t, l))
  {
    SlotsFit(s, m, ds, l);
    Untouched(s, t, m, done, ds, l);
    var ids := Ids(t, l);
    forall k | 0 <= k < |l| ensures ids[k] == AsI32(s[l[k].idx + 1]) {
      assert t[l[k].idx + 1] == s[l[k].idx + 1];
    }
  }

  /** Corrects set `ds` in `t` with the tie rule, where the sets in `done`
      already are. */
  method TieCorrectSet(s: seq<u32>, t: seq<u32>, m: Candidates, ds: u32, ghost done: set<u32>, ghost sets: set<u32>)
    returns (r: Result<seq<u32>>)
    requires SlotsApart(m) && TieCorrected(s, t, m, done) && ds in sets && ds !in done
    ensures r.Failure? ==> !Complete(m) || !NoBindingOverflow(m, sets) || !NoZeroTie(m, sets)
    ensures r.Success? ==> Complete(m) && TieCorrected(s, r.value, m, done + {ds})
  {
    ConsistentDistinct(s, m);
    var cl := CollectSet(m, ds);
    if cl.Failure? {
      return Failure(cl.error);
    }
    var l := cl.value;
    TieListed(s, t, m, done, ds, l);
    ListApart(m, ds, l);
    ghost var ids := Ids(t, l);
    var w := TieShiftSet(t, l);
    if w.Failure? {
      if NoBindingOverflow(m, sets) && NoZeroTie(m, sets) {
        TieFits(s, m, sets, ds, l, ids);
      }
      return Failure(w.error);
    }
    var u := w.value;
    TieStepCorrects(s, t, u, m, done, ds, l, ids);
    return Success(u);
  }

  /** Renumbers the Binding decorations of every set in `sets` (visited in
      any order) after the split: shared numbers are spread out, and of two
      ids that shared a number the higher id gets the lower one. */
  method CorrectSplitBindings(s: seq<u32>, sets: set<u32>) returns (r: Result<seq<u32>>)
    requires Shaped(s) && WellFormed(s)
    ensures Scan(s).Failure? ==> r == Failure(Scan(s).error)
    ensures Scan(s).Success? && sets != {} && !Complete(Scan(s).value) ==> r.Failure?
    ensures (Scan(s).Success? && (sets == {} || Complete(Scan(s).value))
             && NoBindingOverflow(Scan(s).value, sets) && NoZeroTie(Scan(s).value, sets)) ==> r.Success?
    ensures r.Success? ==> Scan(s).Success? && TieCorrected(s, r.value, Scan(s).value, sets)
    ensures r.Success? && sets == {} ==> r.value == s
  {
    var c := ScanDecorations(s);
    if c.Failure? {
      return Failure(c.error);
    }
    var m := c.value;
    ScanSlotsApart(s);
    var t := s;
    var todo := sets;
    ghost var done: set<u32> := {};
    while todo != {}
      invariant todo + done == sets && todo !! done
      invariant done != {} ==> Complete(m)
      invariant TieCorrected(s, t, m, done)
      decreases todo
    {
      var ds :| ds in todo;
      var u := TieCorrectSet(s, t, m, ds, done, sets);
      if u.Failure? {
        return u;
      }
      t := u.value;
      todo := todo - {ds};
      done := done + {ds};
    }
    return Success(t);
  }
}
