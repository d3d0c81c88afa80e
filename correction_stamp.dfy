/** Stamping a correction map with new variables: each variable's correction
    type is inserted into the correction list of the binding entry its
    original binding number falls on.  Each entry of a set counts as one
    slot for itself and one per correction it held before the stamping
    began, so the counting always reads the map as it was, while the insert
    goes into the map as it is. */
module CorrectionStamp {
  import opened Spirv
  import opened Outcome
  import opened Correction

  /** One new variable to stamp: the set of the variable it was split
      from, that variable's binding, and what the new one holds. */
  datatype Stamp = Stamp(descriptorSet: u32, binding: u32, correctionType: CorrectionType)

  /** The slots of each entry: itself and its corrections. */
  function Counts(bs: seq<CorrectionBinding>): seq<nat>
  {
    seq(|bs|, i requires 0 <= i < |bs| => |bs[i].corrections| + 1)
  }

  /** The walk over the entries from `idx`, with `rest` slots still to
      pass: it stops at the first entry it reaches with nothing left to
      pass, giving that entry and how far the slots passed overshoot. */
  function Walk(counts: seq<nat>, rest: int, idx: nat): (r: Option<(nat, nat)>)
    requires idx <= |counts|
    ensures r.Some? ==> idx <= r.value.0 < |counts|
    decreases |counts| - idx
  {
    if idx == |counts| then None
    else if rest <= 0 then Some((idx, -rest))
    else Walk(counts, rest - counts[idx], idx + 1)
  }

  /** The slots of the first `k` entries. */
  function Prefix(counts: seq<nat>, k: nat): nat
    requires k <= |counts|
  {
    if k == 0 then 0 else Prefix(counts, k - 1) + counts[k - 1]
  }

  lemma {:induction false} WalkFrom(counts: seq<nat>, binding: nat, idx: nat)
    requires idx <= |counts|
    requires forall j :: 0 <= j < idx ==> Prefix(counts, j) < binding
    ensures var r := Walk(counts, binding - Prefix(counts, idx), idx);
      (r.Some? <==> exists i :: idx <= i < |counts| && binding <= Prefix(counts, i))
      && (r.Some? ==>
            binding <= Prefix(counts, r.value.0)
            && (forall j :: 0 <= j < r.value.0 ==> Prefix(counts, j) < binding)
            && r.value.1 == Prefix(counts, r.value.0) - binding)
    decreases |counts| - idx
  {
    if idx < |counts| && binding > Prefix(counts, idx) {
      WalkFrom(counts, binding, idx + 1);
      WalkStep(counts, binding, idx);
      if exists i :: idx <= i < |counts| && binding <= Prefix(counts, i) {
        var i :| idx <= i < |counts| && binding <= Prefix(counts, i);
        assert i != idx;
      }
    }
  }

  /** Passing an entry whose preceding slots stay below the binding. */
  lemma WalkStep(counts: seq<nat>, binding: nat, idx: nat)
    requires idx < |counts| && binding > Prefix(counts, idx)
    ensures Walk(counts, binding - Prefix(counts, idx), idx) == Walk(counts, binding - Prefix(counts, idx + 1), idx + 1)
  {
    assert binding - Prefix(counts, idx + 1) == binding - Prefix(counts, idx) - counts[idx];
  }

  /** The walk from the first entry stops at the first entry whose
      preceding slots reach the binding, and the position is how far they
      overshoot it; it stops nowhere when no entry's do. */
  lemma WalkMeaning(counts: seq<nat>, binding: nat)
    ensures var r := Walk(counts, binding, 0);
      (r.Some? <==> exists i :: 0 <= i < |counts| && binding <= Prefix(counts, i))
      && (r.Some? ==>
            binding <= Prefix(counts, r.value.0)
            && (forall j :: 0 <= j < r.value.0 ==> Prefix(counts, j) < binding)
            && r.value.1 == Prefix(counts, r.value.0) - binding)
  {
    WalkFrom(counts, binding, 0);
  }

  /** In a map with no corrections yet, binding `b` lands on entry `b` at
      position 0, and on nothing past the last entry. */
  lemma FreshWalk(bs: seq<CorrectionBinding>, binding: nat)
    requires forall i :: 0 <= i < |bs| ==> bs[i].corrections == []
    ensures Walk(Counts(bs), binding, 0) == if binding < |bs| then Some((binding, 0)) else None
  {
    var counts := Counts(bs);
    assert forall k :: 0 <= k <= |counts| ==> Prefix(counts, k) == k by {
      forall k | 0 <= k <= |counts| ensures Prefix(counts, k) == k { PrefixOnes(counts, k); }
    }
    WalkMeaning(counts, binding);
    if binding < |bs| {
      assert binding <= Prefix(counts, binding);
    }
  }

  /** A binding that is where an entry sits once the corrections before it
      are counted lands on that entry, in front of its own corrections. */
  lemma WalkAtEntry(bs: seq<CorrectionBinding>, i: nat)
    requires i < |bs|
    ensures Walk(Counts(bs), Prefix(Counts(bs), i), 0) == Some((i, 0))
  {
    var counts := Counts(bs);
    WalkMeaning(counts, Prefix(counts, i));
    var r := Walk(counts, Prefix(counts, i), 0);
    assert |counts| == |bs|;
    assert exists j :: 0 <= j < |counts| && Prefix(counts, i) <= Prefix(counts, j) by {
      assert 0 <= i < |counts| && Prefix(counts, i) <= Prefix(counts, i);
    }
    assert r.Some?;
    var w := r.value.0;
    if w < i {
      PrefixRises(counts, w, i);
    }
  }

  lemma {:induction false} PrefixRises(counts: seq<nat>, j: nat, i: nat)
    requires j < i <= |counts| && forall t :: 0 <= t < |counts| ==> counts[t] >= 1
    ensures Prefix(counts, j) < Prefix(counts, i)
    decreases i - j
  {
    if j + 1 < i {
      PrefixRises(counts, j, i - 1);
    }
  }

  lemma {:induction false} PrefixOnes(counts: seq<nat>, k: nat)
    requires k <= |counts| && forall i :: 0 <= i < |counts| ==> counts[i] == 1
    ensures Prefix(counts, k) == k
  {
    if k > 0 { PrefixOnes(counts, k - 1); }
  }

  // ---------------------------------------------------------------------
  // One stamp

  /** Where a stamp lands, counted on the snapshot `snap`: its set, the
      entry, and the position in that entry's corrections.  A set number
      past the sets, or a binding past every entry, lands nowhere. */
  function Landing(snap: seq<CorrectionSet>, st: Stamp): (r: Option<(nat, nat, nat)>)
    ensures r.Some? ==> r.value.0 == st.descriptorSet < |snap| && r.value.1 < |snap[r.value.0].bindings|
  {
    if st.descriptorSet >= |snap| then None
    else
      match Walk(Counts(snap[st.descriptorSet].bindings), st.binding, 0)
      case None => None
      case Some((idx, pos)) => Some((st.descriptorSet, idx, pos))
  }

  /** Stamping changes only correction lists: the same sets with the same
      set numbers, the same entries with the same binding numbers. */
  predicate SameShape(a: seq<CorrectionSet>, b: seq<CorrectionSet>)
  {
    |a| == |b|
    && forall i :: 0 <= i < |a| ==>
         a[i].descriptorSet == b[i].descriptorSet && |a[i].bindings| == |b[i].bindings|
         && forall j :: 0 <= j < |a[i].bindings| ==> a[i].bindings[j].binding == b[i].bindings[j].binding
  }

  function InsertAt(cs: seq<CorrectionType>, pos: nat, t: CorrectionType): seq<CorrectionType>
    requires pos <= |cs|
  {
    cs[..pos] + [t] + cs[pos..]
  }

  /** The map with the correction list of entry `idx` of set `n` replaced. */
  function Put(cur: seq<CorrectionSet>, n: nat, idx: nat, cs: seq<CorrectionType>): seq<CorrectionSet>
    requires n < |cur| && idx < |cur[n].bindings|
  {
    cur[n := cur[n].(bindings := cur[n].bindings[idx := cur[n].bindings[idx].(corrections := cs)])]
  }

  lemma PutRead(cur: seq<CorrectionSet>, n: nat, idx: nat, cs: seq<CorrectionType>, m: nat, j: nat)
    requires n < |cur| && idx < |cur[n].bindings| && m < |cur| && j < |cur[m].bindings|
    ensures var p := Put(cur, n, idx, cs);
      |p| == |cur| && p[m].descriptorSet == cur[m].descriptorSet && |p[m].bindings| == |cur[m].bindings|
      && p[m].bindings[j].binding == cur[m].bindings[j].binding
      && p[m].bindings[j].corrections == if m == n && j == idx then cs else cur[m].bindings[j].corrections
  {
  }

  /** One stamp: `Vec::insert` at the landing position, which fails past
      the end of the list as it is now. */
  function StampOne(cur: seq<CorrectionSet>, snap: seq<CorrectionSet>, st: Stamp): (r: Result<seq<CorrectionSet>>)
    requires SameShape(cur, snap)
  {
    match Landing(snap, st)
    case None => Success(cur)
    case Some((n, idx, pos)) =>
      var cs := cur[n].bindings[idx].corrections;
      if pos > |cs| then Failure(SlotIndexOutOfRange)
      else Success(Put(cur, n, idx, InsertAt(cs, pos, st.correctionType)))
  }

  lemma StampOneShape(cur: seq<CorrectionSet>, snap: seq<CorrectionSet>, st: Stamp)
    requires SameShape(cur, snap)
    ensures StampOne(cur, snap, st).Success? ==> SameShape(StampOne(cur, snap, st).value, snap)
  {
    var l := Landing(snap, st);
    if l.Some? && StampOne(cur, snap, st).Success? {
      var r := StampOne(cur, snap, st).value;
      var n, idx, pos := l.value.0, l.value.1, l.value.2;
      var cs := InsertAt(cur[n].bindings[idx].corrections, pos, st.correctionType);
      forall m, j | 0 <= m < |cur| && 0 <= j < |cur[m].bindings| {
        PutRead(cur, n, idx, cs, m, j);
      }
      assert |r| == |cur| by { PutRead(cur, n, idx, cs, n, idx); }
    }
  }

  /** The stamps of the first `k` variables, in order, each counted on
      `snap` and inserted into the map as the earlier ones left it. */
  function Stamps(snap: seq<CorrectionSet>, sts: seq<Stamp>, k: nat): (r: Result<seq<CorrectionSet>>)
    requires k <= |sts|
    ensures r.Success? ==> SameShape(r.value, snap)
  {
    if k == 0 then
      assert SameShape(snap, snap);
      Success(snap)
    else
      match Stamps(snap, sts, k - 1)
      case Failure(e) => Failure(e)
      case Success(cur) =>
        StampOneShape(cur, snap, sts[k - 1]);
        StampOne(cur, snap, sts[k - 1])
  }

  // ---------------------------------------------------------------------
  // What the stamps add

  /** The correction types of the first `k` stamps that land on entry
      `idx` of set `n`, in stamp order. */
  function LandedAt(snap: seq<CorrectionSet>, sts: seq<Stamp>, k: nat, n: nat, idx: nat): seq<CorrectionType>
    requires k <= |sts|
  {
    if k == 0 then []
    else
      var l := Landing(snap, sts[k - 1]);
      if l.Some? && l.value.0 == n && l.value.1 == idx then LandedAt(snap, sts, k - 1, n, idx) + [sts[k - 1].correctionType]
      else LandedAt(snap, sts, k - 1, n, idx)
  }

  /** `cur` has the shape of `snap`, and every entry holds its corrections
      in `snap` plus the types of exactly the first `k` stamps that landed
      on it. */
  predicate Carries(cur: seq<CorrectionSet>, snap: seq<CorrectionSet>, sts: seq<Stamp>, k: nat)
    requires k <= |sts|
  {
    SameShape(cur, snap)
    && forall n, idx :: 0 <= n < |snap| && 0 <= idx < |snap[n].bindings| ==>
         multiset(cur[n].bindings[idx].corrections)
           == multiset(snap[n].bindings[idx].corrections) + multiset(LandedAt(snap, sts, k, n, idx))
  }

  lemma StampOneCarries(cur: seq<CorrectionSet>, r: seq<CorrectionSet>, snap: seq<CorrectionSet>, sts: seq<Stamp>, k: nat)
    requires k < |sts| && SameShape(cur, snap) && StampOne(cur, snap, sts[k]).Success?
    requires r == StampOne(cur, snap, sts[k]).value
    ensures Carries(cur, snap, sts, k) ==> Carries(r, snap, sts, k + 1)
  {
    StampOneShape(cur, snap, sts[k]);
    var l := Landing(snap, sts[k]);
    if Carries(cur, snap, sts, k) && l.Some? {
      var n0, idx0, pos := l.value.0, l.value.1, l.value.2;
      var cs := cur[n0].bindings[idx0].corrections;
      var t := sts[k].correctionType;
      assert cs == cs[..pos] + cs[pos..];
      assert multiset(InsertAt(cs, pos, t)) == multiset(cs) + multiset{t};
      forall n, idx | 0 <= n < |snap| && 0 <= idx < |snap[n].bindings|
        ensures multiset(r[n].bindings[idx].corrections)
          == multiset(snap[n].bindings[idx].corrections) + multiset(LandedAt(snap, sts, k + 1, n, idx))
      {
        PutRead(cur, n0, idx0, InsertAt(cs, pos, t), n, idx);
      }
    }
  }

  /** After the stamps, every entry holds its corrections from before plus
      the types of exactly the stamps that landed on it; nothing else is
      added or lost. */
  lemma {:induction false} StampsLanded(snap: seq<CorrectionSet>, sts: seq<Stamp>, k: nat)
    requires k <= |sts| && Stamps(snap, sts, k).Success?
    ensures Carries(Stamps(snap, sts, k).value, snap, sts, k)
  {
    if k == 0 {
      CarriesStart(snap, sts);
    } else {
      StampsStep(snap, sts, k);
      var cur := Stamps(snap, sts, k - 1).value;
      StampsLanded(snap, sts, k - 1);
      StampOneCarries(cur, Stamps(snap, sts, k).value, snap, sts, k - 1);
    }
  }

  /** Before any stamp, every entry holds just its own corrections. */
  lemma CarriesStart(snap: seq<CorrectionSet>, sts: seq<Stamp>)
    ensures Stamps(snap, sts, 0).Success? && Carries(Stamps(snap, sts, 0).value, snap, sts, 0)
  {
    forall n, idx | 0 <= n < |snap| && 0 <= idx < |snap[n].bindings|
      ensures multiset(LandedAt(snap, sts, 0, n, idx)) == multiset{}
    {
    }
  }

  /** A successful run of `k` stamps is a successful run of `k - 1` and one
      more successful stamp. */
  lemma StampsStep(snap: seq<CorrectionSet>, sts: seq<Stamp>, k: nat)
    requires 0 < k <= |sts| && Stamps(snap, sts, k).Success?
    ensures Stamps(snap, sts, k - 1).Success?
    ensures StampOne(Stamps(snap, sts, k - 1).value, snap, sts[k - 1]).Success?
    ensures Stamps(snap, sts, k).value == StampOne(Stamps(snap, sts, k - 1).value, snap, sts[k - 1]).value
  {
  }

  /** No stamp fails when every landing position is within the entry's
      corrections as they were before stamping: lists only grow. */
  lemma {:induction false} StampsSucceed(snap: seq<CorrectionSet>, sts: seq<Stamp>, k: nat)
    requires k <= |sts|
    requires forall t :: 0 <= t < k ==> Fits(snap, sts[t])
    ensures Stamps(snap, sts, k).Success?
  {
    if k > 0 {
      StampsSucceed(snap, sts, k - 1);
      var l := Landing(snap, sts[k - 1]);
      assert Fits(snap, sts[k - 1]);
      if l.Some? {
        StampsGrow(snap, sts, k - 1, l.value.0, l.value.1);
      }
    }
  }

  /** Stamping only lengthens correction lists. */
  lemma StampsGrow(snap: seq<CorrectionSet>, sts: seq<Stamp>, k: nat, n: nat, idx: nat)
    requires k <= |sts| && Stamps(snap, sts, k).Success? && n < |snap| && idx < |snap[n].bindings|
    ensures |Stamps(snap, sts, k).value[n].bindings[idx].corrections| >= |snap[n].bindings[idx].corrections|
  {
    StampsLanded(snap, sts, k);
    CarriesGrow(Stamps(snap, sts, k).value, snap, sts, k, n, idx);
  }

  lemma CarriesGrow(cur: seq<CorrectionSet>, snap: seq<CorrectionSet>, sts: seq<Stamp>, k: nat, n: nat, idx: nat)
    requires k <= |sts| && Carries(cur, snap, sts, k) && n < |snap| && idx < |snap[n].bindings|
    ensures |cur[n].bindings[idx].corrections| >= |snap[n].bindings[idx].corrections|
  {
    var now, before, landed := cur[n].bindings[idx].corrections, snap[n].bindings[idx].corrections, LandedAt(snap, sts, k, n, idx);
    assert multiset(now) == multiset(before) + multiset(landed);
    assert |multiset(now)| == |now| && |multiset(before)| == |before|;
  }

  /** The stamp lands nowhere, or within the corrections its entry had
      before stamping. */
  predicate Fits(snap: seq<CorrectionSet>, st: Stamp)
  {
    var l := Landing(snap, st);
    l.Some? ==> l.value.2 <= |snap[l.value.0].bindings[l.value.1].corrections|
  }

  /** One more stamp on the map the earlier ones left. */
  lemma StampsNext(snap: seq<CorrectionSet>, sts: seq<Stamp>, j: nat, cur: seq<CorrectionSet>)
    requires j < |sts| && Stamps(snap, sts, j) == Success(cur)
    ensures SameShape(cur, snap) && Stamps(snap, sts, j + 1) == StampOne(cur, snap, sts[j])
  {
  }

  /** Once a stamp fails, the stamping fails with it. */
  lemma {:induction false} StampsFailureKept(snap: seq<CorrectionSet>, sts: seq<Stamp>, k: nat)
    requires k <= |sts| && Stamps(snap, sts, k).Failure?
    ensures Stamps(snap, sts, |sts|) == Stamps(snap, sts, k)
    decreases |sts| - k
  {
    if k < |sts| {
      StampsFailureKept(snap, sts, k + 1);
    }
  }

  /** No entry of the map carries a correction yet, as in a freshly built
      map. */
  predicate Bare(snap: seq<CorrectionSet>)
  {
    forall n, i :: 0 <= n < |snap| && 0 <= i < |snap[n].bindings| ==> snap[n].bindings[i].corrections == []
  }

  /** On a bare map a stamp lands on the entry whose index is its binding,
      in front, and nowhere when the set or that entry does not exist. */
  lemma BareLanding(snap: seq<CorrectionSet>, st: Stamp)
    requires Bare(snap)
    ensures Landing(snap, st) ==
      if st.descriptorSet as int < |snap| && st.binding as int < |snap[st.descriptorSet].bindings|
      then Some((st.descriptorSet as nat, st.binding as nat, 0)) else None
  {
    if st.descriptorSet as int < |snap| {
      FreshWalk(snap[st.descriptorSet].bindings, st.binding as nat);
    }
  }

  /** On a bare map no stamp fails, whatever the order of the stamps. */
  lemma BareStampsSucceed(snap: seq<CorrectionSet>, sts: seq<Stamp>)
    requires Bare(snap)
    ensures Stamps(snap, sts, |sts|).Success?
  {
    forall t | 0 <= t < |sts| ensures Fits(snap, sts[t]) {
      BareLanding(snap, sts[t]);
    }
    StampsSucceed(snap, sts, |sts|);
  }

  // ---------------------------------------------------------------------
  // The loop

  /** The walk loop of one stamp: `my_binding` counts down the snapshot's
      slots until it is not positive, then the type is inserted there. */
  method StampVariable(cur: seq<CorrectionSet>, snap: seq<CorrectionSet>, st: Stamp) returns (r: Result<seq<CorrectionSet>>)
    requires SameShape(cur, snap)
    ensures r == StampOne(cur, snap, st)
  {
    if st.descriptorSet as int >= |cur| {
      return Success(cur);
    }
    var n := st.descriptorSet;
    var counts := seq(|snap[n].bindings|, i requires 0 <= i < |snap[n].bindings| => |snap[n].bindings[i].corrections| + 1);
    assert counts == Counts(snap[n].bindings);
    var myBinding: int := st.binding;
    var idx := 0;
    while idx < |counts|
      invariant 0 <= idx <= |counts|
      invariant Walk(counts, myBinding, idx) == Walk(counts, st.binding, 0)
    {
      if myBinding <= 0 {
        var cs := cur[n].bindings[idx].corrections;
        var pos := -myBinding;
        if pos > |cs| {
          return Failure(SlotIndexOutOfRange);
        }
        return Success(Put(cur, n, idx, InsertAt(cs, pos, st.correctionType)));
      }
      myBinding := myBinding - counts[idx];
      idx := idx + 1;
    }
    r := Success(cur);
  }
}
