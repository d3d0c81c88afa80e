/** The iterator searches the passes are built from: `find_map` (the first
    element a test picks) and `filter_map` (every element a test picks, in
    order). */
module Search {
  import opened Outcome

  /** The index of the first element that `p` picks. */
  function First<T>(xs: seq<T>, p: T --> bool): (r: Option<nat>)
    requires forall i :: 0 <= i < |xs| ==> p.requires(xs[i])
    ensures r.Some? ==> r.value < |xs| && p(xs[r.value]) && forall j :: 0 <= j < r.value ==> !p(xs[j])
    ensures r.None? ==> forall j :: 0 <= j < |xs| ==> !p(xs[j])
    decreases |xs|
  {
    if |xs| == 0 then None
    else if p(xs[0]) then Some(0)
    else
      var r := First(xs[1..], p);
      if r.Some? then Some(r.value + 1) else None
  }

  /** The first pick is at `k` when nothing before `k` is picked and the
      element at `k`, if any, is; no pick at all when `k` is the end. */
  lemma FirstIs<T>(xs: seq<T>, p: T --> bool, k: nat)
    requires forall i :: 0 <= i < |xs| ==> p.requires(xs[i])
    requires k <= |xs| && forall j :: 0 <= j < k ==> !p(xs[j])
    requires k < |xs| ==> p(xs[k])
    ensures First(xs, p) == if k < |xs| then Some(k) else None
  {
  }

  /** What `f` picks from each element of `xs`, in order. */
  function FilterMap<T, U>(xs: seq<T>, f: T --> Option<U>): (r: seq<U>)
    requires forall i :: 0 <= i < |xs| ==> f.requires(xs[i])
    ensures |r| <= |xs|
    decreases |xs|
  {
    if |xs| == 0 then []
    else
      var init := FilterMap(xs[..|xs| - 1], f);
      match f(xs[|xs| - 1])
      case None => init
      case Some(u) => init + [u]
  }

  /** Every picked value comes from one element, in the elements' order, and
      every element `f` picks is there: `pos` maps each result to the
      position of the element it came from. */
  lemma {:induction false} FilterMapOrder<T, U>(xs: seq<T>, f: T --> Option<U>) returns (pos: seq<nat>)
    requires forall i :: 0 <= i < |xs| ==> f.requires(xs[i])
    ensures |pos| == |FilterMap(xs, f)| <= |xs|
    ensures forall i :: 0 <= i < |pos| ==> pos[i] < |xs| && f(xs[pos[i]]) == Some(FilterMap(xs, f)[i])
    ensures forall i, j :: 0 <= i < j < |pos| ==> pos[i] < pos[j]
    ensures forall k :: 0 <= k < |xs| && f(xs[k]).Some? ==> k in pos
    decreases |xs|
  {
    if |xs| == 0 {
      pos := [];
    } else {
      var n := |xs| - 1;
      var init := xs[..n];
      var g := FilterMapOrder(init, f);
      assert forall k :: 0 <= k < n ==> init[k] == xs[k];
      var rs := FilterMap(init, f);
      if f(xs[n]).Some? {
        pos := g + [n];
        assert FilterMap(xs, f) == rs + [f(xs[n]).value];
      } else {
        pos := g;
        assert FilterMap(xs, f) == rs;
      }
    }
  }

  /** Picking from a longer prefix extends the result by what the next
      element gives. */
  lemma FilterMapSnoc<T, U>(xs: seq<T>, k: nat, f: T --> Option<U>)
    requires forall i :: 0 <= i < |xs| ==> f.requires(xs[i])
    requires k < |xs|
    ensures FilterMap(xs[..k + 1], f)
         == FilterMap(xs[..k], f) + (match f(xs[k]) case None => [] case Some(u) => [u])
  {
    assert xs[..k + 1][..k] == xs[..k];
  }

  /** What is picked from a prefix is a prefix of what is picked from the
      whole. */
  lemma {:induction false} FilterMapPrefix<T, U>(xs: seq<T>, k: nat, f: T --> Option<U>)
    requires forall i :: 0 <= i < |xs| ==> f.requires(xs[i])
    requires k <= |xs|
    ensures FilterMap(xs[..k], f) <= FilterMap(xs, f)
    decreases |xs| - k
  {
    if k < |xs| {
      FilterMapSnoc(xs, k, f);
      FilterMapPrefix(xs, k + 1, f);
      var a, b, c := FilterMap(xs[..k], f), FilterMap(xs[..k + 1], f), FilterMap(xs, f);
      assert a <= b;
      assert forall i :: 0 <= i < |a| ==> a[i] == b[i] == c[i];
    } else {
      assert xs[..k] == xs;
    }
  }

  /** Nothing is picked when `f` picks no element. */
  lemma {:induction false} FilterMapNone<T, U>(xs: seq<T>, f: T --> Option<U>)
    requires forall i :: 0 <= i < |xs| ==> f.requires(xs[i]) && f(xs[i]).None?
    ensures FilterMap(xs, f) == []
    decreases |xs|
  {
    if |xs| > 0 {
      FilterMapNone(xs[..|xs| - 1], f);
    }
  }

  /** The `filter_map` loop: collects what `f` picks, element by element. */
  method CollectPicks<T, U>(xs: seq<T>, f: T --> Option<U>) returns (r: seq<U>)
    requires forall i :: 0 <= i < |xs| ==> f.requires(xs[i])
    ensures r == FilterMap(xs, f)
  {
    r := [];
    var k := 0;
    while k < |xs|
      invariant 0 <= k <= |xs|
      invariant r == FilterMap(xs[..k], f)
    {
      FilterMapSnoc(xs, k, f);
      var picked := f(xs[k]);
      if picked.Some? {
        r := r + [picked.value];
      }
      k := k + 1;
    }
    assert xs[..k] == xs;
  }
}
