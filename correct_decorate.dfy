/** Renumbering of colliding Binding decorations inside descriptor sets, run
    on the body after the new variables and their decorations are in place.
    A scan records, per decorated id, its DescriptorSet literal and its
    Binding decoration; then each descriptor set to correct has its Binding
    decorations sorted by number and shifted so that no two collide. */
module CorrectDecorate {
  import opened Spirv
  import opened Layout
  import opened Outcome

  /** A Binding decoration: the offset of its OpDecorate and its literal. */
  datatype Slot = Slot(idx: nat, value: u32)

  /** What the scan learnt about one decorated id. */
  datatype Candidate = Candidate(descriptorSet: Option<u32>, binding: Option<Slot>)

  type Candidates = map<u32, Candidate>

  // ---------------------------------------------------------------------
  // The decoration scan

  /** The decoration at `h` is an OpDecorate of `id` with decoration `dec`
      whose literal is in range. */
  predicate DecorationAt(s: seq<u32>, h: nat, id: u32, dec: u32)
  {
    h + 3 < |s| && LoWord(s[h]) == OpDecorate && s[h + 1] == id && s[h + 2] == dec
  }

  /** Some instruction of `s` decorates `id` with `dec`. */
  ghost predicate Decorated(s: seq<u32>, id: u32, dec: u32)
  {
    exists h :: IsHead(s, h) && DecorationAt(s, h, id, dec)
  }

  /** A slot the scan recorded for `id`: an OpDecorate instruction of `s`
      giving `id` a Binding, and the literal it carries. */
  ghost predicate BindingHead(s: seq<u32>, id: u32, sl: Slot)
  {
    IsHead(s, sl.idx) && DecorationAt(s, sl.idx, id, DecorationBinding) && s[sl.idx + 3] == sl.value
  }

  /** Every recorded slot lies in `s`, belongs to its id and holds its literal. */
  predicate Consistent(s: seq<u32>, m: Candidates)
  {
    forall id :: id in m && m[id].binding.Some? ==>
      var sl := m[id].binding.value;
      sl.idx + 3 < |s| && s[sl.idx + 1] == id && s[sl.idx + 3] == sl.value
  }

  /** The candidates after recording the decoration at `d`; a later
      decoration of the same kind replaces an earlier one. */
  function Record(m: Candidates, s: seq<u32>, d: nat): Candidates
    requires d + 3 < |s|
  {
    var id := s[d + 1];
    var c := if id in m then m[id] else Candidate(None, None);
    if s[d + 2] == DecorationDescriptorSet then m[id := c.(descriptorSet := Some(s[d + 3]))]
    else m[id := c.(binding := Some(Slot(d, s[d + 3])))]
  }

  /** The scan from head `i`, visiting heads only: an OpDecorate whose
      decoration or literal lies past the end of `s` fails, as the source's
      slice indexing does. */
  function ScanFrom(s: seq<u32>, i: nat, m: Candidates): Result<Candidates>
    requires WalksFrom(s, i)
    decreases |s| - i
  {
    if i >= |s| then Success(m)
    else if LoWord(s[i]) != OpDecorate then ScanFrom(s, i + HiWord(s[i]), m)
    else if i + 2 >= |s| then Failure(OperandOutOfRange)
    else if !IsBindingOrSet(s[i + 2]) then ScanFrom(s, i + HiWord(s[i]), m)
    else if i + 3 >= |s| then Failure(OperandOutOfRange)
    else ScanFrom(s, i + HiWord(s[i]), Record(m, s, i))
  }

  /** The candidates of a whole body. */
  function Scan(s: seq<u32>): Result<Candidates>
    requires WellFormed(s)
  {
    ScanFrom(s, 0, map[])
  }

  /** The walk from `i` meets an OpDecorate of `id` with `dec`. */
  predicate DecoratedFrom(s: seq<u32>, i: nat, id: u32, dec: u32)
    requires WalksFrom(s, i)
    decreases |s| - i
  {
    if i >= |s| then false
    else DecorationAt(s, i, id, dec) || DecoratedFrom(s, i + HiWord(s[i]), id, dec)
  }

  lemma {:induction false} DecoratedFromReached(s: seq<u32>, i: nat, id: u32, dec: u32)
    requires WalksFrom(s, i)
    ensures DecoratedFrom(s, i, id, dec) <==> exists h :: ReachesFrom(s, i, h) && DecorationAt(s, h, id, dec)
    decreases |s| - i
  {
    if i < |s| {
      var n := i + HiWord(s[i]);
      DecoratedFromReached(s, n, id, dec);
      if DecoratedFrom(s, n, id, dec) {
        var h :| ReachesFrom(s, n, h) && DecorationAt(s, h, id, dec);
        assert ReachesFrom(s, i, h);
      }
      if exists h :: ReachesFrom(s, i, h) && DecorationAt(s, h, id, dec) {
        var h :| ReachesFrom(s, i, h) && DecorationAt(s, h, id, dec);
        if h != i {
          assert ReachesFrom(s, n, h);
        }
      }
    }
  }

  /** What one step of the scan learns about `id`. */
  lemma {:induction false} ScanFacts(s: seq<u32>, i: nat, m: Candidates, id: u32)
    requires WalksFrom(s, i) && ScanFrom(s, i, m).Success?
    ensures var r := ScanFrom(s, i, m).value;
      && (id in r <==> id in m || DecoratedFrom(s, i, id, DecorationBinding)
                               || DecoratedFrom(s, i, id, DecorationDescriptorSet))
      && (id in r ==> (r[id].descriptorSet.Some? <==>
            (id in m && m[id].descriptorSet.Some?) || DecoratedFrom(s, i, id, DecorationDescriptorSet)))
      && (id in r ==> (r[id].binding.Some? <==>
            (id in m && m[id].binding.Some?) || DecoratedFrom(s, i, id, DecorationBinding)))
      && (id in r && r[id].binding.Some? ==>
            (id in m && r[id].binding == m[id].binding)
            || (ReachesFrom(s, i, r[id].binding.value.idx)
                && DecorationAt(s, r[id].binding.value.idx, id, DecorationBinding)
                && s[r[id].binding.value.idx + 3] == r[id].binding.value.value))
    decreases |s| - i
  {
    if i < |s| {
      var n := i + HiWord(s[i]);
      if LoWord(s[i]) != OpDecorate || !IsBindingOrSet(s[i + 2]) {
        ScanFacts(s, n, m, id);
      } else {
        ScanFacts(s, n, Record(m, s, i), id);
      }
    }
  }

  lemma {:induction false} ScanConsistent(s: seq<u32>, i: nat, m: Candidates)
    requires WalksFrom(s, i) && ScanFrom(s, i, m).Success? && Consistent(s, m)
    ensures Consistent(s, ScanFrom(s, i, m).value)
    decreases |s| - i
  {
    if i < |s| {
      var n := i + HiWord(s[i]);
      if LoWord(s[i]) != OpDecorate || !IsBindingOrSet(s[i + 2]) {
        ScanConsistent(s, n, m);
      } else {
        ScanConsistent(s, n, Record(m, s, i));
      }
    }
  }

  /** The scan of a body records exactly the ids that carry a Binding or a
      DescriptorSet decoration; an id has a set or a slot exactly when it
      carries that decoration; every slot is a Binding decoration of its id. */
  lemma ScanSound(s: seq<u32>, id: u32)
    requires WellFormed(s) && Scan(s).Success?
    ensures var m := Scan(s).value;
      && Consistent(s, m)
      && (id in m <==> Decorated(s, id, DecorationBinding) || Decorated(s, id, DecorationDescriptorSet))
      && (id in m ==> (m[id].descriptorSet.Some? <==> Decorated(s, id, DecorationDescriptorSet)))
      && (id in m ==> (m[id].binding.Some? <==> Decorated(s, id, DecorationBinding)))
      && (id in m && m[id].binding.Some? ==> BindingHead(s, id, m[id].binding.value))
  {
    ScanConsistent(s, 0, map[]);
    ScanFacts(s, 0, map[], id);
    DecoratedFromReached(s, 0, id, DecorationBinding);
    DecoratedFromReached(s, 0, id, DecorationDescriptorSet);
    assert Decorated(s, id, DecorationBinding) <==> DecoratedFrom(s, 0, id, DecorationBinding) by {
      if Decorated(s, id, DecorationBinding) {
        var h :| IsHead(s, h) && DecorationAt(s, h, id, DecorationBinding);
        assert ReachesFrom(s, 0, h);
      }
    }
    assert Decorated(s, id, DecorationDescriptorSet) <==> DecoratedFrom(s, 0, id, DecorationDescriptorSet) by {
      if Decorated(s, id, DecorationDescriptorSet) {
        var h :| IsHead(s, h) && DecorationAt(s, h, id, DecorationDescriptorSet);
        assert ReachesFrom(s, 0, h);
      }
    }
  }

  /** The scan, as the source's while loop over heads. */
  method ScanDecorations(s: seq<u32>) returns (r: Result<Candidates>)
    requires WellFormed(s)
    ensures r == Scan(s)
  {
    var m: Candidates := map[];
    var d: nat := 0;
    while d < |s|
      invariant WalksFrom(s, d)
      invariant ScanFrom(s, d, m) == Scan(s)
      decreases |s| - d
    {
      var op := s[d];
      if LoWord(op) == OpDecorate {
        if d + 2 >= |s| {
          return Failure(OperandOutOfRange);
        }
        var dec := s[d + 2];
        if dec == DecorationDescriptorSet || dec == DecorationBinding {
          if d + 3 >= |s| {
            return Failure(OperandOutOfRange);
          }
          var id := s[d + 1];
          var c := if id in m then m[id] else Candidate(None, None);
          if dec == DecorationDescriptorSet {
            m := m[id := c.(descriptorSet := Some(s[d + 3]))];
          } else {
            m := m[id := c.(binding := Some(Slot(d, s[d + 3])))];
          }
        }
      }
      d := d + HiWord(op);
    }
    return Success(m);
  }

  // ---------------------------------------------------------------------
  // Collecting one descriptor set's slots, sorted by binding number

  /** Every candidate has both a descriptor set and a Binding slot. */
  predicate Complete(m: Candidates)
  {
    forall id :: id in m ==> m[id].descriptorSet.Some? && m[id].binding.Some?
  }

  /** `id` is decorated with descriptor set `ds` and has a slot. */
  predicate InSet(m: Candidates, id: u32, ds: u32)
  {
    id in m && m[id].descriptorSet == Some(ds) && m[id].binding.Some?
  }

  /** `id` is decorated with one of the sets in `sets` and has a slot. */
  predicate InSets(m: Candidates, id: u32, sets: set<u32>)
  {
    id in m && m[id].descriptorSet.Some? && m[id].descriptorSet.value in sets && m[id].binding.Some?
  }

  /** The word holding the Binding literal of `id`. */
  function Pos(m: Candidates, id: u32): nat
    requires id in m && m[id].binding.Some?
  {
    m[id].binding.value.idx + 3
  }

  /** The slots of the ids in `ks` that belong to set `ds`. */
  function SlotsIn(m: Candidates, ds: u32, ks: set<u32>): set<Slot>
  {
    set id | id in ks && InSet(m, id, ds) :: m[id].binding.value
  }

  /** The literal words of the slots of every set in `sets`. */
  function Touched(m: Candidates, sets: set<u32>): set<nat>
  {
    set id | id in m && InSets(m, id, sets) :: Pos(m, id)
  }

  /** Distinct ids have their slots at distinct offsets. */
  predicate DistinctSlots(m: Candidates)
  {
    forall a, b :: a in m && b in m && a != b && m[a].binding.Some? && m[b].binding.Some? ==>
      m[a].binding.value.idx != m[b].binding.value.idx
  }

  lemma ConsistentDistinct(s: seq<u32>, m: Candidates)
    requires Consistent(s, m)
    ensures DistinctSlots(m)
  {
  }

  predicate SortedByValue(l: seq<Slot>)
  {
    forall j, k :: 0 <= j < k < |l| ==> l[j].value <= l[k].value
  }

  predicate DistinctIdx(l: seq<Slot>)
  {
    forall j, k :: 0 <= j < k < |l| ==> l[j].idx != l[k].idx
  }

  /** Inserts `x` after every slot whose number is not above its own, as a
      stable sort by number over the arrival order does. */
  function InsertSorted(x: Slot, l: seq<Slot>): seq<Slot>
    decreases |l|
  {
    if l == [] || x.value < l[0].value then [x] + l else [l[0]] + InsertSorted(x, l[1..])
  }

  lemma {:induction false} InsertSortedMembers(x: Slot, l: seq<Slot>)
    ensures forall y :: y in InsertSorted(x, l) <==> y == x || y in l
    ensures |InsertSorted(x, l)| == |l| + 1
    decreases |l|
  {
    if l != [] && x.value >= l[0].value {
      InsertSortedMembers(x, l[1..]);
      assert l == [l[0]] + l[1..];
    }
  }

  lemma ConsSorted(a: Slot, t: seq<Slot>)
    requires SortedByValue(t) && DistinctIdx(t)
    requires forall y :: y in t ==> a.value <= y.value && a.idx != y.idx
    ensures SortedByValue([a] + t) && DistinctIdx([a] + t)
  {
    var r := [a] + t;
    forall j, k | 0 <= j < k < |r| ensures r[j].value <= r[k].value && r[j].idx != r[k].idx {
      if j == 0 {
        assert r[k] == t[k - 1];
      } else {
        assert r[j] == t[j - 1] && r[k] == t[k - 1];
      }
    }
  }

  lemma {:induction false} InsertSortedFacts(x: Slot, l: seq<Slot>)
    requires SortedByValue(l) && DistinctIdx(l) && forall y :: y in l ==> y.idx != x.idx
    ensures SortedByValue(InsertSorted(x, l)) && DistinctIdx(InsertSorted(x, l))
    ensures forall y :: y in InsertSorted(x, l) <==> y == x || y in l
    ensures |InsertSorted(x, l)| == |l| + 1
    decreases |l|
  {
    InsertSortedMembers(x, l);
    if l == [] || x.value < l[0].value {
      forall y | y in l ensures x.value <= y.value {
        var k :| 0 <= k < |l| && l[k] == y;
        assert l[0].value <= l[k].value;
      }
      ConsSorted(x, l);
    } else {
      var t := InsertSorted(x, l[1..]);
      assert forall y :: y in l[1..] ==> y in l;
      InsertSortedFacts(x, l[1..]);
      forall y | y in t ensures l[0].value <= y.value && y.idx != l[0].idx {
        if y != x {
          var k :| 0 <= k < |l[1..]| && l[1..][k] == y;
          assert l[k + 1] == y;
        }
      }
      ConsSorted(l[0], t);
    }
  }

  /** The slots of set `ds`, sorted by number; fails, as the source's
      `unwrap`s do, on the first candidate met that lacks a set or a slot,
      whichever set is being collected. */
  method CollectSet(m: Candidates, ds: u32) returns (r: Result<seq<Slot>>)
    requires DistinctSlots(m)
    ensures r.Failure? <==> !Complete(m)
    ensures r.Failure? ==> r.error == MissingDescriptorSet || r.error == MissingBinding
    ensures r.Success? ==> SortedByValue(r.value) && DistinctIdx(r.value) && |r.value| <= |m|
    ensures r.Success? ==> forall x :: x in r.value <==> x in SlotsIn(m, ds, m.Keys)
  {
    var keys := m.Keys;
    var l: seq<Slot> := [];
    while keys != {}
      invariant keys <= m.Keys
      invariant forall id :: id in m && id !in keys ==> m[id].descriptorSet.Some? && m[id].binding.Some?
      invariant SortedByValue(l) && DistinctIdx(l) && |l| + |keys| <= |m|
      invariant forall x :: x in l <==> x in SlotsIn(m, ds, m.Keys - keys)
      decreases keys
    {
      var id :| id in keys;
      var c := m[id];
      if c.descriptorSet.None? {
        return Failure(MissingDescriptorSet);
      }
      if c.binding.None? {
        return Failure(MissingBinding);
      }
      l := CollectOne(m, ds, l, keys, id);
      keys := keys - {id};
    }
    return Success(l);
  }

  /** One candidate of the loop above, known to have a set and a slot: its
      slot joins the sorted list when its set is `ds`. */
  method CollectOne(m: Candidates, ds: u32, l: seq<Slot>, keys: set<u32>, id: u32) returns (r: seq<Slot>)
    requires DistinctSlots(m) && keys <= m.Keys && id in keys
    requires m[id].descriptorSet.Some? && m[id].binding.Some?
    requires SortedByValue(l) && DistinctIdx(l) && |l| + |keys| <= |m|
    requires forall x :: x in l <==> x in SlotsIn(m, ds, m.Keys - keys)
    ensures SortedByValue(r) && DistinctIdx(r) && |r| + |keys - {id}| <= |m|
    ensures forall x :: x in r <==> x in SlotsIn(m, ds, m.Keys - (keys - {id}))
  {
    var c := m[id];
    ghost var done := m.Keys - keys;
    assert m.Keys - (keys - {id}) == done + {id};
    SlotsInAdd(m, ds, done, id);
    r := l;
    if c.descriptorSet.value == ds {
      forall y | y in l ensures y.idx != c.binding.value.idx {
        var other :| other in done && InSet(m, other, ds) && m[other].binding.value == y;
      }
      InsertSortedFacts(c.binding.value, l);
      r := InsertSorted(c.binding.value, l);
    }
  }

  /** The slots of set `ds` among `done` and one id more. */
  lemma SlotsInAdd(m: Candidates, ds: u32, done: set<u32>, id: u32)
    requires id in m && id !in done && m[id].binding.Some?
    ensures SlotsIn(m, ds, done + {id})
      == if InSet(m, id, ds) then SlotsIn(m, ds, done) + {m[id].binding.value} else SlotsIn(m, ds, done)
  {
  }

  // ---------------------------------------------------------------------
  // Shifting one set's sorted slots

  /** The number the loop compares entry `k` against, as an i32: the one
      before it, or -1 before the first entry. */
  function PrevBinding(l: seq<Slot>, k: nat): int
    requires k < |l|
  {
    if k == 0 then -1 else AsI32(l[k - 1].value)
  }

  /** Entry `k` repeats the number before it (the first entry compares
      against -1, which only 0xFFFF_FFFF matches). */
  predicate Repeats(l: seq<Slot>, k: nat)
    requires k < |l|
  {
    AsI32(l[k].value) == PrevBinding(l, k)
  }

  /** The increment in force when entry `k` is written: one more for every
      entry up to `k` that repeats the number before it. */
  function Increment(l: seq<Slot>, k: nat): nat
    requires k < |l|
    decreases k
  {
    if k == 0 then (if Repeats(l, 0) then 1 else 0)
    else if Repeats(l, k) then Increment(l, k - 1) + 1
    else Increment(l, k - 1)
  }

  /** The number written for entry `k`. */
  function NewValue(l: seq<Slot>, k: nat): int
    requires k < |l|
  {
    l[k].value + Increment(l, k)
  }

  lemma RepeatsMeansEqual(l: seq<Slot>, k: nat)
    requires k < |l|
    ensures k > 0 ==> (Repeats(l, k) <==> l[k].value == l[k - 1].value)
    ensures k == 0 ==> (Repeats(l, k) <==> l[k].value == MaxU32)
  {
  }

  lemma IncrementBound(l: seq<Slot>, k: nat)
    requires k < |l|
    ensures Increment(l, k) <= k + 1
    decreases k
  {
    if k > 0 {
      IncrementBound(l, k - 1);
    }
  }

  /** In sorted order, every written number is above the one written before it. */
  lemma {:induction false} NewValueIncreasing(l: seq<Slot>, j: nat, k: nat)
    requires SortedByValue(l) && j < k < |l|
    ensures NewValue(l, j) < NewValue(l, k)
    decreases k - j
  {
    RepeatsMeansEqual(l, k);
    assert l[k - 1].value <= l[k].value;
    if j < k - 1 {
      NewValueIncreasing(l, j, k - 1);
    }
  }

  /** With no repeated number, nothing is shifted. */
  lemma {:induction false} NoRepeatNoShift(l: seq<Slot>, k: nat)
    requires k < |l| && l[0].value != MaxU32
    requires forall j :: 0 < j <= k ==> l[j].value != l[j - 1].value
    ensures Increment(l, k) == 0
    decreases k
  {
    RepeatsMeansEqual(l, k);
    if k > 0 {
      NoRepeatNoShift(l, k - 1);
    }
  }

  /** `t` with the first `k` sorted slots given the numbers `vals`. */
  function Written(t: seq<u32>, l: seq<Slot>, vals: seq<u32>, k: nat): (r: seq<u32>)
    requires k <= |l| && k <= |vals| && forall j :: 0 <= j < k ==> l[j].idx + 3 < |t|
    ensures |r| == |t|
  {
    if k == 0 then t else Written(t, l, vals, k - 1)[l[k - 1].idx + 3 := vals[k - 1]]
  }

  lemma {:induction false} WrittenAt(t: seq<u32>, l: seq<Slot>, vals: seq<u32>, k: nat, j: nat)
    requires k <= |l| && k <= |vals| && forall i :: 0 <= i < k ==> l[i].idx + 3 < |t|
    requires j < k && forall i :: j < i < k ==> l[i].idx != l[j].idx
    ensures Written(t, l, vals, k)[l[j].idx + 3] == vals[j]
  {
    if j < k - 1 {
      WrittenAt(t, l, vals, k - 1, j);
    }
  }

  lemma {:induction false} WrittenElsewhere(t: seq<u32>, l: seq<Slot>, vals: seq<u32>, k: nat, p: nat)
    requires k <= |l| && k <= |vals| && forall i :: 0 <= i < k ==> l[i].idx + 3 < |t|
    requires p < |t| && forall i :: 0 <= i < k ==> p != l[i].idx + 3
    ensures Written(t, l, vals, k)[p] == t[p]
  {
    if k > 0 {
      WrittenElsewhere(t, l, vals, k - 1, p);
    }
  }

  lemma {:induction false} WrittenExtend(t: seq<u32>, l: seq<Slot>, vals: seq<u32>, v: u32, k: nat)
    requires k <= |l| && k <= |vals| && forall i :: 0 <= i < k ==> l[i].idx + 3 < |t|
    ensures Written(t, l, vals + [v], k) == Written(t, l, vals, k)
  {
    if k > 0 {
      WrittenExtend(t, l, vals, v, k - 1);
      assert (vals + [v])[k - 1] == vals[k - 1];
    }
  }

  lemma WrittenAll(t: seq<u32>, l: seq<Slot>, vals: seq<u32>)
    requires DistinctIdx(l) && |vals| == |l| && forall i :: 0 <= i < |l| ==> l[i].idx + 3 < |t|
    ensures forall k :: 0 <= k < |l| ==> Written(t, l, vals, |l|)[l[k].idx + 3] == vals[k]
    ensures forall p :: 0 <= p < |t| && (forall k :: 0 <= k < |l| ==> p != l[k].idx + 3) ==>
      Written(t, l, vals, |l|)[p] == t[p]
  {
    forall k | 0 <= k < |l| ensures Written(t, l, vals, |l|)[l[k].idx + 3] == vals[k] {
      WrittenAt(t, l, vals, |l|, k);
    }
    forall p | 0 <= p < |t| && (forall k :: 0 <= k < |l| ==> p != l[k].idx + 3)
      ensures Written(t, l, vals, |l|)[p] == t[p]
    {
      WrittenElsewhere(t, l, vals, |l|, p);
    }
  }

  /** Writes each sorted slot's shifted number into its literal word; fails
      when a number passes 0xFFFF_FFFF (the source's debug-mode overflow). */
  method ShiftSet(t: seq<u32>, l: seq<Slot>) returns (r: Result<seq<u32>>)
    requires DistinctIdx(l) && forall k :: 0 <= k < |l| ==> l[k].idx + 3 < |t|
    ensures r.Failure? <==> exists k :: 0 <= k < |l| && NewValue(l, k) > MaxU32
    ensures r.Failure? ==> r.error == BindingOverflow
    ensures r.Success? ==> |r.value| == |t|
    ensures r.Success? ==> forall k :: 0 <= k < |l| ==> r.value[l[k].idx + 3] == NewValue(l, k)
    ensures r.Success? ==> forall p :: 0 <= p < |t| && (forall k :: 0 <= k < |l| ==> p != l[k].idx + 3) ==>
      r.value[p] == t[p]
  {
    var u := t;
    var prev: int := -1;
    var inc: nat := 0;
    var k: nat := 0;
    ghost var vals: seq<u32> := [];
    while k < |l|
      invariant k <= |l| && |vals| == k
      invariant prev == (if k == 0 then -1 else AsI32(l[k - 1].value))
      invariant inc == (if k == 0 then 0 else Increment(l, k - 1))
      invariant forall j :: 0 <= j < k ==> vals[j] == NewValue(l, j)
      invariant u == Written(t, l, vals, k)
    {
      var sl := l[k];
      if AsI32(sl.value) == prev {
        inc := inc + 1;
      }
      assert inc == Increment(l, k);
      if sl.value + inc > MaxU32 {
        assert NewValue(l, k) > MaxU32;
        return Failure(BindingOverflow);
      }
      WrittenExtend(t, l, vals, sl.value + inc, k);
      u := u[sl.idx + 3 := sl.value + inc];
      vals := vals + [sl.value + inc];
      prev := AsI32(sl.value);
      k := k + 1;
    }
    WrittenAll(t, l, vals);
    return Success(u);
  }

  // ---------------------------------------------------------------------
  // The whole correction

  /** No two ids of set `ds` carry the same Binding number. */
  predicate DistinctValues(m: Candidates, ds: u32)
  {
    forall a, b :: InSet(m, a, ds) && InSet(m, b, ds) && a != b ==>
      m[a].binding.value.value != m[b].binding.value.value
  }

  /** What correcting set `ds` achieves in `t`, relative to the original `s`:
      no literal went down, distinct ids carry distinct numbers, a lower
      number stays lower, and a set whose numbers were already distinct is
      left as it was. */
  predicate SetCorrected(s: seq<u32>, t: seq<u32>, m: Candidates, ds: u32)
    requires Consistent(s, m) && |t| == |s|
  {
    && (forall id :: InSet(m, id, ds) ==> t[Pos(m, id)] >= s[Pos(m, id)])
    && (forall a, b :: InSet(m, a, ds) && InSet(m, b, ds) && a != b ==> t[Pos(m, a)] != t[Pos(m, b)])
    && (forall a, b :: InSet(m, a, ds) && InSet(m, b, ds) && s[Pos(m, a)] < s[Pos(m, b)] ==>
          t[Pos(m, a)] < t[Pos(m, b)])
    && (DistinctValues(m, ds) ==> forall id :: InSet(m, id, ds) ==> t[Pos(m, id)] == s[Pos(m, id)])
  }

  /** `t` is `s` with only the Binding literals of the sets in `sets`
      rewritten, each of those sets corrected. */
  predicate Corrected(s: seq<u32>, t: seq<u32>, m: Candidates, sets: set<u32>)
  {
    && Consistent(s, m) && |t| == |s|
    && (forall p :: 0 <= p < |s| && p !in Touched(m, sets) ==> t[p] == s[p])
    && (forall ds :: ds in sets ==> SetCorrected(s, t, m, ds))
  }

  /** No shifted number of the sets in `sets` can pass 0xFFFF_FFFF. */
  predicate NoBindingOverflow(m: Candidates, sets: set<u32>)
  {
    forall id :: InSets(m, id, sets) ==> m[id].binding.value.value + |m| <= MaxU32
  }

  lemma SlotOfSet(m: Candidates, ds: u32, x: Slot) returns (id: u32)
    requires x in SlotsIn(m, ds, m.Keys)
    ensures InSet(m, id, ds) && m[id].binding.value == x
  {
    id :| id in m.Keys && InSet(m, id, ds) && m[id].binding.value == x;
  }

  lemma IndexOf(l: seq<Slot>, x: Slot) returns (k: nat)
    requires x in l
    ensures k < |l| && l[k] == x
  {
    k :| 0 <= k < |l| && l[k] == x;
  }

  /** The slots of set `ds`, sorted, each given a new number in `u`. */
  ghost predicate Shifted(s: seq<u32>, u: seq<u32>, m: Candidates, ds: u32, l: seq<Slot>)
  {
    && Consistent(s, m) && |u| == |s|
    && SortedByValue(l) && DistinctIdx(l)
    && (forall x :: x in l <==> x in SlotsIn(m, ds, m.Keys))
    && (forall k :: 0 <= k < |l| ==> l[k].idx + 3 < |u| && u[l[k].idx + 3] == NewValue(l, k))
    && (forall k :: 0 <= k < |l| ==> NewValue(l, k) <= MaxU32)
  }

  lemma ShiftRaises(s: seq<u32>, u: seq<u32>, m: Candidates, ds: u32, l: seq<Slot>, id: u32)
    requires Shifted(s, u, m, ds, l) && InSet(m, id, ds)
    ensures u[Pos(m, id)] >= s[Pos(m, id)]
  {
    var k := IndexOf(l, m[id].binding.value);
  }

  lemma ShiftSeparates(s: seq<u32>, u: seq<u32>, m: Candidates, ds: u32, l: seq<Slot>, a: u32, b: u32)
    requires Shifted(s, u, m, ds, l) && InSet(m, a, ds) && InSet(m, b, ds) && a != b
    ensures u[Pos(m, a)] != u[Pos(m, b)]
  {
    var ka, kb := PlacesOf(s, m, ds, l, a, b);
    NewValuesApart(l, ka, kb);
  }

  /** Two ids of the set sit at two different places of the sorted slots. */
  lemma PlacesOf(s: seq<u32>, m: Candidates, ds: u32, l: seq<Slot>, a: u32, b: u32) returns (ka: nat, kb: nat)
    requires Consistent(s, m) && (forall x :: x in l <==> x in SlotsIn(m, ds, m.Keys))
    requires InSet(m, a, ds) && InSet(m, b, ds) && a != b
    ensures ka < |l| && kb < |l| && ka != kb
    ensures l[ka] == m[a].binding.value && l[kb] == m[b].binding.value
  {
    ConsistentDistinct(s, m);
    ka := IndexOf(l, m[a].binding.value);
    kb := IndexOf(l, m[b].binding.value);
    assert m[a].binding.value.idx != m[b].binding.value.idx;
  }

  /** An id with a lower number than another keeps it lower after the shift. */
  lemma ShiftKeepsOrder(s: seq<u32>, u: seq<u32>, m: Candidates, ds: u32, l: seq<Slot>, a: u32, b: u32)
    requires Shifted(s, u, m, ds, l) && InSet(m, a, ds) && InSet(m, b, ds)
    requires s[Pos(m, a)] < s[Pos(m, b)]
    ensures u[Pos(m, a)] < u[Pos(m, b)]
  {
    var ka := ShiftedAt(s, u, m, ds, l, a);
    var kb := ShiftedAt(s, u, m, ds, l, b);
    SortedBefore(l, ka, kb);
    NewValueIncreasing(l, ka, kb);
  }

  /** The place of an id of the set in the sorted slots, with its old
      and its new number. */
  lemma ShiftedAt(s: seq<u32>, u: seq<u32>, m: Candidates, ds: u32, l: seq<Slot>, id: u32) returns (k: nat)
    requires Shifted(s, u, m, ds, l) && InSet(m, id, ds)
    ensures k < |l| && s[Pos(m, id)] == l[k].value && u[Pos(m, id)] == NewValue(l, k)
  {
    k := IndexOf(l, m[id].binding.value);
  }

  /** In sorted slots a lower number sits at an earlier place. */
  lemma SortedBefore(l: seq<Slot>, j: nat, k: nat)
    requires SortedByValue(l) && j < |l| && k < |l| && l[j].value < l[k].value
    ensures j < k
  {
  }

  lemma NewValuesApart(l: seq<Slot>, j: nat, k: nat)
    requires SortedByValue(l) && j < |l| && k < |l| && j != k
    ensures NewValue(l, j) != NewValue(l, k)
  {
    if j < k { NewValueIncreasing(l, j, k); }
    if k < j { NewValueIncreasing(l, k, j); }
  }

  lemma ShiftKeepsDistinct(s: seq<u32>, u: seq<u32>, m: Candidates, ds: u32, l: seq<Slot>, id: u32)
    requires Shifted(s, u, m, ds, l) && DistinctValues(m, ds) && InSet(m, id, ds)
    ensures u[Pos(m, id)] == s[Pos(m, id)]
  {
    var k := IndexOf(l, m[id].binding.value);
    forall j | 0 < j < |l| ensures l[j].value != l[j - 1].value {
      var a := SlotOfSet(m, ds, l[j]);
      var b := SlotOfSet(m, ds, l[j - 1]);
    }
    RepeatsMeansEqual(l, 0);
    NoRepeatNoShift(l, k);
  }

  /** Shifting the sorted slots of `ds` corrects that set. */
  lemma ShiftCorrects(s: seq<u32>, u: seq<u32>, m: Candidates, ds: u32, l: seq<Slot>)
    requires Shifted(s, u, m, ds, l)
    ensures SetCorrected(s, u, m, ds)
  {
    forall id | InSet(m, id, ds) ensures u[Pos(m, id)] >= s[Pos(m, id)] {
      ShiftRaises(s, u, m, ds, l, id);
    }
    forall a, b | InSet(m, a, ds) && InSet(m, b, ds) && a != b ensures u[Pos(m, a)] != u[Pos(m, b)] {
      ShiftSeparates(s, u, m, ds, l, a, b);
    }
    forall a, b | InSet(m, a, ds) && InSet(m, b, ds) && s[Pos(m, a)] < s[Pos(m, b)]
      ensures u[Pos(m, a)] < u[Pos(m, b)]
    {
      ShiftKeepsOrder(s, u, m, ds, l, a, b);
    }
    if DistinctValues(m, ds) {
      forall id | InSet(m, id, ds) ensures u[Pos(m, id)] == s[Pos(m, id)] {
        ShiftKeepsDistinct(s, u, m, ds, l, id);
      }
    }
  }

  /** Writing set `ds` leaves the other sets' literals alone. */
  lemma OtherSetsKept(s: seq<u32>, t: seq<u32>, u: seq<u32>, m: Candidates, ds: u32, l: seq<Slot>, other: u32)
    requires Consistent(s, m) && |t| == |s| && |u| == |s| && other != ds
    requires forall x :: x in l <==> x in SlotsIn(m, ds, m.Keys)
    requires forall p :: 0 <= p < |t| && (forall k :: 0 <= k < |l| ==> p != l[k].idx + 3) ==> u[p] == t[p]
    requires SetCorrected(s, t, m, other)
    ensures SetCorrected(s, u, m, other)
  {
    forall id | InSet(m, id, other) ensures u[Pos(m, id)] == t[Pos(m, id)] {
      forall k | 0 <= k < |l| ensures Pos(m, id) != l[k].idx + 3 {
        var b := SlotOfSet(m, ds, l[k]);
      }
    }
  }

  /** Writing set `ds` changes only its literals. */
  lemma TouchedGrows(s: seq<u32>, t: seq<u32>, u: seq<u32>, m: Candidates, done: set<u32>, ds: u32, l: seq<Slot>)
    requires Consistent(s, m) && |t| == |s| && |u| == |s|
    requires forall x :: x in l <==> x in SlotsIn(m, ds, m.Keys)
    requires forall p :: 0 <= p < |t| && (forall k :: 0 <= k < |l| ==> p != l[k].idx + 3) ==> u[p] == t[p]
    requires forall p :: 0 <= p < |s| && p !in Touched(m, done) ==> t[p] == s[p]
    ensures forall p :: 0 <= p < |s| && p !in Touched(m, done + {ds}) ==> u[p] == s[p]
  {
    forall p | 0 <= p < |s| && p !in Touched(m, done + {ds}) ensures u[p] == s[p] {
      forall k | 0 <= k < |l| ensures p != l[k].idx + 3 {
        var b := SlotOfSet(m, ds, l[k]);
        assert InSets(m, b, done + {ds});
      }
    }
  }

  /** Every slot of set `ds` lies inside the body. */
  lemma SlotsFit(s: seq<u32>, m: Candidates, ds: u32, l: seq<Slot>)
    requires Consistent(s, m)
    requires forall x :: x in l <==> x in SlotsIn(m, ds, m.Keys)
    ensures forall k :: 0 <= k < |l| ==> l[k].idx + 3 < |s|
  {
    forall k | 0 <= k < |l| ensures l[k].idx + 3 < |s| {
      var id := SlotOfSet(m, ds, l[k]);
    }
  }

  /** No shifted number of a set passes 0xFFFF_FFFF when every number of
      it stays that far below the limit. */
  lemma ShiftFits(m: Candidates, sets: set<u32>, ds: u32, l: seq<Slot>)
    requires NoBindingOverflow(m, sets) && ds in sets && |l| <= |m|
    requires forall x :: x in l <==> x in SlotsIn(m, ds, m.Keys)
    ensures forall k :: 0 <= k < |l| ==> NewValue(l, k) <= MaxU32
  {
    forall k | 0 <= k < |l| ensures NewValue(l, k) <= MaxU32 {
      var id := SlotOfSet(m, ds, l[k]);
      assert InSets(m, id, sets);
      IncrementBound(l, k);
    }
  }

  lemma StepCorrects(s: seq<u32>, t: seq<u32>, u: seq<u32>, m: Candidates, done: set<u32>, ds: u32, l: seq<Slot>)
    requires Consistent(s, m) && |t| == |s| && |u| == |s|
    requires SortedByValue(l) && DistinctIdx(l)
    requires forall x :: x in l <==> x in SlotsIn(m, ds, m.Keys)
    requires forall k :: 0 <= k < |l| ==> l[k].idx + 3 < |u| && u[l[k].idx + 3] == NewValue(l, k)
    requires forall k :: 0 <= k < |l| ==> NewValue(l, k) <= MaxU32
    requires forall p :: 0 <= p < |t| && (forall k :: 0 <= k < |l| ==> p != l[k].idx + 3) ==> u[p] == t[p]
    requires forall p :: 0 <= p < |s| && p !in Touched(m, done) ==> t[p] == s[p]
    requires forall d :: d in done ==> SetCorrected(s, t, m, d)
    ensures forall p :: 0 <= p < |s| && p !in Touched(m, done + {ds}) ==> u[p] == s[p]
    ensures forall d :: d in done + {ds} ==> SetCorrected(s, u, m, d)
  {
    ShiftCorrects(s, u, m, ds, l);
    forall other | other in done && other != ds ensures SetCorrected(s, u, m, other) {
      OtherSetsKept(s, t, u, m, ds, l, other);
    }
    TouchedGrows(s, t, u, m, done, ds, l);
  }

  /** Corrects set `ds` in `t`, where the sets in `done` already are. */
  method CorrectSet(s: seq<u32>, t: seq<u32>, m: Candidates, ds: u32, ghost done: set<u32>, ghost sets: set<u32>)
    returns (r: Result<seq<u32>>)
    requires Consistent(s, m) && |t| == |s| && ds in sets
    requires forall p :: 0 <= p < |s| && p !in Touched(m, done) ==> t[p] == s[p]
    requires forall d :: d in done ==> SetCorrected(s, t, m, d)
    ensures r.Failure? ==> !Complete(m) || !NoBindingOverflow(m, sets)
    ensures r.Success? ==> Complete(m) && |r.value| == |s|
    ensures r.Success? ==> forall p :: 0 <= p < |s| && p !in Touched(m, done + {ds}) ==> r.value[p] == s[p]
    ensures r.Success? ==> forall d :: d in done + {ds} ==> SetCorrected(s, r.value, m, d)
  {
    ConsistentDistinct(s, m);
    var cl := CollectSet(m, ds);
    if cl.Failure? {
      return Failure(cl.error);
    }
    var l := cl.value;
    SlotsFit(s, m, ds, l);
    var w := ShiftSet(t, l);
    if w.Failure? {
      if NoBindingOverflow(m, sets) {
        ShiftFits(m, sets, ds, l);
      }
      return Failure(w.error);
    }
    var u := w.value;
    StepCorrects(s, t, u, m, done, ds, l);
    return Success(u);
  }

  /** Renumbers the Binding decorations of every set in `sets` (visited in
      any order) so that no two ids of a set share a number. */
  method CorrectBindings(s: seq<u32>, sets: set<u32>) returns (r: Result<seq<u32>>)
    requires WellFormed(s)
    ensures Scan(s).Failure? ==> r == Failure(Scan(s).error)
    ensures Scan(s).Success? && sets != {} && !Complete(Scan(s).value) ==> r.Failure?
    ensures (Scan(s).Success? && (sets == {} || Complete(Scan(s).value))
             && NoBindingOverflow(Scan(s).value, sets)) ==> r.Success?
    ensures r.Success? ==> Scan(s).Success? && Corrected(s, r.value, Scan(s).value, sets)
    ensures r.Success? && sets == {} ==> r.value == s
  {
    var c := ScanDecorations(s);
    if c.Failure? {
      return Failure(c.error);
    }
    var m := c.value;
    ScanConsistent(s, 0, map[]);
    r := CorrectSets(s, m, sets);
  }

  /** The loop of the correction: each set of `sets` in turn, stopping at
      the first failure. */
  method CorrectSets(s: seq<u32>, m: Candidates, sets: set<u32>) returns (r: Result<seq<u32>>)
    requires Consistent(s, m)
    ensures sets != {} && !Complete(m) ==> r.Failure?
    ensures (sets == {} || Complete(m)) && NoBindingOverflow(m, sets) ==> r.Success?
    ensures r.Success? ==> Corrected(s, r.value, m, sets)
    ensures r.Success? && sets == {} ==> r.value == s
  {
    var t := s;
    var todo := sets;
    ghost var done: set<u32> := {};
    while todo != {}
      invariant todo + done == sets && todo !! done
      invariant done != {} ==> Complete(m)
      invariant |t| == |s|
      invariant forall p :: 0 <= p < |s| && p !in Touched(m, done) ==> t[p] == s[p]
      invariant forall ds :: ds in done ==> SetCorrected(s, t, m, ds)
      decreases todo
    {
      var ds :| ds in todo;
      var u := CorrectSet(s, t, m, ds, done, sets);
      if u.Failure? {
        return u;
      }
      t := u.value;
      todo := todo - {ds};
      done := done + {ds};
    }
    return Success(t);
  }
}
