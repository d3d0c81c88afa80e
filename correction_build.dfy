/** Building a fresh correction map from the Binding and DescriptorSet
    decorations of a module: the decorated ids are taken in ascending
    binding order, a set is pushed the first time its number appears, and
    each binding is appended to the set found by indexing the sets with its
    set number, so the build succeeds only when set numbers appear densely
    and in order. */
module CorrectionBuild {
  import opened Spirv
  import opened Outcome
  import opened Correction

  /** One decorated id's Binding literal and, when it has one, its
      DescriptorSet literal. */
  datatype BindingRow = BindingRow(binding: u32, descriptorSet: Option<u32>)

  predicate SortedByBinding(rows: seq<BindingRow>)
  {
    forall i, j :: 0 <= i < j < |rows| ==> rows[i].binding <= rows[j].binding
  }

  /** Some set of `sets` has number `n`. */
  predicate HasSet(sets: seq<CorrectionSet>, n: u32)
  {
    exists i :: 0 <= i < |sets| && sets[i].descriptorSet == n
  }

  /** One row of the build: push the set if it is new, then append the
      binding to the set at index `n`. */
  function BuildStep(sets: seq<CorrectionSet>, row: BindingRow): Result<seq<CorrectionSet>>
  {
    if row.descriptorSet.None? then Failure(MissingDescriptorSet)
    else
      var n := row.descriptorSet.value;
      var grown := if HasSet(sets, n) then sets else sets + [CorrectionSet(n, [])];
      if n >= |grown| then Failure(SetIndexOutOfRange)
      else Success(grown[n := grown[n].(bindings := grown[n].bindings + [CorrectionBinding(row.binding, [])])])
  }

  /** The build over the first `k` rows. */
  function Build(rows: seq<BindingRow>, k: nat): Result<seq<CorrectionSet>>
    requires k <= |rows|
  {
    if k == 0 then Success([])
    else
      match Build(rows, k - 1)
      case Failure(e) => Failure(e)
      case Success(sets) => BuildStep(sets, rows[k - 1])
  }

  // ---------------------------------------------------------------------
  // A reference: the set numbers in order of first appearance, and the
  // bindings of each set in row order

  predicate AllSets(rows: seq<BindingRow>, k: nat)
    requires k <= |rows|
  {
    forall i :: 0 <= i < k ==> rows[i].descriptorSet.Some?
  }

  /** The set numbers of the first `k` rows, each at its first appearance. */
  function Appearance(rows: seq<BindingRow>, k: nat): seq<u32>
    requires k <= |rows| && AllSets(rows, k)
  {
    if k == 0 then []
    else if rows[k - 1].descriptorSet.value in Appearance(rows, k - 1) then Appearance(rows, k - 1)
    else Appearance(rows, k - 1) + [rows[k - 1].descriptorSet.value]
  }

  /** The numbers are 0, 1, 2, ... in this order. */
  predicate Dense(a: seq<u32>)
  {
    forall i :: 0 <= i < |a| ==> a[i] == i
  }

  /** The bindings of the first `k` rows that are in set `n`, in row order,
      each with no corrections yet. */
  function BindingsIn(rows: seq<BindingRow>, k: nat, n: u32): seq<CorrectionBinding>
    requires k <= |rows|
  {
    if k == 0 then []
    else if rows[k - 1].descriptorSet == Some(n) then BindingsIn(rows, k - 1, n) + [CorrectionBinding(rows[k - 1].binding, [])]
    else BindingsIn(rows, k - 1, n)
  }

  lemma {:induction false} AppearanceMembers(rows: seq<BindingRow>, k: nat, n: u32)
    requires k <= |rows| && AllSets(rows, k)
    ensures n in Appearance(rows, k) <==> exists i :: 0 <= i < k && rows[i].descriptorSet == Some(n)
  {
    if k > 0 {
      AppearanceMembers(rows, k - 1, n);
    }
  }

  lemma {:induction false} AppearancePrefix(rows: seq<BindingRow>, k: nat)
    requires 0 < k <= |rows| && AllSets(rows, k)
    ensures Appearance(rows, k - 1) <= Appearance(rows, k)
  {
  }

  lemma {:induction false} NoBindingsIn(rows: seq<BindingRow>, k: nat, n: u32)
    requires k <= |rows| && AllSets(rows, k) && n !in Appearance(rows, k)
    ensures BindingsIn(rows, k, n) == []
  {
    if k > 0 {
      NoBindingsIn(rows, k - 1, n);
    }
  }

  lemma DenseMembers(a: seq<u32>)
    requires Dense(a)
    ensures forall n: nat :: n < |a| ==> n in a
  {
    forall n: nat | n < |a| ensures n in a { assert a[n] == n; }
  }

  /** The state the build keeps while it succeeds: one set per number in
      order of appearance, each holding its bindings in row order. */
  predicate BuiltFrom(sets: seq<CorrectionSet>, rows: seq<BindingRow>, k: nat)
    requires k <= |rows| && AllSets(rows, k)
  {
    |sets| == |Appearance(rows, k)|
    && forall i :: 0 <= i < |sets| ==>
         sets[i].descriptorSet == i && sets[i].bindings == BindingsIn(rows, k, sets[i].descriptorSet)
  }

  /** One step of the build keeps that state exactly when the new set
      number is an old one or the next one. */
  lemma BuildStepMeaning(rows: seq<BindingRow>, k: nat, sets: seq<CorrectionSet>)
    requires 0 < k <= |rows| && AllSets(rows, k)
    requires Dense(Appearance(rows, k - 1)) && BuiltFrom(sets, rows, k - 1)
    ensures BuildStep(sets, rows[k - 1]).Success? <==> Dense(Appearance(rows, k))
    ensures BuildStep(sets, rows[k - 1]).Success? ==> BuiltFrom(BuildStep(sets, rows[k - 1]).value, rows, k)
    ensures BuildStep(sets, rows[k - 1]).Failure? ==> BuildStep(sets, rows[k - 1]).error == SetIndexOutOfRange
  {
    var a := Appearance(rows, k - 1);
    var n := rows[k - 1].descriptorSet.value;
    assert HasSet(sets, n) <==> n in a by {
      if HasSet(sets, n) {
        var i :| 0 <= i < |sets| && sets[i].descriptorSet == n;
        assert a[i] == n;
      }
      if n in a {
        var i :| 0 <= i < |a| && a[i] == n;
        assert sets[i].descriptorSet == n;
      }
    }
    if n in a {
      var i :| 0 <= i < |a| && a[i] == n;
      assert n < |sets|;
      var r := BuildStep(sets, rows[k - 1]).value;
      forall j | 0 <= j < |r| ensures r[j].descriptorSet == j && r[j].bindings == BindingsIn(rows, k, r[j].descriptorSet) {
      }
    } else {
      var p := |a|;
      assert forall i :: 0 <= i < p ==> a[i] == i;
      DenseMembers(a);
      var b := Appearance(rows, k);
      assert b == a + [n];
      if n == p {
        NoBindingsIn(rows, k - 1, n);
        var r := BuildStep(sets, rows[k - 1]).value;
        forall j | 0 <= j < |r| ensures r[j] == CorrectionSet(j, BindingsIn(rows, k, j)) {
        }
      } else {
        assert b[p] != p;
      }
    }
  }

  /** The build succeeds exactly when every row has a set and the set
      numbers appear densely in order; it then holds set `i` at index `i`
      with the bindings of that set in row order.  A failure is a missing
      set or an index out of range, and only the latter when every row
      has a set. */
  lemma {:induction false} BuildMeaning(rows: seq<BindingRow>, k: nat)
    requires k <= |rows|
    ensures Build(rows, k).Success? <==> AllSets(rows, k) && Dense(Appearance(rows, k))
    ensures Build(rows, k).Success? ==> AllSets(rows, k) && BuiltFrom(Build(rows, k).value, rows, k)
    ensures Build(rows, k).Failure? ==>
      Build(rows, k).error == (if AllSets(rows, k) then SetIndexOutOfRange else Build(rows, k).error)
      && (Build(rows, k).error == MissingDescriptorSet || Build(rows, k).error == SetIndexOutOfRange)
  {
    if k > 0 {
      BuildMeaning(rows, k - 1);
      var prev := Build(rows, k - 1);
      if AllSets(rows, k) {
        assert AllSets(rows, k - 1);
        AppearancePrefix(rows, k);
        if prev.Success? {
          BuildStepMeaning(rows, k, prev.value);
        }
      }
    }
  }

  /** Every binding of a set comes from one of the rows. */
  lemma {:induction false} BindingsInFrom(rows: seq<BindingRow>, k: nat, n: u32)
    requires k <= |rows|
    ensures forall i :: 0 <= i < |BindingsIn(rows, k, n)| ==> BindingsIn(rows, k, n)[i] in Fresh(rows, k)
  {
    if k > 0 {
      BindingsInFrom(rows, k - 1, n);
    }
  }

  /** The rows' bindings, each with no corrections. */
  function Fresh(rows: seq<BindingRow>, k: nat): set<CorrectionBinding>
    requires k <= |rows|
  {
    set t | 0 <= t < k :: CorrectionBinding(rows[t].binding, [])
  }

  /** Sorted rows give every set its bindings in ascending order. */
  lemma {:induction false} BindingsInSorted(rows: seq<BindingRow>, k: nat, n: u32)
    requires k <= |rows| && SortedByBinding(rows)
    ensures forall i, j :: 0 <= i < j < |BindingsIn(rows, k, n)| ==>
      BindingsIn(rows, k, n)[i].binding <= BindingsIn(rows, k, n)[j].binding
  {
    if k > 0 {
      BindingsInSorted(rows, k - 1, n);
      BindingsInFrom(rows, k - 1, n);
      var prev := BindingsIn(rows, k - 1, n);
      var cur := BindingsIn(rows, k, n);
      if rows[k - 1].descriptorSet == Some(n) {
        assert cur == prev + [CorrectionBinding(rows[k - 1].binding, [])];
        forall i, j | 0 <= i < j < |cur| ensures cur[i].binding <= cur[j].binding {
          assert cur[i] == prev[i] && prev[i] in Fresh(rows, k - 1);
          var t :| 0 <= t < k - 1 && prev[i] == CorrectionBinding(rows[t].binding, []);
          if j < |prev| { assert cur[j] == prev[j]; }
        }
      }
    }
  }

  /** Once the build fails, it fails with the same error to the end. */
  lemma {:induction false} BuildFailureKept(rows: seq<BindingRow>, k: nat)
    requires k <= |rows| && Build(rows, k).Failure?
    ensures Build(rows, |rows|) == Build(rows, k)
    decreases |rows| - k
  {
    if k < |rows| {
      BuildFailureKept(rows, k + 1);
    }
  }

  // ---------------------------------------------------------------------
  // The loops

  /** Inserts `x` after every row whose binding is not above its own. */
  function InsertByBinding(x: BindingRow, l: seq<BindingRow>): seq<BindingRow>
  {
    if l == [] || x.binding < l[0].binding then [x] + l else [l[0]] + InsertByBinding(x, l[1..])
  }

  lemma {:induction false} InsertByBindingMultiset(x: BindingRow, l: seq<BindingRow>)
    ensures multiset(InsertByBinding(x, l)) == multiset(l) + multiset{x}
  {
    if l != [] && x.binding >= l[0].binding {
      InsertByBindingMultiset(x, l[1..]);
      assert l == [l[0]] + l[1..];
    }
  }

  lemma {:induction false} InsertByBindingMembers(x: BindingRow, l: seq<BindingRow>)
    ensures forall y :: y in InsertByBinding(x, l) ==> y == x || y in l
  {
    if l != [] && x.binding >= l[0].binding {
      InsertByBindingMembers(x, l[1..]);
    }
  }

  lemma {:induction false} InsertByBindingSorted(x: BindingRow, l: seq<BindingRow>)
    requires SortedByBinding(l)
    ensures SortedByBinding(InsertByBinding(x, l))
  {
    if l != [] && x.binding >= l[0].binding {
      var t := l[1..];
      TailSorted(l);
      InsertByBindingSorted(x, t);
      InsertByBindingMembers(x, t);
      var r := InsertByBinding(x, t);
      assert forall y :: y in r ==> l[0].binding <= y.binding by {
        forall y | y in r ensures l[0].binding <= y.binding {
          if y != x {
            var i :| 0 <= i < |t| && t[i] == y;
            assert l[i + 1] == y;
          }
        }
      }
      ConsSorted(l[0], r);
    } else if l != [] {
      ConsSorted(x, l);
    }
  }

  /** The rows after the first of a sorted list are sorted. */
  lemma TailSorted(l: seq<BindingRow>)
    requires SortedByBinding(l) && l != []
    ensures SortedByBinding(l[1..])
  {
    var t := l[1..];
    forall i, j | 0 <= i < j < |t| ensures t[i].binding <= t[j].binding {
      assert t[i] == l[i + 1] && t[j] == l[j + 1];
    }
  }

  /** A row no later than any row of a sorted list can go first. */
  lemma ConsSorted(a: BindingRow, r: seq<BindingRow>)
    requires SortedByBinding(r) && forall y :: y in r ==> a.binding <= y.binding
    ensures SortedByBinding([a] + r)
  {
    var s := [a] + r;
    forall i, j | 0 <= i < j < |s| ensures s[i].binding <= s[j].binding {
      if i == 0 { assert s[j] in r; } else { assert s[i] == r[i - 1] && s[j] == r[j - 1]; }
    }
  }

  /** `sort_by_key` on the binding: the rows in ascending binding order. */
  method SortRows(rows: seq<BindingRow>) returns (sorted: seq<BindingRow>)
    ensures SortedByBinding(sorted) && multiset(sorted) == multiset(rows)
  {
    sorted := [];
    var k := 0;
    while k < |rows|
      invariant 0 <= k <= |rows|
      invariant SortedByBinding(sorted) && multiset(sorted) == multiset(rows[..k])
    {
      InsertByBindingSorted(rows[k], sorted);
      InsertByBindingMultiset(rows[k], sorted);
      sorted := InsertByBinding(rows[k], sorted);
      assert rows[..k + 1] == rows[..k] + [rows[k]];
      k := k + 1;
    }
    assert rows[..k] == rows;
  }

  lemma PushedSet(sets: seq<CorrectionSet>, n: u32)
    ensures forall m :: HasSet(sets + [CorrectionSet(n, [])], m) <==> HasSet(sets, m) || m == n
  {
    var grown := sets + [CorrectionSet(n, [])];
    forall m ensures HasSet(grown, m) <==> HasSet(sets, m) || m == n {
      if HasSet(sets, m) {
        var i :| 0 <= i < |sets| && sets[i].descriptorSet == m;
        assert grown[i].descriptorSet == m;
      }
      if HasSet(grown, m) {
        var i :| 0 <= i < |grown| && grown[i].descriptorSet == m;
        if i < |sets| { assert sets[i].descriptorSet == m; }
      }
      assert grown[|grown| - 1].descriptorSet == n;
    }
  }

  lemma AppendedBinding(sets: seq<CorrectionSet>, n: nat, b: u32)
    requires n < |sets|
    ensures forall m :: HasSet(sets[n := sets[n].(bindings := sets[n].bindings + [CorrectionBinding(b, [])])], m) <==> HasSet(sets, m)
  {
    var r := sets[n := sets[n].(bindings := sets[n].bindings + [CorrectionBinding(b, [])])];
    forall m ensures HasSet(r, m) <==> HasSet(sets, m) {
      if HasSet(sets, m) {
        var i :| 0 <= i < |sets| && sets[i].descriptorSet == m;
        assert r[i].descriptorSet == m;
      }
      if HasSet(r, m) {
        var i :| 0 <= i < |r| && r[i].descriptorSet == m;
        assert sets[i].descriptorSet == m;
      }
    }
  }

  /** The build loop over sorted rows, with the set of numbers already
      pushed. */
  method BuildSets(rows: seq<BindingRow>) returns (r: Result<seq<CorrectionSet>>)
    ensures r == Build(rows, |rows|)
  {
    var sets: seq<CorrectionSet> := [];
    var existing: set<u32> := {};
    var k := 0;
    while k < |rows|
      invariant 0 <= k <= |rows|
      invariant Build(rows, k) == Success(sets)
      invariant forall n :: n in existing <==> HasSet(sets, n)
    {
      var row := rows[k];
      if row.descriptorSet.None? {
        BuildFailureKept(rows, k + 1);
        return Failure(MissingDescriptorSet);
      }
      var n := row.descriptorSet.value;
      if n !in existing {
        PushedSet(sets, n);
        sets := sets + [CorrectionSet(n, [])];
        existing := existing + {n};
      }
      if n >= |sets| {
        BuildFailureKept(rows, k + 1);
        return Failure(SetIndexOutOfRange);
      }
      AppendedBinding(sets, n, row.binding);
      sets := sets[n := sets[n].(bindings := sets[n].bindings + [CorrectionBinding(row.binding, [])])];
      k := k + 1;
    }
    r := Success(sets);
  }
}
