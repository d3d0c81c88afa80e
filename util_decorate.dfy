/** The shared decoration step of both passes (src/util/decorate.rs): every
    Binding and DescriptorSet decoration of an affected variable is
    recorded under its new variable and correction type; each new
    variable gets a decoration pair of its own, in the same descriptor set
    and at the next binding, anchored at the first OpDecorate; when no
    correction map is given, one is built from every decorated id; and
    each new variable is stamped into the map. */
module UtilDecorate {
  import opened Spirv
  import opened Outcome
  import opened Layout
  import opened Edits
  import opened Correction
  import opened CorrectionBuild
  import opened CorrectionStamp
  import CombinedDecorate

  type Entry = CombinedDecorate.Entry

  /** A variable being split: the original, the new variable, and what
      the new one holds. */
  datatype DecorationVariable = DecorationVariable(originalResId: u32, newResId: u32, correctionType: CorrectionType)

  /** The key new decorations are recorded under. */
  datatype Target = Target(newResId: u32, correctionType: CorrectionType)

  /** The Binding and DescriptorSet literals last seen on one id. */
  datatype Pair = Pair(binding: Option<u32>, descriptorSet: Option<u32>)

  /** What the scan fills for the new variables: their entries, and the
      descriptor sets of the affected variables. */
  datatype Seen = Seen(decorations: map<Target, Entry>, setsToCorrect: set<u32>)

  /** The inserts staged so far, the correction map, and the descriptor sets
      the binding fix-up must correct. */
  datatype DecorateOut = DecorateOut(inserts: seq<InstructionInsert>, corrections: CorrectionMap, descriptorSetsToCorrect: set<u32>)

  function TargetOf(v: DecorationVariable): Target
  {
    Target(v.newResId, v.correctionType)
  }

  /** The decoration at `d` has its target and its kind inside `spv`. */
  predicate DecorationIn(spv: seq<u32>, d: nat)
  {
    d + 2 < |spv|
  }

  predicate DecorationsIn(spv: seq<u32>, ds: seq<nat>)
  {
    forall k :: 0 <= k < |ds| ==> DecorationIn(spv, ds[k])
  }

  /** The scan reads the word after each of the first `k` decorations'
      kind, whatever the kind, once there is a variable to compare. */
  predicate ReadableTo(spv: seq<u32>, ds: seq<nat>, av: seq<DecorationVariable>, k: nat)
    requires k <= |ds|
  {
    |av| > 0 ==> forall i :: 0 <= i < k ==> ds[i] + 3 < |spv|
  }

  // ---------------------------------------------------------------------
  // The scan, as a specification

  /** The entry's Binding when `tag` is Binding, its DescriptorSet
      otherwise. */
  function Field(e: Entry, tag: u32): Option<(nat, u32)>
  {
    if tag == DecorationBinding then e.binding else e.descriptorSet
  }

  function Recorded(s: Seen, key: Target, tag: u32): Option<(nat, u32)>
  {
    if key in s.decorations then Field(s.decorations[key], tag) else None
  }

  /** The decoration at `d` is of kind `tag` and targets the original of
      `v`. */
  predicate Tagged(spv: seq<u32>, d: nat, v: DecorationVariable, tag: u32)
    requires d + 2 < |spv|
  {
    spv[d + 1] == v.originalResId && spv[d + 2] == tag
  }

  /** One step of the nested scan: decoration `d` against variable `v`. */
  function Note(spv: seq<u32>, d: nat, v: DecorationVariable, s: Seen): Seen
    requires d + 3 < |spv|
  {
    if v.originalResId != spv[d + 1] then s
    else
      var key := TargetOf(v);
      var e := if key in s.decorations then s.decorations[key] else CombinedDecorate.Entry(None, None);
      if spv[d + 2] == DecorationBinding then
        Seen(s.decorations[key := e.(binding := Some((d, spv[d + 3])))], s.setsToCorrect)
      else if spv[d + 2] == DecorationDescriptorSet then
        Seen(s.decorations[key := e.(descriptorSet := Some((d, spv[d + 3])))], s.setsToCorrect + {spv[d + 3]})
      else s
  }

  /** Decoration `d` against the first `j` variables. */
  function Row(spv: seq<u32>, d: nat, av: seq<DecorationVariable>, j: nat, s: Seen): Seen
    requires j <= |av| && (j > 0 ==> d + 3 < |spv|)
    decreases j
  {
    if j == 0 then s else Note(spv, d, av[j - 1], Row(spv, d, av, j - 1, s))
  }

  /** The first `k` decorations against every variable. */
  function Survey(spv: seq<u32>, ds: seq<nat>, av: seq<DecorationVariable>, k: nat): Seen
    requires k <= |ds| && ReadableTo(spv, ds, av, k)
    decreases k
  {
    if k == 0 then Seen(map[], {})
    else Row(spv, ds[k - 1], av, |av|, Survey(spv, ds, av, k - 1))
  }

  /** Decoration `d` noted against the literals by id. */
  function Touch(cat: map<u32, Pair>, spv: seq<u32>, d: nat): map<u32, Pair>
    requires d + 3 < |spv|
  {
    var id := spv[d + 1];
    var p := if id in cat then cat[id] else Pair(None, None);
    if spv[d + 2] == DecorationBinding then cat[id := p.(binding := Some(spv[d + 3]))]
    else if spv[d + 2] == DecorationDescriptorSet then cat[id := p.(descriptorSet := Some(spv[d + 3]))]
    else cat
  }

  /** The literals by id of the first `k` decorations, as the scan fills
      them when it builds a new map: once per affected variable, so not at
      all without one. */
  function Catalog(spv: seq<u32>, ds: seq<nat>, av: seq<DecorationVariable>, k: nat): map<u32, Pair>
    requires k <= |ds| && ReadableTo(spv, ds, av, k)
  {
    if k == 0 || |av| == 0 then map[] else Touch(Catalog(spv, ds, av, k - 1), spv, ds[k - 1])
  }

  // ---------------------------------------------------------------------
  // What the scan records, stated against the decorations

  /** One of the first `j` variables, with new variable `key`, carries
      the decoration at `d` of kind `tag`. */
  predicate RowDecorates(spv: seq<u32>, d: nat, av: seq<DecorationVariable>, j: nat, key: Target, tag: u32)
    requires d + 2 < |spv| && j <= |av|
  {
    exists i :: 0 <= i < j && Tagged(spv, d, av[i], tag) && TargetOf(av[i]) == key
  }

  predicate RowTagged(spv: seq<u32>, d: nat, av: seq<DecorationVariable>, j: nat, tag: u32)
    requires d + 2 < |spv| && j <= |av|
  {
    exists i :: 0 <= i < j && Tagged(spv, d, av[i], tag)
  }

  /** Some variable with new variable `key` carries a decoration of kind
      `tag` among the first `k`. */
  predicate Decorates(spv: seq<u32>, ds: seq<nat>, av: seq<DecorationVariable>, k: nat, key: Target, tag: u32)
    requires DecorationsIn(spv, ds) && k <= |ds|
  {
    exists i, j :: 0 <= i < k && 0 <= j < |av| && Tagged(spv, ds[i], av[j], tag) && TargetOf(av[j]) == key
  }

  /** ... and such a decoration sits at offset `at.0` with literal `at.1`. */
  predicate DecoratesAt(spv: seq<u32>, ds: seq<nat>, av: seq<DecorationVariable>, k: nat, key: Target, tag: u32, at: (nat, u32))
    requires DecorationsIn(spv, ds) && k <= |ds| && ReadableTo(spv, ds, av, k)
  {
    exists i, j :: 0 <= i < k && 0 <= j < |av| && Tagged(spv, ds[i], av[j], tag)
      && TargetOf(av[j]) == key && ds[i] == at.0 && spv[ds[i] + 3] == at.1
  }

  /** `x` is the literal of a DescriptorSet decoration, among the first
      `k`, on some affected variable. */
  predicate SetOf(spv: seq<u32>, ds: seq<nat>, av: seq<DecorationVariable>, k: nat, x: u32)
    requires DecorationsIn(spv, ds) && k <= |ds| && ReadableTo(spv, ds, av, k)
  {
    exists i, j :: 0 <= i < k && 0 <= j < |av| && Tagged(spv, ds[i], av[j], DecorationDescriptorSet)
      && spv[ds[i] + 3] == x
  }

  lemma {:induction false} RowRecorded(spv: seq<u32>, d: nat, av: seq<DecorationVariable>, j: nat, s: Seen, key: Target, tag: u32)
    requires d + 3 < |spv| && j <= |av| && IsBindingOrSet(tag)
    ensures RowDecorates(spv, d, av, j, key, tag) ==> Recorded(Row(spv, d, av, j, s), key, tag) == Some((d, spv[d + 3]))
    ensures !RowDecorates(spv, d, av, j, key, tag) ==> Recorded(Row(spv, d, av, j, s), key, tag) == Recorded(s, key, tag)
    decreases j
  {
    if j > 0 {
      RowRecorded(spv, d, av, j - 1, s, key, tag);
      var v := av[j - 1];
      if Tagged(spv, d, v, tag) && TargetOf(v) == key {
        assert RowDecorates(spv, d, av, j, key, tag);
      } else {
        assert RowDecorates(spv, d, av, j, key, tag) <==> RowDecorates(spv, d, av, j - 1, key, tag);
      }
    }
  }

  lemma {:induction false} RowSets(spv: seq<u32>, d: nat, av: seq<DecorationVariable>, j: nat, s: Seen, x: u32)
    requires d + 3 < |spv| && j <= |av|
    ensures x in Row(spv, d, av, j, s).setsToCorrect <==>
      x in s.setsToCorrect || (RowTagged(spv, d, av, j, DecorationDescriptorSet) && x == spv[d + 3])
    decreases j
  {
    if j > 0 {
      RowSets(spv, d, av, j - 1, s, x);
      if Tagged(spv, d, av[j - 1], DecorationDescriptorSet) {
        assert RowTagged(spv, d, av, j, DecorationDescriptorSet);
      } else {
        assert RowTagged(spv, d, av, j, DecorationDescriptorSet) <==> RowTagged(spv, d, av, j - 1, DecorationDescriptorSet);
      }
    }
  }

  lemma {:induction false} RowKeys(spv: seq<u32>, d: nat, av: seq<DecorationVariable>, j: nat, s: Seen, key: Target)
    requires d + 3 < |spv| && j <= |av|
    ensures key in Row(spv, d, av, j, s).decorations <==>
      key in s.decorations || RowDecorates(spv, d, av, j, key, DecorationBinding)
      || RowDecorates(spv, d, av, j, key, DecorationDescriptorSet)
    decreases j
  {
    if j > 0 {
      RowKeys(spv, d, av, j - 1, s, key);
      var v := av[j - 1];
      if TargetOf(v) == key && (Tagged(spv, d, v, DecorationBinding) || Tagged(spv, d, v, DecorationDescriptorSet)) {
        if Tagged(spv, d, v, DecorationBinding) {
          assert RowDecorates(spv, d, av, j, key, DecorationBinding);
        } else {
          assert RowDecorates(spv, d, av, j, key, DecorationDescriptorSet);
        }
      } else {
        assert RowDecorates(spv, d, av, j, key, DecorationBinding) <==> RowDecorates(spv, d, av, j - 1, key, DecorationBinding);
        assert RowDecorates(spv, d, av, j, key, DecorationDescriptorSet) <==> RowDecorates(spv, d, av, j - 1, key, DecorationDescriptorSet);
      }
    }
  }

  /** A Binding (DescriptorSet) is recorded for a new variable exactly when
      its original carries one, and what is recorded is one of those
      decorations: its offset and its literal. */
  lemma {:induction false} SurveyRecorded(spv: seq<u32>, ds: seq<nat>, av: seq<DecorationVariable>, k: nat, key: Target, tag: u32)
    requires DecorationsIn(spv, ds) && k <= |ds| && ReadableTo(spv, ds, av, k) && IsBindingOrSet(tag)
    ensures Recorded(Survey(spv, ds, av, k), key, tag).Some? <==> Decorates(spv, ds, av, k, key, tag)
    ensures Recorded(Survey(spv, ds, av, k), key, tag).Some? ==>
      DecoratesAt(spv, ds, av, k, key, tag, Recorded(Survey(spv, ds, av, k), key, tag).value)
    decreases k
  {
    if k > 0 && |av| > 0 {
      var d := ds[k - 1];
      var prev := Survey(spv, ds, av, k - 1);
      SurveyRecorded(spv, ds, av, k - 1, key, tag);
      RowRecorded(spv, d, av, |av|, prev, key, tag);
      if RowDecorates(spv, d, av, |av|, key, tag) {
        LastRowDecorates(spv, ds, av, k, key, tag);
      } else {
        LastRowSilent(spv, ds, av, k, key, tag);
        var r := Recorded(prev, key, tag);
        if r.Some? {
          EarlierDecoratesAt(spv, ds, av, k, key, tag, r.value);
        }
      }
    } else if k > 0 {
      SurveyRecorded(spv, ds, av, k - 1, key, tag);
    }
  }

  /** A decoration of the `k`-th row tagging `key` is one of the first
      `k`. */
  lemma LastRowDecorates(spv: seq<u32>, ds: seq<nat>, av: seq<DecorationVariable>, k: nat, key: Target, tag: u32)
    requires DecorationsIn(spv, ds) && 0 < k <= |ds| && ReadableTo(spv, ds, av, k) && |av| > 0
    requires RowDecorates(spv, ds[k - 1], av, |av|, key, tag)
    ensures Decorates(spv, ds, av, k, key, tag)
    ensures DecoratesAt(spv, ds, av, k, key, tag, (ds[k - 1], spv[ds[k - 1] + 3]))
  {
    var j :| 0 <= j < |av| && Tagged(spv, ds[k - 1], av[j], tag) && TargetOf(av[j]) == key;
    assert Tagged(spv, ds[k - 1], av[j], tag);
  }

  /** When the `k`-th row does not tag `key`, the first `k` rows tag it
      exactly when the first `k - 1` do. */
  lemma LastRowSilent(spv: seq<u32>, ds: seq<nat>, av: seq<DecorationVariable>, k: nat, key: Target, tag: u32)
    requires DecorationsIn(spv, ds) && 0 < k <= |ds| && ReadableTo(spv, ds, av, k) && |av| > 0
    requires !RowDecorates(spv, ds[k - 1], av, |av|, key, tag)
    ensures Decorates(spv, ds, av, k, key, tag) <==> Decorates(spv, ds, av, k - 1, key, tag)
  {
    if Decorates(spv, ds, av, k, key, tag) {
      var i, j :| 0 <= i < k && 0 <= j < |av| && Tagged(spv, ds[i], av[j], tag) && TargetOf(av[j]) == key;
      assert i < k - 1;
    }
    if Decorates(spv, ds, av, k - 1, key, tag) {
      var i, j :| 0 <= i < k - 1 && 0 <= j < |av| && Tagged(spv, ds[i], av[j], tag) && TargetOf(av[j]) == key;
      assert 0 <= i < k;
    }
  }

  /** A decoration among the first `k - 1` rows is among the first `k`. */
  lemma EarlierDecoratesAt(spv: seq<u32>, ds: seq<nat>, av: seq<DecorationVariable>, k: nat, key: Target, tag: u32, at: (nat, u32))
    requires DecorationsIn(spv, ds) && 0 < k <= |ds| && ReadableTo(spv, ds, av, k)
    requires DecoratesAt(spv, ds, av, k - 1, key, tag, at)
    ensures DecoratesAt(spv, ds, av, k, key, tag, at)
  {
    var i, j :| 0 <= i < k - 1 && 0 <= j < |av| && Tagged(spv, ds[i], av[j], tag)
      && TargetOf(av[j]) == key && ds[i] == at.0 && spv[ds[i] + 3] == at.1;
    assert 0 <= i < k;
  }

  /** A new variable has an entry exactly when its original carries a
      Binding or a DescriptorSet. */
  lemma {:induction false} SurveyKeys(spv: seq<u32>, ds: seq<nat>, av: seq<DecorationVariable>, k: nat, key: Target)
    requires DecorationsIn(spv, ds) && k <= |ds| && ReadableTo(spv, ds, av, k)
    ensures key in Survey(spv, ds, av, k).decorations <==>
      Decorates(spv, ds, av, k, key, DecorationBinding) || Decorates(spv, ds, av, k, key, DecorationDescriptorSet)
  {
    SurveyRecorded(spv, ds, av, k, key, DecorationBinding);
    SurveyRecorded(spv, ds, av, k, key, DecorationDescriptorSet);
    SurveyEntries(spv, ds, av, k, key);
  }

  /** Every entry holds at least one of the two decorations. */
  lemma {:induction false} SurveyEntries(spv: seq<u32>, ds: seq<nat>, av: seq<DecorationVariable>, k: nat, key: Target)
    requires k <= |ds| && ReadableTo(spv, ds, av, k)
    ensures key in Survey(spv, ds, av, k).decorations ==>
      Survey(spv, ds, av, k).decorations[key].binding.Some? || Survey(spv, ds, av, k).decorations[key].descriptorSet.Some?
  {
    if k > 0 {
      SurveyEntries(spv, ds, av, k - 1, key);
      RowEntries(spv, ds[k - 1], av, |av|, Survey(spv, ds, av, k - 1), key);
    }
  }

  lemma {:induction false} RowEntries(spv: seq<u32>, d: nat, av: seq<DecorationVariable>, j: nat, s: Seen, key: Target)
    requires j <= |av| && (j > 0 ==> d + 3 < |spv|)
    requires key in s.decorations ==> s.decorations[key].binding.Some? || s.decorations[key].descriptorSet.Some?
    ensures key in Row(spv, d, av, j, s).decorations ==>
      Row(spv, d, av, j, s).decorations[key].binding.Some? || Row(spv, d, av, j, s).decorations[key].descriptorSet.Some?
    decreases j
  {
    if j > 0 {
      RowEntries(spv, d, av, j - 1, s, key);
    }
  }

  /** The descriptor sets to correct are exactly the DescriptorSet literals
      on affected variables. */
  lemma {:induction false} SurveySets(spv: seq<u32>, ds: seq<nat>, av: seq<DecorationVariable>, k: nat, x: u32)
    requires DecorationsIn(spv, ds) && k <= |ds| && ReadableTo(spv, ds, av, k)
    ensures x in Survey(spv, ds, av, k).setsToCorrect <==> SetOf(spv, ds, av, k, x)
    decreases k
  {
    if k > 0 && |av| > 0 {
      var d := ds[k - 1];
      SurveySets(spv, ds, av, k - 1, x);
      RowSets(spv, d, av, |av|, Survey(spv, ds, av, k - 1), x);
      if SetOf(spv, ds, av, k, x) {
        var i, j :| 0 <= i < k && 0 <= j < |av| && Tagged(spv, ds[i], av[j], DecorationDescriptorSet) && spv[ds[i] + 3] == x;
        if i == k - 1 {
          assert RowTagged(spv, d, av, |av|, DecorationDescriptorSet);
        } else {
          assert SetOf(spv, ds, av, k - 1, x);
        }
      }
      if RowTagged(spv, d, av, |av|, DecorationDescriptorSet) && x == spv[d + 3] {
        var j :| 0 <= j < |av| && Tagged(spv, d, av[j], DecorationDescriptorSet);
        assert Tagged(spv, ds[k - 1], av[j], DecorationDescriptorSet);
      }
      if SetOf(spv, ds, av, k - 1, x) {
        var i, j :| 0 <= i < k - 1 && 0 <= j < |av| && Tagged(spv, ds[i], av[j], DecorationDescriptorSet) && spv[ds[i] + 3] == x;
        assert Tagged(spv, ds[i], av[j], DecorationDescriptorSet);
      }
    } else if k > 0 {
      SurveySets(spv, ds, av, k - 1, x);
    }
  }

  /** Which new variable is missing a decoration, stated against the
      decorations: one whose original has a DescriptorSet and no Binding,
      or the reverse. */
  lemma SurveyLacks(spv: seq<u32>, ds: seq<nat>, av: seq<DecorationVariable>)
    requires DecorationsIn(spv, ds) && ReadableTo(spv, ds, av, |ds|)
    ensures CombinedDecorate.LacksBinding(Survey(spv, ds, av, |ds|).decorations) <==>
      exists key :: Decorates(spv, ds, av, |ds|, key, DecorationDescriptorSet) && !Decorates(spv, ds, av, |ds|, key, DecorationBinding)
    ensures CombinedDecorate.LacksSet(Survey(spv, ds, av, |ds|).decorations) <==>
      exists key :: Decorates(spv, ds, av, |ds|, key, DecorationBinding) && !Decorates(spv, ds, av, |ds|, key, DecorationDescriptorSet)
  {
    var s := Survey(spv, ds, av, |ds|);
    forall key
      ensures (key in s.decorations && s.decorations[key].binding.None?) <==>
        (Decorates(spv, ds, av, |ds|, key, DecorationDescriptorSet) && !Decorates(spv, ds, av, |ds|, key, DecorationBinding))
      ensures (key in s.decorations && s.decorations[key].descriptorSet.None?) <==>
        (Decorates(spv, ds, av, |ds|, key, DecorationBinding) && !Decorates(spv, ds, av, |ds|, key, DecorationDescriptorSet))
    {
      SurveyKeys(spv, ds, av, |ds|, key);
      SurveyRecorded(spv, ds, av, |ds|, key, DecorationBinding);
      SurveyRecorded(spv, ds, av, |ds|, key, DecorationDescriptorSet);
    }
  }

  // ---------------------------------------------------------------------
  // The catalog of every decorated id, against the decorations

  function PairField(p: Pair, tag: u32): Option<u32>
  {
    if tag == DecorationBinding then p.binding else p.descriptorSet
  }

  function Listed(cat: map<u32, Pair>, id: u32, tag: u32): Option<u32>
  {
    if id in cat then PairField(cat[id], tag) else None
  }

  predicate On(spv: seq<u32>, d: nat, id: u32, tag: u32)
    requires d + 2 < |spv|
  {
    spv[d + 1] == id && spv[d + 2] == tag
  }

  /** `v` is the literal of the last decoration of kind `tag` on `id`
      among the first `k`. */
  predicate LastLiteral(spv: seq<u32>, ds: seq<nat>, k: nat, id: u32, tag: u32, v: u32)
    requires k <= |ds| && forall i :: 0 <= i < k ==> ds[i] + 3 < |spv|
  {
    exists i :: 0 <= i < k && On(spv, ds[i], id, tag) && spv[ds[i] + 3] == v
      && forall t :: i < t < k ==> !On(spv, ds[t], id, tag)
  }

  /** Some decoration of kind `tag` on `id` among the first `k`. */
  predicate Carried(spv: seq<u32>, ds: seq<nat>, k: nat, id: u32, tag: u32)
    requires k <= |ds| && forall i :: 0 <= i < k ==> ds[i] + 2 < |spv|
  {
    exists i :: 0 <= i < k && On(spv, ds[i], id, tag)
  }

  /** With an affected variable, the catalog lists a literal of kind `tag`
      for `id` exactly when some decoration of that kind is on `id`. */
  lemma {:induction false} CatalogCarried(spv: seq<u32>, ds: seq<nat>, av: seq<DecorationVariable>, k: nat, id: u32, tag: u32)
    requires k <= |ds| && |av| > 0 && ReadableTo(spv, ds, av, k) && IsBindingOrSet(tag)
    ensures Listed(Catalog(spv, ds, av, k), id, tag).Some? <==> Carried(spv, ds, k, id, tag)
  {
    if k > 0 {
      CatalogCarried(spv, ds, av, k - 1, id, tag);
      var d := ds[k - 1];
      if On(spv, d, id, tag) {
        assert Listed(Catalog(spv, ds, av, k), id, tag) == Some(spv[d + 3]);
        assert Carried(spv, ds, k, id, tag);
      } else {
        assert Listed(Catalog(spv, ds, av, k), id, tag) == Listed(Catalog(spv, ds, av, k - 1), id, tag);
        if Carried(spv, ds, k, id, tag) {
          var i :| 0 <= i < k && On(spv, ds[i], id, tag);
          assert i < k - 1;
          assert Carried(spv, ds, k - 1, id, tag);
        }
        if Carried(spv, ds, k - 1, id, tag) {
          var i :| 0 <= i < k - 1 && On(spv, ds[i], id, tag);
          assert Carried(spv, ds, k, id, tag);
        }
      }
    }
  }

  /** ... and the literal it lists is that of the last such decoration. */
  lemma {:induction false} CatalogLast(spv: seq<u32>, ds: seq<nat>, av: seq<DecorationVariable>, k: nat, id: u32, tag: u32)
    requires k <= |ds| && |av| > 0 && ReadableTo(spv, ds, av, k) && IsBindingOrSet(tag)
    ensures Listed(Catalog(spv, ds, av, k), id, tag).Some? ==>
      LastLiteral(spv, ds, k, id, tag, Listed(Catalog(spv, ds, av, k), id, tag).value)
  {
    if k > 0 {
      CatalogLast(spv, ds, av, k - 1, id, tag);
      var d := ds[k - 1];
      var l := Listed(Catalog(spv, ds, av, k), id, tag);
      if On(spv, d, id, tag) {
        assert l == Some(spv[d + 3]);
        assert LastLiteral(spv, ds, k, id, tag, spv[d + 3]);
      } else {
        assert l == Listed(Catalog(spv, ds, av, k - 1), id, tag);
        if l.Some? {
          var i :| 0 <= i < k - 1 && On(spv, ds[i], id, tag) && spv[ds[i] + 3] == l.value
            && forall t :: i < t < k - 1 ==> !On(spv, ds[t], id, tag);
          assert LastLiteral(spv, ds, k, id, tag, l.value);
        }
      }
    }
  }

  /** With an affected variable, the catalog lists for each id the literal
      of its last Binding and of its last DescriptorSet decoration, and
      nothing where it has none. */
  lemma CatalogMeaning(spv: seq<u32>, ds: seq<nat>, av: seq<DecorationVariable>, k: nat, id: u32, tag: u32)
    requires k <= |ds| && |av| > 0 && ReadableTo(spv, ds, av, k) && IsBindingOrSet(tag)
    ensures Listed(Catalog(spv, ds, av, k), id, tag).Some? <==> Carried(spv, ds, k, id, tag)
    ensures Listed(Catalog(spv, ds, av, k), id, tag).Some? ==>
      LastLiteral(spv, ds, k, id, tag, Listed(Catalog(spv, ds, av, k), id, tag).value)
  {
    CatalogCarried(spv, ds, av, k, id, tag);
    CatalogLast(spv, ds, av, k, id, tag);
  }

  /** Every listed id holds at least one of the two literals. */
  lemma {:induction false} CatalogEntries(spv: seq<u32>, ds: seq<nat>, av: seq<DecorationVariable>, k: nat, id: u32)
    requires k <= |ds| && ReadableTo(spv, ds, av, k)
    ensures id in Catalog(spv, ds, av, k) ==>
      Catalog(spv, ds, av, k)[id].binding.Some? || Catalog(spv, ds, av, k)[id].descriptorSet.Some?
  {
    if k > 0 && |av| > 0 {
      CatalogEntries(spv, ds, av, k - 1, id);
    }
  }

  lemma TouchTwice(cat: map<u32, Pair>, spv: seq<u32>, d: nat)
    requires d + 3 < |spv|
    ensures Touch(Touch(cat, spv, d), spv, d) == Touch(cat, spv, d)
  {
  }

  // ---------------------------------------------------------------------
  // Building the map

  /** The row the build reads for one id. */
  function RowOf(p: Pair): BindingRow
  {
    BindingRow(if p.binding.Some? then p.binding.value else 0, p.descriptorSet)
  }

  function RowsOf(cat: map<u32, Pair>, keys: seq<u32>): seq<BindingRow>
    requires forall i :: 0 <= i < |keys| ==> keys[i] in cat
  {
    seq(|keys|, i requires 0 <= i < |keys| => RowOf(cat[keys[i]]))
  }

  /** Every listed id has a Binding literal. */
  predicate Bound(cat: map<u32, Pair>)
  {
    forall id :: id in cat ==> cat[id].binding.Some?
  }

  /** `rows` is what the sort makes of the listed ids in some iteration
      order: each id's row once, ascending by binding. */
  ghost predicate Arranges(rows: seq<BindingRow>, cat: map<u32, Pair>)
  {
    Bound(cat) ==>
      SortedByBinding(rows)
      && exists keys :: CombinedDecorate.Lists(keys, cat) && multiset(rows) == multiset(RowsOf(cat, keys))
  }

  /** The build: the sort unwraps every binding, then the rows are built
      in sorted order. */
  function BuildFrom(cat: map<u32, Pair>, rows: seq<BindingRow>): Result<seq<CorrectionSet>>
  {
    if !Bound(cat) then Failure(MissingBinding) else Build(rows, |rows|)
  }

  // ---------------------------------------------------------------------
  // Staging and stamping, as a specification

  function PairOf(m: map<Target, Entry>, key: Target, anchor: nat): InstructionInsert
  {
    if key in m && CombinedDecorate.Complete(m[key]) then
      InstructionInsert(anchor, CombinedDecorate.SamplerDecorations(key.newResId, m[key].descriptorSet.value.1, m[key].binding.value.1))
    else InstructionInsert(anchor, [])
  }

  function StampOf(m: map<Target, Entry>, key: Target): Stamp
  {
    if key in m && m[key].binding.Some? && m[key].descriptorSet.Some? then
      Stamp(m[key].descriptorSet.value.1, m[key].binding.value.1, key.correctionType)
    else Stamp(0, 0, key.correctionType)
  }

  function Pairs(m: map<Target, Entry>, keys: seq<Target>, anchor: nat): seq<InstructionInsert>
  {
    seq(|keys|, i requires 0 <= i < |keys| => PairOf(m, keys[i], anchor))
  }

  function StampsOf(m: map<Target, Entry>, keys: seq<Target>): seq<Stamp>
  {
    seq(|keys|, i requires 0 <= i < |keys| => StampOf(m, keys[i]))
  }

  /** The iteration orders: `keys` lists the new variables, and `rows` is
      the sorted arrangement of the catalog wherever a map is built. */
  ghost predicate Orders(spv: seq<u32>, ds: seq<nat>, av: seq<DecorationVariable>, corrections: Option<CorrectionMap>,
                         rows: seq<BindingRow>, keys: seq<Target>)
  {
    ReadableTo(spv, ds, av, |ds|) ==>
      var m := Survey(spv, ds, av, |ds|).decorations;
      CombinedDecorate.Lists(keys, m)
      && (corrections.None? && !CombinedDecorate.LacksBinding(m) && !CombinedDecorate.LacksSet(m) ==>
            Arranges(rows, Catalog(spv, ds, av, |ds|)))
  }

  /** `decorate` for given iteration orders: every failure the source
      panics on, in the order it meets them. */
  function DecorateSpec(spv: seq<u32>, inserts: seq<InstructionInsert>, first: Option<nat>, ds: seq<nat>,
                        av: seq<DecorationVariable>, corrections: Option<CorrectionMap>,
                        rows: seq<BindingRow>, keys: seq<Target>): Result<DecorateOut>
    requires DecorationsIn(spv, ds)
  {
    if !ReadableTo(spv, ds, av, |ds|) then Failure(OperandOutOfRange)
    else
      var s := Survey(spv, ds, av, |ds|);
      var m := s.decorations;
      if CombinedDecorate.LacksBinding(m) then Failure(MissingBinding)
      else if CombinedDecorate.LacksSet(m) then Failure(MissingDescriptorSet)
      else
        var built := if corrections.Some? then Success(corrections.value.sets) else BuildFrom(Catalog(spv, ds, av, |ds|), rows);
        if built.Failure? then Failure(built.error)
        else StagedSpec(m, keys, first, built.value, inserts, s.setsToCorrect)
  }

  /** The for_each of lines 140-206 once the map is there: the anchor's
      unwrap, `binding + 1` and the stamps of the new variables. */
  function StagedSpec(m: map<Target, Entry>, keys: seq<Target>, first: Option<nat>, snap: seq<CorrectionSet>,
                      inserts: seq<InstructionInsert>, sets: set<u32>): Result<DecorateOut>
  {
    if |m| > 0 && first.None? then Failure(MissingDecorate)
    else if CombinedDecorate.BindingAtMax(m) then Failure(BindingOverflow)
    else
      var anchor := if first.Some? then first.value else 0;
      match Stamps(snap, StampsOf(m, keys), |keys|)
      case Failure(e) => Failure(e)
      case Success(stamped) => Success(DecorateOut(inserts + Pairs(m, keys, anchor), CorrectionMap(stamped), sets))
  }

  // ---------------------------------------------------------------------
  // What `decorate` does, for every iteration order

  /** A new variable's decoration pair: the descriptor set of its original
      and the binding after the original's, anchored at `anchor`. */
  predicate PairsNew(x: InstructionInsert, m: map<Target, Entry>, key: Target, anchor: nat)
  {
    key in m && CombinedDecorate.Complete(m[key])
    && x == InstructionInsert(anchor, CombinedDecorate.SamplerDecorations(key.newResId, m[key].descriptorSet.value.1, m[key].binding.value.1))
  }

  /** `st` holds the decoration pair of each new variable of `m`, each
      once, in some order. */
  ghost predicate StagesEvery(st: seq<InstructionInsert>, m: map<Target, Entry>, anchor: nat)
  {
    exists ks :: CombinedDecorate.Lists(ks, m) && |st| == |ks| && forall i :: 0 <= i < |st| ==> PairsNew(st[i], m, ks[i], anchor)
  }

  /** Some new variable's original has a DescriptorSet decoration and no Binding one. */
  ghost predicate SetWithoutBinding(spv: seq<u32>, ds: seq<nat>, av: seq<DecorationVariable>)
    requires DecorationsIn(spv, ds)
  {
    exists key :: Decorates(spv, ds, av, |ds|, key, DecorationDescriptorSet) && !Decorates(spv, ds, av, |ds|, key, DecorationBinding)
  }

  /** Some new variable's original has a Binding decoration and no DescriptorSet one. */
  ghost predicate BindingWithoutSet(spv: seq<u32>, ds: seq<nat>, av: seq<DecorationVariable>)
    requires DecorationsIn(spv, ds)
  {
    exists key :: Decorates(spv, ds, av, |ds|, key, DecorationBinding) && !Decorates(spv, ds, av, |ds|, key, DecorationDescriptorSet)
  }

  /** The panics of the scan and of the unwraps come first, whatever the
      order: a read past the end of the words, then a new variable whose
      original has a DescriptorSet and no Binding, then one with a Binding
      and no DescriptorSet. */
  lemma DecorateRejects(spv: seq<u32>, inserts: seq<InstructionInsert>, first: Option<nat>, ds: seq<nat>,
                        av: seq<DecorationVariable>, corrections: Option<CorrectionMap>, rows: seq<BindingRow>, keys: seq<Target>)
    requires DecorationsIn(spv, ds)
    ensures !ReadableTo(spv, ds, av, |ds|) ==> DecorateSpec(spv, inserts, first, ds, av, corrections, rows, keys) == Failure(OperandOutOfRange)
    ensures ReadableTo(spv, ds, av, |ds|) && SetWithoutBinding(spv, ds, av) ==>
      DecorateSpec(spv, inserts, first, ds, av, corrections, rows, keys) == Failure(MissingBinding)
    ensures ReadableTo(spv, ds, av, |ds|) && !SetWithoutBinding(spv, ds, av) && BindingWithoutSet(spv, ds, av) ==>
      DecorateSpec(spv, inserts, first, ds, av, corrections, rows, keys) == Failure(MissingDescriptorSet)
  {
    if ReadableTo(spv, ds, av, |ds|) {
      SurveyLacks(spv, ds, av);
    }
  }

  /** Staging in the order of `keys` gives one pair per new variable. */
  lemma PairsEvery(m: map<Target, Entry>, keys: seq<Target>, anchor: nat)
    requires CombinedDecorate.Lists(keys, m)
    requires forall key :: key in m ==> CombinedDecorate.Complete(m[key])
    ensures StagesEvery(Pairs(m, keys, anchor), m, anchor)
  {
    var st := Pairs(m, keys, anchor);
    forall i | 0 <= i < |st| ensures PairsNew(st[i], m, keys[i], anchor) {
      assert st[i] == PairOf(m, keys[i], anchor);
    }
  }

  /** Unfolds a successful `decorate`: the checks it passed and the parts
      of its result. */
  lemma DecorateSucceeds(spv: seq<u32>, inserts: seq<InstructionInsert>, first: Option<nat>, ds: seq<nat>,
                         av: seq<DecorationVariable>, corrections: Option<CorrectionMap>, rows: seq<BindingRow>, keys: seq<Target>)
    requires DecorationsIn(spv, ds)
    requires DecorateSpec(spv, inserts, first, ds, av, corrections, rows, keys).Success?
    ensures ReadableTo(spv, ds, av, |ds|)
    ensures !CombinedDecorate.LacksBinding(Survey(spv, ds, av, |ds|).decorations)
    ensures !CombinedDecorate.LacksSet(Survey(spv, ds, av, |ds|).decorations)
    ensures !CombinedDecorate.BindingAtMax(Survey(spv, ds, av, |ds|).decorations)
    ensures var out := DecorateSpec(spv, inserts, first, ds, av, corrections, rows, keys).value;
      out.inserts == inserts + Pairs(Survey(spv, ds, av, |ds|).decorations, keys, if first.Some? then first.value else 0)
      && out.descriptorSetsToCorrect == Survey(spv, ds, av, |ds|).setsToCorrect
  {
  }

  /** What a successful `decorate` returns, for every iteration order: the
      inserts so far followed by one decoration pair per new variable, each
      from its original's decorations, and the descriptor sets exactly
      those of the affected variables. */
  lemma DecorateStages(spv: seq<u32>, inserts: seq<InstructionInsert>, first: Option<nat>, ds: seq<nat>,
                       av: seq<DecorationVariable>, corrections: Option<CorrectionMap>, rows: seq<BindingRow>, keys: seq<Target>)
    requires DecorationsIn(spv, ds) && Orders(spv, ds, av, corrections, rows, keys)
    requires DecorateSpec(spv, inserts, first, ds, av, corrections, rows, keys).Success?
    ensures ReadableTo(spv, ds, av, |ds|)
    ensures var out := DecorateSpec(spv, inserts, first, ds, av, corrections, rows, keys).value;
      var m := Survey(spv, ds, av, |ds|).decorations;
      |out.inserts| == |inserts| + |m| && out.inserts[..|inserts|] == inserts
      && StagesEvery(out.inserts[|inserts|..], m, if first.Some? then first.value else 0)
    ensures var out := DecorateSpec(spv, inserts, first, ds, av, corrections, rows, keys).value;
      forall x :: x in out.descriptorSetsToCorrect <==> SetOf(spv, ds, av, |ds|, x)
  {
    DecorateSucceeds(spv, inserts, first, ds, av, corrections, rows, keys);
    var out := DecorateSpec(spv, inserts, first, ds, av, corrections, rows, keys).value;
    var s := Survey(spv, ds, av, |ds|);
    var m := s.decorations;
    var anchor := if first.Some? then first.value else 0;
    assert forall key :: key in m ==> CombinedDecorate.Complete(m[key]);
    PairsEvery(m, keys, anchor);
    assert out.inserts[|inserts|..] == Pairs(m, keys, anchor);
    forall x ensures x in s.setsToCorrect <==> SetOf(spv, ds, av, |ds|, x) {
      SurveySets(spv, ds, av, |ds|, x);
    }
  }

  /** With a map given, the stamping keeps its sets and entries, and every
      entry gains exactly the types of the new variables that land on it,
      counted on the map as given. */
  lemma DecorateStampsGiven(spv: seq<u32>, inserts: seq<InstructionInsert>, first: Option<nat>, ds: seq<nat>,
                            av: seq<DecorationVariable>, corrections: Option<CorrectionMap>, rows: seq<BindingRow>, keys: seq<Target>)
    requires DecorationsIn(spv, ds) && corrections.Some?
    requires DecorateSpec(spv, inserts, first, ds, av, corrections, rows, keys).Success?
    ensures ReadableTo(spv, ds, av, |ds|)
    ensures Carries(DecorateSpec(spv, inserts, first, ds, av, corrections, rows, keys).value.corrections.sets,
                    corrections.value.sets, StampsOf(Survey(spv, ds, av, |ds|).decorations, keys), |keys|)
  {
    var m := Survey(spv, ds, av, |ds|).decorations;
    StampsLanded(corrections.value.sets, StampsOf(m, keys), |keys|);
  }

  /** A built map starts with no corrections. */
  lemma BuildBare(rows: seq<BindingRow>)
    requires Build(rows, |rows|).Success?
    ensures Bare(Build(rows, |rows|).value)
  {
    BuildMeaning(rows, |rows|);
    var sets := Build(rows, |rows|).value;
    forall n, i | 0 <= n < |sets| && 0 <= i < |sets[n].bindings| ensures sets[n].bindings[i].corrections == [] {
      BindingsInFrom(rows, |rows|, sets[n].descriptorSet);
      assert sets[n].bindings[i] in Fresh(rows, |rows|);
    }
  }

  /** Without a map, one is built from the sorted rows of every decorated
      id, and no stamp can fail on it: the call fails only where the build
      does (an id without a Binding, a row without a DescriptorSet, set
      numbers not first seen as 0, 1, 2, ...); otherwise the result has the
      built map's sets and entries, each entry with just the types of the
      new variables whose binding is its index. */
  lemma DecorateBuilds(spv: seq<u32>, inserts: seq<InstructionInsert>, first: Option<nat>, ds: seq<nat>,
                       av: seq<DecorationVariable>, corrections: Option<CorrectionMap>, rows: seq<BindingRow>, keys: seq<Target>)
    requires DecorationsIn(spv, ds) && corrections.None? && Orders(spv, ds, av, corrections, rows, keys)
    requires ReadableTo(spv, ds, av, |ds|)
    requires !CombinedDecorate.LacksBinding(Survey(spv, ds, av, |ds|).decorations)
    requires !CombinedDecorate.LacksSet(Survey(spv, ds, av, |ds|).decorations)
    requires |Survey(spv, ds, av, |ds|).decorations| == 0 || first.Some?
    ensures var r := DecorateSpec(spv, inserts, first, ds, av, corrections, rows, keys);
      var cat := Catalog(spv, ds, av, |ds|);
      (!Bound(cat) ==> r == Failure(MissingBinding))
      && (Bound(cat) && Build(rows, |rows|).Failure? ==> r == Failure(Build(rows, |rows|).error))
      && (Bound(cat) && Build(rows, |rows|).Success? && CombinedDecorate.BindingAtMax(Survey(spv, ds, av, |ds|).decorations) ==>
            r == Failure(BindingOverflow))
      && (Bound(cat) && Build(rows, |rows|).Success? && !CombinedDecorate.BindingAtMax(Survey(spv, ds, av, |ds|).decorations) ==>
            r.Success? && Bare(Build(rows, |rows|).value)
            && AllSets(rows, |rows|) && BuiltFrom(Build(rows, |rows|).value, rows, |rows|)
            && Carries(r.value.corrections.sets, Build(rows, |rows|).value,
                       StampsOf(Survey(spv, ds, av, |ds|).decorations, keys), |keys|))
  {
    var cat := Catalog(spv, ds, av, |ds|);
    var m := Survey(spv, ds, av, |ds|).decorations;
    if Bound(cat) && Build(rows, |rows|).Success? {
      var snap := Build(rows, |rows|).value;
      BuildMeaning(rows, |rows|);
      BuildBare(rows);
      BareStampsSucceed(snap, StampsOf(m, keys));
      StampsLanded(snap, StampsOf(m, keys), |keys|);
    }
  }

  /** An id is bound exactly when each decorated id has a Binding
      decoration: the build's first unwrap, stated on the decorations. */
  lemma BoundMeaning(spv: seq<u32>, ds: seq<nat>, av: seq<DecorationVariable>)
    requires |av| > 0 && ReadableTo(spv, ds, av, |ds|)
    ensures Bound(Catalog(spv, ds, av, |ds|)) <==>
      forall id :: Carried(spv, ds, |ds|, id, DecorationDescriptorSet) ==> Carried(spv, ds, |ds|, id, DecorationBinding)
  {
    var cat := Catalog(spv, ds, av, |ds|);
    forall id
      ensures (id in cat ==> cat[id].binding.Some?) <==>
        (Carried(spv, ds, |ds|, id, DecorationDescriptorSet) ==> Carried(spv, ds, |ds|, id, DecorationBinding))
    {
      CatalogMeaning(spv, ds, av, |ds|, id, DecorationBinding);
      CatalogMeaning(spv, ds, av, |ds|, id, DecorationDescriptorSet);
      CatalogEntries(spv, ds, av, |ds|, id);
    }
  }

  // ---------------------------------------------------------------------
  // The steps

  /** The inner loop: decoration `d` against every affected variable, and
      against the catalog when one is being built. */
  method ScanVariables(spv: seq<u32>, d: nat, av: seq<DecorationVariable>, s: Seen, cat: map<u32, Pair>, building: bool)
    returns (t: Seen, cat': map<u32, Pair>)
    requires d + 3 < |spv|
    ensures t == Row(spv, d, av, |av|, s)
    ensures cat' == if building && |av| > 0 then Touch(cat, spv, d) else cat
  {
    t, cat' := s, cat;
    var j := 0;
    while j < |av|
      invariant 0 <= j <= |av|
      invariant t == Row(spv, d, av, j, s)
      invariant cat' == if building && j > 0 then Touch(cat, spv, d) else cat
    {
      var v := av[j];
      var id, tag, value := spv[d + 1], spv[d + 2], spv[d + 3];
      var key := TargetOf(v);
      var e := if key in t.decorations then t.decorations[key] else CombinedDecorate.Entry(None, None);
      var p := if id in cat' then cat'[id] else Pair(None, None);
      if building { TouchTwice(cat, spv, d); }
      if tag == DecorationBinding {
        if v.originalResId == id {
          t := t.(decorations := t.decorations[key := e.(binding := Some((d, value)))]);
        }
        if building {
          cat' := cat'[id := p.(binding := Some(value))];
        }
      } else if tag == DecorationDescriptorSet {
        if v.originalResId == id {
          t := Seen(t.decorations[key := e.(descriptorSet := Some((d, value)))], t.setsToCorrect + {value});
        }
        if building {
          cat' := cat'[id := p.(descriptorSet := Some(value))];
        }
      }
      j := j + 1;
    }
  }

  /** The outer loop over the decorations; it stops where a read would
      pass the end of the words. */
  method ScanAll(spv: seq<u32>, ds: seq<nat>, av: seq<DecorationVariable>, building: bool)
    returns (readable: bool, s: Seen, cat: map<u32, Pair>)
    ensures readable == ReadableTo(spv, ds, av, |ds|)
    ensures readable ==> s == Survey(spv, ds, av, |ds|)
    ensures readable ==> cat == if building then Catalog(spv, ds, av, |ds|) else map[]
  {
    s, cat := Seen(map[], {}), map[];
    var k := 0;
    while k < |ds|
      invariant 0 <= k <= |ds| && ReadableTo(spv, ds, av, k)
      invariant s == Survey(spv, ds, av, k)
      invariant cat == if building then Catalog(spv, ds, av, k) else map[]
    {
      if |av| > 0 && ds[k] + 3 >= |spv| {
        return false, s, cat;
      }
      if |av| == 0 {
        // nothing is compared, nothing is read
        k := k + 1;
        continue;
      }
      s, cat := ScanVariables(spv, ds[k], av, s, cat, building);
      k := k + 1;
    }
    readable := true;
  }

  /** Lines 107-135: the listed ids in iteration order, sorted by binding,
      then built into sets in that order. */
  method BuildMap(cat: map<u32, Pair>) returns (r: Result<seq<CorrectionSet>>)
    ensures exists rows :: Arranges(rows, cat) && r == BuildFrom(cat, rows)
  {
    var keys := CombinedDecorate.ListKeys(cat);
    var j := 0;
    while j < |keys|
      invariant 0 <= j <= |keys|
      invariant forall i :: 0 <= i < j ==> cat[keys[i]].binding.Some?
    {
      if cat[keys[j]].binding.None? {
        assert !Bound(cat);
        assert Arranges([], cat);
        return Failure(MissingBinding);
      }
      j := j + 1;
    }
    assert Bound(cat) by {
      forall id | id in cat ensures cat[id].binding.Some? {
        var i :| 0 <= i < |keys| && keys[i] == id;
      }
    }
    var unsorted := RowsOf(cat, keys);
    var rows := SortRows(unsorted);
    r := BuildSets(rows);
    assert Arranges(rows, cat);
  }

  /** One stamp after the earlier ones. */
  method StampStep(snap: seq<CorrectionSet>, ghost sts: seq<Stamp>, j: nat, cur: seq<CorrectionSet>, st: Stamp)
    returns (r: Result<seq<CorrectionSet>>)
    requires j < |sts| && st == sts[j] && Stamps(snap, sts, j) == Success(cur)
    ensures r == Stamps(snap, sts, j + 1)
  {
    StampsNext(snap, sts, j, cur);
    r := StampVariable(cur, snap, st);
  }

  /** Lines 139-205: each new variable's decoration pair is staged and its
      correction type stamped, in iteration order. */
  method StageAll(m: map<Target, Entry>, keys: seq<Target>, anchor: nat, snap: seq<CorrectionSet>)
    returns (staged: seq<InstructionInsert>, r: Result<seq<CorrectionSet>>)
    requires forall i :: 0 <= i < |keys| ==> keys[i] in m && CombinedDecorate.Complete(m[keys[i]])
    ensures r == Stamps(snap, StampsOf(m, keys), |keys|)
    ensures r.Success? ==> staged == Pairs(m, keys, anchor)
  {
    ghost var sts := StampsOf(m, keys);
    staged := [];
    var cur := snap;
    var j := 0;
    while j < |keys|
      invariant 0 <= j <= |keys| && |staged| == j
      invariant staged == Pairs(m, keys[..j], anchor)
      invariant Stamps(snap, sts, j) == Success(cur)
    {
      var key := keys[j];
      PairsSnoc(m, keys, j, anchor);
      staged := staged + [PairOf(m, key, anchor)];
      var stamped := StampStep(snap, sts, j, cur, StampOf(m, key));
      if stamped.Failure? {
        StampsFailureKept(snap, sts, j + 1);
        return staged, stamped;
      }
      cur := stamped.value;
      j := j + 1;
    }
    assert keys[..j] == keys;
    r := Success(cur);
  }

  lemma PairsSnoc(m: map<Target, Entry>, keys: seq<Target>, j: nat, anchor: nat)
    requires j < |keys|
    ensures Pairs(m, keys[..j + 1], anchor) == Pairs(m, keys[..j], anchor) + [PairOf(m, keys[j], anchor)]
  {
  }

  /** `decorate`: the scan, the unwraps of the new variables' decorations,
      the build when no map is given, then the staging and stamping; each
      iteration order the source's hash maps may take is one choice of
      `rows` and `keys`. */
  method Decorate(spv: seq<u32>, inserts: seq<InstructionInsert>, first: Option<nat>, ds: seq<nat>,
                  av: seq<DecorationVariable>, corrections: Option<CorrectionMap>)
    returns (r: Result<DecorateOut>)
    requires DecorationsIn(spv, ds)
    ensures exists rows, keys :: Orders(spv, ds, av, corrections, rows, keys) && r == DecorateSpec(spv, inserts, first, ds, av, corrections, rows, keys)
  {
    var readable, s, cat := ScanAll(spv, ds, av, corrections.None?);
    if !readable {
      assert Orders(spv, ds, av, corrections, [], []);
      return Failure(OperandOutOfRange);
    }
    var m := s.decorations;
    var keys := CombinedDecorate.ListKeys(m);
    ghost var rows: seq<BindingRow> := [];
    var lacking := CombinedDecorate.FindLacking(m, keys);
    if lacking.Some? {
      assert Orders(spv, ds, av, corrections, rows, keys);
      return Failure(lacking.value);
    }
    var snap: seq<CorrectionSet>;
    if corrections.Some? {
      snap := corrections.value.sets;
    } else {
      var built := BuildMap(cat);
      rows :| Arranges(rows, cat) && built == BuildFrom(cat, rows);
      if built.Failure? {
        assert Orders(spv, ds, av, corrections, rows, keys);
        return Failure(built.error);
      }
      snap := built.value;
    }
    assert Orders(spv, ds, av, corrections, rows, keys);
    r := StageChecked(m, keys, first, snap, inserts, s.setsToCorrect);
  }

  /** The checks of the for_each, then the staging and stamping. */
  method StageChecked(m: map<Target, Entry>, keys: seq<Target>, first: Option<nat>, snap: seq<CorrectionSet>,
                      inserts: seq<InstructionInsert>, sets: set<u32>)
    returns (r: Result<DecorateOut>)
    requires CombinedDecorate.Lists(keys, m)
    requires !CombinedDecorate.LacksBinding(m) && !CombinedDecorate.LacksSet(m)
    ensures r == StagedSpec(m, keys, first, snap, inserts, sets)
  {
    if |keys| > 0 && first.None? {
      return Failure(MissingDecorate);
    }
    var atMax := CombinedDecorate.FindAtMax(m, keys);
    if atMax {
      return Failure(BindingOverflow);
    }
    var anchor := if first.Some? then first.value else 0;
    assert forall i :: 0 <= i < |keys| ==> CombinedDecorate.Complete(m[keys[i]]);
    var staged, stamped := StageAll(m, keys, anchor, snap);
    if stamped.Failure? {
      return Failure(stamped.error);
    }
    r := Success(DecorateOut(inserts + staged, CorrectionMap(stamped.value), sets));
  }
}
