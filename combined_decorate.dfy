/** The decoration step of the combined image-sampler split, in the revision
    under src/decorate.rs: every Binding and DescriptorSet decoration of a
    paired variable is recorded under the id of its new sampler variable,
    and each sampler gets a decoration pair of its own, in the same
    descriptor set and at the next binding, anchored at the first
    OpDecorate. */
module CombinedDecorate {
  import opened Spirv
  import opened Outcome
  import opened Layout
  import opened Edits
  import opened Variable

  /** The Binding and the DescriptorSet decoration seen for one sampler:
      each as the decoration's offset and its literal. */
  datatype Entry = Entry(binding: Option<(nat, u32)>, descriptorSet: Option<(nat, u32)>)

  /** What the scan fills: the entries keyed by sampler id, and the
      descriptor sets of the paired variables. */
  datatype Seen = Seen(decorations: map<u32, Entry>, setsToCorrect: set<u32>)

  /** The staged inserts and the descriptor sets the binding fix-up must
      correct. */
  datatype DecorateOut = DecorateOut(inserts: seq<InstructionInsert>, descriptorSetsToCorrect: set<u32>)

  /** The decoration at `d` has its target and its kind inside `spv`, and
      its literal when it is a Binding or a DescriptorSet. */
  predicate LiteralIn(spv: seq<u32>, d: nat)
  {
    d + 2 < |spv| && (IsBindingOrSet(spv[d + 2]) ==> d + 3 < |spv|)
  }

  /** Every decoration listed in `ds` lies inside `spv` up to its literal. */
  predicate LiteralsIn(spv: seq<u32>, ds: seq<nat>)
  {
    forall k :: 0 <= k < |ds| ==> LiteralIn(spv, ds[k])
  }

  // ---------------------------------------------------------------------
  // The scan, as a specification

  /** The entry's Binding when `tag` is Binding, its DescriptorSet
      otherwise. */
  function Field(e: Entry, tag: u32): Option<(nat, u32)>
  {
    if tag == DecorationBinding then e.binding else e.descriptorSet
  }

  /** What the scan has recorded for sampler `key` and kind `tag`. */
  function Recorded(s: Seen, key: u32, tag: u32): Option<(nat, u32)>
  {
    if key in s.decorations then Field(s.decorations[key], tag) else None
  }

  /** The decoration at `d` is of kind `tag` and targets variable `v`. */
  predicate Tagged(spv: seq<u32>, d: nat, v: VariableOut, tag: u32)
    requires d + 2 < |spv|
  {
    spv[d + 1] == v.vResId && spv[d + 2] == tag
  }

  /** One step of the nested scan: decoration `d` against variable `v`. */
  function Note(spv: seq<u32>, d: nat, v: VariableOut, s: Seen): Seen
    requires LiteralIn(spv, d)
  {
    if v.vResId != spv[d + 1] then s
    else
      var key := v.newSamplerVResId;
      var e := if key in s.decorations then s.decorations[key] else Entry(None, None);
      if spv[d + 2] == DecorationBinding then
        Seen(s.decorations[key := e.(binding := Some((d, spv[d + 3])))], s.setsToCorrect)
      else if spv[d + 2] == DecorationDescriptorSet then
        Seen(s.decorations[key := e.(descriptorSet := Some((d, spv[d + 3])))], s.setsToCorrect + {spv[d + 3]})
      else s
  }

  /** Decoration `d` against the first `j` variables. */
  function Row(spv: seq<u32>, d: nat, vRes: seq<VariableOut>, j: nat, s: Seen): Seen
    requires LiteralIn(spv, d) && j <= |vRes|
    decreases j
  {
    if j == 0 then s else Note(spv, d, vRes[j - 1], Row(spv, d, vRes, j - 1, s))
  }

  /** The first `k` decorations against every variable. */
  function Survey(spv: seq<u32>, ds: seq<nat>, vRes: seq<VariableOut>, k: nat): Seen
    requires LiteralsIn(spv, ds) && k <= |ds|
    decreases k
  {
    if k == 0 then Seen(map[], {})
    else Row(spv, ds[k - 1], vRes, |vRes|, Survey(spv, ds, vRes, k - 1))
  }

  // ---------------------------------------------------------------------
  // What the scan records, stated against the decorations themselves

  /** One of the first `j` variables, whose sampler is `key`, carries the
      decoration at `d` of kind `tag`. */
  predicate RowDecorates(spv: seq<u32>, d: nat, vRes: seq<VariableOut>, j: nat, key: u32, tag: u32)
    requires d + 2 < |spv| && j <= |vRes|
  {
    exists i :: 0 <= i < j && Tagged(spv, d, vRes[i], tag) && vRes[i].newSamplerVResId == key
  }

  /** One of the first `j` variables carries the decoration at `d` of kind
      `tag`. */
  predicate RowTagged(spv: seq<u32>, d: nat, vRes: seq<VariableOut>, j: nat, tag: u32)
    requires d + 2 < |spv| && j <= |vRes|
  {
    exists i :: 0 <= i < j && Tagged(spv, d, vRes[i], tag)
  }

  /** Some variable whose sampler is `key` carries a decoration of kind
      `tag` among the first `k`. */
  predicate Decorates(spv: seq<u32>, ds: seq<nat>, vRes: seq<VariableOut>, k: nat, key: u32, tag: u32)
    requires LiteralsIn(spv, ds) && k <= |ds|
  {
    exists i, j :: 0 <= i < k && 0 <= j < |vRes| && Tagged(spv, ds[i], vRes[j], tag) && vRes[j].newSamplerVResId == key
  }

  /** ... and such a decoration sits at offset `at.0` with literal `at.1`. */
  predicate DecoratesAt(spv: seq<u32>, ds: seq<nat>, vRes: seq<VariableOut>, k: nat, key: u32, tag: u32, at: (nat, u32))
    requires LiteralsIn(spv, ds) && k <= |ds| && IsBindingOrSet(tag)
  {
    exists i, j :: 0 <= i < k && 0 <= j < |vRes| && Tagged(spv, ds[i], vRes[j], tag)
      && vRes[j].newSamplerVResId == key && ds[i] == at.0 && spv[ds[i] + 3] == at.1
  }

  /** `x` is the literal of a DescriptorSet decoration, among the first `k`,
      on some paired variable. */
  predicate SetOf(spv: seq<u32>, ds: seq<nat>, vRes: seq<VariableOut>, k: nat, x: u32)
    requires LiteralsIn(spv, ds) && k <= |ds|
  {
    exists i, j :: 0 <= i < k && 0 <= j < |vRes| && Tagged(spv, ds[i], vRes[j], DecorationDescriptorSet)
      && spv[ds[i] + 3] == x
  }

  /** Against one decoration: a variable carrying it records it (the last
      such write wins, and all write the same value), and nothing else
      changes what is recorded for that key and kind. */
  lemma {:induction false} RowRecorded(spv: seq<u32>, d: nat, vRes: seq<VariableOut>, j: nat, s: Seen, key: u32, tag: u32)
    requires LiteralIn(spv, d) && j <= |vRes| && IsBindingOrSet(tag)
    ensures RowDecorates(spv, d, vRes, j, key, tag) ==> Recorded(Row(spv, d, vRes, j, s), key, tag) == Some((d, spv[d + 3]))
    ensures !RowDecorates(spv, d, vRes, j, key, tag) ==> Recorded(Row(spv, d, vRes, j, s), key, tag) == Recorded(s, key, tag)
    decreases j
  {
    if j > 0 {
      RowRecorded(spv, d, vRes, j - 1, s, key, tag);
      var v := vRes[j - 1];
      if Tagged(spv, d, v, tag) && v.newSamplerVResId == key {
        assert RowDecorates(spv, d, vRes, j, key, tag);
      } else {
        assert RowDecorates(spv, d, vRes, j, key, tag) <==> RowDecorates(spv, d, vRes, j - 1, key, tag);
      }
    }
  }

  /** Against one decoration: a key is added exactly when a variable with
      that sampler carries it as a Binding or a DescriptorSet. */
  lemma {:induction false} RowKeys(spv: seq<u32>, d: nat, vRes: seq<VariableOut>, j: nat, s: Seen, key: u32)
    requires LiteralIn(spv, d) && j <= |vRes|
    ensures key in Row(spv, d, vRes, j, s).decorations <==>
      key in s.decorations || RowDecorates(spv, d, vRes, j, key, DecorationBinding)
      || RowDecorates(spv, d, vRes, j, key, DecorationDescriptorSet)
    decreases j
  {
    if j > 0 {
      RowKeys(spv, d, vRes, j - 1, s, key);
      var v := vRes[j - 1];
      if v.newSamplerVResId == key && (Tagged(spv, d, v, DecorationBinding) || Tagged(spv, d, v, DecorationDescriptorSet)) {
        if Tagged(spv, d, v, DecorationBinding) {
          assert RowDecorates(spv, d, vRes, j, key, DecorationBinding);
        } else {
          assert RowDecorates(spv, d, vRes, j, key, DecorationDescriptorSet);
        }
      } else {
        assert RowDecorates(spv, d, vRes, j, key, DecorationBinding) <==> RowDecorates(spv, d, vRes, j - 1, key, DecorationBinding);
        assert RowDecorates(spv, d, vRes, j, key, DecorationDescriptorSet) <==> RowDecorates(spv, d, vRes, j - 1, key, DecorationDescriptorSet);
      }
    }
  }

  /** Against one decoration: its literal joins the sets exactly when it is
      a DescriptorSet on some paired variable. */
  lemma {:induction false} RowSets(spv: seq<u32>, d: nat, vRes: seq<VariableOut>, j: nat, s: Seen, x: u32)
    requires LiteralIn(spv, d) && j <= |vRes|
    ensures x in Row(spv, d, vRes, j, s).setsToCorrect <==>
      x in s.setsToCorrect || (RowTagged(spv, d, vRes, j, DecorationDescriptorSet) && x == spv[d + 3])
    decreases j
  {
    if j > 0 {
      RowSets(spv, d, vRes, j - 1, s, x);
      if Tagged(spv, d, vRes[j - 1], DecorationDescriptorSet) {
        assert RowTagged(spv, d, vRes, j, DecorationDescriptorSet);
      } else {
        assert RowTagged(spv, d, vRes, j, DecorationDescriptorSet) <==> RowTagged(spv, d, vRes, j - 1, DecorationDescriptorSet);
      }
    }
  }

  /** A Binding (DescriptorSet) is recorded for a sampler exactly when its
      variable carries one, and what is recorded is one of those
      decorations: its offset and its literal. */
  lemma {:induction false} SurveyRecorded(spv: seq<u32>, ds: seq<nat>, vRes: seq<VariableOut>, k: nat, key: u32, tag: u32)
    requires LiteralsIn(spv, ds) && k <= |ds| && IsBindingOrSet(tag)
    ensures Recorded(Survey(spv, ds, vRes, k), key, tag).Some? <==> Decorates(spv, ds, vRes, k, key, tag)
    ensures Recorded(Survey(spv, ds, vRes, k), key, tag).Some? ==>
      DecoratesAt(spv, ds, vRes, k, key, tag, Recorded(Survey(spv, ds, vRes, k), key, tag).value)
    decreases k
  {
    if k > 0 {
      var d := ds[k - 1];
      var prev := Survey(spv, ds, vRes, k - 1);
      SurveyRecorded(spv, ds, vRes, k - 1, key, tag);
      RowRecorded(spv, d, vRes, |vRes|, prev, key, tag);
      if RowDecorates(spv, d, vRes, |vRes|, key, tag) {
        LastRowDecorates(spv, ds, vRes, k, key, tag);
      } else {
        LastRowSilent(spv, ds, vRes, k, key, tag);
        var r := Recorded(prev, key, tag);
        if r.Some? {
          EarlierDecoratesAt(spv, ds, vRes, k, key, tag, r.value);
        }
      }
    }
  }

  /** A decoration of the `k`-th row tagging `key` is one of the first
      `k`. */
  lemma LastRowDecorates(spv: seq<u32>, ds: seq<nat>, vRes: seq<VariableOut>, k: nat, key: u32, tag: u32)
    requires LiteralsIn(spv, ds) && 0 < k <= |ds| && IsBindingOrSet(tag)
    requires RowDecorates(spv, ds[k - 1], vRes, |vRes|, key, tag)
    ensures Decorates(spv, ds, vRes, k, key, tag)
    ensures DecoratesAt(spv, ds, vRes, k, key, tag, (ds[k - 1], spv[ds[k - 1] + 3]))
  {
    var j :| 0 <= j < |vRes| && Tagged(spv, ds[k - 1], vRes[j], tag) && vRes[j].newSamplerVResId == key;
    assert Tagged(spv, ds[k - 1], vRes[j], tag);
  }

  /** When the `k`-th row does not tag `key`, the first `k` rows tag it
      exactly when the first `k - 1` do. */
  lemma LastRowSilent(spv: seq<u32>, ds: seq<nat>, vRes: seq<VariableOut>, k: nat, key: u32, tag: u32)
    requires LiteralsIn(spv, ds) && 0 < k <= |ds|
    requires !RowDecorates(spv, ds[k - 1], vRes, |vRes|, key, tag)
    ensures Decorates(spv, ds, vRes, k, key, tag) <==> Decorates(spv, ds, vRes, k - 1, key, tag)
  {
    if Decorates(spv, ds, vRes, k, key, tag) {
      var i, j :| 0 <= i < k && 0 <= j < |vRes| && Tagged(spv, ds[i], vRes[j], tag) && vRes[j].newSamplerVResId == key;
      assert i < k - 1;
    }
    if Decorates(spv, ds, vRes, k - 1, key, tag) {
      var i, j :| 0 <= i < k - 1 && 0 <= j < |vRes| && Tagged(spv, ds[i], vRes[j], tag) && vRes[j].newSamplerVResId == key;
      assert 0 <= i < k;
    }
  }

  /** A decoration among the first `k - 1` rows is among the first `k`. */
  lemma EarlierDecoratesAt(spv: seq<u32>, ds: seq<nat>, vRes: seq<VariableOut>, k: nat, key: u32, tag: u32, at: (nat, u32))
    requires LiteralsIn(spv, ds) && 0 < k <= |ds| && IsBindingOrSet(tag)
    requires DecoratesAt(spv, ds, vRes, k - 1, key, tag, at)
    ensures DecoratesAt(spv, ds, vRes, k, key, tag, at)
  {
    var i, j :| 0 <= i < k - 1 && 0 <= j < |vRes| && Tagged(spv, ds[i], vRes[j], tag)
      && vRes[j].newSamplerVResId == key && ds[i] == at.0 && spv[ds[i] + 3] == at.1;
    assert 0 <= i < k;
  }

  /** A sampler has an entry exactly when its variable carries a Binding
      or a DescriptorSet. */
  lemma {:induction false} SurveyKeys(spv: seq<u32>, ds: seq<nat>, vRes: seq<VariableOut>, k: nat, key: u32)
    requires LiteralsIn(spv, ds) && k <= |ds|
    ensures key in Survey(spv, ds, vRes, k).decorations <==>
      Decorates(spv, ds, vRes, k, key, DecorationBinding) || Decorates(spv, ds, vRes, k, key, DecorationDescriptorSet)
    decreases k
  {
    if k > 0 {
      var d := ds[k - 1];
      SurveyKeys(spv, ds, vRes, k - 1, key);
      RowKeys(spv, d, vRes, |vRes|, Survey(spv, ds, vRes, k - 1), key);
      forall tag | IsBindingOrSet(tag)
        ensures Decorates(spv, ds, vRes, k, key, tag) <==>
          Decorates(spv, ds, vRes, k - 1, key, tag) || RowDecorates(spv, d, vRes, |vRes|, key, tag)
      {
        if Decorates(spv, ds, vRes, k, key, tag) {
          var i, j :| 0 <= i < k && 0 <= j < |vRes| && Tagged(spv, ds[i], vRes[j], tag) && vRes[j].newSamplerVResId == key;
          if i == k - 1 {
            assert RowDecorates(spv, d, vRes, |vRes|, key, tag);
          } else {
            assert Decorates(spv, ds, vRes, k - 1, key, tag);
          }
        }
        if RowDecorates(spv, d, vRes, |vRes|, key, tag) {
          var j :| 0 <= j < |vRes| && Tagged(spv, d, vRes[j], tag) && vRes[j].newSamplerVResId == key;
          assert Tagged(spv, ds[k - 1], vRes[j], tag);
        }
        if Decorates(spv, ds, vRes, k - 1, key, tag) {
          var i, j :| 0 <= i < k - 1 && 0 <= j < |vRes| && Tagged(spv, ds[i], vRes[j], tag) && vRes[j].newSamplerVResId == key;
          assert Tagged(spv, ds[i], vRes[j], tag);
        }
      }
    }
  }

  /** The descriptor sets to correct are exactly the DescriptorSet literals
      on paired variables. */
  lemma {:induction false} SurveySets(spv: seq<u32>, ds: seq<nat>, vRes: seq<VariableOut>, k: nat, x: u32)
    requires LiteralsIn(spv, ds) && k <= |ds|
    ensures x in Survey(spv, ds, vRes, k).setsToCorrect <==> SetOf(spv, ds, vRes, k, x)
    decreases k
  {
    if k > 0 {
      var d := ds[k - 1];
      SurveySets(spv, ds, vRes, k - 1, x);
      RowSets(spv, d, vRes, |vRes|, Survey(spv, ds, vRes, k - 1), x);
      if SetOf(spv, ds, vRes, k, x) {
        var i, j :| 0 <= i < k && 0 <= j < |vRes| && Tagged(spv, ds[i], vRes[j], DecorationDescriptorSet) && spv[ds[i] + 3] == x;
        if i == k - 1 {
          assert RowTagged(spv, d, vRes, |vRes|, DecorationDescriptorSet);
        } else {
          assert SetOf(spv, ds, vRes, k - 1, x);
        }
      }
      if RowTagged(spv, d, vRes, |vRes|, DecorationDescriptorSet) && x == spv[d + 3] {
        var j :| 0 <= j < |vRes| && Tagged(spv, d, vRes[j], DecorationDescriptorSet);
        assert Tagged(spv, ds[k - 1], vRes[j], DecorationDescriptorSet);
      }
      if SetOf(spv, ds, vRes, k - 1, x) {
        var i, j :| 0 <= i < k - 1 && 0 <= j < |vRes| && Tagged(spv, ds[i], vRes[j], DecorationDescriptorSet) && spv[ds[i] + 3] == x;
        assert Tagged(spv, ds[i], vRes[j], DecorationDescriptorSet);
      }
    }
  }

  // ---------------------------------------------------------------------
  // The staged decorations

  /** The decoration pair of a new sampler: DescriptorSet `descriptorSet`, then
      Binding `binding + 1`. */
  function SamplerDecorations(id: u32, descriptorSet: u32, binding: u32): seq<u32>
    requires binding < MaxU32
  {
    [EncodeWord(4, OpDecorate), id, DecorationDescriptorSet, descriptorSet,
     EncodeWord(4, OpDecorate), id, DecorationBinding, binding + 1]
  }

  /** The pair is two whole 4-word OpDecorates of the sampler: the same
      descriptor set, and the binding after the original one. */
  lemma SamplerDecorationsShape(id: u32, descriptorSet: u32, binding: u32)
    requires binding < MaxU32
    ensures var w := SamplerDecorations(id, descriptorSet, binding);
      |w| == 8 && WellFormed(w)
      && HiWord(w[0]) == 4 && LoWord(w[0]) == OpDecorate && w[1] == id && w[2] == DecorationDescriptorSet && w[3] == descriptorSet
      && HiWord(w[4]) == 4 && LoWord(w[4]) == OpDecorate && w[5] == id && w[6] == DecorationBinding && w[7] == binding + 1
  {
    var w := SamplerDecorations(id, descriptorSet, binding);
    assert WalksFrom(w, 8);
    assert WalksFrom(w, 4);
  }

  /** The entry has both decorations, and its binding leaves room for the
      next one. */
  predicate Complete(e: Entry)
  {
    e.binding.Some? && e.descriptorSet.Some? && e.binding.value.1 < MaxU32
  }

  /** Some sampler has a DescriptorSet but no Binding. */
  predicate LacksBinding<K>(m: map<K, Entry>)
  {
    exists key :: key in m && m[key].binding.None?
  }

  /** Some sampler has a Binding but no DescriptorSet. */
  predicate LacksSet<K>(m: map<K, Entry>)
  {
    exists key :: key in m && m[key].descriptorSet.None?
  }

  /** Some sampler's binding is the largest word, so `binding + 1`
      overflows. */
  predicate BindingAtMax<K>(m: map<K, Entry>)
  {
    exists key :: key in m && m[key].binding.Some? && m[key].binding.value.1 == MaxU32
  }

  /** The sampler a staged insert decorates. */
  function SamplerOf(x: InstructionInsert): u32
  {
    if |x.instruction| >= 2 then x.instruction[1] else 0
  }

  /** `x` is the decoration pair of one sampler of `m`, after `anchor`. */
  predicate DecoratesSampler(x: InstructionInsert, m: map<u32, Entry>, anchor: nat)
  {
    var key := SamplerOf(x);
    key in m && Complete(m[key])
    && x == InstructionInsert(anchor, SamplerDecorations(key, m[key].descriptorSet.value.1, m[key].binding.value.1))
  }

  /** `st` holds one decoration pair for every sampler of `m`, each once,
      all after `anchor`, in any order. */
  predicate StagesAll(st: seq<InstructionInsert>, m: map<u32, Entry>, anchor: nat)
  {
    |st| == |m|
    && (forall i :: 0 <= i < |st| ==> DecoratesSampler(st[i], m, anchor))
    && (forall key :: key in m ==> exists i :: 0 <= i < |st| && SamplerOf(st[i]) == key)
    && (forall i, j :: 0 <= i < j < |st| ==> SamplerOf(st[i]) != SamplerOf(st[j]))
  }

  /** Whatever the iteration order, the staged inserts cover the map. */
  lemma StagesAllAnchored(st: seq<InstructionInsert>, m: map<u32, Entry>, anchor: nat)
    requires StagesAll(st, m, anchor)
    ensures forall i :: 0 <= i < |st| ==> st[i].previousSpvIdx == anchor && |st[i].instruction| == 8
  {
    forall i | 0 <= i < |st| ensures st[i].previousSpvIdx == anchor && |st[i].instruction| == 8 {
      assert DecoratesSampler(st[i], m, anchor);
    }
  }

  /** Which sampler is missing a decoration, stated against the
      decorations: one has a DescriptorSet and no Binding, or the reverse. */
  lemma SurveyLacks(spv: seq<u32>, ds: seq<nat>, vRes: seq<VariableOut>)
    requires LiteralsIn(spv, ds)
    ensures LacksBinding(Survey(spv, ds, vRes, |ds|).decorations) <==>
      exists key :: Decorates(spv, ds, vRes, |ds|, key, DecorationDescriptorSet) && !Decorates(spv, ds, vRes, |ds|, key, DecorationBinding)
    ensures LacksSet(Survey(spv, ds, vRes, |ds|).decorations) <==>
      exists key :: Decorates(spv, ds, vRes, |ds|, key, DecorationBinding) && !Decorates(spv, ds, vRes, |ds|, key, DecorationDescriptorSet)
  {
    var s := Survey(spv, ds, vRes, |ds|);
    forall key
      ensures (key in s.decorations && s.decorations[key].binding.None?) <==>
        (Decorates(spv, ds, vRes, |ds|, key, DecorationDescriptorSet) && !Decorates(spv, ds, vRes, |ds|, key, DecorationBinding))
      ensures (key in s.decorations && s.decorations[key].descriptorSet.None?) <==>
        (Decorates(spv, ds, vRes, |ds|, key, DecorationBinding) && !Decorates(spv, ds, vRes, |ds|, key, DecorationDescriptorSet))
    {
      SurveyKeys(spv, ds, vRes, |ds|, key);
      SurveyRecorded(spv, ds, vRes, |ds|, key, DecorationBinding);
      SurveyRecorded(spv, ds, vRes, |ds|, key, DecorationDescriptorSet);
    }
  }

  // ---------------------------------------------------------------------
  // The step

  /** The inner loop: decoration `d` against every variable. */
  method ScanVariables(spv: seq<u32>, d: nat, vRes: seq<VariableOut>, s: Seen) returns (t: Seen)
    requires LiteralIn(spv, d)
    ensures t == Row(spv, d, vRes, |vRes|, s)
  {
    t := s;
    var j := 0;
    while j < |vRes|
      invariant 0 <= j <= |vRes|
      invariant t == Row(spv, d, vRes, j, s)
    {
      var v := vRes[j];
      if v.vResId == spv[d + 1] {
        var key := v.newSamplerVResId;
        var e := if key in t.decorations then t.decorations[key] else Entry(None, None);
        if spv[d + 2] == DecorationBinding {
          t := t.(decorations := t.decorations[key := e.(binding := Some((d, spv[d + 3])))]);
        } else if spv[d + 2] == DecorationDescriptorSet {
          t := Seen(t.decorations[key := e.(descriptorSet := Some((d, spv[d + 3])))], t.setsToCorrect + {spv[d + 3]});
        }
      }
      j := j + 1;
    }
  }

  /** `keys` lists the keys of `m`, each once, in some order. */
  predicate Lists<K, V>(keys: seq<K>, m: map<K, V>)
  {
    |keys| == |m|
    && (forall i :: 0 <= i < |keys| ==> keys[i] in m)
    && (forall key :: key in m ==> key in keys)
    && (forall i, j :: 0 <= i < j < |keys| ==> keys[i] != keys[j])
  }

  /** The keys of the map, each once, in whatever order they come. */
  method ListKeys<K, V>(m: map<K, V>) returns (keys: seq<K>)
    ensures Lists(keys, m)
  {
    keys := [];
    var pending := m.Keys;
    while pending != {}
      invariant pending <= m.Keys
      invariant |keys| + |pending| == |m|
      invariant forall i :: 0 <= i < |keys| ==> keys[i] in m && keys[i] !in pending
      invariant forall key :: key in m ==> key in pending || key in keys
      invariant forall i, j :: 0 <= i < j < |keys| ==> keys[i] != keys[j]
      decreases pending
    {
      var key :| key in pending;
      keys := keys + [key];
      pending := pending - {key};
    }
  }

  /** Stages the decoration pair of every listed sampler: the same set and
      the next binding, after `anchor`. */
  method StagePairs(m: map<u32, Entry>, keys: seq<u32>, anchor: nat) returns (st: seq<InstructionInsert>)
    requires forall i :: 0 <= i < |keys| ==> keys[i] in m && Complete(m[keys[i]])
    ensures |st| == |keys|
    ensures forall i :: 0 <= i < |st| ==> DecoratesSampler(st[i], m, anchor) && SamplerOf(st[i]) == keys[i]
  {
    st := [];
    var j := 0;
    while j < |keys|
      invariant 0 <= j <= |keys| && |st| == j
      invariant forall i :: 0 <= i < j ==> DecoratesSampler(st[i], m, anchor) && SamplerOf(st[i]) == keys[i]
    {
      var e := m[keys[j]];
      st := st + [InstructionInsert(anchor, SamplerDecorations(keys[j], e.descriptorSet.value.1, e.binding.value.1))];
      j := j + 1;
    }
  }

  /** The unwraps: the sort by binding unwraps every binding, then every
      descriptor set is unwrapped. */
  method FindLacking<K>(m: map<K, Entry>, keys: seq<K>) returns (lacking: Option<Error>)
    requires forall i :: 0 <= i < |keys| ==> keys[i] in m
    requires forall key :: key in m ==> key in keys
    ensures LacksBinding(m) ==> lacking == Some(MissingBinding)
    ensures !LacksBinding(m) && LacksSet(m) ==> lacking == Some(MissingDescriptorSet)
    ensures !LacksBinding(m) && !LacksSet(m) ==> lacking == None
  {
    var j := 0;
    while j < |keys|
      invariant 0 <= j <= |keys|
      invariant forall i :: 0 <= i < j ==> m[keys[i]].binding.Some?
    {
      if m[keys[j]].binding.None? {
        return Some(MissingBinding);
      }
      j := j + 1;
    }
    assert !LacksBinding(m) by {
      forall key | key in m ensures m[key].binding.Some? {
        var i :| 0 <= i < |keys| && keys[i] == key;
      }
    }
    // then every descriptor set
    j := 0;
    while j < |keys|
      invariant 0 <= j <= |keys|
      invariant forall i :: 0 <= i < j ==> m[keys[i]].descriptorSet.Some?
    {
      if m[keys[j]].descriptorSet.None? {
        return Some(MissingDescriptorSet);
      }
      j := j + 1;
    }
    assert !LacksSet(m) by {
      forall key | key in m ensures m[key].descriptorSet.Some? {
        var i :| 0 <= i < |keys| && keys[i] == key;
      }
    }
    lacking := None;
  }

  /** `binding + 1` on every staged sampler: whether one of them overflows. */
  method FindAtMax<K>(m: map<K, Entry>, keys: seq<K>) returns (atMax: bool)
    requires forall i :: 0 <= i < |keys| ==> keys[i] in m
    requires forall key :: key in m ==> key in keys
    ensures atMax <==> BindingAtMax(m)
  {
    var j := 0;
    while j < |keys|
      invariant 0 <= j <= |keys|
      invariant forall i :: 0 <= i < j ==> !(m[keys[i]].binding.Some? && m[keys[i]].binding.value.1 == MaxU32)
    {
      var e := m[keys[j]];
      if e.binding.Some? && e.binding.value.1 == MaxU32 {
        return true;
      }
      j := j + 1;
    }
    assert !BindingAtMax(m) by {
      forall key | key in m ensures !(m[key].binding.Some? && m[key].binding.value.1 == MaxU32) {
        var i :| 0 <= i < |keys| && keys[i] == key;
      }
    }
    atMax := false;
  }

  /** `decorate`: scans every decoration against every paired variable,
      then stages the new samplers' decorations.  A sampler missing its
      Binding fails first, then one missing its DescriptorSet; with
      samplers to decorate and no OpDecorate to anchor them it fails too,
      and so it does when a binding is the largest word. */
  method Decorate(spv: seq<u32>, inserts: seq<InstructionInsert>, firstDecorate: Option<nat>,
                  ds: seq<nat>, vRes: seq<VariableOut>)
    returns (r: Result<DecorateOut>)
    requires LiteralsIn(spv, ds)
    ensures var m := Survey(spv, ds, vRes, |ds|).decorations;
      LacksBinding(m) ==> r == Failure(MissingBinding)
    ensures var m := Survey(spv, ds, vRes, |ds|).decorations;
      !LacksBinding(m) && LacksSet(m) ==> r == Failure(MissingDescriptorSet)
    ensures var m := Survey(spv, ds, vRes, |ds|).decorations;
      !LacksBinding(m) && !LacksSet(m) && |m| > 0 && firstDecorate.None? ==> r == Failure(MissingDecorate)
    ensures var m := Survey(spv, ds, vRes, |ds|).decorations;
      !LacksBinding(m) && !LacksSet(m) && (|m| == 0 || firstDecorate.Some?) && BindingAtMax(m) ==> r == Failure(BindingOverflow)
    ensures var s := Survey(spv, ds, vRes, |ds|);
      !LacksBinding(s.decorations) && !LacksSet(s.decorations) && (|s.decorations| == 0 || firstDecorate.Some?)
      && !BindingAtMax(s.decorations) ==>
        r.Success? && r.value.descriptorSetsToCorrect == s.setsToCorrect
        && |r.value.inserts| == |inserts| + |s.decorations| && r.value.inserts[..|inserts|] == inserts
        && StagesAll(r.value.inserts[|inserts|..], s.decorations, if firstDecorate.Some? then firstDecorate.value else 0)
  {
    var s := Seen(map[], {});
    var k := 0;
    while k < |ds|
      invariant 0 <= k <= |ds|
      invariant s == Survey(spv, ds, vRes, k)
    {
      s := ScanVariables(spv, ds[k], vRes, s);
      k := k + 1;
    }
    r := StageSeen(s, inserts, firstDecorate);
  }

  /** The unwraps, the anchor, `binding + 1` and the staging, on what the
      scan saw. */
  method StageSeen(s: Seen, inserts: seq<InstructionInsert>, firstDecorate: Option<nat>) returns (r: Result<DecorateOut>)
    ensures LacksBinding(s.decorations) ==> r == Failure(MissingBinding)
    ensures !LacksBinding(s.decorations) && LacksSet(s.decorations) ==> r == Failure(MissingDescriptorSet)
    ensures var m := s.decorations;
      !LacksBinding(m) && !LacksSet(m) && |m| > 0 && firstDecorate.None? ==> r == Failure(MissingDecorate)
    ensures var m := s.decorations;
      !LacksBinding(m) && !LacksSet(m) && (|m| == 0 || firstDecorate.Some?) && BindingAtMax(m) ==> r == Failure(BindingOverflow)
    ensures var m := s.decorations;
      !LacksBinding(m) && !LacksSet(m) && (|m| == 0 || firstDecorate.Some?) && !BindingAtMax(m) ==>
        r.Success? && r.value.descriptorSetsToCorrect == s.setsToCorrect
        && |r.value.inserts| == |inserts| + |s.decorations| && r.value.inserts[..|inserts|] == inserts
        && StagesAll(r.value.inserts[|inserts|..], s.decorations, if firstDecorate.Some? then firstDecorate.value else 0)
  {
    var m := s.decorations;
    var keys := ListKeys(m);
    var lacking := FindLacking(m, keys);
    if lacking.Some? {
      return Failure(lacking.value);
    }
    if |keys| > 0 && firstDecorate.None? {
      return Failure(MissingDecorate);
    }
    var atMax := FindAtMax(m, keys);
    if atMax {
      return Failure(BindingOverflow);
    }
    var anchor := if firstDecorate.Some? then firstDecorate.value else 0;
    assert forall i :: 0 <= i < |keys| ==> Complete(m[keys[i]]);
    var st := StagePairs(m, keys, anchor);
    assert StagesAll(st, m, anchor) by {
      forall key | key in m ensures exists i :: 0 <= i < |st| && SamplerOf(st[i]) == key {
        var i :| 0 <= i < |keys| && keys[i] == key;
        assert SamplerOf(st[i]) == key;
      }
    }
    r := Success(DecorateOut(inserts + st, s.setsToCorrect));
    assert r.value.inserts[|inserts|..] == st;
  }
}
