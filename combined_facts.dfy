/** Why the steps of src/splitcombined.rs compose: the scanned head lists
    hold the operands each step reads, every staged edit is anchored where
    the edit engine accepts it, every inserted instruction is shaped, and
    the in-place rewrites and the binding fix-up keep the body's shape. */
module CombinedFacts {
  import opened Outcome
  import opened Spirv
  import opened Layout
  import opened Edits
  import opened ShapeKeep
  import opened Slots
  import opened Search
  import CorrectDecorate
  import CombinedBindings
  import TypePointer
  import Variable
  import FunctionParameter
  import TypeFunction
  import FunctionCall
  import Load
  import CombinedDecorate

  // ---------------------------------------------------------------------
  // Scanned heads

  /** Every offset of `hs` is a head of opcode `op` with at least the words
      `op` needs, in increasing order. */
  ghost predicate HeadsOf(body: seq<u32>, hs: seq<nat>, op: u16)
  {
    Increasing(hs)
    && forall k :: 0 <= k < |hs| ==>
         IsHead(body, hs[k]) && LoWord(body[hs[k]]) == op
         && MinWords(op) <= HiWord(body[hs[k]]) && hs[k] + HiWord(body[hs[k]]) <= |body|
  }

  /** The heads a scan collects for one opcode are such heads. */
  lemma ScannedHeads(body: seq<u32>, sel: Selector, op: u16)
    requires Shaped(body) && WellFormed(body)
    requires sel == Opcode(op) || (sel == UniformConstantPointer && op == OpTypePointer)
    ensures HeadsOf(body, Offsets(body, 0, sel), op)
  {
    var hs := Offsets(body, 0, sel);
    forall k | 0 <= k < |hs|
      ensures IsHead(body, hs[k]) && LoWord(body[hs[k]]) == op
      ensures MinWords(op) <= HiWord(body[hs[k]]) && hs[k] + HiWord(body[hs[k]]) <= |body|
    {
      ShapedOffset(body, sel, hs[k]);
    }
  }

  /** Such heads hold every operand below their minimum word count. */
  lemma HeadsOperands(body: seq<u32>, hs: seq<nat>, op: u16, n: nat)
    requires HeadsOf(body, hs, op) && n < MinWords(op)
    ensures OperandsAt(body, hs, n) && OperandRuns(body, hs, n)
  {
  }

  /** Such heads hold runs of operands from any word up to their minimum
      word count. */
  lemma HeadsRuns(body: seq<u32>, hs: seq<nat>, op: u16, n: nat)
    requires HeadsOf(body, hs, op) && n <= MinWords(op)
    ensures OperandRuns(body, hs, n)
  {
  }

  /** A scan from `i` collects at most one head per remaining word. */
  lemma {:induction false} OffsetsLength(s: seq<u32>, i: nat, sel: Selector)
    requires WalksFrom(s, i)
    ensures |Offsets(s, i, sel)| <= |s| - i
    decreases |s| - i
  {
    if i < |s| {
      OffsetsLength(s, i + HiWord(s[i]), sel);
    }
  }

  // ---------------------------------------------------------------------
  // Inserted instructions are shaped

  lemma TwoShaped(a: seq<u32>, b: seq<u32>)
    requires InstrShaped(a) && InstrShaped(b)
    ensures Shaped(a + b)
  {
    OneShaped(a);
    OneShaped(b);
    ShapedConcat(a, b);
  }

  /** The sampler parameter of the function-parameter step. */
  lemma ParameterShaped(ty: u32, id: u32)
    ensures Shaped(FunctionParameter.SamplerParameter(ty, id))
  {
    OneShaped(FunctionParameter.SamplerParameter(ty, id));
  }

  /** The sampler load and the recombining OpSampledImage of the load step. */
  lemma RecombineShaped(samplerType: u32, combType: u32, comb: u32, imgLoad: u32, samLoad: u32, sampler: u32)
    ensures Shaped(Load.Recombine(samplerType, combType, comb, imgLoad, samLoad, sampler))
  {
    var w := Load.Recombine(samplerType, combType, comb, imgLoad, samLoad, sampler);
    assert w == w[..4] + w[4..];
    TwoShaped(w[..4], w[4..]);
  }

  /** The DescriptorSet and Binding decorations of a new sampler. */
  lemma DecorationsShaped(id: u32, descriptorSet: u32, binding: u32)
    requires binding < MaxU32
    ensures Shaped(CombinedDecorate.SamplerDecorations(id, descriptorSet, binding))
  {
    var w := CombinedDecorate.SamplerDecorations(id, descriptorSet, binding);
    assert w == w[..4] + w[4..];
    TwoShaped(w[..4], w[4..]);
  }

  // ---------------------------------------------------------------------
  // Anchors of the staged edits

  /** The opcodes after which the pass stages whole instructions. */
  predicate InstructionAnchor(op: u16)
  {
    op == OpTypeVoid || op == OpVariable || op == OpFunctionParameter || op == OpLoad || op == OpDecorate
  }

  /** The opcodes whose operand lists the pass grows word by word. */
  predicate WordAnchor(op: u16)
  {
    op == OpTypeFunction || op == OpFunctionCall
  }

  /** Every instruction insert follows a head of an anchor opcode and
      inserts a shaped run. */
  ghost predicate Anchored(body: seq<u32>, ins: seq<InstructionInsert>)
  {
    forall i :: 0 <= i < |ins| ==>
      IsHead(body, ins[i].previousSpvIdx) && InstructionAnchor(LoWord(body[ins[i].previousSpvIdx]))
      && Shaped(ins[i].instruction)
  }

  /** Every word insert lies inside an OpTypeFunction or OpFunctionCall it
      names as its head. */
  ghost predicate Grafted(body: seq<u32>, ws: seq<WordInsert>)
  {
    forall i :: 0 <= i < |ws| ==>
      IsHead(body, ws[i].headIdx) && WordAnchor(LoWord(body[ws[i].headIdx]))
      && ws[i].headIdx < ws[i].idx < ws[i].headIdx + HiWord(body[ws[i].headIdx])
  }

  lemma AnchoredConcat(body: seq<u32>, a: seq<InstructionInsert>, b: seq<InstructionInsert>)
    requires Anchored(body, a) && Anchored(body, b)
    ensures Anchored(body, a + b)
  {
    forall i | 0 <= i < |a + b|
      ensures IsHead(body, (a + b)[i].previousSpvIdx) && Shaped((a + b)[i].instruction)
      ensures InstructionAnchor(LoWord(body[(a + b)[i].previousSpvIdx]))
    {
      if i >= |a| {
        assert (a + b)[i] == b[i - |a|];
      }
    }
  }

  /** A list whose prefix and the rest are anchored is anchored. */
  lemma AnchoredSplit(body: seq<u32>, pre: seq<InstructionInsert>, ins: seq<InstructionInsert>)
    requires |pre| <= |ins| && ins[..|pre|] == pre
    requires Anchored(body, pre) && Anchored(body, ins[|pre|..])
    ensures Anchored(body, ins)
  {
    AnchoredConcat(body, pre, ins[|pre|..]);
    assert ins == pre + ins[|pre|..];
  }

  lemma GraftedConcat(body: seq<u32>, a: seq<WordInsert>, b: seq<WordInsert>)
    requires Grafted(body, a) && Grafted(body, b)
    ensures Grafted(body, a + b)
  {
    forall i | 0 <= i < |a + b|
      ensures IsHead(body, (a + b)[i].headIdx) && WordAnchor(LoWord(body[(a + b)[i].headIdx]))
      ensures (a + b)[i].headIdx < (a + b)[i].idx < (a + b)[i].headIdx + HiWord(body[(a + b)[i].headIdx])
    {
      if i >= |a| {
        assert (a + b)[i] == b[i - |a|];
      }
    }
  }

  lemma MergeMembers(ws: seq<WordInsert>, ins: seq<InstructionInsert>, x: Insert)
    requires x in Merge(ws, ins)
    ensures x.Word? ==> exists k :: 0 <= k < |ws| && x.w == ws[k]
    ensures x.Instruction? ==> exists k :: 0 <= k < |ins| && x.ins == ins[k]
  {
    var e := Merge(ws, ins);
    var j :| 0 <= j < |e| && e[j] == x;
    if j < |ws| {
      assert x == Word(ws[j]);
    } else {
      assert x == Instruction(ins[j - |ws|]);
    }
  }

  /** Anchored instruction inserts and grafted word inserts are edits the
      engine accepts, with shaped payloads: an instruction that grows by a
      word is never an anchor, since the opcodes differ. */
  lemma AnchoredEditsValid(body: seq<u32>, newSpv: seq<u32>, ws: seq<WordInsert>, ins: seq<InstructionInsert>)
    requires WellFormed(body) && |newSpv| == |body| && Grafted(body, ws) && Anchored(body, ins)
    ensures EditsValid(body, newSpv, Merge(ws, ins)) && PayloadsShaped(Merge(ws, ins))
  {
    var e := Merge(ws, ins);
    forall x | x in e ensures InsertValid(body, x) && (x.Instruction? ==> Shaped(x.ins.instruction)) {
      MergeMembers(ws, ins, x);
      if x.Word? {
        var k :| 0 <= k < |ws| && x.w == ws[k];
      } else {
        var k :| 0 <= k < |ins| && x.ins == ins[k];
      }
    }
    forall x, y | x in e && y in e && x.Word? && y.Instruction? ensures x.w.headIdx != y.ins.previousSpvIdx {
      MergeMembers(ws, ins, x);
      MergeMembers(ws, ins, y);
      var k :| 0 <= k < |ws| && x.w == ws[k];
      var j :| 0 <= j < |ins| && y.ins == ins[j];
    }
  }

  // ---------------------------------------------------------------------
  // The anchors of each step

  /** The variable step stages a shaped sampler variable after each matched
      OpVariable. */
  lemma VariablesAnchored(body: seq<u32>, vs: seq<nat>, tpRes: seq<TypePointer.TypePointerOut>, ptr: u32, bound: u32)
    requires HeadsOf(body, vs, OpVariable) && bound as int + |vs| <= MaxU32
    requires !Variable.NeedsArrayed(Variable.Matches(body, vs, tpRes))
    ensures |Variable.Matches(body, vs, tpRes)| <= |vs|
    ensures Anchored(body, Variable.Staged(Variable.Matches(body, vs, tpRes), ptr, None, bound))
  {
    HeadsOperands(body, vs, OpVariable, 2);
    var ms := Variable.Matches(body, vs, tpRes);
    var pos := Variable.MatchesInScanOrder(body, vs, tpRes);
    Variable.StagedShape(ms, ptr, None, bound);
    var st := Variable.Staged(ms, ptr, None, bound);
    forall i | 0 <= i < |st|
      ensures IsHead(body, st[i].previousSpvIdx) && InstructionAnchor(LoWord(body[st[i].previousSpvIdx]))
      ensures Shaped(st[i].instruction)
    {
      assert st[i].previousSpvIdx == vs[pos[i]];
      OneShaped(st[i].instruction);
    }
  }

  /** The parameter step stages a shaped sampler parameter after each
      matched OpFunctionParameter. */
  lemma ParametersAnchored(body: seq<u32>, fps: seq<nat>, tpRes: seq<TypePointer.TypePointerOut>, ptr: u32, bound: u32)
    requires HeadsOf(body, fps, OpFunctionParameter) && bound as int + |fps| <= MaxU32
    ensures |Variable.Matches(body, fps, tpRes)| <= |fps|
    ensures Anchored(body, FunctionParameter.ParameterInserts(Variable.Matches(body, fps, tpRes), ptr, bound))
  {
    HeadsOperands(body, fps, OpFunctionParameter, 2);
    var ms := Variable.Matches(body, fps, tpRes);
    var pos := Variable.MatchesInScanOrder(body, fps, tpRes);
    FunctionParameter.ParameterInsertsShape(ms, ptr, bound);
    var st := FunctionParameter.ParameterInserts(ms, ptr, bound);
    forall i | 0 <= i < |st|
      ensures IsHead(body, st[i].previousSpvIdx) && InstructionAnchor(LoWord(body[st[i].previousSpvIdx]))
      ensures Shaped(st[i].instruction)
    {
      assert st[i].previousSpvIdx == fps[pos[i]];
      ParameterShaped(ptr, bound + i as u32);
    }
  }

  /** The load step stages a shaped recombination after each matched load. */
  lemma LoadsAnchored(body: seq<u32>, newSpv: seq<u32>, ls: seq<nat>, ms: seq<Load.LoadMatch>, samplerType: u32, bound: u32)
    requires HeadsOf(body, ls, OpLoad) && |newSpv| == |body|
    requires Load.LoadsIn(body, ms) && Load.Listed(ls, ms)
    requires bound as int + 2 * |ms| <= MaxU32
    ensures Anchored(body, Load.Rewrites(body, newSpv, ms, |ms|, samplerType, bound).inserts)
  {
    Load.RewritesInserts(body, newSpv, ms, |ms|, samplerType, bound);
    var st := Load.Rewrites(body, newSpv, ms, |ms|, samplerType, bound).inserts;
    forall i | 0 <= i < |st|
      ensures IsHead(body, st[i].previousSpvIdx) && InstructionAnchor(LoWord(body[st[i].previousSpvIdx]))
      ensures Shaped(st[i].instruction)
    {
      var k :| 0 <= k < |ls| && ls[k] == ms[i].lIdx;
      RecombineShaped(samplerType, st[i].instruction[5], body[ms[i].lIdx + 2],
                      bound + 2 * i as u32, bound + 2 * i as u32 + 1, ms[i].samplerId);
    }
  }

  /** The function-type step grows only OpTypeFunction heads, inside their
      operand lists. */
  lemma TypeFunctionsGrafted(body: seq<u32>, tfs: seq<nat>, ptr: u32, tpRes: seq<TypePointer.TypePointerOut>)
    requires HeadsOf(body, tfs, OpTypeFunction)
    ensures OperandRuns(body, tfs, 3) && Grafted(body, TypeFunction.FunctionTypeInserts(body, tfs, ptr, tpRes))
  {
    TypeFunction.FunctionTypeInsertsMeaning(body, tfs, ptr, tpRes);
    var ws := TypeFunction.FunctionTypeInserts(body, tfs, ptr, tpRes);
    forall i | 0 <= i < |ws|
      ensures IsHead(body, ws[i].headIdx) && WordAnchor(LoWord(body[ws[i].headIdx]))
      ensures ws[i].headIdx < ws[i].idx < ws[i].headIdx + HiWord(body[ws[i].headIdx])
    {
      assert ws[i] in ws;
      var k :| 0 <= k < |tfs| && tfs[k] == ws[i].headIdx;
    }
  }

  /** The call step grows only OpFunctionCall heads, inside their operand
      lists. */
  lemma CallsGrafted(body: seq<u32>, fcs: seq<nat>, vRes: seq<Variable.VariableOut>,
                     ps: seq<FunctionParameter.FunctionParameterOut>)
    requires HeadsOf(body, fcs, OpFunctionCall)
    ensures OperandRuns(body, fcs, 4) && Grafted(body, FunctionCall.FunctionCallInserts(body, fcs, vRes, ps))
  {
    FunctionCall.FunctionCallInsertsMeaning(body, fcs, vRes, ps);
    var ws := FunctionCall.FunctionCallInserts(body, fcs, vRes, ps);
    forall i | 0 <= i < |ws|
      ensures IsHead(body, ws[i].headIdx) && WordAnchor(LoWord(body[ws[i].headIdx]))
      ensures ws[i].headIdx < ws[i].idx < ws[i].headIdx + HiWord(body[ws[i].headIdx])
    {
      assert ws[i] in ws;
      var k :| 0 <= k < |fcs| && fcs[k] == ws[i].headIdx;
    }
  }

  /** The decoration step stages shaped decoration pairs after its anchor. */
  lemma DecorationsAnchored(body: seq<u32>, st: seq<InstructionInsert>, m: map<u32, CombinedDecorate.Entry>, anchor: nat)
    requires CombinedDecorate.StagesAll(st, m, anchor)
    requires |st| > 0 ==> IsHead(body, anchor) && LoWord(body[anchor]) == OpDecorate
    ensures Anchored(body, st)
  {
    forall i | 0 <= i < |st|
      ensures IsHead(body, st[i].previousSpvIdx) && InstructionAnchor(LoWord(body[st[i].previousSpvIdx]))
      ensures Shaped(st[i].instruction)
    {
      assert CombinedDecorate.DecoratesSampler(st[i], m, anchor);
      var key := CombinedDecorate.SamplerOf(st[i]);
      DecorationsShaped(key, m[key].descriptorSet.value.1, m[key].binding.value.1);
    }
  }
  // ---------------------------------------------------------------------
  // The in-place rewrites keep the shape

  /** Operand `p` of a head whose opcode is not OpDecorate, below that
      opcode's minimum word count, is a plain operand. */
  lemma OperandBelowMin(body: seq<u32>, hs: seq<nat>, op: u16, k: nat, p: nat)
    requires HeadsOf(body, hs, op) && op != OpDecorate && k < |hs|
    requires hs[k] < p < hs[k] + MinWords(op)
    ensures PlainOperand(body, p)
  {
  }

  /** Retargeting the matched pointers writes only operands of OpTypePointer
      heads. */
  lemma RetargetPlain(body: seq<u32>, t0: seq<u32>, tps: seq<nat>, tss: seq<nat>)
    requires PlainWrites(body, t0)
    requires HeadsOf(body, tps, OpTypePointer) && OperandsAt(body, tss, 2)
    ensures OperandsAt(body, tps, 3)
    ensures PlainWrites(body, TypePointer.Retargeted(body, t0, tps, tss))
  {
    HeadsOperands(body, tps, OpTypePointer, 3);
    TypePointer.RetargetedWrites(body, t0, tps, tss);
    var t1 := TypePointer.Retargeted(body, t0, tps, tss);
    forall p: nat | p < |body| && t1[p] != body[p]
      ensures (IsHead(body, p) && t1[p] == NopHead(body[p])) || PlainOperand(body, p)
    {
      if exists k :: 0 <= k < |tps| && TypePointer.SampledImageOf(body, tps[k], tss).Some? && p == tps[k] + 3 {
        var k :| 0 <= k < |tps| && TypePointer.SampledImageOf(body, tps[k], tss).Some? && p == tps[k] + 3;
        OperandBelowMin(body, tps, OpTypePointer, k, p);
      } else {
        assert t1[p] == t0[p];
      }
    }
  }

  /** Rewriting the matched loads writes only operands of OpLoad heads. */
  lemma RewritePlain(body: seq<u32>, t1: seq<u32>, ls: seq<nat>, ms: seq<Load.LoadMatch>, samplerType: u32, bound: u32)
    requires PlainWrites(body, t1)
    requires HeadsOf(body, ls, OpLoad) && Load.LoadsIn(body, ms) && Load.Listed(ls, ms)
    requires bound as int + 2 * |ms| <= MaxU32
    ensures PlainWrites(body, Load.Rewrites(body, t1, ms, |ms|, samplerType, bound).newSpv)
  {
    Load.RewritesFrame(body, t1, ms, |ms|, samplerType, bound);
    var t2 := Load.Rewrites(body, t1, ms, |ms|, samplerType, bound).newSpv;
    forall p: nat | p < |body| && t2[p] != body[p]
      ensures (IsHead(body, p) && t2[p] == NopHead(body[p])) || PlainOperand(body, p)
    {
      if !Load.Unwritten(ms, |ms|, p) {
        var i :| 0 <= i < |ms| && (p == ms[i].lIdx + 1 || p == ms[i].lIdx + 2);
        var k :| 0 <= k < |ls| && ls[k] == ms[i].lIdx;
        OperandBelowMin(body, ls, OpLoad, k, p);
      } else {
        assert t2[p] == t1[p];
      }
    }
  }

  /** A word the binding fix-up may write is the literal of a Binding
      decoration: the fourth word of a head that has at least four. */
  lemma TouchedSlot(s: seq<u32>, sets: set<u32>, p: nat) returns (a: nat)
    requires Shaped(s) && WellFormed(s) && CorrectDecorate.Scan(s).Success?
    requires p in CorrectDecorate.Touched(CorrectDecorate.Scan(s).value, sets)
    ensures IsHead(s, a) && p == a + 3 && 4 <= HiWord(s[a]) && LoWord(s[a]) == OpDecorate
  {
    var m := CorrectDecorate.Scan(s).value;
    var id :| id in m && CorrectDecorate.InSets(m, id, sets) && p == CorrectDecorate.Pos(m, id);
    CorrectDecorate.ScanSound(s, id);
    a := m[id].binding.value.idx;
    assert CorrectDecorate.BindingHead(s, id, m[id].binding.value);
    ShapedHead(s, a);
  }

  /** A head, and the kind word of a decoration head, are never written by
      the binding fix-up. */
  lemma HeadUntouched(s: seq<u32>, t: seq<u32>, sets: set<u32>, h: nat)
    requires Shaped(s) && WellFormed(s) && CorrectDecorate.Scan(s).Success? && IsHead(s, h)
    requires |t| == |s|
    requires forall p :: 0 <= p < |s| && p !in CorrectDecorate.Touched(CorrectDecorate.Scan(s).value, sets) ==> t[p] == s[p]
    ensures t[h] == s[h]
    ensures LoWord(s[h]) == OpDecorate && h + 2 < |s| ==> t[h + 2] == s[h + 2]
  {
    var m := CorrectDecorate.Scan(s).value;
    if h in CorrectDecorate.Touched(m, sets) {
      var a := TouchedSlot(s, sets, h);
      InteriorIsNotHead(s, a, h);
    }
    if LoWord(s[h]) == OpDecorate && h + 2 < |s| && h + 2 in CorrectDecorate.Touched(m, sets) {
      var a := TouchedSlot(s, sets, h + 2);
      ShapedHead(s, h);
      OneInstructionCovers(s, a, h, h + 2);
    }
  }

  /** The binding fix-up keeps the shape of a shaped body: it writes only
      Binding literals, which are neither heads nor the kind word of any
      decoration. */
  lemma CorrectionKeepsShape(s: seq<u32>, t: seq<u32>, sets: set<u32>)
    requires Shaped(s) && WellFormed(s) && CorrectDecorate.Scan(s).Success?
    requires CombinedBindings.TieCorrected(s, t, CorrectDecorate.Scan(s).value, sets)
    ensures KeepsShape(s, t) && Shaped(t) && WellFormed(t)
  {
    forall h: nat | IsHead(s, h)
      ensures HiWord(t[h]) == HiWord(s[h])
      ensures LoWord(t[h]) == LoWord(s[h]) || LoWord(t[h]) == OpNop
      ensures LoWord(t[h]) == OpDecorate && h + 2 < |s| ==> t[h + 2] == s[h + 2]
    {
      HeadUntouched(s, t, sets, h);
    }
    KeepsShapeShaped(s, t);
    ShapedIsWellFormed(t);
  }

  /** The same for the plain fix-up of the shared helpers. */
  lemma CorrectedKeepsShape(s: seq<u32>, t: seq<u32>, sets: set<u32>)
    requires Shaped(s) && WellFormed(s) && CorrectDecorate.Scan(s).Success?
    requires CorrectDecorate.Corrected(s, t, CorrectDecorate.Scan(s).value, sets)
    ensures KeepsShape(s, t) && Shaped(t) && WellFormed(t)
  {
    forall h: nat | IsHead(s, h)
      ensures HiWord(t[h]) == HiWord(s[h])
      ensures LoWord(t[h]) == LoWord(s[h]) || LoWord(t[h]) == OpNop
      ensures LoWord(t[h]) == OpDecorate && h + 2 < |s| ==> t[h + 2] == s[h + 2]
    {
      HeadUntouched(s, t, sets, h);
    }
    KeepsShapeShaped(s, t);
    ShapedIsWellFormed(t);
  }
}
