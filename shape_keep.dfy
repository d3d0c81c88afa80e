/** The edit engine keeps a shaped body shaped, and so do the in-place
    rewrites of the passes: every instruction of the result still holds the
    operands that the later steps read. */
module ShapeKeep {
  import opened Spirv
  import opened Layout
  import opened Edits
  import opened EditShape

  /** Every inserted instruction is a shaped run of words. */
  predicate PayloadsShaped(e: seq<Insert>)
  {
    forall x :: x in e && x.Instruction? ==> Shaped(x.ins.instruction)
  }

  /** A single shaped instruction is a shaped run. */
  lemma OneShaped(ins: seq<u32>)
    requires InstrShaped(ins)
    ensures Shaped(ins)
  {
    assert ins[0..HiWord(ins[0])] == ins;
    assert ShapedFrom(ins, |ins|);
  }

  lemma PayloadsShapedWellFormed(e: seq<Insert>)
    requires PayloadsShaped(e)
    ensures PayloadsWellFormed(e)
  {
    forall x | x in e && x.Instruction? ensures WellFormed(x.ins.instruction) {
      ShapedIsWellFormed(x.ins.instruction);
    }
  }

  /** No word insert names an offset inside an instruction as its head. */
  lemma {:induction false} NoHeadCountInside(spv: seq<u32>, e: seq<Insert>, h: nat, p: nat)
    requires IsHead(spv, h) && h < p < h + HiWord(spv[h])
    requires forall x :: x in e ==> InsertValid(spv, x)
    ensures HeadCount(e, p) == 0
  {
    if e != [] {
      assert e[0] in e;
      assert forall x :: x in e[1..] ==> x in e;
      NoHeadCountInside(spv, e[1..], h, p);
      if e[0].Word? && e[0].w.headIdx == p {
        InteriorIsNotHead(spv, h, p);
      }
    }
  }

  /** One original instruction, grown by its word inserts, is still a
      shaped instruction. */
  lemma GrownShaped(spv: seq<u32>, newSpv: seq<u32>, e: seq<Insert>, h: nat, q: nat)
    requires EditsValid(spv, newSpv, e) && NoOverflow(newSpv, e)
    requires Shaped(spv) && KeepsShape(spv, newSpv) && IsHead(spv, h)
    requires q == h + HiWord(spv[h])
    ensures q <= |spv| && Shaped(WordCells(newSpv, e, h, q))
  {
    ShapedHead(spv, h);
    var g := WordCells(newSpv, e, h, q);
    GrownHead(spv, newSpv, e, h);
    assert LoWord(newSpv[h]) == LoWord(spv[h]) || LoWord(newSpv[h]) == OpNop;
    if LoWord(newSpv[h]) == OpDecorate && HeadCount(e, h) == 0 {
      GrownOperand(spv, newSpv, e, h);
    }
    var operand := if LoWord(spv[h]) == OpDecorate then spv[h + 2] else 0;
    GrownInstr(g, HiWord(spv[h]), HeadCount(e, h), LoWord(spv[h]), operand);
    OneShaped(g);
  }

  /** An instruction of `n` words with opcode `op`, grown by `hc` words and
      perhaps turned into a tombstone, is still a shaped instruction. */
  lemma GrownInstr(g: seq<u32>, n: nat, hc: nat, op: u16, operand: u32)
    requires 1 <= n && MinWords(op) <= n && (op == OpDecorate && IsBindingOrSet(operand) ==> 4 <= n)
    requires |g| == n + hc && HiWord(g[0]) == |g|
    requires LoWord(g[0]) == op || LoWord(g[0]) == OpNop
    requires LoWord(g[0]) == OpDecorate && hc == 0 ==> 2 < |g| && g[2] == operand
    ensures InstrShaped(g)
  {
  }

  /** The head of the grown instruction counts the original words and the
      inserted ones. */
  lemma GrownHead(spv: seq<u32>, newSpv: seq<u32>, e: seq<Insert>, h: nat)
    requires EditsValid(spv, newSpv, e) && NoOverflow(newSpv, e)
    requires Shaped(spv) && KeepsShape(spv, newSpv) && IsHead(spv, h)
    requires 0 < HiWord(spv[h]) && h + HiWord(spv[h]) <= |spv|
    ensures var g := WordCells(newSpv, e, h, h + HiWord(spv[h]));
      |g| == HiWord(spv[h]) + HeadCount(e, h) && HiWord(g[0]) == |g| && LoWord(g[0]) == LoWord(newSpv[h])
  {
    var q := h + HiWord(spv[h]);
    HeadFacts(spv, h);
    WordCellsLength(newSpv, e, h, q);
    WordsInHead(spv, e, h);
    assert WordCells(newSpv, e, h, q)[0] == Patched(newSpv, e, h);
  }

  /** An OpDecorate that receives no word insert keeps its decoration
      operand. */
  lemma GrownOperand(spv: seq<u32>, newSpv: seq<u32>, e: seq<Insert>, h: nat)
    requires EditsValid(spv, newSpv, e) && NoOverflow(newSpv, e)
    requires Shaped(spv) && KeepsShape(spv, newSpv) && IsHead(spv, h)
    requires h + HiWord(spv[h]) <= |spv| && MinWords(LoWord(spv[h])) <= HiWord(spv[h])
    requires LoWord(newSpv[h]) == OpDecorate && HeadCount(e, h) == 0
    ensures var g := WordCells(newSpv, e, h, h + HiWord(spv[h]));
      2 < |g| && g[2] == spv[h + 2]
  {
    var q := h + HiWord(spv[h]);
    assert LoWord(spv[h]) == OpDecorate && h + 2 < q;
    ShapedIsWellFormed(spv);
    WordsInHead(spv, e, h);
    WordsInStep(e, h, q);
    WordsInStep(e, h + 1, q);
    assert WordsAt(e, h) == [] && WordsAt(e, h + 1) == [];
    var rest := WordCells(newSpv, e, h + 2, q);
    assert WordCells(newSpv, e, h, q) == [Patched(newSpv, e, h)] + ([Patched(newSpv, e, h + 1)] + rest);
    assert rest[0] == Patched(newSpv, e, h + 2);
    NoHeadCountInside(spv, e, h, h + 2);
    EncodeHiLo(newSpv[h + 2]);
  }

  lemma {:induction false} InstructionsShaped(spv: seq<u32>, e: seq<Insert>, p: int)
    requires PayloadsShaped(e)
    ensures Shaped(InstructionsAt(spv, e, p))
  {
    if e != [] {
      assert e[0] in e;
      assert forall x :: x in e[1..] ==> x in e;
      InstructionsShaped(spv, e[1..], p);
      var here := if e[0].Instruction? && InsertPos(spv, e[0]) == p then e[0].ins.instruction else [];
      ShapedConcat(here, InstructionsAt(spv, e[1..], p));
    }
  }

  /** The group an original instruction becomes is a shaped run. */
  lemma GroupShaped(spv: seq<u32>, newSpv: seq<u32>, e: seq<Insert>, h: nat, q: nat) returns (g: seq<u32>)
    requires EditsValid(spv, newSpv, e) && NoOverflow(newSpv, e)
    requires Shaped(spv) && KeepsShape(spv, newSpv) && PayloadsShaped(e)
    requires IsHead(spv, h) && q == h + HiWord(spv[h]) <= |spv|
    ensures Shaped(g) && IdealFrom(spv, newSpv, e, h) == g + IdealFrom(spv, newSpv, e, q)
  {
    var w, ins := WordCells(newSpv, e, h, q), InstructionsAt(spv, e, q - 1);
    Group(spv, newSpv, e, h, q);
    GrownShaped(spv, newSpv, e, h, q);
    InstructionsShaped(spv, e, q - 1);
    ShapedConcat(w, ins);
    g := w + ins;
  }

  lemma {:induction false} IdealShapedFrom(spv: seq<u32>, newSpv: seq<u32>, e: seq<Insert>, h: nat)
    requires EditsValid(spv, newSpv, e) && NoOverflow(newSpv, e)
    requires Shaped(spv) && KeepsShape(spv, newSpv) && PayloadsShaped(e)
    requires h == |spv| || IsHead(spv, h)
    ensures Shaped(IdealFrom(spv, newSpv, e, h))
    decreases |spv| - h
  {
    if h < |spv| {
      HeadFacts(spv, h);
      var q := h + HiWord(spv[h]);
      IdealShapedFrom(spv, newSpv, e, q);
      var g := GroupShaped(spv, newSpv, e, h, q);
      ShapedConcat(g, IdealFrom(spv, newSpv, e, q));
    } else {
      assert IdealFrom(spv, newSpv, e, h) == [];
    }
  }

  /** Applying valid edits to a rewrite that kept the shape of a shaped
      body, inserting shaped instructions, yields a shaped body. */
  lemma IdealShaped(spv: seq<u32>, newSpv: seq<u32>, e: seq<Insert>)
    requires EditsValid(spv, newSpv, e) && NoOverflow(newSpv, e)
    requires Shaped(spv) && KeepsShape(spv, newSpv) && PayloadsShaped(e)
    ensures Shaped(Ideal(spv, newSpv, e)) && WellFormed(Ideal(spv, newSpv, e))
  {
    IdealShapedFrom(spv, newSpv, e, 0);
    ShapedIsWellFormed(Ideal(spv, newSpv, e));
  }

  /** Word `p` is an operand of an instruction of `s` other than an
      OpDecorate. */
  ghost predicate PlainOperand(s: seq<u32>, p: nat)
  {
    exists h: nat :: IsHead(s, h) && h < p < h + HiWord(s[h]) && LoWord(s[h]) != OpDecorate
  }

  /** `t` is `s` with some heads turned into tombstones and some operands of
      instructions other than OpDecorate rewritten. */
  ghost predicate PlainWrites(s: seq<u32>, t: seq<u32>)
  {
    |t| == |s|
    && forall p: nat :: p < |s| && t[p] != s[p] ==>
         (IsHead(s, p) && t[p] == NopHead(s[p])) || PlainOperand(s, p)
  }

  /** Such rewrites keep the shape. */
  lemma PlainWritesKeepShape(s: seq<u32>, t: seq<u32>)
    requires Shaped(s) && PlainWrites(s, t)
    ensures KeepsShape(s, t)
  {
    ShapedIsWellFormed(s);
    forall h: nat | IsHead(s, h)
      ensures HiWord(t[h]) == HiWord(s[h])
      ensures LoWord(t[h]) == LoWord(s[h]) || LoWord(t[h]) == OpNop
      ensures LoWord(t[h]) == OpDecorate && h + 2 < |s| ==> t[h + 2] == s[h + 2]
    {
      HeadFacts(s, h);
      if t[h] != s[h] && !(t[h] == NopHead(s[h])) {
        var a: nat :| IsHead(s, a) && a < h < a + HiWord(s[a]) && LoWord(s[a]) != OpDecorate;
        InteriorIsNotHead(s, a, h);
      }
      if LoWord(t[h]) == OpDecorate && h + 2 < |s| && t[h + 2] != s[h + 2] {
        assert t[h] == s[h];
        ShapedHead(s, h);
        InteriorIsNotHead(s, h, h + 2);
        var a: nat :| IsHead(s, a) && a < h + 2 < a + HiWord(s[a]) && LoWord(s[a]) != OpDecorate;
        OneInstructionCovers(s, a, h, h + 2);
      }
    }
  }
}
