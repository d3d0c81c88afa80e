/** The instruction layout of a module body: walking it by word counts,
    which offsets are instruction heads, the offsets a scan collects, and the
    operand counts the passes rely on. */
module Layout {
  import opened Spirv

  /** Walking from `i` by word counts never meets a zero count and stops
      exactly at the end of `s`. */
  predicate WalksFrom(s: seq<u32>, i: nat)
    decreases |s| - i
  {
    if i >= |s| then i == |s|
    else 1 <= HiWord(s[i]) && WalksFrom(s, i + HiWord(s[i]))
  }

  /** A body is well formed when the walk from its first word lands exactly
      on its end. */
  predicate WellFormed(s: seq<u32>)
  {
    WalksFrom(s, 0)
  }

  /** The walk from `i` passes through `h`. */
  predicate ReachesFrom(s: seq<u32>, i: nat, h: nat)
    decreases |s| - i
  {
    i == h || (i < h && i < |s| && 1 <= HiWord(s[i]) && ReachesFrom(s, i + HiWord(s[i]), h))
  }

  /** `h` is the offset of an instruction's first word. */
  predicate IsHead(s: seq<u32>, h: nat)
  {
    h < |s| && ReachesFrom(s, 0, h)
  }

  lemma WalksWithin(s: seq<u32>, i: nat)
    requires WalksFrom(s, i)
    ensures i <= |s|
  {
  }

  lemma {:induction false} WalkThroughHead(s: seq<u32>, i: nat, h: nat)
    requires WalksFrom(s, i) && ReachesFrom(s, i, h)
    ensures WalksFrom(s, h) && h <= |s|
    decreases |s| - i
  {
    if i != h {
      WalkThroughHead(s, i + HiWord(s[i]), h);
    }
  }

  /** The instruction at a head is non-empty, fits in the body, and the walk
      goes on after it. */
  lemma HeadFacts(s: seq<u32>, h: nat)
    requires WellFormed(s) && IsHead(s, h)
    ensures 1 <= HiWord(s[h]) && h + HiWord(s[h]) <= |s|
    ensures WalksFrom(s, h + HiWord(s[h]))
    ensures h + HiWord(s[h]) == |s| || IsHead(s, h + HiWord(s[h]))
  {
    WalkThroughHead(s, 0, h);
    WalkThroughHead(s, h + HiWord(s[h]), h + HiWord(s[h]));
    ReachesExtend(s, 0, h);
  }

  lemma {:induction false} ReachesExtend(s: seq<u32>, i: nat, h: nat)
    requires ReachesFrom(s, i, h) && h < |s| && 1 <= HiWord(s[h])
    ensures ReachesFrom(s, i, h + HiWord(s[h]))
    decreases |s| - i
  {
    if i != h {
      ReachesExtend(s, i + HiWord(s[i]), h);
    }
  }

  lemma {:induction false} ReachesTrans(s: seq<u32>, i: nat, j: nat, h: nat)
    requires ReachesFrom(s, i, j) && ReachesFrom(s, j, h)
    ensures ReachesFrom(s, i, h)
    decreases |s| - i
  {
    if i != j {
      ReachesTrans(s, i + HiWord(s[i]), j, h);
    }
  }

  lemma {:induction false} ApartFrom(s: seq<u32>, i: nat, a: nat, b: nat)
    requires ReachesFrom(s, i, a) && ReachesFrom(s, i, b) && a < b && a < |s|
    ensures a + HiWord(s[a]) <= b
    decreases |s| - i
  {
    if i == a {
      assert ReachesFrom(s, a + HiWord(s[a]), b);
      OrderOfReach(s, a + HiWord(s[a]), b);
    } else {
      ApartFrom(s, i + HiWord(s[i]), a, b);
    }
  }

  lemma OrderOfReach(s: seq<u32>, i: nat, h: nat)
    requires ReachesFrom(s, i, h)
    ensures i <= h
  {
  }

  /** Instructions never overlap: a later head starts at or after the end of
      an earlier one. */
  lemma HeadsApart(s: seq<u32>, a: nat, b: nat)
    requires IsHead(s, a) && IsHead(s, b) && a < b
    ensures a + HiWord(s[a]) <= b
  {
    ApartFrom(s, 0, a, b);
  }

  /** An offset lies inside at most one instruction. */
  lemma OneInstructionCovers(s: seq<u32>, a: nat, b: nat, j: nat)
    requires IsHead(s, a) && IsHead(s, b)
    requires a <= j < a + HiWord(s[a]) && b <= j < b + HiWord(s[b])
    ensures a == b
  {
    if a < b { HeadsApart(s, a, b); }
    if b < a { HeadsApart(s, b, a); }
  }

  /** An operand offset is never a head. */
  lemma InteriorIsNotHead(s: seq<u32>, a: nat, j: nat)
    requires IsHead(s, a) && a < j < a + HiWord(s[a])
    ensures !IsHead(s, j)
  {
    if IsHead(s, j) { HeadsApart(s, a, j); }
  }

  // ---------------------------------------------------------------------
  // Scans: the offsets a walk over the body collects

  /** What a scan collects: heads with one opcode, with one of several
      opcodes, or pointer types in the UniformConstant storage class. */
  datatype Selector = Opcode(op: u16) | Opcodes(ops: set<u16>) | UniformConstantPointer

  predicate Selects(s: seq<u32>, h: nat, sel: Selector)
    requires h < |s|
  {
    match sel
    case Opcode(op) => LoWord(s[h]) == op
    case Opcodes(ops) => LoWord(s[h]) in ops
    case UniformConstantPointer =>
      LoWord(s[h]) == OpTypePointer && h + 2 < |s| && s[h + 2] == StorageClassUniformConstant
  }

  /** The heads from `i` on that `sel` selects, in body order. */
  function Offsets(s: seq<u32>, i: nat, sel: Selector): (r: seq<nat>)
    requires WalksFrom(s, i)
    ensures forall k :: 0 <= k < |r| ==> i <= r[k] < |s| && Selects(s, r[k], sel)
    ensures forall k, l :: 0 <= k < l < |r| ==> r[k] < r[l]
    decreases |s| - i
  {
    if i >= |s| then []
    else (if Selects(s, i, sel) then [i] else []) + Offsets(s, i + HiWord(s[i]), sel)
  }

  lemma {:induction false} OffsetsReached(s: seq<u32>, i: nat, sel: Selector, h: nat)
    requires WalksFrom(s, i)
    ensures h in Offsets(s, i, sel) <==> (h < |s| && ReachesFrom(s, i, h) && Selects(s, h, sel))
    decreases |s| - i
  {
    if i < |s| {
      var n := i + HiWord(s[i]);
      OffsetsReached(s, n, sel, h);
      if h in Offsets(s, n, sel) {
        assert i < h;
      }
      if h != i && ReachesFrom(s, i, h) {
        assert ReachesFrom(s, n, h);
      }
    }
  }

  /** A scan of the whole body collects exactly the selected heads. */
  lemma OffsetsAreHeads(s: seq<u32>, sel: Selector, h: nat)
    requires WellFormed(s)
    ensures h in Offsets(s, 0, sel) <==> (IsHead(s, h) && Selects(s, h, sel))
  {
    OffsetsReached(s, 0, sel, h);
  }

  /** Every offset in `idxs` has its operand word `n` inside `s`. */
  predicate OperandsAt(s: seq<u32>, idxs: seq<nat>, n: nat)
  {
    forall k :: 0 <= k < |idxs| ==> idxs[k] + n < |s|
  }

  /** Offsets in strictly increasing order, as a scan collects them. */
  predicate Increasing(idxs: seq<nat>)
  {
    forall j, k :: 0 <= j < k < |idxs| ==> idxs[j] < idxs[k]
  }

  // ---------------------------------------------------------------------
  // Operand counts

  /** The operand words the passes read from an instruction, plus its first
      word.  Decorations that carry a Binding or DescriptorSet also need
      their literal, which `InstrShaped` asks for separately. */
  function MinWords(op: u16): nat
  {
    if op == OpTypeImage then 6
    else if op == OpTypeSampler then 2
    else if op == OpTypeSampledImage || op == OpTypeFunction || op == OpFunctionParameter
      || op == OpDecorate then 3
    else if op == OpTypePointer || op == OpVariable || op == OpLoad || op == OpFunctionCall
      || op == OpSampledImage then 4
    else if op == OpFunction || IsSamplingOp(op) then 5
    else 1
  }

  predicate IsSamplingOp(op: u16)
  {
    op == OpImageSampleImplicitLod || op == OpImageSampleExplicitLod
    || op == OpImageSampleDrefImplicitLod || op == OpImageSampleDrefExplicitLod
    || op == OpImageSampleProjImplicitLod || op == OpImageSampleProjExplicitLod
    || op == OpImageSampleProjDrefImplicitLod || op == OpImageSampleProjDrefExplicitLod
    || op == OpImageGather || op == OpImageDrefGather
    || op == OpImageSparseSampleImplicitLod || op == OpImageSparseSampleExplicitLod
    || op == OpImageSparseSampleDrefImplicitLod || op == OpImageSparseSampleDrefExplicitLod
    || op == OpImageSparseGather || op == OpImageSparseDrefGather
  }

  /** A sampling operation has at least five words: its count and opcode,
      result type, result, sampled image and coordinate. */
  lemma SamplingMinWords(op: u16)
    requires IsSamplingOp(op)
    ensures MinWords(op) == 5
  {
  }

  predicate IsBindingOrSet(w: u32)
  {
    w == DecorationBinding || w == DecorationDescriptorSet
  }

  /** One instruction whose first word gives its own length and which holds
      every operand the passes read. */
  predicate InstrShaped(ins: seq<u32>)
  {
    |ins| >= 1 && HiWord(ins[0]) == |ins| && |ins| >= MinWords(LoWord(ins[0]))
    && (LoWord(ins[0]) == OpDecorate && IsBindingOrSet(ins[2]) ==> |ins| >= 4)
  }

  predicate ShapedFrom(s: seq<u32>, i: nat)
    decreases |s| - i
  {
    if i >= |s| then i == |s|
    else
      (1 <= HiWord(s[i]) && i + HiWord(s[i]) <= |s|
       && InstrShaped(s[i..i + HiWord(s[i])]) && ShapedFrom(s, i + HiWord(s[i])))
  }

  /** Well formed, and every instruction holds the operands the passes read. */
  predicate Shaped(s: seq<u32>)
  {
    ShapedFrom(s, 0)
  }

  lemma {:induction false} ShapedFromWalks(s: seq<u32>, i: nat)
    requires ShapedFrom(s, i)
    ensures WalksFrom(s, i)
    decreases |s| - i
  {
    if i < |s| {
      ShapedFromWalks(s, i + HiWord(s[i]));
    }
  }

  lemma ShapedIsWellFormed(s: seq<u32>)
    requires Shaped(s)
    ensures WellFormed(s)
  {
    ShapedFromWalks(s, 0);
  }

  lemma {:induction false} ShapedThroughHead(s: seq<u32>, i: nat, h: nat)
    requires ShapedFrom(s, i) && ReachesFrom(s, i, h) && h < |s|
    ensures h + HiWord(s[h]) <= |s| && InstrShaped(s[h..h + HiWord(s[h])])
    decreases |s| - i
  {
    if i != h {
      ShapedThroughHead(s, i + HiWord(s[i]), h);
    }
  }

  /** At every head of a shaped body the operands the passes read exist. */
  lemma ShapedHead(s: seq<u32>, h: nat)
    requires Shaped(s) && IsHead(s, h)
    ensures h + HiWord(s[h]) <= |s|
    ensures MinWords(LoWord(s[h])) <= HiWord(s[h])
    ensures LoWord(s[h]) == OpDecorate && IsBindingOrSet(s[h + 2]) ==> 4 <= HiWord(s[h])
  {
    ShapedThroughHead(s, 0, h);
    assert s[h..h + HiWord(s[h])][0] == s[h];
    if LoWord(s[h]) == OpDecorate {
      assert s[h..h + HiWord(s[h])][2] == s[h + 2];
    }
  }

  /** Every selected offset of a shaped body has MinWords operands. */
  lemma ShapedOffset(s: seq<u32>, sel: Selector, h: nat)
    requires Shaped(s) && WellFormed(s) && h in Offsets(s, 0, sel)
    ensures IsHead(s, h) && h + MinWords(LoWord(s[h])) <= h + HiWord(s[h]) <= |s|
    ensures LoWord(s[h]) == OpDecorate && IsBindingOrSet(s[h + 2]) ==> 4 <= HiWord(s[h])
  {
    ShapedIsWellFormed(s);
    OffsetsAreHeads(s, sel, h);
    ShapedHead(s, h);
  }

  // ---------------------------------------------------------------------
  // Concatenation

  lemma {:induction false} ShapedShift(p: seq<u32>, b: seq<u32>, j: nat)
    requires ShapedFrom(b, j)
    ensures ShapedFrom(p + b, |p| + j)
    decreases |b| - j
  {
    if j < |b| {
      var c := HiWord(b[j]);
      assert (p + b)[|p| + j] == b[j];
      assert (p + b)[|p| + j..|p| + j + c] == b[j..j + c];
      ShapedShift(p, b, j + c);
    }
  }

  lemma {:induction false} ShapedConcatFrom(a: seq<u32>, b: seq<u32>, i: nat)
    requires ShapedFrom(a, i) && Shaped(b)
    ensures ShapedFrom(a + b, i)
    decreases |a| - i
  {
    if i == |a| {
      ShapedShift(a, b, 0);
    } else {
      var c := HiWord(a[i]);
      assert (a + b)[i] == a[i];
      assert (a + b)[i..i + c] == a[i..i + c];
      ShapedConcatFrom(a, b, i + c);
    }
  }

  /** Two shaped bodies laid end to end form a shaped body. */
  lemma ShapedConcat(a: seq<u32>, b: seq<u32>)
    requires Shaped(a) && Shaped(b)
    ensures Shaped(a + b)
  {
    ShapedConcatFrom(a, b, 0);
  }

  lemma {:induction false} WalksShift(p: seq<u32>, b: seq<u32>, j: nat)
    requires WalksFrom(b, j)
    ensures WalksFrom(p + b, |p| + j)
    decreases |b| - j
  {
    if j < |b| {
      assert (p + b)[|p| + j] == b[j];
      WalksShift(p, b, j + HiWord(b[j]));
    }
  }

  lemma {:induction false} WalksConcatFrom(a: seq<u32>, b: seq<u32>, i: nat)
    requires WalksFrom(a, i) && WellFormed(b)
    ensures WalksFrom(a + b, i)
    decreases |a| - i
  {
    if i == |a| {
      WalksShift(a, b, 0);
    } else {
      assert (a + b)[i] == a[i];
      WalksConcatFrom(a, b, i + HiWord(a[i]));
    }
  }

  /** Two well-formed bodies laid end to end form a well-formed body. */
  lemma WalksConcat(a: seq<u32>, b: seq<u32>)
    requires WellFormed(a) && WellFormed(b)
    ensures WellFormed(a + b)
  {
    WalksConcatFrom(a, b, 0);
  }

  // ---------------------------------------------------------------------
  // Rewriting words in place

  /** `t` keeps the word count of every instruction of `s`, keeps or
      tombstones each opcode, and keeps the decoration kind of every
      OpDecorate. */
  ghost predicate KeepsShape(s: seq<u32>, t: seq<u32>)
  {
    |s| == |t|
    && forall h: nat :: IsHead(s, h) ==>
         HiWord(t[h]) == HiWord(s[h])
         && (LoWord(t[h]) == LoWord(s[h]) || LoWord(t[h]) == OpNop)
         && (LoWord(t[h]) == OpDecorate && h + 2 < |s| ==> t[h + 2] == s[h + 2])
  }

  lemma {:induction false} KeepsShapeFrom(s: seq<u32>, t: seq<u32>, i: nat)
    requires KeepsShape(s, t) && ShapedFrom(s, i) && (i == |s| || IsHead(s, i))
    ensures ShapedFrom(t, i)
    ensures forall h :: ReachesFrom(s, i, h) ==> ReachesFrom(t, i, h)
    ensures forall h :: ReachesFrom(t, i, h) ==> ReachesFrom(s, i, h)
    decreases |s| - i
  {
    if i < |s| {
      var c := HiWord(s[i]);
      assert HiWord(t[i]) == c;
      var a, b := s[i..i + c], t[i..i + c];
      assert a[0] == s[i] && b[0] == t[i];
      if LoWord(b[0]) == OpDecorate {
        assert LoWord(a[0]) == OpDecorate;
        assert a[2] == s[i + 2] && b[2] == t[i + 2];
      }
      assert InstrShaped(b);
      ShapedThroughHead(s, i, i);
      ReachesExtend(s, 0, i);
      if i + c < |s| {
        KeepsShapeFrom(s, t, i + c);
      }
      forall h | ReachesFrom(t, i, h) ensures ReachesFrom(s, i, h) {
        if h != i { assert ReachesFrom(t, i + c, h); }
      }
    }
  }

  /** Rewrites that keep word counts, opcodes (or tombstone them) and
      decoration kinds keep a shaped body shaped, with the same heads. */
  lemma KeepsShapeShaped(s: seq<u32>, t: seq<u32>)
    requires KeepsShape(s, t) && Shaped(s)
    ensures Shaped(t)
    ensures forall h :: IsHead(s, h) <==> IsHead(t, h)
  {
    KeepsShapeFrom(s, t, 0);
  }

  /** Writing an operand word of an instruction other than an OpDecorate
      keeps the shape. */
  lemma WriteOperand(s: seq<u32>, h: nat, j: nat, v: u32)
    requires Shaped(s) && IsHead(s, h) && h < j < h + HiWord(s[h])
    requires LoWord(s[h]) != OpDecorate
    ensures j < |s| && KeepsShape(s, s[j := v])
  {
    ShapedIsWellFormed(s);
    HeadFacts(s, h);
    forall d: nat | IsHead(s, d)
      ensures HiWord(s[j := v][d]) == HiWord(s[d]) && LoWord(s[j := v][d]) == LoWord(s[d])
      ensures LoWord(s[d]) == OpDecorate && d + 2 < |s| ==> s[j := v][d + 2] == s[d + 2]
    {
      InteriorIsNotHead(s, h, j);
      if LoWord(s[d]) == OpDecorate && d + 2 == j {
        ShapedHead(s, d);
        OneInstructionCovers(s, h, d, j);
      }
    }
  }

  /** Turning an instruction into an OpNop of the same length keeps the
      shape. */
  lemma WriteTombstone(s: seq<u32>, h: nat)
    requires Shaped(s) && IsHead(s, h)
    ensures KeepsShape(s, s[h := NopHead(s[h])])
  {
    forall d: nat | IsHead(s, d)
      ensures LoWord(s[h := NopHead(s[h])][d]) == OpDecorate && d + 2 < |s|
        ==> s[h := NopHead(s[h])][d + 2] == s[d + 2]
    {
      if d != h && LoWord(s[d]) == OpDecorate && d + 2 == h {
        ShapedIsWellFormed(s);
        ShapedHead(s, d);
        InteriorIsNotHead(s, d, h);
      }
    }
  }

  lemma KeepsShapeTrans(s: seq<u32>, t: seq<u32>, u: seq<u32>)
    requires Shaped(s) && KeepsShape(s, t) && KeepsShape(t, u)
    ensures KeepsShape(s, u)
  {
    KeepsShapeShaped(s, t);
    forall h: nat | IsHead(s, h)
      ensures LoWord(u[h]) == OpDecorate && h + 2 < |s| ==> u[h + 2] == s[h + 2]
    {
      assert IsHead(t, h);
    }
  }

  // ---------------------------------------------------------------------
  // The body as a list of instructions

  /** The instructions from `i` on, each as its own word sequence. */
  function Instructions(s: seq<u32>, i: nat): seq<seq<u32>>
    requires WalksFrom(s, i)
    decreases |s| - i
  {
    if i >= |s| then []
    else
      WalksWithin(s, i + HiWord(s[i]));
      [s[i..i + HiWord(s[i])]] + Instructions(s, i + HiWord(s[i]))
  }

  function Flatten(l: seq<seq<u32>>): seq<u32>
  {
    if l == [] then [] else l[0] + Flatten(l[1..])
  }

  /** Cutting a body into its instructions loses and reorders nothing. */
  lemma {:induction false} FlattenInstructions(s: seq<u32>, i: nat)
    requires WalksFrom(s, i)
    ensures i <= |s| && Flatten(Instructions(s, i)) == s[i..]
    decreases |s| - i
  {
    if i < |s| {
      var n := i + HiWord(s[i]);
      FlattenInstructions(s, n);
      var l := Instructions(s, i);
      assert l == [s[i..n]] + Instructions(s, n);
      assert l[0] == s[i..n] && l[1..] == Instructions(s, n);
      assert Flatten(l) == s[i..n] + Flatten(Instructions(s, n));
      assert s[i..] == s[i..n] + s[n..];
    }
  }

  lemma {:induction false} InstructionsShift(p: seq<u32>, b: seq<u32>, j: nat)
    requires WalksFrom(b, j)
    ensures WalksFrom(p + b, |p| + j) && Instructions(p + b, |p| + j) == Instructions(b, j)
    decreases |b| - j
  {
    WalksShift(p, b, j);
    if j < |b| {
      var c := HiWord(b[j]);
      var s, k := p + b, |p| + j;
      assert s[k] == b[j];
      WalksWithin(b, j + c);
      assert s[k..k + c] == b[j..j + c];
      InstructionsShift(p, b, j + c);
      assert Instructions(s, k) == [s[k..k + c]] + Instructions(s, k + c);
    }
  }

  /** One instruction in front of a well-formed body adds exactly one
      instruction in front of its list. */
  lemma InstructionsPrepend(a: seq<u32>, b: seq<u32>)
    requires |a| >= 1 && HiWord(a[0]) == |a| && WellFormed(b)
    ensures WellFormed(a + b) && Instructions(a + b, 0) == [a] + Instructions(b, 0)
  {
    InstructionsShift(a, b, 0);
    assert (a + b)[0] == a[0];
    assert (a + b)[0..|a|] == a;
  }
}
