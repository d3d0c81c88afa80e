/** The edit engine's result is a well-formed body again: every original
    instruction, grown by the words inserted into it, is followed by the
    whole instructions anchored after it. */
module EditShape {
  import opened Spirv
  import opened Layout
  import opened Edits

  /** The current body keeps the word count of every original instruction. */
  ghost predicate CountsKept(spv: seq<u32>, newSpv: seq<u32>)
  {
    |newSpv| == |spv| && forall h: nat :: IsHead(spv, h) ==> HiWord(newSpv[h]) == HiWord(spv[h])
  }

  /** Every inserted instruction is itself a well-formed run of words. */
  predicate PayloadsWellFormed(e: seq<Insert>)
  {
    forall x :: x in e && x.Instruction? ==> WellFormed(x.ins.instruction)
  }

  /** Offset `p` of the reference result: the patched word and what follows it. */
  function Cell(spv: seq<u32>, newSpv: seq<u32>, e: seq<Insert>, p: nat): seq<u32>
    requires NoOverflow(newSpv, e) && p < |newSpv|
  {
    [Patched(newSpv, e, p)] + InsertedAt(spv, e, p)
  }

  /** The cells of offsets `p` up to `q`. */
  function Cells(spv: seq<u32>, newSpv: seq<u32>, e: seq<Insert>, p: nat, q: nat): seq<u32>
    requires NoOverflow(newSpv, e) && q <= |newSpv|
    decreases q - p
  {
    if p >= q then [] else Cell(spv, newSpv, e, p) + Cells(spv, newSpv, e, p + 1, q)
  }

  /** The cells of offsets `p` up to `q` without the instructions inserted
      after them. */
  function WordCells(newSpv: seq<u32>, e: seq<Insert>, p: nat, q: nat): seq<u32>
    requires NoOverflow(newSpv, e) && q <= |newSpv|
    decreases q - p
  {
    if p >= q then [] else [Patched(newSpv, e, p)] + WordsAt(e, p) + WordCells(newSpv, e, p + 1, q)
  }

  /** How many word inserts go after an offset in `[p, q)`. */
  function WordsIn(e: seq<Insert>, p: nat, q: nat): nat
  {
    if e == [] then 0
    else (if e[0].Word? && p <= e[0].w.idx < q then 1 else 0) + WordsIn(e[1..], p, q)
  }

  lemma {:induction false} IdealFromCells(spv: seq<u32>, newSpv: seq<u32>, e: seq<Insert>, p: nat, q: nat)
    requires NoOverflow(newSpv, e) && p <= q <= |newSpv|
    ensures IdealFrom(spv, newSpv, e, p) == Cells(spv, newSpv, e, p, q) + IdealFrom(spv, newSpv, e, q)
    decreases q - p
  {
    if p < q {
      IdealFromCells(spv, newSpv, e, p + 1, q);
      FoldFront(IdealFrom(spv, newSpv, e, p), IdealFrom(spv, newSpv, e, p + 1), Cells(spv, newSpv, e, p, q),
        Cell(spv, newSpv, e, p), Cells(spv, newSpv, e, p + 1, q), IdealFrom(spv, newSpv, e, q));
    } else {
      assert Cells(spv, newSpv, e, p, q) == [];
    }
  }

  lemma FoldFront(x: seq<u32>, y: seq<u32>, z: seq<u32>, c: seq<u32>, cs: seq<u32>, t: seq<u32>)
    requires x == c + y && z == c + cs && y == cs + t
    ensures x == z + t
  {
    Assoc(c, cs, t);
  }

  /** Inside an instruction, only its last offset is followed by inserted
      instructions. */
  lemma NoInstructionsInside(spv: seq<u32>, e: seq<Insert>, h: nat, p: nat)
    requires WellFormed(spv) && IsHead(spv, h) && h <= p < h + HiWord(spv[h]) - 1
    requires forall x :: x in e ==> InsertValid(spv, x)
    ensures InstructionsAt(spv, e, p) == []
  {
    forall x | x in e && x.Instruction? ensures InsertPos(spv, x) != p {
      var a := x.ins.previousSpvIdx;
      HeadFacts(spv, a);
      if a < h { HeadsApart(spv, a, h); }
      if h < a { HeadsApart(spv, h, a); }
    }
    NoInstructionsAt(spv, e, p);
  }

  lemma CellsStep(spv: seq<u32>, newSpv: seq<u32>, e: seq<Insert>, q: nat, p: nat)
    requires NoOverflow(newSpv, e) && p + 1 < q <= |newSpv|
    requires InstructionsAt(spv, e, p) == []
    requires Cells(spv, newSpv, e, p + 1, q) == WordCells(newSpv, e, p + 1, q) + InstructionsAt(spv, e, q - 1)
    ensures Cells(spv, newSpv, e, p, q) == WordCells(newSpv, e, p, q) + InstructionsAt(spv, e, q - 1)
  {
    var w := [Patched(newSpv, e, p)] + WordsAt(e, p);
    var wc, ins := WordCells(newSpv, e, p + 1, q), InstructionsAt(spv, e, q - 1);
    assert Cell(spv, newSpv, e, p) == w;
    assert Cells(spv, newSpv, e, p, q) == w + (wc + ins);
    assert WordCells(newSpv, e, p, q) == w + wc;
    Assoc(w, wc, ins);
  }

  lemma CellsLast(spv: seq<u32>, newSpv: seq<u32>, e: seq<Insert>, q: nat, p: nat)
    requires NoOverflow(newSpv, e) && p + 1 == q <= |newSpv|
    ensures Cells(spv, newSpv, e, p, q) == WordCells(newSpv, e, p, q) + InstructionsAt(spv, e, p)
  {
    var w := [Patched(newSpv, e, p)] + WordsAt(e, p);
    assert Cells(spv, newSpv, e, q, q) == [];
    assert WordCells(newSpv, e, q, q) == [];
    assert Cells(spv, newSpv, e, p, q) == Cell(spv, newSpv, e, p);
    assert WordCells(newSpv, e, p, q) == w;
  }

  lemma {:induction false} CellsOfInstruction(spv: seq<u32>, newSpv: seq<u32>, e: seq<Insert>, q: nat, p: nat)
    requires NoOverflow(newSpv, e) && p < q <= |newSpv|
    requires forall j :: p <= j < q - 1 ==> InstructionsAt(spv, e, j) == []
    ensures Cells(spv, newSpv, e, p, q) == WordCells(newSpv, e, p, q) + InstructionsAt(spv, e, q - 1)
    decreases q - p
  {
    if p + 1 < q {
      CellsOfInstruction(spv, newSpv, e, q, p + 1);
      CellsStep(spv, newSpv, e, q, p);
    } else {
      CellsLast(spv, newSpv, e, q, p);
    }
  }

  lemma {:induction false} WordsInStep(e: seq<Insert>, p: nat, q: nat)
    requires p < q
    ensures WordsIn(e, p, q) == |WordsAt(e, p)| + WordsIn(e, p + 1, q)
  {
    if e != [] {
      WordsInStep(e[1..], p, q);
    }
  }

  lemma {:induction false} WordCellsLength(newSpv: seq<u32>, e: seq<Insert>, p: nat, q: nat)
    requires NoOverflow(newSpv, e) && p <= q <= |newSpv|
    ensures |WordCells(newSpv, e, p, q)| == q - p + WordsIn(e, p, q)
    decreases q - p
  {
    if p < q {
      WordCellsLength(newSpv, e, p + 1, q);
      WordsInStep(e, p, q);
    } else {
      WordsInNone(e, p, q);
    }
  }

  lemma {:induction false} WordsInNone(e: seq<Insert>, p: nat, q: nat)
    requires q <= p
    ensures WordsIn(e, p, q) == 0
  {
    if e != [] {
      WordsInNone(e[1..], p, q);
    }
  }

  /** The word inserts after offsets of an instruction are exactly those
      that name it as their head. */
  lemma {:induction false} WordsInHead(spv: seq<u32>, e: seq<Insert>, h: nat)
    requires WellFormed(spv) && IsHead(spv, h)
    requires forall x :: x in e ==> InsertValid(spv, x)
    ensures WordsIn(e, h, h + HiWord(spv[h])) == HeadCount(e, h)
  {
    if e != [] {
      assert e[0] in e;
      assert forall x :: x in e[1..] ==> x in e;
      WordsInHead(spv, e[1..], h);
      if e[0].Word? {
        var a := e[0].w.headIdx;
        HeadFacts(spv, a);
        if a < h { HeadsApart(spv, a, h); }
        if h < a { HeadsApart(spv, h, a); }
      }
    }
  }

  lemma {:induction false} InstructionsWalk(spv: seq<u32>, e: seq<Insert>, p: int)
    requires PayloadsWellFormed(e)
    ensures WellFormed(InstructionsAt(spv, e, p))
  {
    if e != [] {
      assert e[0] in e;
      assert forall x :: x in e[1..] ==> x in e;
      InstructionsWalk(spv, e[1..], p);
      var here := if e[0].Instruction? && InsertPos(spv, e[0]) == p then e[0].ins.instruction else [];
      WalksConcat(here, InstructionsAt(spv, e[1..], p));
    }
  }

  /** One original instruction, grown by its word inserts, is a single
      instruction of the result. */
  lemma GrownInstruction(spv: seq<u32>, newSpv: seq<u32>, e: seq<Insert>, h: nat)
    requires EditsValid(spv, newSpv, e) && NoOverflow(newSpv, e) && CountsKept(spv, newSpv)
    requires IsHead(spv, h) && h + HiWord(spv[h]) <= |spv|
    ensures WellFormed(WordCells(newSpv, e, h, h + HiWord(spv[h])))
  {
    var q := h + HiWord(spv[h]);
    var g := WordCells(newSpv, e, h, q);
    HeadFacts(spv, h);
    WordCellsLength(newSpv, e, h, q);
    WordsInHead(spv, e, h);
    assert g[0] == Patched(newSpv, e, h);
    assert HiWord(g[0]) == |g|;
  }

  /** The part of the reference result that the instruction at `h`, ending
      before `q`, becomes: the instruction grown by its word inserts, then
      the instructions inserted after it. */
  lemma Group(spv: seq<u32>, newSpv: seq<u32>, e: seq<Insert>, h: nat, q: nat)
    requires EditsValid(spv, newSpv, e) && NoOverflow(newSpv, e) && IsHead(spv, h)
    requires q == h + HiWord(spv[h]) <= |spv|
    ensures IdealFrom(spv, newSpv, e, h)
      == WordCells(newSpv, e, h, q) + InstructionsAt(spv, e, q - 1) + IdealFrom(spv, newSpv, e, q)
  {
    HeadFacts(spv, h);
    IdealFromCells(spv, newSpv, e, h, q);
    forall j | h <= j < q - 1 ensures InstructionsAt(spv, e, j) == [] {
      NoInstructionsInside(spv, e, h, j);
    }
    CellsOfInstruction(spv, newSpv, e, q, h);
  }

  /** The group an original instruction becomes is a well-formed run. */
  lemma GroupWalks(spv: seq<u32>, newSpv: seq<u32>, e: seq<Insert>, h: nat, q: nat) returns (g: seq<u32>)
    requires EditsValid(spv, newSpv, e) && NoOverflow(newSpv, e)
    requires CountsKept(spv, newSpv) && PayloadsWellFormed(e)
    requires IsHead(spv, h) && q == h + HiWord(spv[h]) <= |spv|
    ensures WellFormed(g) && IdealFrom(spv, newSpv, e, h) == g + IdealFrom(spv, newSpv, e, q)
  {
    var w, ins := WordCells(newSpv, e, h, q), InstructionsAt(spv, e, q - 1);
    Group(spv, newSpv, e, h, q);
    GrownInstruction(spv, newSpv, e, h);
    InstructionsWalk(spv, e, q - 1);
    WalksConcat(w, ins);
    g := w + ins;
  }

  lemma {:induction false} IdealWalksFrom(spv: seq<u32>, newSpv: seq<u32>, e: seq<Insert>, h: nat)
    requires EditsValid(spv, newSpv, e) && NoOverflow(newSpv, e)
    requires CountsKept(spv, newSpv) && PayloadsWellFormed(e)
    requires h == |spv| || IsHead(spv, h)
    ensures WellFormed(IdealFrom(spv, newSpv, e, h))
    decreases |spv| - h
  {
    if h < |spv| {
      HeadFacts(spv, h);
      var q := h + HiWord(spv[h]);
      IdealWalksFrom(spv, newSpv, e, q);
      var g := GroupWalks(spv, newSpv, e, h, q);
      WalksConcat(g, IdealFrom(spv, newSpv, e, q));
    }
  }

  /** Applying valid edits to a body whose counts are unchanged, inserting
      well-formed instructions, yields a well-formed body. */
  lemma IdealWellFormed(spv: seq<u32>, newSpv: seq<u32>, e: seq<Insert>)
    requires EditsValid(spv, newSpv, e) && NoOverflow(newSpv, e)
    requires CountsKept(spv, newSpv) && PayloadsWellFormed(e)
    ensures WellFormed(Ideal(spv, newSpv, e))
  {
    IdealWalksFrom(spv, newSpv, e, 0);
  }
}
