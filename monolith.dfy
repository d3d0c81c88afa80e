/** Four steps of the earlier one-piece version of the combined
    image-sampler split in src/lib.rs, where they differ from the version
    split into helpers: its scan overwrites every word of every
    OpTypeSampler with the one-word OpNop; it unwraps the first OpTypeImage
    with no early return for a module without one (the unwrap fails as
    `MissingTypeImage`) and anchors the sampler type pair there rather than
    after the last OpTypeVoid; its decoration step collects Binding
    literals as the descriptor sets to correct; and its last step drops
    words rather than instructions.  It differs in two more places that
    are not modelled: the pointer step adds, after every matched
    OpTypePointer, a further OpTypePointer to the underlying image with an
    id of its own, and the binding fix-up shifts ties by the increment
    alone, without comparing ids.  The pass is not composed from its
    steps, so no property of its whole output is stated here. */
module Monolith {
  import opened Spirv
  import opened Outcome
  import opened Layout
  import opened Edits
  import opened Assemble
  import opened Variable
  import opened CombinedDecorate
  import SplitCombined

  // ---------------------------------------------------------------------
  // Step 1: the samplers blanked word by word

  /** `c` one-word OpNop instructions. */
  function Nops(c: nat): (r: seq<u32>)
    ensures |r| == c
  {
    if c == 0 then [] else [NopWord] + Nops(c - 1)
  }

  lemma {:induction false} NopsAt(c: nat, k: nat)
    requires k < c
    ensures Nops(c)[k] == NopWord
  {
    if k > 0 {
      NopsAt(c - 1, k - 1);
    }
  }

  /** The instruction at `i`, overwritten by OpNop words when it is an
      OpTypeSampler. */
  function BlankPiece(s: seq<u32>, i: nat): seq<u32>
    requires i < |s| && i + HiWord(s[i]) <= |s|
  {
    if LoWord(s[i]) == OpTypeSampler then Nops(HiWord(s[i])) else s[i..i + HiWord(s[i])]
  }

  /** The body from `i` on with every OpTypeSampler overwritten by OpNop
      words, word count for word count. */
  function BlankFrom(s: seq<u32>, i: nat): (r: seq<u32>)
    requires WalksFrom(s, i)
    ensures i <= |s| && |r| == |s| - i
    decreases |s| - i
  {
    if i >= |s| then []
    else
      var c := HiWord(s[i]);
      WalksWithin(s, i + c);
      BlankPiece(s, i) + BlankFrom(s, i + c)
  }

  /** One step of the walk: the piece at `i`, then the rest. */
  lemma BlankStep(s: seq<u32>, i: nat)
    requires WalksFrom(s, i) && i < |s|
    ensures i + HiWord(s[i]) <= |s| && WalksFrom(s, i + HiWord(s[i]))
    ensures |BlankPiece(s, i)| == HiWord(s[i])
    ensures BlankFrom(s, i) == BlankPiece(s, i) + BlankFrom(s, i + HiWord(s[i]))
  {
    WalksWithin(s, i + HiWord(s[i]));
  }

  /** Word `p` belongs to an OpTypeSampler that the walk from `i` meets. */
  ghost predicate SamplerCovers(s: seq<u32>, i: nat, p: nat)
  {
    exists h: nat {:trigger ReachesFrom(s, i, h)} :: ReachesFrom(s, i, h) && h < |s| && LoWord(s[h]) == OpTypeSampler && h <= p < h + HiWord(s[h])
  }

  /** Inside the instruction at `i`, a word is covered exactly when that
      instruction is an OpTypeSampler. */
  lemma CoversHere(s: seq<u32>, i: nat, p: nat)
    requires WalksFrom(s, i) && i <= p < |s| && p < i + HiWord(s[i])
    ensures SamplerCovers(s, i, p) <==> LoWord(s[i]) == OpTypeSampler
  {
    if LoWord(s[i]) == OpTypeSampler {
      assert ReachesFrom(s, i, i);
    } else if SamplerCovers(s, i, p) {
      var h: nat :| ReachesFrom(s, i, h) && h < |s| && LoWord(s[h]) == OpTypeSampler && h <= p < h + HiWord(s[h]);
      OrderOfReach(s, i + HiWord(s[i]), h);
    }
  }

  /** Past the instruction at `i`, a word is covered from `i` exactly when
      it is covered from the next instruction. */
  lemma CoversLater(s: seq<u32>, i: nat, p: nat)
    requires WalksFrom(s, i) && i < |s| && i + HiWord(s[i]) <= p
    ensures SamplerCovers(s, i, p) <==> SamplerCovers(s, i + HiWord(s[i]), p)
  {
    var c := HiWord(s[i]);
    if SamplerCovers(s, i, p) {
      var h: nat :| ReachesFrom(s, i, h) && h < |s| && LoWord(s[h]) == OpTypeSampler && h <= p < h + HiWord(s[h]);
      assert h != i;
      assert ReachesFrom(s, i + c, h);
    }
    if SamplerCovers(s, i + c, p) {
      var h: nat :| ReachesFrom(s, i + c, h) && h < |s| && LoWord(s[h]) == OpTypeSampler && h <= p < h + HiWord(s[h]);
      OrderOfReach(s, i + c, h);
      assert ReachesFrom(s, i, h);
    }
  }

  /** Inside the piece at `i`: the OpNop word in a sampler, else the word. */
  lemma BlankedPiece(s: seq<u32>, i: nat, p: nat)
    requires WalksFrom(s, i) && i <= p < |s| && p < i + HiWord(s[i])
    ensures BlankFrom(s, i)[p - i] == if LoWord(s[i]) == OpTypeSampler then NopWord else s[p]
  {
    BlankStep(s, i);
    if LoWord(s[i]) == OpTypeSampler {
      NopsAt(HiWord(s[i]), p - i);
    }
  }

  lemma BlankedHere(s: seq<u32>, i: nat, p: nat)
    requires WalksFrom(s, i) && i <= p < |s| && p < i + HiWord(s[i])
    ensures BlankFrom(s, i)[p - i] == if SamplerCovers(s, i, p) then NopWord else s[p]
  {
    CoversHere(s, i, p);
    BlankedPiece(s, i, p);
  }

  /** Past the piece at `i`: what the rest of the walk gives. */
  lemma BlankedLater(s: seq<u32>, i: nat, p: nat)
    requires WalksFrom(s, i) && i < |s| && i + HiWord(s[i]) <= p < |s|
    requires BlankFrom(s, i + HiWord(s[i]))[p - (i + HiWord(s[i]))]
      == if SamplerCovers(s, i + HiWord(s[i]), p) then NopWord else s[p]
    ensures BlankFrom(s, i)[p - i] == if SamplerCovers(s, i, p) then NopWord else s[p]
  {
    CoversLater(s, i, p);
    BlankStep(s, i);
  }

  /** Every word of every OpTypeSampler becomes the OpNop word, and every
      other word is kept. */
  lemma {:induction false} BlankedAt(s: seq<u32>, i: nat, p: nat)
    requires WalksFrom(s, i) && i <= p < |s|
    ensures BlankFrom(s, i)[p - i] == if SamplerCovers(s, i, p) then NopWord else s[p]
    decreases |s| - i
  {
    if p < i + HiWord(s[i]) {
      BlankedHere(s, i, p);
    } else {
      BlankedAt(s, i + HiWord(s[i]), p);
      BlankedLater(s, i, p);
    }
  }

  /** A well-formed body is determined by its instructions. */
  lemma SameInstructions(x: seq<u32>, y: seq<u32>)
    requires WellFormed(x) && WellFormed(y) && Instructions(x, 0) == Instructions(y, 0)
    ensures x == y
  {
    FlattenInstructions(x, 0);
    FlattenInstructions(y, 0);
    assert x[0..] == x && y[0..] == y;
  }

  /** Pruning is unchanged by words in front of the walk. */
  lemma PruneShift(p: seq<u32>, b: seq<u32>, j: nat)
    requires WalksFrom(b, j)
    ensures WalksFrom(p + b, |p| + j) && PruneFrom(p + b, |p| + j) == PruneFrom(b, j)
  {
    InstructionsShift(p, b, j);
    PruneKeepsLive(p + b, |p| + j);
    PruneKeepsLive(b, j);
    SameInstructions(PruneFrom(p + b, |p| + j), PruneFrom(b, j));
  }

  lemma SliceBefore(a: seq<u32>, b: seq<u32>, i: nat, c: nat)
    requires i < |a| && i + c <= |a|
    ensures (a + b)[i] == a[i] && (a + b)[i..i + c] == a[i..i + c]
  {
  }

  /** Pruning two well-formed bodies laid end to end prunes each. */
  lemma {:induction false} PruneConcat(a: seq<u32>, b: seq<u32>, i: nat)
    requires WalksFrom(a, i) && WellFormed(b)
    ensures WalksFrom(a + b, i) && PruneFrom(a + b, i) == PruneFrom(a, i) + PruneFrom(b, 0)
    decreases |a| - i
  {
    WalksConcatFrom(a, b, i);
    if i == |a| {
      PruneShift(a, b, 0);
      assert PruneFrom(a, i) == [];
    } else {
      var c := HiWord(a[i]);
      PruneStep(a, i, c);
      PruneConcat(a, b, i + c);
      var piece, rest := a[i..i + c], PruneFrom(a, i + c);
      SliceBefore(a, b, i, c);
      PruneStep(a + b, i, c);
      Assoc(piece, rest, PruneFrom(b, 0));
    }
  }

  /** A run of OpNop words is well formed and prunes to nothing. */
  lemma {:induction false} NopsPrune(c: nat)
    ensures WellFormed(Nops(c)) && PruneFrom(Nops(c), 0) == []
  {
    if c > 0 {
      NopsPrune(c - 1);
      var s := Nops(c);
      assert s == [NopWord] + Nops(c - 1);
      PruneShift([NopWord], Nops(c - 1), 0);
    }
  }

  /** The instructions from `i` on that are neither OpNop nor OpTypeSampler,
      in order. */
  function SamplerFree(s: seq<u32>, i: nat): seq<u32>
    requires WalksFrom(s, i)
    decreases |s| - i
  {
    if i >= |s| then []
    else
      var c := HiWord(s[i]);
      WalksWithin(s, i + c);
      (if LoWord(s[i]) == OpTypeSampler || LoWord(s[i]) == OpNop then [] else s[i..i + c]) + SamplerFree(s, i + c)
  }

  /** The blanked body is well formed, and pruning it drops exactly the
      samplers and the tombstones, keeping every other instruction whole and
      in order. */
  lemma {:induction false} BlankedPrunes(s: seq<u32>, i: nat)
    requires WalksFrom(s, i)
    ensures WellFormed(BlankFrom(s, i)) && PruneFrom(BlankFrom(s, i), 0) == SamplerFree(s, i)
    decreases |s| - i
  {
    if i < |s| {
      var c := HiWord(s[i]);
      WalksWithin(s, i + c);
      BlankedPrunes(s, i + c);
      var rest := BlankFrom(s, i + c);
      assert BlankFrom(s, i) == BlankPiece(s, i) + rest;
      if LoWord(s[i]) == OpTypeSampler {
        NopsPrune(c);
        PruneConcat(Nops(c), rest, 0);
      } else {
        var piece := s[i..i + c];
        assert piece[0] == s[i] && WalksFrom(piece, c);
        PruneConcat(piece, rest, 0);
        assert PruneFrom(piece, c) == [];
      }
    }
  }

  /** `r` with the words `from` to `to` set to the OpNop word. */
  function Filled(r: seq<u32>, from: nat, to: nat): seq<u32>
    requires from <= to <= |r|
  {
    r[..from] + Nops(to - from) + r[to..]
  }

  lemma FilledAt(r: seq<u32>, from: nat, to: nat, p: nat)
    requires from <= to <= |r| && p < |r|
    ensures |Filled(r, from, to)| == |r|
    ensures Filled(r, from, to)[p] == if from <= p < to then NopWord else r[p]
  {
    if from <= p < to {
      NopsAt(to - from, p - from);
    }
  }

  /** `fill(SPV_NOP_WORD)` on the words `from` to `to`. */
  method Fill(s: seq<u32>, from: nat, to: nat) returns (r: seq<u32>)
    requires from <= to <= |s|
    ensures r == Filled(s, from, to)
  {
    r := s;
    var k := from;
    while k < to
      invariant from <= k <= to && |r| == |s|
      invariant forall p :: 0 <= p < |s| && (p < from || k <= p) ==> r[p] == s[p]
      invariant forall p :: from <= p < k ==> r[p] == NopWord
    {
      r := r[k := NopWord];
      k := k + 1;
    }
    forall p | 0 <= p < |s| ensures r[p] == Filled(s, from, to)[p] {
      FilledAt(s, from, to, p);
    }
  }

  /** Inside an instruction, a word is covered from the start of the body
      exactly when that instruction is an OpTypeSampler. */
  lemma CoversHead(s: seq<u32>, h: nat, p: nat)
    requires IsHead(s, h) && h <= p < h + HiWord(s[h])
    ensures SamplerCovers(s, 0, p) <==> LoWord(s[h]) == OpTypeSampler
  {
    if SamplerCovers(s, 0, p) {
      var a: nat :| ReachesFrom(s, 0, a) && a < |s| && LoWord(s[a]) == OpTypeSampler && a <= p < a + HiWord(s[a]);
      OneInstructionCovers(s, a, h, p);
    }
  }

  /** `t` holds the blanked body before `i` and the original from `i` on. */
  ghost predicate BlankedUpTo(body: seq<u32>, i: nat, t: seq<u32>)
    requires WellFormed(body)
  {
    |t| == |body| && forall p :: 0 <= p < |body| ==> t[p] == if p < i then BlankFrom(body, 0)[p] else body[p]
  }

  /** Inside an instruction of the body, the blanked word is the OpNop word
      exactly when the instruction is an OpTypeSampler. */
  lemma BlankedInside(body: seq<u32>, i: nat, p: nat, b: seq<u32>)
    requires WellFormed(body) && IsHead(body, i) && i <= p < i + HiWord(body[i])
    requires b == BlankFrom(body, 0)
    ensures p < |b| && b[p] == if LoWord(body[i]) == OpTypeSampler then NopWord else body[p]
  {
    HeadFacts(body, i);
    CoversHead(body, i, p);
    BlankedAt(body, 0, p);
  }

  /** Filling the instruction at `i` when it is an OpTypeSampler makes each
      of its words the OpNop word and keeps every other word. */
  lemma FilledWord(body: seq<u32>, i: nat, t: seq<u32>, t': seq<u32>, p: nat)
    requires i < |body| && i + HiWord(body[i]) <= |body|
    requires |t| == |body| && p < |body|
    requires i <= p < i + HiWord(body[i]) ==> t[p] == body[p]
    requires t' == if LoWord(body[i]) == OpTypeSampler then Filled(t, i, i + HiWord(body[i])) else t
    ensures |t'| == |body|
    ensures t'[p] == if i <= p < i + HiWord(body[i]) && LoWord(body[i]) == OpTypeSampler then NopWord else t[p]
  {
    if LoWord(body[i]) == OpTypeSampler {
      FilledAt(t, i, i + HiWord(body[i]), p);
    }
  }

  /** So the blanked prefix moves past the instruction at `i`. */
  lemma BlankedUpToStep(body: seq<u32>, i: nat, t: seq<u32>, t': seq<u32>)
    requires WellFormed(body) && IsHead(body, i) && BlankedUpTo(body, i, t)
    requires i + HiWord(body[i]) <= |body|
    requires t' == if LoWord(body[i]) == OpTypeSampler then Filled(t, i, i + HiWord(body[i])) else t
    ensures BlankedUpTo(body, i + HiWord(body[i]), t')
  {
    forall p | 0 <= p < |body|
      ensures t'[p] == if p < i + HiWord(body[i]) then BlankFrom(body, 0)[p] else body[p]
    {
      FilledWord(body, i, t, t', p);
      if i <= p < i + HiWord(body[i]) {
        BlankedInside(body, i, p, BlankFrom(body, 0));
      }
    }
  }

  /** Past an OpTypeSampler, once it is filled. */
  lemma BlankedFill(body: seq<u32>, i: nat, t: seq<u32>)
    requires WellFormed(body) && IsHead(body, i) && BlankedUpTo(body, i, t)
    requires LoWord(body[i]) == OpTypeSampler
    ensures i + HiWord(body[i]) <= |body| && BlankedUpTo(body, i + HiWord(body[i]), Filled(t, i, i + HiWord(body[i])))
  {
    HeadFacts(body, i);
    BlankedUpToStep(body, i, t, Filled(t, i, i + HiWord(body[i])));
  }

  /** Past any other instruction, which stays as it is. */
  lemma BlankedSkip(body: seq<u32>, i: nat, t: seq<u32>)
    requires WellFormed(body) && IsHead(body, i) && BlankedUpTo(body, i, t)
    requires LoWord(body[i]) != OpTypeSampler
    ensures BlankedUpTo(body, i + HiWord(body[i]), t)
  {
    HeadFacts(body, i);
    BlankedUpToStep(body, i, t, t);
  }

  /** At the end of the walk the whole body is blanked. */
  lemma BlankedAll(body: seq<u32>, t: seq<u32>)
    requires WellFormed(body) && BlankedUpTo(body, |body|, t)
    ensures t == BlankFrom(body, 0)
  {
  }

  /** What the scan has done by the time it reaches `i`: the body before
      `i` is blanked, and the OpTypeSampler and OpTypeImage heads before
      `i` are listed, with the last of the first and the first of the
      second remembered. */
  ghost predicate Scanning(body: seq<u32>, i: nat, newSpv: seq<u32>, sampler: Option<nat>, firstImage: Option<nat>,
                           samplers: seq<nat>, images: seq<nat>)
    requires WellFormed(body)
  {
    WalksFrom(body, i) && ReachesFrom(body, 0, i) && BlankedUpTo(body, i, newSpv)
    && SplitCombined.Gathered(body, i, samplers, Opcode(OpTypeSampler), Offsets(body, 0, Opcode(OpTypeSampler)))
    && sampler == SplitCombined.Latest(samplers)
    && SplitCombined.Gathered(body, i, images, Opcode(OpTypeImage), Offsets(body, 0, Opcode(OpTypeImage)))
    && firstImage == SplitCombined.Earliest(images)
  }

  /** The scan meets an OpTypeSampler: it is filled and remembered. */
  lemma ScanSampler(body: seq<u32>, i: nat, newSpv: seq<u32>, sampler: Option<nat>, firstImage: Option<nat>,
                    samplers: seq<nat>, images: seq<nat>)
    requires WellFormed(body) && i < |body| && Scanning(body, i, newSpv, sampler, firstImage, samplers, images)
    requires LoWord(body[i]) == OpTypeSampler
    ensures i + HiWord(body[i]) <= |body|
    ensures Scanning(body, i + HiWord(body[i]), Filled(newSpv, i, i + HiWord(body[i])), Some(i), firstImage,
                     samplers + [i], images)
  {
    HeadFacts(body, i);
    BlankedFill(body, i, newSpv);
    SplitCombined.Collect(body, i, samplers, Opcode(OpTypeSampler), Offsets(body, 0, Opcode(OpTypeSampler)));
    SplitCombined.Collect(body, i, images, Opcode(OpTypeImage), Offsets(body, 0, Opcode(OpTypeImage)));
    ReachesExtend(body, 0, i);
  }

  /** The OpTypeSampler arm: `fill` over its words. */
  method FillSampler(body: seq<u32>, i: nat, newSpv: seq<u32>, ghost sampler: Option<nat>, ghost firstImage: Option<nat>,
                     ghost samplers: seq<nat>, ghost images: seq<nat>) returns (t: seq<u32>)
    requires WellFormed(body) && i < |body| && Scanning(body, i, newSpv, sampler, firstImage, samplers, images)
    requires LoWord(body[i]) == OpTypeSampler
    ensures Scanning(body, i + HiWord(body[i]), t, Some(i), firstImage, samplers + [i], images)
  {
    ScanSampler(body, i, newSpv, sampler, firstImage, samplers, images);
    t := Fill(newSpv, i, i + HiWord(body[i]));
  }

  /** The scan meets an OpTypeImage: the first one is remembered. */
  lemma ScanImage(body: seq<u32>, i: nat, newSpv: seq<u32>, sampler: Option<nat>, firstImage: Option<nat>,
                  samplers: seq<nat>, images: seq<nat>)
    requires WellFormed(body) && i < |body| && Scanning(body, i, newSpv, sampler, firstImage, samplers, images)
    requires LoWord(body[i]) == OpTypeImage
    ensures Scanning(body, i + HiWord(body[i]), newSpv, sampler, if firstImage.None? then Some(i) else firstImage,
                     samplers, images + [i])
  {
    HeadFacts(body, i);
    BlankedSkip(body, i, newSpv);
    SplitCombined.Collect(body, i, samplers, Opcode(OpTypeSampler), Offsets(body, 0, Opcode(OpTypeSampler)));
    SplitCombined.Collect(body, i, images, Opcode(OpTypeImage), Offsets(body, 0, Opcode(OpTypeImage)));
    ReachesExtend(body, 0, i);
    if images != [] {
      assert (images + [i])[0] == images[0];
    }
  }

  /** The scan meets any other instruction and walks past it. */
  lemma ScanOther(body: seq<u32>, i: nat, newSpv: seq<u32>, sampler: Option<nat>, firstImage: Option<nat>,
                  samplers: seq<nat>, images: seq<nat>)
    requires WellFormed(body) && i < |body| && Scanning(body, i, newSpv, sampler, firstImage, samplers, images)
    requires LoWord(body[i]) != OpTypeSampler && LoWord(body[i]) != OpTypeImage
    ensures Scanning(body, i + HiWord(body[i]), newSpv, sampler, firstImage, samplers, images)
  {
    HeadFacts(body, i);
    BlankedSkip(body, i, newSpv);
    SplitCombined.Collect(body, i, samplers, Opcode(OpTypeSampler), Offsets(body, 0, Opcode(OpTypeSampler)));
    SplitCombined.Collect(body, i, images, Opcode(OpTypeImage), Offsets(body, 0, Opcode(OpTypeImage)));
    ReachesExtend(body, 0, i);
  }

  /** At the end of the body the scan is complete. */
  lemma ScanDone(body: seq<u32>, newSpv: seq<u32>, sampler: Option<nat>, firstImage: Option<nat>,
                 samplers: seq<nat>, images: seq<nat>)
    requires WellFormed(body) && Scanning(body, |body|, newSpv, sampler, firstImage, samplers, images)
    ensures newSpv == BlankFrom(body, 0)
    ensures sampler == SplitCombined.Latest(Offsets(body, 0, Opcode(OpTypeSampler)))
    ensures firstImage == SplitCombined.Earliest(Offsets(body, 0, Opcode(OpTypeImage)))
  {
    BlankedAll(body, newSpv);
    assert samplers + [] == samplers && images + [] == images;
  }

  /** Step 1, as far as the sampler types go: walks the body by word
      counts, overwrites every word of every OpTypeSampler with the OpNop
      word, and remembers the last OpTypeSampler and the first
      OpTypeImage. */
  method BlankSamplers(body: seq<u32>) returns (newSpv: seq<u32>, sampler: Option<nat>, firstImage: Option<nat>)
    requires WellFormed(body)
    ensures newSpv == BlankFrom(body, 0)
    ensures sampler == SplitCombined.Latest(Offsets(body, 0, Opcode(OpTypeSampler)))
    ensures firstImage == SplitCombined.Earliest(Offsets(body, 0, Opcode(OpTypeImage)))
  {
    ghost var samplers: seq<nat> := [];
    ghost var images: seq<nat> := [];
    newSpv := body;
    sampler, firstImage := None, None;
    var i: nat := 0;
    while i < |body|
      invariant Scanning(body, i, newSpv, sampler, firstImage, samplers, images)
      decreases |body| - i
    {
      var op := body[i];
      var wordCount := HiWord(op);
      var instruction := LoWord(op);
      if instruction == OpTypeSampler {
        newSpv := FillSampler(body, i, newSpv, sampler, firstImage, samplers, images);
        sampler := Some(i);
        samplers := samplers + [i];
      } else if instruction == OpTypeImage {
        ScanImage(body, i, newSpv, sampler, firstImage, samplers, images);
        if firstImage.None? {
          firstImage := Some(i);
        }
        images := images + [i];
      } else {
        ScanOther(body, i, newSpv, sampler, firstImage, samplers, images);
      }
      i := i + wordCount;
    }
    ScanDone(body, newSpv, sampler, firstImage, samplers, images);
  }

  // ---------------------------------------------------------------------
  // Step 2: the sampler type pair

  /** The staged sampler type and pointer, the sampler's id and the
      pointer's, and the id bound after them. */
  datatype SamplerPair = SamplerPair(insert: InstructionInsert, samplerId: u32, pointerId: u32, bound: u32)

  /** Step 2: the sampler type and its pointer go after the first
      OpTypeImage (a missing one is an `unwrap` on nothing); the last
      OpTypeSampler's id is reused, or a fresh id is drawn for it. */
  function StageSamplerPair(body: seq<u32>, sampler: Option<nat>, firstImage: Option<nat>, bound: u32): (r: Result<SamplerPair>)
    requires sampler.Some? ==> sampler.value + 1 < |body|
    requires bound + (if sampler.Some? then 1 else 2) <= MaxU32
    ensures r.Failure? <==> firstImage.None?
    ensures r.Failure? ==> r.error == MissingTypeImage
    ensures r.Success? ==>
      r.value.insert.previousSpvIdx == firstImage.value
      && r.value.insert.instruction == SplitCombined.SamplerTypes(r.value.samplerId, r.value.pointerId)
      && r.value.bound == bound + (if sampler.Some? then 1 else 2)
      && bound <= r.value.pointerId < r.value.bound
      && (sampler.Some? ==> r.value.samplerId == body[sampler.value + 1])
      && (sampler.None? ==> bound <= r.value.samplerId < r.value.bound && r.value.samplerId != r.value.pointerId)
  {
    if firstImage.None? then Failure(MissingTypeImage)
    else
      var samplerId := if sampler.Some? then body[sampler.value + 1] else bound;
      var b := if sampler.Some? then bound else bound + 1;
      Success(SamplerPair(InstructionInsert(firstImage.value, SplitCombined.SamplerTypes(samplerId, b)), samplerId, b, b + 1))
  }

  // ---------------------------------------------------------------------
  // Step 6 as written: the descriptor sets to correct

  /** One step of the decoration scan as written: the entry is recorded as
      in the helper version, but it is the literal of a Binding, not of a
      DescriptorSet, that joins the descriptor sets to correct. */
  function NoteAsWritten(spv: seq<u32>, d: nat, v: VariableOut, s: Seen): Seen
    requires LiteralIn(spv, d)
  {
    var noted := Note(spv, d, v, s);
    if v.vResId == spv[d + 1] && spv[d + 2] == DecorationBinding then
      Seen(noted.decorations, s.setsToCorrect + {spv[d + 3]})
    else Seen(noted.decorations, s.setsToCorrect)
  }

  function RowAsWritten(spv: seq<u32>, d: nat, vRes: seq<VariableOut>, j: nat, s: Seen): Seen
    requires LiteralIn(spv, d) && j <= |vRes|
    decreases j
  {
    if j == 0 then s else NoteAsWritten(spv, d, vRes[j - 1], RowAsWritten(spv, d, vRes, j - 1, s))
  }

  /** The decoration scan of src/lib.rs over the first `k` decorations. */
  function SurveyAsWritten(spv: seq<u32>, ds: seq<nat>, vRes: seq<VariableOut>, k: nat): Seen
    requires LiteralsIn(spv, ds) && k <= |ds|
    decreases k
  {
    if k == 0 then Seen(map[], {})
    else RowAsWritten(spv, ds[k - 1], vRes, |vRes|, SurveyAsWritten(spv, ds, vRes, k - 1))
  }

  /** `x` is the literal of a Binding decoration, among the first `k`, on
      some paired variable. */
  predicate BindingOf(spv: seq<u32>, ds: seq<nat>, vRes: seq<VariableOut>, k: nat, x: u32)
    requires LiteralsIn(spv, ds) && k <= |ds|
  {
    exists i, j :: 0 <= i < k && 0 <= j < |vRes| && Tagged(spv, ds[i], vRes[j], DecorationBinding)
      && spv[ds[i] + 3] == x
  }

  /** Against one decoration, the entries are those of the helper version. */
  lemma {:induction false} RowEntries(spv: seq<u32>, d: nat, vRes: seq<VariableOut>, j: nat, s: Seen, t: Seen)
    requires LiteralIn(spv, d) && j <= |vRes| && s.decorations == t.decorations
    ensures RowAsWritten(spv, d, vRes, j, s).decorations == Row(spv, d, vRes, j, t).decorations
    decreases j
  {
    if j > 0 {
      RowEntries(spv, d, vRes, j - 1, s, t);
    }
  }

  /** The scan as written records the same entries as the helper version:
      only the descriptor sets differ. */
  lemma {:induction false} SurveyEntries(spv: seq<u32>, ds: seq<nat>, vRes: seq<VariableOut>, k: nat)
    requires LiteralsIn(spv, ds) && k <= |ds|
    ensures SurveyAsWritten(spv, ds, vRes, k).decorations == Survey(spv, ds, vRes, k).decorations
    decreases k
  {
    if k > 0 {
      SurveyEntries(spv, ds, vRes, k - 1);
      RowEntries(spv, ds[k - 1], vRes, |vRes|, SurveyAsWritten(spv, ds, vRes, k - 1), Survey(spv, ds, vRes, k - 1));
    }
  }

  lemma {:induction false} RowSetsAsWritten(spv: seq<u32>, d: nat, vRes: seq<VariableOut>, j: nat, s: Seen, x: u32)
    requires LiteralIn(spv, d) && j <= |vRes|
    ensures x in RowAsWritten(spv, d, vRes, j, s).setsToCorrect <==>
      x in s.setsToCorrect || (RowTagged(spv, d, vRes, j, DecorationBinding) && x == spv[d + 3])
    decreases j
  {
    if j > 0 {
      RowSetsAsWritten(spv, d, vRes, j - 1, s, x);
      if Tagged(spv, d, vRes[j - 1], DecorationBinding) {
        assert RowTagged(spv, d, vRes, j, DecorationBinding);
      } else {
        assert RowTagged(spv, d, vRes, j, DecorationBinding) <==> RowTagged(spv, d, vRes, j - 1, DecorationBinding);
      }
    }
  }

  /** As written, the descriptor sets to correct are exactly the Binding
      literals on paired variables. */
  lemma {:induction false} SurveySetsAsWritten(spv: seq<u32>, ds: seq<nat>, vRes: seq<VariableOut>, k: nat, x: u32)
    requires LiteralsIn(spv, ds) && k <= |ds|
    ensures x in SurveyAsWritten(spv, ds, vRes, k).setsToCorrect <==> BindingOf(spv, ds, vRes, k, x)
    decreases k
  {
    if k > 0 {
      var d := ds[k - 1];
      SurveySetsAsWritten(spv, ds, vRes, k - 1, x);
      RowSetsAsWritten(spv, d, vRes, |vRes|, SurveyAsWritten(spv, ds, vRes, k - 1), x);
      if BindingOf(spv, ds, vRes, k, x) {
        var i, j :| 0 <= i < k && 0 <= j < |vRes| && Tagged(spv, ds[i], vRes[j], DecorationBinding) && spv[ds[i] + 3] == x;
        if i == k - 1 {
          assert RowTagged(spv, d, vRes, |vRes|, DecorationBinding);
        } else {
          assert BindingOf(spv, ds, vRes, k - 1, x);
        }
      }
      if RowTagged(spv, d, vRes, |vRes|, DecorationBinding) && x == spv[d + 3] {
        var j :| 0 <= j < |vRes| && Tagged(spv, d, vRes[j], DecorationBinding);
        assert Tagged(spv, ds[k - 1], vRes[j], DecorationBinding);
      }
      if BindingOf(spv, ds, vRes, k - 1, x) {
        var i, j :| 0 <= i < k - 1 && 0 <= j < |vRes| && Tagged(spv, ds[i], vRes[j], DecorationBinding) && spv[ds[i] + 3] == x;
        assert Tagged(spv, ds[i], vRes[j], DecorationBinding);
      }
    }
  }

  /** A combined sampler variable `%10` in descriptor set 0 at binding 1:
      the scan as written asks the fix-up to correct set 1, which holds
      nothing of this variable, while its new sampler lands at binding 2 of
      set 0; the helper version asks for set 0. */
  lemma SetsAsWrittenMissTheSet()
    ensures var spv := [EncodeWord(4, OpDecorate), 10, DecorationDescriptorSet, 0,
                        EncodeWord(4, OpDecorate), 10, DecorationBinding, 1];
      var vRes := [VariableOut(10, 20, 30, false)];
      LiteralsIn(spv, [0, 4])
      && SurveyAsWritten(spv, [0, 4], vRes, 2).setsToCorrect == {1}
      && Survey(spv, [0, 4], vRes, 2).setsToCorrect == {0}
  {
    var spv := [EncodeWord(4, OpDecorate), 10, DecorationDescriptorSet, 0,
                EncodeWord(4, OpDecorate), 10, DecorationBinding, 1];
    var vRes := [VariableOut(10, 20, 30, false)];
    var ds := [0, 4];
    assert LiteralsIn(spv, ds);
    forall x ensures x in SurveyAsWritten(spv, ds, vRes, 2).setsToCorrect <==> x == 1 {
      SurveySetsAsWritten(spv, ds, vRes, 2, x);
      if x == 1 {
        assert Tagged(spv, ds[1], vRes[0], DecorationBinding);
      }
    }
    forall x ensures x in Survey(spv, ds, vRes, 2).setsToCorrect <==> x == 0 {
      SurveySets(spv, ds, vRes, 2, x);
      if x == 0 {
        assert Tagged(spv, ds[0], vRes[0], DecorationDescriptorSet);
      }
    }
  }

  // ---------------------------------------------------------------------
  // Step 12 as written: dropping OpNop words

  /** The compaction of src/lib.rs: every word equal to the one-word OpNop
      is dropped, wherever it stands. */
  function DropNopWords(s: seq<u32>): (r: seq<u32>)
    ensures |r| <= |s| && NopWord !in r
  {
    if s == [] then [] else (if s[0] == NopWord then [] else [s[0]]) + DropNopWords(s[1..])
  }

  lemma DropHead(s: seq<u32>)
    requires s != []
    ensures DropNopWords(s) == (if s[0] == NopWord then [] else [s[0]]) + DropNopWords(s[1..])
  {
  }

  /** Dropping keeps every other word, in order. */
  lemma {:induction false} DropConcat(a: seq<u32>, b: seq<u32>)
    ensures DropNopWords(a + b) == DropNopWords(a) + DropNopWords(b)
  {
    if a != [] {
      var ab := a + b;
      var head := if a[0] == NopWord then [] else [a[0]];
      assert ab[0] == a[0] && ab[1..] == a[1..] + b;
      DropHead(ab);
      DropHead(a);
      DropConcat(a[1..], b);
      Assoc(head, DropNopWords(a[1..]), DropNopWords(b));
    } else {
      assert a + b == b;
    }
  }

  /** A sequence without the OpNop word is left as it is. */
  lemma {:induction false} DropKeeps(s: seq<u32>)
    requires NopWord !in s
    ensures DropNopWords(s) == s
  {
    if s != [] {
      assert s[0] in s && forall w :: w in s[1..] ==> w in s;
      DropKeeps(s[1..]);
    }
  }

  /** ... and as many of each. */
  lemma {:induction false} DropCounts(s: seq<u32>, w: u32)
    ensures multiset(DropNopWords(s))[w] == if w == NopWord then 0 else multiset(s)[w]
  {
    if s != [] {
      DropCounts(s[1..], w);
      assert s == [s[0]] + s[1..];
    }
  }

  /** A Binding decoration with literal 65536 ends in the word 0x10000, the
      OpNop word: the compaction as written removes it and leaves a body
      whose walk runs past its end, while pruning keeps it whole. */
  lemma DropBreaksBinding()
    ensures var s := [EncodeWord(4, OpDecorate), 10, DecorationBinding, 0x1_0000];
      WellFormed(s) && !WellFormed(DropNopWords(s)) && PruneFrom(s, 0) == s
  {
    var s := [EncodeWord(4, OpDecorate), 10, DecorationBinding, 0x1_0000];
    var t := [EncodeWord(4, OpDecorate), 10, DecorationBinding];
    assert s == t + [NopWord];
    assert NopWord !in t;
    DropKeeps(t);
    DropHead([NopWord]);
    DropConcat(t, [NopWord]);
    assert HiWord(t[0]) == 4 && !WalksFrom(t, 4);
    assert WalksFrom(s, 4);
    PruneStep(s, 0, 4);
    assert s[0..4] == s;
    assert WellFormed(s);
    assert DropNopWords(s) == t + [];
    assert t + [] == t;
    assert !WellFormed(t);
    assert PruneFrom(s, 4) == [];
    assert PruneFrom(s, 0) == s;
  }
}
