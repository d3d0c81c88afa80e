/** Staging one-word inserts after operand slots: for every instruction of a
    list, for every (id, word) pair, the word is inserted after each operand
    from a fixed slot on that equals the id.  This is the loop nest the
    function-type and function-call steps of the split pass share. */
module Slots {
  import opened Spirv
  import opened Layout
  import opened Edits

  /** Every instruction of `hs` spans at least `from` words, all inside `s`. */
  predicate OperandRuns(s: seq<u32>, hs: seq<nat>, from: nat)
  {
    forall k :: 0 <= k < |hs| ==> hs[k] < |s| && from <= HiWord(s[hs[k]]) && hs[k] + HiWord(s[hs[k]]) <= |s|
  }

  /** The inserts of `word` after the operands at `p` up to `q` that equal
      `id`, in increasing position, all naming the instruction at `h`. */
  function MatchingSlots(s: seq<u32>, h: nat, p: nat, q: nat, id: u32, word: u32): seq<WordInsert>
    requires p <= q <= |s|
    decreases q - p
  {
    if p == q then []
    else MatchingSlots(s, h, p, q - 1, id, word) + (if s[q - 1] == id then [WordInsert(q - 1, word, h)] else [])
  }

  /** The inserts for one instruction and every pair, pair by pair. */
  function PairSlots(s: seq<u32>, h: nat, from: nat, pairs: seq<(u32, u32)>): seq<WordInsert>
    requires h < |s| && from <= HiWord(s[h]) && h + HiWord(s[h]) <= |s|
    decreases |pairs|
  {
    if |pairs| == 0 then []
    else
      var n := |pairs| - 1;
      PairSlots(s, h, from, pairs[..n]) + MatchingSlots(s, h, h + from, h + HiWord(s[h]), pairs[n].0, pairs[n].1)
  }

  /** The inserts for every instruction of `hs`, instruction by instruction. */
  function SlotInserts(s: seq<u32>, hs: seq<nat>, from: nat, pairs: seq<(u32, u32)>): seq<WordInsert>
    requires OperandRuns(s, hs, from)
  {
    SlotInsertsUpTo(s, hs, from, pairs, |hs|)
  }

  /** The same for the first `n` instructions of `hs`. */
  function SlotInsertsUpTo(s: seq<u32>, hs: seq<nat>, from: nat, pairs: seq<(u32, u32)>, n: nat): seq<WordInsert>
    requires OperandRuns(s, hs, from) && n <= |hs|
    decreases n
  {
    if n == 0 then []
    else SlotInsertsUpTo(s, hs, from, pairs, n - 1) + PairSlots(s, hs[n - 1], from, pairs)
  }

  /** One instruction and one pair: an insert for exactly the matching
      slots, each right after its slot, in increasing position. */
  lemma {:induction false} MatchingSlotsMeaning(s: seq<u32>, h: nat, p: nat, q: nat, id: u32, word: u32)
    requires p <= q <= |s|
    ensures forall x :: x in MatchingSlots(s, h, p, q, id, word) <==>
      (x.word == word && x.headIdx == h && p <= x.idx < q && s[x.idx] == id)
    ensures forall i, j :: 0 <= i < j < |MatchingSlots(s, h, p, q, id, word)| ==>
      MatchingSlots(s, h, p, q, id, word)[i].idx < MatchingSlots(s, h, p, q, id, word)[j].idx
    decreases q - p
  {
    if p < q {
      MatchingSlotsMeaning(s, h, p, q - 1, id, word);
    }
  }

  /** `x` inserts one of the pairs' words after a slot of the instruction at
      `h`, from `from` on, that holds that pair's id. */
  predicate Slotted(s: seq<u32>, h: nat, from: nat, pairs: seq<(u32, u32)>, x: WordInsert)
  {
    h < |s| && x.headIdx == h && h + from <= x.idx < h + HiWord(s[h]) && x.idx < |s|
    && (s[x.idx], x.word) in pairs
  }

  /** One instruction: an insert for every slot and every pair naming it. */
  lemma {:induction false} PairSlotsMeaning(s: seq<u32>, h: nat, from: nat, pairs: seq<(u32, u32)>)
    requires h < |s| && from <= HiWord(s[h]) && h + HiWord(s[h]) <= |s|
    ensures forall x :: x in PairSlots(s, h, from, pairs) <==> Slotted(s, h, from, pairs, x)
    decreases |pairs|
  {
    if |pairs| > 0 {
      var n := |pairs| - 1;
      var init := pairs[..n];
      PairSlotsMeaning(s, h, from, init);
      MatchingSlotsMeaning(s, h, h + from, h + HiWord(s[h]), pairs[n].0, pairs[n].1);
      assert pairs == init + [pairs[n]];
      forall x ensures x in PairSlots(s, h, from, pairs) <==> Slotted(s, h, from, pairs, x)
      {
        if x.idx < |s| {
          assert (s[x.idx], x.word) in pairs <==> (s[x.idx], x.word) in init || (s[x.idx], x.word) == pairs[n];
        }
      }
    }
  }

  /** Over a list of instructions: an insert for every instruction, slot and
      pair where the slot holds the pair's id, each naming its instruction
      and placed inside it. */
  lemma SlotInsertsMeaning(s: seq<u32>, hs: seq<nat>, from: nat, pairs: seq<(u32, u32)>)
    requires OperandRuns(s, hs, from)
    ensures forall x :: x in SlotInserts(s, hs, from, pairs) <==>
      (x.headIdx in hs && Slotted(s, x.headIdx, from, pairs, x))
  {
    SlotInsertsUpToMeaning(s, hs, from, pairs, |hs|);
    forall x: WordInsert ensures x.headIdx in hs <==> exists i :: 0 <= i < |hs| && hs[i] == x.headIdx {
      if x.headIdx in hs {
        var i :| 0 <= i < |hs| && hs[i] == x.headIdx;
      }
    }
  }

  /** The same for the first `n` instructions. */
  lemma {:induction false} SlotInsertsUpToMeaning(s: seq<u32>, hs: seq<nat>, from: nat, pairs: seq<(u32, u32)>, n: nat)
    requires OperandRuns(s, hs, from) && n <= |hs|
    ensures forall x :: x in SlotInsertsUpTo(s, hs, from, pairs, n) <==>
      ((exists i :: 0 <= i < n && hs[i] == x.headIdx) && Slotted(s, x.headIdx, from, pairs, x))
    decreases n
  {
    if n > 0 {
      SlotInsertsUpToMeaning(s, hs, from, pairs, n - 1);
      PairSlotsMeaning(s, hs[n - 1], from, pairs);
      var front, last := SlotInsertsUpTo(s, hs, from, pairs, n - 1), PairSlots(s, hs[n - 1], from, pairs);
      assert SlotInsertsUpTo(s, hs, from, pairs, n) == front + last;
      forall x: WordInsert ensures x in front + last <==>
        ((exists i :: 0 <= i < n && hs[i] == x.headIdx) && Slotted(s, x.headIdx, from, pairs, x))
      {
        assert x in front <==> (exists i :: 0 <= i < n - 1 && hs[i] == x.headIdx) && Slotted(s, x.headIdx, from, pairs, x);
        assert x in last <==> Slotted(s, hs[n - 1], from, pairs, x);
        if (exists i :: 0 <= i < n && hs[i] == x.headIdx) && Slotted(s, x.headIdx, from, pairs, x) {
          var i :| 0 <= i < n && hs[i] == x.headIdx;
          if i < n - 1 {
            assert exists i' :: 0 <= i' < n - 1 && hs[i'] == x.headIdx;
          }
        }
      }
    }
  }

  /** The innermost loop: the inserts after the slots of the instruction at
      `h` from `from` on that hold `id`. */
  method StageMatchingSlots(s: seq<u32>, h: nat, from: nat, id: u32, word: u32, acc: seq<WordInsert>)
    returns (r: seq<WordInsert>)
    requires h < |s| && from <= HiWord(s[h]) && h + HiWord(s[h]) <= |s|
    ensures r == acc + MatchingSlots(s, h, h + from, h + HiWord(s[h]), id, word)
  {
    r := acc;
    var count := HiWord(s[h]);
    var i := 0;
    while h + from + i < h + count
      invariant h + from + i <= h + count
      invariant r == acc + MatchingSlots(s, h, h + from, h + from + i, id, word)
    {
      if s[h + from + i] == id {
        r := r + [WordInsert(h + from + i, word, h)];
      }
      i := i + 1;
    }
  }

  /** The middle loop: the inserts for the instruction at `h` and every
      pair, appended to `acc`. */
  method StagePairSlots(s: seq<u32>, h: nat, from: nat, pairs: seq<(u32, u32)>, acc: seq<WordInsert>)
    returns (r: seq<WordInsert>)
    requires h < |s| && from <= HiWord(s[h]) && h + HiWord(s[h]) <= |s|
    ensures r == acc + PairSlots(s, h, from, pairs)
  {
    r := acc;
    var j := 0;
    while j < |pairs|
      invariant 0 <= j <= |pairs|
      invariant r == acc + PairSlots(s, h, from, pairs[..j])
    {
      r := StageMatchingSlots(s, h, from, pairs[j].0, pairs[j].1, r);
      assert pairs[..j + 1][..j] == pairs[..j];
      j := j + 1;
    }
    assert pairs[..j] == pairs;
  }

  /** The inserts for every instruction of `hs` and every pair, appended to
      `acc` in the order the loops visit them. */
  method StageSlotInserts(s: seq<u32>, hs: seq<nat>, from: nat, pairs: seq<(u32, u32)>, acc: seq<WordInsert>)
    returns (r: seq<WordInsert>)
    requires OperandRuns(s, hs, from)
    ensures r == acc + SlotInserts(s, hs, from, pairs)
  {
    r := acc;
    var k := 0;
    while k < |hs|
      invariant 0 <= k <= |hs|
      invariant r == acc + SlotInsertsUpTo(s, hs, from, pairs, k)
    {
      r := StagePairSlots(s, hs[k], from, pairs, r);
      k := k + 1;
    }
  }
}
