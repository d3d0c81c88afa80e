/** The last steps of a pass over the body: dropping the instructions
    tombstoned as OpNop, and putting the header back in front with the new
    id bound. */
module Assemble {
  import opened Spirv
  import opened Layout
  import opened Outcome

  // ---------------------------------------------------------------------
  // Dropping tombstones

  predicate IsTombstone(ins: seq<u32>)
  {
    |ins| > 0 && LoWord(ins[0]) == OpNop
  }

  /** The body from `i` on without its OpNop instructions. */
  function PruneFrom(s: seq<u32>, i: nat): seq<u32>
    requires WalksFrom(s, i)
    decreases |s| - i
  {
    if i >= |s| then []
    else if LoWord(s[i]) == OpNop then PruneFrom(s, i + HiWord(s[i]))
    else
      WalksWithin(s, i + HiWord(s[i]));
      s[i..i + HiWord(s[i])] + PruneFrom(s, i + HiWord(s[i]))
  }

  /** The instructions of a list that are not tombstones, in order. */
  function Live(l: seq<seq<u32>>): seq<seq<u32>>
  {
    if l == [] then []
    else if IsTombstone(l[0]) then Live(l[1..])
    else [l[0]] + Live(l[1..])
  }

  /** The words taken up by OpNop instructions from `i` on. */
  function TombstoneWords(s: seq<u32>, i: nat): nat
    requires WalksFrom(s, i)
    decreases |s| - i
  {
    if i >= |s| then 0
    else if LoWord(s[i]) == OpNop then HiWord(s[i]) + TombstoneWords(s, i + HiWord(s[i]))
    else TombstoneWords(s, i + HiWord(s[i]))
  }

  lemma LiveCons(a: seq<u32>, rest: seq<seq<u32>>)
    ensures IsTombstone(a) ==> Live([a] + rest) == Live(rest)
    ensures !IsTombstone(a) ==> Live([a] + rest) == [a] + Live(rest)
  {
    var l := [a] + rest;
    assert l[0] == a && l[1..] == rest;
  }

  /** One instruction of a pruning walk: a tombstone vanishes, any other
      instruction is kept whole. */
  lemma PruneStep(s: seq<u32>, i: nat, c: nat)
    requires WalksFrom(s, i) && i < |s| && c == HiWord(s[i])
    ensures 1 <= c && i + c <= |s| && WalksFrom(s, i + c)
    ensures LoWord(s[i]) == OpNop ==> PruneFrom(s, i) == PruneFrom(s, i + c)
    ensures LoWord(s[i]) != OpNop ==> PruneFrom(s, i) == s[i..i + c] + PruneFrom(s, i + c)
  {
    WalksWithin(s, i + c);
    assert s[i..i + c][0] == s[i];
  }

  lemma InstructionStep(s: seq<u32>, i: nat, c: nat)
    requires WalksFrom(s, i) && i < |s| && c == HiWord(s[i])
    ensures i + c <= |s| && WalksFrom(s, i + c)
    ensures Instructions(s, i) == [s[i..i + c]] + Instructions(s, i + c)
    ensures IsTombstone(s[i..i + c]) <==> LoWord(s[i]) == OpNop
  {
    WalksWithin(s, i + c);
    assert s[i..i + c][0] == s[i];
  }

  /** Pruning keeps the body well formed. */
  lemma {:induction false} PruneWalks(s: seq<u32>, i: nat)
    requires WalksFrom(s, i)
    ensures WellFormed(PruneFrom(s, i))
    decreases |s| - i
  {
    if i < |s| {
      var c := HiWord(s[i]);
      PruneStep(s, i, c);
      PruneWalks(s, i + c);
      if LoWord(s[i]) != OpNop {
        var a := s[i..i + c];
        assert a[0] == s[i] && WalksFrom(a, |a|);
        WalksConcat(a, PruneFrom(s, i + c));
      }
    }
  }

  /** A kept instruction in front of a pruned rest. */
  lemma KeepOne(a: seq<u32>, l: seq<seq<u32>>, rest: seq<u32>)
    requires |a| >= 1 && HiWord(a[0]) == |a| && !IsTombstone(a)
    requires WellFormed(rest) && Instructions(rest, 0) == Live(l)
    ensures WellFormed(a + rest) && Instructions(a + rest, 0) == Live([a] + l)
  {
    InstructionsPrepend(a, rest);
    LiveCons(a, l);
  }

  /** The instructions of the pruned body are exactly the non-tombstone
      instructions of the original, in their order and with their contents. */
  lemma {:induction false} PruneKeepsLive(s: seq<u32>, i: nat)
    requires WalksFrom(s, i)
    ensures WellFormed(PruneFrom(s, i))
    ensures Instructions(PruneFrom(s, i), 0) == Live(Instructions(s, i))
    decreases |s| - i
  {
    PruneWalks(s, i);
    if i < |s| {
      var c := HiWord(s[i]);
      WalksWithin(s, i + c);
      PruneKeepsLive(s, i + c);
      LiveStep(s, i, c);
    }
  }

  /** One instruction more: kept exactly when it is not a tombstone. */
  lemma LiveStep(s: seq<u32>, i: nat, c: nat)
    requires WalksFrom(s, i) && i < |s| && c == HiWord(s[i]) && i + c <= |s| && WalksFrom(s, i + c)
    requires WellFormed(PruneFrom(s, i + c))
    requires Instructions(PruneFrom(s, i + c), 0) == Live(Instructions(s, i + c))
    ensures WellFormed(PruneFrom(s, i)) && Instructions(PruneFrom(s, i), 0) == Live(Instructions(s, i))
  {
    PruneStep(s, i, c);
    InstructionStep(s, i, c);
    var a := s[i..i + c];
    assert a[0] == s[i];
    KeptOrDropped(PruneFrom(s, i), a, PruneFrom(s, i + c), Instructions(s, i), Instructions(s, i + c));
  }

  /** The same step over named parts: `p` is the pruned body, `a` its first
      instruction, `rest` the pruned remainder. */
  lemma KeptOrDropped(p: seq<u32>, a: seq<u32>, rest: seq<u32>, ins: seq<seq<u32>>, l: seq<seq<u32>>)
    requires |a| >= 1 && HiWord(a[0]) == |a| && WellFormed(rest) && Instructions(rest, 0) == Live(l)
    requires ins == [a] + l && p == if IsTombstone(a) then rest else a + rest
    ensures WellFormed(p) && Instructions(p, 0) == Live(ins)
  {
    if IsTombstone(a) {
      LiveCons(a, l);
    } else {
      KeepOne(a, l, rest);
    }
  }

  lemma {:induction false} LiveHasNoTombstone(l: seq<seq<u32>>)
    ensures forall ins :: ins in Live(l) ==> !IsTombstone(ins)
  {
    if l != [] {
      LiveHasNoTombstone(l[1..]);
    }
  }

  /** No instruction of the pruned body is an OpNop. */
  lemma PruneLeavesNoTombstone(s: seq<u32>)
    requires WellFormed(s)
    ensures WellFormed(PruneFrom(s, 0))
    ensures forall ins :: ins in Instructions(PruneFrom(s, 0), 0) ==> !IsTombstone(ins)
  {
    PruneKeepsLive(s, 0);
    LiveHasNoTombstone(Instructions(s, 0));
  }

  /** Pruning removes exactly the word count of every tombstone. */
  lemma {:induction false} PruneLength(s: seq<u32>, i: nat)
    requires WalksFrom(s, i)
    ensures i <= |s| && |PruneFrom(s, i)| == |s| - i - TombstoneWords(s, i)
    decreases |s| - i
  {
    if i < |s| {
      PruneLength(s, i + HiWord(s[i]));
    }
  }

  /** A body with no tombstone is left as it is. */
  lemma {:induction false} PruneWithoutTombstones(s: seq<u32>, i: nat)
    requires WalksFrom(s, i) && TombstoneWords(s, i) == 0
    ensures PruneFrom(s, i) == s[i..]
    decreases |s| - i
  {
    if i < |s| {
      var c := HiWord(s[i]);
      WalksWithin(s, i + c);
      PruneWithoutTombstones(s, i + c);
      assert s[i..] == s[i..i + c] + s[i + c..];
    }
  }

  /** Removes `count` words at offset `at`, one `Vec::remove` at a time. */
  method RemoveWords(s: seq<u32>, at: nat, count: nat) returns (r: seq<u32>)
    requires at + count <= |s|
    ensures r == s[..at] + s[at + count..]
  {
    r := s;
    var n := 0;
    while n < count
      invariant n <= count && r == s[..at] + s[at + n..]
    {
      r := r[..at] + r[at + 1..];
      n := n + 1;
    }
  }

  /** Removing the first `c` pending words leaves the finished part alone. */
  lemma DropStep(done: seq<u32>, body: seq<u32>, j: nat, c: nat, r: seq<u32>)
    requires j + c <= |body|
    requires r == (done + body[j..])[..|done|] + (done + body[j..])[|done| + c..]
    ensures r == done + body[j + c..]
  {
    assert (done + body[j..])[..|done|] == done;
    assert (done + body[j..])[|done| + c..] == body[j + c..];
  }

  /** The state of the pruning walk: the current body `r` is the finished
      part `done`, whose length is the walk's offset `i`, followed by the
      original body from offset `j` on; what remains to be pruned completes
      `done` to the pruned original `goal`. */
  ghost predicate Pruning(body: seq<u32>, r: seq<u32>, i: nat, j: nat, done: seq<u32>, goal: seq<u32>)
  {
    WalksFrom(body, j) && r == done + body[j..] && i == |done| && done + PruneFrom(body, j) == goal
  }

  /** The instruction at `i` is a tombstone: remove its words. */
  method DropTombstone(body: seq<u32>, r: seq<u32>, i: nat, ghost j: nat, ghost done: seq<u32>, ghost goal: seq<u32>)
    returns (r': seq<u32>, ghost j': nat)
    requires Pruning(body, r, i, j, done, goal) && i < |r| && LoWord(r[i]) == OpNop
    ensures Pruning(body, r', i, j', done, goal) && |r'| < |r|
  {
    var wordCount := HiWord(r[i]);
    assert r[i] == body[j];
    PruneStep(body, j, wordCount);
    r' := RemoveWords(r, i, wordCount);
    DropStep(done, body, j, wordCount, r');
    j' := j + wordCount;
    assert WalksFrom(body, j');
    assert r' == done + body[j'..];
  }

  /** The instruction at `i` is kept: step over it. */
  method StepOver(body: seq<u32>, r: seq<u32>, i: nat, ghost j: nat, ghost done: seq<u32>, ghost goal: seq<u32>)
    returns (i': nat, ghost j': nat, ghost done': seq<u32>)
    requires Pruning(body, r, i, j, done, goal) && i < |r| && LoWord(r[i]) != OpNop
    ensures Pruning(body, r, i', j', done', goal) && i < i'
  {
    var wordCount := HiWord(r[i]);
    assert r[i] == body[j];
    KeepPruning(body, r, i, j, done, goal);
    i', j', done' := i + wordCount, j + wordCount, done + body[j..j + wordCount];
  }

  /** The state after stepping over the kept instruction at `j`. */
  lemma KeepPruning(body: seq<u32>, r: seq<u32>, i: nat, j: nat, done: seq<u32>, goal: seq<u32>)
    requires Pruning(body, r, i, j, done, goal) && j < |body| && LoWord(body[j]) != OpNop
    ensures j + HiWord(body[j]) <= |body|
    ensures Pruning(body, r, i + HiWord(body[j]), j + HiWord(body[j]), done + body[j..j + HiWord(body[j])], goal)
  {
    var c := HiWord(body[j]);
    PruneStep(body, j, c);
    var kept := body[j..j + c];
    assert body[j..] == kept + body[j + c..];
    MoveFront(r, done, body[j..], kept, body[j + c..]);
    MoveFront(goal, done, PruneFrom(body, j), kept, PruneFrom(body, j + c));
  }

  /** A prefix of the rest moves to the end of the front. */
  lemma MoveFront(r: seq<u32>, front: seq<u32>, tail: seq<u32>, kept: seq<u32>, rest: seq<u32>)
    requires r == front + tail && tail == kept + rest
    ensures r == (front + kept) + rest
  {
  }

  /** Walks the body by word counts, removing every OpNop instruction and
      stepping over every other one. */
  method PruneNoops(body: seq<u32>) returns (r: seq<u32>)
    requires WellFormed(body)
    ensures r == PruneFrom(body, 0)
  {
    r := body;
    var i: nat := 0;
    ghost var j: nat := 0;
    ghost var done: seq<u32> := [];
    ghost var goal := PruneFrom(body, 0);
    while i < |r|
      invariant Pruning(body, r, i, j, done, goal)
      decreases |r| - i
    {
      var op := r[i];
      if LoWord(op) == OpNop {
        r, j := DropTombstone(body, r, i, j, done, goal);
      } else {
        i, j, done := StepOver(body, r, i, j, done, goal);
      }
    }
  }

  // ---------------------------------------------------------------------
  // Putting the header back

  /** The header with word 3 set to the new bound, followed by the body; a
      header too short to hold word 3 is an indexing panic. */
  function FuseFinal(header: seq<u32>, body: seq<u32>, bound: u32): (r: Result<seq<u32>>)
    ensures r.Success? <==> |header| > BoundOffset
    ensures r.Success? ==>
      |r.value| == |header| + |body| && r.value[BoundOffset] == bound
      && (forall k :: 0 <= k < |header| && k != BoundOffset ==> r.value[k] == header[k])
      && r.value[|header|..] == body
  {
    if |header| <= BoundOffset then Failure(TruncatedHeader)
    else Success(header[BoundOffset := bound] + body)
  }

  /** Fusing the split result again with the old bound gives back the
      original header and body. */
  lemma FuseRestores(header: seq<u32>, body: seq<u32>, bound: u32)
    requires FuseFinal(header, body, bound).Success?
    ensures FuseFinal(FuseFinal(header, body, bound).value[..|header|],
                      FuseFinal(header, body, bound).value[|header|..], header[BoundOffset])
      == Success(header + body)
  {
    var m := FuseFinal(header, body, bound).value;
    assert m[..|header|][BoundOffset := header[BoundOffset]] == header;
  }
}
