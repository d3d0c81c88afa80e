/** The edit engine of util.rs: staged word and instruction inserts, sorted
    stably by the original offset they refer to and applied from the highest
    offset down, so that no pending insert's offset has moved when it is
    applied. */
module Edits {
  import opened Spirv
  import opened Layout
  import opened Outcome

  /** Insert `word` after offset `idx` of the instruction at `headIdx`, and
      raise that instruction's word count by one. */
  datatype WordInsert = WordInsert(idx: nat, word: u32, headIdx: nat)

  /** Insert `instruction` right after the instruction at `previousSpvIdx`. */
  datatype InstructionInsert = InstructionInsert(previousSpvIdx: nat, instruction: seq<u32>)

  datatype Insert = Word(w: WordInsert) | Instruction(ins: InstructionInsert)

  /** The original offset an insert is sorted by. */
  function Key(e: Insert): nat
  {
    match e
    case Word(w) => w.idx
    case Instruction(i) => i.previousSpvIdx
  }

  /** The words an insert adds. */
  function Payload(e: Insert): seq<u32>
  {
    match e
    case Word(w) => [w.word]
    case Instruction(i) => i.instruction
  }

  /** Word inserts first, then instruction inserts, each in staging order. */
  function Merge(ws: seq<WordInsert>, ins: seq<InstructionInsert>): seq<Insert>
  {
    seq(|ws|, k requires 0 <= k < |ws| => Word(ws[k]))
      + seq(|ins|, k requires 0 <= k < |ins| => Instruction(ins[k]))
  }

  // ---------------------------------------------------------------------
  // Stable sort by key

  function InsertByKey(e: Insert, l: seq<Insert>): seq<Insert>
  {
    if l == [] || Key(e) <= Key(l[0]) then [e] + l else [l[0]] + InsertByKey(e, l[1..])
  }

  /** Insertion sort, stable: an element goes before every later element
      whose key is not smaller. */
  function SortByKey(l: seq<Insert>): seq<Insert>
  {
    if l == [] then [] else InsertByKey(l[0], SortByKey(l[1..]))
  }

  predicate SortedByKey(l: seq<Insert>)
  {
    forall i, j :: 0 <= i < j < |l| ==> Key(l[i]) <= Key(l[j])
  }

  /** The inserts of `l` whose key is `k`, in order. */
  function WithKey(l: seq<Insert>, k: nat): seq<Insert>
  {
    if l == [] then [] else (if Key(l[0]) == k then [l[0]] else []) + WithKey(l[1..], k)
  }

  lemma {:induction false} InsertByKeyMembers(e: Insert, l: seq<Insert>)
    ensures forall y :: y in InsertByKey(e, l) ==> y == e || y in l
    ensures multiset(InsertByKey(e, l)) == multiset([e] + l)
  {
    if l != [] && Key(e) > Key(l[0]) {
      InsertByKeyMembers(e, l[1..]);
      assert l == [l[0]] + l[1..];
    }
  }

  lemma {:induction false} InsertByKeySorted(e: Insert, l: seq<Insert>)
    requires SortedByKey(l)
    ensures SortedByKey(InsertByKey(e, l))
  {
    if l != [] && Key(e) > Key(l[0]) {
      var r := InsertByKey(e, l[1..]);
      InsertByKeySorted(e, l[1..]);
      InsertByKeyMembers(e, l[1..]);
      forall j | 0 <= j < |r| ensures Key(l[0]) <= Key(r[j]) {
        assert r[j] in r;
        if r[j] != e {
          var m :| 0 <= m < |l[1..]| && l[1..][m] == r[j];
          assert l[m + 1] == r[j];
        }
      }
      var s := [l[0]] + r;
      forall i, j | 0 <= i < j < |s| ensures Key(s[i]) <= Key(s[j]) {
        assert s[j] == r[j - 1];
        if i > 0 { assert s[i] == r[i - 1]; }
      }
    }
  }

  lemma {:induction false} InsertByKeyStable(e: Insert, l: seq<Insert>, k: nat)
    ensures WithKey(InsertByKey(e, l), k) == WithKey([e] + l, k)
  {
    if l != [] && Key(e) > Key(l[0]) {
      var r := InsertByKey(e, l[1..]);
      InsertByKeyStable(e, l[1..], k);
      var s := [l[0]] + r;
      assert s[1..] == r;
      var t := [e] + l;
      assert t[1..] == l;
      var u := [e] + l[1..];
      assert u[1..] == l[1..];
      var tail := WithKey(l[1..], k);
      assert WithKey(r, k) == WithKey(u, k);
      if Key(l[0]) == k {
        assert WithKey(u, k) == tail;
        assert WithKey(s, k) == [l[0]] + tail;
        assert WithKey(t, k) == WithKey(l, k);
      } else if Key(e) == k {
        assert WithKey(s, k) == [e] + tail;
      } else {
        assert WithKey(s, k) == tail;
      }
    }
  }

  /** The sort orders by key and keeps every insert. */
  lemma {:induction false} SortByKeySorted(l: seq<Insert>)
    ensures SortedByKey(SortByKey(l))
    ensures multiset(SortByKey(l)) == multiset(l)
  {
    if l != [] {
      SortByKeySorted(l[1..]);
      InsertByKeySorted(l[0], SortByKey(l[1..]));
      InsertByKeyMembers(l[0], SortByKey(l[1..]));
      assert l == [l[0]] + l[1..];
    }
  }

  /** The sort is stable: inserts with equal keys keep their staging order. */
  lemma {:induction false} SortByKeyStable(l: seq<Insert>, k: nat)
    ensures WithKey(SortByKey(l), k) == WithKey(l, k)
  {
    if l != [] {
      SortByKeyStable(l[1..], k);
      InsertByKeyStable(l[0], SortByKey(l[1..]), k);
      var s := [l[0]] + SortByKey(l[1..]);
      assert s[0] == l[0] && s[1..] == SortByKey(l[1..]);
    }
  }

  // ---------------------------------------------------------------------
  // Where each insert lands, and the reference result

  /** The original offset after which an insert's words appear: a word
      insert after `idx`, an instruction insert after the last word of the
      instruction it follows. */
  function InsertPos(spv: seq<u32>, e: Insert): int
  {
    match e
    case Word(w) => w.idx
    case Instruction(i) =>
      if i.previousSpvIdx < |spv| then i.previousSpvIdx + HiWord(spv[i.previousSpvIdx]) - 1
      else i.previousSpvIdx
  }

  predicate InsertValid(spv: seq<u32>, e: Insert)
  {
    match e
    case Word(w) =>
      IsHead(spv, w.headIdx) && w.headIdx < w.idx < w.headIdx + HiWord(spv[w.headIdx])
    case Instruction(i) => IsHead(spv, i.previousSpvIdx)
  }

  /** What the engine relies on: a well-formed original body and a current
      body of the same length; word inserts inside the instruction whose head
      they name; instruction inserts after an instruction; and no instruction
      that both grows by a word and is followed by an inserted instruction. */
  predicate EditsValid(spv: seq<u32>, newSpv: seq<u32>, e: seq<Insert>)
  {
    WellFormed(spv) && |newSpv| == |spv|
    && (forall x :: x in e ==> InsertValid(spv, x))
    && (forall x, y :: x in e && y in e && x.Word? && y.Instruction?
          ==> x.w.headIdx != y.ins.previousSpvIdx)
  }

  /** How many word inserts raise the count of the instruction at `p`. */
  function HeadCount(e: seq<Insert>, p: nat): nat
  {
    if e == [] then 0
    else (if e[0].Word? && e[0].w.headIdx == p then 1 else 0) + HeadCount(e[1..], p)
  }

  /** No word count goes past 0xFFFF. */
  predicate NoOverflow(newSpv: seq<u32>, e: seq<Insert>)
  {
    forall p :: 0 <= p < |newSpv| ==> HiWord(newSpv[p]) + HeadCount(e, p) <= MaxU16
  }

  /** The word at `p` once every word insert into its instruction has raised
      its count. */
  function Patched(newSpv: seq<u32>, e: seq<Insert>, p: nat): u32
    requires p < |newSpv| && HiWord(newSpv[p]) + HeadCount(e, p) <= MaxU16
  {
    EncodeWord(HiWord(newSpv[p]) + HeadCount(e, p), LoWord(newSpv[p]))
  }

  /** The words inserted right after offset `p`, in order. */
  function WordsAt(e: seq<Insert>, p: int): seq<u32>
  {
    if e == [] then []
    else (if e[0].Word? && e[0].w.idx == p then [e[0].w.word] else []) + WordsAt(e[1..], p)
  }

  /** The instructions inserted right after offset `p`, in order. */
  function InstructionsAt(spv: seq<u32>, e: seq<Insert>, p: int): seq<u32>
  {
    if e == [] then []
    else
      (if e[0].Instruction? && InsertPos(spv, e[0]) == p then e[0].ins.instruction else [])
        + InstructionsAt(spv, e[1..], p)
  }

  function InsertedAt(spv: seq<u32>, e: seq<Insert>, p: int): seq<u32>
  {
    WordsAt(e, p) + InstructionsAt(spv, e, p)
  }

  /** The reference result from offset `p` on: each word of the current body,
      count raised where needed, followed by everything inserted after it. */
  function IdealFrom(spv: seq<u32>, newSpv: seq<u32>, e: seq<Insert>, p: nat): seq<u32>
    requires NoOverflow(newSpv, e)
    decreases |newSpv| - p
  {
    if p >= |newSpv| then []
    else [Patched(newSpv, e, p)] + InsertedAt(spv, e, p) + IdealFrom(spv, newSpv, e, p + 1)
  }

  function Ideal(spv: seq<u32>, newSpv: seq<u32>, e: seq<Insert>): seq<u32>
    requires NoOverflow(newSpv, e)
  {
    IdealFrom(spv, newSpv, e, 0)
  }

  // ---------------------------------------------------------------------
  // Facts about positions

  lemma InsertPosAtLeastKey(spv: seq<u32>, x: Insert)
    requires WellFormed(spv) && InsertValid(spv, x)
    ensures Key(x) <= InsertPos(spv, x) < |spv|
  {
    if x.Instruction? {
      HeadFacts(spv, x.ins.previousSpvIdx);
    } else {
      HeadFacts(spv, x.w.headIdx);
    }
  }

  /** Two instruction inserts land at the same place only after the same
      instruction. */
  lemma SamePosSameAnchor(spv: seq<u32>, x: Insert, y: Insert)
    requires WellFormed(spv) && InsertValid(spv, x) && InsertValid(spv, y)
    requires x.Instruction? && y.Instruction? && InsertPos(spv, x) == InsertPos(spv, y)
    ensures Key(x) == Key(y)
  {
    var a, b := x.ins.previousSpvIdx, y.ins.previousSpvIdx;
    HeadFacts(spv, a);
    HeadFacts(spv, b);
    if a < b { HeadsApart(spv, a, b); }
    if b < a { HeadsApart(spv, b, a); }
  }

  lemma {:induction false} HeadCountSuffix(e: seq<Insert>, k: nat, p: nat)
    requires k <= |e|
    ensures HeadCount(e[k..], p) <= HeadCount(e, p)
  {
    if k > 0 {
      HeadCountSuffix(e[1..], k - 1, p);
      assert e[1..][k - 1..] == e[k..];
    }
  }

  lemma {:induction false} NoWordsAt(e: seq<Insert>, p: int)
    requires forall x :: x in e && x.Word? ==> x.w.idx != p
    ensures WordsAt(e, p) == []
  {
    if e != [] {
      assert forall x :: x in e[1..] ==> x in e;
      NoWordsAt(e[1..], p);
    }
  }

  lemma {:induction false} NoInstructionsAt(spv: seq<u32>, e: seq<Insert>, p: int)
    requires forall x :: x in e && x.Instruction? ==> InsertPos(spv, x) != p
    ensures InstructionsAt(spv, e, p) == []
  {
    if e != [] {
      assert forall x :: x in e[1..] ==> x in e;
      NoInstructionsAt(spv, e[1..], p);
    }
  }

  /** The patched words from `p` up to `q`. */
  function PatchedRange(newSpv: seq<u32>, e: seq<Insert>, p: nat, q: nat): (r: seq<u32>)
    requires NoOverflow(newSpv, e) && p <= q <= |newSpv|
    ensures |r| == q - p
    ensures forall k :: 0 <= k < q - p ==> r[k] == Patched(newSpv, e, p + k)
    decreases q - p
  {
    if p == q then [] else [Patched(newSpv, e, p)] + PatchedRange(newSpv, e, p + 1, q)
  }

  /** Before the first offset anything is inserted after, the reference
      result is the patched words alone. */
  lemma {:induction false} SplitIdeal(spv: seq<u32>, newSpv: seq<u32>, e: seq<Insert>, p: nat, q: nat)
    requires NoOverflow(newSpv, e) && p <= q <= |newSpv|
    requires forall x :: x in e ==> InsertPos(spv, x) >= q
    ensures IdealFrom(spv, newSpv, e, p) == PatchedRange(newSpv, e, p, q) + IdealFrom(spv, newSpv, e, q)
    decreases q - p
  {
    if p < q {
      NoWordsAt(e, p);
      NoInstructionsAt(spv, e, p);
      SplitIdeal(spv, newSpv, e, p + 1, q);
    }
  }

  /** The reference result depends only on the counts and the inserted words
      at each offset. */
  lemma {:induction false} IdealAgree(spv: seq<u32>, newSpv: seq<u32>, e1: seq<Insert>, e2: seq<Insert>, p: nat)
    requires NoOverflow(newSpv, e1) && NoOverflow(newSpv, e2)
    requires forall q :: p <= q < |newSpv| ==> HeadCount(e1, q) == HeadCount(e2, q)
    requires forall q :: p <= q < |newSpv| ==> InsertedAt(spv, e1, q) == InsertedAt(spv, e2, q)
    ensures IdealFrom(spv, newSpv, e1, p) == IdealFrom(spv, newSpv, e2, p)
    decreases |newSpv| - p
  {
    if p < |newSpv| {
      IdealAgree(spv, newSpv, e1, e2, p + 1);
    }
  }

  // ---------------------------------------------------------------------
  // One step of the engine

  lemma SuffixValid(spv: seq<u32>, newSpv: seq<u32>, l: seq<Insert>, k: nat)
    requires EditsValid(spv, newSpv, l) && k <= |l|
    ensures EditsValid(spv, newSpv, l[k..])
  {
    assert forall x :: x in l[k..] ==> x in l;
  }

  /** The reference result around the first offset anything is inserted
      after. */
  lemma ExpandIdeal(spv: seq<u32>, newSpv: seq<u32>, e: seq<Insert>, k: nat)
    requires NoOverflow(newSpv, e) && k < |newSpv|
    requires forall x :: x in e ==> InsertPos(spv, x) >= k
    ensures Ideal(spv, newSpv, e) == PatchedRange(newSpv, e, 0, k) + [Patched(newSpv, e, k)]
      + InsertedAt(spv, e, k) + IdealFrom(spv, newSpv, e, k + 1)
  {
    SplitIdeal(spv, newSpv, e, 0, k);
  }

  lemma PositionsAfterWord(spv: seq<u32>, x: Insert, rest: seq<Insert>)
    requires WellFormed(spv) && x.Word?
    requires forall y :: y in rest ==> InsertValid(spv, y) && Key(x) <= Key(y)
    ensures forall y :: y in rest ==> InsertPos(spv, y) >= x.w.idx
    ensures forall y :: y in [x] + rest ==> InsertPos(spv, y) >= x.w.idx
  {
    forall y | y in rest ensures InsertPos(spv, y) >= x.w.idx {
      InsertPosAtLeastKey(spv, y);
    }
  }

  lemma PositionsAfterInstruction(spv: seq<u32>, x: Insert, rest: seq<Insert>)
    requires WellFormed(spv) && x.Instruction? && InsertValid(spv, x)
    requires forall y :: y in rest ==> InsertValid(spv, y) && Key(x) <= Key(y)
    requires forall y :: y in rest && y.Word? ==> y.w.headIdx != x.ins.previousSpvIdx
    ensures forall y :: y in [x] + rest ==> InsertPos(spv, y) >= InsertPos(spv, x)
    ensures forall y :: y in rest && InsertPos(spv, y) == InsertPos(spv, x) ==> y.Instruction?
  {
    var a := x.ins.previousSpvIdx;
    HeadFacts(spv, a);
    forall y | y in rest
      ensures InsertPos(spv, y) >= InsertPos(spv, x)
      ensures InsertPos(spv, y) == InsertPos(spv, x) ==> y.Instruction?
    {
      if y.Word? {
        var hy := y.w.headIdx;
        if hy < a { HeadsApart(spv, hy, a); } else { HeadsApart(spv, a, hy); }
      } else {
        var b := y.ins.previousSpvIdx;
        HeadFacts(spv, b);
        if b > a { HeadsApart(spv, a, b); }
      }
    }
  }

  /** A word insert raises exactly its own instruction's count. */
  lemma WordOverflow(spv: seq<u32>, newSpv: seq<u32>, x: Insert, rest: seq<Insert>)
    requires x.Word? && x.w.headIdx < |newSpv| && NoOverflow(newSpv, rest)
    ensures NoOverflow(newSpv, [x] + rest) <==> HiWord(Patched(newSpv, rest, x.w.headIdx)) < MaxU16
    ensures NoOverflow(newSpv, [x] + rest) ==> forall p :: 0 <= p < |newSpv| ==>
      Patched(newSpv, [x] + rest, p)
        == if p == x.w.headIdx then EncodeWord(HiWord(Patched(newSpv, rest, p)) + 1, LoWord(Patched(newSpv, rest, p)))
           else Patched(newSpv, rest, p)
  {
    assert ([x] + rest)[1..] == rest;
    if !NoOverflow(newSpv, [x] + rest) {
      var p :| 0 <= p < |newSpv| && HiWord(newSpv[p]) + HeadCount([x] + rest, p) > MaxU16;
      assert p == x.w.headIdx;
    }
  }

  /** Past the offset a word insert lands after, it changes nothing. */
  lemma WordTail(spv: seq<u32>, newSpv: seq<u32>, x: Insert, rest: seq<Insert>)
    requires x.Word? && x.w.idx < |newSpv| && x.w.headIdx < x.w.idx
    requires NoOverflow(newSpv, rest) && NoOverflow(newSpv, [x] + rest)
    ensures IdealFrom(spv, newSpv, [x] + rest, x.w.idx + 1) == IdealFrom(spv, newSpv, rest, x.w.idx + 1)
  {
    var l := [x] + rest;
    assert l[0] == x && l[1..] == rest;
    forall q | x.w.idx + 1 <= q < |newSpv|
      ensures HeadCount(l, q) == HeadCount(rest, q)
      ensures InsertedAt(spv, l, q) == InsertedAt(spv, rest, q)
    {
      assert WordsAt(l, q) == WordsAt(rest, q);
      assert InstructionsAt(spv, l, q) == InstructionsAt(spv, rest, q);
    }
    IdealAgree(spv, newSpv, l, rest, x.w.idx + 1);
  }

  /** At the offset a word insert lands after, its word comes first. */
  lemma WordHere(spv: seq<u32>, newSpv: seq<u32>, x: Insert, rest: seq<Insert>)
    requires x.Word? && x.w.idx < |newSpv| && x.w.headIdx < x.w.idx
    requires NoOverflow(newSpv, rest) && NoOverflow(newSpv, [x] + rest)
    ensures Patched(newSpv, [x] + rest, x.w.idx) == Patched(newSpv, rest, x.w.idx)
    ensures InsertedAt(spv, [x] + rest, x.w.idx) == [x.w.word] + InsertedAt(spv, rest, x.w.idx)
  {
    var l := [x] + rest;
    assert l[0] == x && l[1..] == rest;
    assert WordsAt(l, x.w.idx) == [x.w.word] + WordsAt(rest, x.w.idx);
    assert InstructionsAt(spv, l, x.w.idx) == InstructionsAt(spv, rest, x.w.idx);
    Assoc([x.w.word], WordsAt(rest, x.w.idx), InstructionsAt(spv, rest, x.w.idx));
  }

  lemma BumpRange(newSpv: seq<u32>, x: Insert, rest: seq<Insert>, k: nat)
    requires x.Word? && x.w.headIdx < k <= |newSpv|
    requires NoOverflow(newSpv, rest) && NoOverflow(newSpv, [x] + rest)
    requires forall p :: 0 <= p < |newSpv| ==>
      Patched(newSpv, [x] + rest, p)
        == if p == x.w.headIdx then EncodeWord(HiWord(Patched(newSpv, rest, p)) + 1, LoWord(Patched(newSpv, rest, p)))
           else Patched(newSpv, rest, p)
    ensures var pre := PatchedRange(newSpv, rest, 0, k);
      PatchedRange(newSpv, [x] + rest, 0, k)
        == pre[x.w.headIdx := EncodeWord(HiWord(pre[x.w.headIdx]) + 1, LoWord(pre[x.w.headIdx]))]
  {
  }

  lemma Assoc(a: seq<u32>, b: seq<u32>, c: seq<u32>)
    ensures (a + b) + c == a + (b + c)
  {
  }

  lemma Regroup(a: seq<u32>, b: seq<u32>, c: seq<u32>, d: seq<u32>, e: seq<u32>)
    ensures a + b + (c + d) + e == a + (b + c + (d + e))
  {
  }

  lemma Regroup3(a: seq<u32>, b: seq<u32>, c: seq<u32>, d: seq<u32>)
    ensures (a + b) + c + d == a + (b + c + d)
  {
  }

  lemma Regroup2(a: seq<u32>, b: seq<u32>, c: seq<u32>, d: seq<u32>, e: seq<u32>)
    ensures (a + b) + c + (d + e) == a + b + (c + d) + e
  {
  }

  lemma UpdateFront(a: seq<u32>, b: seq<u32>, i: nat, v: u32)
    requires i < |a|
    ensures (a + b)[i := v] == a[i := v] + b
  {
  }

  /** The reference result of the inserts after a word insert with the
      smallest key, cut where that insert lands. */
  lemma WordFront(spv: seq<u32>, newSpv: seq<u32>, x: Insert, rest: seq<Insert>, cur: seq<u32>)
    requires WellFormed(spv) && |newSpv| == |spv| && x.Word? && InsertValid(spv, x)
    requires forall y :: y in rest ==> InsertPos(spv, y) >= x.w.idx
    requires NoOverflow(newSpv, rest) && cur == Ideal(spv, newSpv, rest)
    ensures x.w.headIdx < x.w.idx < |newSpv| && x.w.idx + 1 <= |cur|
    ensures cur[..x.w.idx + 1] + [x.w.word] + cur[x.w.idx + 1..]
      == PatchedRange(newSpv, rest, 0, x.w.idx)
        + ([Patched(newSpv, rest, x.w.idx)] + [x.w.word]
           + (InsertedAt(spv, rest, x.w.idx) + IdealFrom(spv, newSpv, rest, x.w.idx + 1)))
  {
    HeadFacts(spv, x.w.headIdx);
    CutIdeal(spv, newSpv, rest, cur, x.w.idx, x.w.word);
  }

  /** The reference result cut after offset `k`, when nothing is inserted
      before it. */
  lemma CutIdeal(spv: seq<u32>, newSpv: seq<u32>, rest: seq<Insert>, cur: seq<u32>, k: nat, w: u32)
    requires k < |newSpv| && forall y :: y in rest ==> InsertPos(spv, y) >= k
    requires NoOverflow(newSpv, rest) && cur == Ideal(spv, newSpv, rest)
    ensures k + 1 <= |cur|
    ensures cur[..k + 1] + [w] + cur[k + 1..]
      == PatchedRange(newSpv, rest, 0, k)
        + ([Patched(newSpv, rest, k)] + [w]
           + (InsertedAt(spv, rest, k) + IdealFrom(spv, newSpv, rest, k + 1)))
  {
    ExpandIdeal(spv, newSpv, rest, k);
    var pre := PatchedRange(newSpv, rest, 0, k);
    CutInsert(pre, Patched(newSpv, rest, k), InsertedAt(spv, rest, k), IdealFrom(spv, newSpv, rest, k + 1), w, cur);
  }

  /** A word put right after position `|pre|` of `pre + [v] + i + f`. */
  lemma CutInsert(pre: seq<u32>, v: u32, i: seq<u32>, f: seq<u32>, w: u32, cur: seq<u32>)
    requires cur == pre + [v] + i + f
    ensures |pre| + 1 <= |cur|
    ensures cur[..|pre| + 1] + [w] + cur[|pre| + 1..] == pre + ([v] + [w] + (i + f))
  {
    Cut(pre, [v], i, f);
    Regroup3(pre, [v], [w], i + f);
  }

  /** Once a word insert with the smallest key is in, the head of its
      instruction still holds the count the later inserts gave it, and one
      more word overflows exactly when that count is 0xFFFF. */
  lemma WordStepHead(spv: seq<u32>, newSpv: seq<u32>, x: Insert, rest: seq<Insert>, grown: seq<u32>)
    requires x.Word? && x.w.headIdx < x.w.idx < |newSpv|
    requires NoOverflow(newSpv, rest)
    requires grown == PatchedRange(newSpv, rest, 0, x.w.idx)
      + ([Patched(newSpv, rest, x.w.idx)] + [x.w.word]
         + (InsertedAt(spv, rest, x.w.idx) + IdealFrom(spv, newSpv, rest, x.w.idx + 1)))
    ensures x.w.headIdx < |grown| && grown[x.w.headIdx] == Patched(newSpv, rest, x.w.headIdx)
    ensures NoOverflow(newSpv, [x] + rest) <==> HiWord(grown[x.w.headIdx]) < MaxU16
  {
    WordOverflow(spv, newSpv, x, rest);
  }

  /** Raising that count then gives the reference result of all of them. */
  lemma WordStep(spv: seq<u32>, newSpv: seq<u32>, x: Insert, rest: seq<Insert>, grown: seq<u32>)
    requires x.Word? && x.w.headIdx < x.w.idx < |newSpv|
    requires forall y :: y in [x] + rest ==> InsertPos(spv, y) >= x.w.idx
    requires NoOverflow(newSpv, rest) && NoOverflow(newSpv, [x] + rest)
    requires grown == PatchedRange(newSpv, rest, 0, x.w.idx)
      + ([Patched(newSpv, rest, x.w.idx)] + [x.w.word]
         + (InsertedAt(spv, rest, x.w.idx) + IdealFrom(spv, newSpv, rest, x.w.idx + 1)))
    requires x.w.headIdx < |grown| && HiWord(grown[x.w.headIdx]) < MaxU16
    ensures grown[x.w.headIdx := EncodeWord(HiWord(grown[x.w.headIdx]) + 1, LoWord(grown[x.w.headIdx]))]
      == Ideal(spv, newSpv, [x] + rest)
  {
    var l := [x] + rest;
    var k, h := x.w.idx, x.w.headIdx;
    var pre := PatchedRange(newSpv, rest, 0, k);
    var P, I, F := Patched(newSpv, rest, k), InsertedAt(spv, rest, k), IdealFrom(spv, newSpv, rest, k + 1);
    var after := [P] + [x.w.word] + (I + F);
    assert grown[h] == pre[h];
    WordOverflow(spv, newSpv, x, rest);
    ExpandIdeal(spv, newSpv, l, k);
    WordTail(spv, newSpv, x, rest);
    WordHere(spv, newSpv, x, rest);
    BumpRange(newSpv, x, rest, k);
    var bump := EncodeWord(HiWord(grown[h]) + 1, LoWord(grown[h]));
    var front := pre[h := bump];
    UpdateFront(pre, after, h, bump);
    Regroup(front, [P], [x.w.word], I, F);
    assert Ideal(spv, newSpv, l) == front + [P] + ([x.w.word] + I) + F;
  }

  /** Past the offset an instruction insert lands after, it changes
      nothing; before it, no count changes. */
  lemma InstructionTail(spv: seq<u32>, newSpv: seq<u32>, x: Insert, rest: seq<Insert>, q: nat)
    requires x.Instruction? && InsertPos(spv, x) == q < |newSpv| && NoOverflow(newSpv, rest)
    ensures NoOverflow(newSpv, [x] + rest)
    ensures forall p :: 0 <= p < |newSpv| ==> Patched(newSpv, [x] + rest, p) == Patched(newSpv, rest, p)
    ensures InsertedAt(spv, [x] + rest, q) == WordsAt(rest, q) + x.ins.instruction + InstructionsAt(spv, rest, q)
    ensures IdealFrom(spv, newSpv, [x] + rest, q + 1) == IdealFrom(spv, newSpv, rest, q + 1)
  {
    var l := [x] + rest;
    assert l[0] == x && l[1..] == rest;
    forall p: nat | p < |newSpv| ensures HeadCount(l, p) == HeadCount(rest, p) { }
    forall p | q + 1 <= p < |newSpv| ensures InsertedAt(spv, l, p) == InsertedAt(spv, rest, p) {
      assert WordsAt(l, p) == WordsAt(rest, p);
      assert InstructionsAt(spv, l, p) == InstructionsAt(spv, rest, p);
    }
    assert WordsAt(l, q) == WordsAt(rest, q);
    assert InstructionsAt(spv, l, q) == x.ins.instruction + InstructionsAt(spv, rest, q);
    IdealAgree(spv, newSpv, l, rest, q + 1);
  }

  /** Where an instruction insert with the smallest key lands, and that no
      other insert lands before it or adds a word at the same place. */
  lemma InstructionPlace(spv: seq<u32>, newSpv: seq<u32>, x: Insert, rest: seq<Insert>)
    requires WellFormed(spv) && |newSpv| == |spv| && x.Instruction? && InsertValid(spv, x)
    requires forall y :: y in rest ==> InsertValid(spv, y) && Key(x) <= Key(y)
    requires forall y :: y in rest && y.Word? ==> y.w.headIdx != x.ins.previousSpvIdx
    ensures x.ins.previousSpvIdx < |spv| && 1 <= HiWord(spv[x.ins.previousSpvIdx])
    ensures InsertPos(spv, x) == x.ins.previousSpvIdx + HiWord(spv[x.ins.previousSpvIdx]) - 1
    ensures 0 <= InsertPos(spv, x) < |newSpv|
    ensures forall y :: y in [x] + rest ==> InsertPos(spv, y) >= InsertPos(spv, x)
    ensures WordsAt(rest, InsertPos(spv, x)) == []
  {
    HeadFacts(spv, x.ins.previousSpvIdx);
    PositionsAfterInstruction(spv, x, rest);
    NoWordsAt(rest, InsertPos(spv, x));
  }

  lemma Cut(a: seq<u32>, b: seq<u32>, c: seq<u32>, d: seq<u32>)
    ensures |a + b| <= |a + b + c + d|
    ensures (a + b + c + d)[..|a + b|] == a + b
    ensures (a + b + c + d)[|a + b|..] == c + d
  {
    assert a + b + c + d == (a + b) + (c + d);
  }

  /** The reference result of the rest, cut after the last word of the
      instruction such an insert follows. */
  lemma InstructionFront(spv: seq<u32>, newSpv: seq<u32>, rest: seq<Insert>, cur: seq<u32>, q: nat)
    requires q < |newSpv| && forall y :: y in rest ==> InsertPos(spv, y) >= q
    requires WordsAt(rest, q) == []
    requires NoOverflow(newSpv, rest) && cur == Ideal(spv, newSpv, rest)
    ensures q + 1 <= |cur|
    ensures cur[..q + 1] == PatchedRange(newSpv, rest, 0, q) + [Patched(newSpv, rest, q)]
    ensures cur[q + 1..] == InstructionsAt(spv, rest, q) + IdealFrom(spv, newSpv, rest, q + 1)
  {
    ExpandIdeal(spv, newSpv, rest, q);
    assert InsertedAt(spv, rest, q) == InstructionsAt(spv, rest, q);
    Cut(PatchedRange(newSpv, rest, 0, q), [Patched(newSpv, rest, q)],
        InstructionsAt(spv, rest, q), IdealFrom(spv, newSpv, rest, q + 1));
  }

  /** The same for an instruction insert with the smallest key, which never
      fails. */
  lemma InstructionStep(spv: seq<u32>, newSpv: seq<u32>, x: Insert, rest: seq<Insert>, cur: seq<u32>, q: nat)
    requires x.Instruction? && InsertPos(spv, x) == q && q + 1 <= |cur| && q < |newSpv|
    requires forall y :: y in [x] + rest ==> InsertPos(spv, y) >= q
    requires NoOverflow(newSpv, rest)
    requires cur[..q + 1] == PatchedRange(newSpv, rest, 0, q) + [Patched(newSpv, rest, q)]
    requires cur[q + 1..] == InstructionsAt(spv, rest, q) + IdealFrom(spv, newSpv, rest, q + 1)
    requires WordsAt(rest, q) == []
    ensures NoOverflow(newSpv, [x] + rest)
    ensures cur[..q + 1] + x.ins.instruction + cur[q + 1..] == Ideal(spv, newSpv, [x] + rest)
  {
    var l := [x] + rest;
    InstructionTail(spv, newSpv, x, rest, q);
    ExpandIdeal(spv, newSpv, l, q);
    var front := PatchedRange(newSpv, rest, 0, q);
    assert PatchedRange(newSpv, l, 0, q) == front;
    var P, I, F := Patched(newSpv, rest, q), InstructionsAt(spv, rest, q), IdealFrom(spv, newSpv, rest, q + 1);
    assert InsertedAt(spv, l, q) == x.ins.instruction + I;
    assert Ideal(spv, newSpv, l) == front + [P] + (x.ins.instruction + I) + F;
    assert cur == cur[..q + 1] + cur[q + 1..];
    Regroup2(front, [P], x.ins.instruction, I, F);
  }

  // ---------------------------------------------------------------------
  // Sorting does not change the reference result

  lemma {:induction false} InsertByKeyCounts(e: Insert, l: seq<Insert>, p: nat)
    ensures HeadCount(InsertByKey(e, l), p) == HeadCount([e] + l, p)
  {
    if l != [] && Key(e) > Key(l[0]) {
      var r := InsertByKey(e, l[1..]);
      InsertByKeyCounts(e, l[1..], p);
      var s, t, u := [l[0]] + r, [e] + l, [e] + l[1..];
      assert s[0] == l[0] && s[1..] == r;
      assert t[0] == e && t[1..] == l;
      assert u[0] == e && u[1..] == l[1..];
    }
  }

  lemma {:induction false} InsertByKeyWords(e: Insert, l: seq<Insert>, p: int)
    ensures WordsAt(InsertByKey(e, l), p) == WordsAt([e] + l, p)
  {
    if l != [] && Key(e) > Key(l[0]) {
      var r := InsertByKey(e, l[1..]);
      InsertByKeyWords(e, l[1..], p);
      var s, t, u := [l[0]] + r, [e] + l, [e] + l[1..];
      assert s[0] == l[0] && s[1..] == r;
      assert t[0] == e && t[1..] == l;
      assert u[0] == e && u[1..] == l[1..];
      var tail := WordsAt(l[1..], p);
      if l[0].Word? && l[0].w.idx == p {
        assert !(e.Word? && e.w.idx == p);
        assert WordsAt(s, p) == [l[0].w.word] + tail;
        assert WordsAt(t, p) == [l[0].w.word] + tail;
      } else if e.Word? && e.w.idx == p {
        assert WordsAt(s, p) == [e.w.word] + tail;
        assert WordsAt(t, p) == [e.w.word] + tail;
      } else {
        assert WordsAt(s, p) == tail;
      }
    }
  }

  /** The words of `x` if it is an instruction insert placed after `p`. */
  function InstructionHere(spv: seq<u32>, x: Insert, p: int): seq<u32>
  {
    if x.Instruction? && InsertPos(spv, x) == p then x.ins.instruction else []
  }

  lemma InstructionsAtCons(spv: seq<u32>, x: Insert, rest: seq<Insert>, p: int)
    ensures InstructionsAt(spv, [x] + rest, p) == InstructionHere(spv, x, p) + InstructionsAt(spv, rest, p)
  {
    var l := [x] + rest;
    assert l[0] == x && l[1..] == rest;
  }

  lemma {:induction false} InsertByKeyInstructions(spv: seq<u32>, e: Insert, l: seq<Insert>, p: int)
    requires WellFormed(spv) && InsertValid(spv, e) && forall x :: x in l ==> InsertValid(spv, x)
    ensures InstructionsAt(spv, InsertByKey(e, l), p) == InstructionsAt(spv, [e] + l, p)
  {
    if l != [] && Key(e) > Key(l[0]) {
      assert forall x :: x in l[1..] ==> x in l;
      assert l[0] in l;
      InsertByKeyInstructions(spv, e, l[1..], p);
      InstructionsPastHead(spv, e, l, p);
    }
  }

  /** One step of the insertion: `e` passes the head of `l`. */
  lemma InstructionsPastHead(spv: seq<u32>, e: Insert, l: seq<Insert>, p: int)
    requires l != [] && Key(e) > Key(l[0])
    requires WellFormed(spv) && InsertValid(spv, e) && InsertValid(spv, l[0])
    requires InstructionsAt(spv, InsertByKey(e, l[1..]), p) == InstructionsAt(spv, [e] + l[1..], p)
    ensures InstructionsAt(spv, InsertByKey(e, l), p) == InstructionsAt(spv, [e] + l, p)
  {
    var r := InsertByKey(e, l[1..]);
    assert InsertByKey(e, l) == [l[0]] + r;
    assert l == [l[0]] + l[1..];
    var a, b := InstructionHere(spv, l[0], p), InstructionHere(spv, e, p);
    var tail := InstructionsAt(spv, l[1..], p);
    InstructionsAtCons(spv, l[0], r, p);
    InstructionsAtCons(spv, e, l[1..], p);
    InstructionsAtCons(spv, e, l, p);
    InstructionsAtCons(spv, l[0], l[1..], p);
    assert InstructionsAt(spv, InsertByKey(e, l), p) == a + (b + tail);
    assert InstructionsAt(spv, [e] + l, p) == b + (a + tail);
    OneHere(spv, e, l[0], p);
    Swap(a, b, tail);
  }

  lemma OneHere(spv: seq<u32>, e: Insert, x: Insert, p: int)
    requires WellFormed(spv) && InsertValid(spv, e) && InsertValid(spv, x) && Key(e) != Key(x)
    ensures InstructionHere(spv, e, p) == [] || InstructionHere(spv, x, p) == []
  {
    if e.Instruction? && InsertPos(spv, e) == p && x.Instruction? && InsertPos(spv, x) == p {
      SamePosSameAnchor(spv, e, x);
    }
  }

  lemma Swap(a: seq<u32>, b: seq<u32>, c: seq<u32>)
    requires a == [] || b == []
    ensures a + (b + c) == b + (a + c)
  {
    if a == [] {
      assert a + (b + c) == b + c == b + (a + c);
    } else {
      assert a + (b + c) == a + c == b + (a + c);
    }
  }

  lemma {:induction false} SortCounts(l: seq<Insert>, p: nat)
    ensures HeadCount(SortByKey(l), p) == HeadCount(l, p)
  {
    if l != [] {
      SortCounts(l[1..], p);
      InsertByKeyCounts(l[0], SortByKey(l[1..]), p);
      var s := [l[0]] + SortByKey(l[1..]);
      assert s[0] == l[0] && s[1..] == SortByKey(l[1..]);
    }
  }

  lemma {:induction false} SortWords(l: seq<Insert>, p: int)
    ensures WordsAt(SortByKey(l), p) == WordsAt(l, p)
  {
    if l != [] {
      SortWords(l[1..], p);
      InsertByKeyWords(l[0], SortByKey(l[1..]), p);
      var s := [l[0]] + SortByKey(l[1..]);
      assert s[0] == l[0] && s[1..] == SortByKey(l[1..]);
    }
  }

  lemma {:induction false} SortInstructions(spv: seq<u32>, l: seq<Insert>, p: int)
    requires WellFormed(spv) && forall x :: x in l ==> InsertValid(spv, x)
    ensures InstructionsAt(spv, SortByKey(l), p) == InstructionsAt(spv, l, p)
  {
    if l != [] {
      assert forall x :: x in l[1..] ==> x in l;
      SortInstructions(spv, l[1..], p);
      SortByKeySorted(l[1..]);
      assert forall x :: x in SortByKey(l[1..]) ==> x in multiset(l[1..]);
      assert l[0] in l;
      InsertByKeyInstructions(spv, l[0], SortByKey(l[1..]), p);
      var s := [l[0]] + SortByKey(l[1..]);
      assert s[0] == l[0] && s[1..] == SortByKey(l[1..]);
    }
  }

  /** Sorting keeps the inserts valid, and changes neither whether a count
      overflows nor the reference result. */
  lemma SortPreserves(spv: seq<u32>, newSpv: seq<u32>, l: seq<Insert>)
    requires EditsValid(spv, newSpv, l)
    ensures EditsValid(spv, newSpv, SortByKey(l)) && SortedByKey(SortByKey(l))
    ensures NoOverflow(newSpv, SortByKey(l)) <==> NoOverflow(newSpv, l)
    ensures NoOverflow(newSpv, l) ==> Ideal(spv, newSpv, SortByKey(l)) == Ideal(spv, newSpv, l)
  {
    SortByKeySorted(l);
    assert forall x :: x in SortByKey(l) ==> x in multiset(l);
    forall p: nat | p < |newSpv|
      ensures HeadCount(SortByKey(l), p) == HeadCount(l, p)
      ensures InsertedAt(spv, SortByKey(l), p) == InsertedAt(spv, l, p)
    {
      SortCounts(l, p);
      SortWords(l, p);
      SortInstructions(spv, l, p);
    }
    if NoOverflow(newSpv, l) {
      IdealAgree(spv, newSpv, SortByKey(l), l, 0);
    }
  }

  lemma {:induction false} IdealOfNothing(spv: seq<u32>, newSpv: seq<u32>, p: nat)
    requires p <= |newSpv|
    ensures NoOverflow(newSpv, [])
    ensures IdealFrom(spv, newSpv, [], p) == newSpv[p..]
    decreases |newSpv| - p
  {
    if p < |newSpv| {
      IdealOfNothing(spv, newSpv, p + 1);
      EncodeHiLo(newSpv[p]);
    }
  }

  lemma OverflowSuffix(newSpv: seq<u32>, l: seq<Insert>, k: nat)
    requires k <= |l| && !NoOverflow(newSpv, l[k..])
    ensures !NoOverflow(newSpv, l)
  {
    var p :| 0 <= p < |newSpv| && HiWord(newSpv[p]) + HeadCount(l[k..], p) > MaxU16;
    HeadCountSuffix(l, k, p);
  }

  // ---------------------------------------------------------------------
  // The engine

  /** Inserts `words` one at a time, each after the previous one, so that
      they end up in order before offset `at`. */
  method InsertWordsAt(s: seq<u32>, at: nat, words: seq<u32>) returns (r: seq<u32>)
    requires at <= |s|
    ensures r == s[..at] + words + s[at..]
  {
    r := s;
    var j := 0;
    while j < |words|
      invariant 0 <= j <= |words|
      invariant r == s[..at] + words[..j] + s[at..]
    {
      r := r[..at + j] + [words[j]] + r[at + j..];
      assert words[..j + 1] == words[..j] + [words[j]];
      j := j + 1;
    }
    assert words[..j] == words;
  }

  /** Applies a word insert with the smallest key to the result of applying
      all later inserts: the word goes in after `idx` and the count of the
      instruction at `headIdx` goes up by one. */
  method ApplyWordInsert(spv: seq<u32>, newSpv: seq<u32>, x: Insert, rest: seq<Insert>, out: seq<u32>)
    returns (r: Result<seq<u32>>)
    requires WellFormed(spv) && |newSpv| == |spv| && x.Word? && InsertValid(spv, x)
    requires forall y :: y in rest ==> InsertValid(spv, y) && Key(x) <= Key(y)
    requires NoOverflow(newSpv, rest) && out == Ideal(spv, newSpv, rest)
    ensures r.Success? <==> NoOverflow(newSpv, [x] + rest)
    ensures r.Success? ==> r.value == Ideal(spv, newSpv, [x] + rest)
  {
    var w := x.w;
    PositionsAfterWord(spv, x, rest);
    WordFront(spv, newSpv, x, rest, out);
    var grown := out[..w.idx + 1] + [w.word] + out[w.idx + 1..];
    WordStepHead(spv, newSpv, x, rest, grown);
    if HiWord(grown[w.headIdx]) == MaxU16 {
      return Failure(WordCountOverflow);
    }
    WordStep(spv, newSpv, x, rest, grown);
    r := Success(grown[w.headIdx := EncodeWord(HiWord(grown[w.headIdx]) + 1, LoWord(grown[w.headIdx]))]);
  }

  /** Applies an instruction insert with the smallest key to the result of
      applying all later inserts: its words go in after the last word of the
      instruction at `previousSpvIdx`. */
  method ApplyInstructionInsert(spv: seq<u32>, newSpv: seq<u32>, x: Insert, rest: seq<Insert>, out: seq<u32>)
    returns (r: seq<u32>)
    requires WellFormed(spv) && |newSpv| == |spv| && x.Instruction? && InsertValid(spv, x)
    requires forall y :: y in rest ==> InsertValid(spv, y) && Key(x) <= Key(y)
    requires forall y :: y in rest && y.Word? ==> y.w.headIdx != x.ins.previousSpvIdx
    requires NoOverflow(newSpv, rest) && out == Ideal(spv, newSpv, rest)
    ensures NoOverflow(newSpv, [x] + rest)
    ensures r == Ideal(spv, newSpv, [x] + rest)
  {
    var i := x.ins;
    InstructionPlace(spv, newSpv, x, rest);
    InstructionFront(spv, newSpv, rest, out, InsertPos(spv, x));
    InstructionStep(spv, newSpv, x, rest, out, InsertPos(spv, x));
    var offset := HiWord(spv[i.previousSpvIdx]);
    r := InsertWordsAt(out, i.previousSpvIdx + offset, i.instruction);
  }

  /** What applying the insert at `k` of the sorted list needs. */
  lemma SortedSuffix(spv: seq<u32>, newSpv: seq<u32>, l: seq<Insert>, k: nat)
    requires EditsValid(spv, newSpv, l) && SortedByKey(l) && k < |l|
    ensures InsertValid(spv, l[k])
    ensures forall y :: y in l[k + 1..] ==> InsertValid(spv, y) && Key(l[k]) <= Key(y)
    ensures forall y :: y in l[k + 1..] && y.Word? && l[k].Instruction? ==> y.w.headIdx != l[k].ins.previousSpvIdx
    ensures l[k..] == [l[k]] + l[k + 1..]
  {
    assert l[k] in l;
    forall y | y in l[k + 1..]
      ensures InsertValid(spv, y) && Key(l[k]) <= Key(y)
      ensures y.Word? && l[k].Instruction? ==> y.w.headIdx != l[k].ins.previousSpvIdx
    {
      var j :| 0 <= j < |l[k + 1..]| && l[k + 1..][j] == y;
      assert l[k + 1 + j] == y;
    }
  }

  /** Applies the staged inserts: sorts them stably by the original offset
      they refer to and applies them from the last to the first, so that the
      result is the reference result `Ideal`.  A word count raised past
      0xFFFF fails, as the source's u16 addition does. */
  method InsertNewInstructions(spv: seq<u32>, newSpv: seq<u32>,
                               wordInserts: seq<WordInsert>, instructionInserts: seq<InstructionInsert>)
    returns (r: Result<seq<u32>>)
    requires EditsValid(spv, newSpv, Merge(wordInserts, instructionInserts))
    ensures r.Success? <==> NoOverflow(newSpv, Merge(wordInserts, instructionInserts))
    ensures r.Success? ==> r.value == Ideal(spv, newSpv, Merge(wordInserts, instructionInserts))
  {
    ghost var merged := Merge(wordInserts, instructionInserts);
    var inserts := SortByKey(Merge(wordInserts, instructionInserts));
    SortPreserves(spv, newSpv, merged);
    var out := newSpv;
    var k := |inserts|;
    assert inserts[k..] == [];
    IdealOfNothing(spv, newSpv, 0);
    while k > 0
      invariant 0 <= k <= |inserts|
      invariant NoOverflow(newSpv, inserts[k..])
      invariant out == Ideal(spv, newSpv, inserts[k..])
    {
      k := k - 1;
      SortedSuffix(spv, newSpv, inserts, k);
      match inserts[k] {
        case Word(_) =>
          var step := ApplyWordInsert(spv, newSpv, inserts[k], inserts[k + 1..], out);
          if step.Failure? {
            OverflowSuffix(newSpv, inserts, k);
            return Failure(step.error);
          }
          out := step.value;
        case Instruction(_) =>
          out := ApplyInstructionInsert(spv, newSpv, inserts[k], inserts[k + 1..], out);
      }
    }
    assert inserts[0..] == inserts;
    r := Success(out);
  }

  // ---------------------------------------------------------------------
  // Length of the result

  /** All the words the inserts add. */
  function TotalPayload(e: seq<Insert>): nat
  {
    if e == [] then 0 else |Payload(e[0])| + TotalPayload(e[1..])
  }

  /** Total length of a list of instructions. */
  function InstructionWords(insts: seq<InstructionInsert>): nat
  {
    if insts == [] then 0 else |insts[0].instruction| + InstructionWords(insts[1..])
  }

  /** The words inserted after offsets `p` up to `n`. */
  function InsertedBetween(spv: seq<u32>, e: seq<Insert>, p: nat, n: nat): nat
    decreases n - p
  {
    if p >= n then 0 else |InsertedAt(spv, e, p)| + InsertedBetween(spv, e, p + 1, n)
  }

  lemma {:induction false} IdealFromLength(spv: seq<u32>, newSpv: seq<u32>, e: seq<Insert>, p: nat)
    requires NoOverflow(newSpv, e) && p <= |newSpv|
    ensures |IdealFrom(spv, newSpv, e, p)| == |newSpv| - p + InsertedBetween(spv, e, p, |newSpv|)
    decreases |newSpv| - p
  {
    if p < |newSpv| {
      IdealFromLength(spv, newSpv, e, p + 1);
      IdealFromStepLength(spv, newSpv, e, p);
    }
  }

  lemma IdealFromStepLength(spv: seq<u32>, newSpv: seq<u32>, e: seq<Insert>, p: nat)
    requires NoOverflow(newSpv, e) && p < |newSpv|
    ensures |IdealFrom(spv, newSpv, e, p)| == 1 + |InsertedAt(spv, e, p)| + |IdealFrom(spv, newSpv, e, p + 1)|
    ensures InsertedBetween(spv, e, p, |newSpv|) == |InsertedAt(spv, e, p)| + InsertedBetween(spv, e, p + 1, |newSpv|)
  {
    var here, rest := InsertedAt(spv, e, p), IdealFrom(spv, newSpv, e, p + 1);
    assert IdealFrom(spv, newSpv, e, p) == [Patched(newSpv, e, p)] + here + rest;
  }

  lemma {:induction false} InsertedBetweenCons(spv: seq<u32>, x: Insert, rest: seq<Insert>, p: nat, n: nat)
    ensures InsertedBetween(spv, [x] + rest, p, n)
      == InsertedBetween(spv, rest, p, n) + (if p <= InsertPos(spv, x) < n then |Payload(x)| else 0)
    decreases n - p
  {
    if p < n {
      InsertedBetweenCons(spv, x, rest, p + 1, n);
      InsertedAtConsLength(spv, x, rest, p);
    }
  }

  lemma InsertedAtConsLength(spv: seq<u32>, x: Insert, rest: seq<Insert>, p: nat)
    ensures |InsertedAt(spv, [x] + rest, p)|
      == |InsertedAt(spv, rest, p)| + (if InsertPos(spv, x) == p then |Payload(x)| else 0)
  {
    var l := [x] + rest;
    assert l[0] == x && l[1..] == rest;
    assert |WordsAt(l, p)| == |WordsAt(rest, p)| + (if x.Word? && x.w.idx == p then 1 else 0);
    assert |InstructionsAt(spv, l, p)| == |InstructionsAt(spv, rest, p)|
      + (if x.Instruction? && InsertPos(spv, x) == p then |x.ins.instruction| else 0);
  }

  lemma {:induction false} InsertedBetweenAll(spv: seq<u32>, e: seq<Insert>, n: nat)
    requires forall x :: x in e ==> 0 <= InsertPos(spv, x) < n
    ensures InsertedBetween(spv, e, 0, n) == TotalPayload(e)
  {
    if e == [] {
      InsertedBetweenNone(spv, 0, n);
    } else {
      var x, rest := e[0], e[1..];
      assert forall y :: y in rest ==> y in e;
      assert x in e;
      InsertedBetweenAll(spv, rest, n);
      assert [x] + rest == e;
      InsertedBetweenCons(spv, x, rest, 0, n);
      assert TotalPayload(e) == |Payload(x)| + TotalPayload(rest);
    }
  }

  lemma {:induction false} InsertedBetweenNone(spv: seq<u32>, p: nat, n: nat)
    ensures InsertedBetween(spv, [], p, n) == 0
    decreases n - p
  {
    if p < n {
      InsertedBetweenNone(spv, p + 1, n);
    }
  }

  lemma {:induction false} TotalMerge(ws: seq<WordInsert>, insts: seq<InstructionInsert>)
    ensures TotalPayload(Merge(ws, insts)) == |ws| + InstructionWords(insts)
  {
    if ws != [] {
      TotalMerge(ws[1..], insts);
      assert Merge(ws, insts)[1..] == Merge(ws[1..], insts);
    } else if insts != [] {
      TotalMerge([], insts[1..]);
      assert Merge([], insts)[1..] == Merge([], insts[1..]);
    }
  }

  /** The result is the current body plus one word per word insert plus
      every inserted instruction. */
  lemma IdealLength(spv: seq<u32>, newSpv: seq<u32>, ws: seq<WordInsert>, insts: seq<InstructionInsert>)
    requires EditsValid(spv, newSpv, Merge(ws, insts)) && NoOverflow(newSpv, Merge(ws, insts))
    ensures |Ideal(spv, newSpv, Merge(ws, insts))| == |newSpv| + |ws| + InstructionWords(insts)
  {
    var e := Merge(ws, insts);
    forall x | x in e ensures 0 <= InsertPos(spv, x) < |newSpv| {
      InsertPosAtLeastKey(spv, x);
    }
    IdealFromLength(spv, newSpv, e, 0);
    InsertedBetweenAll(spv, e, |newSpv|);
    TotalMerge(ws, insts);
  }
}
