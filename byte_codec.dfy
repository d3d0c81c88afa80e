/** The byte helpers of the library: a module's words as little-endian
    bytes, and bytes back to words. */
module ByteCodec {
  import opened Spirv
  import opened Outcome

  /** One word from four bytes, least significant first: the shifts by 8,
      16 and 24 and the ors of the source, on bytes that do not overlap. */
  function PackWord(b0: u8, b1: u8, b2: u8, b3: u8): u32
  {
    b0 + b1 * 0x100 + b2 * 0x1_0000 + b3 * 0x100_0000
  }

  /** Byte `k` of a word, counting from the least significant: the shift
      by `8 * k` and the mask by 0xFF of the source. */
  function ByteOf(w: u32, k: nat): u8
    requires k < 4
  {
    (if k == 0 then w else if k == 1 then w / 0x100 else if k == 2 then w / 0x1_0000 else w / 0x100_0000) % 0x100
  }

  /** `u32_slice_to_u8_vec`: every word as its four bytes. */
  function BytesOf(ws: seq<u32>): (r: seq<u8>)
    ensures |r| == 4 * |ws|
  {
    if |ws| == 0 then []
    else BytesOf(ws[..|ws| - 1]) + [ByteOf(ws[|ws| - 1], 0), ByteOf(ws[|ws| - 1], 1), ByteOf(ws[|ws| - 1], 2), ByteOf(ws[|ws| - 1], 3)]
  }

  /** The words of a byte string whose length is a multiple of four. */
  function Packed(bs: seq<u8>): (r: seq<u32>)
    requires |bs| % 4 == 0
    ensures 4 * |r| == |bs|
  {
    if |bs| == 0 then []
    else
      var n := |bs| - 4;
      Packed(bs[..n]) + [PackWord(bs[n], bs[n + 1], bs[n + 2], bs[n + 3])]
  }

  /** `u8_slice_to_u32_vec`: the length check, then four bytes per word. */
  function WordsOf(bs: seq<u8>): Result<seq<u32>>
  {
    if |bs| % 4 != 0 then Failure(OddByteLength) else Success(Packed(bs))
  }

  /** Packing the four bytes of a word gives the word back. */
  lemma PackBytes(w: u32)
    ensures PackWord(ByteOf(w, 0), ByteOf(w, 1), ByteOf(w, 2), ByteOf(w, 3)) == w
  {
    var q1, q2, q3 := w / 0x100, w / 0x1_0000, w / 0x100_0000;
    assert w == w % 0x100 + q1 * 0x100;
    assert q1 == q1 % 0x100 + q2 * 0x100;
    assert q2 == q2 % 0x100 + q3 * 0x100;
    assert q3 < 0x100;
  }

  /** The bytes of a packed word are the bytes it was packed from. */
  lemma BytesOfPack(b0: u8, b1: u8, b2: u8, b3: u8)
    ensures var w := PackWord(b0, b1, b2, b3);
      ByteOf(w, 0) == b0 && ByteOf(w, 1) == b1 && ByteOf(w, 2) == b2 && ByteOf(w, 3) == b3
  {
    var w := PackWord(b0, b1, b2, b3);
    var lo2, lo3 := b0 + b1 * 0x100, b0 + b1 * 0x100 + b2 * 0x1_0000;
    ByteSplit(b0 as int, b1 + b2 * 0x100 + b3 * 0x1_0000);
    ByteSplit(b1 as int, b2 + b3 * 0x100);
    ByteSplit(b2 as int, b3 as int);
    ByteSplit(b3 as int, 0);
    assert w == lo2 + (b2 + b3 * 0x100) * 0x1_0000;
    assert w / 0x1_0000 == b2 + b3 * 0x100;
    assert w == lo3 + b3 * 0x100_0000;
    assert w / 0x100_0000 == b3;
  }

  /** Division by 0x100 of a number written as `lo + hi * 0x100`. */
  lemma ByteSplit(lo: int, hi: int)
    requires 0 <= lo < 0x100 && 0 <= hi
    ensures (lo + hi * 0x100) / 0x100 == hi && (lo + hi * 0x100) % 0x100 == lo
  {
  }

  /** Words to bytes and back is the identity. */
  lemma WordsRoundTrip(ws: seq<u32>)
    ensures WordsOf(BytesOf(ws)) == Success(ws)
  {
    PackedRoundTrip(ws);
  }

  lemma {:induction false} PackedRoundTrip(ws: seq<u32>)
    ensures |BytesOf(ws)| % 4 == 0 && Packed(BytesOf(ws)) == ws
  {
    if |ws| > 0 {
      var init, w := ws[..|ws| - 1], ws[|ws| - 1];
      PackedRoundTrip(init);
      LastPacks(ws);
      PackedLast(BytesOf(ws), init, w);
      assert ws == init + [w];
    }
  }

  /** Packing a byte string whose front packs to `init` and whose last four
      bytes pack to `w`. */
  lemma PackedLast(bs: seq<u8>, init: seq<u32>, w: u32)
    requires |bs| % 4 == 0 && |bs| > 0
    requires Packed(bs[..|bs| - 4]) == init
    requires PackWord(bs[|bs| - 4], bs[|bs| - 3], bs[|bs| - 2], bs[|bs| - 1]) == w
    ensures Packed(bs) == init + [w]
  {
  }

  /** The front of the bytes are those of the front words, and the last
      four bytes pack to the last word. */
  lemma LastPacks(ws: seq<u32>)
    requires |ws| > 0
    ensures var bs := BytesOf(ws);
      |bs| % 4 == 0 && bs[..|bs| - 4] == BytesOf(ws[..|ws| - 1])
      && PackWord(bs[|bs| - 4], bs[|bs| - 3], bs[|bs| - 2], bs[|bs| - 1]) == ws[|ws| - 1]
  {
    BytesOfLast(ws);
    var bs := BytesOf(ws);
    PackBytesAt(bs[|bs| - 4], bs[|bs| - 3], bs[|bs| - 2], bs[|bs| - 1], ws[|ws| - 1]);
  }

  /** The last four bytes are those of the last word. */
  lemma BytesOfLast(ws: seq<u32>)
    requires |ws| > 0
    ensures var bs, w := BytesOf(ws), ws[|ws| - 1];
      bs[..|bs| - 4] == BytesOf(ws[..|ws| - 1])
      && bs[|bs| - 4] == ByteOf(w, 0) && bs[|bs| - 3] == ByteOf(w, 1)
      && bs[|bs| - 2] == ByteOf(w, 2) && bs[|bs| - 1] == ByteOf(w, 3)
  {
  }

  /** Four bytes that are the bytes of `w` pack to `w`. */
  lemma PackBytesAt(b0: u8, b1: u8, b2: u8, b3: u8, w: u32)
    requires b0 == ByteOf(w, 0) && b1 == ByteOf(w, 1) && b2 == ByteOf(w, 2) && b3 == ByteOf(w, 3)
    ensures PackWord(b0, b1, b2, b3) == w
  {
    PackBytes(w);
  }

  /** Bytes of a length divisible by four, to words and back, are the
      same bytes. */
  lemma {:induction false} BytesRoundTrip(bs: seq<u8>)
    requires |bs| % 4 == 0
    ensures WordsOf(bs).Success? && BytesOf(WordsOf(bs).value) == bs
  {
    if |bs| > 0 {
      var n := |bs| - 4;
      BytesRoundTrip(bs[..n]);
      var ws := Packed(bs);
      assert ws[..|ws| - 1] == Packed(bs[..n]);
      BytesOfPack(bs[n], bs[n + 1], bs[n + 2], bs[n + 3]);
      assert bs == bs[..n] + [bs[n], bs[n + 1], bs[n + 2], bs[n + 3]];
    }
  }

  /** The conversion fails exactly on lengths that are not a multiple of
      four, and then gives four bytes per word. */
  lemma WordsOfMeaning(bs: seq<u8>)
    ensures WordsOf(bs).Failure? <==> |bs| % 4 != 0
    ensures WordsOf(bs).Failure? ==> WordsOf(bs).error == OddByteLength
    ensures WordsOf(bs).Success? ==> 4 * |WordsOf(bs).value| == |bs|
  {
  }

  /** Byte `4 * i + k` of the output is byte `k` of word `i`: little-endian
      order. */
  lemma {:induction false} BytesOrder(ws: seq<u32>, i: nat, k: nat)
    requires i < |ws| && k < 4
    ensures BytesOf(ws)[4 * i + k] == ByteOf(ws[i], k)
  {
    var n := |ws| - 1;
    if i < n {
      BytesOrder(ws[..n], i, k);
      assert BytesOf(ws)[..4 * n] == BytesOf(ws[..n]);
    }
  }

  /** The shifts and masks of the source are the divisions and
      remainders the model uses. */
  lemma ShiftsAreDivisions(x: bv32)
    ensures x & 0xFF == x % 0x100
    ensures (x >> 8) & 0xFF == (x / 0x100) % 0x100
    ensures (x >> 16) & 0xFF == (x / 0x1_0000) % 0x100
    ensures (x >> 24) & 0xFF == x / 0x100_0000
  {
  }

  /** The ors of the source add: the shifted bytes do not overlap. */
  lemma OrsAreSums(b0: bv32, b1: bv32, b2: bv32, b3: bv32)
    requires b0 < 0x100 && b1 < 0x100 && b2 < 0x100 && b3 < 0x100
    ensures b0 | (b1 << 8) | (b2 << 16) | (b3 << 24) == b0 + b1 * 0x100 + b2 * 0x1_0000 + b3 * 0x100_0000
  {
  }
}
