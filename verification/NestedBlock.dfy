/**
 Skipping a nested block.  The format puts the block's id and the width of its entry ids before
 the padding and the length (LLVM Bitcode File Format, "ENTER_SUBBLOCK Encoding"); the reader
 skips one integer of four-bit chunks there, which is not always enough.
 */
module NestedBlock {
  import opened Wrappers
  import opened Numbers
  import opened Bitstream
  import opened BitReader

  function HeaderBits(id: nat, width: nat): Bits {
    Vbr(id, 8) + Vbr(width, 4)
  }

  /** A nested block after its entry id, written at pos. */
  function NestedBits(pos: nat, id: nat, width: nat, content: Bits): Bits {
    var header := HeaderBits(id, width);
    var end := pos + |header|;
    header + (Zeros(AlignUp32(end) - end) + (Fixed(|content| / 32, 32) + content))
  }

  predicate IsNested(id: nat, width: nat, content: Bits) {
    id < UINT32 && width < UINT32 && |content| % 32 == 0 && |content| / 32 < UINT32
  }

  // ---------------------------------------------------------------------------
  // Four-bit chunks of an integer in eight-bit chunks

  lemma {:induction false} TopOfFour(s: Bits)
    requires |s| == 4
    ensures Value(s) < 8 <==> !s[3]
    ensures Value(s) < 16
  {
    assert Pow2(3) == 8 && Pow2(4) == 16;
    hide Pow2;
    ValueBound(s[..3]);
    ValueBound(s);
  }

  lemma {:induction false} FourBits(bits: Bits, pos: nat, val: nat, shift: nat) returns (val': nat)
    requires pos + 4 <= |bits| && shift <= 60
    ensures !bits[pos + 3] ==>
      VbrFrom(bits, pos, 4, val, shift).Some? && VbrFrom(bits, pos, 4, val, shift).value.1 == pos + 4
    ensures bits[pos + 3] ==> VbrFrom(bits, pos, 4, val, shift) == VbrFrom(bits, pos + 4, 4, val', shift + 3)
  {
    var s := bits[pos..pos + 4];
    TopOfFour(s);
    assert Pow2(3) == 8;
    hide Pow2;
    assert FixedAt(bits, pos, 4) == Some((Value(s), pos + 4));
    val' := val + (Value(s) % 8) % Pow2(64 - shift) * Pow2(shift);
  }

  /** Reading stops inside the block id, at a chunk without continuation. */
  lemma {:induction false} StopsInside(bits: Bits, pos: nat, id: nat, n: nat, val: nat, shift: nat)
    requires At(bits, pos, Vbr(id, 8)) && n > 0 && id < Pow2(7 * n) && shift + 6 * n <= 63
    ensures VbrFrom(bits, pos, 4, val, shift).Some?
    ensures pos + 4 <= VbrFrom(bits, pos, 4, val, shift).value.1 <= pos + |Vbr(id, 8)|
    decreases n
  {
    var v := Vbr(id, 8);
    FirstChunk(id);
    hide Pow2, VbrFrom, Vbr;
    assert bits[pos + 3] == bits[pos..pos + |v|][3] && bits[pos + 7] == bits[pos..pos + |v|][7];
    var val' := FourBits(bits, pos, val, shift);
    if bits[pos + 3] {
      var val'' := FourBits(bits, pos + 4, val', shift + 3);
      if bits[pos + 7] {
        FewerChunks(id, n);
        AtSplit(bits, pos, v[..8], Vbr(id / 128, 8));
        StopsInside(bits, pos + 8, id / 128, n - 1, val'', shift + 6);
      }
    }
  }

  lemma {:induction false} FirstChunk(id: nat)
    ensures var v := Vbr(id, 8);
      && |v| >= 8 && (v[7] <==> id >= 128)
      && (id >= 128 ==> v == v[..8] + Vbr(id / 128, 8)) && (id < 128 ==> v == Fixed(id, 8))
  {
    assert Pow2(7) == 128;
    hide Pow2;
  }

  lemma {:induction false} FewerChunks(id: nat, n: nat)
    requires n > 0 && id < Pow2(7 * n) && id >= 128
    ensures n > 1 && id / 128 < Pow2(7 * (n - 1))
  {
    assert Pow2(7) == 128;
    hide Pow2;
    Pow2Add(7, 7 * (n - 1));
  }

  lemma {:induction false} Stops(bits: Bits, pos: nat, id: nat)
    requires At(bits, pos, Vbr(id, 8)) && id < UINT32
    ensures VbrAt(bits, pos, 4).Some? && pos + 4 <= VbrAt(bits, pos, 4).value.1 <= pos + |Vbr(id, 8)|
  {
    assert Pow2(32) == UINT32 by {
      Pow2Values();
    }
    hide Pow2, At, VbrFrom, Vbr;
    Pow2Monotone(32, 35);
    StopsInside(bits, pos, id, 5, 0, 0);
  }

  // ---------------------------------------------------------------------------
  // The exact condition

  lemma {:induction false} NestedParts(bits: Bits, pos: nat, id: nat, width: nat, content: Bits)
    requires At(bits, pos, NestedBits(pos, id, width, content))
    ensures var end := pos + |HeaderBits(id, width)|; var e := AlignUp32(end);
      && At(bits, pos, HeaderBits(id, width)) && At(bits, pos, Vbr(id, 8)) && At(bits, end, Zeros(e - end))
      && At(bits, e, Fixed(|content| / 32, 32)) && pos + |NestedBits(pos, id, width, content)| == e + 32 + |content|
  {
    hide Vbr, Fixed, Zeros, At;
    var header := HeaderBits(id, width);
    var end := pos + |header|;
    var pad := Zeros(AlignUp32(end) - end);
    var tail := Fixed(|content| / 32, 32) + content;
    AtSplit(bits, pos, header, pad + tail);
    AtSplit(bits, end, pad, tail);
    AtSplit(bits, end + |pad|, Fixed(|content| / 32, 32), content);
    AtSplit(bits, pos, Vbr(id, 8), Vbr(width, 4));
  }

  lemma {:induction false} AlignOrder(a: nat, b: nat)
    requires a <= b
    ensures a <= AlignUp32(a) <= AlignUp32(b) && AlignUp32(a) % 32 == 0
    ensures AlignUp32(a) == AlignUp32(b) || AlignUp32(a) + 32 <= AlignUp32(b)
  {
  }

  lemma {:induction false} SkipUnfold(bits: Bits, pos: nat, stop: nat)
    requires VbrAt(bits, pos, 4).Some? && VbrAt(bits, pos, 4).value.1 == stop && AlignUp32(stop) + 32 <= |bits|
    ensures var q := AlignUp32(stop); SkipAt(bits, pos) == Some(q + 32 + 32 * Value(bits[q..q + 32]))
  {
    hide VbrAt, AlignUp32, Value;
  }

  /** A nested block is skipped to its end if and only if the integer read ends in front of the
      same word as the header, or the word read for the length happens to lead there. */
  lemma {:induction false} SkipNestedIff(bits: Bits, pos: nat, id: nat, width: nat, content: Bits)
    requires IsNested(id, width, content) && At(bits, pos, NestedBits(pos, id, width, content))
    ensures VbrAt(bits, pos, 4).Some?
    ensures var q := AlignUp32(VbrAt(bits, pos, 4).value.1); var e := AlignUp32(pos + |HeaderBits(id, width)|);
      && q <= e && e + 32 <= |bits|
      && (SkipAt(bits, pos) == Some(pos + |NestedBits(pos, id, width, content)|) <==>
          q == e || q + 32 * Value(bits[q..q + 32]) == e + |content|)
  {
    hide Pow2, VbrAt, Fixed, Value, SkipAt, At;
    NestedParts(bits, pos, id, width, content);
    Stops(bits, pos, id);
    var end := pos + |HeaderBits(id, width)|;
    hide Vbr, NestedBits, HeaderBits;
    SkipLeads(bits, pos, VbrAt(bits, pos, 4).value.1, end, |content| / 32);
  }

  lemma {:induction false} SkipLeads(bits: Bits, pos: nat, stop: nat, end: nat, words: nat)
    requires VbrAt(bits, pos, 4).Some? && VbrAt(bits, pos, 4).value.1 == stop <= end
    requires At(bits, AlignUp32(end), Fixed(words, 32)) && words < UINT32
    ensures var q := AlignUp32(stop); var e := AlignUp32(end);
      && q <= e && e + 32 <= |bits|
      && (SkipAt(bits, pos) == Some(e + 32 + 32 * words) <==>
          q == e || q + 32 * Value(bits[q..q + 32]) == e + 32 * words)
  {
    LengthRead(bits, AlignUp32(end), words);
    hide VbrAt, Fixed, Value, SkipAt, At, AlignUp32;
    AlignOrder(stop, end);
    SkipUnfold(bits, pos, stop);
  }

  lemma {:induction false} LengthRead(bits: Bits, e: nat, words: nat)
    requires At(bits, e, Fixed(words, 32)) && words < UINT32
    ensures e + 32 <= |bits| && Value(bits[e..e + 32]) == words
  {
    assert Pow2(32) == UINT32 by {
      Pow2Values();
    }
    hide Pow2, Fixed;
    FixedRead(bits, e, words, 32);
  }

  /** For a block id below 128 and a width below 8 the first case is decided by the position. */
  lemma {:induction false} SkipsWhen(bits: Bits, pos: nat, id: nat, width: nat, content: Bits)
    requires IsNested(id, width, content) && At(bits, pos, NestedBits(pos, id, width, content))
    requires id < 128 && width < 8 && (pos % 32 <= 20 || pos % 32 > 28)
    ensures SkipAt(bits, pos) == Some(pos + |NestedBits(pos, id, width, content)|)
  {
    SkipNestedIff(bits, pos, id, width, content);
    NestedParts(bits, pos, id, width, content);
    Stops(bits, pos, id);
    ShortHeader(id, width);
    hide VbrAt, SkipAt, NestedBits, Value, HeaderBits, Vbr, At, Fixed;
    SameWord(pos, VbrAt(bits, pos, 4).value.1);
  }

  lemma {:induction false} SameWord(pos: nat, stop: nat)
    requires pos + 4 <= stop <= pos + 12 && (pos % 32 <= 20 || pos % 32 > 28)
    ensures AlignUp32(stop) == AlignUp32(pos + 12)
  {
    var k := if pos % 32 <= 20 then pos / 32 else pos / 32 + 1;
    assert 32 * k < stop && pos + 12 <= 32 * k + 32;
    AlignIs(stop, k);
    AlignIs(pos + 12, k);
  }

  lemma {:induction false} AlignIs(x: nat, k: nat)
    requires 32 * k < x <= 32 * k + 32
    ensures AlignUp32(x) == 32 * k + 32
  {
    if x < 32 * k + 32 {
      DivModUnique(x, 32, k, x - 32 * k);
    }
  }

  lemma {:induction false} BeforeWord(pos: nat)
    requires pos % 32 == 24
    ensures AlignUp32(pos + 4) == pos + 8 && AlignUp32(pos + 12) == pos + 40
  {
    var k := pos / 32;
    assert pos == 32 * k + 24;
    AlignIs(pos + 4, k);
    AlignIs(pos + 12, k + 1);
  }

  lemma {:induction false} ShortHeader(id: nat, width: nat)
    requires id < 128 && width < 8
    ensures Vbr(id, 8) == Fixed(id, 8) && Vbr(width, 4) == Fixed(width, 4) && |HeaderBits(id, width)| == 12
  {
    assert Pow2(7) == 128 && Pow2(3) == 8;
    hide Pow2;
  }

  lemma {:induction false} FixedZeros(v: nat, w: nat, n: nat)
    requires v < Pow2(w)
    ensures Fixed(v, w + n) == Fixed(v, w) + Zeros(n)
  {
    if n == 0 {
    } else {
      FixedZeros(v, w, n - 1);
      Pow2Monotone(w, w + n - 1);
      SmallMod(v, Pow2(w + n - 1));
      assert Zeros(n) == Zeros(n - 1) + [false];
    }
  }

  /** Eight bits in front of a word the width of the entry ids is taken for the length: such a
      block is skipped to its end only if it is that many words long, less one. */
  lemma {:induction false} WidthForLength(bits: Bits, pos: nat, id: nat, width: nat, content: Bits)
    requires IsNested(id, width, content) && At(bits, pos, NestedBits(pos, id, width, content))
    requires pos % 32 == 24 && id < 128 && id % 16 < 8 && width < 8
    ensures SkipAt(bits, pos) == Some(pos + 40 + 32 * width)
    ensures SkipAt(bits, pos) == Some(pos + |NestedBits(pos, id, width, content)|) <==> width == |content| / 32 + 1
  {
    hide Vbr, SkipAt, At, Fixed, Zeros;
    NestedParts(bits, pos, id, width, content);
    ShortHeader(id, width);
    BeforeWord(pos);
    hide NestedBits, HeaderBits;
    WidthRead(bits, pos, id, width);
  }

  lemma {:induction false} WidthRead(bits: Bits, pos: nat, id: nat, width: nat)
    requires At(bits, pos, HeaderBits(id, width)) && At(bits, pos + 12, Zeros(28))
    requires pos % 32 == 24 && id < 128 && id % 16 < 8 && width < 8
    ensures SkipAt(bits, pos) == Some(pos + 40 + 32 * width)
  {
    hide HeaderBits, SkipAt, At, Fixed, Zeros, Value, VbrAt, AlignUp32;
    BeforeWord(pos);
    HeaderOnly(bits, pos, id, width);
    WidthWord(bits, pos + 8, width, 28);
    LengthRead(bits, pos + 8, width);
    SkipUnfold(bits, pos, pos + 4);
  }

  lemma {:induction false} HeaderOnly(bits: Bits, pos: nat, id: nat, width: nat)
    requires At(bits, pos, HeaderBits(id, width)) && id < 128 && id % 16 < 8 && width < 8
    ensures At(bits, pos + 8, Fixed(width, 4))
    ensures VbrAt(bits, pos, 4).Some? && VbrAt(bits, pos, 4).value.1 == pos + 4
  {
    ShortHeader(id, width);
    hide Vbr, Fixed, At, VbrFrom;
    AtSplit(bits, pos, Fixed(id, 8), Fixed(width, 4));
    FourthBit(bits, pos, id);
    var val' := FourBits(bits, pos, 0, 0);
  }

  /** The width and the padding behind it are a word. */
  lemma {:induction false} WidthWord(bits: Bits, q: nat, width: nat, n: nat)
    requires At(bits, q, Fixed(width, 4)) && At(bits, q + 4, Zeros(n)) && n == 28 && width < 8
    ensures At(bits, q, Fixed(width, 32))
  {
    assert Pow2(4) == 16;
    FixedZeros(width, 4, 28);
    hide Fixed;
    assert bits[q..q + 32] == bits[q..q + 4] + bits[q + 4..q + 32];
  }

  lemma {:induction false} FourthBit(bits: Bits, pos: nat, id: nat)
    requires At(bits, pos, Fixed(id, 8)) && id % 16 < 8
    ensures !bits[pos + 3]
  {
    assert Pow2(3) == 8;
    FixedBit(id, 8, 3);
    assert bits[pos + 3] == bits[pos..pos + 8][3];
    assert (id / 8) % 2 == 0;
  }

  lemma {:induction false} FixedBit(v: nat, w: nat, k: nat)
    requires k < w
    ensures Fixed(v, w)[k] <==> (v / Pow2(k)) % 2 == 1
  {
    if k < w - 1 {
      FixedBit(v, w - 1, k);
    }
  }
}
