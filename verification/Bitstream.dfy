/**
 The LLVM bitstream as a sequence of bits: what the reader makes of it, an encoder, and the
 proof that reading inverts encoding (LLVM Bitcode File Format, "Variable Width Integers",
 "Abbreviations", "Blobs").
 */
module Bitstream {
  import opened Wrappers
  import opened Numbers

  type Bits = seq<bool>

  const UINT32: int := 0x1_0000_0000

  // ---------------------------------------------------------------------------
  // Fixed-width fields, least significant bit first

  function Value(s: Bits): nat {
    if s == [] then 0
    else Value(s[..|s| - 1]) + if s[|s| - 1] then Pow2(|s| - 1) else 0
  }

  function Fixed(v: nat, w: nat): (s: Bits)
    ensures |s| == w
  {
    if w == 0 then [] else Fixed(v, w - 1) + [(v / Pow2(w - 1)) % 2 == 1]
  }

  lemma {:induction false} ValueBound(s: Bits)
    ensures Value(s) < Pow2(|s|)
  {
    if s != [] {
      ValueBound(s[..|s| - 1]);
      PowDouble(|s| - 1);
    }
  }

  lemma {:induction false} ModStep(v: nat, p: nat)
    requires p > 0
    ensures v % (2 * p) == v % p + (if (v / p) % 2 == 1 then p else 0)
  {
    var q, r := v / p, v % p;
    var h, b := q / 2, q % 2;
    assert v == q * p + r && q == 2 * h + b;
    assert q * p == h * (2 * p) + b * p by {
      assert (2 * h + b) * p == h * (2 * p) + b * p;
    }
    assert b * p == if b == 1 then p else 0;
    DivModUnique(v, 2 * p, h, b * p + r);
  }

  lemma {:induction false} ValueOfFixed(v: nat, w: nat)
    ensures Value(Fixed(v, w)) == v % Pow2(w)
  {
    if w == 0 {
      DivModUnique(v, 1, v, 0);
    } else {
      var s := Fixed(v, w);
      assert s[..w - 1] == Fixed(v, w - 1);
      ValueOfFixed(v, w - 1);
      ModStep(v, Pow2(w - 1));
      PowDouble(w - 1);
    }
  }

  function FixedAt(bits: Bits, pos: nat, w: nat): Option<(nat, nat)> {
    if w == 0 then Some((0, pos))
    else if pos + w > |bits| then None
    else Some((Value(bits[pos..pos + w]), pos + w))
  }

  // ---------------------------------------------------------------------------
  // Pieces of a stream

  predicate At(bits: Bits, pos: nat, piece: Bits) {
    pos + |piece| <= |bits| && bits[pos..pos + |piece|] == piece
  }

  lemma {:induction false} AtSplit(bits: Bits, pos: nat, a: Bits, b: Bits)
    requires At(bits, pos, a + b)
    ensures At(bits, pos, a) && At(bits, pos + |a|, b)
  {
    var whole := bits[pos..pos + |a + b|];
    assert whole[..|a|] == (a + b)[..|a|] == a;
    assert whole[|a|..] == (a + b)[|a|..] == b;
    assert whole[..|a|] == bits[pos..pos + |a|];
    assert whole[|a|..] == bits[pos + |a|..pos + |a| + |b|];
  }

  lemma {:induction false} FixedRead(bits: Bits, pos: nat, v: nat, w: nat)
    requires At(bits, pos, Fixed(v, w)) && v < Pow2(w)
    ensures FixedAt(bits, pos, w) == Some((v, pos + w))
  {
    ValueOfFixed(v, w);
    SmallMod(v, Pow2(w));
  }

  // ---------------------------------------------------------------------------
  // Variable-width integers

  /** bc_read_vbr: low chunks first, the top bit of a chunk says that more follow. */
  function VbrFrom(bits: Bits, pos: nat, w: nat, val: nat, shift: nat): Option<(nat, nat)>
    requires w >= 1 && shift <= 63
    decreases |bits| - pos
  {
    match FixedAt(bits, pos, w)
    case None => None
    case Some((chunk, next)) =>
      var hi := Pow2(w - 1);
      var val' := val + (chunk % hi) % Pow2(64 - shift) * Pow2(shift);
      if chunk < hi then Some((val', next))
      else if shift + w - 1 > 63 then None
      else VbrFrom(bits, next, w, val', shift + w - 1)
  }

  function VbrAt(bits: Bits, pos: nat, w: nat): Option<(nat, nat)>
    requires w >= 1
  {
    VbrFrom(bits, pos, w, 0, 0)
  }

  function Vbr(v: nat, w: nat): (s: Bits)
    requires w >= 2
    ensures |s| > 0
  {
    var hi := Pow2(w - 1);
    if v < hi then Fixed(v, w)
    else
      ChunkShrinks(v, w);
      Fixed(v % hi + hi, w) + Vbr(v / hi, w)
  }

  lemma {:induction false} ChunkShrinks(v: nat, w: nat)
    requires w >= 2 && v >= Pow2(w - 1)
    ensures v / Pow2(w - 1) < v
  {
    PowDouble(w - 2);
    var hi := Pow2(w - 1);
    var q := v / hi;
    assert v == q * hi + v % hi;
    MulMonotone(2, hi, q);
  }

  lemma {:induction false} DivideBound(v: nat, p: nat, q: nat)
    requires p > 0 && v < p * q
    ensures v / p < q
  {
    var d := v / p;
    assert v == d * p + v % p;
    if d >= q {
      MulMonotone(q, d, p);
    }
  }

  lemma {:induction false} VbrRead(bits: Bits, pos: nat, w: nat, v: nat, val: nat, shift: nat)
    requires 2 <= w <= 64 && shift <= 63 && v < Pow2(64 - shift)
    requires At(bits, pos, Vbr(v, w))
    ensures VbrFrom(bits, pos, w, val, shift) == Some((val + v * Pow2(shift), pos + |Vbr(v, w)|))
    decreases v
  {
    hide Pow2, Fixed, FixedAt, VbrFrom, At;
    var hi := Pow2(w - 1);
    PowDouble(w - 1);
    if v < hi {
      FixedRead(bits, pos, v, w);
      VbrLastChunk(bits, pos, w, v, val, shift);
    } else {
      var low := v % hi;
      ChunkShrinks(v, w);
      ChunkFits(v, w, shift);
      AtSplit(bits, pos, Fixed(low + hi, w), Vbr(v / hi, w));
      FixedRead(bits, pos, low + hi, w);
      VbrRead(bits, pos + w, w, v / hi, val + low * Pow2(shift), shift + w - 1);
      Recombine(v, hi, Pow2(shift), Pow2(shift + w - 1));
      VbrOneChunk(bits, pos, w, low, val, shift);
    }
  }

  lemma {:induction false} VbrLastChunk(bits: Bits, pos: nat, w: nat, v: nat, val: nat, shift: nat)
    requires w >= 1 && shift <= 63 && v < Pow2(w - 1) && v < Pow2(64 - shift)
    requires FixedAt(bits, pos, w) == Some((v, pos + w))
    ensures VbrFrom(bits, pos, w, val, shift) == Some((val + v * Pow2(shift), pos + w))
  {
    hide Pow2, FixedAt;
    SmallMod(v, Pow2(w - 1));
    SmallMod(v, Pow2(64 - shift));
  }

  lemma {:induction false} VbrOneChunk(bits: Bits, pos: nat, w: nat, low: nat, val: nat, shift: nat)
    requires w >= 1 && shift <= 63 && shift + w - 1 <= 63
    requires var hi := Pow2(w - 1); (low + hi) % hi == low && low % Pow2(64 - shift) == low
    requires FixedAt(bits, pos, w) == Some((low + Pow2(w - 1), pos + w))
    ensures VbrFrom(bits, pos, w, val, shift) == VbrFrom(bits, pos + w, w, val + low * Pow2(shift), shift + w - 1)
  {
    hide Pow2, FixedAt;
  }

  /** A value that needs another chunk leaves room for it. */
  lemma {:induction false} ChunkFits(v: nat, w: nat, shift: nat)
    requires 2 <= w <= 64 && shift <= 63 && Pow2(w - 1) <= v < Pow2(64 - shift)
    ensures var hi := Pow2(w - 1); var low := v % hi;
      && low + hi < Pow2(w) && low + hi >= hi && (low + hi) % hi == low && low % Pow2(64 - shift) == low
    ensures shift + w - 1 <= 63 && v / Pow2(w - 1) < Pow2(64 - (shift + w - 1))
    ensures Pow2(shift + w - 1) == Pow2(shift) * Pow2(w - 1)
  {
    hide Pow2;
    var hi := Pow2(w - 1);
    var low := v % hi;
    PowDouble(w - 1);
    DivModUnique(low + hi, hi, 1, low);
    SmallMod(low, Pow2(64 - shift));
    if shift + w - 1 > 63 {
      Pow2Monotone(64 - shift, w - 1);
    }
    Pow2Add(w - 1, 64 - (shift + w - 1));
    assert w - 1 + (64 - (shift + w - 1)) == 64 - shift;
    DivideBound(v, hi, Pow2(64 - (shift + w - 1)));
    Pow2Add(shift, w - 1);
  }

  lemma {:induction false} Recombine(v: nat, hi: nat, p: nat, ph: nat)
    requires hi > 0 && ph == p * hi
    ensures (v % hi) * p + (v / hi) * ph == v * p
  {
    var q, r := v / hi, v % hi;
    assert v == q * hi + r;
    assert q * (p * hi) == (q * hi) * p;
    assert (q * hi + r) * p == (q * hi) * p + r * p;
  }

  lemma {:induction false} VbrReadAll(bits: Bits, pos: nat, w: nat, v: nat)
    requires 2 <= w <= 64 && v < Pow2(64) && At(bits, pos, Vbr(v, w))
    ensures VbrAt(bits, pos, w) == Some((v, pos + |Vbr(v, w)|))
  {
    hide Pow2;
    VbrRead(bits, pos, w, v, 0, 0);
    assert Pow2(0) == 1 by { PowZero(); }
  }

  lemma {:induction false} PowZero()
    ensures Pow2(0) == 1
  {
  }

  // ---------------------------------------------------------------------------
  // Signed integers

  const INT64_MIN: int := -0x8000_0000_0000_0000
  const INT64_MAX: int := 0x7FFF_FFFF_FFFF_FFFF

  /** bc_decode_signed_vbr */
  function DecodeSigned(v: nat): int {
    if v % 2 == 0 then v / 2
    else if v != 1 then -(v / 2)
    else INT64_MIN
  }

  /** The sign goes to bit 0; the magnitude of the minimum does not fit and becomes 0. */
  function EncodeSigned(x: int): nat
    requires INT64_MIN <= x <= INT64_MAX
  {
    if x >= 0 then 2 * x else (2 * (0 - x) + 1) % 0x1_0000_0000_0000_0000
  }

  /** Every 64-bit integer survives, and every 64-bit code is the code of its meaning. */
  lemma {:induction false} SignedRoundTrip(x: int, v: nat)
    requires INT64_MIN <= x <= INT64_MAX && v < 0x1_0000_0000_0000_0000
    ensures DecodeSigned(EncodeSigned(x)) == x
    ensures INT64_MIN <= DecodeSigned(v) <= INT64_MAX && EncodeSigned(DecodeSigned(v)) == v
    ensures v % 2 == 0 ==> DecodeSigned(v) == v / 2
    ensures v % 2 == 1 && v != 1 ==> DecodeSigned(v) == -(v / 2) as int
  {
    if x == INT64_MIN {
      assert EncodeSigned(x) == 1;
    }
  }

  // ---------------------------------------------------------------------------
  // Six-bit characters

  /** bc_decode_char6 */
  function DecodeChar6(v: nat): char {
    if v < 26 then 'a' + v as char
    else if v < 52 then 'A' + (v - 26) as char
    else if v < 62 then '0' + (v - 52) as char
    else if v == 62 then '.'
    else '_'
  }

  predicate IsChar6(c: char) {
    'a' <= c <= 'z' || 'A' <= c <= 'Z' || '0' <= c <= '9' || c == '.' || c == '_'
  }

  function EncodeChar6(c: char): nat
    requires IsChar6(c)
  {
    if 'a' <= c <= 'z' then (c - 'a') as nat
    else if 'A' <= c <= 'Z' then (c - 'A') as nat + 26
    else if '0' <= c <= '9' then (c - '0') as nat + 52
    else if c == '.' then 62
    else 63
  }

  lemma {:induction false} Char6RoundTrip(c: char, v: nat)
    requires IsChar6(c) && v < 64
    ensures EncodeChar6(c) < 64 && DecodeChar6(EncodeChar6(c)) == c
    ensures IsChar6(DecodeChar6(v)) && EncodeChar6(DecodeChar6(v)) == v
  {
  }

  /** The table of the format: a to z, A to Z, 0 to 9, the full stop and the underscore. */
  lemma {:induction false} Char6Table(v: nat)
    requires v < 64
    ensures DecodeChar6(0) == 'a' && DecodeChar6(25) == 'z' && DecodeChar6(26) == 'A' && DecodeChar6(51) == 'Z'
    ensures DecodeChar6(52) == '0' && DecodeChar6(61) == '9' && DecodeChar6(62) == '.' && DecodeChar6(63) == '_'
    ensures v !in {25, 51, 61, 62, 63} ==> DecodeChar6(v + 1) as nat == DecodeChar6(v) as nat + 1
  {
  }

  // ---------------------------------------------------------------------------
  // Records

  /** Other: the encodings 6 and 7, which the reader passes over. */
  datatype Op = Literal(value: nat) | FixedOp(width: nat) | VbrOp(width: nat) | Array | Char6 | Blob | Other

  type Abbrev = seq<Op>

  datatype Field = Field(value: nat, char6: bool)

  /** blob: index of its first byte, and its length. */
  datatype Record = Record(code: nat, fields: seq<Field>, blob: Option<(nat, nat)>, pos: nat)

  predicate IsScalar(op: Op) {
    op.Literal? || op.FixedOp? || op.VbrOp? || op.Char6?
  }

  /** Widths for which the reader's shifts are defined. */
  predicate WidthsOk(ops: Abbrev) {
    forall i :: 0 <= i < |ops| ==>
      (ops[i].FixedOp? ==> ops[i].width <= 64) && (ops[i].VbrOp? ==> 1 <= ops[i].width <= 64)
  }

  function AlignUp32(pos: nat): nat {
    if pos % 32 != 0 then pos + (32 - pos % 32) else pos
  }

  function Push(r: Record, i: nat, v: nat, char6: bool, pos: nat): Record {
    if i == 0 then r.(code := v % UINT32, pos := pos)
    else r.(fields := r.fields + [Field(v, char6)], pos := pos)
  }

  function ScalarAt(bits: Bits, pos: nat, op: Op): Option<(nat, nat)>
    requires IsScalar(op) && (op.VbrOp? ==> op.width >= 1)
  {
    match op
    case Literal(v) => Some((v, pos))
    case FixedOp(w) => FixedAt(bits, pos, w)
    case VbrOp(w) => VbrAt(bits, pos, w)
    case Char6 => FixedAt(bits, pos, 6)
  }

  /** One array element; anything but fixed, vbr and char6 is read as vbr6. */
  function ElementAt(bits: Bits, pos: nat, op: Op): Option<(nat, nat)>
    requires op.VbrOp? ==> op.width >= 1
  {
    match op
    case FixedOp(w) => FixedAt(bits, pos, w)
    case VbrOp(w) => VbrAt(bits, pos, w)
    case Char6 => FixedAt(bits, pos, 6)
    case _ => VbrAt(bits, pos, 6)
  }

  function ElementsAt(bits: Bits, n: nat, op: Op, r: Record): Option<Record>
    requires op.VbrOp? ==> op.width >= 1
    decreases n
  {
    if n == 0 then Some(r)
    else
      match ElementAt(bits, r.pos, op)
      case None => None
      case Some((v, pos)) =>
        ElementsAt(bits, n - 1, op, r.(fields := r.fields + [Field(v, op.Char6?)], pos := pos))
  }

  function BlobAt(bits: Bits, r: Record): Option<Record> {
    match VbrAt(bits, r.pos, 6)
    case None => None
    case Some((n, pos)) =>
      var start, len := AlignUp32(pos), n % UINT32;
      if start + len * 8 > |bits| then None
      else Some(r.(blob := Some((start / 8, len)), pos := AlignUp32(start + len * 8)))
  }

  function OpsAt(bits: Bits, ops: Abbrev, i: nat, r: Record): Option<Record>
    requires WidthsOk(ops)
    decreases |ops| - i
  {
    if i >= |ops| then Some(r)
    else if IsScalar(ops[i]) then
      match ScalarAt(bits, r.pos, ops[i])
      case None => None
      case Some((v, pos)) => OpsAt(bits, ops, i + 1, Push(r, i, v, ops[i].Char6?, pos))
    else if ops[i].Array? then
      match VbrAt(bits, r.pos, 6)
      case None => None
      case Some((n, pos)) =>
        if i + 1 >= |ops| then None
        else
          match ElementsAt(bits, n % UINT32, ops[i + 1], r.(pos := pos))
          case None => None
          case Some(r') => OpsAt(bits, ops, i + 2, r')
    else if ops[i].Blob? then
      match BlobAt(bits, r)
      case None => None
      case Some(r') => OpsAt(bits, ops, i + 1, r')
    else OpsAt(bits, ops, i + 1, r)
  }

  /** bc_read_record for a user abbreviation. */
  function AbbreviatedAt(bits: Bits, pos: nat, ops: Abbrev): Option<Record>
    requires WidthsOk(ops)
  {
    OpsAt(bits, ops, 0, Record(0, [], None, pos))
  }

  /** bc_read_record without abbreviation: code, number of operands and operands in vbr6. */
  function UnabbreviatedAt(bits: Bits, pos: nat): Option<Record> {
    match VbrAt(bits, pos, 6)
    case None => None
    case Some((code, p1)) =>
      match VbrAt(bits, p1, 6)
      case None => None
      case Some((n, p2)) => ElementsAt(bits, n % UINT32, VbrOp(6), Record(code % UINT32, [], None, p2))
  }

  // ---------------------------------------------------------------------------
  // The encoder

  /** What one operand of an abbreviation is given. */
  datatype Item = One(value: nat) | Many(values: seq<nat>) | Bytes(bytes: seq<Byte>)

  predicate ScalarFits(op: Op, v: nat) {
    match op
    case Literal(value) => v == value && v < Pow2(64)
    case FixedOp(w) => v < Pow2(w)
    case VbrOp(w) => w >= 2 && v < Pow2(64)
    case Char6 => v < 64
    case _ => false
  }

  predicate ElementFits(op: Op, v: nat) {
    match op
    case FixedOp(w) => v < Pow2(w)
    case VbrOp(w) => w >= 2 && v < Pow2(64)
    case Char6 => v < 64
    case _ => v < Pow2(64)
  }

  function Scalar(op: Op, v: nat): Bits
    requires ScalarFits(op, v)
  {
    match op
    case Literal(_) => []
    case FixedOp(w) => Fixed(v, w)
    case VbrOp(w) => Vbr(v, w)
    case Char6 => Fixed(v, 6)
  }

  function Element(op: Op, v: nat): Bits
    requires ElementFits(op, v)
  {
    match op
    case FixedOp(w) => Fixed(v, w)
    case VbrOp(w) => Vbr(v, w)
    case Char6 => Fixed(v, 6)
    case _ => Vbr(v, 6)
  }

  function Elements(op: Op, vs: seq<nat>): Bits
    requires forall k :: 0 <= k < |vs| ==> ElementFits(op, vs[k])
  {
    if vs == [] then [] else Element(op, vs[0]) + Elements(op, vs[1..])
  }

  function Zeros(n: nat): (s: Bits)
    ensures |s| == n
  {
    seq(n, _ => false)
  }

  function ByteBits(bytes: seq<Byte>): (s: Bits)
    ensures |s| == 8 * |bytes|
  {
    if bytes == [] then [] else Fixed(bytes[0], 8) + ByteBits(bytes[1..])
  }

  /** A blob written at pos: length, padding, bytes, padding. */
  function BlobBits(pos: nat, bytes: seq<Byte>): Bits {
    var len := Vbr(|bytes|, 6);
    var start := AlignUp32(pos + |len|);
    var end := start + 8 * |bytes|;
    len + Zeros(start - (pos + |len|)) + ByteBits(bytes) + Zeros(AlignUp32(end) - end)
  }

  /** The items suit the operands: the first is the code, arrays name an element encoding. */
  predicate Encodable(ops: Abbrev, i: nat, items: seq<Item>)
    decreases |ops| - i
  {
    if i >= |ops| then items == []
    else if IsScalar(ops[i]) then
      && items != [] && items[0].One? && ScalarFits(ops[i], items[0].value)
      && (i == 0 ==> items[0].value < UINT32)
      && Encodable(ops, i + 1, items[1..])
    else if ops[i].Array? then
      && i > 0 && i + 1 < |ops| && items != [] && items[0].Many? && |items[0].values| < UINT32
      && (forall k :: 0 <= k < |items[0].values| ==> ElementFits(ops[i + 1], items[0].values[k]))
      && Encodable(ops, i + 2, items[1..])
    else if ops[i].Blob? then
      i > 0 && items != [] && items[0].Bytes? && |items[0].bytes| < UINT32 && Encodable(ops, i + 1, items[1..])
    else i > 0 && Encodable(ops, i + 1, items)
  }

  function ItemBits(pos: nat, ops: Abbrev, i: nat, items: seq<Item>): Bits
    requires Encodable(ops, i, items)
    decreases |ops| - i
  {
    if i >= |ops| then []
    else if IsScalar(ops[i]) then
      var first := Scalar(ops[i], items[0].value);
      first + ItemBits(pos + |first|, ops, i + 1, items[1..])
    else if ops[i].Array? then
      var first := Vbr(|items[0].values|, 6) + Elements(ops[i + 1], items[0].values);
      first + ItemBits(pos + |first|, ops, i + 2, items[1..])
    else if ops[i].Blob? then
      var first := BlobBits(pos, items[0].bytes);
      first + ItemBits(pos + |first|, ops, i + 1, items[1..])
    else ItemBits(pos, ops, i + 1, items)
  }

  function Marked(vs: seq<nat>, char6: bool): (r: seq<Field>)
    ensures |r| == |vs|
  {
    seq(|vs|, k requires 0 <= k < |vs| => Field(vs[k], char6))
  }

  /** The fields of the record that the items stand for. */
  function ItemFields(ops: Abbrev, i: nat, items: seq<Item>): seq<Field>
    requires Encodable(ops, i, items)
    decreases |ops| - i
  {
    if i >= |ops| then []
    else if IsScalar(ops[i]) then
      (if i == 0 then [] else [Field(items[0].value, ops[i].Char6?)]) + ItemFields(ops, i + 1, items[1..])
    else if ops[i].Array? then
      Marked(items[0].values, ops[i + 1].Char6?) + ItemFields(ops, i + 2, items[1..])
    else if ops[i].Blob? then ItemFields(ops, i + 1, items[1..])
    else ItemFields(ops, i + 1, items)
  }

  function LastBlob(ops: Abbrev, i: nat, items: seq<Item>, blob: Option<seq<Byte>>): Option<seq<Byte>>
    requires Encodable(ops, i, items)
    decreases |ops| - i
  {
    if i >= |ops| then blob
    else if IsScalar(ops[i]) then LastBlob(ops, i + 1, items[1..], blob)
    else if ops[i].Array? then LastBlob(ops, i + 2, items[1..], blob)
    else if ops[i].Blob? then LastBlob(ops, i + 1, items[1..], Some(items[0].bytes))
    else LastBlob(ops, i + 1, items, blob)
  }

  // ---------------------------------------------------------------------------
  // Reading what was encoded

  lemma {:induction false} ScalarRead(bits: Bits, pos: nat, op: Op, v: nat)
    requires WidthsOk([op]) && ScalarFits(op, v) && At(bits, pos, Scalar(op, v))
    ensures IsScalar(op) && (op.VbrOp? ==> op.width >= 1)
    ensures ScalarAt(bits, pos, op) == Some((v, pos + |Scalar(op, v)|))
  {
    hide VbrAt, FixedAt, At, Fixed, Vbr, Pow2;
    assert [op][0] == op;
    match op
    case Literal(_) =>
    case FixedOp(w) => FixedRead(bits, pos, v, w);
    case VbrOp(w) => VbrReadAll(bits, pos, w, v);
    case Char6 =>
      PowSix();
      FixedRead(bits, pos, v, 6);
  }

  lemma {:induction false} PowSix()
    ensures Pow2(6) == 64 && Pow2(8) == 256
  {
    PowDouble(0);
    PowDouble(1);
    PowDouble(2);
    PowDouble(3);
    PowDouble(4);
    PowDouble(5);
    PowDouble(6);
    PowDouble(7);
  }

  lemma {:induction false} ElementRead(bits: Bits, pos: nat, op: Op, v: nat)
    requires WidthsOk([op]) && ElementFits(op, v) && At(bits, pos, Element(op, v))
    ensures op.VbrOp? ==> op.width >= 1
    ensures ElementAt(bits, pos, op) == Some((v, pos + |Element(op, v)|))
  {
    hide VbrAt, FixedAt, At, Fixed, Vbr, Pow2;
    assert [op][0] == op;
    match op
    case FixedOp(w) => FixedRead(bits, pos, v, w);
    case VbrOp(w) => VbrReadAll(bits, pos, w, v);
    case Char6 =>
      PowSix();
      FixedRead(bits, pos, v, 6);
    case _ => VbrReadAll(bits, pos, 6, v);
  }

  lemma {:induction false} ElementsRead(bits: Bits, op: Op, vs: seq<nat>, r: Record)
    requires WidthsOk([op]) && forall k :: 0 <= k < |vs| ==> ElementFits(op, vs[k])
    requires At(bits, r.pos, Elements(op, vs))
    ensures op.VbrOp? ==> op.width >= 1
    ensures ElementsAt(bits, |vs|, op, r) ==
      Some(r.(fields := r.fields + Marked(vs, op.Char6?), pos := r.pos + |Elements(op, vs)|))
    decreases |vs|
  {
    hide At, ElementAt, Element, ElementFits;
    assert [op][0] == op;
    if vs == [] {
      assert r.fields + Marked(vs, op.Char6?) == r.fields;
    } else {
      AtSplit(bits, r.pos, Element(op, vs[0]), Elements(op, vs[1..]));
      ElementRead(bits, r.pos, op, vs[0]);
      var r' := r.(fields := r.fields + [Field(vs[0], op.Char6?)], pos := r.pos + |Element(op, vs[0])|);
      ElementsRead(bits, op, vs[1..], r');
      assert r'.fields + Marked(vs[1..], op.Char6?) == r.fields + Marked(vs, op.Char6?);
    }
  }

  /** The bytes at a byte position. */
  function BytesAt(bits: Bits, start: nat, n: nat): (r: seq<nat>)
    requires 8 * (start + n) <= |bits|
    ensures |r| == n && forall k :: 0 <= k < n ==> r[k] == Value(bits[8 * (start + k)..8 * (start + k) + 8])
  {
    if n == 0 then [] else BytesAt(bits, start, n - 1) + [Value(bits[8 * (start + n - 1)..8 * (start + n)])]
  }

  lemma {:induction false} BytesRead(bits: Bits, start: nat, bytes: seq<Byte>)
    requires At(bits, 8 * start, ByteBits(bytes))
    ensures BytesAt(bits, start, |bytes|) == bytes
    decreases |bytes|
  {
    hide Fixed, Value, Pow2;
    if bytes != [] {
      AtSplit(bits, 8 * start, Fixed(bytes[0], 8), ByteBits(bytes[1..]));
      BytesRead(bits, start + 1, bytes[1..]);
      ByteRead(bits, 8 * start, bytes[0]);
      forall k | 0 <= k < |bytes| ensures BytesAt(bits, start, |bytes|)[k] == bytes[k] {
        if k > 0 {
          assert BytesAt(bits, start + 1, |bytes| - 1)[k - 1] == bytes[1..][k - 1];
        }
      }
    }
  }

  lemma {:induction false} ByteRead(bits: Bits, pos: nat, b: Byte)
    requires At(bits, pos, Fixed(b, 8))
    ensures pos + 8 <= |bits| && Value(bits[pos..pos + 8]) == b
  {
    hide Fixed, Value, Pow2;
    ValueOfFixed(b, 8);
    PowSix();
    SmallMod(b, 256);
  }

  lemma {:induction false} Align32Facts(pos: nat)
    ensures pos <= AlignUp32(pos) && AlignUp32(pos) % 8 == 0
  {
    var k := if pos % 32 != 0 then pos / 32 + 1 else pos / 32;
    assert AlignUp32(pos) == 8 * (4 * k);
    DivModUnique(AlignUp32(pos), 8, 4 * k, 0);
  }

  lemma {:induction false} BlobRead(bits: Bits, bytes: seq<Byte>, r: Record)
    requires |bytes| < UINT32 && At(bits, r.pos, BlobBits(r.pos, bytes))
    ensures BlobAt(bits, r).Some?
    ensures var r' := BlobAt(bits, r).value;
      && r' == r.(blob := r'.blob, pos := r.pos + |BlobBits(r.pos, bytes)|)
      && BlobIs(bits, r'.blob, Some(bytes))
  {
    hide At, VbrAt, BytesAt, Vbr, AlignUp32, ByteBits;
    var pos := r.pos;
    var len := Vbr(|bytes|, 6);
    var start := AlignUp32(pos + |len|);
    var end := start + 8 * |bytes|;
    BlobParts(bits, pos, bytes);
    CountFits(|bytes|);
    VbrReadAll(bits, pos, 6, |bytes|);
    SmallMod(|bytes|, UINT32);
    Align32Facts(pos + |len|);
    Align32Facts(end);
    assert start == 8 * (start / 8);
    BytesRead(bits, start / 8, bytes);
  }

  lemma {:induction false} BlobParts(bits: Bits, pos: nat, bytes: seq<Byte>)
    requires At(bits, pos, BlobBits(pos, bytes))
    ensures var len := Vbr(|bytes|, 6); var start := AlignUp32(pos + |len|); var end := start + 8 * |bytes|;
      && At(bits, pos, len) && At(bits, start, ByteBits(bytes)) && end <= |bits|
      && pos + |BlobBits(pos, bytes)| == AlignUp32(end)
  {
    hide At, Vbr, AlignUp32, ByteBits;
    var len := Vbr(|bytes|, 6);
    var start := AlignUp32(pos + |len|);
    var end := start + 8 * |bytes|;
    Align32Facts(pos + |len|);
    Align32Facts(end);
    var pad, tail := Zeros(start - (pos + |len|)), Zeros(AlignUp32(end) - end);
    AtSplit(bits, pos, len + pad + ByteBits(bytes), tail);
    AtSplit(bits, pos, len + pad, ByteBits(bytes));
    AtSplit(bits, pos, len, pad);
    AtInside(bits, start, ByteBits(bytes));
  }

  lemma {:induction false} AtInside(bits: Bits, pos: nat, piece: Bits)
    requires At(bits, pos, piece)
    ensures pos + |piece| <= |bits|
  {
  }

  lemma {:induction false} CountFits(n: nat)
    requires n < UINT32
    ensures n < Pow2(64)
  {
    Pow2Values();
  }

  /** The blob found is the one that was written. */
  predicate BlobIs(bits: Bits, found: Option<(nat, nat)>, bytes: Option<seq<Byte>>) {
    match bytes
    case None => found == None
    case Some(bs) =>
      && found.Some? && found.value.1 == |bs| && 8 * (found.value.0 + |bs|) <= |bits|
      && BytesAt(bits, found.value.0, |bs|) == bs
  }

  /** Reading an encoded abbreviated record gives the items back and stops at its end. */
  lemma {:induction false} OpsRead(bits: Bits, ops: Abbrev, i: nat, items: seq<Item>, r: Record,
                                   blob: Option<seq<Byte>>)
    requires WidthsOk(ops) && Encodable(ops, i, items)
    requires At(bits, r.pos, ItemBits(r.pos, ops, i, items)) && BlobIs(bits, r.blob, blob)
    ensures var out := OpsAt(bits, ops, i, r);
      && out.Some?
      && out.value.pos == r.pos + |ItemBits(r.pos, ops, i, items)|
      && out.value.fields == r.fields + ItemFields(ops, i, items)
      && BlobIs(bits, out.value.blob, LastBlob(ops, i, items, blob))
      && out.value.code == (if i == 0 && |ops| > 0 then items[0].value else r.code)
    decreases |ops| - i
  {
    hide At, ScalarAt, Scalar, ScalarFits, ElementFits, Elements, ElementsAt, BlobAt, BlobBits, BlobIs, VbrAt, Vbr;
    if i >= |ops| {
      assert r.fields + [] == r.fields;
    } else if IsScalar(ops[i]) {
      ScalarOpRead(bits, ops, i, items, r, blob);
    } else if ops[i].Array? {
      ArrayOpRead(bits, ops, i, items, r, blob);
    } else if ops[i].Blob? {
      var first := BlobBits(r.pos, items[0].bytes);
      AtSplit(bits, r.pos, first, ItemBits(r.pos + |first|, ops, i + 1, items[1..]));
      BlobRead(bits, items[0].bytes, r);
      OpsRead(bits, ops, i + 1, items[1..], BlobAt(bits, r).value, Some(items[0].bytes));
    } else {
      OpsRead(bits, ops, i + 1, items, r, blob);
    }
  }

  lemma {:induction false} ScalarOpRead(bits: Bits, ops: Abbrev, i: nat, items: seq<Item>, r: Record,
                                        blob: Option<seq<Byte>>)
    requires WidthsOk(ops) && i < |ops| && IsScalar(ops[i]) && Encodable(ops, i, items)
    requires At(bits, r.pos, ItemBits(r.pos, ops, i, items)) && BlobIs(bits, r.blob, blob)
    ensures var out := OpsAt(bits, ops, i, r);
      && out.Some?
      && out.value.pos == r.pos + |ItemBits(r.pos, ops, i, items)|
      && out.value.fields == r.fields + ItemFields(ops, i, items)
      && BlobIs(bits, out.value.blob, LastBlob(ops, i, items, blob))
      && out.value.code == (if i == 0 then items[0].value else r.code)
    decreases |ops| - i, 0
  {
    hide At, ScalarAt, Scalar, ScalarFits, BlobIs;
    var v := items[0].value;
    var first := Scalar(ops[i], v);
    var rest := ItemBits(r.pos + |first|, ops, i + 1, items[1..]);
    AtSplit(bits, r.pos, first, rest);
    ScalarRead(bits, r.pos, ops[i], v);
    var r' := Push(r, i, v, ops[i].Char6?, r.pos + |first|);
    OpsRead(bits, ops, i + 1, items[1..], r', blob);
    assert OpsAt(bits, ops, i, r) == OpsAt(bits, ops, i + 1, r');
    hide OpsAt;
    if i == 0 {
      SmallMod(v, UINT32);
      assert r'.fields + ItemFields(ops, 1, items[1..]) == r.fields + ItemFields(ops, i, items);
    } else {
      var f := [Field(v, ops[i].Char6?)];
      assert r'.fields == r.fields + f;
      assert (r.fields + f) + ItemFields(ops, i + 1, items[1..]) == r.fields + (f + ItemFields(ops, i + 1, items[1..]));
    }
  }

  lemma {:induction false} ArrayOpRead(bits: Bits, ops: Abbrev, i: nat, items: seq<Item>, r: Record,
                                       blob: Option<seq<Byte>>)
    requires WidthsOk(ops) && i < |ops| && ops[i].Array? && Encodable(ops, i, items)
    requires At(bits, r.pos, ItemBits(r.pos, ops, i, items)) && BlobIs(bits, r.blob, blob)
    ensures var out := OpsAt(bits, ops, i, r);
      && out.Some?
      && out.value.pos == r.pos + |ItemBits(r.pos, ops, i, items)|
      && out.value.fields == r.fields + ItemFields(ops, i, items)
      && BlobIs(bits, out.value.blob, LastBlob(ops, i, items, blob))
      && out.value.code == r.code
    decreases |ops| - i, 0
  {
    hide At, ElementFits, Elements, ElementsAt, VbrAt, Vbr, BlobIs;
    var vs := items[0].values;
    var len, elems := Vbr(|vs|, 6), Elements(ops[i + 1], vs);
    var rest := ItemBits(r.pos + |len + elems|, ops, i + 2, items[1..]);
    AtSplit(bits, r.pos, len + elems, rest);
    AtSplit(bits, r.pos, len, elems);
    CountFits(|vs|);
    VbrReadAll(bits, r.pos, 6, |vs|);
    SmallMod(|vs|, UINT32);
    var r1 := r.(pos := r.pos + |len|);
    ElementsRead(bits, ops[i + 1], vs, r1);
    var r2 := r1.(fields := r1.fields + Marked(vs, ops[i + 1].Char6?), pos := r1.pos + |elems|);
    OpsRead(bits, ops, i + 2, items[1..], r2, blob);
    assert OpsAt(bits, ops, i, r) == OpsAt(bits, ops, i + 2, r2);
    hide OpsAt, Encodable, WidthsOk;
    var f := Marked(vs, ops[i + 1].Char6?);
    assert ItemFields(ops, i, items) == f + ItemFields(ops, i + 2, items[1..]);
    assert (r.fields + f) + ItemFields(ops, i + 2, items[1..]) == r.fields + (f + ItemFields(ops, i + 2, items[1..]));
  }

  /** An abbreviated record, wherever it stands, is read back with its code, fields and blob,
      and the reader stops at its end. */
  lemma {:induction false} AbbreviatedRoundTrip(bits: Bits, pos: nat, ops: Abbrev, items: seq<Item>)
    requires WidthsOk(ops) && ops != [] && Encodable(ops, 0, items)
    requires At(bits, pos, ItemBits(pos, ops, 0, items))
    ensures items != [] && items[0].One? && AbbreviatedAt(bits, pos, ops).Some?
    ensures var r := AbbreviatedAt(bits, pos, ops).value;
      && r.code == items[0].value && r.fields == ItemFields(ops, 0, items)
      && BlobIs(bits, r.blob, LastBlob(ops, 0, items, None))
      && r.pos == pos + |ItemBits(pos, ops, 0, items)|
  {
    var r := Record(0, [], None, pos);
    OpsRead(bits, ops, 0, items, r, None);
    assert [] + ItemFields(ops, 0, items) == ItemFields(ops, 0, items);
  }

  function UnabbreviatedBits(code: nat, vs: seq<nat>): Bits
    requires forall k :: 0 <= k < |vs| ==> vs[k] < Pow2(64)
  {
    Vbr(code, 6) + Vbr(|vs|, 6) + Elements(VbrOp(6), vs)
  }

  lemma {:induction false} UnabbreviatedRoundTrip(bits: Bits, pos: nat, code: nat, vs: seq<nat>)
    requires code < UINT32 && |vs| < UINT32 && forall k :: 0 <= k < |vs| ==> vs[k] < Pow2(64)
    requires At(bits, pos, UnabbreviatedBits(code, vs))
    ensures UnabbreviatedAt(bits, pos) ==
      Some(Record(code, Marked(vs, false), None, pos + |UnabbreviatedBits(code, vs)|))
  {
    hide At, Vbr, VbrAt, Elements, ElementsAt;
    var c, n := Vbr(code, 6), Vbr(|vs|, 6);
    AtSplit(bits, pos, c + n, Elements(VbrOp(6), vs));
    AtSplit(bits, pos, c, n);
    CountFits(code);
    CountFits(|vs|);
    VbrReadAll(bits, pos, 6, code);
    VbrReadAll(bits, pos + |c|, 6, |vs|);
    SmallMod(code, UINT32);
    SmallMod(|vs|, UINT32);
    var r := Record(code, [], None, pos + |c| + |n|);
    ElementsRead(bits, VbrOp(6), vs, r);
    assert [] + Marked(vs, false) == Marked(vs, false);
  }

  // ---------------------------------------------------------------------------
  // Definitions of abbreviations

  function OpOf(encoding: nat, width: nat): Op {
    if encoding == 1 then FixedOp(width)
    else if encoding == 2 then VbrOp(width)
    else if encoding == 3 then Array
    else if encoding == 4 then Char6
    else if encoding == 5 then Blob
    else if encoding == 0 then Literal(0)
    else Other
  }

  function OpAt(bits: Bits, pos: nat): Option<(Op, nat)> {
    match FixedAt(bits, pos, 1)
    case None => None
    case Some((literal, p1)) =>
      if literal != 0 then
        match VbrAt(bits, p1, 8)
        case None => None
        case Some((v, p2)) => Some((Literal(v), p2))
      else
        match FixedAt(bits, p1, 3)
        case None => None
        case Some((encoding, p2)) =>
          if encoding == 1 || encoding == 2 then
            match VbrAt(bits, p2, 5)
            case None => None
            case Some((w, p3)) => Some((OpOf(encoding, w), p3))
          else Some((OpOf(encoding, 0), p2))
  }

  function OpsDefinedAt(bits: Bits, pos: nat, n: nat, ops: Abbrev): Option<(Abbrev, nat)>
    decreases n
  {
    if n == 0 then Some((ops, pos))
    else
      match OpAt(bits, pos)
      case None => None
      case Some((op, next)) => OpsDefinedAt(bits, next, n - 1, ops + [op])
  }

  /** bc_read_define_abbrev */
  function AbbrevAt(bits: Bits, pos: nat): Option<(Abbrev, nat)> {
    match VbrAt(bits, pos, 5)
    case None => None
    case Some((n, next)) => OpsDefinedAt(bits, next, n % UINT32, [])
  }

  predicate OpFits(op: Op) {
    match op
    case Literal(v) => v < Pow2(64)
    case FixedOp(w) => w < Pow2(64)
    case VbrOp(w) => w < Pow2(64)
    case Other => false
    case _ => true
  }

  function OpBits(op: Op): Bits
    requires OpFits(op)
  {
    match op
    case Literal(v) => Fixed(1, 1) + Vbr(v, 8)
    case FixedOp(w) => Fixed(0, 1) + Fixed(1, 3) + Vbr(w, 5)
    case VbrOp(w) => Fixed(0, 1) + Fixed(2, 3) + Vbr(w, 5)
    case Array => Fixed(0, 1) + Fixed(3, 3)
    case Char6 => Fixed(0, 1) + Fixed(4, 3)
    case Blob => Fixed(0, 1) + Fixed(5, 3)
  }

  function OpsBits(ops: Abbrev): Bits
    requires forall k :: 0 <= k < |ops| ==> OpFits(ops[k])
  {
    if ops == [] then [] else OpBits(ops[0]) + OpsBits(ops[1..])
  }

  function AbbrevBits(ops: Abbrev): Bits
    requires forall k :: 0 <= k < |ops| ==> OpFits(ops[k])
  {
    Vbr(|ops|, 5) + OpsBits(ops)
  }

  lemma {:induction false} OpRead(bits: Bits, pos: nat, op: Op)
    requires OpFits(op) && At(bits, pos, OpBits(op))
    ensures OpAt(bits, pos) == Some((op, pos + |OpBits(op)|))
  {
    hide At, Vbr, VbrAt, Fixed, FixedAt;
    SmallPowers();
    hide Pow2;
    match op
    case Literal(v) =>
      AtSplit(bits, pos, Fixed(1, 1), Vbr(v, 8));
      FixedRead(bits, pos, 1, 1);
      VbrReadAll(bits, pos + 1, 8, v);
    case FixedOp(w) => WidthOpRead(bits, pos, 1, w);
    case VbrOp(w) => WidthOpRead(bits, pos, 2, w);
    case Array => PlainOpRead(bits, pos, 3);
    case Char6 => PlainOpRead(bits, pos, 4);
    case Blob => PlainOpRead(bits, pos, 5);
  }

  lemma {:induction false} SmallPowers()
    ensures Pow2(1) == 2 && Pow2(3) == 8
  {
    PowDouble(0);
    PowDouble(1);
    PowDouble(2);
  }

  lemma {:induction false} PlainOpRead(bits: Bits, pos: nat, e: nat)
    requires 3 <= e <= 5 && At(bits, pos, Fixed(0, 1) + Fixed(e, 3))
    ensures OpAt(bits, pos) == Some((OpOf(e, 0), pos + 4))
  {
    hide At, Vbr, VbrAt, Fixed, FixedAt;
    SmallPowers();
    hide Pow2;
    AtSplit(bits, pos, Fixed(0, 1), Fixed(e, 3));
    FixedRead(bits, pos, 0, 1);
    FixedRead(bits, pos + 1, e, 3);
  }

  lemma {:induction false} WidthOpRead(bits: Bits, pos: nat, e: nat, w: nat)
    requires 1 <= e <= 2 && w < Pow2(64) && At(bits, pos, Fixed(0, 1) + Fixed(e, 3) + Vbr(w, 5))
    ensures OpAt(bits, pos) == Some((OpOf(e, w), pos + 4 + |Vbr(w, 5)|))
  {
    hide At, Vbr, VbrAt, Fixed, FixedAt;
    SmallPowers();
    hide Pow2;
    AtSplit(bits, pos, Fixed(0, 1) + Fixed(e, 3), Vbr(w, 5));
    AtSplit(bits, pos, Fixed(0, 1), Fixed(e, 3));
    FixedRead(bits, pos, 0, 1);
    FixedRead(bits, pos + 1, e, 3);
    VbrReadAll(bits, pos + 4, 5, w);
  }

  lemma {:induction false} OpsDefinedRead(bits: Bits, pos: nat, ops: Abbrev, before: Abbrev)
    requires forall k :: 0 <= k < |ops| ==> OpFits(ops[k])
    requires At(bits, pos, OpsBits(ops))
    ensures OpsDefinedAt(bits, pos, |ops|, before) == Some((before + ops, pos + |OpsBits(ops)|))
    decreases |ops|
  {
    hide At, OpAt, OpBits;
    if ops == [] {
      assert before + ops == before;
    } else {
      AtSplit(bits, pos, OpBits(ops[0]), OpsBits(ops[1..]));
      OpRead(bits, pos, ops[0]);
      OpsDefinedRead(bits, pos + |OpBits(ops[0])|, ops[1..], before + [ops[0]]);
      assert (before + [ops[0]]) + ops[1..] == before + ops;
    }
  }

  /** A definition is read back as the abbreviation it was written for. */
  lemma {:induction false} AbbrevRoundTrip(bits: Bits, pos: nat, ops: Abbrev)
    requires |ops| < UINT32 && forall k :: 0 <= k < |ops| ==> OpFits(ops[k])
    requires At(bits, pos, AbbrevBits(ops))
    ensures AbbrevAt(bits, pos) == Some((ops, pos + |AbbrevBits(ops)|))
  {
    hide At, Vbr, VbrAt, OpsBits, OpsDefinedAt;
    AtSplit(bits, pos, Vbr(|ops|, 5), OpsBits(ops));
    CountFits(|ops|);
    VbrReadAll(bits, pos, 5, |ops|);
    SmallMod(|ops|, UINT32);
    OpsDefinedRead(bits, pos + |Vbr(|ops|, 5)|, ops, []);
    assert [] + ops == ops;
  }
}
