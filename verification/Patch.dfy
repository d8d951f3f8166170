/**
 Patching the immediates of x86-64 and AArch64 instructions in place, and what the processor
 computes from the patched words: B/BL (imm26), ADRP (immhi:immlo), ADD (imm12) and the 64-bit
 LDR with an unsigned offset (imm12 scaled by eight).
 */
module Patch {
  import opened Wrappers
  import opened Numbers
  import opened ByteOrder
  import opened BitFields

  type Word32 = x: nat | x < 0x1_0000_0000
  type Address = x: nat | x < 0x1_0000_0000_0000_0000

  const SPACE: nat := 0x1_0000_0000_0000_0000
  const PAGE: nat := 0x1000

  /** C's cast of an address to a signed 64-bit integer. */
  function Signed64(x: Address): int {
    if x < 0x8000_0000_0000_0000 then x else x - SPACE
  }

  /** C's cast of a signed 64-bit integer to a 32-bit word. */
  function Low32(x: int): Word32 {
    x % 0x1_0000_0000
  }

  /** C's division, which drops the fraction. */
  function TruncDiv(x: int, d: nat): int
    requires d > 0
  {
    if x >= 0 then x / d else -(-x / d)
  }

  // ---------------------------------------------------------------------------
  // Words with one or two fields replaced

  const BRANCH_KEEP: nat := 0xFC00_0000
  const PAGE_KEEP: nat := 0xFFFF_FFFF - (0x3 * 0x2000_0000 + 0x7_FFFF * 0x20)
  const OFFSET_KEEP: nat := 0xFFFF_FFFF - 0xFFF * 0x400

  function WithBranch(insn: Word32, imm: int): nat {
    BitOr(BitAnd(insn, BRANCH_KEEP), BitAnd(Low32(imm), 0x03FF_FFFF))
  }

  function WithPages(insn: Word32, pages: int): nat {
    BitOr(BitOr(BitAnd(insn, PAGE_KEEP), BitAnd(Low32(pages), 3) * 0x2000_0000),
          BitAnd(Low32(pages) / 4, 0x7_FFFF) * 0x20)
  }

  function WithOffset(insn: Word32, imm: nat): nat {
    BitOr(BitAnd(insn, OFFSET_KEEP), BitAnd(imm, 0xFFF) * 0x400)
  }

  lemma {:induction false} Powers()
    ensures Pow2(1) == 2 && Pow2(2) == 4 && Pow2(5) == 32 && Pow2(6) == 64 && Pow2(10) == 1024
    ensures Pow2(12) == 4096 && Pow2(19) == 0x8_0000 && Pow2(26) == 0x400_0000
  {
    assert Pow2(12) == 4096;
    Pow2Add(12, 7);
    Pow2Add(19, 7);
  }

  lemma {:induction false} Ups(v: nat)
    ensures Up(v, 2) == 4 * v && Up(v, 5) == 32 * v && Up(v, 10) == 1024 * v && Up(v, 12) == 4096 * v
    ensures Up(v, 19) == 0x8_0000 * v && Up(v, 26) == 0x400_0000 * v
  {
    Powers();
    hide Pow2, Up;
    UpIsProduct(v, 2);
    UpIsProduct(v, 5);
    UpIsProduct(v, 10);
    UpIsProduct(v, 12);
    UpIsProduct(v, 19);
    UpIsProduct(v, 26);
  }

  lemma {:induction false} Masks(x: nat)
    ensures BitAnd(x, 1) == x % 2 && BitAnd(x, 3) == x % 4 && BitAnd(x, 31) == x % 32
    ensures BitAnd(x, 63) == x % 64 && BitAnd(x, 1023) == x % 1024 && BitAnd(x, 0xFFF) == x % 4096
    ensures BitAnd(x, 0x7_FFFF) == x % 0x8_0000 && BitAnd(x, 0x03FF_FFFF) == x % 0x400_0000
  {
    Powers();
    hide Pow2, BitAnd;
    BitAndMask(x, 1);
    BitAndMask(x, 2);
    BitAndMask(x, 5);
    BitAndMask(x, 6);
    BitAndMask(x, 10);
    BitAndMask(x, 12);
    BitAndMask(x, 19);
    BitAndMask(x, 26);
  }

  lemma {:induction false} Zeros(x: nat)
    ensures BitAnd(x, 0) == 0 && BitOr(x, 0) == x && BitOr(0, x) == x
  {
  }

  /** Below a field of b bits and above it everything is kept; the field becomes f. */
  lemma {:induction false} BranchField(t: nat, l: nat, f: nat)
    requires t < 64 && l < 0x400_0000 && f < 0x400_0000
    ensures BitOr(BitAnd(0x400_0000 * t + l, BRANCH_KEEP), f) == 0x400_0000 * t + f
  {
    Powers();
    hide Pow2, BitAnd, BitOr, Up;
    AndSplit(t, l, 63, 0, 26);
    Ups(t);
    Ups(63);
    Masks(t);
    Zeros(l);
    OrSplit(t, 0, 0, f, 26);
    Ups(0);
    Zeros(t);
    Zeros(f);
  }

  /** The twelve bits from bit 10. */
  lemma {:induction false} OffsetField(t: nat, m: nat, l: nat, f: nat)
    requires t < 1024 && m < 4096 && l < 1024 && f < 4096
    ensures BitOr(BitAnd(1024 * (4096 * t + m) + l, OFFSET_KEEP), 1024 * f) == 1024 * (4096 * t + f) + l
  {
    Powers();
    hide Pow2, BitAnd, BitOr, Up;
    AndSplit(4096 * t + m, l, 4096 * 1023, 1023, 10);
    AndSplit(t, m, 1023, 0, 12);
    Ups(t);
    Ups(1023);
    Ups(4096 * t + m);
    Ups(4096 * 1023);
    Masks(t);
    Masks(l);
    Zeros(m);
    OrSplit(4096 * t, l, f, 0, 10);
    OrSplit(t, 0, 0, f, 12);
    Ups(4096 * t);
    Ups(f);
    Ups(4096 * t + f);
    Ups(0);
    Zeros(t);
    Zeros(f);
    Zeros(l);
  }

  /** A word of the ADRP layout from its five fields. */
  function PageWord(s: nat, lo: nat, mid: nat, hi: nat, rd: nat): nat {
    32 * (0x8_0000 * (32 * (4 * s + lo) + mid) + hi) + rd
  }

  /** Bit 31, bits 24-28 and bits 0-4 are kept. */
  lemma {:induction false} PageKeep(s: nat, lo: nat, mid: nat, hi: nat, rd: nat)
    requires s < 2 && lo < 4 && mid < 32 && hi < 0x8_0000 && rd < 32
    ensures BitAnd(PageWord(s, lo, mid, hi, rd), PAGE_KEEP) == PageWord(s, 0, mid, 0, rd)
  {
    Powers();
    hide Pow2, BitAnd, Up;
    var b := 32 * (4 * s + lo) + mid;
    AndSplit(0x8_0000 * b + hi, rd, 0x8_0000 * (32 * 4 + 31), 31, 5);
    AndSplit(b, hi, 32 * 4 + 31, 0, 19);
    AndSplit(4 * s + lo, mid, 4, 31, 5);
    AndSplit(s, lo, 1, 0, 2);
    Ups(s);
    Ups(1);
    Ups(4 * s + lo);
    Ups(4);
    Ups(4 * s);
    Ups(b);
    Ups(32 * 4 + 31);
    Ups(32 * (4 * s) + mid);
    Ups(0x8_0000 * b + hi);
    Ups(0x8_0000 * (32 * 4 + 31));
    Ups(0x8_0000 * (32 * (4 * s) + mid));
    Masks(s);
    Masks(mid);
    Masks(rd);
    Zeros(lo);
    Zeros(hi);
  }

  /** The two parts of the page number are put into the cleared bits. */
  lemma {:induction false} PageField(s: nat, mid: nat, rd: nat, il: nat, ih: nat)
    requires s < 2 && mid < 32 && rd < 32 && il < 4 && ih < 0x8_0000
    ensures BitOr(BitOr(PageWord(s, 0, mid, 0, rd), 0x2000_0000 * il), 32 * ih) == PageWord(s, il, mid, ih, rd)
  {
    Powers();
    hide Pow2, BitOr, Up;
    var b, b2 := 32 * (4 * s) + mid, 32 * (4 * s + il) + mid;
    OrSplit(0x8_0000 * b, rd, 0x8_0000 * (32 * il), 0, 5);
    OrSplit(b, 0, 32 * il, 0, 19);
    OrSplit(4 * s, mid, il, 0, 5);
    OrSplit(s, 0, 0, il, 2);
    OrSplit(0x8_0000 * b2, rd, ih, 0, 5);
    OrSplit(b2, 0, 0, ih, 19);
    Ups(0);
    Ups(s);
    Ups(4 * s);
    Ups(il);
    Ups(4 * s + il);
    Ups(b);
    Ups(b2);
    Ups(32 * il);
    Ups(0x8_0000 * b);
    Ups(0x8_0000 * b2);
    Ups(0x8_0000 * (32 * il));
    Ups(ih);
    Ups(0x8_0000 * b2 + ih);
    Zeros(0);
    Zeros(s);
    Zeros(il);
    Zeros(mid);
    Zeros(rd);
    Zeros(b2);
    Zeros(ih);
  }

  // ---------------------------------------------------------------------------
  // What the processor reads from the words

  function SignExtend(v: nat, sign: nat): int {
    if v < sign then v else v - 2 * sign
  }

  function BranchImm(w: nat): int {
    SignExtend(w % 0x400_0000, 0x200_0000)
  }

  function PageImm(w: nat): int {
    SignExtend(w / 0x20 % 0x8_0000 * 4 + w / 0x2000_0000 % 4, 0x10_0000)
  }

  function OffsetImm(w: nat): nat {
    w / 0x400 % 0x1000
  }

  predicate SameButBranch(w: nat, v: nat) {
    w / 0x400_0000 == v / 0x400_0000
  }

  predicate SameButPages(w: nat, v: nat) {
    w / 0x8000_0000 == v / 0x8000_0000 && w / 0x100_0000 % 32 == v / 0x100_0000 % 32 && w % 32 == v % 32
  }

  predicate SameButOffset(w: nat, v: nat) {
    w / 0x40_0000 == v / 0x40_0000 && w % 0x400 == v % 0x400
  }

  lemma {:induction false} BranchWord(w: Word32, imm: int)
    ensures WithBranch(w, imm) == 0x400_0000 * (w / 0x400_0000) + imm % 0x400_0000
  {
    hide BitAnd, BitOr;
    BranchField(w / 0x400_0000, w % 0x400_0000, imm % 0x400_0000);
    Masks(Low32(imm));
    ModOfMod(imm, 0x400_0000, 64);
  }

  lemma {:induction false} BranchSet(w: Word32, imm: int)
    requires -0x200_0000 <= imm < 0x200_0000
    ensures var v := WithBranch(w, imm);
      v < 0x1_0000_0000 && BranchImm(v) == imm && SameButBranch(w, v)
  {
    hide WithBranch;
    BranchWord(w, imm);
    DivModUnique(WithBranch(w, imm), 0x400_0000, w / 0x400_0000, imm % 0x400_0000);
    SmallMod(imm, 0x400_0000);
  }

  lemma {:induction false} OffsetWord(w: Word32, imm: nat)
    requires imm < 4096
    ensures WithOffset(w, imm) == 0x400 * (0x1000 * (w / 0x40_0000) + imm) + w % 0x400
  {
    var (t, m, l) := (w / 0x40_0000, w / 0x400 % 0x1000, w % 0x400);
    hide BitAnd, BitOr;
    OffsetField(t, m, l, imm);
    Masks(imm);
    SmallMod(imm, 4096);
    Quotients(w, 0x400, 0x1000);
  }

  /** Dividing twice. */
  lemma {:induction false} Quotients(x: nat, d: nat, e: nat)
    requires d > 0 && e > 0
    ensures x == d * (x / d) + x % d && x / d == e * (x / d / e) + x / d % e
    ensures d * e > 0 && x / d / e == x / (d * e)
  {
    MulMonotone(1, d, e);
    var (q, r, l) := (x / d / e, x / d % e, x % d);
    assert x == d * (e * q + r) + l;
    assert d * (e * q) == q * (d * e);
    MulMonotone(r + 1, e, d);
    DivModUnique(x, d * e, q, d * r + l);
  }

  lemma {:induction false} OffsetSet(w: Word32, imm: nat)
    requires imm < 4096
    ensures var v := WithOffset(w, imm);
      v < 0x1_0000_0000 && OffsetImm(v) == imm && SameButOffset(w, v)
  {
    hide WithOffset;
    OffsetWord(w, imm);
    var (t, l) := (w / 0x40_0000, w % 0x400);
    var v := WithOffset(w, imm);
    DivModUnique(v, 0x400, 0x1000 * t + imm, l);
    DivModUnique(0x1000 * t + imm, 0x1000, t, imm);
    DivModUnique(v, 0x40_0000, t, 0x400 * imm + l);
  }

  lemma {:induction false} PageWordFields(s: nat, lo: nat, mid: nat, hi: nat, rd: nat)
    requires s < 2 && lo < 4 && mid < 32 && hi < 0x8_0000 && rd < 32
    ensures var w := PageWord(s, lo, mid, hi, rd);
      && w < 0x1_0000_0000 && w / 0x8000_0000 == s && w / 0x2000_0000 % 4 == lo
      && w / 0x100_0000 % 32 == mid && w / 0x20 % 0x8_0000 == hi && w % 32 == rd
  {
    var c := 4 * s + lo;
    var b := 32 * c + mid;
    var w := PageWord(s, lo, mid, hi, rd);
    DivModUnique(w, 0x8000_0000, s, 0x2000_0000 * lo + 0x100_0000 * mid + 32 * hi + rd);
    DivModUnique(w, 0x2000_0000, c, 0x100_0000 * mid + 32 * hi + rd);
    DivModUnique(w, 0x100_0000, b, 32 * hi + rd);
    DivModUnique(w, 32, 0x8_0000 * b + hi, rd);
    DivModUnique(c, 4, s, lo);
    DivModUnique(b, 32, c, mid);
    DivModUnique(0x8_0000 * b + hi, 0x8_0000, b, hi);
  }

  lemma {:induction false} PageWordOf(w: Word32)
    ensures w == PageWord(w / 0x8000_0000, w / 0x2000_0000 % 4, w / 0x100_0000 % 32, w / 0x20 % 0x8_0000, w % 32)
    ensures w / 0x8000_0000 < 2
  {
    Quotients(w, 0x20, 0x8_0000);
    Quotients(w / 0x20, 0x8_0000, 32);
    Quotients(w, 0x20, 0x100_0000);
    Quotients(w, 0x100_0000, 32);
    Quotients(w, 0x2000_0000, 4);
  }

  lemma {:induction false} PagesWord(w: Word32, pages: int, s: nat, lo: nat, mid: nat, hi: nat, rd: nat)
    requires s < 2 && lo < 4 && mid < 32 && hi < 0x8_0000 && rd < 32 && w == PageWord(s, lo, mid, hi, rd)
    ensures WithPages(w, pages) == PageWord(s, pages % 4, mid, pages / 4 % 0x8_0000, rd)
  {
    hide BitAnd, BitOr, Low32, PageWord;
    PageKeep(s, lo, mid, hi, rd);
    LowPages(pages);
    Masks(Low32(pages));
    Masks(Low32(pages) / 4);
    PageField(s, mid, rd, pages % 4, pages / 4 % 0x8_0000);
  }

  lemma {:induction false} LowPages(pages: int)
    ensures Low32(pages) % 4 == pages % 4
    ensures Low32(pages) / 4 % 0x8_0000 == pages / 4 % 0x8_0000
  {
    ModOfMod(pages, 4, 0x4000_0000);
    var k := pages / 0x1_0000_0000;
    assert pages == k * 0x1_0000_0000 + Low32(pages);
    DivModUnique(pages, 4, k * 0x4000_0000 + Low32(pages) / 4, Low32(pages) % 4);
    ModShift(Low32(pages) / 4, k * 0x800, 0x8_0000);
  }

  lemma {:induction false} PagesSet(w: Word32, pages: int)
    requires -0x10_0000 <= pages < 0x10_0000
    ensures var v := WithPages(w, pages);
      v < 0x1_0000_0000 && PageImm(v) == pages && SameButPages(w, v)
  {
    hide WithPages, PageWord;
    PageWordOf(w);
    PagesWord(w, pages, w / 0x8000_0000, w / 0x2000_0000 % 4, w / 0x100_0000 % 32, w / 0x20 % 0x8_0000, w % 32);
    PageWordFields(w / 0x8000_0000, pages % 4, w / 0x100_0000 % 32, pages / 4 % 0x8_0000, w % 32);
    SmallMod(pages / 4, 0x8_0000);
  }

  // ---------------------------------------------------------------------------
  // The addresses the processor computes

  function BranchTarget(w: nat, place: nat): nat {
    (place + 4 * BranchImm(w)) % SPACE
  }

  function PageBase(w: nat, place: nat): nat {
    (place / PAGE * PAGE + PAGE * PageImm(w)) % SPACE
  }

  function AddResult(w: nat, base: nat): nat {
    (base + OffsetImm(w)) % SPACE
  }

  function LoadAddress(w: nat, base: nat): nat {
    (base + 8 * OffsetImm(w)) % SPACE
  }

  /** A relative x86-64 operand counts from the end of the instruction. */
  function RelativeTarget(w: nat, place: nat): int {
    (place + 4 + SignExtend(w, 0x8000_0000)) % SPACE
  }

  lemma {:induction false} KeepsPage(x: Address)
    ensures BitAnd(x, SPACE - PAGE) == x / PAGE * PAGE
  {
    Powers();
    assert Pow2(52) == 0x10_0000_0000_0000 by { hide Pow2; Pow2Add(26, 26); }
    hide Pow2, BitAnd, Up;
    assert x == 4096 * (x / 4096) + x % 4096;
    SmallMod(x / PAGE, 0x10_0000_0000_0000);
    AndSplit(x / PAGE, x % PAGE, 0xF_FFFF_FFFF_FFFF, 0, 12);
    BitAndMask(x / PAGE, 52);
    Ups(x / PAGE);
    Ups(0xF_FFFF_FFFF_FFFF);
    Zeros(x % PAGE);
  }

  function PageOf(x: Address): (p: Address)
    ensures p == x / PAGE * PAGE
  {
    KeepsPage(x);
    BitAnd(x, SPACE - PAGE)
  }

  /** Pages from the page of the place to the page of the target, as the patch computes them. */
  function PagesBetween(target: Address, place: Address): int {
    (Signed64(PageOf(target)) - Signed64(PageOf(place))) / 0x1000
  }

  lemma {:induction false} PageReaches(w: nat, place: Address, target: Address)
    requires PageImm(w) == PagesBetween(target, place)
    ensures PageBase(w, place) == target / PAGE * PAGE
  {
    hide PageImm, PageOf;
    var (t, p) := (target / PAGE, place / PAGE);
    var wrap := (if Signed64(PageOf(target)) < 0 then -1 else 0) - (if Signed64(PageOf(place)) < 0 then -1 else 0);
    assert Signed64(PageOf(target)) - Signed64(PageOf(place)) == (t - p + wrap * 0x10_0000_0000_0000) * 0x1000;
    DivModUnique(Signed64(PageOf(target)) - Signed64(PageOf(place)), 0x1000, t - p + wrap * 0x10_0000_0000_0000, 0);
    DivModUnique(p * PAGE + PAGE * PageImm(w), SPACE, wrap, t * PAGE);
  }

  /** ADRP followed by ADD yields the target. */
  lemma {:induction false} PairReaches(adrp: nat, add: nat, place: Address, target: Address)
    requires PageImm(adrp) == PagesBetween(target, place) && OffsetImm(add) == target % PAGE
    ensures AddResult(add, PageBase(adrp, place)) == target
  {
    hide PageImm, PagesBetween, OffsetImm, PageBase;
    PageReaches(adrp, place, target);
    SmallMod(target, SPACE);
  }

  /** ADRP followed by a 64-bit LDR reads the slot, which is aligned to eight bytes. */
  lemma {:induction false} PairReadsSlot(adrp: nat, load: nat, place: Address, slot: Address)
    requires PageImm(adrp) == PagesBetween(slot, place) && slot % 8 == 0 && OffsetImm(load) == slot % PAGE / 8
    ensures LoadAddress(load, PageBase(adrp, place)) == slot
  {
    hide PageImm, PagesBetween, OffsetImm, PageBase;
    PageReaches(adrp, place, slot);
    ModOfMod(slot, 8, 512);
    SmallMod(slot, SPACE);
  }

  /** A patched branch reaches its target exactly if the distance is a whole number of words. */
  lemma {:induction false} BranchReaches(w: nat, place: Address, target: Address)
    requires BranchImm(w) == TruncDiv(Signed64(target) - Signed64(place), 4)
    ensures BranchTarget(w, place) == target <==> (Signed64(target) - Signed64(place)) % 4 == 0
  {
    hide BranchImm;
    var wrap := (if Signed64(target) < 0 then -1 else 0) - (if Signed64(place) < 0 then -1 else 0);
    var distance := Signed64(target) - Signed64(place);
    assert place + distance == target + wrap * SPACE;
    var missing := distance - 4 * BranchImm(w);
    assert -4 < missing < 4 && (missing == 0 <==> distance % 4 == 0);
    var x := target - missing;
    assert (place + 4 * BranchImm(w)) % SPACE == x % SPACE by { ModShift(x, wrap, SPACE); }
    var turn := if x < 0 then -1 else if x < SPACE then 0 else 1;
    DivModUnique(x, SPACE, turn, x - turn * SPACE);
  }

  lemma {:induction false} RelativeReaches(place: Address, target: Address)
    requires var distance := Signed64(target) - Signed64((place + 4) % SPACE); -0x8000_0000 <= distance < 0x8000_0000
    ensures RelativeTarget(Low32(Signed64(target) - Signed64((place + 4) % SPACE)), place) == target
  {
    var next := (place + 4) % SPACE;
    var distance := Signed64(target) - Signed64(next);
    SmallMod(distance, 0x1_0000_0000);
    assert SignExtend(Low32(distance), 0x8000_0000) == distance;
    var wrap := (if Signed64(target) < 0 then -1 else 0) - (if Signed64(next) < 0 then -1 else 0)
      + if place + 4 < SPACE then 0 else 1;
    DivModUnique(place + 4 + distance, SPACE, wrap, target);
  }

  // ---------------------------------------------------------------------------
  // Code bytes

  predicate Inside(length: nat, off: nat, n: nat) {
    off + n <= length
  }

  /** The buffer with some bytes replaced. */
  function Spliced(s: seq<Byte>, off: nat, bytes: seq<Byte>): (t: seq<Byte>)
    requires off + |bytes| <= |s|
    ensures |t| == |s|
  {
    s[..off] + bytes + s[off + |bytes|..]
  }

  function WordAt(s: seq<Byte>, off: nat): Word32
    requires off + 4 <= |s|
  {
    LittleEndianBound(s[off..off + 4]);
    Pow2Values();
    LittleEndian(s[off..off + 4])
  }

  function FromBytes(a: nat, b: nat, c: nat, d: nat): nat {
    a + b * 0x100 + c * 0x1_0000 + d * 0x100_0000
  }

  function OrBytes(a: nat, b: nat, c: nat, d: nat): nat {
    BitOr(BitOr(BitOr(a, b * 0x100), c * 0x1_0000), d * 0x100_0000)
  }

  lemma {:induction false} FourBytes(s: seq<Byte>)
    requires |s| == 4
    ensures LittleEndian(s) == FromBytes(s[0], s[1], s[2], s[3])
  {
    assert LittleEndian(s[1..]) == s[1] + 256 * LittleEndian(s[2..]) by { assert s[1..][1..] == s[2..]; }
    assert LittleEndian(s[2..]) == s[2] + 256 * LittleEndian(s[3..]) by { assert s[2..][1..] == s[3..]; }
    assert LittleEndian(s[3..]) == s[3] + 256 * LittleEndian(s[4..]) by { assert s[3..][1..] == s[4..]; }
  }

  lemma {:induction false} FourOrs(a: nat, b: nat, c: nat, d: nat)
    requires a < 256 && b < 256 && c < 256
    ensures OrBytes(a, b, c, d) == FromBytes(a, b, c, d)
  {
    Pow2Values();
    assert Pow2(24) == 0x100_0000 by { hide Pow2; Pow2Add(8, 16); }
    hide Pow2, BitOr;
    BitOrDisjoint(b, a, 8);
    BitOrDisjoint(c, a + b * 0x100, 16);
    BitOrDisjoint(d, a + b * 0x100 + c * 0x1_0000, 24);
  }

  method ReadU32(buf: array<Byte>, off: nat) returns (w: Word32)
    requires off + 4 <= buf.Length
    ensures w == WordAt(buf[..], off)
  {
    FourBytes(buf[..][off..off + 4]);
    FourOrs(buf[off], buf[off + 1], buf[off + 2], buf[off + 3]);
    w := OrBytes(buf[off], buf[off + 1], buf[off + 2], buf[off + 3]);
  }

  lemma {:induction false} ByteAt(v: nat, n: nat, i: nat)
    requires i < n
    ensures Bytes(v, n)[i] == v / Pow2(8 * i) % 256
    decreases i
  {
    hide Pow2;
    if i == 0 {
      ZeroPower();
      DivModUnique(v, 1, v, 0);
    } else {
      ByteAt(v / 256, n - 1, i - 1);
      Pow2Eight(8 * (i - 1));
      assert 8 * (i - 1) + 8 == 8 * i;
      Quotients(v, 256, Pow2(8 * (i - 1)));
    }
  }

  method WriteU32(buf: array<Byte>, off: nat, value: Word32) returns (ok: bool)
    modifies buf
    ensures ok == Inside(buf.Length, off, 4)
    ensures buf[..] == if ok then Spliced(old(buf[..]), off, Bytes(value, 4)) else old(buf[..])
  {
    if off + 4 > buf.Length {
      return false;
    }
    buf[off] := value % 256;
    buf[off + 1] := value / 0x100 % 256;
    buf[off + 2] := value / 0x1_0000 % 256;
    buf[off + 3] := value / 0x100_0000 % 256;
    ok := true;
    FourDigits(value);
    assert buf[..] == Spliced(old(buf[..]), off, Bytes(value, 4));
  }

  lemma {:induction false} FourDigits(v: nat)
    ensures Bytes(v, 4) == [v % 256, v / 0x100 % 256, v / 0x1_0000 % 256, v / 0x100_0000 % 256]
  {
    assert Bytes(v, 4) == [v % 256] + Bytes(v / 256, 3);
    assert Bytes(v / 256, 3) == [v / 256 % 256] + Bytes(v / 256 / 256, 2);
    assert Bytes(v / 256 / 256, 2) == [v / 256 / 256 % 256] + Bytes(v / 256 / 256 / 256, 1);
    assert Bytes(v / 256 / 256 / 256, 1) == [v / 256 / 256 / 256 % 256] + Bytes(v / 256 / 256 / 256 / 256, 0);
  }

  method WriteU64(buf: array<Byte>, off: nat, value: Address) returns (ok: bool)
    modifies buf
    ensures ok == Inside(buf.Length, off, 8)
    ensures buf[..] == if ok then Spliced(old(buf[..]), off, Bytes(value, 8)) else old(buf[..])
  {
    if off + 8 > buf.Length {
      return false;
    }
    for i := 0 to 8
      invariant forall k :: 0 <= k < buf.Length && !(off <= k < off + i) ==> buf[k] == old(buf[k])
      invariant forall k :: 0 <= k < i ==> buf[off + k] == Bytes(value, 8)[k]
    {
      ByteAt(value, 8, i);
      buf[off + i] := value / Pow2(8 * i) % 256;
    }
    ok := true;
    assert buf[..] == Spliced(old(buf[..]), off, Bytes(value, 8));
  }

  lemma {:induction false} WordBack(s: seq<Byte>, off: nat, v: Word32)
    requires off + 4 <= |s|
    ensures var t := Spliced(s, off, Bytes(v, 4)); WordAt(t, off) == v && OnlyWordAt(off, s, t)
  {
    hide Bytes, LittleEndian, Pow2;
    var t := Spliced(s, off, Bytes(v, 4));
    assert t[off..off + 4] == Bytes(v, 4);
    Pow2Values();
    assert WordAt(t, off) == LittleEndian(Bytes(v, 4));
    BytesOfValue(Bytes(v, 4), 0);
    BytesInjective(WordAt(t, off), v, 4);
  }

  /** The buffers differ at most in the word at off. */
  ghost predicate OnlyWordAt(off: nat, s: seq<Byte>, t: seq<Byte>) {
    && |s| == |t|
    && forall k :: 0 <= k < |s| && !(off <= k < off + 4) ==> s[k] == t[k]
  }

  // ---------------------------------------------------------------------------
  // The patches: base is the address of the buffer

  method PatchX86Rel32(buf: array<Byte>, base: Address, off: nat, target: Address) returns (ok: bool)
    requires base + buf.Length <= SPACE && base + off < SPACE
    modifies buf
    ensures var distance := Signed64(target) - Signed64((base + off + 4) % SPACE);
      ok == (Inside(buf.Length, off, 4) && -0x8000_0000 <= distance < 0x8000_0000)
    ensures !ok ==> buf[..] == old(buf[..])
    ensures ok ==> OnlyWordAt(off, old(buf[..]), buf[..])
    ensures ok ==> RelativeTarget(WordAt(buf[..], off), base + off) == target
  {
    hide WordAt, RelativeTarget;
    var place := base + off;
    var distance := Signed64(target) - Signed64((place + 4) % SPACE);
    if distance < -0x8000_0000 || distance > 0x7FFF_FFFF {
      return false;
    }
    RelativeReaches(place, target);
    if off + 4 <= buf.Length {
      WordBack(buf[..], off, Low32(distance));
    }
    ok := WriteU32(buf, off, Low32(distance));
  }

  method PatchBranch26(buf: array<Byte>, base: Address, off: nat, target: Address) returns (ok: bool)
    requires base + buf.Length <= SPACE
    modifies buf
    ensures ok == (Inside(buf.Length, off, 4) &&
      -0x200_0000 <= TruncDiv(Signed64(target) - Signed64(base + off), 4) < 0x200_0000)
    ensures !ok ==> buf[..] == old(buf[..])
    ensures ok ==> OnlyWordAt(off, old(buf[..]), buf[..])
    ensures ok ==> SameButBranch(WordAt(old(buf[..]), off), WordAt(buf[..], off))
    ensures ok ==> (BranchTarget(WordAt(buf[..], off), base + off) == target <==>
      (Signed64(target) - Signed64(base + off)) % 4 == 0)
  {
    hide WordAt, BranchTarget, BranchImm, SameButBranch, WithBranch;
    if off + 4 > buf.Length {
      return false;
    }
    var imm := TruncDiv(Signed64(target) - Signed64(base + off), 4);
    if imm < -0x200_0000 || imm >= 0x200_0000 {
      return false;
    }
    var insn := ReadU32(buf, off);
    BranchSet(insn, imm);
    BranchReaches(WithBranch(insn, imm), base + off, target);
    WordBack(buf[..], off, WithBranch(insn, imm));
    ok := WriteU32(buf, off, WithBranch(insn, imm));
  }

  method PatchPage21(buf: array<Byte>, base: Address, off: nat, target: Address) returns (ok: bool)
    requires base + buf.Length <= SPACE
    modifies buf
    ensures ok == (Inside(buf.Length, off, 4) && -0x10_0000 <= PagesBetween(target, base + off) < 0x10_0000)
    ensures !ok ==> buf[..] == old(buf[..])
    ensures ok ==> OnlyWordAt(off, old(buf[..]), buf[..])
    ensures ok ==> SameButPages(WordAt(old(buf[..]), off), WordAt(buf[..], off))
    ensures ok ==> PageImm(WordAt(buf[..], off)) == PagesBetween(target, base + off)
    ensures ok ==> PageBase(WordAt(buf[..], off), base + off) == target / PAGE * PAGE
  {
    hide WordAt, PageImm, PageBase, PagesBetween, SameButPages, WithPages;
    if off + 4 > buf.Length {
      return false;
    }
    var pages := PagesBetween(target, base + off);
    if pages < -0x10_0000 || pages >= 0x10_0000 {
      return false;
    }
    var insn := ReadU32(buf, off);
    PagesSet(insn, pages);
    PageReaches(WithPages(insn, pages), base + off, target);
    WordBack(buf[..], off, WithPages(insn, pages));
    ok := WriteU32(buf, off, WithPages(insn, pages));
  }

  method PatchPageOff12(buf: array<Byte>, off: nat, target: Address, gotLoad: bool) returns (ok: bool)
    modifies buf
    ensures ok == (Inside(buf.Length, off, 4) && (gotLoad ==> target % 8 == 0))
    ensures !ok ==> buf[..] == old(buf[..])
    ensures ok ==> OnlyWordAt(off, old(buf[..]), buf[..])
    ensures ok ==> SameButOffset(WordAt(old(buf[..]), off), WordAt(buf[..], off))
    ensures ok ==> OffsetImm(WordAt(buf[..], off)) == if gotLoad then target % PAGE / 8 else target % PAGE
  {
    hide WordAt, OffsetImm, SameButOffset, WithOffset, BitAnd;
    if off + 4 > buf.Length {
      return false;
    }
    Masks(target);
    var imm := BitAnd(target, 0xFFF);
    if gotLoad {
      ModOfMod(target, 8, 512);
      LowThree(imm);
      if BitAnd(imm, 7) != 0 {
        return false;
      }
      imm := imm / 8;
    }
    var insn := ReadU32(buf, off);
    OffsetSet(insn, imm);
    WordBack(buf[..], off, WithOffset(insn, imm));
    ok := WriteU32(buf, off, WithOffset(insn, imm));
  }

  lemma {:induction false} LowThree(x: nat)
    ensures BitAnd(x, 7) == x % 8
  {
    assert Pow2(3) == 8;
    BitAndMask(x, 3);
  }

  /** A pair patched at two places of one buffer, in either order, yields the target: what each
      patch promises about its own word is kept by the other. */
  lemma {:induction false} PatchedPair(s: seq<Byte>, t: seq<Byte>, u: seq<Byte>, base: Address,
                                       first: nat, second: nat, target: Address)
    requires base + |s| <= SPACE && |s| == |t| == |u|
    requires first + 4 <= |s| && second + 4 <= |s| && (first + 4 <= second || second + 4 <= first)
    requires OnlyWordAt(first, s, t) && PageImm(WordAt(t, first)) == PagesBetween(target, base + first)
    requires OnlyWordAt(second, t, u) && OffsetImm(WordAt(u, second)) == target % PAGE
    ensures AddResult(WordAt(u, second), PageBase(WordAt(u, first), base + first)) == target
  {
    hide PageImm, PagesBetween, OffsetImm, PageBase, AddResult, LittleEndian;
    assert u[first..first + 4] == t[first..first + 4];
    PairReaches(WordAt(u, first), WordAt(u, second), base + first, target);
  }
}
