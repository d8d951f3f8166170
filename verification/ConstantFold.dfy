/**
 The folding rules of the optimiser, in terms of 64-bit machine arithmetic, and the proof
 that an instruction may be replaced by what they return.
 */
module ConstantFold {
  import opened Wrappers
  import opened Numbers
  import opened Ir

  // ---------------------------------------------------------------------------
  // The folding rules

  /** uint64_t arithmetic. */
  function U64(x: int): nat {
    x % Pow2(64)
  }

  /** int_to_unsigned_bits: masking with 2^bits - 1. */
  function UnsignedBits(val: int, bits: nat): nat {
    U64(val) % Pow2(bits)
  }

  /** (int64_t)x of an unsigned word. */
  function AsInt64(x: nat): int {
    if x < Pow2(63) then x else x - Pow2(64)
  }

  /** int_sign_extend_bits: flip the sign bit, subtract it again, wrap around. */
  function SignExtendBits(val: nat, bits: nat): int {
    if bits >= 64 then AsInt64(U64(val))
    else if bits == 0 then 0
    else FlipAndSubtract(val % Pow2(bits), Pow2(bits - 1))
  }

  /** (v ^ sign) - sign for a single sign bit. */
  function FlipAndSubtract(v: nat, sign: nat): int {
    var flipped := if v >= sign then v - sign else v + sign;
    AsInt64(U64(flipped - sign))
  }

  function FoldValue(op: Opcode, bits: nat, a: nat, b: nat): Option<nat>
    requires bits > 0
  {
    var sa := SignExtendBits(a, bits);
    var sb := SignExtendBits(b, bits);
    match op
    case Add => Some(U64(a + b) % Pow2(bits))
    case Sub => Some(U64(a - b) % Pow2(bits))
    case Mul => Some(U64(a * b) % Pow2(bits))
    case And => Some(BitAnd(a, b) % Pow2(bits))
    case Or => Some(BitOr(a, b) % Pow2(bits))
    case Xor => Some(BitXor(a, b) % Pow2(bits))
    case Shl => if b >= bits then None else Some(U64(a * Pow2(b)) % Pow2(bits))
    case LShr => if b >= bits then None else Some(a / Pow2(b) % Pow2(bits))
    case AShr => if b >= bits then None else Some(U64(sa / Pow2(b)) % Pow2(bits))
    case SDiv =>
      if sb == 0 || (bits == 64 && sa + Pow2(63) == 0 && sb == -1) then None
      else Some(U64(TruncDiv(sa, sb)) % Pow2(bits))
    case SRem =>
      if sb == 0 || (bits == 64 && sa + Pow2(63) == 0 && sb == -1) then None
      else Some(U64(TruncRem(sa, sb)) % Pow2(bits))
    case UDiv => if b == 0 then None else Some(a / b % Pow2(bits))
    case URem => if b == 0 then None else Some(a % b % Pow2(bits))
    case _ => None
  }

  function FoldIntBinopImmediates(i: Inst): Option<Operand> {
    if |i.operands| < 2 || !i.operands[0].ImmI64? || !i.operands[1].ImmI64? then None
    else
      var bits := Width(i.ty);
      match FoldValue(i.op, bits, UnsignedBits(i.operands[0].imm, bits), UnsignedBits(i.operands[1].imm, bits))
      case None => None
      case Some(u) => Some(ImmI64(SignExtendBits(u, bits), i.ty))
  }

  predicate FoldCompare(p: Pred, bits: nat, a: nat, b: nat) {
    var sa := SignExtendBits(a, bits);
    var sb := SignExtendBits(b, bits);
    match p
    case EQ => a == b
    case NE => a != b
    case SGT => sa > sb
    case SGE => sa >= sb
    case SLT => sa < sb
    case SLE => sa <= sb
    case UGT => a > b
    case UGE => a >= b
    case ULT => a < b
    case ULE => a <= b
  }

  function FoldIcmpImmediates(i: Inst): Option<Operand> {
    if !i.op.ICmp? || |i.operands| < 2 || !i.operands[0].ImmI64? || !i.operands[1].ImmI64? then None
    else
      var bits := Width(i.operands[0].ty);
      var holds := FoldCompare(i.op.pred, bits, UnsignedBits(i.operands[0].imm, bits),
                               UnsignedBits(i.operands[1].imm, bits));
      Some(ImmI64(if holds then 1 else 0, i.ty))
  }

  predicate IsImm(o: Operand, n: int) {
    o.ImmI64? && o.imm == n
  }

  /** Every bit of the type is set in the immediate. */
  predicate IsAllOnes(o: Operand, bits: nat) {
    o.ImmI64? && U64(o.imm) % Pow2(bits) == Pow2(bits) - 1
  }

  function FoldIdentityIntBinop(i: Inst): Option<Operand> {
    if |i.operands| < 2 then None
    else
      var (lhs, rhs) := (i.operands[0], i.operands[1]);
      var bits := Width(i.ty);
      match i.op
      case Add => if IsImm(lhs, 0) then Some(rhs) else if IsImm(rhs, 0) then Some(lhs) else None
      case Sub => if IsImm(rhs, 0) then Some(lhs) else None
      case Mul => if IsImm(lhs, 1) then Some(rhs) else if IsImm(rhs, 1) then Some(lhs) else None
      case SDiv => if IsImm(rhs, 1) then Some(lhs) else None
      case UDiv => if IsImm(rhs, 1) then Some(lhs) else None
      case And => if IsAllOnes(lhs, bits) then Some(rhs) else if IsAllOnes(rhs, bits) then Some(lhs) else None
      case Or => if IsImm(lhs, 0) then Some(rhs) else if IsImm(rhs, 0) then Some(lhs) else None
      case Xor => if IsImm(lhs, 0) then Some(rhs) else if IsImm(rhs, 0) then Some(lhs) else None
      case Shl => if IsImm(rhs, 0) then Some(lhs) else None
      case LShr => if IsImm(rhs, 0) then Some(lhs) else None
      case AShr => if IsImm(rhs, 0) then Some(lhs) else None
      case _ => None
  }

  /** operand_equal: operands are compared field by field. */
  predicate OperandEqual(a: Operand, b: Operand) {
    a == b
  }

  function FoldSelect(i: Inst): Option<Operand> {
    if !i.op.Select? || |i.operands| < 3 then None
    else if i.operands[0].ImmI64? then Some(i.operands[if i.operands[0].imm != 0 then 1 else 2])
    else if OperandEqual(i.operands[1], i.operands[2]) then Some(i.operands[1])
    else None
  }

  function TryReplacement(i: Inst): Option<Operand> {
    if FoldSelect(i).Some? then FoldSelect(i)
    else if FoldIcmpImmediates(i).Some? then FoldIcmpImmediates(i)
    else if FoldIntBinopImmediates(i).Some? then FoldIntBinopImmediates(i)
    else FoldIdentityIntBinop(i)
  }

  // ---------------------------------------------------------------------------
  // What the rules rely on

  /** Conditions are tested with C's != 0 on the whole immediate, while an i1 value is its
      lowest bit: the two agree when the immediate is zero or odd (see ConditionResidue and EvenConditionMisread). */
  predicate FaithfulImm(o: Operand) {
    o.ImmI64? && o.ty.I1? ==> o.imm == 0 || o.imm % 2 == 1
  }

  predicate HasType(o: Operand, t: Type) {
    !o.BlockRef? && o.ty == t
  }

  /** The typing rules of the instructions that can be replaced or that branch.  Only immediates
      among the operands of branches and selects have to be faithful. */
  predicate WellTyped(i: Inst) {
    && (i.op.Select? || i.op.CondBr? ==> forall k :: 0 <= k < |i.operands| ==> FaithfulImm(i.operands[k]))
    && (IsBinop(i.op) ==>
          |i.operands| == 2 && IsScalar(i.ty) && HasType(i.operands[0], i.ty) && HasType(i.operands[1], i.ty))
    && (i.op.ICmp? ==>
          |i.operands| == 2 && i.ty == I1 && !i.operands[0].BlockRef? && IsScalar(i.operands[0].ty)
          && HasType(i.operands[1], i.operands[0].ty))
    && (i.op.Select? ==>
          |i.operands| == 3 && !i.ty.Void? && HasType(i.operands[0], I1)
          && HasType(i.operands[1], i.ty) && HasType(i.operands[2], i.ty))
    && (i.op.CondBr? ==>
          |i.operands| == 3 && HasType(i.operands[0], I1)
          && i.operands[1].BlockRef? && i.operands[2].BlockRef?)
    && (i.op.Load? ==> |i.operands| == 1 && !i.ty.Void? && HasType(i.operands[0], Ptr))
  }

  /** Registers among the operands hold values of their type. */
  predicate OperandsFit(env: Env, os: seq<Operand>) {
    forall k :: 0 <= k < |os| && os[k].Vreg? && os[k].vreg in env ==>
      env[os[k].vreg] == Fit(os[k].ty, env[os[k].vreg])
  }

  // ---------------------------------------------------------------------------
  // Soundness

  /** A value in the signed range survives the trip through an unsigned word. */
  lemma {:induction false} AsInt64OfWord(x: int)
    requires 0 - Pow2(63) <= x < Pow2(63)
    ensures AsInt64(U64(x)) == x
  {
    SmallMod(x, Pow2(64));
  }

  lemma {:induction false} FlipAndSubtractValue(v: nat, sign: nat)
    requires v < 2 * sign <= Pow2(63)
    ensures FlipAndSubtract(v, sign) == if v >= sign then v - 2 * sign else v
  {
    AsInt64OfWord(if v >= sign then v - 2 * sign else v);
  }

  lemma {:induction false} SignExtendNarrow(u: nat, bits: nat)
    requires 1 <= bits < 64 && u < Pow2(bits)
    ensures SignExtendBits(u, bits) == ToSigned(u, bits)
  {
    SmallMod(u, Pow2(bits));
    Pow2Monotone(bits, 63);
    FlipAndSubtractValue(u, Pow2(bits - 1));
    hide FlipAndSubtract;
  }

  lemma {:induction false} SignExtendIsToSigned(u: nat, bits: nat)
    requires 1 <= bits <= 64 && u < Pow2(bits)
    ensures SignExtendBits(u, bits) == ToSigned(u, bits)
  {
    if bits < 64 {
      SignExtendNarrow(u, bits);
    } else {
      SmallMod(u, Pow2(64));
    }
  }

  lemma {:induction false} ToSignedResidue(u: nat, bits: nat)
    requires bits >= 1 && u < Pow2(bits)
    ensures ToSigned(u, bits) % Pow2(bits) == u
    ensures 0 - Pow2(bits - 1) <= ToSigned(u, bits) < Pow2(bits - 1)
  {
    var half := Pow2(bits - 1);
    assert Pow2(bits) == 2 * half;
    SmallMod(u, 2 * half);
    if u >= half {
      SmallMod(u - 2 * half, 2 * half);
    }
  }

  lemma {:induction false} UnsignedBitsIsFit(val: int, bits: nat)
    requires bits <= 64
    ensures UnsignedBits(val, bits) == val % Pow2(bits)
  {
    Pow2ModMod(val, bits, 64);
  }

  lemma {:induction false} WrapThenMask(x: int, bits: nat)
    requires bits <= 64
    ensures U64(x) % Pow2(bits) == x % Pow2(bits)
  {
    Pow2ModMod(x, bits, 64);
  }

  /** The folded constant is the value the operation would have computed. */
  lemma {:induction false} FoldValueSound(op: Opcode, bits: nat, a: nat, b: nat)
    requires 1 <= bits <= 64 && a < Pow2(bits) && b < Pow2(bits)
    ensures FoldValue(op, bits, a, b).Some? && Arith(op, bits, a, b).Some? ==>
      FoldValue(op, bits, a, b).value == Arith(op, bits, a, b).value % Pow2(bits)
  {
    hide U64, Pow2, BitAnd, BitOr, BitXor, TruncDiv, TruncRem, SignExtendBits, ToSigned;
    SignExtendIsToSigned(a, bits);
    SignExtendIsToSigned(b, bits);
    if Arith(op, bits, a, b).Some? {
      WrapThenMask(Arith(op, bits, a, b).value, bits);
    }
  }

  lemma {:induction false} FoldCompareSound(p: Pred, bits: nat, a: nat, b: nat)
    requires 1 <= bits <= 64 && a < Pow2(bits) && b < Pow2(bits)
    ensures FoldCompare(p, bits, a, b) == Compare(p, bits, a, b)
  {
    SignExtendIsToSigned(a, bits);
    SignExtendIsToSigned(b, bits);
  }

  lemma {:induction false} ArithRightUnit(op: Opcode, bits: nat, x: nat)
    requires 1 <= bits <= 64 && x < Pow2(bits)
    ensures op in {Add, Sub, Or, Xor, Shl, LShr} ==> Arith(op, bits, x, 0) == Some(x)
    ensures op == AShr ==> Arith(op, bits, x, 0) == Some(ToSigned(x, bits))
    ensures op in {Mul, UDiv} ==> Arith(op, bits, x, 1) == Some(x)
    ensures op == And ==> Arith(op, bits, x, Pow2(bits) - 1) == Some(x)
  {
    if op == And {
      BitAndAllOnes(x, bits);
    } else {
      assert Pow2(0) == 1;
    }
  }

  lemma {:induction false} ArithLeftUnit(op: Opcode, bits: nat, x: nat)
    requires 1 <= bits <= 64 && x < Pow2(bits)
    ensures op in {Add, Or, Xor} ==> Arith(op, bits, 0, x) == Some(x)
    ensures op == Mul ==> Arith(op, bits, 1, x) == Some(x)
    ensures op == And ==> Arith(op, bits, Pow2(bits) - 1, x) == Some(x)
  {
    if op == And {
      BitAndAllOnes(x, bits);
    }
  }

  lemma {:induction false} DivByOne(bits: nat, x: nat)
    requires 1 <= bits <= 64 && x < Pow2(bits)
    ensures Arith(SDiv, bits, x, 1).Some? ==> Arith(SDiv, bits, x, 1).value % Pow2(bits) == x
  {
    ToSignedResidue(x, bits);
    var s := ToSigned(x, bits);
    if bits == 1 {
      assert Pow2(1) == 2 && Pow2(0) == 1;
      assert ToSigned(1, 1) == -1;
    } else {
      Pow2Monotone(1, bits - 1);
      assert ToSigned(1, bits) == 1;
      assert TruncDiv(s, 1) == s;
    }
  }

  lemma {:induction false} EvalAllCons(w: World, env: Env, os: seq<Operand>)
    requires os != [] && EvalAll(w, env, os).Some?
    ensures Eval(w, env, os[0]).Some? && EvalAll(w, env, os[1..]).Some?
    ensures EvalAll(w, env, os).value == [Eval(w, env, os[0]).value] + EvalAll(w, env, os[1..]).value
  {
  }

  lemma {:induction false} EvalAllTwo(w: World, env: Env, os: seq<Operand>)
    requires |os| == 2 && EvalAll(w, env, os).Some?
    ensures |EvalAll(w, env, os).value| == 2
    ensures forall k :: 0 <= k < 2 ==> Eval(w, env, os[k]) == Some(EvalAll(w, env, os).value[k])
  {
    EvalAllCons(w, env, os);
    EvalAllCons(w, env, os[1..]);
  }

  lemma {:induction false} EvalAllThree(w: World, env: Env, os: seq<Operand>)
    requires |os| == 3 && EvalAll(w, env, os).Some?
    ensures |EvalAll(w, env, os).value| == 3
    ensures forall k :: 0 <= k < 3 ==> Eval(w, env, os[k]) == Some(EvalAll(w, env, os).value[k])
  {
    EvalAllCons(w, env, os);
    EvalAllTwo(w, env, os[1..]);
  }

  lemma {:induction false} EvalFits(w: World, env: Env, os: seq<Operand>, k: nat)
    requires OperandsFit(env, os) && k < |os| && Eval(w, env, os[k]).Some?
    ensures Eval(w, env, os[k]).value == Fit(os[k].ty, Eval(w, env, os[k]).value)
  {
    var o := os[k];
    var v := Eval(w, env, o).value;
    if o.Vreg? {
    } else if o.Null? {
      SmallMod(0, Pow2(Width(o.ty)));
    } else if !o.ty.OtherType? {
      var raw := if o.ImmI64? then o.imm else w.constant(o);
      Pow2ModMod(raw, Width(o.ty), Width(o.ty));
    }
  }

  lemma {:induction false} FoldedImmediate(w: World, env: Env, t: Type, u: nat)
    requires IsScalar(t) && u < Pow2(Width(t))
    ensures Eval(w, env, ImmI64(SignExtendBits(u, Width(t)), t)) == Some(u)
    ensures FaithfulImm(ImmI64(SignExtendBits(u, Width(t)), t))
  {
    SignExtendIsToSigned(u, Width(t));
    ToSignedResidue(u, Width(t));
    Pow2Monotone(Width(t) - 1, Width(t));
  }

  lemma {:induction false} ImmediateResidue(o: Operand)
    requires o.ImmI64? && IsScalar(o.ty)
    ensures UnsignedBits(o.imm, Width(o.ty)) == Fit(o.ty, o.imm)
    ensures o.imm == 0 ==> Fit(o.ty, o.imm) == 0
    ensures o.imm == 1 ==> Fit(o.ty, o.imm) == 1
    ensures IsAllOnes(o, Width(o.ty)) ==> Fit(o.ty, o.imm) == Pow2(Width(o.ty)) - 1
  {
    UnsignedBitsIsFit(o.imm, Width(o.ty));
    Pow2Monotone(1, Width(o.ty));
    assert Pow2(1) == 2;
    if o.imm == 0 || o.imm == 1 {
      SmallMod(o.imm, Pow2(Width(o.ty)));
    }
  }

  lemma {:induction false} BinopFoldSound(w: World, env: Env, i: Inst, args: seq<int>)
    requires WellTyped(i) && IsBinop(i.op) && EvalAll(w, env, i.operands) == Some(args)
    requires FoldIntBinopImmediates(i).Some? && PureResult(w, i, args).Some?
    ensures Eval(w, env, FoldIntBinopImmediates(i).value) == Some(Fit(i.ty, PureResult(w, i, args).value))
    ensures FaithfulImm(FoldIntBinopImmediates(i).value)
  {
    EvalAllTwo(w, env, i.operands);
    ImmediateResidue(i.operands[0]);
    ImmediateResidue(i.operands[1]);
    FoldValueSound(i.op, Width(i.ty), args[0], args[1]);
    FoldedImmediate(w, env, i.ty, FoldValue(i.op, Width(i.ty), args[0], args[1]).value);
  }

  /** The constants that leave the other operand alone, on the right and on the left. */
  predicate RightUnit(op: Opcode, bits: nat, c: int) {
    match op
    case Add => c == 0
    case Sub => c == 0
    case Mul => c == 1
    case SDiv => c == 1
    case UDiv => c == 1
    case And => c == Pow2(bits) - 1
    case Or => c == 0
    case Xor => c == 0
    case Shl => c == 0
    case LShr => c == 0
    case AShr => c == 0
    case _ => false
  }

  predicate LeftUnit(op: Opcode, bits: nat, c: int) {
    op in {Add, Mul, And, Or, Xor} && RightUnit(op, bits, c)
  }

  lemma {:induction false} RightUnitSound(op: Opcode, bits: nat, x: nat, c: nat)
    requires 1 <= bits <= 64 && x < Pow2(bits) && RightUnit(op, bits, c)
    ensures Arith(op, bits, x, c).Some? ==> Arith(op, bits, x, c).value % Pow2(bits) == x
  {
    hide Arith, Pow2;
    SmallMod(x, Pow2(bits));
    if op == SDiv {
      DivByOne(bits, x);
    } else {
      ArithRightUnit(op, bits, x);
      ToSignedResidue(x, bits);
    }
  }

  lemma {:induction false} LeftUnitSound(op: Opcode, bits: nat, x: nat, c: nat)
    requires 1 <= bits <= 64 && x < Pow2(bits) && LeftUnit(op, bits, c)
    ensures Arith(op, bits, c, x).Some? ==> Arith(op, bits, c, x).value % Pow2(bits) == x
  {
    hide Arith, Pow2;
    SmallMod(x, Pow2(bits));
    ArithLeftUnit(op, bits, x);
  }

  lemma {:induction false} IdentityFoldShape(i: Inst)
    requires WellTyped(i) && IsBinop(i.op) && FoldIdentityIntBinop(i).Some?
    ensures var o := FoldIdentityIntBinop(i).value;
      || (o == i.operands[0] && i.operands[1].ImmI64? && RightUnit(i.op, Width(i.ty), Fit(i.ty, i.operands[1].imm)))
      || (o == i.operands[1] && i.operands[0].ImmI64? && LeftUnit(i.op, Width(i.ty), Fit(i.ty, i.operands[0].imm)))
  {
    if i.operands[0].ImmI64? {
      ImmediateResidue(i.operands[0]);
    }
    if i.operands[1].ImmI64? {
      ImmediateResidue(i.operands[1]);
    }
  }

  lemma {:induction false} IdentityFoldSound(w: World, env: Env, i: Inst, args: seq<int>)
    requires WellTyped(i) && IsBinop(i.op) && EvalAll(w, env, i.operands) == Some(args)
    requires OperandsFit(env, i.operands)
    requires FoldIdentityIntBinop(i).Some? && PureResult(w, i, args).Some?
    ensures Eval(w, env, FoldIdentityIntBinop(i).value) == Some(Fit(i.ty, PureResult(w, i, args).value))
  {
    EvalAllTwo(w, env, i.operands);
    EvalFits(w, env, i.operands, 0);
    EvalFits(w, env, i.operands, 1);
    IdentityFoldShape(i);
    var bits := Width(i.ty);
    if FoldIdentityIntBinop(i).value == i.operands[0] && i.operands[1].ImmI64?
       && RightUnit(i.op, bits, Fit(i.ty, i.operands[1].imm)) {
      RightUnitSound(i.op, bits, args[0], args[1]);
    } else {
      LeftUnitSound(i.op, bits, args[1], args[0]);
    }
  }

  lemma {:induction false} FlagFits()
    ensures Fit(I1, 0) == 0 && Fit(I1, 1) == 1
    ensures FaithfulImm(ImmI64(0, I1)) && FaithfulImm(ImmI64(1, I1))
  {
    assert Pow2(1) == 2 && Pow2(0) == 1;
  }

  lemma {:induction false} IcmpFoldSound(w: World, env: Env, i: Inst, args: seq<int>)
    requires WellTyped(i) && i.op.ICmp? && EvalAll(w, env, i.operands) == Some(args)
    requires FoldIcmpImmediates(i).Some? && PureResult(w, i, args).Some?
    ensures Eval(w, env, FoldIcmpImmediates(i).value) == Some(Fit(i.ty, PureResult(w, i, args).value))
    ensures FaithfulImm(FoldIcmpImmediates(i).value)
  {
    EvalAllTwo(w, env, i.operands);
    ImmediateResidue(i.operands[0]);
    ImmediateResidue(i.operands[1]);
    FoldCompareSound(i.op.pred, Width(i.operands[0].ty), args[0], args[1]);
    FlagFits();
  }

  /** An i1 immediate is read the same way by the optimiser and by the language exactly when
      it is zero or odd. */
  lemma {:induction false} ConditionResidue(o: Operand)
    requires o.ImmI64? && o.ty == I1
    ensures FaithfulImm(o) <==> ((o.imm != 0) <==> (Fit(I1, o.imm) != 0))
  {
    assert Pow2(1) == 2 && Pow2(0) == 1;
  }

  lemma {:induction false} SelectFoldSound(w: World, env: Env, i: Inst, args: seq<int>)
    requires WellTyped(i) && i.op.Select? && EvalAll(w, env, i.operands) == Some(args)
    requires OperandsFit(env, i.operands)
    requires FoldSelect(i).Some? && PureResult(w, i, args).Some?
    ensures Eval(w, env, FoldSelect(i).value) == Some(Fit(i.ty, PureResult(w, i, args).value))
  {
    EvalAllThree(w, env, i.operands);
    EvalFits(w, env, i.operands, 1);
    EvalFits(w, env, i.operands, 2);
    if i.operands[0].ImmI64? {
      ConditionResidue(i.operands[0]);
    }
  }

  /** Main result on folding: in every environment in which the instruction is defined, the
      operand returned has the value that the instruction would have written. */
  lemma {:induction false} ReplacementSound(w: World, env: Env, i: Inst, args: seq<int>)
    requires WellTyped(i) && OperandsFit(env, i.operands)
    requires EvalAll(w, env, i.operands) == Some(args)
    requires TryReplacement(i).Some? && PureResult(w, i, args).Some?
    ensures Eval(w, env, TryReplacement(i).value) == Some(Fit(ResultType(i), PureResult(w, i, args).value))
  {
    if FoldSelect(i).Some? {
      SelectFoldSound(w, env, i, args);
    } else if FoldIcmpImmediates(i).Some? {
      IcmpFoldSound(w, env, i, args);
    } else if FoldIntBinopImmediates(i).Some? {
      BinopFoldSound(w, env, i, args);
    } else {
      IdentityFoldSound(w, env, i, args);
    }
  }

  lemma {:induction false} FoldedBinopShape(i: Inst)
    requires WellTyped(i) && IsBinop(i.op) && FoldIntBinopImmediates(i).Some?
    ensures FoldIntBinopImmediates(i).value.ImmI64? && HasType(FoldIntBinopImmediates(i).value, i.ty)
    ensures FaithfulImm(FoldIntBinopImmediates(i).value)
  {
    var bits := Width(i.ty);
    var a := UnsignedBits(i.operands[0].imm, bits);
    var b := UnsignedBits(i.operands[1].imm, bits);
    var u := FoldValue(i.op, bits, a, b).value;
    SignExtendIsToSigned(u, bits);
    ToSignedResidue(u, bits);
    assert Pow2(bits) == 2 * Pow2(bits - 1);
  }

  /** An identity applies to two immediates only where they fold, which comes first. */
  lemma {:induction false} IdentityOfImmediates(i: Inst)
    requires WellTyped(i) && IsBinop(i.op) && FoldIdentityIntBinop(i).Some?
    requires i.operands[0].ImmI64? && i.operands[1].ImmI64?
    ensures FoldIntBinopImmediates(i).Some?
  {
    var bits := Width(i.ty);
    ImmediateResidue(i.operands[0]);
    ImmediateResidue(i.operands[1]);
    IdentityFoldShape(i);
    UnitsFold(i.op, bits, Fit(i.ty, i.operands[0].imm), Fit(i.ty, i.operands[1].imm));
  }

  lemma {:induction false} UnitsFold(op: Opcode, bits: nat, a: nat, b: nat)
    requires 1 <= bits <= 64 && a < Pow2(bits) && b < Pow2(bits) && (RightUnit(op, bits, b) || LeftUnit(op, bits, a))
    ensures FoldValue(op, bits, a, b).Some?
  {
    if op == SDiv {
      SignExtendIsToSigned(1, bits);
      assert Pow2(1) == 2 && Pow2(0) == 1;
    }
  }

  lemma {:induction false} OnlyBinopsFold(i: Inst)
    ensures FoldIntBinopImmediates(i).Some? || FoldIdentityIntBinop(i).Some? ==> IsBinop(i.op)
  {
  }

  /** What is substituted is an operand of the instruction or a faithful immediate, and it
      has the type of the register it replaces. */
  lemma {:induction false} ReplacementShape(i: Inst)
    requires WellTyped(i) && TryReplacement(i).Some?
    ensures i.op.Select? || i.op.ICmp? || IsBinop(i.op)
    ensures HasType(TryReplacement(i).value, ResultType(i)) && !i.ty.Void?
    ensures TryReplacement(i).value in i.operands || TryReplacement(i).value.ImmI64?
    ensures FaithfulImm(TryReplacement(i).value)
  {
    OnlyBinopsFold(i);
    hide FoldValue, FoldCompare, Pow2;
    if FoldSelect(i).Some? {
    } else if FoldIcmpImmediates(i).Some? {
      FlagFits();
    } else if FoldIntBinopImmediates(i).Some? {
      FoldedBinopShape(i);
    } else {
      IdentityFoldShape(i);
      if i.operands[0].ImmI64? && i.operands[1].ImmI64? {
        IdentityOfImmediates(i);
      }
    }
  }
}
