/**
 The intermediate representation on which the optimiser works, and an interpreter for it.

 A type stands for the source's type object: two operands have the same type when they
 point at the same object.  Scalars are natural numbers below 2^width.
 */
module Ir {
  import opened Wrappers
  import opened Numbers

  /** OtherType covers floating point and aggregates: identity plus size in bytes. */
  datatype Type = Void | I1 | I8 | I16 | I32 | I64 | Ptr | OtherType(id: nat, bytes: nat)

  datatype Pred = EQ | NE | SGT | SGE | SLT | SLE | UGT | UGE | ULT | ULE

  /** Pure stands for every opcode the optimiser treats generically: floating point, casts,
      aggregate access.  Its code identifies opcode, indices and flags. */
  datatype Opcode =
    | Ret | RetVoid | Br | CondBr | Unreachable
    | Add | Sub | Mul | SDiv | SRem | UDiv | URem
    | And | Or | Xor | Shl | LShr | AShr
    | ICmp(pred: Pred)
    | Alloca | Load | Store | Gep(indices: nat) | Call | Phi | Select
    | Pure(code: nat)

  datatype Operand =
    | Vreg(vreg: nat, ty: Type)
    | ImmI64(imm: int, ty: Type)
    | ImmF64(bits: nat, ty: Type)
    | BlockRef(block: nat)
    | Global(global: nat, offset: int, ty: Type)
    | Null(ty: Type)
    | Undef(ty: Type)

  datatype Inst = Inst(op: Opcode, ty: Type, dest: nat, operands: seq<Operand>)

  type Block = seq<Inst>

  datatype Func = Func(params: map<nat, Type>, blocks: seq<Block>, nextVreg: nat)

  // ---------------------------------------------------------------------------
  // Widths

  /** int_type_width_bits: the width of an integer type, 64 when the size is no use. */
  function Width(t: Type): (w: nat)
    ensures 1 <= w <= 64
  {
    match t
    case I1 => 1
    case I8 => 8
    case I16 => 16
    case I32 => 32
    case I64 => 64
    case Ptr => 64
    case Void => 64
    case OtherType(_, bytes) => if bytes == 0 || bytes * 8 > 64 then 64 else bytes * 8
  }

  function SizeInBytes(t: Type): nat {
    match t
    case Void => 0
    case I1 => 1
    case I8 => 1
    case I16 => 2
    case I32 => 4
    case I64 => 8
    case Ptr => 8
    case OtherType(_, bytes) => bytes
  }

  predicate IsScalar(t: Type) {
    t.I1? || t.I8? || t.I16? || t.I32? || t.I64? || t.Ptr?
  }

  /** The value of a bit pattern when it is kept in a register of type t. */
  function Fit(t: Type, n: int): (r: int)
    ensures IsScalar(t) ==> 0 <= r < Pow2(Width(t))
  {
    if t.OtherType? then n else n % Pow2(Width(t))
  }

  /** Two's complement reading of a residue. */
  function ToSigned(u: int, w: nat): int
    requires w > 0
  {
    if u < Pow2(w - 1) then u else u - Pow2(w)
  }

  // ---------------------------------------------------------------------------
  // Arithmetic of the language

  /** C's division: the quotient is rounded toward zero. */
  function TruncDiv(a: int, b: int): int
    requires b != 0
  {
    if a >= 0 then (if b > 0 then a / b else -(a / -b))
    else (if b > 0 then -(-a / b) else -a / -b)
  }

  function TruncRem(a: int, b: int): int
    requires b != 0
  {
    a - TruncDiv(a, b) * b
  }

  /** The value of an integer operation on residues below 2^w; None where the language
      leaves the operation undefined. */
  function Arith(op: Opcode, w: nat, a: nat, b: nat): Option<int>
    requires w > 0
  {
    match op
    case Add => Some(a + b)
    case Sub => Some(a - b)
    case Mul => Some(a * b)
    case And => Some(BitAnd(a, b))
    case Or => Some(BitOr(a, b))
    case Xor => Some(BitXor(a, b))
    case Shl => if b >= w then None else Some(a * Pow2(b))
    case LShr => if b >= w then None else Some(a / Pow2(b))
    case AShr => if b >= w then None else Some(ToSigned(a, w) / Pow2(b))
    case UDiv => if b == 0 then None else Some(a / b)
    case URem => if b == 0 then None else Some(a % b)
    case SDiv =>
      var (x, y) := (ToSigned(a, w), ToSigned(b, w));
      if y == 0 || (x + Pow2(w - 1) == 0 && y == -1) then None else Some(TruncDiv(x, y))
    case SRem =>
      var (x, y) := (ToSigned(a, w), ToSigned(b, w));
      if y == 0 || (x + Pow2(w - 1) == 0 && y == -1) then None else Some(TruncRem(x, y))
    case _ => None
  }

  function Compare(p: Pred, w: nat, a: nat, b: nat): bool
    requires w > 0
  {
    var (x, y) := (ToSigned(a, w), ToSigned(b, w));
    match p
    case EQ => a == b
    case NE => a != b
    case SGT => x > y
    case SGE => x >= y
    case SLT => x < y
    case SLE => x <= y
    case UGT => a > b
    case UGE => a >= b
    case ULT => a < b
    case ULE => a <= b
  }

  predicate IsBinop(op: Opcode) {
    op in {Add, Sub, Mul, SDiv, SRem, UDiv, URem, And, Or, Xor, Shl, LShr, AShr}
  }

  predicate IsTerminator(op: Opcode) {
    op in {Ret, RetVoid, Br, CondBr, Unreachable}
  }

  // ---------------------------------------------------------------------------
  // Machine states

  type Env = map<nat, int>

  /** Bytes that hold a value, and the first address not yet handed out.  Address 0 is null. */
  datatype Mem = Mem(top: nat, bytes: map<nat, nat>)

  datatype Event =
    | Stored(ty: Type, addr: int, value: int)
    | Called(ty: Type, args: seq<int>, result: int)

  /** What lies outside the function: link-time constants, the operations the optimiser does
      not look into, and the functions it calls, which may answer by all that happened before. */
  datatype World = World(
    constant: Operand -> int,
    pure: (Opcode, Type, seq<int>) -> Option<int>,
    call: (Type, seq<int>, Mem, seq<Event>) -> Option<(int, Mem)>)

  /** before is the environment in which the current block was entered: all phis of a block
      read their operands there. */
  datatype State = State(block: nat, index: nat, prev: Option<nat>,
                         env: Env, before: Env, mem: Mem, trace: seq<Event>)

  datatype Outcome =
    | Running(state: State)
    | Returned(value: Option<int>, mem: Mem, trace: seq<Event>)
    | Stuck

  // ---------------------------------------------------------------------------
  // Memory

  function LoadBytes(m: Mem, addr: int, n: nat): Option<int>
    decreases n
  {
    if n == 0 then Some(0)
    else if addr <= 0 || addr !in m.bytes then None
    else
      match LoadBytes(m, addr + 1, n - 1)
      case None => None
      case Some(rest) => Some(m.bytes[addr] + 256 * rest)
  }

  function StoreBytes(bytes: map<nat, nat>, addr: nat, n: nat, value: int): map<nat, nat>
    decreases n
  {
    if n == 0 then bytes
    else StoreBytes(bytes[addr := value % 256], addr + 1, n - 1, value / 256)
  }

  function LoadValue(m: Mem, t: Type, addr: int): Option<int> {
    match LoadBytes(m, addr, SizeInBytes(t))
    case None => None
    case Some(v) => Some(Fit(t, v))
  }

  function StoreValue(m: Mem, t: Type, addr: int, value: int): Option<Mem> {
    if addr <= 0 || addr + SizeInBytes(t) > m.top then None
    else Some(m.(bytes := StoreBytes(m.bytes, addr, SizeInBytes(t), value)))
  }

  // ---------------------------------------------------------------------------
  // One step

  /** Bytes reserved on the stack: at least one element of at least one byte. */
  function AllocaSize(t: Type, args: seq<int>): nat {
    (if SizeInBytes(t) < 1 then 1 else SizeInBytes(t)) * (if args != [] && args[0] > 1 then args[0] else 1)
  }

  function Eval(w: World, env: Env, o: Operand): Option<int> {
    match o
    case Vreg(v, _) => if v in env then Some(env[v]) else None
    case ImmI64(i, t) => Some(Fit(t, i))
    case Null(_) => Some(0)
    case BlockRef(_) => None
    case _ => Some(Fit(o.ty, w.constant(o)))
  }

  function EvalAll(w: World, env: Env, os: seq<Operand>): Option<seq<int>> {
    if os == [] then Some([])
    else
      match (Eval(w, env, os[0]), EvalAll(w, env, os[1..]))
      case (Some(v), Some(vs)) => Some([v] + vs)
      case _ => None
  }

  /** The operand a phi takes when control came from block prev. */
  function PhiOperand(os: seq<Operand>, prev: nat): Option<Operand> {
    if |os| < 2 then None
    else if os[1] == BlockRef(prev) then Some(os[0])
    else PhiOperand(os[2..], prev)
  }

  /** The type of the register an instruction defines.  Address computations carry the
      element type and define a pointer. */
  function ResultType(i: Inst): Type {
    if i.op.Alloca? || i.op.Gep? then Ptr else i.ty
  }

  /** The result of an instruction that neither branches nor touches memory. */
  function PureResult(w: World, i: Inst, args: seq<int>): Option<int> {
    if IsBinop(i.op) then
      if |args| == 2 && args[0] >= 0 && args[1] >= 0
      then Arith(i.op, Width(i.ty), args[0], args[1]) else None
    else
      match i.op
      case ICmp(p) =>
        if |args| == 2 && |i.operands| == 2 && !i.operands[0].BlockRef? && args[0] >= 0 && args[1] >= 0
        then Some(if Compare(p, Width(i.operands[0].ty), args[0], args[1]) then 1 else 0) else None
      case Select => if |args| == 3 then Some(if args[0] != 0 then args[1] else args[2]) else None
      case Pure(_) => w.pure(i.op, i.ty, args)
      case Gep(_) => w.pure(i.op, i.ty, args)
      case _ => None
  }

  function Define(s: State, i: Inst, v: int): Outcome {
    Running(s.(index := s.index + 1, env := s.env[i.dest := Fit(ResultType(i), v)]))
  }

  function Goto(f: Func, s: State, o: Operand): Outcome {
    if o.BlockRef? && o.block < |f.blocks|
    then Running(State(o.block, 0, Some(s.block), s.env, s.env, s.mem, s.trace))
    else Stuck
  }

  function StepPhi(w: World, s: State, i: Inst): Outcome {
    if s.prev.None? then Stuck
    else
      match PhiOperand(i.operands, s.prev.value)
      case None => Stuck
      case Some(o) =>
        match Eval(w, s.before, o)
        case None => Stuck
        case Some(v) => Define(s, i, v)
  }

  function StepArgs(w: World, s: State, i: Inst, args: seq<int>): Outcome {
    match i.op
    case Ret => if |args| == 1 then Returned(Some(args[0]), s.mem, s.trace) else Stuck
    case RetVoid => Returned(None, s.mem, s.trace)
    case Load =>
      if |args| != 1 then Stuck
      else
        (match LoadValue(s.mem, i.ty, args[0])
         case None => Stuck
         case Some(v) => Define(s, i, v))
    case Store =>
      if |args| != 2 || i.operands == [] || i.operands[0].BlockRef? then Stuck
      else
        var t := i.operands[0].ty;
        (match StoreValue(s.mem, t, args[1], args[0])
         case None => Stuck
         case Some(m) => Running(s.(index := s.index + 1, mem := m,
                                    trace := s.trace + [Stored(t, args[1], args[0])])))
    case Call =>
      (match w.call(i.ty, args, s.mem, s.trace)
       case None => Stuck
       case Some((v, m)) =>
         var s' := s.(mem := m, trace := s.trace + [Called(i.ty, args, v)]);
         if i.ty.Void? then Running(s'.(index := s.index + 1)) else Define(s', i, v))
    case Alloca =>
      var top := s.mem.top;
      Define(s.(mem := s.mem.(top := top + AllocaSize(i.ty, args))), i, top)
    case _ =>
      match PureResult(w, i, args)
      case None => Stuck
      case Some(v) => Define(s, i, v)
  }

  function StepInst(w: World, f: Func, s: State, i: Inst): Outcome {
    match i.op
    case Br => if |i.operands| >= 1 then Goto(f, s, i.operands[0]) else Stuck
    case CondBr =>
      if |i.operands| < 3 then Stuck
      else
        (match Eval(w, s.env, i.operands[0])
         case None => Stuck
         case Some(c) => Goto(f, s, i.operands[if c != 0 then 1 else 2]))
    case Unreachable => Stuck
    case Phi => StepPhi(w, s, i)
    case _ =>
      match EvalAll(w, s.env, i.operands)
      case None => Stuck
      case Some(args) => StepArgs(w, s, i, args)
  }

  predicate InRange(f: Func, b: nat, i: nat) {
    b < |f.blocks| && i < |f.blocks[b]|
  }

  function Step(w: World, f: Func, s: State): Outcome {
    if InRange(f, s.block, s.index) then StepInst(w, f, s, f.blocks[s.block][s.index]) else Stuck
  }

  /** The outcome after n steps; a finished run stays finished. */
  function Run(w: World, f: Func, init: State, n: nat): Outcome {
    if n == 0 then Running(init)
    else
      match Run(w, f, init, n - 1)
      case Running(s) => Step(w, f, s)
      case done => done
  }
}
