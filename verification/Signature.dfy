/**
 The signatures under which compiled code is cached: functions and modules serialised to
 bytes.  On what is written the serialisation is injective; what is left out, and what is
 written of addresses, is the subject of SignatureShape.
 */
module Signature {
  import opened Numbers
  import opened ByteOrder

  type Text = seq<Byte>

  const U32: int := 0x1_0000_0000
  const U64: int := 0x1_0000_0000_0000_0000
  const I64: int := 0x8000_0000_0000_0000

  /** Basic: a type that is only its kind. */
  datatype SigType =
    | Absent
    | Basic(kind: nat)
    | Pointer(elem: SigType)
    | Array(elem: SigType, count: nat)
    | Vector(elem: SigType, count: nat)
    | Struct(fields: seq<SigType>, packed: bool, name: Text)
    | Func(ret: SigType, params: seq<SigType>, vararg: bool)

  datatype Payload =
    | Vreg(id: nat)
    | ImmI64(value: int)
    | ImmF64(bits: nat)
    | Block(id: nat)
    | Global(id: nat, name: Text)
    | Null
    | Undef

  datatype Operand = Operand(payload: Payload, ty: SigType, offset: int)

  /** word is what icmp_pred, fcmp_pred and indices share: a predicate, or the address of the
      indices; indices are the values there. */
  datatype Inst = Inst(op: nat, ty: SigType, dest: nat, align: nat, externalAbi: bool, vararg: bool, fixedArgs: nat,
                       word: nat, operands: seq<Operand>, indices: seq<nat>)

  datatype BasicBlock = BasicBlock(id: nat, name: Text, insts: seq<Inst>)

  datatype Function = Function(name: Text, isDecl: bool, vararg: bool, nextVreg: nat, ret: SigType, ty: SigType,
                               params: seq<(SigType, nat)>, blocks: seq<BasicBlock>,
                               usesLlvmAbi: bool, symbolId: nat, numBlocks: nat)

  datatype Reloc = Reloc(offset: nat, addend: int, symbol: Text)

  datatype GlobalVar = GlobalVar(name: Text, ty: SigType, isConst: bool, isExternal: bool, id: nat, data: Text,
                                 relocs: seq<Reloc>, isLocal: bool, isWeak: bool)

  datatype Module = Module(symbols: seq<(nat, Text)>, funcs: seq<Function>, globals: seq<GlobalVar>)

  // ---------------------------------------------------------------------------
  // What the source's field widths allow, and what is not serialised set to a fixed value

  predicate TextOk(s: Text) {
    |s| < U32
  }

  /** Vectors and pointers without their parts. */
  predicate TypeOk(t: SigType) {
    match t
    case Absent => true
    case Basic(kind) => kind <= 9
    case Pointer(elem) => elem.Absent?
    case Array(elem, count) => count < U64 && TypeOk(elem)
    case Vector(elem, count) => elem.Absent? && count == 0
    case Struct(fields, _, name) =>
      |fields| < U32 && TextOk(name) && forall i :: 0 <= i < |fields| ==> TypeOk(fields[i])
    case Func(ret, params, _) => |params| < U32 && TypeOk(ret) && forall i :: 0 <= i < |params| ==> TypeOk(params[i])
  }

  predicate OperandOk(o: Operand) {
    && TypeOk(o.ty) && -I64 <= o.offset < I64
    && match o.payload
       case Vreg(id) => id < U32
       case ImmI64(v) => -I64 <= v < I64
       case ImmF64(bits) => bits < U64
       case Block(id) => id < U32
       case Global(id, name) => id < U32 && TextOk(name)
       case Null => true
       case Undef => true
  }

  predicate InstOk(x: Inst) {
    && x.op < 256 && TypeOk(x.ty) && x.dest < U32 && x.align < U32 && x.fixedArgs < U32 && x.word < U32
    && |x.operands| < U32 && |x.indices| < U32
    && (forall i :: 0 <= i < |x.operands| ==> OperandOk(x.operands[i]))
    && (forall i :: 0 <= i < |x.indices| ==> x.indices[i] < U32)
  }

  predicate BlockOk(b: BasicBlock) {
    b.id < U32 && TextOk(b.name) && |b.insts| < U32 && forall i :: 0 <= i < |b.insts| ==> InstOk(b.insts[i])
  }

  predicate FunctionOk(f: Function) {
    && TextOk(f.name) && f.nextVreg < U32 && TypeOk(f.ret) && TypeOk(f.ty) && |f.params| < U32 && |f.blocks| < U32
    && !f.usesLlvmAbi && f.symbolId == 0 && f.numBlocks == 0
    && (forall i :: 0 <= i < |f.params| ==> TypeOk(f.params[i].0) && f.params[i].1 < U32)
    && (forall i :: 0 <= i < |f.blocks| ==> BlockOk(f.blocks[i]))
  }

  predicate RelocOk(r: Reloc) {
    r.offset < U64 && -I64 <= r.addend < I64 && TextOk(r.symbol)
  }

  predicate GlobalOk(g: GlobalVar) {
    && TextOk(g.name) && TypeOk(g.ty) && g.id < U32 && |g.data| < U64 && |g.relocs| < U32
    && !g.isLocal && !g.isWeak
    && forall i :: 0 <= i < |g.relocs| ==> RelocOk(g.relocs[i])
  }

  predicate ModuleOk(m: Module) {
    && |m.symbols| < U32 && |m.funcs| < U32 && |m.globals| < U32
    && (forall i :: 0 <= i < |m.symbols| ==> m.symbols[i].0 < U32 && TextOk(m.symbols[i].1))
    && (forall i :: 0 <= i < |m.funcs| ==> FunctionOk(m.funcs[i]))
    && (forall i :: 0 <= i < |m.globals| ==> GlobalOk(m.globals[i]))
  }

  // ---------------------------------------------------------------------------
  // Serialising

  function Flag(b: bool): (r: Text)
    ensures |r| == 1
  {
    if b then [1] else [0]
  }

  function SignedBytes(v: int): (r: Text)
    ensures |r| == 8
  {
    Bytes(v % U64, 8)
  }

  /** sig_buf_str */
  function TextBytes(s: Text): Text {
    Bytes(|s|, 4) + s
  }

  function Kind(t: SigType): Byte {
    match t
    case Absent => 255
    case Basic(kind) => kind % 256
    case Pointer(_) => 10
    case Array(_, _) => 11
    case Vector(_, _) => 12
    case Struct(_, _, _) => 13
    case Func(_, _, _) => 14
  }

  /** sig_serialize_type: of a vector or pointer nothing but the kind. */
  function TypeBytes(t: SigType): Text {
    [Kind(t)] + TypeBody(t)
  }

  function TypeBody(t: SigType): Text
    decreases t, 0
  {
    match t
    case Array(elem, count) => Bytes(count, 8) + ([Kind(elem)] + TypeBody(elem))
    case Struct(fields, packed, name) =>
      Flag(packed) + (TextBytes(name) + (Bytes(|fields|, 4) + TypesBytes(t, fields)))
    case Func(ret, params, vararg) =>
      ([Kind(ret)] + TypeBody(ret)) + (Bytes(|params|, 4) + (Flag(vararg) + TypesBytes(t, params)))
    case _ => []
  }

  function TypesBytes(ghost whole: SigType, ts: seq<SigType>): Text
    requires forall k :: 0 <= k < |ts| ==> ts[k] < whole
    decreases whole, 0, |ts|
  {
    if ts == [] then [] else ([Kind(ts[0])] + TypeBody(ts[0])) + TypesBytes(whole, ts[1..])
  }

  function PayloadKind(p: Payload): Byte {
    match p
    case Vreg(_) => 0
    case ImmI64(_) => 1
    case ImmF64(_) => 2
    case Block(_) => 3
    case Global(_, _) => 4
    case Null => 5
    case Undef => 6
  }

  function PayloadBytes(p: Payload): Text {
    match p
    case Vreg(id) => Bytes(id, 4)
    case ImmI64(v) => SignedBytes(v)
    case ImmF64(bits) => Bytes(bits, 8)
    case Block(id) => Bytes(id, 4)
    case Global(id, name) => Bytes(id, 4) + TextBytes(name)
    case Null => []
    case Undef => []
  }

  /** sig_serialize_operand */
  function OperandBytes(o: Operand): Text {
    [PayloadKind(o.payload)] + (TypeBytes(o.ty) + (SignedBytes(o.offset) + PayloadBytes(o.payload)))
  }

  function OperandsBytes(os: seq<Operand>): Text {
    if os == [] then [] else OperandBytes(os[0]) + OperandsBytes(os[1..])
  }

  function NumbersBytes(ns: seq<nat>): Text {
    if ns == [] then [] else Bytes(ns[0], 4) + NumbersBytes(ns[1..])
  }

  function Low(x: Inst): nat {
    x.word % U32
  }

  /** The shared word is read as either predicate, so its low half is written twice. */
  function InstHeader(x: Inst): (r: Text)
    ensures |r| == 30
  {
    Bytes(x.dest, 4) + (Bytes(|x.operands|, 4) + (Bytes(|x.indices|, 4) + (Bytes(x.align, 4)
    + (Flag(x.externalAbi) + (Flag(x.vararg) + (Bytes(x.fixedArgs, 4) + (Bytes(Low(x), 4) + Bytes(Low(x), 4))))))))
  }

  /** sig_serialize_inst */
  function InstBytes(x: Inst): Text {
    [x.op % 256] + (TypeBytes(x.ty) + (InstHeader(x) + (OperandsBytes(x.operands) + NumbersBytes(x.indices))))
  }

  function InstsBytes(xs: seq<Inst>): Text {
    if xs == [] then [] else InstBytes(xs[0]) + InstsBytes(xs[1..])
  }

  /** sig_serialize_block */
  function BlockBytes(b: BasicBlock): Text {
    Bytes(b.id, 4) + (TextBytes(b.name) + (Bytes(|b.insts|, 4) + InstsBytes(b.insts)))
  }

  function BlocksBytes(bs: seq<BasicBlock>): Text {
    if bs == [] then [] else BlockBytes(bs[0]) + BlocksBytes(bs[1..])
  }

  function ParamTypes(ps: seq<(SigType, nat)>): Text {
    if ps == [] then [] else TypeBytes(ps[0].0) + ParamTypes(ps[1..])
  }

  function ParamVregs(ps: seq<(SigType, nat)>): Text {
    if ps == [] then [] else Bytes(ps[0].1, 4) + ParamVregs(ps[1..])
  }

  /** sig_serialize_function */
  function FunctionBytes(f: Function): Text {
    TextBytes(f.name) + (Flag(f.isDecl) + (Flag(f.vararg) + (Bytes(|f.params|, 4) + (Bytes(f.nextVreg, 4)
    + (TypeBytes(f.ret) + (TypeBytes(f.ty) + (ParamTypes(f.params) + (ParamVregs(f.params)
    + (Bytes(|f.blocks|, 4) + BlocksBytes(f.blocks))))))))))
  }

  function FunctionsBytes(fs: seq<Function>): Text {
    if fs == [] then [] else FunctionBytes(fs[0]) + FunctionsBytes(fs[1..])
  }

  function RelocBytes(r: Reloc): Text {
    Bytes(r.offset, 8) + (SignedBytes(r.addend) + TextBytes(r.symbol))
  }

  function RelocsBytes(rs: seq<Reloc>): Text {
    if rs == [] then [] else RelocBytes(rs[0]) + RelocsBytes(rs[1..])
  }

  /** sig_serialize_global */
  function GlobalBytes(g: GlobalVar): Text {
    TextBytes(g.name) + (TypeBytes(g.ty) + (Flag(g.isConst) + (Flag(g.isExternal) + (Bytes(g.id, 4)
    + (Bytes(|g.data|, 8) + (g.data + (Bytes(|g.relocs|, 4) + RelocsBytes(g.relocs))))))))
  }

  function GlobalsBytes(gs: seq<GlobalVar>): Text {
    if gs == [] then [] else GlobalBytes(gs[0]) + GlobalsBytes(gs[1..])
  }

  function SymbolsBytes(ss: seq<(nat, Text)>): Text {
    if ss == [] then [] else (Bytes(ss[0].0, 4) + TextBytes(ss[0].1)) + SymbolsBytes(ss[1..])
  }

  /** sig_serialize_module */
  function ModuleBytes(m: Module): Text {
    Bytes(|m.symbols|, 4) + (SymbolsBytes(m.symbols) + (Bytes(|m.funcs|, 4) + (FunctionsBytes(m.funcs)
    + (Bytes(|m.globals|, 4) + GlobalsBytes(m.globals)))))
  }

  // ---------------------------------------------------------------------------
  // Reading off one field after the other

  /** Fields of the same length. */
  lemma {:induction false} Same(a: Text, b: Text, x: Text, y: Text)
    requires |a| == |b| && a + x == b + y
    ensures a == b && x == y
  {
    assert a == (a + x)[..|a|] && b == (b + y)[..|a|];
    assert x == (a + x)[|a|..] && y == (b + y)[|a|..];
  }

  lemma {:induction false} Nest(a: Text, b: Text, x: Text)
    ensures (a + b) + x == a + (b + x)
  {
  }

  lemma {:induction false} SameFlag(a: bool, b: bool, x: Text, y: Text)
    requires Flag(a) + x == Flag(b) + y
    ensures a == b && x == y
  {
    Same(Flag(a), Flag(b), x, y);
    assert Flag(a)[0] == if a then 1 else 0;
    assert Flag(b)[0] == if b then 1 else 0;
  }

  lemma {:induction false} Widths()
    ensures Pow2(8 * 4) == U32 && Pow2(8 * 8) == U64
  {
    Pow2Values();
  }

  lemma {:induction false} SameU32(a: nat, b: nat, x: Text, y: Text)
    requires a < U32 && b < U32 && Bytes(a, 4) + x == Bytes(b, 4) + y
    ensures a == b && x == y
  {
    hide Bytes, Pow2;
    Same(Bytes(a, 4), Bytes(b, 4), x, y);
    Widths();
    BytesInjective(a, b, 4);
  }

  lemma {:induction false} SameU64(a: nat, b: nat, x: Text, y: Text)
    requires a < U64 && b < U64 && Bytes(a, 8) + x == Bytes(b, 8) + y
    ensures a == b && x == y
  {
    hide Bytes, Pow2;
    Same(Bytes(a, 8), Bytes(b, 8), x, y);
    Widths();
    BytesInjective(a, b, 8);
  }

  lemma {:induction false} SameI64(a: int, b: int, x: Text, y: Text)
    requires -I64 <= a < I64 && -I64 <= b < I64 && SignedBytes(a) + x == SignedBytes(b) + y
    ensures a == b && x == y
  {
    hide Bytes;
    SmallMod(a, U64);
    SmallMod(b, U64);
    SameU64(a % U64, b % U64, x, y);
  }

  lemma {:induction false} SameText(a: Text, b: Text, x: Text, y: Text)
    requires TextOk(a) && TextOk(b) && TextBytes(a) + x == TextBytes(b) + y
    ensures a == b && x == y
  {
    hide Bytes;
    Nest(Bytes(|a|, 4), a, x);
    Nest(Bytes(|b|, 4), b, y);
    SameU32(|a|, |b|, a + x, b + y);
    Same(a, b, x, y);
  }

  lemma {:induction false} SameByte(a: Byte, b: Byte, x: Text, y: Text)
    requires [a] + x == [b] + y
    ensures a == b && x == y
  {
    Same([a], [b], x, y);
    assert [a][0] == [b][0];
  }

  // ---------------------------------------------------------------------------
  // Types

  lemma {:induction false} SameType(a: SigType, b: SigType, x: Text, y: Text)
    requires TypeOk(a) && TypeOk(b) && TypeBytes(a) + x == TypeBytes(b) + y
    ensures a == b && x == y
    decreases a, 2
  {
    hide Bytes, TypesBytes, TextBytes;
    Nest([Kind(a)], TypeBody(a), x);
    Nest([Kind(b)], TypeBody(b), y);
    SameByte(Kind(a), Kind(b), TypeBody(a) + x, TypeBody(b) + y);
    if a.Array? {
      SameArray(a, b, x, y);
    } else if a.Struct? {
      SameStruct(a, b, x, y);
    } else if a.Func? {
      SameFunc(a, b, x, y);
    } else {
      assert [] + x == x && [] + y == y;
    }
  }

  lemma {:induction false} SameArray(a: SigType, b: SigType, x: Text, y: Text)
    requires a.Array? && b.Array? && TypeOk(a) && TypeOk(b) && TypeBody(a) + x == TypeBody(b) + y
    ensures a == b && x == y
    decreases a, 1
  {
    hide Bytes, TypeBody;
    ArrayBody(a);
    ArrayBody(b);
    Nest(Bytes(a.count, 8), TypeBytes(a.elem), x);
    Nest(Bytes(b.count, 8), TypeBytes(b.elem), y);
    SameU64(a.count, b.count, TypeBytes(a.elem) + x, TypeBytes(b.elem) + y);
    SameType(a.elem, b.elem, x, y);
  }

  lemma {:induction false} ArrayBody(a: SigType)
    requires a.Array?
    ensures TypeBody(a) == Bytes(a.count, 8) + TypeBytes(a.elem)
  {
  }

  lemma {:induction false} SameStruct(a: SigType, b: SigType, x: Text, y: Text)
    requires a.Struct? && b.Struct? && TypeOk(a) && TypeOk(b) && TypeBody(a) + x == TypeBody(b) + y
    ensures a == b && x == y
    decreases a, 1
  {
    hide Bytes, TextBytes, TypesBytes, Flag;
    var fa, fb := TypesBytes(a, a.fields), TypesBytes(b, b.fields);
    var na, nb := Bytes(|a.fields|, 4), Bytes(|b.fields|, 4);
    Nest(Flag(a.packed), TextBytes(a.name) + (na + fa), x);
    Nest(Flag(b.packed), TextBytes(b.name) + (nb + fb), y);
    SameFlag(a.packed, b.packed, (TextBytes(a.name) + (na + fa)) + x, (TextBytes(b.name) + (nb + fb)) + y);
    Nest(TextBytes(a.name), na + fa, x);
    Nest(TextBytes(b.name), nb + fb, y);
    SameText(a.name, b.name, (na + fa) + x, (nb + fb) + y);
    Nest(na, fa, x);
    Nest(nb, fb, y);
    SameU32(|a.fields|, |b.fields|, fa + x, fb + y);
    SameTypes(a, a.fields, b, b.fields, x, y);
  }

  lemma {:induction false} SameFunc(a: SigType, b: SigType, x: Text, y: Text)
    requires a.Func? && b.Func? && TypeOk(a) && TypeOk(b) && TypeBody(a) + x == TypeBody(b) + y
    ensures a == b && x == y
    decreases a, 1
  {
    hide Bytes, TypesBytes, Flag, TypeBody;
    FuncBody(a);
    FuncBody(b);
    var fa, fb := TypesBytes(a, a.params), TypesBytes(b, b.params);
    var na, nb := Bytes(|a.params|, 4), Bytes(|b.params|, 4);
    var va, vb := Flag(a.vararg), Flag(b.vararg);
    Nest(TypeBytes(a.ret), na + (va + fa), x);
    Nest(TypeBytes(b.ret), nb + (vb + fb), y);
    SameType(a.ret, b.ret, (na + (va + fa)) + x, (nb + (vb + fb)) + y);
    Nest(na, va + fa, x);
    Nest(nb, vb + fb, y);
    SameU32(|a.params|, |b.params|, (va + fa) + x, (vb + fb) + y);
    Nest(va, fa, x);
    Nest(vb, fb, y);
    SameFlag(a.vararg, b.vararg, fa + x, fb + y);
    SameTypes(a, a.params, b, b.params, x, y);
  }

  lemma {:induction false} FuncBody(a: SigType)
    requires a.Func?
    ensures TypeBody(a)
      == TypeBytes(a.ret) + (Bytes(|a.params|, 4) + (Flag(a.vararg) + TypesBytes(a, a.params)))
  {
  }

  lemma {:induction false} SameTypes(wa: SigType, a: seq<SigType>, wb: SigType, b: seq<SigType>, x: Text, y: Text)
    requires |a| == |b| && (forall k :: 0 <= k < |a| ==> a[k] < wa && TypeOk(a[k]))
    requires forall k :: 0 <= k < |b| ==> b[k] < wb && TypeOk(b[k])
    requires TypesBytes(wa, a) + x == TypesBytes(wb, b) + y
    ensures a == b && x == y
    decreases wa, 0, |a|
  {
    hide TypeBody, Kind;
    if a == [] {
      assert [] + x == x && [] + y == y;
    } else {
      Nest(TypeBytes(a[0]), TypesBytes(wa, a[1..]), x);
      Nest(TypeBytes(b[0]), TypesBytes(wb, b[1..]), y);
      SameType(a[0], b[0], TypesBytes(wa, a[1..]) + x, TypesBytes(wb, b[1..]) + y);
      SameTypes(wa, a[1..], wb, b[1..], x, y);
      assert a == [a[0]] + a[1..] && b == [b[0]] + b[1..];
    }
  }

  /** Vectors of any shape have the same signature. */
  lemma {:induction false} VectorsCollide(s: SigType, m: nat, t: SigType, n: nat)
    ensures TypeBytes(Vector(s, m)) == TypeBytes(Vector(t, n))
  {
  }

  // ---------------------------------------------------------------------------
  // Instructions

  lemma {:induction false} SamePayload(a: Payload, b: Payload, x: Text, y: Text)
    requires PayloadKind(a) == PayloadKind(b) && OperandOk(Operand(a, Absent, 0)) && OperandOk(Operand(b, Absent, 0))
    requires PayloadBytes(a) + x == PayloadBytes(b) + y
    ensures a == b && x == y
  {
    hide Bytes, TextBytes, SignedBytes;
    match a
    case Vreg(id) => SameU32(id, b.id, x, y);
    case ImmI64(v) => SameI64(v, b.value, x, y);
    case ImmF64(bits) => SameU64(bits, b.bits, x, y);
    case Block(id) => SameU32(id, b.id, x, y);
    case Global(id, name) =>
      Nest(Bytes(id, 4), TextBytes(name), x);
      Nest(Bytes(b.id, 4), TextBytes(b.name), y);
      SameU32(id, b.id, TextBytes(name) + x, TextBytes(b.name) + y);
      SameText(name, b.name, x, y);
    case Null => assert [] + x == x && [] + y == y;
    case Undef => assert [] + x == x && [] + y == y;
  }

  lemma {:induction false} SameOperand(a: Operand, b: Operand, x: Text, y: Text)
    requires OperandOk(a) && OperandOk(b) && OperandBytes(a) + x == OperandBytes(b) + y
    ensures a == b && x == y
  {
    hide TypeBytes, SignedBytes, PayloadBytes, PayloadKind;
    var pa, pb := PayloadBytes(a.payload), PayloadBytes(b.payload);
    var oa, ob := SignedBytes(a.offset), SignedBytes(b.offset);
    var ta, tb := TypeBytes(a.ty), TypeBytes(b.ty);
    Nest([PayloadKind(a.payload)], ta + (oa + pa), x);
    Nest([PayloadKind(b.payload)], tb + (ob + pb), y);
    SameByte(PayloadKind(a.payload), PayloadKind(b.payload), (ta + (oa + pa)) + x, (tb + (ob + pb)) + y);
    Nest(ta, oa + pa, x);
    Nest(tb, ob + pb, y);
    SameType(a.ty, b.ty, (oa + pa) + x, (ob + pb) + y);
    Nest(oa, pa, x);
    Nest(ob, pb, y);
    SameI64(a.offset, b.offset, pa + x, pb + y);
    SamePayload(a.payload, b.payload, x, y);
  }

  lemma {:induction false} SameOperands(a: seq<Operand>, b: seq<Operand>, x: Text, y: Text)
    requires |a| == |b| && forall k :: 0 <= k < |a| ==> OperandOk(a[k])
    requires forall k :: 0 <= k < |b| ==> OperandOk(b[k])
    requires OperandsBytes(a) + x == OperandsBytes(b) + y
    ensures a == b && x == y
  {
    hide OperandBytes, OperandOk;
    if a == [] {
      assert [] + x == x && [] + y == y;
    } else {
      Nest(OperandBytes(a[0]), OperandsBytes(a[1..]), x);
      Nest(OperandBytes(b[0]), OperandsBytes(b[1..]), y);
      SameOperand(a[0], b[0], OperandsBytes(a[1..]) + x, OperandsBytes(b[1..]) + y);
      SameOperands(a[1..], b[1..], x, y);
      assert a == [a[0]] + a[1..] && b == [b[0]] + b[1..];
    }
  }

  lemma {:induction false} SameNumbers(a: seq<nat>, b: seq<nat>, x: Text, y: Text)
    requires |a| == |b| && (forall k :: 0 <= k < |a| ==> a[k] < U32) && forall k :: 0 <= k < |b| ==> b[k] < U32
    requires NumbersBytes(a) + x == NumbersBytes(b) + y
    ensures a == b && x == y
  {
    hide Bytes;
    if a == [] {
      assert [] + x == x && [] + y == y;
    } else {
      Nest(Bytes(a[0], 4), NumbersBytes(a[1..]), x);
      Nest(Bytes(b[0], 4), NumbersBytes(b[1..]), y);
      SameU32(a[0], b[0], NumbersBytes(a[1..]) + x, NumbersBytes(b[1..]) + y);
      SameNumbers(a[1..], b[1..], x, y);
      assert a == [a[0]] + a[1..] && b == [b[0]] + b[1..];
    }
  }

  lemma {:induction false} SameHeader(a: Inst, b: Inst)
    requires InstOk(a) && InstOk(b) && InstHeader(a) == InstHeader(b)
    ensures a.dest == b.dest && |a.operands| == |b.operands| && |a.indices| == |b.indices| && a.align == b.align
    ensures a.externalAbi == b.externalAbi && a.vararg == b.vararg
    ensures a.fixedArgs == b.fixedArgs && a.word == b.word
  {
    hide Bytes, Flag, TypeOk, OperandOk;
    var a7, b7 := Bytes(Low(a), 4) + Bytes(Low(a), 4), Bytes(Low(b), 4) + Bytes(Low(b), 4);
    var a6, b6 := Bytes(a.fixedArgs, 4) + a7, Bytes(b.fixedArgs, 4) + b7;
    var a5, b5 := Flag(a.vararg) + a6, Flag(b.vararg) + b6;
    var a4, b4 := Flag(a.externalAbi) + a5, Flag(b.externalAbi) + b5;
    var a3, b3 := Bytes(a.align, 4) + a4, Bytes(b.align, 4) + b4;
    var a2, b2 := Bytes(|a.indices|, 4) + a3, Bytes(|b.indices|, 4) + b3;
    var a1, b1 := Bytes(|a.operands|, 4) + a2, Bytes(|b.operands|, 4) + b2;
    SameU32(a.dest, b.dest, a1, b1);
    SameU32(|a.operands|, |b.operands|, a2, b2);
    SameU32(|a.indices|, |b.indices|, a3, b3);
    SameU32(a.align, b.align, a4, b4);
    SameFlag(a.externalAbi, b.externalAbi, a5, b5);
    SameFlag(a.vararg, b.vararg, a6, b6);
    SameU32(a.fixedArgs, b.fixedArgs, a7, b7);
    SmallMod(a.word, U32);
    SmallMod(b.word, U32);
    SameU32(Low(a), Low(b), Bytes(Low(a), 4), Bytes(Low(b), 4));
  }

  lemma {:induction false} SameInst(a: Inst, b: Inst, x: Text, y: Text)
    requires InstOk(a) && InstOk(b) && InstBytes(a) + x == InstBytes(b) + y
    ensures a == b && x == y
  {
    hide TypeBytes, InstHeader, OperandsBytes, NumbersBytes, TypeOk, OperandOk;
    var na, nb := NumbersBytes(a.indices), NumbersBytes(b.indices);
    var oa, ob := OperandsBytes(a.operands), OperandsBytes(b.operands);
    var ha, hb := InstHeader(a), InstHeader(b);
    var ta, tb := TypeBytes(a.ty), TypeBytes(b.ty);
    SmallMod(a.op, 256);
    SmallMod(b.op, 256);
    Nest([a.op % 256], ta + (ha + (oa + na)), x);
    Nest([b.op % 256], tb + (hb + (ob + nb)), y);
    SameByte(a.op % 256, b.op % 256, (ta + (ha + (oa + na))) + x, (tb + (hb + (ob + nb))) + y);
    Nest(ta, ha + (oa + na), x);
    Nest(tb, hb + (ob + nb), y);
    SameType(a.ty, b.ty, (ha + (oa + na)) + x, (hb + (ob + nb)) + y);
    Nest(ha, oa + na, x);
    Nest(hb, ob + nb, y);
    Same(ha, hb, (oa + na) + x, (ob + nb) + y);
    SameHeader(a, b);
    Nest(oa, na, x);
    Nest(ob, nb, y);
    SameOperands(a.operands, b.operands, na + x, nb + y);
    SameNumbers(a.indices, b.indices, x, y);
  }

  lemma {:induction false} SameInsts(a: seq<Inst>, b: seq<Inst>, x: Text, y: Text)
    requires |a| == |b| && (forall k :: 0 <= k < |a| ==> InstOk(a[k])) && forall k :: 0 <= k < |b| ==> InstOk(b[k])
    requires InstsBytes(a) + x == InstsBytes(b) + y
    ensures a == b && x == y
  {
    hide InstBytes, InstOk;
    if a == [] {
      assert [] + x == x && [] + y == y;
    } else {
      Nest(InstBytes(a[0]), InstsBytes(a[1..]), x);
      Nest(InstBytes(b[0]), InstsBytes(b[1..]), y);
      SameInst(a[0], b[0], InstsBytes(a[1..]) + x, InstsBytes(b[1..]) + y);
      SameInsts(a[1..], b[1..], x, y);
      assert a == [a[0]] + a[1..] && b == [b[0]] + b[1..];
    }
  }

  // ---------------------------------------------------------------------------
  // Functions

  lemma {:induction false} SameBlock(a: BasicBlock, b: BasicBlock, x: Text, y: Text)
    requires BlockOk(a) && BlockOk(b) && BlockBytes(a) + x == BlockBytes(b) + y
    ensures a == b && x == y
  {
    hide Bytes, TextBytes, InstsBytes, InstOk;
    var ia, ib := InstsBytes(a.insts), InstsBytes(b.insts);
    var na, nb := Bytes(|a.insts|, 4), Bytes(|b.insts|, 4);
    var ta, tb := TextBytes(a.name), TextBytes(b.name);
    Nest(Bytes(a.id, 4), ta + (na + ia), x);
    Nest(Bytes(b.id, 4), tb + (nb + ib), y);
    SameU32(a.id, b.id, (ta + (na + ia)) + x, (tb + (nb + ib)) + y);
    Nest(ta, na + ia, x);
    Nest(tb, nb + ib, y);
    SameText(a.name, b.name, (na + ia) + x, (nb + ib) + y);
    Nest(na, ia, x);
    Nest(nb, ib, y);
    SameU32(|a.insts|, |b.insts|, ia + x, ib + y);
    SameInsts(a.insts, b.insts, x, y);
  }

  lemma {:induction false} SameBlocks(a: seq<BasicBlock>, b: seq<BasicBlock>, x: Text, y: Text)
    requires |a| == |b| && (forall k :: 0 <= k < |a| ==> BlockOk(a[k])) && forall k :: 0 <= k < |b| ==> BlockOk(b[k])
    requires BlocksBytes(a) + x == BlocksBytes(b) + y
    ensures a == b && x == y
  {
    hide BlockBytes, BlockOk;
    if a == [] {
      assert [] + x == x && [] + y == y;
    } else {
      Nest(BlockBytes(a[0]), BlocksBytes(a[1..]), x);
      Nest(BlockBytes(b[0]), BlocksBytes(b[1..]), y);
      SameBlock(a[0], b[0], BlocksBytes(a[1..]) + x, BlocksBytes(b[1..]) + y);
      SameBlocks(a[1..], b[1..], x, y);
      assert a == [a[0]] + a[1..] && b == [b[0]] + b[1..];
    }
  }

  lemma {:induction false} SameParams(a: seq<(SigType, nat)>, b: seq<(SigType, nat)>, x: Text, y: Text)
    requires |a| == |b| && (forall k :: 0 <= k < |a| ==> TypeOk(a[k].0)) && forall k :: 0 <= k < |b| ==> TypeOk(b[k].0)
    requires ParamTypes(a) + x == ParamTypes(b) + y
    ensures x == y && forall k :: 0 <= k < |a| ==> a[k].0 == b[k].0
  {
    hide TypeBytes, TypeOk;
    if a == [] {
      assert [] + x == x && [] + y == y;
    } else {
      Nest(TypeBytes(a[0].0), ParamTypes(a[1..]), x);
      Nest(TypeBytes(b[0].0), ParamTypes(b[1..]), y);
      SameType(a[0].0, b[0].0, ParamTypes(a[1..]) + x, ParamTypes(b[1..]) + y);
      SameParams(a[1..], b[1..], x, y);
      assert forall k :: 1 <= k < |a| ==> a[k] == a[1..][k - 1] && b[k] == b[1..][k - 1];
    }
  }

  lemma {:induction false} SameVregs(a: seq<(SigType, nat)>, b: seq<(SigType, nat)>, x: Text, y: Text)
    requires |a| == |b| && (forall k :: 0 <= k < |a| ==> a[k].1 < U32) && forall k :: 0 <= k < |b| ==> b[k].1 < U32
    requires ParamVregs(a) + x == ParamVregs(b) + y
    ensures x == y && forall k :: 0 <= k < |a| ==> a[k].1 == b[k].1
  {
    hide Bytes;
    if a == [] {
      assert [] + x == x && [] + y == y;
    } else {
      Nest(Bytes(a[0].1, 4), ParamVregs(a[1..]), x);
      Nest(Bytes(b[0].1, 4), ParamVregs(b[1..]), y);
      SameU32(a[0].1, b[0].1, ParamVregs(a[1..]) + x, ParamVregs(b[1..]) + y);
      SameVregs(a[1..], b[1..], x, y);
      assert forall k :: 1 <= k < |a| ==> a[k] == a[1..][k - 1] && b[k] == b[1..][k - 1];
    }
  }

  function FunctionTail(f: Function): Text {
    ParamTypes(f.params) + (ParamVregs(f.params) + (Bytes(|f.blocks|, 4) + BlocksBytes(f.blocks)))
  }

  lemma {:induction false} SameTail(a: Function, b: Function, x: Text, y: Text)
    requires FunctionOk(a) && FunctionOk(b) && |a.params| == |b.params| && FunctionTail(a) + x == FunctionTail(b) + y
    ensures a.params == b.params && a.blocks == b.blocks && x == y
  {
    hide Bytes, ParamTypes, ParamVregs, BlocksBytes, BlockOk, TypeOk;
    var ba, bb := BlocksBytes(a.blocks), BlocksBytes(b.blocks);
    var na, nb := Bytes(|a.blocks|, 4), Bytes(|b.blocks|, 4);
    var va, vb := ParamVregs(a.params), ParamVregs(b.params);
    Nest(ParamTypes(a.params), va + (na + ba), x);
    Nest(ParamTypes(b.params), vb + (nb + bb), y);
    SameParams(a.params, b.params, (va + (na + ba)) + x, (vb + (nb + bb)) + y);
    Nest(va, na + ba, x);
    Nest(vb, nb + bb, y);
    SameVregs(a.params, b.params, (na + ba) + x, (nb + bb) + y);
    Nest(na, ba, x);
    Nest(nb, bb, y);
    SameU32(|a.blocks|, |b.blocks|, ba + x, bb + y);
    SameBlocks(a.blocks, b.blocks, x, y);
  }

  /** The signature of a function, wherever it ends, determines the function. */
  lemma {:induction false} SameFunction(a: Function, b: Function, x: Text, y: Text)
    requires FunctionOk(a) && FunctionOk(b) && FunctionBytes(a) + x == FunctionBytes(b) + y
    ensures a == b && x == y
  {
    hide Bytes, Flag, TextBytes, TypeBytes, FunctionTail, ParamTypes, ParamVregs, BlocksBytes, TypeOk, BlockOk;
    TailIs(a);
    TailIs(b);
    var a6, b6 := TypeBytes(a.ty) + FunctionTail(a), TypeBytes(b.ty) + FunctionTail(b);
    var a5, b5 := TypeBytes(a.ret) + a6, TypeBytes(b.ret) + b6;
    var a4, b4 := Bytes(a.nextVreg, 4) + a5, Bytes(b.nextVreg, 4) + b5;
    var a3, b3 := Bytes(|a.params|, 4) + a4, Bytes(|b.params|, 4) + b4;
    var a2, b2 := Flag(a.vararg) + a3, Flag(b.vararg) + b3;
    var a1, b1 := Flag(a.isDecl) + a2, Flag(b.isDecl) + b2;
    Nest(TextBytes(a.name), a1, x);
    Nest(TextBytes(b.name), b1, y);
    SameText(a.name, b.name, a1 + x, b1 + y);
    Nest(Flag(a.isDecl), a2, x);
    Nest(Flag(b.isDecl), b2, y);
    SameFlag(a.isDecl, b.isDecl, a2 + x, b2 + y);
    Nest(Flag(a.vararg), a3, x);
    Nest(Flag(b.vararg), b3, y);
    SameFlag(a.vararg, b.vararg, a3 + x, b3 + y);
    Nest(Bytes(|a.params|, 4), a4, x);
    Nest(Bytes(|b.params|, 4), b4, y);
    SameU32(|a.params|, |b.params|, a4 + x, b4 + y);
    Nest(Bytes(a.nextVreg, 4), a5, x);
    Nest(Bytes(b.nextVreg, 4), b5, y);
    SameU32(a.nextVreg, b.nextVreg, a5 + x, b5 + y);
    Nest(TypeBytes(a.ret), a6, x);
    Nest(TypeBytes(b.ret), b6, y);
    SameType(a.ret, b.ret, a6 + x, b6 + y);
    Nest(TypeBytes(a.ty), FunctionTail(a), x);
    Nest(TypeBytes(b.ty), FunctionTail(b), y);
    SameType(a.ty, b.ty, FunctionTail(a) + x, FunctionTail(b) + y);
    SameTail(a, b, x, y);
  }

  lemma {:induction false} TailIs(f: Function)
    ensures FunctionTail(f)
      == ParamTypes(f.params) + (ParamVregs(f.params) + (Bytes(|f.blocks|, 4) + BlocksBytes(f.blocks)))
  {
  }

  lemma {:induction false} SameFunctions(a: seq<Function>, b: seq<Function>, x: Text, y: Text)
    requires |a| == |b| && forall k :: 0 <= k < |a| ==> FunctionOk(a[k])
    requires forall k :: 0 <= k < |b| ==> FunctionOk(b[k])
    requires FunctionsBytes(a) + x == FunctionsBytes(b) + y
    ensures a == b && x == y
  {
    hide FunctionBytes, FunctionOk;
    if a == [] {
      assert [] + x == x && [] + y == y;
    } else {
      Nest(FunctionBytes(a[0]), FunctionsBytes(a[1..]), x);
      Nest(FunctionBytes(b[0]), FunctionsBytes(b[1..]), y);
      SameFunction(a[0], b[0], FunctionsBytes(a[1..]) + x, FunctionsBytes(b[1..]) + y);
      SameFunctions(a[1..], b[1..], x, y);
      assert a == [a[0]] + a[1..] && b == [b[0]] + b[1..];
    }
  }

  // ---------------------------------------------------------------------------
  // Modules

  lemma {:induction false} SameRelocs(a: seq<Reloc>, b: seq<Reloc>, x: Text, y: Text)
    requires |a| == |b| && (forall k :: 0 <= k < |a| ==> RelocOk(a[k])) && forall k :: 0 <= k < |b| ==> RelocOk(b[k])
    requires RelocsBytes(a) + x == RelocsBytes(b) + y
    ensures a == b && x == y
  {
    hide RelocBytes, RelocOk;
    if a == [] {
      assert [] + x == x && [] + y == y;
    } else {
      Nest(RelocBytes(a[0]), RelocsBytes(a[1..]), x);
      Nest(RelocBytes(b[0]), RelocsBytes(b[1..]), y);
      SameReloc(a[0], b[0], RelocsBytes(a[1..]) + x, RelocsBytes(b[1..]) + y);
      SameRelocs(a[1..], b[1..], x, y);
      assert a == [a[0]] + a[1..] && b == [b[0]] + b[1..];
    }
  }

  lemma {:induction false} SameReloc(a: Reloc, b: Reloc, x: Text, y: Text)
    requires RelocOk(a) && RelocOk(b) && RelocBytes(a) + x == RelocBytes(b) + y
    ensures a == b && x == y
  {
    hide Bytes, SignedBytes, TextBytes;
    Nest(Bytes(a.offset, 8), SignedBytes(a.addend) + TextBytes(a.symbol), x);
    Nest(Bytes(b.offset, 8), SignedBytes(b.addend) + TextBytes(b.symbol), y);
    SameU64(a.offset, b.offset, (SignedBytes(a.addend) + TextBytes(a.symbol)) + x,
            (SignedBytes(b.addend) + TextBytes(b.symbol)) + y);
    Nest(SignedBytes(a.addend), TextBytes(a.symbol), x);
    Nest(SignedBytes(b.addend), TextBytes(b.symbol), y);
    SameI64(a.addend, b.addend, TextBytes(a.symbol) + x, TextBytes(b.symbol) + y);
    SameText(a.symbol, b.symbol, x, y);
  }

  lemma {:induction false} SameGlobal(a: GlobalVar, b: GlobalVar, x: Text, y: Text)
    requires GlobalOk(a) && GlobalOk(b) && GlobalBytes(a) + x == GlobalBytes(b) + y
    ensures a == b && x == y
  {
    hide Bytes, Flag, TextBytes, TypeBytes, RelocsBytes, TypeOk, RelocOk;
    var a7, b7 := Bytes(|a.relocs|, 4) + RelocsBytes(a.relocs), Bytes(|b.relocs|, 4) + RelocsBytes(b.relocs);
    var a6, b6 := a.data + a7, b.data + b7;
    var a5, b5 := Bytes(|a.data|, 8) + a6, Bytes(|b.data|, 8) + b6;
    var a4, b4 := Bytes(a.id, 4) + a5, Bytes(b.id, 4) + b5;
    var a3, b3 := Flag(a.isExternal) + a4, Flag(b.isExternal) + b4;
    var a2, b2 := Flag(a.isConst) + a3, Flag(b.isConst) + b3;
    var a1, b1 := TypeBytes(a.ty) + a2, TypeBytes(b.ty) + b2;
    Nest(TextBytes(a.name), a1, x);
    Nest(TextBytes(b.name), b1, y);
    SameText(a.name, b.name, a1 + x, b1 + y);
    Nest(TypeBytes(a.ty), a2, x);
    Nest(TypeBytes(b.ty), b2, y);
    SameType(a.ty, b.ty, a2 + x, b2 + y);
    Nest(Flag(a.isConst), a3, x);
    Nest(Flag(b.isConst), b3, y);
    SameFlag(a.isConst, b.isConst, a3 + x, b3 + y);
    Nest(Flag(a.isExternal), a4, x);
    Nest(Flag(b.isExternal), b4, y);
    SameFlag(a.isExternal, b.isExternal, a4 + x, b4 + y);
    Nest(Bytes(a.id, 4), a5, x);
    Nest(Bytes(b.id, 4), b5, y);
    SameU32(a.id, b.id, a5 + x, b5 + y);
    Nest(Bytes(|a.data|, 8), a6, x);
    Nest(Bytes(|b.data|, 8), b6, y);
    SameU64(|a.data|, |b.data|, a6 + x, b6 + y);
    Nest(a.data, a7, x);
    Nest(b.data, b7, y);
    Same(a.data, b.data, a7 + x, b7 + y);
    Nest(Bytes(|a.relocs|, 4), RelocsBytes(a.relocs), x);
    Nest(Bytes(|b.relocs|, 4), RelocsBytes(b.relocs), y);
    SameU32(|a.relocs|, |b.relocs|, RelocsBytes(a.relocs) + x, RelocsBytes(b.relocs) + y);
    SameRelocs(a.relocs, b.relocs, x, y);
  }

  lemma {:induction false} SameGlobals(a: seq<GlobalVar>, b: seq<GlobalVar>, x: Text, y: Text)
    requires |a| == |b| && (forall k :: 0 <= k < |a| ==> GlobalOk(a[k])) && forall k :: 0 <= k < |b| ==> GlobalOk(b[k])
    requires GlobalsBytes(a) + x == GlobalsBytes(b) + y
    ensures a == b && x == y
  {
    hide GlobalBytes, GlobalOk;
    if a == [] {
      assert [] + x == x && [] + y == y;
    } else {
      Nest(GlobalBytes(a[0]), GlobalsBytes(a[1..]), x);
      Nest(GlobalBytes(b[0]), GlobalsBytes(b[1..]), y);
      SameGlobal(a[0], b[0], GlobalsBytes(a[1..]) + x, GlobalsBytes(b[1..]) + y);
      SameGlobals(a[1..], b[1..], x, y);
      assert a == [a[0]] + a[1..] && b == [b[0]] + b[1..];
    }
  }

  lemma {:induction false} SameSymbols(a: seq<(nat, Text)>, b: seq<(nat, Text)>, x: Text, y: Text)
    requires |a| == |b| && (forall k :: 0 <= k < |a| ==> a[k].0 < U32 && TextOk(a[k].1))
    requires forall k :: 0 <= k < |b| ==> b[k].0 < U32 && TextOk(b[k].1)
    requires SymbolsBytes(a) + x == SymbolsBytes(b) + y
    ensures a == b && x == y
  {
    hide Bytes, TextBytes;
    if a == [] {
      assert [] + x == x && [] + y == y;
    } else {
      var ra, rb := SymbolsBytes(a[1..]) + x, SymbolsBytes(b[1..]) + y;
      Nest(Bytes(a[0].0, 4) + TextBytes(a[0].1), SymbolsBytes(a[1..]), x);
      Nest(Bytes(b[0].0, 4) + TextBytes(b[0].1), SymbolsBytes(b[1..]), y);
      Nest(Bytes(a[0].0, 4), TextBytes(a[0].1), ra);
      Nest(Bytes(b[0].0, 4), TextBytes(b[0].1), rb);
      SameU32(a[0].0, b[0].0, TextBytes(a[0].1) + ra, TextBytes(b[0].1) + rb);
      SameText(a[0].1, b[0].1, ra, rb);
      SameSymbols(a[1..], b[1..], x, y);
      assert a == [a[0]] + a[1..] && b == [b[0]] + b[1..];
    }
  }

  /** Where nothing is left out, modules and functions with equal signatures are equal. */
  lemma {:induction false} ModuleSignatureInjective(a: Module, b: Module)
    requires ModuleOk(a) && ModuleOk(b) && ModuleBytes(a) == ModuleBytes(b)
    ensures a == b
  {
    hide Bytes, SymbolsBytes, FunctionsBytes, GlobalsBytes, FunctionOk, GlobalOk;
    var a4, b4 := Bytes(|a.globals|, 4) + GlobalsBytes(a.globals), Bytes(|b.globals|, 4) + GlobalsBytes(b.globals);
    var a3, b3 := FunctionsBytes(a.funcs) + a4, FunctionsBytes(b.funcs) + b4;
    var a2, b2 := Bytes(|a.funcs|, 4) + a3, Bytes(|b.funcs|, 4) + b3;
    var a1, b1 := SymbolsBytes(a.symbols) + a2, SymbolsBytes(b.symbols) + b2;
    SameU32(|a.symbols|, |b.symbols|, a1, b1);
    SameSymbols(a.symbols, b.symbols, a2, b2);
    SameU32(|a.funcs|, |b.funcs|, a3, b3);
    SameFunctions(a.funcs, b.funcs, a4, b4);
    SameU32(|a.globals|, |b.globals|, GlobalsBytes(a.globals), GlobalsBytes(b.globals));
    assert GlobalsBytes(a.globals) + [] == GlobalsBytes(b.globals) + [];
    SameGlobals(a.globals, b.globals, [], []);
  }

  lemma {:induction false} FunctionSignatureInjective(a: Function, b: Function)
    requires FunctionOk(a) && FunctionOk(b) && FunctionBytes(a) == FunctionBytes(b)
    ensures a == b
  {
    assert FunctionBytes(a) + [] == FunctionBytes(b) + [];
    SameFunction(a, b, [], []);
  }
}
