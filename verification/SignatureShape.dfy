/**
 What signatures tell apart.  Not written are the shape of vectors, what pointers point to, the
 calling convention, symbol id and block count of a function, and whether a global is local or
 weak.  Written, but not part of the program, is the low half of the address at which an
 instruction keeps its indices.
 */
module SignatureShape {
  import opened Numbers
  import opened ByteOrder
  import opened Signature

  // ---------------------------------------------------------------------------
  // Forgetting what is not written; addresses are kept or not

  function EraseType(t: SigType): SigType
    decreases t, 0
  {
    match t
    case Pointer(_) => Pointer(Absent)
    case Array(elem, count) => Array(EraseType(elem), count)
    case Vector(_, _) => Vector(Absent, 0)
    case Struct(fields, packed, name) => Struct(EraseTypes(t, fields), packed, name)
    case Func(ret, params, vararg) => Func(EraseType(ret), EraseTypes(t, params), vararg)
    case _ => t
  }

  function EraseTypes(ghost whole: SigType, ts: seq<SigType>): (r: seq<SigType>)
    requires forall k :: 0 <= k < |ts| ==> ts[k] < whole
    ensures |r| == |ts|
    decreases whole, 0, |ts|
  {
    if ts == [] then [] else [EraseType(ts[0])] + EraseTypes(whole, ts[1..])
  }

  function EraseOperands(os: seq<Operand>): (r: seq<Operand>)
    ensures |r| == |os|
  {
    if os == [] then [] else [os[0].(ty := EraseType(os[0].ty))] + EraseOperands(os[1..])
  }

  function EraseInst(x: Inst, addresses: bool): Inst {
    x.(ty := EraseType(x.ty), operands := EraseOperands(x.operands),
       word := if addresses || x.indices == [] then Low(x) else 0)
  }

  function EraseInsts(xs: seq<Inst>, addresses: bool): (r: seq<Inst>)
    ensures |r| == |xs|
  {
    if xs == [] then [] else [EraseInst(xs[0], addresses)] + EraseInsts(xs[1..], addresses)
  }

  function EraseBlock(b: BasicBlock, addresses: bool): BasicBlock {
    b.(insts := EraseInsts(b.insts, addresses))
  }

  function EraseBlocks(bs: seq<BasicBlock>, addresses: bool): (r: seq<BasicBlock>)
    ensures |r| == |bs|
  {
    if bs == [] then [] else [EraseBlock(bs[0], addresses)] + EraseBlocks(bs[1..], addresses)
  }

  function EraseParams(ps: seq<(SigType, nat)>): (r: seq<(SigType, nat)>)
    ensures |r| == |ps|
  {
    if ps == [] then [] else [(EraseType(ps[0].0), ps[0].1)] + EraseParams(ps[1..])
  }

  function EraseFunction(f: Function, addresses: bool): Function {
    f.(ret := EraseType(f.ret), ty := EraseType(f.ty), params := EraseParams(f.params),
       blocks := EraseBlocks(f.blocks, addresses), usesLlvmAbi := false, symbolId := 0, numBlocks := 0)
  }

  function EraseFunctions(fs: seq<Function>, addresses: bool): (r: seq<Function>)
    ensures |r| == |fs|
  {
    if fs == [] then [] else [EraseFunction(fs[0], addresses)] + EraseFunctions(fs[1..], addresses)
  }

  function EraseGlobals(gs: seq<GlobalVar>): (r: seq<GlobalVar>)
    ensures |r| == |gs|
  {
    if gs == [] then []
    else [gs[0].(ty := EraseType(gs[0].ty), isLocal := false, isWeak := false)] + EraseGlobals(gs[1..])
  }

  function EraseModule(m: Module, addresses: bool): Module {
    m.(funcs := EraseFunctions(m.funcs, addresses), globals := EraseGlobals(m.globals))
  }

  /** The low halves of the index addresses, instruction by instruction. */
  function InstsAddresses(xs: seq<Inst>): (r: seq<nat>)
    ensures |r| == |xs|
  {
    if xs == [] then [] else [if xs[0].indices == [] then 0 else Low(xs[0])] + InstsAddresses(xs[1..])
  }

  function BlocksAddresses(bs: seq<BasicBlock>): (r: seq<seq<nat>>)
    ensures |r| == |bs|
  {
    if bs == [] then [] else [InstsAddresses(bs[0].insts)] + BlocksAddresses(bs[1..])
  }

  function Addresses(f: Function): seq<seq<nat>> {
    BlocksAddresses(f.blocks)
  }

  function FunctionsAddresses(fs: seq<Function>): (r: seq<seq<seq<nat>>>)
    ensures |r| == |fs|
  {
    if fs == [] then [] else [Addresses(fs[0])] + FunctionsAddresses(fs[1..])
  }

  /** What of a function, or of a module, the signature records of the program itself. */
  function VisibleFunction(f: Function): Function {
    EraseFunction(f, false)
  }

  function VisibleModule(m: Module): Module {
    EraseModule(m, false)
  }

  /** The numbers in what is serialised have the widths of the source. */
  predicate FunctionFits(f: Function) {
    FunctionOk(EraseFunction(f, true))
  }

  predicate ModuleFits(m: Module) {
    ModuleOk(EraseModule(m, true))
  }

  // ---------------------------------------------------------------------------
  // The signature does not see what is forgotten

  lemma {:induction false} TypeErased(t: SigType)
    ensures TypeBytes(EraseType(t)) == TypeBytes(t)
    decreases t, 1
  {
    hide Bytes, TextBytes, Flag;
    match t
    case Array(elem, count) => TypeErased(elem);
    case Struct(fields, packed, name) => TypesErased(t, fields, EraseType(t));
    case Func(ret, params, vararg) =>
      TypeErased(ret);
      TypesErased(t, params, EraseType(t));
    case _ =>
  }

  lemma {:induction false} TypesErased(whole: SigType, ts: seq<SigType>, other: SigType)
    requires forall k :: 0 <= k < |ts| ==> ts[k] < whole
    requires forall k :: 0 <= k < |ts| ==> EraseTypes(whole, ts)[k] < other
    ensures TypesBytes(other, EraseTypes(whole, ts)) == TypesBytes(whole, ts)
    decreases whole, 0, |ts|
  {
    hide TypeBody, Kind, EraseType;
    if ts != [] {
      var es := EraseTypes(whole, ts);
      assert es[1..] == EraseTypes(whole, ts[1..]) && es[0] == EraseType(ts[0]);
      TypeErased(ts[0]);
      assert TypeBytes(es[0]) == TypeBytes(ts[0]);
      assert forall k :: 0 <= k < |ts| - 1 ==> es[1..][k] == es[k + 1];
      TypesErased(whole, ts[1..], other);
    }
  }

  lemma {:induction false} OperandsErased(os: seq<Operand>)
    ensures OperandsBytes(EraseOperands(os)) == OperandsBytes(os)
  {
    hide TypeBytes, EraseType, PayloadBytes;
    if os != [] {
      TypeErased(os[0].ty);
      OperandsErased(os[1..]);
      assert EraseOperands(os)[1..] == EraseOperands(os[1..]);
    }
  }

  lemma {:induction false} InstErased(x: Inst)
    ensures InstBytes(EraseInst(x, true)) == InstBytes(x)
  {
    hide TypeBytes, EraseType, OperandsBytes, EraseOperands, Bytes, NumbersBytes, Flag;
    TypeErased(x.ty);
    OperandsErased(x.operands);
    assert Low(EraseInst(x, true)) == Low(x);
  }

  lemma {:induction false} InstsErased(xs: seq<Inst>)
    ensures InstsBytes(EraseInsts(xs, true)) == InstsBytes(xs)
  {
    hide InstBytes, EraseInst;
    if xs != [] {
      InstErased(xs[0]);
      InstsErased(xs[1..]);
      assert EraseInsts(xs, true)[1..] == EraseInsts(xs[1..], true);
    }
  }

  lemma {:induction false} BlocksErased(bs: seq<BasicBlock>)
    ensures BlocksBytes(EraseBlocks(bs, true)) == BlocksBytes(bs)
  {
    hide InstsBytes, EraseInsts, Bytes, TextBytes;
    if bs != [] {
      InstsErased(bs[0].insts);
      BlocksErased(bs[1..]);
      assert EraseBlocks(bs, true)[1..] == EraseBlocks(bs[1..], true);
    }
  }

  lemma {:induction false} ParamsErased(ps: seq<(SigType, nat)>)
    ensures ParamTypes(EraseParams(ps)) == ParamTypes(ps) && ParamVregs(EraseParams(ps)) == ParamVregs(ps)
  {
    hide TypeBytes, EraseType, Bytes;
    if ps != [] {
      TypeErased(ps[0].0);
      ParamsErased(ps[1..]);
      assert EraseParams(ps)[1..] == EraseParams(ps[1..]);
    }
  }

  lemma {:induction false} FunctionErased(f: Function)
    ensures FunctionBytes(EraseFunction(f, true)) == FunctionBytes(f)
  {
    hide TypeBytes, EraseType, Bytes, TextBytes, Flag, ParamTypes, ParamVregs, BlocksBytes, EraseParams, EraseBlocks;
    TypeErased(f.ret);
    TypeErased(f.ty);
    ParamsErased(f.params);
    BlocksErased(f.blocks);
  }

  lemma {:induction false} FunctionsErased(fs: seq<Function>)
    ensures FunctionsBytes(EraseFunctions(fs, true)) == FunctionsBytes(fs)
  {
    hide FunctionBytes, EraseFunction;
    if fs != [] {
      FunctionErased(fs[0]);
      FunctionsErased(fs[1..]);
      assert EraseFunctions(fs, true)[1..] == EraseFunctions(fs[1..], true);
    }
  }

  lemma {:induction false} GlobalsErased(gs: seq<GlobalVar>)
    ensures GlobalsBytes(EraseGlobals(gs)) == GlobalsBytes(gs)
  {
    hide TypeBytes, EraseType, Bytes, TextBytes, Flag, RelocsBytes;
    if gs != [] {
      TypeErased(gs[0].ty);
      GlobalsErased(gs[1..]);
      assert EraseGlobals(gs)[1..] == EraseGlobals(gs[1..]);
    }
  }

  lemma {:induction false} ModuleErased(m: Module)
    ensures ModuleBytes(EraseModule(m, true)) == ModuleBytes(m)
  {
    hide Bytes, SymbolsBytes, FunctionsBytes, GlobalsBytes, EraseFunctions, EraseGlobals;
    FunctionsErased(m.funcs);
    GlobalsErased(m.globals);
  }

  // ---------------------------------------------------------------------------
  // Addresses beside the rest

  lemma {:induction false} InstsApart(xs: seq<Inst>, ys: seq<Inst>)
    ensures EraseInsts(xs, true) == EraseInsts(ys, true)
      <==> EraseInsts(xs, false) == EraseInsts(ys, false) && InstsAddresses(xs) == InstsAddresses(ys)
  {
    hide EraseType, EraseOperands, Low;
    if xs != [] && ys != [] {
      InstsApart(xs[1..], ys[1..]);
      HeadsEqual(EraseInst(xs[0], true), EraseInsts(xs[1..], true), EraseInst(ys[0], true), EraseInsts(ys[1..], true));
      HeadsEqual(EraseInst(xs[0], false), EraseInsts(xs[1..], false), EraseInst(ys[0], false),
                 EraseInsts(ys[1..], false));
      HeadsEqual(InstsAddresses(xs)[0], InstsAddresses(xs[1..]), InstsAddresses(ys)[0], InstsAddresses(ys[1..]));
    }
  }

  lemma {:induction false} HeadsEqual<T>(x: T, xs: seq<T>, y: T, ys: seq<T>)
    ensures [x] + xs == [y] + ys <==> x == y && xs == ys
  {
    if [x] + xs == [y] + ys {
      assert ([x] + xs)[0] == x && ([y] + ys)[0] == y;
      assert ([x] + xs)[1..] == xs && ([y] + ys)[1..] == ys;
    }
  }

  lemma {:induction false} BlocksApart(xs: seq<BasicBlock>, ys: seq<BasicBlock>)
    ensures EraseBlocks(xs, true) == EraseBlocks(ys, true)
      <==> EraseBlocks(xs, false) == EraseBlocks(ys, false) && BlocksAddresses(xs) == BlocksAddresses(ys)
  {
    hide EraseInsts, InstsAddresses;
    if xs != [] && ys != [] {
      InstsApart(xs[0].insts, ys[0].insts);
      BlocksApart(xs[1..], ys[1..]);
      HeadsEqual(EraseBlock(xs[0], true), EraseBlocks(xs[1..], true), EraseBlock(ys[0], true),
                 EraseBlocks(ys[1..], true));
      HeadsEqual(EraseBlock(xs[0], false), EraseBlocks(xs[1..], false), EraseBlock(ys[0], false),
                 EraseBlocks(ys[1..], false));
      HeadsEqual(InstsAddresses(xs[0].insts), BlocksAddresses(xs[1..]), InstsAddresses(ys[0].insts),
                 BlocksAddresses(ys[1..]));
    }
  }

  lemma {:induction false} FunctionApart(f: Function, g: Function)
    ensures EraseFunction(f, true) == EraseFunction(g, true)
      <==> EraseFunction(f, false) == EraseFunction(g, false) && Addresses(f) == Addresses(g)
  {
    hide EraseType, EraseParams, EraseBlocks, BlocksAddresses;
    BlocksApart(f.blocks, g.blocks);
  }

  lemma {:induction false} FunctionsApart(xs: seq<Function>, ys: seq<Function>)
    ensures EraseFunctions(xs, true) == EraseFunctions(ys, true)
      <==> EraseFunctions(xs, false) == EraseFunctions(ys, false) && FunctionsAddresses(xs) == FunctionsAddresses(ys)
  {
    hide EraseFunction, Addresses;
    if xs != [] && ys != [] {
      FunctionApart(xs[0], ys[0]);
      FunctionsApart(xs[1..], ys[1..]);
      HeadsEqual(EraseFunction(xs[0], true), EraseFunctions(xs[1..], true),
                 EraseFunction(ys[0], true), EraseFunctions(ys[1..], true));
      HeadsEqual(EraseFunction(xs[0], false), EraseFunctions(xs[1..], false),
                 EraseFunction(ys[0], false), EraseFunctions(ys[1..], false));
      HeadsEqual(Addresses(xs[0]), FunctionsAddresses(xs[1..]), Addresses(ys[0]), FunctionsAddresses(ys[1..]));
    }
  }

  // ---------------------------------------------------------------------------
  // What equal signatures mean

  /** Main results: equal signatures mean the same visible function, or module, with its indices
      at addresses with the same low halves. */
  lemma {:induction false} FunctionSignatureIff(a: Function, b: Function)
    requires FunctionFits(a) && FunctionFits(b)
    ensures FunctionBytes(a) == FunctionBytes(b) <==>
      VisibleFunction(a) == VisibleFunction(b) && Addresses(a) == Addresses(b)
  {
    hide FunctionBytes, EraseFunction, FunctionOk, Addresses;
    FunctionErased(a);
    FunctionErased(b);
    FunctionApart(a, b);
    if FunctionBytes(a) == FunctionBytes(b) {
      FunctionSignatureInjective(EraseFunction(a, true), EraseFunction(b, true));
    }
  }

  lemma {:induction false} ModuleSignatureIff(a: Module, b: Module)
    requires ModuleFits(a) && ModuleFits(b)
    ensures ModuleBytes(a) == ModuleBytes(b) <==>
      VisibleModule(a) == VisibleModule(b) && FunctionsAddresses(a.funcs) == FunctionsAddresses(b.funcs)
  {
    ModuleApart(a, b);
    hide ModuleBytes, EraseModule, ModuleOk, FunctionsAddresses;
    ModuleErased(a);
    ModuleErased(b);
    if ModuleBytes(a) == ModuleBytes(b) {
      ModuleSignatureInjective(EraseModule(a, true), EraseModule(b, true));
    }
  }

  lemma {:induction false} ModuleApart(a: Module, b: Module)
    ensures EraseModule(a, true) == EraseModule(b, true)
      <==> EraseModule(a, false) == EraseModule(b, false) && FunctionsAddresses(a.funcs) == FunctionsAddresses(b.funcs)
  {
    hide EraseFunctions, EraseGlobals, FunctionsAddresses;
    FunctionsApart(a.funcs, b.funcs);
  }

  /** b is a with its indices kept elsewhere. */
  predicate IsCopy(a: Function, b: Function) {
    b == a.(blocks := b.blocks) && VisibleFunction(a) == VisibleFunction(b)
  }

  // ---------------------------------------------------------------------------
  // Different functions with one signature, one function with different signatures

  /** A function that returns the vector it gets. */
  function OnVectors(lanes: nat): Function {
    var v := Vector(Basic(4), lanes);
    Returning(v, [ReturnOf(v)], true)
  }

  /** One block, one parameter. */
  function Returning(t: SigType, insts: seq<Inst>, llvmAbi: bool): Function {
    Function([102], false, false, 2, t, Func(t, [t], false), [(t, 0)], [BasicBlock(0, [], insts)], llvmAbi, 0, 1)
  }

  function ReturnOf(t: SigType): Inst {
    Inst(0, t, 0, 0, false, false, 0, 0, [Operand(Vreg(0), t, 0)], [])
  }

  const OP_EXTRACTVALUE: nat := 45

  function ExtractOf(t: SigType, address: nat): Inst {
    Inst(OP_EXTRACTVALUE, Basic(4), 1, 0, false, false, 0, address, [Operand(Vreg(0), t, 0)], [1])
  }

  /** A function that takes a pair apart; its index list stands at the given address. */
  function Extracting(address: nat): Function {
    var pair := Struct([Basic(4), Basic(4)], false, []);
    Returning(pair, [ExtractOf(pair, address), ReturnOf(pair)], true)
  }

  lemma {:induction false} TwoErased(x: Inst, y: Inst, addresses: bool)
    ensures EraseInsts([x], addresses) == [EraseInst(x, addresses)]
    ensures EraseInsts([x, y], addresses) == [EraseInst(x, addresses), EraseInst(y, addresses)]
    ensures y.indices == [] ==> InstsAddresses([y]) == [0]
    ensures y.indices == [] && x.indices != [] ==> InstsAddresses([x, y]) == [Low(x), 0]
  {
    assert [x, y][1..] == [y] && [x][1..] == [] && [y][1..] == [];
  }

  lemma {:induction false} ReturningErased(t: SigType, insts: seq<Inst>, llvmAbi: bool, addresses: bool)
    ensures EraseFunction(Returning(t, insts, llvmAbi), addresses)
      == Returning(EraseType(t), EraseInsts(insts, addresses), false).(numBlocks := 0)
    ensures Addresses(Returning(t, insts, llvmAbi)) == [InstsAddresses(insts)]
  {
    hide EraseInsts;
    var f := Func(t, [t], false);
    assert EraseTypes(f, [t]) == [EraseType(t)] by { assert [t][1..] == []; }
    assert EraseParams([(t, 0)]) == [(EraseType(t), 0)] by { assert [(t, 0)][1..] == []; }
    assert [BasicBlock(0, [], insts)][1..] == [];
  }

  lemma {:induction false} ReturnErased(lanes: nat, addresses: bool)
    ensures EraseInst(ReturnOf(Vector(Basic(4), lanes)), addresses) == ReturnOf(Vector(Absent, 0))
  {
    var o := Operand(Vreg(0), Vector(Basic(4), lanes), 0);
    assert [o][1..] == [];
  }

  lemma {:induction false} LanesErased(lanes: nat, addresses: bool)
    ensures EraseFunction(OnVectors(lanes), addresses)
      == Returning(Vector(Absent, 0), [ReturnOf(Vector(Absent, 0))], false).(numBlocks := 0)
    ensures Addresses(OnVectors(lanes)) == [[0]]
  {
    var v := Vector(Basic(4), lanes);
    ReturningErased(v, [ReturnOf(v)], true, addresses);
    ReturnErased(lanes, addresses);
    TwoErased(ReturnOf(v), ReturnOf(v), addresses);
  }

  lemma {:induction false} LanesFit(lanes: nat)
    ensures FunctionFits(OnVectors(lanes))
  {
    LanesErased(lanes, true);
    hide EraseFunction, OnVectors;
  }

  /** Functions on vectors of different lengths have the same signature. */
  lemma {:induction false} LanesCollide(m: nat, n: nat)
    requires m != n
    ensures OnVectors(m) != OnVectors(n) && FunctionFits(OnVectors(m)) && FunctionFits(OnVectors(n))
    ensures FunctionBytes(OnVectors(m)) == FunctionBytes(OnVectors(n))
  {
    assert OnVectors(m).ret.count == m && OnVectors(n).ret.count == n;
    hide OnVectors, FunctionBytes, EraseFunction, FunctionFits, Addresses;
    LanesErased(m, false);
    LanesErased(n, false);
    LanesFit(m);
    LanesFit(n);
    FunctionSignatureIff(OnVectors(m), OnVectors(n));
  }

  /** So do functions that differ only in the calling convention: any two of them. */
  lemma {:induction false} ConventionsCollide(f: Function)
    ensures f.(usesLlvmAbi := true) != f.(usesLlvmAbi := false)
    ensures FunctionBytes(f.(usesLlvmAbi := true)) == FunctionBytes(f.(usesLlvmAbi := false))
  {
  }

  lemma {:induction false} PairErased(address: nat, addresses: bool)
    ensures var pair := Struct([Basic(4), Basic(4)], false, []);
      && EraseType(pair) == pair && EraseInst(ReturnOf(pair), addresses) == ReturnOf(pair)
      && EraseInst(ExtractOf(pair, address), addresses) == ExtractOf(pair, if addresses then address % U32 else 0)
  {
    var i32 := Basic(4);
    var pair := Struct([i32, i32], false, []);
    assert EraseTypes(pair, [i32, i32]) == [i32, i32] by {
      assert [i32, i32][1..] == [i32] && [i32][1..] == [];
    }
    assert [Operand(Vreg(0), pair, 0)][1..] == [];
  }

  lemma {:induction false} ExtractingErased(address: nat, addresses: bool)
    ensures EraseFunction(Extracting(address), addresses) ==
      Extracting(if addresses then address % U32 else 0).(usesLlvmAbi := false, numBlocks := 0)
    ensures Addresses(Extracting(address)) == [[address % U32, 0]]
  {
    var pair := Struct([Basic(4), Basic(4)], false, []);
    var (x, y) := (ExtractOf(pair, address), ReturnOf(pair));
    hide EraseType, EraseInst, EraseFunction, Addresses;
    PairErased(address, addresses);
    ReturningErased(pair, [x, y], true, addresses);
    TwoErased(x, y, addresses);
  }

  lemma {:induction false} ExtractingFits(address: nat)
    ensures FunctionFits(Extracting(address))
  {
    ExtractingErased(address, true);
    hide EraseFunction;
  }

  /** A function and its copy with the index list elsewhere have different signatures. */
  lemma {:induction false} CopiesDiffer(here: nat, there: nat)
    requires here % U32 != there % U32
    ensures IsCopy(Extracting(here), Extracting(there))
    ensures FunctionFits(Extracting(here)) && FunctionFits(Extracting(there))
    ensures FunctionBytes(Extracting(here)) != FunctionBytes(Extracting(there))
  {
    assert Extracting(there) == Extracting(here).(blocks := Extracting(there).blocks);
    hide Extracting, FunctionBytes, EraseFunction, FunctionFits, Addresses;
    ExtractingErased(here, false);
    ExtractingErased(there, false);
    ExtractingFits(here);
    ExtractingFits(there);
    FunctionSignatureIff(Extracting(here), Extracting(there));
    assert [[here % U32, 0]][0][0] != [[there % U32, 0]][0][0];
  }
}
