/**
 Types of the IR as trees: the source's lr_type_t without names.
 */
module Types {
  datatype Type =
    | Void | I1 | I8 | I16 | I32 | I64
    | Float | Double | X86Fp80 | Fp128 | Ptr
    | Array(elem: Type, count: nat)
    | Vector(elem: Type, count: nat)
    | Struct(fields: seq<Type>, packed: bool)
    | Func(ret: Type, params: seq<Type>, vararg: bool)
}
