/**
 Folding constant getelementptr indices: the step analysis shared by the backends and the
 bitcode reader, and the text parser's own version.
 */
module GepFold {
  import opened Wrappers
  import opened Numbers
  import opened Types
  import opened Layout

  const INT64_MIN: int := -0x8000_0000_0000_0000
  const INT64_MAX: int := 0x7FFF_FFFF_FFFF_FFFF
  const UINT32: int := 0x1_0000_0000

  datatype Index = Imm(value: int) | Dynamic(vreg: nat)

  /** next is the type stepped into; size scales an index known only at run time. */
  datatype Step = Known(offset: int, next: Type) | Runtime(size: nat, next: Type)

  /** The counts of a struct's fields are 32-bit in the source. */
  predicate CountsFit(t: Type) {
    match t
    case Array(elem, _) => CountsFit(elem)
    case Vector(elem, _) => CountsFit(elem)
    case Struct(fields, _) => |fields| < UINT32 && forall i :: 0 <= i < |fields| ==> CountsFit(fields[i])
    case _ => true
  }

  /** lr_gep_analyze_step */
  function AnalyzeStep(cur: Type, first: bool, idx: Index): Option<Step> {
    if first then
      Some(match idx case Imm(n) => Known(n * Size(cur), cur) case Dynamic(_) => Runtime(Size(cur), cur))
    else
      match cur
      case Struct(fields, _) =>
        var field := (match idx case Imm(n) => n case Dynamic(v) => v) % UINT32;
        Some(Known(FieldOffset(cur, field), if field < |fields| then fields[field] else cur))
      case Array(elem, _) =>
        Some(match idx case Imm(n) => Known(n * Size(elem), elem) case Dynamic(_) => Runtime(Size(elem), elem))
      case Vector(elem, _) =>
        Some(match idx case Imm(n) => Known(n * Size(elem), elem) case Dynamic(_) => Runtime(Size(elem), elem))
      case _ => None
  }

  predicate InInt64(n: int) {
    INT64_MIN <= n <= INT64_MAX
  }

  function BitcodeFoldFrom(cur: Type, first: bool, idxs: seq<Index>, total: int): Option<int>
    decreases |idxs|
  {
    if idxs == [] then Some(total)
    else
      match AnalyzeStep(cur, first, idxs[0])
      case Some(Known(offset, next)) =>
        if InInt64(total + offset) then BitcodeFoldFrom(next, false, idxs[1..], total + offset) else None
      case _ => None
  }

  function BitcodeFold(t: Type, idxs: seq<Index>): Option<int> {
    BitcodeFoldFrom(t, true, idxs, 0)
  }

  /** bc_const_gep_try_compute_offset */
  method ConstGepTryComputeOffset(t: Type, idxs: seq<Index>) returns (r: Option<int>)
    ensures r == BitcodeFold(t, idxs)
  {
    var cur, total := t, 0;
    for i := 0 to |idxs|
      invariant InInt64(total)
      invariant BitcodeFold(t, idxs) == BitcodeFoldFrom(cur, i == 0, idxs[i..], total)
    {
      assert idxs[i..][0] == idxs[i] && idxs[i..][1..] == idxs[i + 1..];
      var step := AnalyzeStep(cur, i == 0, idxs[i]);
      if step.None? || step.value.Runtime? {
        return None;
      }
      var offset := step.value.offset;
      if (offset > 0 && total > INT64_MAX - offset) || (offset < 0 && total < INT64_MIN - offset) {
        return None;
      }
      total, cur := total + offset, step.value.next;
    }
    return Some(total);
  }

  /** What the text parser adds for one constant index, and the type it goes on with. */
  function TextStep(cur: Type, first: bool, n: int): Option<(int, Type)> {
    if first then Some((n * Size(cur), cur))
    else
      match cur
      case Array(elem, _) => Some((n * Size(elem), elem))
      case Vector(elem, _) => Some((n * Size(elem), elem))
      case Struct(fields, _) => if 0 <= n < |fields| then Some((FieldOffset(cur, n), fields[n])) else None
      case _ => Some((n * Size(cur), cur))
  }

  function TextFoldFrom(cur: Type, first: bool, idxs: seq<Index>, total: int): Option<int>
    decreases |idxs|
  {
    if idxs == [] then Some(total)
    else if idxs[0].Dynamic? then None
    else
      match TextStep(cur, first, idxs[0].value)
      case Some(step) => TextFoldFrom(step.1, false, idxs[1..], total + step.0)
      case None => None
  }

  function TextFold(t: Type, idxs: seq<Index>): Option<int> {
    TextFoldFrom(t, true, idxs, 0)
  }

  /** The offset loop of parse_const_gep_operand: after a failure the rest is only skipped. */
  method ParseConstGepOffset(t: Type, idxs: seq<Index>) returns (r: Option<int>)
    ensures r == TextFold(t, idxs)
  {
    var ok, total, cur := true, 0, t;
    var pos := 0;
    for i := 0 to |idxs|
      invariant ok ==> pos == i && TextFold(t, idxs) == TextFoldFrom(cur, pos == 0, idxs[i..], total)
      invariant !ok ==> TextFold(t, idxs) == None
    {
      if ok {
        assert idxs[i..][0] == idxs[i] && idxs[i..][1..] == idxs[i + 1..];
        if idxs[i].Dynamic? {
          ok := false;
        } else {
          var n := idxs[i].value;
          if pos == 0 {
            var size := TypeSize(cur);
            total := total + n * size;
          } else {
            match cur {
              case Array(elem, _) =>
                var size := TypeSize(elem);
                total, cur := total + n * size, elem;
              case Vector(elem, _) =>
                var size := TypeSize(elem);
                total, cur := total + n * size, elem;
              case Struct(fields, _) =>
                if n < 0 || n >= |fields| {
                  ok := false;
                } else {
                  var off := StructFieldOffset(cur, n);
                  total, cur := total + off, fields[n];
                }
              case _ =>
                var size := TypeSize(cur);
                total := total + n * size;
            }
          }
          pos := pos + 1;
        }
      }
    }
    return if ok then Some(total) else None;
  }

  // ---------------------------------------------------------------------------
  // When they agree

  /** All indices are constants, select a field that exists, and never step into a scalar. */
  predicate Steps(cur: Type, first: bool, idxs: seq<Index>)
    decreases |idxs|
  {
    idxs == [] ||
    (idxs[0].Imm? &&
     if first then Steps(cur, false, idxs[1..])
     else
       match cur
       case Struct(fields, _) => 0 <= idxs[0].value < |fields| && Steps(fields[idxs[0].value], false, idxs[1..])
       case Array(elem, _) => Steps(elem, false, idxs[1..])
       case Vector(elem, _) => Steps(elem, false, idxs[1..])
       case _ => false)
  }

  /** Every running total of the text parser's sum is a 64-bit integer. */
  predicate TotalsFit(cur: Type, first: bool, idxs: seq<Index>, total: int)
    decreases |idxs|
  {
    idxs == [] || idxs[0].Dynamic? ||
    match TextStep(cur, first, idxs[0].value)
    case Some(step) => InInt64(total + step.0) && TotalsFit(step.1, false, idxs[1..], total + step.0)
    case None => true
  }

  /** Both readers fold exactly when the indices are constants that step through the type
      without 64-bit overflow, and then to the same offset. */
  lemma {:induction false} FoldersAgreeIff(t: Type, first: bool, idxs: seq<Index>, total: int)
    requires CountsFit(t)
    ensures BitcodeFoldFrom(t, first, idxs, total).Some? && TextFoldFrom(t, first, idxs, total).Some?
      <==> Steps(t, first, idxs) && TotalsFit(t, first, idxs, total)
    ensures BitcodeFoldFrom(t, first, idxs, total).Some? && TextFoldFrom(t, first, idxs, total).Some? ==>
      BitcodeFoldFrom(t, first, idxs, total) == TextFoldFrom(t, first, idxs, total)
    decreases |idxs|
  {
    hide Size, FieldOffset;
    if idxs != [] && idxs[0].Imm? {
      var n := idxs[0].value;
      var rest := idxs[1..];
      if first {
        FoldersAgreeIff(t, false, rest, total + n * Size(t));
      } else {
        match t
        case Array(elem, _) => FoldersAgreeIff(elem, false, rest, total + n * Size(elem));
        case Vector(elem, _) => FoldersAgreeIff(elem, false, rest, total + n * Size(elem));
        case Struct(fields, _) =>
          if 0 <= n < |fields| {
            SmallMod(n, UINT32);
            FoldersAgreeIff(fields[n], false, rest, total + FieldOffset(t, n));
          }
        case _ =>
      }
    }
  }

  /** Outside that the two differ: stepping into a scalar folds only in the text parser, a
      field that does not exist folds only in the bitcode reader. */
  lemma {:induction false} FoldersDiffer()
    ensures TextFold(I32, [Imm(0), Imm(3)]) == Some(12) && BitcodeFold(I32, [Imm(0), Imm(3)]) == None
    ensures var s := Struct([I32], false);
      TextFold(s, [Imm(0), Imm(1)]) == None && BitcodeFold(s, [Imm(0), Imm(1)]) == Some(4)
  {
    assert [Imm(0), Imm(3)][1..] == [Imm(3)] && [Imm(0), Imm(1)][1..] == [Imm(1)];
    assert [Imm(3)][1..] == [] && [Imm(1)][1..] == [];
    assert Size(I32) == 4 && 3 * Size(I32) == 12 && 0 * Size(I32) == 0;
    assert TextStep(I32, false, 3) == Some((12, I32)) && TextStep(I32, true, 0) == Some((0, I32));
    assert TextFoldFrom(I32, false, [Imm(3)], 0) == TextFoldFrom(I32, false, [], 12) == Some(12);
    var s := Struct([I32], false);
    hide BitAndNot;
    AlignZero(4);
    assert FieldsEnd(s, 0) == 0;
    assert FieldsEnd(s, 1) == 4;
    assert FieldOffset(s, 1) == 4;
    var zero := 0 * Size(s);
    assert BitcodeFoldFrom(s, false, [Imm(1)], 0) == BitcodeFoldFrom(s, false, [], 4);
  }

  lemma {:induction false} AlignZero(a: nat)
    requires IsPow2(a)
    ensures AlignUp(0, a) == 0
  {
    AlignUpRounds(0, a);
    SmallMod(AlignUp(0, a), a);
  }

  function Constants(path: seq<nat>): (r: seq<Index>)
    ensures |r| == |path| && forall i :: 0 <= i < |path| ==> r[i] == Imm(path[i])
  {
    seq(|path|, i requires 0 <= i < |path| => Imm(path[i]))
  }

  /** On a path that names a part of the type, both agree with the index path. */
  lemma {:induction false} FoldersFollowPath(t: Type, path: seq<nat>, total: int)
    requires CountsFit(t) && IndexPath(t, path).Some? && INT64_MIN <= total && total + Size(t) <= INT64_MAX
    ensures BitcodeFoldFrom(t, false, Constants(path), total) == Some(total + IndexPath(t, path).value.0)
    ensures TextFoldFrom(t, false, Constants(path), total) == Some(total + IndexPath(t, path).value.0)
    decreases |path|
  {
    hide Size, FieldOffset;
    if path != [] {
      var step := Select(t, path[0]).value;
      SelectInside(t, path[0]);
      PathInside(step.1, path[1..]);
      assert Constants(path)[1..] == Constants(path[1..]);
      if t.Struct? {
        SmallMod(path[0], UINT32);
      }
      FoldersFollowPath(step.1, path[1..], total + step.0);
    }
  }

  /** A first index n goes n times the size of the type further, forwards or backwards, and the
      others select a part. */
  lemma {:induction false} FoldsEqualIndexPath(t: Type, n: int, path: seq<nat>)
    requires CountsFit(t) && IndexPath(t, path).Some?
    requires INT64_MIN <= n * Size(t) && n * Size(t) + Size(t) <= INT64_MAX
    ensures BitcodeFold(t, [Imm(n)] + Constants(path)) == Some(n * Size(t) + IndexPath(t, path).value.0)
    ensures TextFold(t, [Imm(n)] + Constants(path)) == Some(n * Size(t) + IndexPath(t, path).value.0)
  {
    hide Size, IndexPath;
    var idxs := [Imm(n)] + Constants(path);
    assert idxs[1..] == Constants(path);
    FoldersFollowPath(t, path, n * Size(t));
  }

  /** Going n times the size of the type further leads to element n of an array of the type. */
  lemma {:induction false} FirstIndexIsElement(t: Type, n: nat, count: nat, path: seq<nat>)
    requires CountsFit(t) && IndexPath(t, path).Some? && n < count && n * Size(t) + Size(t) <= INT64_MAX
    ensures IndexPath(Array(t, count), [n] + path).Some?
    ensures BitcodeFold(t, [Imm(n)] + Constants(path)) == Some(IndexPath(Array(t, count), [n] + path).value.0)
  {
    FoldsEqualIndexPath(t, n, path);
    hide Size, BitcodeFold, Constants;
    assert ([n] + path)[0] == n && ([n] + path)[1..] == path;
  }

  /** An index known only at run time is scaled by the size of the type stepped into: whatever
      its value turns out to be, the step is the one for that constant.  In a struct the number
      of the register is taken for that of the field. */
  lemma {:induction false} RuntimeStep(cur: Type, first: bool, v: nat)
    ensures match AnalyzeStep(cur, first, Dynamic(v))
      case Some(Runtime(size, next)) =>
        size == Size(next) && forall n :: AnalyzeStep(cur, first, Imm(n)) == Some(Known(n * size, next))
      case Some(Known(offset, next)) =>
        !first && cur.Struct? && (v < |cur.fields| < UINT32 ==> Select(cur, v) == Some((offset, next)))
      case None => !first && forall n :: AnalyzeStep(cur, first, Imm(n)) == None
  {
    hide Size, FieldOffset;
    if v < UINT32 {
      SmallMod(v, UINT32);
    }
  }
}
