/**
 The bitcode reader's lowest layer: a cursor over bytes, the record buffer and the list of
 abbreviations, all updated in place.  Every method does what Bitstream says of the bits.
 */
module BitReader {
  import opened Wrappers
  import opened Numbers
  import opened Bitstream

  const END_BLOCK: nat := 0
  const ENTER_BLOCK: nat := 1
  const DEFINE: nat := 2
  const UNABBREV: nat := 3
  const FIRST_USER_ABBREV: nat := 4

  /** bc_read_record */
  function RecordAt(bits: Bits, pos: nat, id: nat, abbrevs: seq<Abbrev>): Option<Record>
    requires forall k :: 0 <= k < |abbrevs| ==> WidthsOk(abbrevs[k])
  {
    if id == UNABBREV then UnabbreviatedAt(bits, pos)
    else if id < FIRST_USER_ABBREV || id - FIRST_USER_ABBREV >= |abbrevs| then None
    else AbbreviatedAt(bits, pos, abbrevs[id - FIRST_USER_ABBREV])
  }

  /** One entry of a block. */
  datatype Entry = End(pos: nat) | Skipped(pos: nat) | Definition(ops: Abbrev, pos: nat) | Found(record: Record)

  /** bc_skip_block: block id and length of a nested block, which is passed over. */
  function SkipAt(bits: Bits, pos: nat): Option<nat> {
    match VbrAt(bits, pos, 4)
    case None => None
    case Some((_, p1)) =>
      match FixedAt(bits, AlignUp32(p1), 32)
      case None => None
      case Some((words, p2)) => Some(p2 + words * 32)
  }

  /** An entry of a block decoder's loop: an id of the given width and what it announces. */
  function EntryAt(bits: Bits, pos: nat, width: nat, abbrevs: seq<Abbrev>): Option<Entry>
    requires forall k :: 0 <= k < |abbrevs| ==> WidthsOk(abbrevs[k])
  {
    match FixedAt(bits, pos, width)
    case None => None
    case Some((v, p)) =>
      var id := v % UINT32;
      if id == END_BLOCK then Some(End(AlignUp32(p)))
      else if id == ENTER_BLOCK then
        match SkipAt(bits, p)
        case None => None
        case Some(next) => Some(Skipped(next))
      else if id == DEFINE then
        match AbbrevAt(bits, p)
        case None => None
        case Some((ops, next)) => Some(Definition(ops, next))
      else
        match RecordAt(bits, p, id, abbrevs)
        case None => None
        case Some(r) => Some(Found(r))
  }

  class Reader {
    const data: seq<Byte>
    const lenBits: nat := 8 * |data|
    var bitPos: nat
    var abbrevs: seq<Abbrev>
    var record: seq<Field>
    var blob: Option<(nat, nat)>
    var hasError: bool

    ghost function Stream(): (s: Bits)
      ensures |s| == lenBits
    {
      ByteBits(data)
    }

    ghost function Got(code: nat): Record
      reads this
    {
      Record(code, record, blob, bitPos)
    }

    constructor (data: seq<Byte>)
      ensures this.data == data && bitPos == 0 && abbrevs == [] && !hasError
    {
      this.data := data;
      bitPos, abbrevs, record, blob, hasError := 0, [], [], None, false;
    }

    /** bc_read_fixed: bit by bit, least significant first. */
    method ReadFixed(width: nat) returns (val: nat)
      requires width <= 64
      modifies this`bitPos, this`hasError
      ensures FixedAt(Stream(), old(bitPos), width) == None ==> hasError && val == 0 && bitPos == old(bitPos)
      ensures FixedAt(Stream(), old(bitPos), width).Some? ==>
                hasError == old(hasError) && (val, bitPos) == FixedAt(Stream(), old(bitPos), width).value
    {
      hide Pow2, BitOr, Value;
      val := 0;
      if width == 0 {
        return;
      }
      if bitPos + width > lenBits {
        hasError := true;
        return 0;
      }
      ghost var s := Stream();
      NoBits(s[bitPos..bitPos]);
      PowZero();
      for i := 0 to width
        invariant bitPos == old(bitPos) && hasError == old(hasError)
        invariant val == Value(s[bitPos..bitPos + i]) && val < Pow2(i)
      {
        var byteIdx, bitIdx := (bitPos + i) / 8, (bitPos + i) % 8;
        BitOfBytes(data, bitPos + i);
        ValueStep(s, bitPos, i);
        if data[byteIdx] / Pow2(bitIdx) % 2 == 1 {
          BitOrDisjoint(1, val, i);
          val := BitOr(val, Pow2(i));
        }
        PowDouble(i);
      }
      bitPos := bitPos + width;
    }

    /** bc_read_vbr */
    method ReadVbr(width: nat) returns (val: nat)
      requires 1 <= width <= 64 && !hasError
      modifies this`bitPos, this`hasError
      ensures VbrAt(Stream(), old(bitPos), width) == None ==> hasError && val == 0
      ensures VbrAt(Stream(), old(bitPos), width).Some? ==>
                !hasError && (val, bitPos) == VbrAt(Stream(), old(bitPos), width).value
    {
      hide Pow2, FixedAt, VbrFrom, BitAnd, BitOr;
      val := 0;
      var shift, hi := 0, Pow2(width - 1);
      PowZero();
      while true
        invariant !hasError && shift <= 63 && val < Pow2(shift)
        invariant VbrAt(Stream(), old(bitPos), width) == VbrFrom(Stream(), bitPos, width, val, shift)
        decreases lenBits - bitPos
      {
        ghost var pos := bitPos;
        VbrOverrun(Stream(), pos, width, val, shift);
        var chunk := ReadFixed(width);
        if hasError {
          return 0;
        }
        FixedProgress(Stream(), pos, width);
        TakeChunk(Stream(), pos, width, val, shift, chunk);
        val := BitOr(val, BitAnd(chunk, hi - 1) * Pow2(shift) % Pow2(64));
        if chunk / hi % 2 == 0 {
          return;
        }
        shift := shift + (width - 1);
        if shift > 63 {
          hasError := true;
          return 0;
        }
      }
    }

    method Align32()
      modifies this`bitPos
      ensures bitPos == AlignUp32(old(bitPos))
    {
      var rem := bitPos % 32;
      if rem != 0 {
        bitPos := bitPos + (32 - rem);
      }
    }

    method RecordPush(v: nat, char6: bool)
      modifies this`record
      ensures record == old(record) + [Field(v, char6)]
    {
      record := record + [Field(v, char6)];
    }

    method ReadElement(op: Op) returns (v: nat)
      requires !hasError && WidthsOk([op])
      modifies this`bitPos, this`hasError
      ensures op.VbrOp? ==> op.width >= 1
      ensures ElementAt(Stream(), old(bitPos), op) == None ==> hasError
      ensures ElementAt(Stream(), old(bitPos), op).Some? ==>
                !hasError && (v, bitPos) == ElementAt(Stream(), old(bitPos), op).value
    {
      hide FixedAt, VbrAt;
      assert [op][0] == op;
      match op
      case FixedOp(w) => v := ReadFixed(w);
      case VbrOp(w) => v := ReadVbr(w);
      case Char6 => v := ReadFixed(6);
      case _ => v := ReadVbr(6);
    }

    /** The element loop of arrays and of unabbreviated records. */
    method ReadElements(n: nat, op: Op, ghost code: nat)
      requires !hasError && WidthsOk([op])
      modifies this`bitPos, this`hasError, this`record
      ensures op.VbrOp? ==> op.width >= 1
      ensures ElementsAt(Stream(), n, op, old(Got(code))) == None ==> hasError
      ensures ElementsAt(Stream(), n, op, old(Got(code))).Some? ==>
                !hasError && Got(code) == ElementsAt(Stream(), n, op, old(Got(code))).value
    {
      hide ElementAt;
      assert [op][0] == op;
      var j := 0;
      while j < n && !hasError
        invariant j <= n
        invariant hasError ==> ElementsAt(Stream(), n, op, old(Got(code))) == None
        invariant !hasError ==>
            ElementsAt(Stream(), n, op, old(Got(code))) == ElementsAt(Stream(), n - j, op, Got(code))
      {
        var v := ReadElement(op);
        RecordPush(v, op.Char6?);
        j := j + 1;
      }
    }

    method ReadScalar(op: Op) returns (v: nat)
      requires !hasError && IsScalar(op) && WidthsOk([op])
      modifies this`bitPos, this`hasError
      ensures op.VbrOp? ==> op.width >= 1
      ensures ScalarAt(Stream(), old(bitPos), op) == None ==> hasError
      ensures ScalarAt(Stream(), old(bitPos), op).Some? ==>
                !hasError && (v, bitPos) == ScalarAt(Stream(), old(bitPos), op).value
    {
      hide FixedAt, VbrAt;
      assert [op][0] == op;
      match op
      case Literal(value) => v := value;
      case FixedOp(w) => v := ReadFixed(w);
      case VbrOp(w) => v := ReadVbr(w);
      case Char6 => v := ReadFixed(6);
    }

    method ReadBlob(ghost code: nat)
      requires !hasError
      modifies this`bitPos, this`hasError, this`blob
      ensures BlobAt(Stream(), old(Got(code))) == None ==> hasError
      ensures BlobAt(Stream(), old(Got(code))).Some? ==>
                !hasError && Got(code) == BlobAt(Stream(), old(Got(code))).value
    {
      hide VbrAt;
      var n := ReadVbr(6);
      var len := n % UINT32;
      Align32();
      if bitPos + len * 8 > lenBits {
        hasError := true;
        return;
      }
      blob := Some((bitPos / 8, len));
      bitPos := bitPos + len * 8;
      Align32();
    }

    method ReadUnabbreviated() returns (code: nat)
      requires !hasError && record == [] && blob == None
      modifies this`bitPos, this`hasError, this`record
      ensures UnabbreviatedAt(Stream(), old(bitPos)) == None ==> hasError
      ensures UnabbreviatedAt(Stream(), old(bitPos)).Some? ==>
                !hasError && Got(code) == UnabbreviatedAt(Stream(), old(bitPos)).value
    {
      hide VbrAt, ElementsAt;
      var c := ReadVbr(6);
      code := c % UINT32;
      if hasError {
        return;
      }
      var n := ReadVbr(6);
      if hasError {
        return;
      }
      ReadElements(n % UINT32, VbrOp(6), code);
    }

    /** The operand loop of an abbreviated record. */
    method ReadOps(ops: Abbrev) returns (code: nat)
      requires !hasError && WidthsOk(ops) && record == [] && blob == None
      modifies this`bitPos, this`hasError, this`record, this`blob
      ensures AbbreviatedAt(Stream(), old(bitPos), ops) == None ==> hasError
      ensures AbbreviatedAt(Stream(), old(bitPos), ops).Some? ==>
                !hasError && Got(code) == AbbreviatedAt(Stream(), old(bitPos), ops).value
    {
      hide ScalarAt, ElementsAt, BlobAt, VbrAt, WidthsOk;
      code := 0;
      var i := 0;
      while i < |ops| && !hasError
        invariant hasError ==> AbbreviatedAt(Stream(), old(bitPos), ops) == None
        invariant !hasError ==>
            AbbreviatedAt(Stream(), old(bitPos), ops) == OpsAt(Stream(), ops, i, Got(code))
        decreases |ops| - i, !hasError
      {
        var op := ops[i];
        OneWidth(ops, i);
        ghost var before := Got(code);
        if IsScalar(op) {
          var v := ReadScalar(op);
          if i == 0 {
            code := v % UINT32;
          } else {
            RecordPush(v, op.Char6?);
          }
        } else if op.Array? {
          var n := ReadVbr(6);
          if i + 1 >= |ops| {
            hasError := true;
            return;
          }
          OneWidth(ops, i + 1);
          if !hasError {
            ReadElements(n % UINT32, ops[i + 1], code);
          }
          i := i + 1;
        } else if op.Blob? {
          ReadBlob(code);
          if hasError {
            return;
          }
        }
        i := i + 1;
      }
    }

    /** bc_read_record */
    method ReadRecord(id: nat) returns (code: nat)
      requires !hasError && forall k :: 0 <= k < |abbrevs| ==> WidthsOk(abbrevs[k])
      modifies this`bitPos, this`hasError, this`record, this`blob
      ensures id < 3 || id >= 4 + |abbrevs| ==> hasError
      ensures RecordAt(Stream(), old(bitPos), id, abbrevs) == None ==> hasError
      ensures RecordAt(Stream(), old(bitPos), id, abbrevs).Some? ==>
                !hasError && Got(code) == RecordAt(Stream(), old(bitPos), id, abbrevs).value
    {
      hide UnabbreviatedAt, AbbreviatedAt, WidthsOk;
      record, blob := [], None;
      if id == UNABBREV {
        code := ReadUnabbreviated();
        return;
      }
      if id < FIRST_USER_ABBREV || id - FIRST_USER_ABBREV >= |abbrevs| {
        hasError := true;
        return 0;
      }
      code := ReadOps(abbrevs[id - FIRST_USER_ABBREV]);
    }

    method ReadOp() returns (op: Op)
      requires !hasError
      modifies this`bitPos, this`hasError
      ensures OpAt(Stream(), old(bitPos)) == None ==> hasError
      ensures OpAt(Stream(), old(bitPos)).Some? ==>
                !hasError && (op, bitPos) == OpAt(Stream(), old(bitPos)).value
    {
      hide VbrAt, FixedAt;
      op := Other;
      var literal := ReadFixed(1);
      if hasError {
        return;
      }
      if literal != 0 {
        var v := ReadVbr(8);
        op := Literal(v);
      } else {
        var encoding := ReadFixed(3);
        if hasError {
          return;
        }
        var width := 0;
        if encoding == 1 || encoding == 2 {
          width := ReadVbr(5);
        }
        op := OpOf(encoding, width);
      }
    }

    /** bc_read_define_abbrev */
    method ReadDefineAbbrev()
      requires !hasError
      modifies this`bitPos, this`hasError, this`abbrevs
      ensures AbbrevAt(Stream(), old(bitPos)) == None ==> hasError && abbrevs == old(abbrevs)
      ensures AbbrevAt(Stream(), old(bitPos)).Some? ==>
                !hasError && (abbrevs, bitPos)
                  == (old(abbrevs) + [AbbrevAt(Stream(), old(bitPos)).value.0], AbbrevAt(Stream(), old(bitPos)).value.1)
    {
      hide VbrAt, OpAt;
      var n := ReadVbr(5);
      if hasError {
        return;
      }
      var numops := n % UINT32;
      var ops: Abbrev := [];
      var i := 0;
      while i < numops && !hasError
        invariant i <= numops && abbrevs == old(abbrevs)
        invariant hasError ==> AbbrevAt(Stream(), old(bitPos)) == None
        invariant !hasError ==> AbbrevAt(Stream(), old(bitPos)) == OpsDefinedAt(Stream(), bitPos, numops - i, ops)
      {
        var op := ReadOp();
        ops := ops + [op];
        i := i + 1;
      }
      if !hasError {
        abbrevs := abbrevs + [ops];
      }
    }

    /** bc_skip_block */
    method SkipBlock()
      requires !hasError
      modifies this`bitPos, this`hasError
      ensures SkipAt(Stream(), old(bitPos)) == None ==> hasError
      ensures SkipAt(Stream(), old(bitPos)).Some? ==>
                !hasError && bitPos == SkipAt(Stream(), old(bitPos)).value
    {
      hide VbrAt, FixedAt;
      var blockId := ReadVbr(4);
      Align32();
      var words := ReadFixed(32);
      bitPos := bitPos + words * 32;
    }

    /** One turn of a block decoder's loop; what a record means is left to the caller. */
    method ReadEntry(width: nat) returns (entry: Entry)
      requires !hasError && width <= 64 && forall k :: 0 <= k < |abbrevs| ==> WidthsOk(abbrevs[k])
      modifies this`bitPos, this`hasError, this`record, this`blob, this`abbrevs
      ensures EntryAt(Stream(), old(bitPos), width, old(abbrevs)) == None ==> hasError && abbrevs == old(abbrevs)
      ensures EntryAt(Stream(), old(bitPos), width, old(abbrevs)).Some? ==>
                && !hasError && entry == EntryAt(Stream(), old(bitPos), width, old(abbrevs)).value
                && bitPos == (if entry.Found? then entry.record.pos else entry.pos)
                && abbrevs == old(abbrevs) + if entry.Definition? then [entry.ops] else []
    {
      hide FixedAt, SkipAt, AbbrevAt, RecordAt, WidthsOk;
      entry := End(bitPos);
      var v := ReadFixed(width);
      if hasError {
        return;
      }
      var id := v % UINT32;
      if id == END_BLOCK {
        Align32();
        entry := End(bitPos);
      } else if id == ENTER_BLOCK {
        SkipBlock();
        entry := Skipped(bitPos);
      } else if id == DEFINE {
        ReadDefineAbbrev();
        if !hasError {
          entry := Definition(abbrevs[|abbrevs| - 1], bitPos);
        }
      } else {
        var code := ReadRecord(id);
        entry := Found(Record(code, record, blob, bitPos));
      }
    }
  }

  lemma {:induction false} OneWidth(ops: Abbrev, i: nat)
    requires WidthsOk(ops) && i < |ops|
    ensures WidthsOk([ops[i]]) && (ops[i].VbrOp? ==> ops[i].width >= 1)
  {
  }

  lemma {:induction false} VbrOverrun(bits: Bits, pos: nat, w: nat, val: nat, shift: nat)
    requires w >= 1 && shift <= 63
    ensures FixedAt(bits, pos, w) == None ==> VbrFrom(bits, pos, w, val, shift) == None
  {
    hide FixedAt, Pow2;
  }

  lemma {:induction false} VbrUnfold(bits: Bits, pos: nat, w: nat, val: nat, shift: nat)
    requires w >= 1 && shift <= 63 && FixedAt(bits, pos, w).Some?
    ensures var (chunk, next) := FixedAt(bits, pos, w).value;
      var hi := Pow2(w - 1);
      var val' := val + (chunk % hi) % Pow2(64 - shift) * Pow2(shift);
      VbrFrom(bits, pos, w, val, shift) ==
        if chunk < hi then Some((val', next))
        else if shift + w - 1 > 63 then None
        else VbrFrom(bits, next, w, val', shift + w - 1)
  {
    hide FixedAt, Pow2;
  }

  /** What or-ing a chunk in does to the value still to be read. */
  lemma {:induction false} TakeChunk(bits: Bits, pos: nat, w: nat, val: nat, shift: nat, chunk: nat)
    requires 1 <= w <= 64 && shift <= 63 && val < Pow2(shift) && chunk < Pow2(w)
    requires FixedAt(bits, pos, w) == Some((chunk, pos + w))
    ensures var hi := Pow2(w - 1); var val' := BitOr(val, BitAnd(chunk, hi - 1) * Pow2(shift) % Pow2(64));
      && val' < Pow2(shift + w - 1)
      && (chunk / hi % 2 == 0 ==> VbrFrom(bits, pos, w, val, shift) == Some((val', pos + w)))
      && (chunk / hi % 2 != 0 ==>
            VbrFrom(bits, pos, w, val, shift)
              == if shift + w - 1 > 63 then None else VbrFrom(bits, pos + w, w, val', shift + w - 1))
  {
    hide FixedAt, Pow2, BitAnd, BitOr, VbrFrom;
    AddChunk(val, chunk, w, shift);
    VbrUnfold(bits, pos, w, val, shift);
  }

  lemma {:induction false} FixedProgress(bits: Bits, pos: nat, w: nat)
    requires w > 0 && FixedAt(bits, pos, w).Some?
    ensures FixedAt(bits, pos, w).value.0 < Pow2(w) && FixedAt(bits, pos, w).value.1 == pos + w <= |bits|
  {
    ValueBound(bits[pos..pos + w]);
  }

  lemma {:induction false} NoBits(s: Bits)
    requires s == []
    ensures Value(s) == 0
  {
  }

  lemma {:induction false} ValueStep(s: Bits, pos: nat, i: nat)
    requires pos + i < |s|
    ensures Value(s[pos..pos + i + 1]) == Value(s[pos..pos + i]) + if s[pos + i] then Pow2(i) else 0
  {
    var t := s[pos..pos + i + 1];
    assert t[..|t| - 1] == s[pos..pos + i];
  }

  /** Bit k of the stream is bit k % 8 of byte k / 8. */
  lemma {:induction false} BitOfBytes(data: seq<Byte>, k: nat)
    requires k < 8 * |data|
    ensures ByteBits(data)[k] <==> data[k / 8] / Pow2(k % 8) % 2 == 1
    decreases |data|
  {
    hide Fixed, Pow2;
    if k < 8 {
      BitOfFixed(data[0], 8, k);
      SmallMod(k, 8);
    } else {
      BitOfBytes(data[1..], k - 8);
      ModShift(k - 8, 1, 8);
      assert ByteBits(data)[k] == ByteBits(data[1..])[k - 8];
      assert (k - 8) / 8 == k / 8 - 1 && data[1..][k / 8 - 1] == data[k / 8];
    }
  }

  lemma {:induction false} BitOfFixed(v: nat, w: nat, k: nat)
    requires k < w
    ensures Fixed(v, w)[k] <==> v / Pow2(k) % 2 == 1
    decreases w
  {
    if k < w - 1 {
      BitOfFixed(v, w - 1, k);
    }
  }

  /** Masking, shifting and or-ing a chunk in is adding the bits of it that fit. */
  lemma {:induction false} AddChunk(val: nat, chunk: nat, w: nat, shift: nat)
    requires 1 <= w <= 64 && shift <= 63 && val < Pow2(shift) && chunk < Pow2(w)
    ensures var hi := Pow2(w - 1); var low := (chunk % hi) % Pow2(64 - shift);
      && BitOr(val, BitAnd(chunk, hi - 1) * Pow2(shift) % Pow2(64)) == val + low * Pow2(shift)
      && val + low * Pow2(shift) < Pow2(shift + w - 1)
      && (chunk / hi % 2 == 0 <==> chunk < hi)
  {
    hide Pow2, BitAnd, BitOr;
    var hi := Pow2(w - 1);
    var x := chunk % hi;
    var room := Pow2(64 - shift);
    PowDouble(w - 1);
    BitAndMask(chunk, w - 1);
    Pow2Add(shift, 64 - shift);
    assert shift + (64 - shift) == 64;
    Pow2Monotone(w - 1, 64);
    ShiftOut(x, Pow2(shift), room, Pow2(64));
    BitOrDisjoint(x % room, val, shift);
    Pow2Add(shift, w - 1);
    LowPart(x, room, val, Pow2(shift), hi);
    TopBit(chunk, hi);
  }

  lemma {:induction false} LowPart(x: nat, room: nat, val: nat, p: nat, hi: nat)
    requires room > 0 && val < p && x < hi
    ensures val + (x % room) * p < p * hi
  {
    assert x % room <= x by {
      assert x == (x / room) * room + x % room;
      MulMonotone(0, x / room, room);
    }
    MulMonotone(x % room + 1, hi, p);
    assert (x % room + 1) * p == (x % room) * p + p;
  }

  lemma {:induction false} TopBit(chunk: nat, hi: nat)
    requires hi > 0 && chunk < 2 * hi
    ensures chunk / hi % 2 == 0 <==> chunk < hi
  {
    if chunk < hi {
      SmallMod(chunk, hi);
    } else {
      DivModUnique(chunk, hi, 1, chunk - hi);
    }
  }
}
