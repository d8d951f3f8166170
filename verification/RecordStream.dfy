/**
 A block's stream of definitions and records: written with the ids of the format and read back
 entry by entry, each record by the definition its id stands for (LLVM Bitcode File Format,
 "Abbreviation IDs").
 */
module RecordStream {
  import opened Wrappers
  import opened Numbers
  import opened Bitstream
  import opened BitReader

  /** What is written: a definition, a record for the k-th definition so far, or a record without
      abbreviation. */
  datatype Written =
    | Define(ops: Abbrev)
    | Abbreviated(k: nat, items: seq<Item>)
    | Plain(code: nat, values: seq<nat>)

  predicate Usable(ops: Abbrev) {
    && 0 < |ops| < UINT32 && WidthsOk(ops)
    && forall i :: 0 <= i < |ops| ==> OpFits(ops[i])
  }

  predicate Writable(x: Written, width: nat, defs: seq<Abbrev>) {
    match x
    case Define(ops) => Usable(ops)
    case Abbreviated(k, items) => k < |defs| && 4 + k < Pow2(width) && Encodable(defs[k], 0, items)
    case Plain(code, values) =>
      code < UINT32 && |values| < UINT32 && forall i :: 0 <= i < |values| ==> values[i] < Pow2(64)
  }

  function Defined(x: Written, defs: seq<Abbrev>): seq<Abbrev> {
    if x.Define? then defs + [x.ops] else defs
  }

  predicate AllUsable(defs: seq<Abbrev>) {
    forall k :: 0 <= k < |defs| ==> Usable(defs[k])
  }

  predicate AllWritable(xs: seq<Written>, width: nat, defs: seq<Abbrev>) {
    xs == [] || (Writable(xs[0], width, defs) && AllWritable(xs[1..], width, Defined(xs[0], defs)))
  }

  /** Ids: 2 announces a definition, 3 a record without abbreviation, and 4 is the first
      definition. */
  function EntryBits(pos: nat, x: Written, width: nat, defs: seq<Abbrev>): Bits
    requires Writable(x, width, defs)
  {
    match x
    case Define(ops) => Fixed(2, width) + AbbrevBits(ops)
    case Abbreviated(k, items) => Fixed(4 + k, width) + ItemBits(pos + width, defs[k], 0, items)
    case Plain(code, values) => Fixed(3, width) + UnabbreviatedBits(code, values)
  }

  function StreamBits(pos: nat, xs: seq<Written>, width: nat, defs: seq<Abbrev>): Bits
    requires AllWritable(xs, width, defs)
    decreases |xs|
  {
    if xs == [] then []
    else
      var first := EntryBits(pos, xs[0], width, defs);
      first + StreamBits(pos + |first|, xs[1..], width, Defined(xs[0], defs))
  }

  /** The entry says what was written, and ends at pos. */
  predicate Says(bits: Bits, e: Entry, x: Written, defs: seq<Abbrev>, pos: nat)
    requires x.Abbreviated? ==> x.k < |defs| && Encodable(defs[x.k], 0, x.items)
  {
    match x
    case Define(ops) => e == Definition(ops, pos)
    case Abbreviated(k, items) =>
      && e.Found? && items != [] && items[0].One? && e.record.code == items[0].value && e.record.pos == pos
      && e.record.fields == ItemFields(defs[k], 0, items)
      && BlobIs(bits, e.record.blob, LastBlob(defs[k], 0, items, None))
    case Plain(code, values) => e == Found(Record(code, Marked(values, false), None, pos))
  }

  lemma {:induction false} IdRead(bits: Bits, pos: nat, id: nat, width: nat, rest: Bits)
    requires At(bits, pos, Fixed(id, width) + rest) && id < Pow2(width) && width <= 32
    ensures FixedAt(bits, pos, width) == Some((id, pos + width)) && id % UINT32 == id
    ensures At(bits, pos + width, rest)
  {
    AtSplit(bits, pos, Fixed(id, width), rest);
    FixedRead(bits, pos, id, width);
    assert Pow2(32) == UINT32 by {
      Pow2Values();
    }
    Pow2Monotone(width, 32);
    SmallMod(id, UINT32);
  }

  lemma {:induction false} SmallIds(width: nat)
    requires width >= 2
    ensures 3 < Pow2(width)
  {
    assert Pow2(2) == 4;
    Pow2Monotone(2, width);
  }

  /** An entry is read back as it was written. */
  lemma {:induction false} EntryRoundTrip(bits: Bits, pos: nat, x: Written, width: nat, defs: seq<Abbrev>)
    requires 2 <= width <= 32 && AllUsable(defs) && Writable(x, width, defs)
    requires At(bits, pos, EntryBits(pos, x, width, defs))
    ensures EntryAt(bits, pos, width, defs).Some?
    ensures Says(bits, EntryAt(bits, pos, width, defs).value, x, defs, pos + |EntryBits(pos, x, width, defs)|)
  {
    hide Pow2, At, FixedAt, AbbrevAt, AbbrevBits, ItemBits, UnabbreviatedBits, UnabbreviatedAt, AbbreviatedAt,
         Encodable, ItemFields, LastBlob, BlobIs;
    SmallIds(width);
    match x {
      case Define(ops) =>
        IdRead(bits, pos, 2, width, AbbrevBits(ops));
        AbbrevRoundTrip(bits, pos + width, ops);
      case Abbreviated(k, items) =>
        IdRead(bits, pos, 4 + k, width, ItemBits(pos + width, defs[k], 0, items));
        AbbreviatedRoundTrip(bits, pos + width, defs[k], items);
      case Plain(code, values) =>
        IdRead(bits, pos, 3, width, UnabbreviatedBits(code, values));
        UnabbreviatedRoundTrip(bits, pos + width, code, values);
    }
  }

  predicate AllWidthsOk(defs: seq<Abbrev>) {
    forall k :: 0 <= k < |defs| ==> WidthsOk(defs[k])
  }

  /** Reading entry after entry, as ReadEntry does, the definitions being added at the end. */
  function EntriesAt(bits: Bits, pos: nat, n: nat, width: nat, defs: seq<Abbrev>): Option<seq<Entry>>
    requires AllWidthsOk(defs)
    decreases n
  {
    if n == 0 then Some([])
    else
      match EntryAt(bits, pos, width, defs)
      case None => None
      case Some(e) =>
        if e.Definition? && !WidthsOk(e.ops) then None
        else
          var next := if e.Found? then e.record.pos else e.pos;
          match EntriesAt(bits, next, n - 1, width, defs + if e.Definition? then [e.ops] else [])
          case None => None
          case Some(es) => Some([e] + es)
  }

  /** The entries say what was written, in order. */
  predicate AllSay(bits: Bits, es: seq<Entry>, pos: nat, xs: seq<Written>, width: nat, defs: seq<Abbrev>)
    requires AllWritable(xs, width, defs)
    decreases |xs|
  {
    && |es| == |xs|
    && (xs != [] ==>
          var next := pos + |EntryBits(pos, xs[0], width, defs)|;
          Says(bits, es[0], xs[0], defs, next) && AllSay(bits, es[1..], next, xs[1..], width, Defined(xs[0], defs)))
  }

  lemma {:induction false} FirstEntry(bits: Bits, pos: nat, n: nat, width: nat, defs: seq<Abbrev>, x: Written,
                                      e: Entry, next: nat, es: seq<Entry>)
    requires AllUsable(defs) && Writable(x, width, defs) && AllWidthsOk(defs) && AllWidthsOk(Defined(x, defs))
    requires EntryAt(bits, pos, width, defs) == Some(e) && Says(bits, e, x, defs, next)
    requires EntriesAt(bits, next, n, width, Defined(x, defs)) == Some(es)
    ensures EntriesAt(bits, pos, n + 1, width, defs) == Some([e] + es)
  {
    hide EntryAt, Encodable, ItemFields, LastBlob, BlobIs, AllUsable;
    assert Defined(x, defs) == defs + if e.Definition? then [e.ops] else [];
  }

  lemma {:induction false} FirstSays(bits: Bits, pos: nat, xs: seq<Written>, width: nat, defs: seq<Abbrev>, e: Entry,
                                     es: seq<Entry>)
    requires xs != [] && AllWritable(xs, width, defs)
    requires var next := pos + |EntryBits(pos, xs[0], width, defs)|;
      Says(bits, e, xs[0], defs, next) && AllSay(bits, es, next, xs[1..], width, Defined(xs[0], defs))
    ensures AllSay(bits, [e] + es, pos, xs, width, defs)
  {
    hide Says, EntryBits, Writable;
    assert ([e] + es)[1..] == es;
  }

  /** Any stream of definitions and records is read back, wherever it stands: every record with
      the code, fields and blob it was written with, by the definition its id stands for. */
  lemma {:induction false} StreamRoundTrip(bits: Bits, pos: nat, xs: seq<Written>, width: nat, defs: seq<Abbrev>)
    requires 2 <= width <= 32 && AllUsable(defs) && AllWritable(xs, width, defs)
    requires At(bits, pos, StreamBits(pos, xs, width, defs))
    ensures AllWidthsOk(defs) && EntriesAt(bits, pos, |xs|, width, defs).Some?
    ensures AllSay(bits, EntriesAt(bits, pos, |xs|, width, defs).value, pos, xs, width, defs)
    decreases |xs|
  {
    hide Pow2, At, EntryAt, EntryBits, Usable, Writable, AllUsable, Says, Encodable, WidthsOk;
    UsableWidths(defs);
    if xs != [] {
      var first := EntryBits(pos, xs[0], width, defs);
      var defs' := Defined(xs[0], defs);
      AtSplit(bits, pos, first, StreamBits(pos + |first|, xs[1..], width, defs'));
      EntryRoundTrip(bits, pos, xs[0], width, defs);
      DefinedUsable(xs[0], width, defs);
      StreamRoundTrip(bits, pos + |first|, xs[1..], width, defs');
      UsableWidths(defs');
      var e := EntryAt(bits, pos, width, defs).value;
      var es := EntriesAt(bits, pos + |first|, |xs| - 1, width, defs').value;
      FirstEntry(bits, pos, |xs| - 1, width, defs, xs[0], e, pos + |first|, es);
      FirstSays(bits, pos, xs, width, defs, e, es);
    }
  }

  lemma {:induction false} UsableWidths(defs: seq<Abbrev>)
    requires AllUsable(defs)
    ensures AllWidthsOk(defs)
  {
  }

  lemma {:induction false} DefinedUsable(x: Written, width: nat, defs: seq<Abbrev>)
    requires AllUsable(defs) && Writable(x, width, defs)
    ensures AllUsable(Defined(x, defs)) && (x.Define? ==> Usable(x.ops))
  {
    hide Usable, Encodable;
  }
}
