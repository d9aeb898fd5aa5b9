/** Header field representations (section 6 of RFC 7541): what an encoder writes for one
    field or one block, and what a decoder makes of any bytes. */
module HpackCodec {
  import opened Bytes
  import opened HpackTable
  import opened HpackIndex
  import HpackInteger
  import HpackString

  datatype Hint = Index | WithoutIndex | NeverIndex

  // ---- encoding ------------------------------------------------------------

  function IndexedField(idx: nat): (r: seq<byte>)
    ensures |r| > 0
  {
    HpackInteger.PrefixBounds(7);
    HpackInteger.Flagged(0x80, idx, 7)
  }

  function SizeUpdate(size: nat): (r: seq<byte>)
    ensures |r| > 0
  {
    HpackInteger.PrefixBounds(7);
    HpackInteger.Flagged(0x20, size, 5)
  }

  /** The index part of a literal: a name's index, or 0 when the name is spelled out. */
  function LiteralHead(hint: Hint, nameIdx: Option<nat>): (r: seq<byte>)
    ensures |r| > 0
  {
    HpackInteger.PrefixBounds(7);
    var idx := if nameIdx.Some? then nameIdx.value else 0;
    match hint
    case Index => HpackInteger.Flagged(0x40, idx, 6)
    case WithoutIndex => HpackInteger.Flagged(0x00, idx, 4)
    case NeverIndex => HpackInteger.Flagged(0x10, idx, 4)
  }

  ghost function Literal(f: Field, hint: Hint, nameIdx: Option<nat>): seq<byte> {
    LiteralHead(hint, nameIdx)
    + (if nameIdx.None? then HpackString.Encoded(f.name) else [])
    + HpackString.Encoded(f.value)
  }

  ghost function FieldBytes(t: Table, f: Field, hint: Hint): seq<byte> {
    match FirstFull(Space(t.entries), f)
    case Some(idx) => IndexedField(idx)
    case None => Literal(f, hint, FirstName(Space(t.entries), f.name))
  }

  /** The table after a field: only a literal marked for indexing enters it. */
  function AfterField(t: Table, f: Field, hint: Hint): Table {
    if FirstFull(Space(t.entries), f).None? && hint == Index then Inserted(t, f) else t
  }

  ghost function FieldsBytes(t: Table, fields: seq<Field>, hints: seq<Hint>): seq<byte>
    requires |hints| == |fields|
    decreases |fields|
  {
    if fields == [] then []
    else FieldBytes(t, fields[0], hints[0]) + FieldsBytes(AfterField(t, fields[0], hints[0]), fields[1..], hints[1..])
  }

  function AfterFields(t: Table, fields: seq<Field>, hints: seq<Hint>): Table
    requires |hints| == |fields|
    decreases |fields|
  {
    if fields == [] then t else AfterFields(AfterField(t, fields[0], hints[0]), fields[1..], hints[1..])
  }

  /** The encoder between blocks: its table and the size it has still to announce. */
  datatype Encoder = Encoder(table: Table, pending: Option<nat>)

  function NewEncoder(tableSize: nat): Encoder {
    Encoder(EmptyTable(tableSize), None)
  }

  function SetTableSize(e: Encoder, size: nat): Encoder {
    var clamped := if size <= e.table.maxCapacity then size else e.table.maxCapacity;
    Encoder(Resized(e.table, clamped), Some(clamped))
  }

  ghost function BlockBytes(e: Encoder, fields: seq<Field>, hints: seq<Hint>): seq<byte>
    requires |hints| == |fields|
  {
    (if e.pending.Some? then SizeUpdate(e.pending.value) else []) + FieldsBytes(e.table, fields, hints)
  }

  function AfterBlock(e: Encoder, fields: seq<Field>, hints: seq<Hint>): Encoder
    requires |hints| == |fields|
  {
    Encoder(AfterFields(e.table, fields, hints), None)
  }

  /** The default policy: sensitive fields are never indexed, all others are. */
  function DefaultHints(sensitive: Field -> bool, fields: seq<Field>): (hints: seq<Hint>)
    ensures |hints| == |fields|
  {
    seq(|fields|, i requires 0 <= i < |fields| => if sensitive(fields[i]) then NeverIndex else Index)
  }

  // ---- decoding ------------------------------------------------------------

  ghost function DecodeLiteral(bytes: seq<byte>, prefixBits: nat, entries: seq<Field>)
    : (r: Result<(Field, nat), HpackError>)
    requires 1 <= prefixBits <= 8
    ensures r.Ok? ==> 1 <= r.value.1 <= |bytes|
  {
    match HpackInteger.Decode(bytes, prefixBits)
    case Err(e) => Err(e)
    case Ok((idx, pos)) =>
      match LiteralName(bytes, idx, pos, entries)
      case Err(e) => Err(e)
      case Ok((name, pos')) =>
        match HpackString.Decoded(bytes[pos'..])
        case Err(e) => Err(e)
        case Ok((value, used)) => Ok((Field(name, value), pos' + used))
  }

  ghost function LiteralName(bytes: seq<byte>, idx: nat, pos: nat, entries: seq<Field>)
    : (r: Result<(seq<byte>, nat), HpackError>)
    requires 1 <= pos <= |bytes|
    ensures r.Ok? ==> pos <= r.value.1 <= |bytes|
  {
    if idx == 0 then
      match HpackString.Decoded(bytes[pos..])
      case Err(e) => Err(e)
      case Ok((name, used)) => Ok((name, pos + used))
    else
      match Resolve(idx, entries)
      case Err(e) => Err(e)
      case Ok(f) => Ok((f.name, pos))
  }

  /** What one instruction does: `used` bytes consumed, the table after it, a field or none. */
  datatype Instruction =
    | Bad(error: HpackError)
    | Update(used: nat, table: Table)
    | Read(field: Field, used: nat, table: Table)

  ghost function DecodeOne(t: Table, bytes: seq<byte>, allowUpdate: bool): (r: Instruction)
    requires |bytes| > 0
    ensures !r.Bad? ==> 1 <= r.used <= |bytes|
  {
    var b := bytes[0];
    if b >= 0x80 then
      match HpackInteger.Decode(bytes, 7)
      case Err(e) => Bad(e)
      case Ok((idx, used)) =>
        match Resolve(idx, t.entries)
        case Err(e) => Bad(e)
        case Ok(f) => Read(f, used, t)
    else if b >= 0x40 then
      match DecodeLiteral(bytes, 6, t.entries)
      case Err(e) => Bad(e)
      case Ok((f, used)) => Read(f, used, Inserted(t, f))
    else if b >= 0x20 then
      if !allowUpdate then Bad(UnexpectedTableSizeUpdate)
      else
        match HpackInteger.Decode(bytes, 5)
        case Err(e) => Bad(e)
        case Ok((size, used)) =>
          if size > t.maxCapacity then Bad(TableSizeExceeded(size, t.maxCapacity))
          else Update(used, Resized(t, size))
    else
      match DecodeLiteral(bytes, 4, t.entries)
      case Err(e) => Bad(e)
      case Ok((f, used)) => Read(f, used, t)
  }

  /** A whole block: the list or the first error, and the table it leaves either way. */
  datatype Outcome = Outcome(result: Result<seq<Field>, HpackError>, table: Table)

  function Prepend(front: seq<Field>, o: Outcome): Outcome {
    if o.result.Ok? then o.(result := Ok(front + o.result.value)) else o
  }

  ghost function DecodeFrom(t: Table, bytes: seq<byte>, allowUpdate: bool, total: nat, limit: nat): Outcome
    decreases |bytes|
  {
    if bytes == [] then Outcome(Ok([]), t)
    else
      match DecodeOne(t, bytes, allowUpdate)
      case Bad(e) => Outcome(Err(e), t)
      case Update(used, t') => DecodeFrom(t', bytes[used..], allowUpdate, total, limit)
      case Read(f, used, t') =>
        var total' := total + EntrySize(f);
        if total' > limit then Outcome(Err(HeaderListTooLarge(limit)), t')
        else Prepend([f], DecodeFrom(t', bytes[used..], false, total', limit))
  }

  ghost function DecodeBlock(t: Table, bytes: seq<byte>, limit: nat): Outcome {
    DecodeFrom(t, bytes, true, 0, limit)
  }

  // ---- every byte string, accepted or rejected -----------------------------

  /** The decoder's table never leaves its invariant, and no list exceeds the budget. */
  lemma {:induction false} DecodeFromSound(t: Table, bytes: seq<byte>, allowUpdate: bool, total: nat, limit: nat)
    requires t.Sound()
    ensures var o := DecodeFrom(t, bytes, allowUpdate, total, limit);
      && o.table.Sound() && o.table.maxCapacity == t.maxCapacity
      && (o.result.Ok? && total <= limit ==> total + SizeOf(o.result.value) <= limit)
    decreases |bytes|
  {
    hide DecodeLiteral, Resolve, HpackInteger.Decode, Space;
    if bytes != [] {
      match DecodeOne(t, bytes, allowUpdate)
      case Bad(e) =>
      case Update(used, t') =>
        ResizedSound(t, t'.capacity);
        DecodeFromSound(t', bytes[used..], allowUpdate, total, limit);
      case Read(f, used, t') =>
        InsertedSound(t, f);
        if total + EntrySize(f) <= limit {
          DecodeFromSound(t', bytes[used..], false, total + EntrySize(f), limit);
          var rest := DecodeFrom(t', bytes[used..], false, total + EntrySize(f), limit);
          if rest.result.Ok? {
            SizeOfConcat([f], rest.result.value);
            assert SizeOf([f]) == EntrySize(f);
          }
        }
    }
  }

  /** For every byte string: table size = sum of entry sizes <= capacity <= ceiling, and any
      list returned is within the budget. */
  lemma DecodeBlockSound(t: Table, bytes: seq<byte>, limit: nat)
    requires t.Sound()
    ensures DecodeBlock(t, bytes, limit).table.Sound()
    ensures DecodeBlock(t, bytes, limit).table.maxCapacity == t.maxCapacity
    ensures var r := DecodeBlock(t, bytes, limit).result; r.Ok? ==> SizeOf(r.value) <= limit
  {
    DecodeFromSound(t, bytes, true, 0, limit);
  }
}
