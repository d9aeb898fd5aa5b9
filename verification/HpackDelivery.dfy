/** One block from an encoder to a decoder whose tables may have come apart: exactly when the
    list arrives. */
module HpackDelivery {
  import opened Bytes
  import opened HpackTable
  import opened HpackIndex
  import opened HpackCodec
  import HpackInteger
  import HpackString
  import Utf8

  /** A field whose strings are text of a length that is announced rightly. */
  ghost predicate Spelled(f: Field) {
    && Utf8.Valid(f.name) && |f.name| < HpackString.LONGEST && !HpackString.Misannounced(f.name)
    && Utf8.Valid(f.value) && |f.value| < HpackString.LONGEST && !HpackString.Misannounced(f.value)
  }

  ghost predicate SpelledAll(fields: seq<Field>) {
    forall i :: 0 <= i < |fields| ==> Spelled(fields[i])
  }

  // ---- tables of a common history ------------------------------------------

  predicate Comparable(a: seq<Field>, b: seq<Field>) {
    a <= b || b <= a
  }

  /** Two tables of which one holds what the other holds and perhaps older entries; their
      capacities and ceilings may differ. */
  ghost predicate Akin(te: Table, td: Table) {
    && te.Sound() && td.Sound()
    && te.maxCapacity <= USIZE_MAX && td.maxCapacity <= USIZE_MAX
    && Comparable(te.entries, td.entries)
  }

  lemma InsertedAkin(te: Table, td: Table, f: Field)
    requires Akin(te, td)
    ensures Akin(Inserted(te, f), Inserted(td, f))
  {
    InsertedSound(te, f);
    InsertedSound(td, f);
    var longer := [f] + (if te.entries <= td.entries then td.entries else te.entries);
    FitIsLongestPrefix([f] + te.entries, te.capacity);
    FitIsLongestPrefix([f] + td.entries, td.capacity);
    PrefixesCompare(Inserted(te, f).entries, Inserted(td, f).entries, longer);
  }

  lemma PrefixesCompare(a: seq<Field>, b: seq<Field>, whole: seq<Field>)
    requires a <= whole && b <= whole
    ensures Comparable(a, b)
  {
    assert a == whole[..|a|] && b == whole[..|b|];
    assert |a| <= |b| ==> a == b[..|a|];
    assert |b| <= |a| ==> b == a[..|b|];
  }

  /** Cutting either table shorter keeps them comparable. */
  lemma CutsCompare(a: seq<Field>, b: seq<Field>, c: seq<Field>)
    requires Comparable(a, b) && c <= b
    ensures Comparable(a, c) && Comparable(c, a)
  {
    if a <= b {
      PrefixesCompare(a, c, b);
    }
  }

  lemma {:induction false} EntriesCost(entries: seq<Field>)
    ensures ENTRY_OVERHEAD * |entries| <= SizeOf(entries)
  {
    if entries != [] {
      EntriesCost(entries[..|entries| - 1]);
    }
  }

  // ---- one field -----------------------------------------------------------

  /** The index that a field's encoding refers to: of the whole field, else of its name, else 0. */
  function IndexUsed(te: Table, f: Field): nat {
    match FirstFull(Space(te.entries), f)
    case Some(i) => i
    case None =>
      match FirstName(Space(te.entries), f.name)
      case Some(i) => i
      case None => 0
  }

  /** An index of the encoder means the same to the decoder as far as the decoder's table goes. */
  lemma IndexMeans(te: Table, td: Table, idx: nat)
    requires Akin(te, td) && 1 <= idx <= |Space(te.entries)|
    ensures idx <= USIZE_MAX
    ensures Resolve(idx, td.entries) ==
      if idx <= 61 + |td.entries| then Ok(Space(te.entries)[idx - 1]) else Err(InvalidIndex(idx))
  {
    hide StaticTable;
    EntriesCost(te.entries);
    var a, b := Space(te.entries), Space(td.entries);
    assert te.entries <= td.entries ==> a <= b;
    assert td.entries <= te.entries ==> b <= a;
  }

  lemma IndexedDelivers(te: Table, td: Table, idx: nat, rest: seq<byte>, allow: bool)
    requires Akin(te, td) && 1 <= idx <= |Space(te.entries)|
    ensures DecodeOne(td, IndexedField(idx) + rest, allow) ==
      if idx <= 61 + |td.entries| then Read(Space(te.entries)[idx - 1], |IndexedField(idx)|, td)
      else Bad(InvalidIndex(idx))
  {
    hide Space, Resolve;
    HpackInteger.PrefixBounds(7);
    IndexMeans(te, td, idx);
    HpackInteger.DecodeEncoded(0x80, idx, 7, rest);
  }

  function HeadFlags(hint: Hint): (nat, nat) {
    match hint
    case Index => (0x40, 6)
    case WithoutIndex => (0x00, 4)
    case NeverIndex => (0x10, 4)
  }

  predicate NamedAt(te: Table, f: Field, nameIdx: Option<nat>) {
    nameIdx.Some? ==>
      1 <= nameIdx.value <= |Space(te.entries)| && Space(te.entries)[nameIdx.value - 1].name == f.name
  }

  lemma LiteralDelivers(te: Table, td: Table, f: Field, hint: Hint, nameIdx: Option<nat>, rest: seq<byte>)
    requires Akin(te, td) && NamedAt(te, f, nameIdx) && Spelled(f)
    ensures DecodeLiteral(Literal(f, hint, nameIdx) + rest, HeadFlags(hint).1, td.entries) ==
      if nameIdx.Some? && nameIdx.value > 61 + |td.entries| then Err(InvalidIndex(nameIdx.value))
      else Ok((f, |Literal(f, hint, nameIdx)|))
  {
    hide Space, Resolve, HpackString.Encoded, HpackString.Decoded, HpackString.Misannounced, HpackInteger.Decode,
      HpackInteger.Flagged, Utf8.Valid;
    var (flags, prefixBits) := HeadFlags(hint);
    var idx := if nameIdx.Some? then nameIdx.value else 0;
    var head, value := LiteralHead(hint, nameIdx), HpackString.Encoded(f.value);
    var name := if nameIdx.None? then HpackString.Encoded(f.name) else [];
    var bytes := Literal(f, hint, nameIdx) + rest;
    if nameIdx.Some? {
      IndexMeans(te, td, idx);
    }
    HpackInteger.PrefixBounds(7);
    HpackInteger.DecodeEncoded(flags, idx, prefixBits, name + value + rest);
    assert bytes == head + (name + value + rest);
    HpackString.DecodeEncodedIff(f.value, rest);
    assert bytes[|head| + |name|..] == value + rest;
    if nameIdx.None? {
      HpackString.DecodeEncodedIff(f.name, value + rest);
      assert bytes[|head|..] == name + (value + rest);
    }
  }

  /** The first byte tells the decoder which literal it is. */
  lemma LiteralDispatch(td: Table, f: Field, hint: Hint, nameIdx: Option<nat>, rest: seq<byte>, allow: bool)
    ensures |Literal(f, hint, nameIdx)| > 0
    ensures var r := DecodeLiteral(Literal(f, hint, nameIdx) + rest, HeadFlags(hint).1, td.entries);
      DecodeOne(td, Literal(f, hint, nameIdx) + rest, allow) ==
        if r.Err? then Bad(r.error)
        else Read(r.value.0, r.value.1, if hint == Index then Inserted(td, r.value.0) else td)
  {
    hide DecodeLiteral, HpackString.Encoded, HpackInteger.Decode, Inserted, Resolve;
    HpackInteger.PrefixBounds(7);
    var bytes := Literal(f, hint, nameIdx) + rest;
    assert bytes[0] == LiteralHead(hint, nameIdx)[0];
  }

  /** The decoder's table after a field: it inserts what the encoder did not find in its own. */
  function Follow(te: Table, td: Table, f: Field, hint: Hint): Table {
    if FirstFull(Space(te.entries), f).None? && hint == Index then Inserted(td, f) else td
  }

  function FollowAll(te: Table, td: Table, fields: seq<Field>, hints: seq<Hint>): Table
    requires |hints| == |fields|
    decreases |fields|
  {
    if fields == [] then td
    else FollowAll(AfterField(te, fields[0], hints[0]), Follow(te, td, fields[0], hints[0]), fields[1..], hints[1..])
  }

  lemma {:induction false} FollowSelf(t: Table, fields: seq<Field>, hints: seq<Hint>)
    requires |hints| == |fields|
    ensures FollowAll(t, t, fields, hints) == AfterFields(t, fields, hints)
    decreases |fields|
  {
    hide FirstFull, Space, Inserted;
    if fields != [] {
      FollowSelf(AfterField(t, fields[0], hints[0]), fields[1..], hints[1..]);
    }
  }

  /** One field: read back exactly when the decoder knows the index it refers to; the tables
      stay akin. */
  lemma FieldDeliversIff(te: Table, td: Table, f: Field, hint: Hint, rest: seq<byte>, allow: bool)
    requires Akin(te, td) && Spelled(f)
    ensures |FieldBytes(te, f, hint)| > 0
    ensures DecodeOne(td, FieldBytes(te, f, hint) + rest, allow) ==
      if IndexUsed(te, f) <= 61 + |td.entries| then Read(f, |FieldBytes(te, f, hint)|, Follow(te, td, f, hint))
      else Bad(InvalidIndex(IndexUsed(te, f)))
    ensures Akin(AfterField(te, f, hint), Follow(te, td, f, hint))
  {
    hide DecodeOne, DecodeLiteral, Literal, IndexedField, Space, FirstFull, FirstName, Spelled, Fit, SizeOf, Akin,
      Inserted;
    var found := FirstFull(Space(te.entries), f);
    if found.Some? {
      IndexedDelivers(te, td, found.value, rest, allow);
    } else {
      var nameIdx := FirstName(Space(te.entries), f.name);
      LiteralDelivers(te, td, f, hint, nameIdx, rest);
      LiteralDispatch(td, f, hint, nameIdx, rest, allow);
      if hint == Index {
        InsertedAkin(te, td, f);
      }
    }
  }

  // ---- one block -----------------------------------------------------------

  /** At each field of a block the decoder's table reaches as far as the index used. */
  predicate Known(te: Table, td: Table, fields: seq<Field>, hints: seq<Hint>)
    requires |hints| == |fields|
    decreases |fields|
  {
    fields == [] ||
    (IndexUsed(te, fields[0]) <= 61 + |td.entries| &&
     Known(AfterField(te, fields[0], hints[0]), Follow(te, td, fields[0], hints[0]), fields[1..], hints[1..]))
  }

  lemma {:induction false} FieldsDeliverIff(
      te: Table, td: Table, fields: seq<Field>, hints: seq<Hint>, allow: bool, total: nat, limit: nat)
    requires Akin(te, td) && |hints| == |fields| && SpelledAll(fields) && total <= limit
    ensures var o := DecodeFrom(td, FieldsBytes(te, fields, hints), allow, total, limit);
      if Known(te, td, fields, hints) && total + SizeOf(fields) <= limit
      then o == HpackCodec.Outcome(Ok(fields), FollowAll(te, td, fields, hints))
      else o.result.Err? && (Known(te, td, fields, hints) ==> o.result == Err(HeaderListTooLarge(limit)))
    decreases |fields|
  {
    hide DecodeOne, FieldBytes, AfterField, Follow, IndexUsed, Spelled, Akin;
    if fields != [] {
      var f, hint := fields[0], hints[0];
      assert fields == [f] + fields[1..];
      SizeOfConcat([f], fields[1..]);
      assert SizeOf([f]) == EntrySize(f);
      var te', td' := AfterField(te, f, hint), Follow(te, td, f, hint);
      var rest := FieldsBytes(te', fields[1..], hints[1..]);
      FieldDeliversIff(te, td, f, hint, rest, allow);
      var bytes := FieldBytes(te, f, hint) + rest;
      assert bytes[|FieldBytes(te, f, hint)|..] == rest;
      if total + EntrySize(f) <= limit {
        FieldsDeliverIff(te', td', fields[1..], hints[1..], false, total + EntrySize(f), limit);
      }
    }
  }

  lemma UpdateRoundTrip(td: Table, size: nat, rest: seq<byte>)
    requires size <= td.maxCapacity <= USIZE_MAX
    ensures DecodeOne(td, SizeUpdate(size) + rest, true) == Update(|SizeUpdate(size)|, Resized(td, size))
  {
    HpackInteger.PrefixBounds(7);
    HpackInteger.DecodeEncoded(0x20, size, 5, rest);
  }

  lemma UpdateRefused(td: Table, size: nat, rest: seq<byte>)
    requires td.maxCapacity < size <= USIZE_MAX
    ensures DecodeOne(td, SizeUpdate(size) + rest, true) == Bad(TableSizeExceeded(size, td.maxCapacity))
  {
    HpackInteger.PrefixBounds(5);
    HpackInteger.DecodeEncoded(0x20, size, 5, rest);
  }

  /** The decoder's table once it has read the size update that opens the next block. */
  function Announced(e: Encoder, td: Table): Table {
    if e.pending.Some? then Resized(td, e.pending.value) else td
  }

  /** What decides whether a block arrives: a size it announces respects the decoder's ceiling,
      the decoder then knows every index used, and the list is within the decoder's budget. */
  predicate Arrives(e: Encoder, td: Table, fields: seq<Field>, hints: seq<Hint>, limit: nat)
    requires |hints| == |fields|
  {
    && (e.pending.Some? ==> e.pending.value <= td.maxCapacity)
    && Known(e.table, Announced(e, td), fields, hints)
    && SizeOf(fields) <= limit
  }

  /** For any tables of a common history and any budget: the decoder returns the list if and only
      if the block arrives; a size over the ceiling and a list over the budget are named in the
      error. */
  lemma BlockDeliversIff(e: Encoder, td: Table, fields: seq<Field>, hints: seq<Hint>, limit: nat)
    requires Akin(e.table, td) && (e.pending.Some? ==> e.pending.value <= USIZE_MAX)
    requires |hints| == |fields| && SpelledAll(fields)
    ensures var o := DecodeBlock(td, BlockBytes(e, fields, hints), limit);
      && (o.result == Ok(fields) <==> Arrives(e, td, fields, hints, limit))
      && (o.result.Ok? ==> o == HpackCodec.Outcome(Ok(fields), FollowAll(e.table, Announced(e, td), fields, hints)))
      && (Arrives(e, td, fields, hints, SizeOf(fields)) && SizeOf(fields) > limit ==>
          o.result == Err(HeaderListTooLarge(limit)))
      && (e.pending.Some? && e.pending.value > td.maxCapacity ==>
          o == HpackCodec.Outcome(Err(TableSizeExceeded(e.pending.value, td.maxCapacity)), td))
  {
    hide DecodeOne, FieldsBytes, Known, FollowAll, SizeUpdate, SpelledAll, SizeOf, Resized;
    var rest := FieldsBytes(e.table, fields, hints);
    if e.pending.Some? {
      var size := e.pending.value;
      assert (SizeUpdate(size) + rest)[|SizeUpdate(size)|..] == rest;
      if size <= td.maxCapacity {
        AnnouncedAkin(e.table, td, size);
        UpdateRoundTrip(td, size, rest);
        FieldsDeliverIff(e.table, Resized(td, size), fields, hints, true, 0, limit);
      } else {
        UpdateRefused(td, size, rest);
      }
    } else {
      assert BlockBytes(e, fields, hints) == rest;
      FieldsDeliverIff(e.table, td, fields, hints, true, 0, limit);
    }
  }

  lemma AnnouncedAkin(te: Table, td: Table, size: nat)
    requires Akin(te, td) && size <= td.maxCapacity
    ensures Akin(te, Resized(td, size))
  {
    ResizedSound(td, size);
    FitIsLongestPrefix(td.entries, size);
    CutsCompare(te.entries, td.entries, Fit(td.entries, size));
  }
}
