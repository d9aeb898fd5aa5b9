/** The stateful encoder and decoder of one connection, with their tables updated in place. */
module HpackEndpoints {
  import opened Bytes
  import opened HpackTable
  import opened HpackIndex
  import opened HpackCodec
  import opened HpackDelivery
  import opened HpackRuns
  import opened HpackCeilings
  import HpackPolicy
  import HpackInteger
  import HpackString

  method OrFlags(flags: nat, ghost value: nat, prefixBits: nat, encoded: seq<byte>) returns (out: seq<byte>)
    requires 1 <= prefixBits <= 8
    requires flags % Pow2(prefixBits) == 0 && flags + Pow2(prefixBits) <= 256
    requires encoded == HpackInteger.Encoded(value, prefixBits)
    ensures out == HpackInteger.Flagged(flags, value, prefixBits)
  {
    out := encoded[0 := flags + encoded[0]];
  }

  class HpackEncoder {
    const dynamic: DynamicTable
    var sensitive: Field -> bool
    var pendingSizeUpdate: Option<nat>

    ghost predicate Valid()
      reads this, dynamic
    {
      dynamic.Valid()
    }

    function View(): Encoder
      reads this, dynamic
    {
      Encoder(dynamic.View(), pendingSizeUpdate)
    }

    constructor (headerTableSize: nat, sensitive: Field -> bool)
      ensures Valid() && fresh(dynamic)
      ensures View() == NewEncoder(headerTableSize) && this.sensitive == sensitive
    {
      dynamic := new DynamicTable(headerTableSize);
      this.sensitive := sensitive;
      pendingSizeUpdate := None;
    }

    method SetTableSize(newSize: nat)
      requires Valid()
      modifies this`pendingSizeUpdate, dynamic
      ensures Valid() && View() == HpackCodec.SetTableSize(old(View()), newSize)
    {
      var clamped := if newSize <= dynamic.maxCapacity then newSize else dynamic.maxCapacity;
      dynamic.Resize(clamped);
      pendingSizeUpdate := Some(clamped);
    }

    method EncodeLiteral(f: Field, nameIdx: Option<nat>, hint: Hint) returns (out: seq<byte>)
      ensures out == Literal(f, hint, nameIdx)
    {
      hide HpackInteger.Flagged, HpackInteger.Encoded, HpackString.Encoded, Pow2;
      HpackInteger.PrefixBounds(7);
      var idx := if nameIdx.Some? then nameIdx.value else 0;
      var (flags, prefixBits) := HeadFlags(hint);
      var prefix := HpackInteger.EncodeInteger(idx, prefixBits);
      out := OrFlags(flags, idx, prefixBits, prefix);
      assert out == LiteralHead(hint, nameIdx);
      if nameIdx.None? {
        var name := HpackString.EncodeString(f.name);
        out := out + name;
      }
      var value := HpackString.EncodeString(f.value);
      out := out + value;
    }

    method EncodeField(f: Field, hint: Hint) returns (out: seq<byte>)
      requires Valid()
      modifies dynamic
      ensures Valid() && pendingSizeUpdate == old(pendingSizeUpdate)
      ensures out == FieldBytes(old(dynamic.View()), f, hint)
      ensures dynamic.View() == AfterField(old(dynamic.View()), f, hint)
    {
      hide Literal, Space, FirstFull, FirstName, HpackInteger.Flagged, HpackInteger.Encoded, Pow2, Inserted;
      HpackInteger.PrefixBounds(7);
      var found := FindFull(f, dynamic);
      if found.Some? {
        var encoded := HpackInteger.EncodeInteger(found.value, 7);
        out := OrFlags(0x80, found.value, 7, encoded);
        return;
      }
      var nameIdx := FindName(f.name, dynamic);
      out := EncodeLiteral(f, nameIdx, hint);
      if hint == Index {
        dynamic.Insert(f);
      }
    }

    method EncodeWithHints(fields: seq<Field>, hints: seq<Hint>) returns (out: seq<byte>)
      requires Valid() && |hints| == |fields|
      modifies this`pendingSizeUpdate, dynamic
      ensures Valid()
      ensures out == BlockBytes(old(View()), fields, hints)
      ensures View() == AfterBlock(old(View()), fields, hints)
    {
      hide FieldBytes, AfterField, HpackInteger.Flagged, HpackInteger.Encoded, Pow2;
      ghost var block := BlockBytes(View(), fields, hints);
      ghost var after := AfterFields(dynamic.View(), fields, hints);
      out := [];
      if pendingSizeUpdate.Some? {
        HpackInteger.PrefixBounds(7);
        var encoded := HpackInteger.EncodeInteger(pendingSizeUpdate.value, 5);
        out := OrFlags(0x20, pendingSizeUpdate.value, 5, encoded);
        pendingSizeUpdate := None;
      }
      for i := 0 to |fields|
        invariant Valid() && pendingSizeUpdate == None
        invariant out + FieldsBytes(dynamic.View(), fields[i..], hints[i..]) == block
        invariant AfterFields(dynamic.View(), fields[i..], hints[i..]) == after
      {
        assert fields[i..][1..] == fields[i + 1..] && hints[i..][1..] == hints[i + 1..];
        ghost var rest := FieldsBytes(AfterField(dynamic.View(), fields[i], hints[i]), fields[i + 1..], hints[i + 1..]);
        var bytes := EncodeField(fields[i], hints[i]);
        assert out + (bytes + rest) == (out + bytes) + rest;
        out := out + bytes;
      }
    }

    method Encode(fields: seq<Field>) returns (out: seq<byte>)
      requires Valid()
      modifies this`pendingSizeUpdate, dynamic
      ensures Valid()
      ensures out == BlockBytes(old(View()), fields, DefaultHints(sensitive, fields))
      ensures View() == AfterBlock(old(View()), fields, DefaultHints(sensitive, fields))
      ensures HpackPolicy.KeepsPolicy(old(View()), fields, sensitive, out, dynamic.View())
    {
      hide BlockBytes, AfterBlock, HpackPolicy.KeepsPolicy;
      HpackPolicy.BlockKeepsPolicy(View(), fields, sensitive);
      var hints := [];
      for i := 0 to |fields|
        invariant |hints| == i
        invariant forall k :: 0 <= k < i ==> hints[k] == DefaultHints(sensitive, fields)[k]
      {
        hints := hints + [if sensitive(fields[i]) then NeverIndex else Index];
      }
      assert hints == DefaultHints(sensitive, fields);
      out := EncodeWithHints(fields, hints);
    }
  }

  class HpackDecoder {
    const dynamic: DynamicTable
    var maxHeaderListSize: nat

    ghost predicate Valid()
      reads this, dynamic
    {
      dynamic.Valid() && dynamic.capacity <= dynamic.maxCapacity
    }

    constructor (headerTableSize: nat)
      ensures Valid() && fresh(dynamic)
      ensures dynamic.View() == EmptyTable(headerTableSize) && maxHeaderListSize == DEFAULT_LIMIT
    {
      dynamic := new DynamicTable(headerTableSize);
      maxHeaderListSize := 16 * 1024 * 1024;
    }

    method SetMaxHeaderListSize(limit: nat)
      modifies this`maxHeaderListSize
      ensures maxHeaderListSize == limit
    {
      maxHeaderListSize := limit;
    }

    method SetMaxTableSize(max: nat)
      requires Valid()
      modifies dynamic
      ensures Valid()
      ensures dynamic.View() == Capped(old(dynamic.View()), max)
    {
      dynamic.SetMaxCapacity(max);
    }

    method ResolveIndex(idx: nat) returns (r: Result<Field, HpackError>)
      ensures r == Resolve(idx, dynamic.entries)
    {
      hide StaticTable;
      if idx == 0 {
        return Err(InvalidIndex(0));
      }
      var fixed := StaticTable();
      if idx <= |fixed| {
        return Ok(fixed[idx - 1]);
      }
      var dynIdx := idx - |fixed| - 1;
      r := if dynIdx < |dynamic.entries| then Ok(dynamic.entries[dynIdx]) else Err(InvalidIndex(idx));
    }

    method DecodeLiteral(bytes: seq<byte>, prefixBits: nat) returns (r: Result<(Field, nat), HpackError>)
      requires 1 <= prefixBits <= 8
      ensures r == HpackCodec.DecodeLiteral(bytes, prefixBits, dynamic.entries)
    {
      hide HpackInteger.Decode, HpackString.Decoded, Resolve;
      var n := HpackInteger.DecodeInteger(bytes, prefixBits);
      if n.Err? {
        return Err(n.error);
      }
      var (idx, pos) := n.value;
      var name: seq<byte>;
      if idx == 0 {
        var spelled := HpackString.DecodeString(bytes[pos..]);
        if spelled.Err? {
          return Err(spelled.error);
        }
        name := spelled.value.0;
        pos := pos + spelled.value.1;
      } else {
        var found := ResolveIndex(idx);
        if found.Err? {
          return Err(found.error);
        }
        name := found.value.name;
      }
      var value := HpackString.DecodeString(bytes[pos..]);
      if value.Err? {
        return Err(value.error);
      }
      r := Ok((Field(name, value.value.0), pos + value.value.1));
    }

    /** Read one instruction: a field, or none for a size update, and the bytes it took. */
    method DecodeInstruction(rest: seq<byte>, allowUpdate: bool) returns (r: Result<(Option<Field>, nat), HpackError>)
      requires Valid() && |rest| > 0
      modifies dynamic
      ensures Valid()
      ensures match DecodeOne(old(dynamic.View()), rest, allowUpdate)
              case Bad(e) => r == Err(e) && dynamic.View() == old(dynamic.View())
              case Update(used, t) => r == Ok((None, used)) && dynamic.View() == t
              case Read(f, used, t) => r == Ok((Some(f), used)) && dynamic.View() == t
    {
      hide HpackInteger.Decode, HpackCodec.DecodeLiteral, Resolve, Fit, SizeOf, Inserted, Resized;
      ghost var t := dynamic.View();
      var byte := rest[0];
      if byte >= 0x80 {
        var n := HpackInteger.DecodeInteger(rest, 7);
        if n.Err? {
          return Err(n.error);
        }
        var found := ResolveIndex(n.value.0);
        r := if found.Err? then Err(found.error) else Ok((Some(found.value), n.value.1));
      } else if byte >= 0x40 {
        var literal := DecodeLiteral(rest, 6);
        if literal.Err? {
          return Err(literal.error);
        }
        InsertedSound(t, literal.value.0);
        dynamic.Insert(literal.value.0);
        r := Ok((Some(literal.value.0), literal.value.1));
      } else if byte >= 0x20 {
        if !allowUpdate {
          return Err(UnexpectedTableSizeUpdate);
        }
        var n := HpackInteger.DecodeInteger(rest, 5);
        if n.Err? {
          return Err(n.error);
        }
        var applied := dynamic.ApplySizeUpdate(n.value.0);
        if applied.Err? {
          return Err(applied.error);
        }
        ResizedSound(t, n.value.0);
        r := Ok((None, n.value.1));
      } else {
        var literal := DecodeLiteral(rest, 4);
        r := if literal.Err? then Err(literal.error) else Ok((Some(literal.value.0), literal.value.1));
      }
    }

    /** Any bytes at all: the list or the first error, and the table that decoding leaves. */
    method Decode(block: seq<byte>) returns (r: Result<seq<Field>, HpackError>)
      requires Valid()
      modifies dynamic
      ensures Valid()
      ensures Outcome(r, dynamic.View()) == DecodeBlock(old(dynamic.View()), block, maxHeaderListSize)
      ensures r.Ok? ==> SizeOf(r.value) <= maxHeaderListSize
    {
      hide DecodeOne, Fit, SizeOf, EntrySize;
      ghost var whole := DecodeBlock(dynamic.View(), block, maxHeaderListSize);
      DecodeBlockSound(dynamic.View(), block, maxHeaderListSize);
      var headers: seq<Field> := [];
      var pos, totalSize: nat := 0, 0;
      var allowSizeUpdate := true;
      assert block[0..] == block;
      PrependNothing(whole);
      while pos < |block|
        invariant pos <= |block| && Valid()
        invariant whole == Prepend(headers,
          DecodeFrom(dynamic.View(), block[pos..], allowSizeUpdate, totalSize, maxHeaderListSize))
        decreases |block| - pos
      {
        var rest := block[pos..];
        var instruction := DecodeInstruction(rest, allowSizeUpdate);
        if instruction.Err? {
          return Err(instruction.error);
        }
        var (field, used) := instruction.value;
        assert rest[used..] == block[pos + used..];
        pos := pos + used;
        if field.Some? {
          allowSizeUpdate := false;
          totalSize := totalSize + EntrySize(field.value);
          if totalSize > maxHeaderListSize {
            return Err(HeaderListTooLarge(maxHeaderListSize));
          }
          PrependTwice(headers, field.value,
            DecodeFrom(dynamic.View(), block[pos..], false, totalSize, maxHeaderListSize));
          headers := headers + [field.value];
        }
      }
      r := Ok(headers);
      assert block[pos..] == [];
      assert headers + [] == headers;
    }
  }

  lemma PrependNothing(o: Outcome)
    ensures Prepend([], o) == o
  {
    if o.result.Ok? {
      assert [] + o.result.value == o.result.value;
    }
  }

  lemma PrependTwice(headers: seq<Field>, f: Field, o: Outcome)
    ensures Prepend(headers, Prepend([f], o)) == Prepend(headers + [f], o)
  {
    if o.result.Ok? {
      assert headers + ([f] + o.result.value) == (headers + [f]) + o.result.value;
    }
  }

  // ---- the two ends of a connection ----------------------------------------

  /** A new encoder and a new decoder, each block going from one to the other, under any calls:
      the decoder returns exactly the lists that were sent if and only if every block arrives at
      its turn.  It does as long as no call puts the encoder's size above the decoder's ceiling,
      and the decoder's table then extends the encoder's. */
  method Converse(tableSize: nat, calls: seq<Call>, sensitive: Field -> bool)
    returns (encoder: HpackEncoder, decoder: HpackDecoder, received: seq<Result<seq<Field>, HpackError>>)
    requires tableSize <= USIZE_MAX && Admissible(calls)
    ensures received == Sent(calls) <==> AllSucceed(NewSession(tableSize), calls, sensitive)
    ensures Allowed(calls, tableSize, tableSize, tableSize) || (forall i :: 0 <= i < |calls| ==> !calls[i].SetCeiling?)
      ==> received == Sent(calls) && encoder.dynamic.entries <= decoder.dynamic.entries
    ensures fresh(encoder) && fresh(encoder.dynamic) && fresh(decoder) && fresh(decoder.dynamic)
    ensures encoder.Valid() && decoder.Valid()
  {
    hide Step, Connected, Sent, DecodeBlock, BlockBytes, AfterBlock, Inserted, Resized, Capped, SizeOf, WithinBudget,
      Allowed, AllSucceed, HpackPolicy.KeepsPolicy;
    encoder := new HpackEncoder(tableSize, sensitive);
    decoder := new HpackDecoder(tableSize);
    received := [];
    ghost var start := NewSession(tableSize);
    assert calls[0..] == calls;
    for i := 0 to |calls|
      invariant fresh(encoder) && fresh(encoder.dynamic) && fresh(decoder) && fresh(decoder.dynamic)
      invariant encoder.dynamic != decoder.dynamic && encoder.Valid() && decoder.Valid()
      invariant encoder.sensitive == sensitive && decoder.maxHeaderListSize == DEFAULT_LIMIT
      invariant Run(Session(encoder.View(), decoder.dynamic.View(), received), calls[i..], sensitive) ==
                Run(start, calls, sensitive)
    {
      var c := calls[i];
      ghost var s := Session(encoder.View(), decoder.dynamic.View(), received);
      StepOf(s, c, sensitive);
      assert calls[i..][0] == c && calls[i..][1..] == calls[i + 1..];
      match c {
        case SetSize(size) => encoder.SetTableSize(size);
        case SetCeiling(ceiling) => decoder.SetMaxTableSize(ceiling);
        case Encode(fields) =>
          var block := encoder.Encode(fields);
          var list := decoder.Decode(block);
          received := received + [list];
        case EncodeWithHints(fields, hints) =>
          var block := encoder.EncodeWithHints(fields, hints);
          var list := decoder.Decode(block);
          received := received + [list];
      }
      assert Session(encoder.View(), decoder.dynamic.View(), received) == Step(s, c, sensitive);
    }
    FreshRunDeliversIff(tableSize, calls, sensitive);
    if Allowed(calls, tableSize, tableSize, tableSize) || forall i :: 0 <= i < |calls| ==> !calls[i].SetCeiling? {
      EveryRunDelivers(tableSize, calls, sensitive);
    }
  }

  /** A step unfolded. */
  lemma StepOf(s: Session, c: Call, sensitive: Field -> bool)
    requires c.IsBlock() ==> WithinBudget(c.fields)
    requires c.SetCeiling? ==> c.ceiling <= USIZE_MAX
    requires c.EncodeWithHints? ==> |c.hints| == |c.fields|
    ensures Admissible([c])
    ensures Step(s, c, sensitive) ==
      if c.SetSize? then s.(encoder := HpackCodec.SetTableSize(s.encoder, c.size))
      else if c.SetCeiling? then s.(decoder := Capped(s.decoder, c.ceiling))
      else
        var hints := HintsOf(c, sensitive);
        var o := DecodeBlock(s.decoder, BlockBytes(s.encoder, c.fields, hints), DEFAULT_LIMIT);
        Session(AfterBlock(s.encoder, c.fields, hints), o.table, s.received + [o.result])
  {
    hide DecodeBlock, BlockBytes, AfterBlock, WithinBudget, Capped;
    assert [c][0] == c;
  }
}
