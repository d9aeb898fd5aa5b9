/** Ceiling changes on the decoder's side that the encoder has not caught up with. */
module HpackCeilings {
  import opened Bytes
  import opened HpackTable
  import opened HpackIndex
  import opened HpackCodec
  import opened HpackDelivery
  import opened HpackRuns
  import opened HpackGaps
  import HpackInteger

  // ---- delivery over whole runs --------------------------------------------

  /** What a call needs at its turn: a block must arrive, a setting always succeeds. */
  predicate Succeeds(s: Session, c: Call, sensitive: Field -> bool)
    requires c.EncodeWithHints? ==> |c.hints| == |c.fields|
  {
    c.IsBlock() ==> Arrives(s.encoder, s.decoder, c.fields, HintsOf(c, sensitive), DEFAULT_LIMIT)
  }

  ghost predicate AllSucceed(s: Session, calls: seq<Call>, sensitive: Field -> bool)
    requires Admissible(calls)
    decreases |calls|
  {
    calls == [] ||
    (assert Admissible([calls[0]]) by { assert [calls[0]][0] == calls[0]; }
     Succeeds(s, calls[0], sensitive) && AllSucceed(Step(s, calls[0], sensitive), calls[1..], sensitive))
  }

  /** The two ends' tables share their history, and what is to be announced was clamped. */
  ghost predicate Related(e: Encoder, td: Table) {
    Akin(e.table, td) && (e.pending.Some? ==> e.pending.value <= USIZE_MAX)
  }

  lemma SetSizeRelated(e: Encoder, td: Table, size: nat)
    requires Related(e, td)
    ensures Related(SetTableSize(e, size), td)
  {
    var clamped := SetTableSize(e, size).table.capacity;
    ResizedSound(e.table, clamped);
    FitIsLongestPrefix(e.table.entries, clamped);
    CutsCompare(td.entries, e.table.entries, Fit(e.table.entries, clamped));
  }

  lemma SetCeilingRelated(e: Encoder, td: Table, ceiling: nat)
    requires Related(e, td) && ceiling <= USIZE_MAX
    ensures Related(e, Capped(td, ceiling))
  {
    CappedSound(td, ceiling);
    FitIsLongestPrefix(td.entries, ceiling);
    CutsCompare(e.table.entries, td.entries, Fit(td.entries, ceiling));
  }

  lemma {:induction false} FollowAkin(te: Table, td: Table, fields: seq<Field>, hints: seq<Hint>)
    requires Akin(te, td) && |hints| == |fields|
    ensures Akin(AfterFields(te, fields, hints), FollowAll(te, td, fields, hints))
    decreases |fields|
  {
    hide FirstFull, Space, Akin, Inserted;
    if fields != [] {
      var f, hint := fields[0], hints[0];
      InsertedAkin(te, td, f);
      FollowAkin(AfterField(te, f, hint), Follow(te, td, f, hint), fields[1..], hints[1..]);
    }
  }

  /** One call from related ends: a block is received as sent if and only if it arrives, and a
      call that succeeds keeps the ends related. */
  lemma StepDeliversIff(s: Session, c: Call, sensitive: Field -> bool)
    requires Admissible([c]) && Related(s.encoder, s.decoder)
    requires c.EncodeWithHints? ==> |c.hints| == |c.fields|
    ensures var s' := Step(s, c, sensitive);
      && |s'.received| == |s.received| + |Sent([c])| && s.received <= s'.received
      && (Succeeds(s, c, sensitive) <==> s'.received == s.received + Sent([c]))
      && (Succeeds(s, c, sensitive) ==> Related(s'.encoder, s'.decoder))
  {
    hide DecodeBlock, BlockBytes, WithinBudget, FollowAll, AfterFields, Arrives, Akin, SpelledAll;
    assert [c][0] == c && [c][1..] == [];
    match c
    case SetSize(size) => SetSizeRelated(s.encoder, s.decoder, size);
    case SetCeiling(ceiling) => SetCeilingRelated(s.encoder, s.decoder, ceiling);
    case _ =>
      var hints := HintsOf(c, sensitive);
      BudgetSpelled(c.fields);
      BlockDeliversIff(s.encoder, s.decoder, c.fields, hints, DEFAULT_LIMIT);
      var o := DecodeBlock(s.decoder, BlockBytes(s.encoder, c.fields, hints), DEFAULT_LIMIT);
      assert Sent([c]) == [Ok(c.fields)];
      SameLast(s.received, o.result, Ok(c.fields));
      if Succeeds(s, c, sensitive) {
        ArrivedAkin(s.encoder, s.decoder, c.fields, hints);
      }
  }

  lemma ArrivedAkin(e: Encoder, td: Table, fields: seq<Field>, hints: seq<Hint>)
    requires Related(e, td) && |hints| == |fields| && Arrives(e, td, fields, hints, DEFAULT_LIMIT)
    ensures Akin(AfterBlock(e, fields, hints).table, FollowAll(e.table, Announced(e, td), fields, hints))
  {
    hide Known, Akin, FollowAll, AfterFields, Resized, SizeOf;
    if e.pending.Some? {
      AnnouncedAkin(e.table, td, e.pending.value);
    }
    FollowAkin(e.table, Announced(e, td), fields, hints);
  }

  /** What has been received is never taken back. */
  lemma {:induction false} RunKeeps(s: Session, calls: seq<Call>, sensitive: Field -> bool)
    requires Admissible(calls)
    ensures var s' := Run(s, calls, sensitive);
      s.received <= s'.received && |s'.received| == |s.received| + |Sent(calls)|
    decreases |calls|
  {
    hide DecodeBlock, BlockBytes, AfterBlock, WithinBudget, Capped, SetTableSize;
    if calls != [] {
      assert [calls[0]][0] == calls[0];
      RunKeeps(Step(s, calls[0], sensitive), calls[1..], sensitive);
    }
  }

  /** For any calls, ceilings included: every list arrives as sent if and only if each block, at
      its turn, announces no more than the ceiling and uses no index beyond the decoder's table. */
  lemma {:induction false} RunDeliversIff(s: Session, calls: seq<Call>, sensitive: Field -> bool)
    requires Admissible(calls) && Related(s.encoder, s.decoder)
    ensures Run(s, calls, sensitive).received == s.received + Sent(calls) <==> AllSucceed(s, calls, sensitive)
    decreases |calls|
  {
    hide Step, Related, Succeeds, WithinBudget;
    if calls == [] {
      assert s.received + [] == s.received;
    } else {
      var c := calls[0];
      assert [c][0] == c && [c][1..] == [] && calls == [c] + calls[1..];
      var s1 := Step(s, c, sensitive);
      StepDeliversIff(s, c, sensitive);
      RunKeeps(s1, calls[1..], sensitive);
      SentParts(c, calls[1..]);
      Regroup(s.received, Sent([c]), Sent(calls[1..]));
      if Succeeds(s, c, sensitive) {
        RunDeliversIff(s1, calls[1..], sensitive);
      } else if Run(s, calls, sensitive).received == s.received + Sent(calls) {
        SamePrefix(s1.received, s.received + Sent([c]), Run(s1, calls[1..], sensitive).received, Sent(calls[1..]));
      }
    }
  }

  lemma SentParts(c: Call, calls: seq<Call>)
    ensures Sent([c] + calls) == Sent([c]) + Sent(calls)
  {
    assert ([c] + calls)[0] == c && ([c] + calls)[1..] == calls && [c][1..] == [];
  }

  lemma SamePrefix<T>(a: seq<T>, b: seq<T>, whole: seq<T>, more: seq<T>)
    requires |a| == |b| && a <= whole && whole == b + more
    ensures a == b
  {
    assert a == whole[..|a|];
  }

  lemma SameLast<T>(front: seq<T>, x: T, y: T)
    ensures front + [x] == front + [y] <==> x == y
  {
    assert (front + [x])[|front|] == x && (front + [y])[|front|] == y;
  }

  /** From fresh ends. */
  lemma FreshRunDeliversIff(tableSize: nat, calls: seq<Call>, sensitive: Field -> bool)
    requires tableSize <= USIZE_MAX && Admissible(calls)
    ensures Run(NewSession(tableSize), calls, sensitive).received == Sent(calls) <==>
      AllSucceed(NewSession(tableSize), calls, sensitive)
  {
    hide Run, AllSucceed;
    RunDeliversIff(NewSession(tableSize), calls, sensitive);
    assert NewSession(tableSize).received + Sent(calls) == Sent(calls);
  }

  // ---- two runs that fail --------------------------------------------------

  /** A field that the static table does not hold. */
  const NUL_FIELD: Field := Field([0], [])

  /** The field sent for indexing. */
  const SEND: Call := EncodeWithHints([NUL_FIELD], [Index])

  lemma SendAdmissible()
    ensures Admissible([SEND])
  {
    assert SizeOf([NUL_FIELD]) == 33;
  }

  /** After a first block from fresh ends both tables hold the field. */
  lemma AfterFirst(sensitive: Field -> bool)
    requires Admissible([SEND])
    ensures var s := Step(NewSession(4096), SEND, sensitive);
      && s.encoder == Encoder(Table([NUL_FIELD], 4096, 4096), None)
      && s.decoder == Table([NUL_FIELD], 4096, 4096) && s.received == [Ok([NUL_FIELD])]
  {
    hide DecodeBlock, BlockBytes, StaticTable, Fit, SizeOf, AfterField;
    var s0 := NewSession(4096);
    FreshConnected();
    StepConnected(s0, SEND, sensitive);
    IndexedFirst(s0.encoder.table, NUL_FIELD);
    assert WithinBudget([NUL_FIELD]) by { assert [SEND][0] == SEND; }
    BlockRoundTrip(s0.encoder, s0.decoder, [NUL_FIELD], [Index]);
    AfterFieldsSizes(s0.encoder.table, [NUL_FIELD], [Index]);
  }

  lemma FreshConnected()
    ensures var s := NewSession(4096); Connected(s.encoder, s.decoder)
  {
  }

  /** The encoder knows the field as index 62; the decoder's table is empty, whatever is announced. */
  lemma EvictedIndex(s: Session, sensitive: Field -> bool)
    requires Admissible([SEND])
    requires s.encoder.table.entries == [NUL_FIELD] && s.decoder.entries == []
    requires s.encoder.pending.Some? ==> s.encoder.pending.value <= s.decoder.maxCapacity <= USIZE_MAX
    ensures Step(s, SEND, sensitive).received == s.received + [Err(InvalidIndex(62))]
  {
    hide StaticTable, FirstFull, HpackInteger.Flagged, HpackInteger.Decode, DecodeOne, AfterBlock;
    var e, td := s.encoder, s.decoder;
    NulIndex(e.table);
    var bytes := IndexedField(62);
    assert bytes + [] == bytes;
    assert FieldsBytes(e.table, [NUL_FIELD], [Index]) == bytes + FieldsBytes(e.table, [], []);
    UnknownIndex(Announced(e, td), true);
    var t := Announced(e, td);
    assert DecodeFrom(t, bytes, true, 0, DEFAULT_LIMIT) == HpackCodec.Outcome(Err(InvalidIndex(62)), t);
    if e.pending.Some? {
      var size := e.pending.value;
      UpdateRoundTrip(td, size, bytes);
      assert (SizeUpdate(size) + bytes)[|SizeUpdate(size)|..] == bytes;
      assert DecodeFrom(td, SizeUpdate(size) + bytes, true, 0, DEFAULT_LIMIT) ==
             DecodeFrom(t, bytes, true, 0, DEFAULT_LIMIT);
    } else {
      assert BlockBytes(e, [NUL_FIELD], [Index]) == bytes;
    }
  }

  lemma NulIndex(te: Table)
    requires te.entries == [NUL_FIELD]
    ensures FirstFull(Space(te.entries), NUL_FIELD) == Some(62)
  {
    hide StaticTable, FirstFull;
    NulNameIsNotStatic(NUL_FIELD);
    var space := Space(te.entries);
    assert space[61] == NUL_FIELD && space[..61] == StaticTable();
    UniqueFirst(space, 62, NUL_FIELD);
  }

  lemma UnknownIndex(td: Table, allow: bool)
    requires td.entries == []
    ensures DecodeOne(td, IndexedField(62), allow) == Bad(InvalidIndex(62))
  {
    hide StaticTable, HpackInteger.Flagged, HpackInteger.Decode;
    HpackInteger.PrefixBounds(7);
    HpackInteger.DecodeEncoded(0x80, 62, 7, []);
    assert IndexedField(62) + [] == IndexedField(62);
    assert |Space([])| == 61;
  }

  /** The ceiling lowered to zero with nothing said to the encoder, then the same field again: its
      index means nothing to the decoder any more. */
  lemma LoweredAloneBreaks(sensitive: Field -> bool)
    ensures var calls := [SEND, SetCeiling(0), SEND];
      Admissible(calls) && !Allowed(calls, 4096, 4096, 4096) &&
      Run(NewSession(4096), calls, sensitive).received == [Ok([NUL_FIELD]), Err(InvalidIndex(62))]
  {
    var lower := SetCeiling(0);
    SendAdmissible();
    NothingSent();
    hide Run, Step, Fit, WithinBudget, Admissible;
    Cons(SEND, []);
    Cons(lower, [SEND] + []);
    Cons(SEND, [lower] + ([SEND] + []));
    assert [SEND, lower, SEND] == [SEND] + ([lower] + ([SEND] + []));
    AfterFirst(sensitive);
    var s0 := NewSession(4096);
    var s1 := Step(s0, SEND, sensitive);
    Lowered(s1, sensitive);
    var s2 := Step(s1, lower, sensitive);
    EvictedIndex(s2, sensitive);
    RunCons(s0, SEND, [lower] + ([SEND] + []), sensitive);
    RunCons(s1, lower, [SEND] + [], sensitive);
    RunCons(s2, SEND, [], sensitive);
    RunNothing(Step(s2, SEND, sensitive), sensitive);
    LoweringIsNotAllowed([SEND] + [], 4096, 4096);
  }

  lemma NothingSent()
    ensures Admissible([]) && Admissible([SetSize(4096)])
    ensures Admissible([SetCeiling(0)]) && Admissible([SetCeiling(4096)])
  {
  }

  lemma Cons(c: Call, calls: seq<Call>)
    requires Admissible([c]) && Admissible(calls)
    ensures Admissible([c] + calls)
  {
    hide WithinBudget;
    assert [c][0] == c;
  }

  lemma RunCons(s: Session, c: Call, calls: seq<Call>, sensitive: Field -> bool)
    requires Admissible([c]) && Admissible(calls) && Admissible([c] + calls)
    ensures Run(s, [c] + calls, sensitive) == Run(Step(s, c, sensitive), calls, sensitive)
  {
    hide Step, Admissible;
    assert ([c] + calls)[0] == c && ([c] + calls)[1..] == calls;
  }

  lemma LoweringIsNotAllowed(calls: seq<Call>, encoderMax: nat, capacity: nat)
    requires capacity > 0
    ensures !Allowed([SEND] + ([SetCeiling(0)] + calls), encoderMax, capacity, capacity)
  {
    var rest := [SetCeiling(0)] + calls;
    assert ([SEND] + rest)[1..] == rest && rest[0] == SetCeiling(0);
    assert !Allowed(rest, encoderMax, capacity, capacity);
  }

  lemma Lowered(s: Session, sensitive: Field -> bool)
    requires Admissible([SetCeiling(0)]) && s.decoder.capacity > 0
    ensures Step(s, SetCeiling(0), sensitive) == s.(decoder := Table([], 0, 0))
  {
    FitNothing(s.decoder.entries, 0);
  }

  /** A size set and announced that respects the ceiling is not enough either: lowered and raised
      again before the block, the ceiling has emptied the decoder's table. */
  lemma LoweredAndRaisedBreaks(sensitive: Field -> bool)
    ensures var calls := [SEND, SetSize(4096), SetCeiling(0), SetCeiling(4096), SEND];
      Admissible(calls) && !Allowed(calls, 4096, 4096, 4096) &&
      Run(NewSession(4096), calls, sensitive).received == [Ok([NUL_FIELD]), Err(InvalidIndex(62))]
  {
    var size, lower, raise: Call := SetSize(4096), SetCeiling(0), SetCeiling(4096);
    var r4 := [SEND] + [];
    var r3 := [raise] + r4;
    var r2 := [lower] + r3;
    var r1 := [size] + r2;
    SendAdmissible();
    NothingSent();
    hide Run, Step, Fit, WithinBudget, Admissible;
    Cons(SEND, []);
    Cons(raise, r4);
    Cons(lower, r3);
    Cons(size, r2);
    Cons(SEND, r1);
    assert [SEND, size, lower, raise, SEND] == [SEND] + r1;
    AfterFirst(sensitive);
    var s0 := NewSession(4096);
    var s1 := Step(s0, SEND, sensitive);
    SizeKept(s1, sensitive);
    var s2 := Step(s1, size, sensitive);
    Lowered(s2, sensitive);
    var s3 := Step(s2, lower, sensitive);
    Raised(s3, sensitive);
    var s4 := Step(s3, raise, sensitive);
    EvictedIndex(s4, sensitive);
    RunCons(s0, SEND, r1, sensitive);
    RunCons(s1, size, r2, sensitive);
    RunCons(s2, lower, r3, sensitive);
    RunCons(s3, raise, r4, sensitive);
    RunCons(s4, SEND, [], sensitive);
    RunNothing(Step(s4, SEND, sensitive), sensitive);
    SizeThenLoweringIsNotAllowed(r3, 4096);
  }

  lemma SizeThenLoweringIsNotAllowed(calls: seq<Call>, size: nat)
    requires size > 0
    ensures !Allowed([SEND] + ([SetSize(size)] + ([SetCeiling(0)] + calls)), size, size, size)
  {
    var r2 := [SetCeiling(0)] + calls;
    var r1 := [SetSize(size)] + r2;
    assert ([SEND] + r1)[1..] == r1 && r1[1..] == r2;
    assert !Allowed(r2, size, size, size);
    assert !Allowed(r1, size, size, size);
  }

  lemma SizeKept(s: Session, sensitive: Field -> bool)
    requires Admissible([SetSize(4096)]) && s.encoder == Encoder(Table([NUL_FIELD], 4096, 4096), None)
    ensures Step(s, SetSize(4096), sensitive) == s.(encoder := Encoder(Table([NUL_FIELD], 4096, 4096), Some(4096)))
  {
    assert SizeOf([NUL_FIELD]) == 33;
    FitWhole([NUL_FIELD], 4096);
  }

  lemma Raised(s: Session, sensitive: Field -> bool)
    requires Admissible([SetCeiling(4096)]) && s.decoder == Table([], 0, 0)
    ensures Step(s, SetCeiling(4096), sensitive) == s.(decoder := Table([], 0, 4096))
  {
  }
}
