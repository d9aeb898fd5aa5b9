/** What the encoder's hints put on the wire and into the tables: the forms of section 6 of
    RFC 7541, and the default policy for sensitive fields. */
module HpackPolicy {
  import opened Bytes
  import opened HpackTable
  import opened HpackIndex
  import opened HpackCodec
  import opened HpackDelivery
  import opened HpackRuns
  import HpackInteger

  // ---- the first octet of each form ----------------------------------------

  /** The pattern bits of a literal (sections 6.2.1 to 6.2.3 of RFC 7541). */
  predicate HasPattern(octet: byte, hint: Hint) {
    match hint
    case Index => octet / 64 == 1
    case WithoutIndex => octet / 16 == 0
    case NeverIndex => octet / 16 == 1
  }

  /** A field that is found whole is sent as an index, any other as the literal its hint names. */
  lemma FormOfField(te: Table, f: Field, hint: Hint)
    ensures FieldBytes(te, f, hint) != []
    ensures var octet := FieldBytes(te, f, hint)[0];
      if f in Space(te.entries) then octet / 128 == 1 else HasPattern(octet, hint)
  {
    hide Space, FirstName, HpackInteger.Encoded, Pow2;
    HpackInteger.PrefixBounds(7);
    var found := FirstFull(Space(te.entries), f);
    if found.None? {
      var name := FirstName(Space(te.entries), f.name);
      LiteralStarts(f, hint, name);
      HeadPattern(hint, name);
    }
  }

  lemma LiteralStarts(f: Field, hint: Hint, nameIdx: Option<nat>)
    ensures Literal(f, hint, nameIdx) != [] && Literal(f, hint, nameIdx)[0] == LiteralHead(hint, nameIdx)[0]
  {
  }

  lemma HeadPattern(hint: Hint, nameIdx: Option<nat>)
    ensures HasPattern(LiteralHead(hint, nameIdx)[0], hint)
  {
    hide HpackInteger.Encoded, Pow2;
    HpackInteger.PrefixBounds(7);
  }

  /** A size update has the pattern 001 (section 6.3). */
  lemma FormOfUpdate(size: nat)
    ensures SizeUpdate(size)[0] / 32 == 1
  {
    hide HpackInteger.Encoded, Pow2;
    HpackInteger.PrefixBounds(7);
  }

  // ---- the default policy --------------------------------------------------

  /** A table holds no sensitive field. */
  ghost predicate Discreet(entries: seq<Field>, sensitive: Field -> bool) {
    forall g :: g in entries ==> !sensitive(g)
  }

  /** Nothing sensitive is in the new entries unless it was in the old ones. */
  ghost predicate AddsNothingSensitive(before: seq<Field>, after: seq<Field>, sensitive: Field -> bool) {
    forall g :: g in after && sensitive(g) ==> g in before
  }

  lemma InsertedEntries(t: Table, f: Field, g: Field)
    requires g in Inserted(t, f).entries
    ensures g == f || g in t.entries
  {
    FitIsLongestPrefix([f] + t.entries, t.capacity);
  }

  lemma HintsTail(sensitive: Field -> bool, fields: seq<Field>)
    requires fields != []
    ensures DefaultHints(sensitive, fields)[1..] == DefaultHints(sensitive, fields[1..])
  {
  }

  /** A field of the list that its hint lets in. */
  ghost predicate LetIn(g: Field, fields: seq<Field>, hints: seq<Hint>)
    requires |hints| == |fields|
  {
    exists i :: 0 <= i < |fields| && fields[i] == g && hints[i] == Index
  }

  /** All that enters a table is what a hint lets in, at the encoder and at a decoder that
      follows. */
  lemma {:induction false} OnlyLetInEnters(te: Table, td: Table, fields: seq<Field>, hints: seq<Hint>, g: Field)
    requires |hints| == |fields|
    ensures g in AfterFields(te, fields, hints).entries ==> g in te.entries || LetIn(g, fields, hints)
    ensures g in FollowAll(te, td, fields, hints).entries ==> g in td.entries || LetIn(g, fields, hints)
    decreases |fields|
  {
    hide FirstFull, Space, Inserted;
    if fields != [] {
      var f, hint := fields[0], hints[0];
      OnlyLetInEnters(AfterField(te, f, hint), Follow(te, td, f, hint), fields[1..], hints[1..], g);
      if LetIn(g, fields[1..], hints[1..]) {
        var i :| 0 <= i < |fields[1..]| && fields[1..][i] == g && hints[1..][i] == Index;
        assert fields[i + 1] == g && hints[i + 1] == Index;
      }
      if g in Inserted(te, f).entries {
        InsertedEntries(te, f, g);
      }
      if g in Inserted(td, f).entries {
        InsertedEntries(td, f, g);
      }
    }
  }

  /** Under the default policy no sensitive field enters the encoder's table, nor that of a
      decoder that follows. */
  lemma SensitiveStaysOut(te: Table, td: Table, fields: seq<Field>, sensitive: Field -> bool)
    ensures var hints := DefaultHints(sensitive, fields);
      AddsNothingSensitive(te.entries, AfterFields(te, fields, hints).entries, sensitive) &&
      AddsNothingSensitive(td.entries, FollowAll(te, td, fields, hints).entries, sensitive)
  {
    hide AfterFields, FollowAll;
    forall g: Field | sensitive(g)
      ensures g in AfterFields(te, fields, DefaultHints(sensitive, fields)).entries ==> g in te.entries
      ensures g in FollowAll(te, td, fields, DefaultHints(sensitive, fields)).entries ==> g in td.entries
    {
      OnlyLetInEnters(te, td, fields, DefaultHints(sensitive, fields), g);
    }
  }

  /** A field that is not sensitive, not known and not too large is the newest entry afterwards. */
  lemma PlainFieldIsNewest(t: Table, front: seq<Field>, f: Field, sensitive: Field -> bool)
    requires !sensitive(f) && EntrySize(f) <= t.capacity
    ensures var before := AfterFields(t, front, DefaultHints(sensitive, front));
      var after := AfterFields(t, front + [f], DefaultHints(sensitive, front + [f]));
      f !in Space(before.entries) ==> after.entries != [] && after.entries[0] == f
  {
    hide Space, FirstFull, Fit, SizeOf, EntrySize;
    var before := AfterFields(t, front, DefaultHints(sensitive, front));
    OneFieldMore(t, front, f, sensitive);
    AfterFieldsSizes(t, front, DefaultHints(sensitive, front));
    if f !in Space(before.entries) {
      FoundOrNot(before, f);
      InsertedFirst(before, f);
    }
  }

  lemma FoundOrNot(t: Table, f: Field)
    requires f !in Space(t.entries)
    ensures FirstFull(Space(t.entries), f) == None
  {
    NoFirst(Space(t.entries), f);
  }

  lemma InsertedFirst(t: Table, f: Field)
    requires EntrySize(f) <= t.capacity
    ensures Inserted(t, f).entries != [] && Inserted(t, f).entries[0] == f
  {
    assert [f] + t.entries != [] && [f] <= [f] + t.entries;
    assert SizeOf([f]) == EntrySize(f);
    FitKeeps([f] + t.entries, [f], t.capacity);
  }

  lemma {:induction false} OneFieldMore(t: Table, front: seq<Field>, f: Field, sensitive: Field -> bool)
    ensures AfterFields(t, front + [f], DefaultHints(sensitive, front + [f])) ==
      AfterField(AfterFields(t, front, DefaultHints(sensitive, front)), f, DefaultHints(sensitive, [f])[0])
    decreases |front|
  {
    hide FirstFull, Space, Inserted, AfterField;
    var all := front + [f];
    HintsTail(sensitive, all);
    if front == [] {
      assert all == [f] && all[1..] == [];
    } else {
      HintsTail(sensitive, front);
      assert all[0] == front[0] && all[1..] == front[1..] + [f];
      OneFieldMore(AfterField(t, front[0], DefaultHints(sensitive, front)[0]), front[1..], f, sensitive);
    }
  }

  /** A sensitive field that is not known is sent as a literal that is never to be indexed. */
  lemma SensitiveIsNeverIndexed(te: Table, f: Field, sensitive: Field -> bool)
    requires f !in Space(te.entries)
    ensures var hint := DefaultHints(sensitive, [f])[0];
      FieldBytes(te, f, hint) != [] &&
      (sensitive(f) <==> FieldBytes(te, f, hint)[0] / 16 == 1) &&
      (!sensitive(f) <==> FieldBytes(te, f, hint)[0] / 64 == 1)
  {
    FormOfField(te, f, DefaultHints(sensitive, [f])[0]);
  }

  /** What one call of the encoder with the default policy does to its table and to the wire:
      nothing sensitive enters; a field sent alone that no table knows is the newest entry
      afterwards unless it is sensitive or too large, and its first octet says which it is. */
  ghost predicate KeepsPolicy(e: Encoder, fields: seq<Field>, sensitive: Field -> bool, out: seq<byte>, after: Table) {
    && AddsNothingSensitive(e.table.entries, after.entries, sensitive)
    && (|fields| == 1 && fields[0] !in Space(e.table.entries) ==>
        && (!sensitive(fields[0]) && EntrySize(fields[0]) <= e.table.capacity ==>
            after.entries != [] && after.entries[0] == fields[0])
        && (e.pending == None ==> out != [] && HasPattern(out[0], if sensitive(fields[0]) then NeverIndex else Index)))
  }

  lemma BlockKeepsPolicy(e: Encoder, fields: seq<Field>, sensitive: Field -> bool)
    ensures var hints := DefaultHints(sensitive, fields);
      KeepsPolicy(e, fields, sensitive, BlockBytes(e, fields, hints), AfterBlock(e, fields, hints).table)
  {
    hide Space, FirstFull, FieldBytes, AfterField, SizeUpdate, HasPattern, EntrySize;
    SensitiveStaysOut(e.table, e.table, fields, sensitive);
    if |fields| == 1 && fields[0] !in Space(e.table.entries) {
      var f, hints := fields[0], DefaultHints(sensitive, fields);
      assert fields == [] + [f] && fields[1..] == [];
      assert AfterFields(e.table, [], DefaultHints(sensitive, [])) == e.table;
      FormOfField(e.table, f, hints[0]);
      assert FieldsBytes(e.table, fields, hints) == FieldBytes(e.table, f, hints[0]) + [];
      if !sensitive(f) && EntrySize(f) <= e.table.capacity {
        PlainFieldIsNewest(e.table, [], f, sensitive);
      }
    }
  }

  // ---- whole runs ----------------------------------------------------------

  /** Both tables of a session are discreet. */
  ghost predicate DiscreetSession(s: Session, sensitive: Field -> bool) {
    Discreet(s.encoder.table.entries, sensitive) && Discreet(s.decoder.entries, sensitive)
  }

  lemma FitDiscreet(entries: seq<Field>, capacity: int, sensitive: Field -> bool)
    requires Discreet(entries, sensitive)
    ensures Discreet(Fit(entries, capacity), sensitive)
  {
    FitIsLongestPrefix(entries, capacity);
  }

  lemma StepDiscreet(s: Session, c: Call, sensitive: Field -> bool)
    requires Admissible([c]) && !c.EncodeWithHints?
    requires Connected(s.encoder, s.decoder) && DiscreetSession(s, sensitive)
    ensures DiscreetSession(Step(s, c, sensitive), sensitive)
  {
    hide DecodeBlock, BlockBytes, WithinBudget, FollowAll, AfterFields, Fit, Connected;
    assert [c][0] == c;
    if c.SetSize? {
      FitDiscreet(s.encoder.table.entries, Min(c.size, s.encoder.table.maxCapacity), sensitive);
    } else if c.SetCeiling? {
      FitDiscreet(s.decoder.entries, c.ceiling, sensitive);
    } else {
      var e, td := s.encoder, s.decoder;
      BlockRoundTrip(e, td, c.fields, HintsOf(c, sensitive));
      if e.pending.Some? {
        FitDiscreet(td.entries, e.pending.value, sensitive);
      }
      SensitiveStaysOut(e.table, Announced(e, td), c.fields, sensitive);
    }
  }

  /** On any connection that leaves the hints to the policy, no sensitive field is ever in either
      table. */
  lemma {:induction false} RunDiscreet(s: Session, calls: seq<Call>, sensitive: Field -> bool)
    requires Admissible(calls) && Connected(s.encoder, s.decoder) && DiscreetSession(s, sensitive)
    requires Allowed(calls, s.encoder.table.maxCapacity, s.encoder.table.capacity, s.decoder.maxCapacity)
    requires forall i :: 0 <= i < |calls| ==> !calls[i].EncodeWithHints?
    ensures DiscreetSession(Run(s, calls, sensitive), sensitive)
    decreases |calls|
  {
    hide Step, Connected, DiscreetSession, WithinBudget;
    if calls != [] {
      var c := calls[0];
      assert [c][0] == c && [c][1..] == [];
      StepConnected(s, c, sensitive);
      StepDiscreet(s, c, sensitive);
      RunDiscreet(Step(s, c, sensitive), calls[1..], sensitive);
    }
  }

  /** The fields that are sensitive unless the embedder says otherwise. */
  predicate Credential(f: Field) {
    f.name == Ascii("authorization") || f.name == Ascii("proxy-authorization") || f.name == Ascii("cookie") ||
    f.name == Ascii("set-cookie")
  }

  /** So on a connection from its start, with the policy a new encoder has, neither table ever holds
      a credential. */
  lemma CredentialsStayOut(tableSize: nat, calls: seq<Call>)
    requires tableSize <= USIZE_MAX && Admissible(calls)
    requires Allowed(calls, tableSize, tableSize, tableSize) || forall i :: 0 <= i < |calls| ==> !calls[i].SetCeiling?
    requires forall i :: 0 <= i < |calls| ==> !calls[i].EncodeWithHints?
    ensures var s := Run(NewSession(tableSize), calls, Credential);
      forall g :: g in s.encoder.table.entries || g in s.decoder.entries ==> !Credential(g)
  {
    hide Run, Step, Allowed, Credential;
    if !Allowed(calls, tableSize, tableSize, tableSize) {
      SizesAreAllowed(calls, tableSize, tableSize, tableSize);
    }
    RunDiscreet(NewSession(tableSize), calls, Credential);
  }

  // ---- what a decoder refuses ----------------------------------------------

  /** Index 0 means nothing (section 6.1). */
  lemma IndexZeroRefused(td: Table, rest: seq<byte>, allow: bool)
    ensures DecodeOne(td, IndexedField(0) + rest, allow) == Bad(InvalidIndex(0))
  {
    HpackInteger.PrefixBounds(7);
    HpackInteger.DecodeEncoded(0x80, 0, 7, rest);
  }

  /** A size update is only allowed before the first field of a block (section 4.2). */
  lemma LateUpdateRefused(te: Table, td: Table, f: Field, hint: Hint, size: nat, rest: seq<byte>, limit: nat)
    requires Akin(te, td) && Spelled(f) && IndexUsed(te, f) <= 61 + |td.entries| && EntrySize(f) <= limit
    ensures DecodeBlock(td, FieldBytes(te, f, hint) + (SizeUpdate(size) + rest), limit).result ==
      Err(UnexpectedTableSizeUpdate)
  {
    hide DecodeOne, FieldBytes, SizeUpdate, Follow, IndexUsed, Akin, Spelled, EntrySize;
    var tail := SizeUpdate(size) + rest;
    var bytes := FieldBytes(te, f, hint) + tail;
    FieldDeliversIff(te, td, f, hint, tail, true);
    UpdateNotAllowed(Follow(te, td, f, hint), size, rest);
    assert bytes[|FieldBytes(te, f, hint)|..] == tail;
    assert DecodeFrom(Follow(te, td, f, hint), tail, false, EntrySize(f), limit).result ==
      Err(UnexpectedTableSizeUpdate);
  }

  lemma UpdateNotAllowed(t: Table, size: nat, rest: seq<byte>)
    ensures DecodeOne(t, SizeUpdate(size) + rest, false) == Bad(UnexpectedTableSizeUpdate)
  {
    hide HpackInteger.Encoded, Pow2;
    FormOfUpdate(size);
    assert (SizeUpdate(size) + rest)[0] == SizeUpdate(size)[0];
  }
}
