/** Whole connections: an encoder driven by any calls, and a decoder fed its blocks in order. */
module HpackRuns {
  import opened Bytes
  import opened HpackTable
  import opened HpackIndex
  import opened HpackCodec
  import opened HpackDelivery
  import HpackInteger
  import HpackString
  import Utf8

  /** The decoder's default list budget; it also keeps every string's 32-bit length exact. */
  const DEFAULT_LIMIT: nat := 16 * 1024 * 1024

  /** A list the program can hold and the default budget accepts. */
  ghost predicate WithinBudget(fields: seq<Field>) {
    SizeOf(fields) <= DEFAULT_LIMIT &&
    forall i :: 0 <= i < |fields| ==> Utf8.Valid(fields[i].name) && Utf8.Valid(fields[i].value)
  }

  // ---- one block -----------------------------------------------------------

  /** The two tables inside a block: same capacity, the encoder's a prefix of the decoder's. */
  ghost predicate InStep(te: Table, td: Table) {
    && te.Sound() && td.Sound()
    && te.capacity == td.capacity && td.maxCapacity <= USIZE_MAX
    && te.entries <= td.entries
  }

  lemma InsertedInStep(te: Table, td: Table, f: Field)
    requires InStep(te, td)
    ensures InStep(Inserted(te, f), Inserted(td, f))
  {
    InsertedSound(te, f);
    InsertedSound(td, f);
    FitMonotone([f] + te.entries, [f] + td.entries, te.capacity);
  }

  /** A block keeps the two tables in step, and every index in it known. */
  lemma {:induction false} FieldsInStep(te: Table, td: Table, fields: seq<Field>, hints: seq<Hint>)
    requires InStep(te, td) && |hints| == |fields|
    ensures Known(te, td, fields, hints)
    ensures InStep(AfterFields(te, fields, hints), FollowAll(te, td, fields, hints))
    decreases |fields|
  {
    hide FirstFull, FirstName, StaticTable, InStep, Inserted;
    if fields != [] {
      var f, hint := fields[0], hints[0];
      InStepKnows(te, td, f);
      if AfterField(te, f, hint) != te || Follow(te, td, f, hint) != td {
        InsertedInStep(te, td, f);
      }
      FieldsInStep(AfterField(te, f, hint), Follow(te, td, f, hint), fields[1..], hints[1..]);
    }
  }

  lemma InStepKnows(te: Table, td: Table, f: Field)
    requires InStep(te, td)
    ensures IndexUsed(te, f) <= 61 + |td.entries|
  {
    hide FirstFull, FirstName, StaticTable;
    assert |Space(te.entries)| <= 61 + |td.entries|;
  }

  // ---- between blocks ------------------------------------------------------

  /** Encoder and decoder between blocks: what the encoder has not announced yet is all that
      may differ. */
  ghost predicate Connected(e: Encoder, td: Table) {
    && e.table.Sound() && td.Sound()
    && e.table.capacity <= td.maxCapacity <= USIZE_MAX && e.table.maxCapacity <= USIZE_MAX
    && e.table.entries <= td.entries
    && e.table.capacity == (if e.pending.Some? then e.pending.value else td.capacity)
  }

  /** A connected pair delivers every block and stays in step. */
  lemma BlockRoundTrip(e: Encoder, td: Table, fields: seq<Field>, hints: seq<Hint>)
    requires Connected(e, td) && |hints| == |fields| && WithinBudget(fields)
    ensures var o := DecodeBlock(td, BlockBytes(e, fields, hints), DEFAULT_LIMIT);
      && o == HpackCodec.Outcome(Ok(fields), FollowAll(e.table, Announced(e, td), fields, hints))
      && InStep(AfterBlock(e, fields, hints).table, o.table)
      && (e.table == Announced(e, td) ==> o.table == AfterBlock(e, fields, hints).table)
  {
    hide DecodeBlock, BlockBytes, AfterFields, FollowAll, Known, SpelledAll, WithinBudget;
    BudgetSpelled(fields);
    ConnectedAkin(e, td);
    BlockDeliversIff(e, td, fields, hints, DEFAULT_LIMIT);
    FieldsInStep(e.table, Announced(e, td), fields, hints);
    FollowSelf(e.table, fields, hints);
  }

  lemma ConnectedAkin(e: Encoder, td: Table)
    requires Connected(e, td)
    ensures Akin(e.table, td) && InStep(e.table, Announced(e, td))
    ensures e.pending.Some? ==> e.pending.value <= td.maxCapacity
  {
    if e.pending.Some? {
      ResizedSound(td, e.pending.value);
      FitKeeps(td.entries, e.table.entries, e.pending.value);
    }
  }

  /** Within the default budget no string is long enough for its length to be announced wrongly. */
  lemma BudgetSpelled(fields: seq<Field>)
    requires WithinBudget(fields)
    ensures SpelledAll(fields) && SizeOf(fields) <= DEFAULT_LIMIT
  {
    hide HpackString.Misannounced, Utf8.Valid, SizeOf;
    forall i | 0 <= i < |fields| ensures Spelled(fields[i]) {
      EntryWithin(fields, i);
      HpackString.ShortIsAnnounced(fields[i].name);
      HpackString.ShortIsAnnounced(fields[i].value);
    }
  }

  lemma {:induction false} EntryWithin(fields: seq<Field>, i: nat)
    requires i < |fields|
    ensures EntrySize(fields[i]) <= SizeOf(fields)
  {
    if i < |fields| - 1 {
      EntryWithin(fields[..|fields| - 1], i);
    }
  }

  // ---- whole runs ----------------------------------------------------------

  /** A call on the encoder, or a new ceiling for the decoder's table. */
  datatype Call =
    | SetSize(size: nat)
    | SetCeiling(ceiling: nat)
    | Encode(fields: seq<Field>)
    | EncodeWithHints(fields: seq<Field>, hints: seq<Hint>)
  {
    predicate IsBlock() {
      Encode? || EncodeWithHints?
    }
  }

  ghost predicate Admissible(calls: seq<Call>) {
    forall i :: 0 <= i < |calls| ==>
      (calls[i].SetCeiling? ==> calls[i].ceiling <= USIZE_MAX) &&
      (calls[i].Encode? ==> WithinBudget(calls[i].fields)) &&
      (calls[i].EncodeWithHints? ==> WithinBudget(calls[i].fields) && |calls[i].hints| == |calls[i].fields|)
  }

  /** No call puts the size the encoder uses above the decoder's ceiling. */
  predicate Allowed(calls: seq<Call>, encoderMax: nat, capacity: nat, ceiling: nat)
    decreases |calls|
  {
    calls == [] ||
    match calls[0]
    case SetSize(size) =>
      Min(size, encoderMax) <= ceiling && Allowed(calls[1..], encoderMax, Min(size, encoderMax), ceiling)
    case SetCeiling(c) => capacity <= c && Allowed(calls[1..], encoderMax, capacity, c)
    case _ => Allowed(calls[1..], encoderMax, capacity, ceiling)
  }

  /** Without ceiling changes every sequence of calls is allowed. */
  lemma {:induction false} SizesAreAllowed(calls: seq<Call>, encoderMax: nat, capacity: nat, ceiling: nat)
    requires encoderMax <= ceiling && forall i :: 0 <= i < |calls| ==> !calls[i].SetCeiling?
    ensures Allowed(calls, encoderMax, capacity, ceiling)
    decreases |calls|
  {
    if calls != [] {
      SizesAreAllowed(calls[1..], encoderMax,
        if calls[0].SetSize? then Min(calls[0].size, encoderMax) else capacity, ceiling);
    }
  }

  function HintsOf(c: Call, sensitive: Field -> bool): seq<Hint>
    requires c.IsBlock()
  {
    if c.Encode? then DefaultHints(sensitive, c.fields) else c.hints
  }

  /** The encoder, the decoder, and what the decoder has returned, after some calls. */
  datatype Session = Session(encoder: Encoder, decoder: Table, received: seq<Result<seq<Field>, HpackError>>)

  function NewSession(tableSize: nat): Session {
    Session(NewEncoder(tableSize), EmptyTable(tableSize), [])
  }

  /** One call; a block goes to the decoder at once. */
  ghost function Step(s: Session, c: Call, sensitive: Field -> bool): Session
    requires Admissible([c])
  {
    assert [c][0] == c;
    match c
    case SetSize(size) => s.(encoder := SetTableSize(s.encoder, size))
    case SetCeiling(ceiling) => s.(decoder := Capped(s.decoder, ceiling))
    case _ =>
      var hints := HintsOf(c, sensitive);
      var o := DecodeBlock(s.decoder, BlockBytes(s.encoder, c.fields, hints), DEFAULT_LIMIT);
      Session(AfterBlock(s.encoder, c.fields, hints), o.table, s.received + [o.result])
  }

  ghost function Run(s: Session, calls: seq<Call>, sensitive: Field -> bool): Session
    requires Admissible(calls)
    decreases |calls|
  {
    if calls == [] then s
    else
      assert [calls[0]][0] == calls[0];
      Run(Step(s, calls[0], sensitive), calls[1..], sensitive)
  }

  /** The lists that were passed to the encoder, in order. */
  function Sent(calls: seq<Call>): seq<Result<seq<Field>, HpackError>> {
    if calls == [] then []
    else (if calls[0].IsBlock() then [Ok(calls[0].fields)] else []) + Sent(calls[1..])
  }

  lemma SetSizeConnected(e: Encoder, td: Table, size: nat)
    requires Connected(e, td) && Min(size, e.table.maxCapacity) <= td.maxCapacity
    ensures Connected(SetTableSize(e, size), td)
  {
    var clamped := SetTableSize(e, size).table.capacity;
    ResizedSound(e.table, clamped);
    FitIsLongestPrefix(e.table.entries, clamped);
  }

  lemma SetCeilingConnected(e: Encoder, td: Table, ceiling: nat)
    requires Connected(e, td) && e.table.capacity <= ceiling <= USIZE_MAX
    ensures Connected(e, Capped(td, ceiling))
  {
    CappedSound(td, ceiling);
    FitKeeps(td.entries, e.table.entries, ceiling);
  }

  lemma {:induction false} AfterFieldsSizes(t: Table, fields: seq<Field>, hints: seq<Hint>)
    requires |hints| == |fields|
    ensures var t' := AfterFields(t, fields, hints); t'.capacity == t.capacity && t'.maxCapacity == t.maxCapacity
    decreases |fields|
  {
    if fields != [] {
      AfterFieldsSizes(AfterField(t, fields[0], hints[0]), fields[1..], hints[1..]);
    }
  }

  lemma {:induction false} FollowAllSizes(te: Table, td: Table, fields: seq<Field>, hints: seq<Hint>)
    requires |hints| == |fields|
    ensures var t := FollowAll(te, td, fields, hints); t.capacity == td.capacity && t.maxCapacity == td.maxCapacity
    decreases |fields|
  {
    hide FirstFull, Space;
    if fields != [] {
      FollowAllSizes(AfterField(te, fields[0], hints[0]), Follow(te, td, fields[0], hints[0]), fields[1..], hints[1..]);
    }
  }

  lemma StepConnected(s: Session, c: Call, sensitive: Field -> bool)
    requires Admissible([c]) && Connected(s.encoder, s.decoder)
    requires c.SetSize? ==> Min(c.size, s.encoder.table.maxCapacity) <= s.decoder.maxCapacity
    requires c.SetCeiling? ==> s.encoder.table.capacity <= c.ceiling
    ensures var s' := Step(s, c, sensitive);
      && Connected(s'.encoder, s'.decoder)
      && s'.received == s.received + Sent([c])
      && (c.IsBlock() ==> s'.encoder.table.capacity == s'.decoder.capacity)
      && s'.encoder.table.maxCapacity == s.encoder.table.maxCapacity
      && s'.encoder.table.capacity ==
         (if c.SetSize? then Min(c.size, s.encoder.table.maxCapacity) else s.encoder.table.capacity)
      && s'.decoder.maxCapacity == (if c.SetCeiling? then c.ceiling else s.decoder.maxCapacity)
  {
    hide DecodeBlock, BlockBytes, WithinBudget, FollowAll, AfterFields;
    assert [c][0] == c && [c][1..] == [];
    match c
    case SetSize(size) => SetSizeConnected(s.encoder, s.decoder, size);
    case SetCeiling(ceiling) => SetCeilingConnected(s.encoder, s.decoder, ceiling);
    case _ =>
      var hints := HintsOf(c, sensitive);
      BlockRoundTrip(s.encoder, s.decoder, c.fields, hints);
      AfterFieldsSizes(s.encoder.table, c.fields, hints);
      FollowAllSizes(s.encoder.table, Announced(s.encoder, s.decoder), c.fields, hints);
  }

  lemma {:induction false} RunConnected(s: Session, calls: seq<Call>, sensitive: Field -> bool)
    requires Admissible(calls) && Connected(s.encoder, s.decoder)
    requires Allowed(calls, s.encoder.table.maxCapacity, s.encoder.table.capacity, s.decoder.maxCapacity)
    ensures var s' := Run(s, calls, sensitive);
      Connected(s'.encoder, s'.decoder) && s'.received == s.received + Sent(calls)
    decreases |calls|
  {
    hide Step, Connected;
    if calls != [] {
      var c := calls[0];
      assert [c][0] == c && [c][1..] == [] && calls == [c] + calls[1..];
      StepConnected(s, c, sensitive);
      RunConnected(Step(s, c, sensitive), calls[1..], sensitive);
      assert s.received + Sent([c]) + Sent(calls[1..]) == s.received + (Sent([c]) + Sent(calls[1..]));
    }
  }

  /** For any calls on a fresh pair that keep the encoder's size within the decoder's ceiling,
      which all calls on the encoder alone do: the decoder returns exactly the lists sent, and
      the encoder's table is a prefix of the decoder's. */
  lemma EveryRunDelivers(tableSize: nat, calls: seq<Call>, sensitive: Field -> bool)
    requires tableSize <= USIZE_MAX && Admissible(calls)
    requires Allowed(calls, tableSize, tableSize, tableSize) || forall i :: 0 <= i < |calls| ==> !calls[i].SetCeiling?
    ensures var s := Run(NewSession(tableSize), calls, sensitive);
      && s.received == Sent(calls)
      && s.encoder.table.entries <= s.decoder.entries
      && s.encoder.table.Sound() && s.decoder.Sound()
      && (s.encoder.pending.None? ==> s.encoder.table.capacity == s.decoder.capacity)
  {
    hide Run, Step, Sent, Allowed;
    if !Allowed(calls, tableSize, tableSize, tableSize) {
      SizesAreAllowed(calls, tableSize, tableSize, tableSize);
    }
    RunConnected(NewSession(tableSize), calls, sensitive);
    assert NewSession(tableSize).received + Sent(calls) == Sent(calls);
  }
}
