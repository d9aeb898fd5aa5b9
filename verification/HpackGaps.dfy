/** Table size changes between two blocks.  The encoder evicts at every change but announces
    only the last size, so after a shrink and a growth its table may be the shorter one. */
module HpackGaps {
  import opened Bytes
  import opened HpackTable
  import opened HpackIndex
  import opened HpackCodec
  import opened HpackDelivery
  import opened HpackRuns

  /** Several `SetTableSize` calls in a row. */
  function AfterSizes(e: Encoder, sizes: seq<nat>): Encoder
    decreases |sizes|
  {
    if sizes == [] then e else SetTableSize(AfterSizes(e, sizes[..|sizes| - 1]), sizes[|sizes| - 1])
  }

  function Smallest(sizes: seq<nat>): (m: nat)
    requires sizes != []
    ensures m in sizes && forall i :: 0 <= i < |sizes| ==> m <= sizes[i]
  {
    var last := sizes[|sizes| - 1];
    if |sizes| == 1 then last
    else
      assert sizes == sizes[..|sizes| - 1] + [last];
      Min(Smallest(sizes[..|sizes| - 1]), last)
  }

  /** The encoder ends up fitted to the smallest size, whatever the order of the calls. */
  lemma {:induction false} AfterSizesFits(e: Encoder, sizes: seq<nat>)
    requires sizes != []
    ensures var e' := AfterSizes(e, sizes);
      && e'.table.maxCapacity == e.table.maxCapacity
      && e'.pending == Some(Min(sizes[|sizes| - 1], e.table.maxCapacity))
      && e'.table.capacity == Min(sizes[|sizes| - 1], e.table.maxCapacity)
      && e'.table.entries == Fit(e.table.entries, Min(Smallest(sizes), e.table.maxCapacity))
    decreases |sizes|
  {
    if |sizes| > 1 {
      var front, last := sizes[..|sizes| - 1], sizes[|sizes| - 1];
      AfterSizesFits(e, front);
      FitTwice(e.table.entries, Min(Smallest(front), e.table.maxCapacity), Min(last, e.table.maxCapacity));
    } else {
      assert sizes[..0] == [];
    }
  }

  /** A smaller fit equals a larger one exactly when what the larger keeps fits the smaller. */
  lemma FitsEqualIff(entries: seq<Field>, small: nat, large: nat)
    requires small <= large
    ensures Fit(entries, small) == Fit(entries, large) <==> SizeOf(Fit(entries, large)) <= small
  {
    FitIsLongestPrefix(entries, small);
    FitIsLongestPrefix(entries, large);
    if SizeOf(Fit(entries, large)) <= small {
      FitKeeps(entries, Fit(entries, large), small);
      SizeOfPrefix(entries, |Fit(entries, small)|);
      FitKeeps(entries, Fit(entries, small), large);
    }
  }

  /** A block without fields only announces the pending size. */
  lemma EmptyBlock(e: Encoder, td: Table)
    requires e.pending.Some? && e.pending.value <= td.maxCapacity <= USIZE_MAX
    ensures DecodeBlock(td, BlockBytes(e, [], []), DEFAULT_LIMIT) == Outcome(Ok([]), Announced(e, td))
    ensures AfterBlock(e, [], []).table == e.table
  {
    hide DecodeOne, SizeUpdate;
    var bytes := SizeUpdate(e.pending.value);
    UpdateRoundTrip(td, e.pending.value, []);
    assert bytes + [] == bytes && bytes[|bytes|..] == [];
    assert FieldsBytes(e.table, [], []) == [];
    assert BlockBytes(e, [], []) == bytes;
    assert DecodeFrom(td, bytes, true, 0, DEFAULT_LIMIT)
        == DecodeFrom(Announced(e, td), bytes[|bytes|..], true, 0, DEFAULT_LIMIT);
  }

  // ---- any block after a gap -----------------------------------------------

  /** What the fields of a block add to both tables, newest first. */
  function Added(te: Table, fields: seq<Field>, hints: seq<Hint>): seq<Field>
    requires |hints| == |fields|
    decreases |fields|
  {
    if fields == [] then []
    else
      var f, hint := fields[0], hints[0];
      Added(AfterField(te, f, hint), fields[1..], hints[1..])
      + (if FirstFull(Space(te.entries), f).None? && hint == Index then [f] else [])
  }

  /** A table that follows the encoder keeps what fits of the additions and its own entries. */
  lemma {:induction false} FollowAllFit(te: Table, td: Table, fields: seq<Field>, hints: seq<Hint>)
    requires |hints| == |fields| && td.WithinBudget()
    ensures FollowAll(te, td, fields, hints) == td.(entries := Fit(Added(te, fields, hints) + td.entries, td.capacity))
    decreases |fields|
  {
    hide FirstFull, Space, Fit, SizeOf, AfterField;
    if fields == [] {
      FitWhole(td.entries, td.capacity);
      assert [] + td.entries == td.entries;
    } else {
      var f, hint := fields[0], hints[0];
      var te', td' := AfterField(te, f, hint), Follow(te, td, f, hint);
      var later := Added(te', fields[1..], hints[1..]);
      FitIsLongestPrefix([f] + td.entries, td.capacity);
      FollowAllFit(te', td', fields[1..], hints[1..]);
      if FirstFull(Space(te.entries), f).None? && hint == Index {
        FitInside(later, [f] + td.entries, td.capacity);
        assert later + ([f] + td.entries) == (later + [f]) + td.entries;
      } else {
        assert later + [] == later;
      }
    }
  }

  lemma FitWhole(entries: seq<Field>, capacity: nat)
    requires SizeOf(entries) <= capacity
    ensures Fit(entries, capacity) == entries
  {
  }

  /** Two tables, one extending the other, end up equal exactly when they were equal or the
      additions push out the first entry that only the longer one has. */
  lemma FitsMeetIff(added: seq<Field>, a: seq<Field>, b: seq<Field>, capacity: nat)
    requires a <= b
    ensures Fit(added + a, capacity) == Fit(added + b, capacity) <==>
      a == b || (|a| < |b| && SizeOf(added + b[..|a| + 1]) > capacity)
  {
    hide Fit, SizeOf;
    assert added + a <= added + b;
    FitMonotone(added + a, added + b, capacity);
    if |a| < |b| {
      var k := |added| + |a| + 1;
      var y := Fit(added + b, capacity);
      FitIsLongestPrefix(added + a, capacity);
      FitIsLongestPrefix(added + b, capacity);
      assert (added + b)[..k] == added + b[..|a| + 1];
      if |y| < k {
        assert y == (added + a)[..|y|];
        FitKeeps(added + a, y, capacity);
      }
    } else {
      assert a == b;
    }
  }

  /** After any block the tables are equal if and only if they were equal once the size was
      announced, or the block's additions push out the first entry that only the decoder kept. */
  lemma BlockTablesEqualIff(e: Encoder, td: Table, fields: seq<Field>, hints: seq<Hint>)
    requires Connected(e, td) && |hints| == |fields| && WithinBudget(fields)
    ensures var kept := Announced(e, td).entries;
      var own := e.table.entries;
      var decoder := DecodeBlock(td, BlockBytes(e, fields, hints), DEFAULT_LIMIT).table;
      AfterBlock(e, fields, hints).table.entries == decoder.entries <==>
        own == kept ||
        (|own| < |kept| && SizeOf(Added(e.table, fields, hints) + kept[..|own| + 1]) > e.table.capacity)
  {
    hide DecodeBlock, BlockBytes, AfterFields, FollowAll, Added, WithinBudget, Fit, SizeOf;
    var t := Announced(e, td);
    BlockRoundTrip(e, td, fields, hints);
    FollowSelf(e.table, fields, hints);
    FollowAllFit(e.table, e.table, fields, hints);
    AnnouncedExtends(e, td);
    FollowAllFit(e.table, t, fields, hints);
    FitsMeetIff(Added(e.table, fields, hints), e.table.entries, t.entries, e.table.capacity);
  }

  lemma AnnouncedExtends(e: Encoder, td: Table)
    requires Connected(e, td)
    ensures var t := Announced(e, td);
      t.WithinBudget() && e.table.entries <= t.entries && t.capacity == e.table.capacity
  {
    if e.pending.Some? {
      FitIsLongestPrefix(td.entries, e.pending.value);
      FitKeeps(td.entries, e.table.entries, e.pending.value);
    }
  }

  lemma {:induction false} AfterSizesConnected(e: Encoder, td: Table, sizes: seq<nat>)
    requires Connected(e, td) && e.table.maxCapacity == td.maxCapacity
    ensures Connected(AfterSizes(e, sizes), td) && AfterSizes(e, sizes).table.maxCapacity == td.maxCapacity
    decreases |sizes|
  {
    hide Connected;
    if sizes != [] {
      AfterSizesConnected(e, td, sizes[..|sizes| - 1]);
      SetSizeConnected(AfterSizes(e, sizes[..|sizes| - 1]), td, sizes[|sizes| - 1]);
    }
  }

  /** From equal tables, one gap of size changes and any block: the tables are equal again if and
      only if everything the announced size keeps also fits the smallest, or the block's additions
      push out the first entry that does not. */
  lemma GapTablesEqualIff(e: Encoder, td: Table, sizes: seq<nat>, fields: seq<Field>, hints: seq<Hint>)
    requires Connected(e, td) && e.table == td && e.pending == None && sizes != []
    requires |hints| == |fields| && WithinBudget(fields)
    ensures var e' := AfterSizes(e, sizes);
      var announced := Min(sizes[|sizes| - 1], td.maxCapacity);
      var kept := Fit(td.entries, announced);
      var own := Fit(td.entries, Min(Smallest(sizes), td.maxCapacity));
      var decoder := DecodeBlock(td, BlockBytes(e', fields, hints), DEFAULT_LIMIT).table;
      AfterBlock(e', fields, hints).table.entries == decoder.entries <==>
        SizeOf(kept) <= Min(Smallest(sizes), td.maxCapacity) ||
        (|own| < |kept| && SizeOf(Added(e'.table, fields, hints) + kept[..|own| + 1]) > announced)
  {
    hide DecodeBlock, BlockBytes, AfterBlock, Added, AfterSizes, Smallest, Connected, WithinBudget, Fit, SizeOf;
    AfterSizesFits(e, sizes);
    AfterSizesConnected(e, td, sizes);
    BlockTablesEqualIff(AfterSizes(e, sizes), td, fields, hints);
    FitsEqualIff(td.entries, Min(Smallest(sizes), td.maxCapacity), Min(sizes[|sizes| - 1], td.maxCapacity));
  }

  // ---- runs whose gaps end at their smallest size --------------------------

  /** In every gap of the calls on the encoder the last size is the smallest; `gap` holds the sizes already set. */
  ghost predicate Tidy(calls: seq<Call>, gap: seq<nat>)
    decreases |calls|
  {
    calls == [] ||
    (if calls[0].SetSize? then Tidy(calls[1..], gap + [calls[0].size])
     else calls[0].IsBlock() && (gap != [] ==> gap[|gap| - 1] == Smallest(gap)) && Tidy(calls[1..], []))
  }

  /** Since the last block only size changes have happened. */
  ghost predicate ApartBy(s: Session, gap: seq<nat>) {
    s.encoder == AfterSizes(Encoder(s.decoder, None), gap)
  }

  lemma StepApart(s: Session, c: Call, sensitive: Field -> bool, gap: seq<nat>)
    requires Admissible([c]) && Connected(s.encoder, s.decoder) && ApartBy(s, gap)
    requires !c.SetCeiling? && (!c.SetSize? && gap != [] ==> gap[|gap| - 1] == Smallest(gap))
    ensures ApartBy(Step(s, c, sensitive), if c.SetSize? then gap + [c.size] else [])
  {
    hide DecodeBlock, BlockBytes, WithinBudget, Smallest, AfterFields, AfterSizes, SetTableSize, Announced, FollowAll;
    assert [c][0] == c;
    if c.SetSize? {
      OneSizeMore(Encoder(s.decoder, None), gap, c.size);
    } else {
      ApartAnnounces(s, gap);
      BlockRoundTrip(s.encoder, s.decoder, c.fields, HintsOf(c, sensitive));
      NoSizes(Encoder(Step(s, c, sensitive).decoder, None));
    }
  }

  lemma NoSizes(e: Encoder)
    ensures AfterSizes(e, []) == e
  {
  }

  lemma OneSizeMore(e: Encoder, sizes: seq<nat>, size: nat)
    ensures AfterSizes(e, sizes + [size]) == SetTableSize(AfterSizes(e, sizes), size)
  {
    hide SetTableSize;
    assert (sizes + [size])[..|sizes|] == sizes;
  }

  /** Reading the announced size brings the decoder's table to the encoder's when the last size
      was the smallest. */
  lemma ApartAnnounces(s: Session, gap: seq<nat>)
    requires ApartBy(s, gap) && (gap != [] ==> gap[|gap| - 1] == Smallest(gap))
    ensures s.encoder.table == Announced(s.encoder, s.decoder)
  {
    hide Smallest, Fit;
    if gap != [] {
      AfterSizesFits(Encoder(s.decoder, None), gap);
    }
  }

  lemma ApartCeiling(s: Session, gap: seq<nat>)
    requires ApartBy(s, gap)
    ensures s.encoder.table.maxCapacity == s.decoder.maxCapacity
  {
    hide Smallest;
    if gap != [] {
      AfterSizesFits(Encoder(s.decoder, None), gap);
    }
  }

  lemma {:induction false} RunApart(s: Session, calls: seq<Call>, sensitive: Field -> bool, gap: seq<nat>)
    requires Admissible(calls) && Connected(s.encoder, s.decoder) && ApartBy(s, gap) && Tidy(calls, gap)
    ensures exists gap' :: ApartBy(Run(s, calls, sensitive), gap')
    decreases |calls|
  {
    hide Step, Connected, Smallest, AfterSizes, ApartBy;
    if calls == [] {
      assert ApartBy(Run(s, calls, sensitive), gap);
    } else {
      var c := calls[0];
      assert [c][0] == c;
      ApartCeiling(s, gap);
      StepConnected(s, c, sensitive);
      StepApart(s, c, sensitive, gap);
      RunApart(Step(s, c, sensitive), calls[1..], sensitive, if c.SetSize? then gap + [c.size] else []);
      assert Run(s, calls, sensitive) == Run(Step(s, c, sensitive), calls[1..], sensitive);
    }
  }

  /** When every gap ends at its smallest size, the tables are equal after every block. */
  lemma TidyRunsStayEqual(tableSize: nat, calls: seq<Call>, sensitive: Field -> bool)
    requires tableSize <= USIZE_MAX && Admissible(calls) && Tidy(calls, [])
    ensures var s := Run(NewSession(tableSize), calls, sensitive);
      s.encoder.pending.None? ==> s.encoder.table == s.decoder
  {
    var s := Run(NewSession(tableSize), calls, sensitive);
    RunApart(NewSession(tableSize), calls, sensitive, []);
    var gap :| ApartBy(s, gap);
    if gap != [] {
      AfterSizesFits(Encoder(s.decoder, None), gap);
    }
  }

  // ---- and a run that does not ---------------------------------------------

  /** Emptying a non-empty table and restoring its size between two blocks separates them. */
  lemma ShrinkThenGrowSeparates(s: Session, sensitive: Field -> bool)
    requires Connected(s.encoder, s.decoder) && s.encoder == Encoder(s.decoder, None)
    requires s.decoder.entries != []
    ensures var calls := [SetSize(0), SetSize(s.decoder.capacity), EncodeWithHints([], [])];
      Admissible(calls) &&
      var s' := Run(s, calls, sensitive);
      s'.encoder.table.entries == [] && s'.decoder == s.decoder
  {
    var c0, c1, c2 := SetSize(0), SetSize(s.decoder.capacity), EncodeWithHints([], []);
    var calls := [c0, c1, c2];
    Settings(s.decoder.capacity);
    hide DecodeBlock, BlockBytes, Run, Step, Admissible, Announced, Connected;
    assert calls[1..] == [c1, c2] && [c1, c2][1..] == [c2] && [c2][1..] == [];
    assert calls[0] == c0 && [c1, c2][0] == c1 && [c2][0] == c2;
    var s1 := Step(s, c0, sensitive);
    var s2 := Step(s1, c1, sensitive);
    RunFirst(s, calls, sensitive);
    RunFirst(s1, [c1, c2], sensitive);
    RunFirst(s2, [c2], sensitive);
    RunNothing(Step(s2, c2, sensitive), sensitive);
    ShrinkThenGrow(s, sensitive);
    EmptyStep(s2, sensitive);
  }

  lemma Settings(size: nat)
    ensures var c0, c1, c2 := SetSize(0), SetSize(size), EncodeWithHints([], []);
      Admissible([c0, c1, c2]) && Admissible([c1, c2]) && Admissible([c0]) && Admissible([c1]) && Admissible([c2])
  {
    assert SizeOf([]) == 0;
  }

  /** The two size changes: the encoder is emptied and announces the old size. */
  lemma ShrinkThenGrow(s: Session, sensitive: Field -> bool)
    requires Connected(s.encoder, s.decoder) && s.encoder == Encoder(s.decoder, None)
    requires Admissible([SetSize(0)]) && Admissible([SetSize(s.decoder.capacity)])
    ensures var s2 := Step(Step(s, SetSize(0), sensitive), SetSize(s.decoder.capacity), sensitive);
      && s2.decoder == s.decoder && s2.encoder.table.entries == []
      && s2.encoder.pending == Some(s.decoder.capacity)
      && Announced(s2.encoder, s2.decoder) == s.decoder && s.decoder.capacity <= s.decoder.maxCapacity <= USIZE_MAX
  {
    hide Fit, SizeOf, Admissible;
    Gap(s.decoder);
  }

  /** A block without fields, in a run. */
  lemma EmptyStep(s: Session, sensitive: Field -> bool)
    requires s.encoder.pending.Some? && s.encoder.pending.value <= s.decoder.maxCapacity <= USIZE_MAX
    requires Admissible([EncodeWithHints([], [])])
    ensures var s' := Step(s, EncodeWithHints([], []), sensitive);
      s'.encoder.table == s.encoder.table && s'.decoder == Announced(s.encoder, s.decoder)
  {
    hide DecodeBlock, BlockBytes, AfterBlock, Announced, Admissible;
    EmptyBlock(s.encoder, s.decoder);
  }

  lemma RunNothing(s: Session, sensitive: Field -> bool)
    ensures Run(s, [], sensitive) == s
  {
  }

  lemma Gap(t: Table)
    requires t.Sound()
    ensures Fit(Fit(t.entries, 0), t.capacity) == [] && Fit(t.entries, t.capacity) == t.entries
  {
    FitNothing(t.entries, 0);
  }

  lemma NulNameIsNotStatic(f: Field)
    requires |f.name| == 1
    ensures f !in StaticTable()
  {
    NotInFirstHalf(f);
    NotInSecondHalf(f);
    hide Static0, Static1, Static2, Static3;
  }

  lemma NotInFirstHalf(f: Field)
    requires |f.name| == 1
    ensures f !in Static0() && f !in Static1()
  {
  }

  lemma NotInSecondHalf(f: Field)
    requires |f.name| == 1
    ensures f !in Static2() && f !in Static3()
  {
  }

  /** A concrete run of the program after which the two tables differ. */
  lemma TablesCanDiffer(sensitive: Field -> bool)
    ensures var f := Field([0], []);
      var calls := [EncodeWithHints([f], [Index]), SetSize(0), SetSize(4096), EncodeWithHints([], [])];
      Admissible(calls) &&
      var s := Run(NewSession(4096), calls, sensitive);
      s.encoder.table.entries == [] && s.decoder.entries == [f]
  {
    hide DecodeBlock, BlockBytes, StaticTable, Run;
    var f := Field([0], []);
    var c0 := EncodeWithHints([f], [Index]);
    var rest := [SetSize(0), SetSize(4096), EncodeWithHints([], [])];
    var calls := [c0, SetSize(0), SetSize(4096), EncodeWithHints([], [])];
    assert SizeOf([f]) == 33;
    assert SizeOf([]) == 0;
    assert [c0][0] == c0 && calls[0] == c0 && calls[1..] == rest;
    var s0 := NewSession(4096);
    IndexedFirst(s0.encoder.table, f);
    BlockRoundTrip(s0.encoder, s0.decoder, [f], [Index]);
    var s1 := Step(s0, c0, sensitive);
    StepConnected(s0, c0, sensitive);
    ShrinkThenGrowSeparates(s1, sensitive);
    RunFirst(s0, calls, sensitive);
  }

  lemma IndexedFirst(t: Table, f: Field)
    requires t == EmptyTable(4096) && |f.name| == 1 && EntrySize(f) <= 4096
    ensures AfterFields(t, [f], [Index]).entries == [f]
  {
    hide StaticTable;
    NulNameIsNotStatic(f);
    assert Space([]) == StaticTable();
    assert AfterFields(t, [f], [Index]) == AfterField(t, f, Index);
    assert [f] + [] == [f];
    assert SizeOf([f]) == EntrySize(f);
    FitKeeps([f], [f], 4096);
    assert Inserted(t, f).entries == [f];
  }

  lemma RunFirst(s: Session, calls: seq<Call>, sensitive: Field -> bool)
    requires calls != [] && Admissible(calls) && Admissible([calls[0]])
    ensures Run(s, calls, sensitive) == Run(Step(s, calls[0], sensitive), calls[1..], sensitive)
  {
    hide Step;
  }
}
