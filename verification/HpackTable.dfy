/** The HPACK dynamic table (sections 2.3.2 and 4 of RFC 7541): a FIFO of header
    fields, newest first, that evicts its oldest entries to stay within a budget. */
module HpackTable {
  import opened Bytes

  datatype Field = Field(name: seq<byte>, value: seq<byte>)

  datatype HpackError =
    | IntegerOverflow
    | Truncated
    | InvalidIndex(index: nat)
    | InvalidHuffman
    | InvalidUtf8
    | TableSizeExceeded(requested: nat, limit: nat)
    | HeaderListTooLarge(limit: nat)
    | UnexpectedTableSizeUpdate

  const ENTRY_OVERHEAD: nat := 32

  function EntrySize(f: Field): nat {
    |f.name| + |f.value| + ENTRY_OVERHEAD
  }

  /** Section 4.1: the accounted size of a list of entries. */
  function SizeOf(entries: seq<Field>): nat {
    if entries == [] then 0 else SizeOf(entries[..|entries| - 1]) + EntrySize(entries[|entries| - 1])
  }

  /** What remains after dropping oldest entries until the rest fits `capacity`. */
  function Fit(entries: seq<Field>, capacity: int): seq<Field> {
    if entries == [] || SizeOf(entries) <= capacity then entries
    else Fit(entries[..|entries| - 1], capacity)
  }

  // ---- what Fit means ------------------------------------------------------

  lemma {:induction false} SizeOfConcat(a: seq<Field>, b: seq<Field>)
    ensures SizeOf(a + b) == SizeOf(a) + SizeOf(b)
  {
    if b == [] {
      assert a + b == a;
    } else {
      assert (a + b)[..|a + b| - 1] == a + b[..|b| - 1];
      SizeOfConcat(a, b[..|b| - 1]);
    }
  }

  lemma SizeOfPrefix(entries: seq<Field>, k: nat)
    requires k <= |entries|
    ensures SizeOf(entries[..k]) <= SizeOf(entries)
    ensures k < |entries| ==> SizeOf(entries[..k]) + ENTRY_OVERHEAD <= SizeOf(entries)
  {
    assert entries == entries[..k] + entries[k..];
    SizeOfConcat(entries[..k], entries[k..]);
  }

  /** `Fit` is exactly the longest newest-first prefix within the capacity. */
  lemma {:induction false} FitIsLongestPrefix(entries: seq<Field>, capacity: int)
    ensures Fit(entries, capacity) <= entries
    ensures forall k :: 0 < k <= |entries| ==>
      (k <= |Fit(entries, capacity)| <==> SizeOf(entries[..k]) <= capacity)
    ensures 0 <= capacity ==> SizeOf(Fit(entries, capacity)) <= capacity
  {
    if entries == [] || SizeOf(entries) <= capacity {
      forall k | 0 < k <= |entries| ensures SizeOf(entries[..k]) <= capacity {
        SizeOfPrefix(entries, k);
      }
    } else {
      var shorter := entries[..|entries| - 1];
      FitIsLongestPrefix(shorter, capacity);
      forall k | 0 < k <= |entries|
        ensures k <= |Fit(entries, capacity)| <==> SizeOf(entries[..k]) <= capacity
      {
        if k < |entries| {
          assert shorter[..k] == entries[..k];
        } else {
          assert entries[..k] == entries;
        }
      }
    }
  }

  /** Any prefix that fits is kept whole. */
  lemma FitKeeps(entries: seq<Field>, kept: seq<Field>, capacity: int)
    requires kept <= entries && SizeOf(kept) <= capacity
    ensures kept <= Fit(entries, capacity)
  {
    FitIsLongestPrefix(entries, capacity);
    assert kept == entries[..|kept|];
  }

  lemma FitNothing(entries: seq<Field>, capacity: int)
    requires capacity < ENTRY_OVERHEAD
    ensures Fit(entries, capacity) == []
  {
    FitIsLongestPrefix(entries, capacity);
    if entries != [] {
      assert entries[..1] == [entries[0]];
      assert SizeOf([entries[0]]) == EntrySize(entries[0]);
    }
  }

  /** Fitting twice is fitting once, to the smaller capacity. */
  lemma {:induction false} FitTwice(entries: seq<Field>, c1: nat, c2: nat)
    ensures Fit(Fit(entries, c1), c2) == Fit(entries, if c1 <= c2 then c1 else c2)
  {
    var once := Fit(entries, c1);
    var c := if c1 <= c2 then c1 else c2;
    FitIsLongestPrefix(entries, c1);
    FitIsLongestPrefix(once, c2);
    FitIsLongestPrefix(entries, c);
    var a, b := Fit(once, c2), Fit(entries, c);
    assert a == entries[..|a|] && b == entries[..|b|];
    assert |b| <= |once|;
    assert b == once[..|b|];
  }

  /** Older entries may be fitted before newer ones are put in front. */
  lemma FitInside(newer: seq<Field>, older: seq<Field>, capacity: nat)
    ensures Fit(newer + Fit(older, capacity), capacity) == Fit(newer + older, capacity)
  {
    var kept := Fit(older, capacity);
    FitIsLongestPrefix(older, capacity);
    FitIsLongestPrefix(newer + kept, capacity);
    FitIsLongestPrefix(newer + older, capacity);
    var a, b := Fit(newer + kept, capacity), Fit(newer + older, capacity);
    assert newer + kept <= newer + older;
    if |b| > |newer| + |kept| {
      var m := |b| - |newer|;
      assert b == newer + older[..m] == (newer + older)[..|b|];
      SizeOfConcat(newer, older[..m]);
    }
    assert b == (newer + kept)[..|b|];
    assert a == (newer + older)[..|a|];
  }

  /** Fitting keeps the prefix order between two tables. */
  lemma FitMonotone(a: seq<Field>, b: seq<Field>, capacity: nat)
    requires a <= b
    ensures Fit(a, capacity) <= Fit(b, capacity)
  {
    FitIsLongestPrefix(a, capacity);
    FitKeeps(b, Fit(a, capacity), capacity);
  }

  // ---- the abstract table --------------------------------------------------

  datatype Table = Table(entries: seq<Field>, capacity: nat, maxCapacity: nat) {
    ghost predicate WithinBudget() {
      SizeOf(entries) <= capacity
    }

    /** The invariant of every table reached through an encoder or a decoder. */
    ghost predicate Sound() {
      WithinBudget() && capacity <= maxCapacity
    }
  }

  function EmptyTable(maxCapacity: nat): Table {
    Table([], maxCapacity, maxCapacity)
  }

  function Resized(t: Table, capacity: nat): Table {
    t.(capacity := capacity, entries := Fit(t.entries, capacity))
  }

  /** A change of the ceiling, which evicts only when the capacity was above it. */
  function Capped(t: Table, ceiling: nat): Table {
    (if t.capacity > ceiling then Resized(t, ceiling) else t).(maxCapacity := ceiling)
  }

  /** Section 4.4: the new field enters at the front, then whatever no longer fits leaves. */
  function Inserted(t: Table, f: Field): Table {
    t.(entries := Fit([f] + t.entries, t.capacity))
  }

  /** A resize keeps the invariant exactly when it respects the ceiling, which nothing checks. */
  lemma ResizedSound(t: Table, capacity: nat)
    ensures Resized(t, capacity).Sound() <==> capacity <= t.maxCapacity
  {
    FitIsLongestPrefix(t.entries, capacity);
  }

  lemma CappedSound(t: Table, ceiling: nat)
    requires t.Sound()
    ensures Capped(t, ceiling).Sound()
  {
    FitIsLongestPrefix(t.entries, ceiling);
  }

  lemma InsertedSound(t: Table, f: Field)
    requires t.Sound()
    ensures Inserted(t, f).Sound()
  {
    FitIsLongestPrefix([f] + t.entries, t.capacity);
  }

  /** Making room first and adding afterwards, as the program does, gives the same entries. */
  lemma {:induction false} MakeRoomThenAdd(entries: seq<Field>, f: Field, capacity: nat)
    ensures Fit([f] + entries, capacity) ==
            if EntrySize(f) > capacity then [] else [f] + Fit(entries, capacity - EntrySize(f))
  {
    SizeOfConcat([f], entries);
    assert SizeOf([f]) == EntrySize(f);
    if entries == [] {
      assert [f] + entries == [f];
      assert Fit([f], capacity) == if EntrySize(f) <= capacity then [f] else Fit([f][..0], capacity);
    } else if SizeOf([f] + entries) > capacity {
      assert ([f] + entries)[..|[f] + entries| - 1] == [f] + entries[..|entries| - 1];
      MakeRoomThenAdd(entries[..|entries| - 1], f, capacity);
    }
  }

  // ---- the table as the program keeps it -----------------------------------

  class DynamicTable {
    var entries: seq<Field>
    var size: nat
    var capacity: nat
    var maxCapacity: nat

    function View(): Table
      reads this
    {
      Table(entries, capacity, maxCapacity)
    }

    ghost predicate Valid()
      reads this
    {
      size == SizeOf(entries) && View().WithinBudget()
    }

    constructor (maxCapacity: nat)
      ensures Valid() && View() == EmptyTable(maxCapacity)
    {
      entries, size, capacity := [], 0, maxCapacity;
      this.maxCapacity := maxCapacity;
    }

    /** Evict oldest entries until `additional` more bytes fit. */
    method EvictToFit(additional: nat)
      requires size == SizeOf(entries)
      modifies this`entries, this`size
      ensures entries == Fit(old(entries), capacity - additional)
      ensures size == SizeOf(entries)
    {
      while size + additional > capacity
        invariant size == SizeOf(entries)
        invariant Fit(entries, capacity - additional) == Fit(old(entries), capacity - additional)
        decreases |entries|
      {
        if entries == [] {
          break;
        }
        var oldest := entries[|entries| - 1];
        entries := entries[..|entries| - 1];
        size := size - EntrySize(oldest);
      }
    }

    method Resize(newCapacity: nat)
      requires size == SizeOf(entries)
      modifies this
      ensures Valid() && View() == Resized(old(View()), newCapacity)
    {
      capacity := newCapacity;
      EvictToFit(0);
      FitIsLongestPrefix(old(entries), newCapacity);
    }

    method SetMaxCapacity(newMax: nat)
      requires Valid()
      modifies this
      ensures Valid()
      ensures View() == Capped(old(View()), newMax)
      ensures capacity <= maxCapacity
    {
      maxCapacity := newMax;
      if capacity > newMax {
        Resize(newMax);
      }
    }

    method ApplySizeUpdate(newCapacity: nat) returns (r: Result<(), HpackError>)
      requires Valid()
      modifies this
      ensures Valid()
      ensures r == if newCapacity > old(maxCapacity)
                   then Err(TableSizeExceeded(newCapacity, old(maxCapacity))) else Ok(())
      ensures View() == if r.Ok? then Resized(old(View()), newCapacity) else old(View())
    {
      if newCapacity > maxCapacity {
        return Err(TableSizeExceeded(newCapacity, maxCapacity));
      }
      Resize(newCapacity);
      r := Ok(());
    }

    method Insert(f: Field)
      requires Valid()
      modifies this
      ensures Valid() && View() == Inserted(old(View()), f)
    {
      MakeRoomThenAdd(entries, f, capacity);
      FitIsLongestPrefix([f] + entries, capacity);
      var entrySize := EntrySize(f);
      EvictToFit(entrySize);
      if entrySize > capacity {
        FitNothing(old(entries), capacity - entrySize);
        return;
      }
      SizeOfConcat([f], entries);
      entries := [f] + entries;
      size := size + entrySize;
    }
  }
}
