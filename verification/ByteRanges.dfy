/** The `Range` header (section 14.1.2 of RFC 9110) against an entity of known length. */
module ByteRanges {
  import opened Bytes
  import opened Text
  import Utf8

  datatype RangeParse =
    | NoRange
    | Single(start: nat, end: nat)
    | Multiple(ranges: seq<(nat, nat)>)
    | Unsatisfiable

  /** What one element of the list contributes. */
  datatype Part = Rejected | Skipped | Accepted(start: nat, end: nat)

  function ParsePart(part: seq<byte>, len: nat): (r: Part)
    requires len > 0
    ensures r.Accepted? ==> r.start <= r.end < len
  {
    match IndexOf(part, MINUS)
    case None => Rejected
    case Some(dash) =>
      var first, second := Trim(part[..dash]), Trim(part[dash + 1..]);
      if first == [] && second == [] then Rejected
      else if first == [] then
        match ParseU64(second)
        case None => Rejected
        case Some(n) => if n == 0 then Skipped else Accepted(len - Min(n, len), len - 1)
      else if second == [] then
        match ParseU64(first)
        case None => Rejected
        case Some(s) => if s >= len then Skipped else Accepted(s, len - 1)
      else
        match (ParseU64(first), ParseU64(second))
        case (Some(s), Some(e)) => if s > e || s >= len then Skipped else Accepted(s, Min(e, len - 1))
        case _ => Rejected
  }

  /** The accepted ranges of the elements in order, and whether any element was not blank;
      nothing when an element is rejected. */
  function Collect(parts: seq<seq<byte>>, len: nat): Option<(seq<(nat, nat)>, bool)>
    requires len > 0
  {
    if parts == [] then Some(([], false))
    else
      match Collect(parts[..|parts| - 1], len)
      case None => None
      case Some((ranges, sawAny)) =>
        var part := Trim(parts[|parts| - 1]);
        if part == [] then Some((ranges, sawAny))
        else
          match ParsePart(part, len)
          case Rejected => None
          case Skipped => Some((ranges, true))
          case Accepted(start, end) => Some((ranges + [(start, end)], true))
  }

  function Classify(ranges: seq<(nat, nat)>): RangeParse {
    if |ranges| == 0 then Unsatisfiable
    else if |ranges| == 1 then Single(ranges[0].0, ranges[0].1)
    else Multiple(ranges)
  }

  const UNIT: seq<byte> := Ascii("bytes=")

  function ParseRange(header: seq<byte>, len: nat): RangeParse {
    var h := Trim(header);
    if !(UNIT <= h) then NoRange
    else if len == 0 then Unsatisfiable
    else
      match Collect(Split(h[|UNIT|..], COMMA), len)
      case None => NoRange
      case Some((ranges, sawAny)) => if !sawAny then NoRange else Classify(ranges)
  }

  method ComputeParseRange(header: seq<byte>, len: nat) returns (r: RangeParse)
    ensures r == ParseRange(header, len)
  {
    hide ParsePart, Trim, Split;
    var h := Trim(header);
    if !(UNIT <= h) {
      return NoRange;
    }
    if len == 0 {
      return Unsatisfiable;
    }
    var parts := Split(h[|UNIT|..], COMMA);
    var ranges: seq<(nat, nat)> := [];
    var sawAny := false;
    for i := 0 to |parts|
      invariant Collect(parts[..i], len) == Some((ranges, sawAny))
    {
      assert parts[..i + 1][..i] == parts[..i];
      var part := Trim(parts[i]);
      if part != [] {
        sawAny := true;
        var parsed := ParsePart(part, len);
        match parsed {
          case Rejected =>
            CollectFails(parts, i + 1, len);
            return NoRange;
          case Skipped =>
          case Accepted(start, end) => ranges := ranges + [(start, end)];
        }
      }
    }
    assert parts[..|parts|] == parts;
    r := if !sawAny then NoRange else Classify(ranges);
  }

  lemma {:induction false} CollectFails(parts: seq<seq<byte>>, k: nat, len: nat)
    requires len > 0 && k <= |parts| && Collect(parts[..k], len).None?
    ensures Collect(parts, len).None?
  {
    hide ParsePart;
    if k < |parts| {
      assert parts[..|parts| - 1][..k] == parts[..k];
      CollectFails(parts[..|parts| - 1], k, len);
    } else {
      assert parts[..k] == parts;
    }
  }

  // ---- every header --------------------------------------------------------

  ghost predicate InBounds(ranges: seq<(nat, nat)>, len: nat) {
    forall i :: 0 <= i < |ranges| ==> ranges[i].0 <= ranges[i].1 < len
  }

  lemma {:induction false} CollectInBounds(parts: seq<seq<byte>>, len: nat)
    requires len > 0 && Collect(parts, len).Some?
    ensures InBounds(Collect(parts, len).value.0, len)
  {
    hide ParsePart;
    if parts != [] {
      CollectInBounds(parts[..|parts| - 1], len);
    }
  }

  /** Whatever the header, every range returned lies within the entity. */
  lemma RangesInBounds(header: seq<byte>, len: nat)
    ensures var r := ParseRange(header, len);
      && (r.Single? ==> r.start <= r.end < len)
      && (r.Multiple? ==> |r.ranges| >= 2 && InBounds(r.ranges, len))
  {
    hide Collect;
    var h := Trim(header);
    if UNIT <= h && len > 0 && Collect(Split(h[|UNIT|..], COMMA), len).Some? {
      CollectInBounds(Split(h[|UNIT|..], COMMA), len);
    }
  }

  // ---- rendered headers ----------------------------------------------------

  datatype Spec = Closed(first: nat, last: nat) | Open(first: nat) | Suffix(length: nat)

  predicate SpecOk(s: Spec) {
    match s
    case Closed(first, last) => first <= USIZE_MAX && last <= USIZE_MAX
    case Open(first) => first <= USIZE_MAX
    case Suffix(length) => length <= USIZE_MAX
  }

  function SpecText(s: Spec): seq<byte> {
    match s
    case Closed(first, last) => DecText(first) + [MINUS] + DecText(last)
    case Open(first) => DecText(first) + [MINUS]
    case Suffix(length) => [MINUS] + DecText(length)
  }

  /** An element of the list: a specification with blanks around it, or blanks alone. */
  datatype Element = Item(lead: seq<byte>, spec: Spec, end: seq<byte>) | Empty(gap: seq<byte>)

  predicate ElementOk(e: Element) {
    match e
    case Item(lead, spec, end) => Blanks(lead) && SpecOk(spec) && Blanks(end)
    case Empty(gap) => Blanks(gap)
  }

  function ElementText(e: Element): seq<byte> {
    match e
    case Item(lead, spec, end) => lead + SpecText(spec) + end
    case Empty(gap) => gap
  }

  function Texts(elements: seq<Element>): (r: seq<seq<byte>>)
    ensures |r| == |elements| && forall i :: 0 <= i < |r| ==> r[i] == ElementText(elements[i])
  {
    seq(|elements|, i requires 0 <= i < |elements| => ElementText(elements[i]))
  }

  function SpecsOf(elements: seq<Element>): seq<Spec> {
    if elements == [] then []
    else
      var last := elements[|elements| - 1];
      SpecsOf(elements[..|elements| - 1]) + (if last.Item? then [last.spec] else [])
  }

  /** The blanks at the very end of a header belong to the header, not to its last element. */
  predicate ElementsOk(elements: seq<Element>) {
    && elements != []
    && (forall i :: 0 <= i < |elements| ==> ElementOk(elements[i]))
    && var last := elements[|elements| - 1]; if last.Item? then last.end == [] else last.gap == []
  }

  function ListText(elements: seq<Element>): seq<byte>
    requires elements != []
  {
    UNIT + Join(Texts(elements), COMMA)
  }

  /** The octets of an entity a range specification asks for. */
  predicate Selects(s: Spec, k: nat, len: nat) {
    match s
    case Closed(first, last) => first <= k <= last
    case Open(first) => first <= k
    case Suffix(length) => len <= k + length
  }

  /** The part of the entity a specification denotes, if it is satisfiable. */
  function Resolve(s: Spec, len: nat): Option<(nat, nat)>
    requires len > 0
  {
    match s
    case Closed(first, last) => if first > last || first >= len then None else Some((first, Min(last, len - 1)))
    case Open(first) => if first >= len then None else Some((first, len - 1))
    case Suffix(length) => if length == 0 then None else Some((len - Min(length, len), len - 1))
  }

  /** A resolved range holds exactly the selected octets; an unsatisfiable one selects none. */
  lemma ResolveSelects(s: Spec, len: nat, k: nat)
    requires len > 0 && k < len
    ensures match Resolve(s, len)
            case Some((start, end)) => start <= end < len && (start <= k <= end <==> Selects(s, k, len))
            case None => !Selects(s, k, len)
  {
  }

  function Resolved(specs: seq<Spec>, len: nat): seq<(nat, nat)>
    requires len > 0
  {
    if specs == [] then []
    else
      Resolved(specs[..|specs| - 1], len)
      + match Resolve(specs[|specs| - 1], len) case Some(r) => [r] case None => []
  }

  lemma DecimalPart(n: nat)
    requires n <= USIZE_MAX
    ensures var t := DecText(n);
      Trim(t) == t && ParseU64(t) == Some(n) && MINUS !in t && COMMA !in t && t != [] && Plain(t)
  {
    hide DecText, ParseU64;
    ParseDigits(DecText(n));
    DigitsPlain(DecText(n));
    PlainTrimmed(DecText(n));
    TrimNoop(DecText(n));
  }

  /** What parsing makes of two decimal numbers, or one, around a dash. */
  lemma PartParses(a: seq<byte>, b: seq<byte>, len: nat)
    requires len > 0 && MINUS !in a && Trim(a) == a && Trim(b) == b && (a != [] || b != [])
    requires (a != [] ==> ParseU64(a).Some?) && (b != [] ==> ParseU64(b).Some?)
    ensures ParsePart(a + [MINUS] + b, len) ==
      if a == [] then
        var n := ParseU64(b).value; if n == 0 then Skipped else Accepted(len - Min(n, len), len - 1)
      else if b == [] then
        var s := ParseU64(a).value; if s >= len then Skipped else Accepted(s, len - 1)
      else
        var s, e := ParseU64(a).value, ParseU64(b).value;
        if s > e || s >= len then Skipped else Accepted(s, Min(e, len - 1))
  {
    hide ParseU64, Trim, IndexOf;
    Dash(a, b);
  }

  lemma SpecShape(s: Spec)
    requires SpecOk(s)
    ensures var t := SpecText(s); Trim(t) == t && t != [] && COMMA !in t && Plain(t)
  {
    hide DecText, ParseU64, Trim;
    match s {
      case Closed(first, last) =>
        DecimalPart(first);
        DecimalPart(last);
      case Open(first) => DecimalPart(first);
      case Suffix(length) => DecimalPart(length);
    }
    PlainTrimmed(SpecText(s));
    TrimNoop(SpecText(s));
  }

  function PartOf(r: Option<(nat, nat)>): Part {
    if r.Some? then Accepted(r.value.0, r.value.1) else Skipped
  }

  lemma ClosedParses(s: Spec, len: nat)
    requires s.Closed? && SpecOk(s) && len > 0
    ensures ParsePart(SpecText(s), len) == PartOf(Resolve(s, len))
  {
    hide DecText, ParseU64, Trim, ParsePart, Plain;
    DecimalPart(s.first);
    DecimalPart(s.last);
    PartParses(DecText(s.first), DecText(s.last), len);
  }

  lemma OpenParses(s: Spec, len: nat)
    requires s.Open? && SpecOk(s) && len > 0
    ensures ParsePart(SpecText(s), len) == PartOf(Resolve(s, len))
  {
    hide DecText, ParseU64, Trim, ParsePart, Plain;
    DecimalPart(s.first);
    EmptyTrims();
    PartParses(DecText(s.first), [], len);
    assert SpecText(s) == DecText(s.first) + [MINUS] + [];
  }

  lemma SuffixParses(s: Spec, len: nat)
    requires s.Suffix? && SpecOk(s) && len > 0
    ensures ParsePart(SpecText(s), len) == PartOf(Resolve(s, len))
  {
    hide DecText, ParseU64, Trim, ParsePart, Plain;
    DecimalPart(s.length);
    EmptyTrims();
    PartParses([], DecText(s.length), len);
    assert SpecText(s) == [] + [MINUS] + DecText(s.length);
  }

  lemma SpecParses(s: Spec, len: nat)
    requires SpecOk(s) && len > 0
    ensures ParsePart(SpecText(s), len) == PartOf(Resolve(s, len))
  {
    hide *;
    match s
    case Closed(_, _) => ClosedParses(s, len);
    case Open(_) => OpenParses(s, len);
    case Suffix(_) => SuffixParses(s, len);
  }

  lemma EmptyTrims()
    ensures Trim([]) == []
  {
  }

  lemma Dash(a: seq<byte>, b: seq<byte>)
    requires MINUS !in a
    ensures var t := a + [MINUS] + b;
      IndexOf(t, MINUS) == Some(|a|) && t[..|a|] == a && t[|a| + 1..] == b
  {
    var t := a + [MINUS] + b;
    assert t[..|a|] == a;
    IndexOfAt(t, MINUS, |a|);
  }

  lemma ElementTrims(e: Element)
    requires ElementOk(e)
    ensures Trim(ElementText(e)) == (if e.Item? then SpecText(e.spec) else []) && COMMA !in ElementText(e)
    ensures Utf8.IsAscii(ElementText(e))
  {
    hide SpecText, Trim, Trimmed;
    match e
    case Item(lead, spec, end) =>
      SpecShape(spec);
      PlainTrimmed(SpecText(spec));
      TrimBlanks(lead, SpecText(spec), end);
    case Empty(gap) =>
      EmptyTrimmed();
      TrimBlanks(gap, [], []);
      assert gap + [] + [] == gap;
  }

  lemma EmptyTrimmed()
    ensures Trimmed([])
  {
  }

  /** One element more, in the three folds. */
  lemma OneMore(parts: seq<seq<byte>>, part: seq<byte>, specs: seq<Spec>, s: Spec, len: nat)
    requires len > 0 && Collect(parts, len) == Some((Resolved(specs, len), specs != []))
    requires Trim(part) == SpecText(s) && SpecOk(s)
    ensures Collect(parts + [part], len) == Some((Resolved(specs + [s], len), true))
  {
    hide ParsePart, Trim, SpecText, Resolve, SpecOk;
    assert (parts + [part])[..|parts|] == parts;
    assert (specs + [s])[..|specs|] == specs;
    assert Resolved(specs, len) + [] == Resolved(specs, len);
    SpecShape(s);
    SpecParses(s, len);
  }

  lemma OneBlankMore(parts: seq<seq<byte>>, part: seq<byte>, len: nat)
    requires len > 0 && Collect(parts, len).Some? && Trim(part) == []
    ensures Collect(parts + [part], len) == Collect(parts, len)
  {
    hide ParsePart, Trim;
    assert (parts + [part])[..|parts|] == parts;
  }

  lemma {:induction false} CollectResolved(elements: seq<Element>, len: nat)
    requires len > 0 && forall i :: 0 <= i < |elements| ==> ElementOk(elements[i])
    ensures Collect(Texts(elements), len) == Some((Resolved(SpecsOf(elements), len), SpecsOf(elements) != []))
  {
    if elements != [] {
      var front, last := elements[..|elements| - 1], elements[|elements| - 1];
      assert SpecsOf(elements) == SpecsOf(front) + (if last.Item? then [last.spec] else []);
      assert Texts(elements) == Texts(front) + [ElementText(last)];
      hide Collect, Resolved, SpecsOf, Texts, ElementText, SpecOk;
      CollectResolved(front, len);
      ElementTrims(last);
      if last.Item? {
        ItemSpec(last);
        OneMore(Texts(front), ElementText(last), SpecsOf(front), last.spec, len);
      } else {
        assert SpecsOf(front) + [] == SpecsOf(front);
        OneBlankMore(Texts(front), ElementText(last), len);
      }
    }
  }

  lemma ItemSpec(e: Element)
    requires ElementOk(e) && e.Item?
    ensures SpecOk(e.spec)
  {
  }

  lemma {:induction false} JoinAscii(pieces: seq<seq<byte>>)
    requires |pieces| > 0 && forall i :: 0 <= i < |pieces| ==> Utf8.IsAscii(pieces[i])
    ensures Utf8.IsAscii(Join(pieces, COMMA))
  {
    if |pieces| > 1 {
      JoinAscii(pieces[1..]);
    }
  }

  /** What a list of pieces ends with. */
  lemma {:induction false} JoinEnd(pieces: seq<seq<byte>>)
    requires |pieces| > 0
    ensures var s, last := Join(pieces, COMMA), pieces[|pieces| - 1];
      if last != [] then s != [] && s[|s| - 1] == last[|last| - 1]
      else if |pieces| > 1 then s != [] && s[|s| - 1] == COMMA
      else s == []
  {
    if |pieces| > 1 {
      JoinEnd(pieces[1..]);
    }
  }

  lemma UnitText()
    ensures Utf8.IsAscii(UNIT) && |UNIT| == 6 && UNIT[0] == 98 && UNIT[5] == 61
  {
  }

  /** ASCII text that does not start or end in white space. */
  lemma AsciiTrimmed(s: seq<byte>)
    requires s != [] && Utf8.IsAscii(s) && !White1(s[0]) && !White1(s[|s| - 1])
    ensures Trimmed(s)
  {
  }

  lemma LastOfSpec(s: Spec)
    requires SpecOk(s)
    ensures SpecText(s) != [] && Plain(SpecText(s))
  {
    SpecShape(s);
  }

  lemma ListTrimmed(elements: seq<Element>)
    requires ElementsOk(elements)
    ensures Trimmed(ListText(elements)) && UNIT <= ListText(elements)
    ensures ListText(elements)[|UNIT|..] == Join(Texts(elements), COMMA)
  {
    hide SpecText, Join, UNIT, Trimmed, SpecOk;
    var texts, last := Texts(elements), elements[|elements| - 1];
    forall i | 0 <= i < |elements| ensures Utf8.IsAscii(texts[i]) {
      ElementTrims(elements[i]);
    }
    JoinAscii(texts);
    JoinEnd(texts);
    UnitText();
    if last.Item? {
      LastOfSpec(last.spec);
      assert last.lead + SpecText(last.spec) + [] == last.lead + SpecText(last.spec);
    }
    AsciiTrimmed(ListText(elements));
  }

  /** A rendered list over a non-empty entity, with any blanks and empty elements, yields exactly
      the satisfiable specifications, resolved, in order; `Unsatisfiable` precisely when there are
      specifications and none is satisfiable. */
  lemma RenderedRanges(before: seq<byte>, elements: seq<Element>, after: seq<byte>, len: nat)
    requires Blanks(before) && Blanks(after) && ElementsOk(elements) && len > 0
    ensures var r, specs := ParseRange(before + ListText(elements) + after, len), SpecsOf(elements);
      && r == (if specs == [] then NoRange else Classify(Resolved(specs, len)))
      && (r == Unsatisfiable <==> specs != [] && forall i :: 0 <= i < |specs| ==> Resolve(specs[i], len).None?)
  {
    hide ParsePart, Trim, SpecText, ElementText, Resolve, Collect, Split, Join, UNIT, Trimmed;
    var texts := Texts(elements);
    forall i | 0 <= i < |elements| ensures COMMA !in texts[i] {
      ElementTrims(elements[i]);
    }
    ListTrimmed(elements);
    TrimBlanks(before, ListText(elements), after);
    SplitJoin(texts, COMMA);
    CollectResolved(elements, len);
    NoneResolved(SpecsOf(elements), len);
  }

  lemma {:induction false} NoneResolved(specs: seq<Spec>, len: nat)
    requires len > 0
    ensures Resolved(specs, len) == [] <==> forall i :: 0 <= i < |specs| ==> Resolve(specs[i], len).None?
  {
    hide Resolve;
    if specs != [] {
      NoneResolved(specs[..|specs| - 1], len);
    }
  }

  // ---- headers that are no list of ranges ----------------------------------

  /** Another unit is ignored; a file without octets satisfies no range at all. */
  lemma UnitAndLength(before: seq<byte>, text: seq<byte>, after: seq<byte>)
    requires Blanks(before) && Trimmed(text) && Blanks(after)
    ensures !(Ascii("bytes=") <= text) ==> forall len :: ParseRange(before + text + after, len) == NoRange
    ensures Ascii("bytes=") <= text ==> ParseRange(before + text + after, 0) == Unsatisfiable
  {
    hide Trim, Trimmed, Ascii;
    TrimBlanks(before, text, after);
  }

  /** Visible text that is no range: no dash, nothing around it, or a side that is no number. */
  ghost predicate NoSpec(text: seq<byte>) {
    text != [] && Plain(text) && COMMA !in text &&
    (MINUS !in text || exists a, b :: NoSides(text, a, b))
  }

  ghost predicate NoSides(text: seq<byte>, a: seq<byte>, b: seq<byte>) {
    && MINUS !in a && text == a + [MINUS] + b
    && ((a == [] && b == []) || (a != [] && NoNumber(a)) || (b != [] && NoNumber(b)))
  }

  lemma NoSpecRejected(text: seq<byte>, len: nat)
    requires NoSpec(text) && len > 0
    ensures ParsePart(text, len) == Rejected
  {
    hide IndexOf, ParseU64, NoNumber, Trim;
    if MINUS in text {
      var a, b :| NoSides(text, a, b);
      Dash(a, b);
      assert Plain(a) && Plain(b) by {
        assert forall i :: 0 <= i < |a| ==> a[i] == text[i];
        assert forall i :: 0 <= i < |b| ==> b[i] == text[|a| + 1 + i];
      }
      PlainTrimmed(a);
      PlainTrimmed(b);
      TrimNoop(a);
      TrimNoop(b);
      if NoNumber(a) {
        NoNumberIsNone(a);
      }
      if NoNumber(b) {
        NoNumberIsNone(b);
      }
    }
  }

  /** One element that is no range, wherever it stands, voids the whole header: everything is
      served. */
  lemma OneBadElement(
      parts: seq<seq<byte>>, i: nat, lead: seq<byte>, bad: seq<byte>, end: seq<byte>, len: nat)
    requires len > 0 && i < |parts| && parts[i] == lead + bad + end
    requires Blanks(lead) && NoSpec(bad) && Blanks(end)
    requires forall k :: 0 <= k < |parts| ==> COMMA !in parts[k]
    requires Trimmed(UNIT + Join(parts, COMMA))
    ensures ParseRange(UNIT + Join(parts, COMMA), len) == NoRange
  {
    BadPart(parts, i, lead, bad, end, len);
    var text := UNIT + Join(parts, COMMA);
    assert text[|UNIT|..] == Join(parts, COMMA);
    hide Trim, Split, Join, Collect, Trimmed, UNIT, NoSpec;
    SplitJoin(parts, COMMA);
    TrimNoop(text);
  }

  lemma BadPart(parts: seq<seq<byte>>, i: nat, lead: seq<byte>, bad: seq<byte>, end: seq<byte>, len: nat)
    requires len > 0 && i < |parts| && parts[i] == lead + bad + end
    requires Blanks(lead) && NoSpec(bad) && Blanks(end)
    ensures Collect(parts, len).None?
  {
    SpecIsSome(bad);
    hide ParsePart, Trim, NoSpec, Trimmed;
    PlainTrimmed(bad);
    TrimBlanks(lead, bad, end);
    NoSpecRejected(bad, len);
    assert parts[..i + 1][..i] == parts[..i];
    CollectFails(parts, i + 1, len);
  }

  lemma SpecIsSome(text: seq<byte>)
    requires NoSpec(text)
    ensures text != [] && Plain(text)
  {
  }

  /** Nothing after the unit but blanks and commas is no range either. */
  lemma NothingListed(gaps: seq<seq<byte>>, len: nat)
    requires gaps != [] && len > 0 && forall i :: 0 <= i < |gaps| ==> Blanks(gaps[i])
    requires gaps[|gaps| - 1] == []
    ensures ParseRange(UNIT + Join(gaps, COMMA), len) == NoRange
  {
    EmptiesOk(gaps);
    EmptyTexts(gaps);
    NoSpecs(Empties(gaps));
    hide *;
    RenderedRanges([], Empties(gaps), [], len);
  }

  function Empties(gaps: seq<seq<byte>>): (r: seq<Element>)
    ensures |r| == |gaps| && forall i :: 0 <= i < |r| ==> r[i] == Empty(gaps[i])
  {
    seq(|gaps|, i requires 0 <= i < |gaps| => Empty(gaps[i]))
  }

  lemma EmptiesOk(gaps: seq<seq<byte>>)
    requires gaps != [] && (forall i :: 0 <= i < |gaps| ==> Blanks(gaps[i])) && gaps[|gaps| - 1] == []
    ensures ElementsOk(Empties(gaps))
  {
    hide Blanks;
  }

  lemma EmptyTexts(gaps: seq<seq<byte>>)
    requires gaps != []
    ensures [] + ListText(Empties(gaps)) + [] == UNIT + Join(gaps, COMMA) && Blanks([])
  {
    assert Texts(Empties(gaps)) == gaps;
    hide UNIT, Join, Texts, Empties;
    var text := ListText(Empties(gaps));
    assert [] + text + [] == text;
  }

  lemma {:induction false} NoSpecs(elements: seq<Element>)
    requires forall i :: 0 <= i < |elements| ==> elements[i].Empty?
    ensures SpecsOf(elements) == []
  {
    if elements != [] {
      NoSpecs(elements[..|elements| - 1]);
    }
  }
}
