/** When the default servlet answers 412, 304 or with content: the decision for every request
    whose conditional headers list entity tags or carry dates. */
module ConditionalRequests {
  import opened Bytes
  import opened Text
  import opened DefaultServlet
  import HttpDate
  import ByteRanges

  // ---- entity tags ---------------------------------------------------------

  /** What stands between the quotes of the servlet's tag. */
  function CoreOf(size: nat, mtime: nat): seq<byte> {
    HexText(size) + [MINUS] + HexText(mtime)
  }

  lemma WeakEtagCore(size: nat, mtime: nat)
    ensures WeakEtag(size, mtime) == WEAK + ([QUOTE] + CoreOf(size, mtime) + [QUOTE])
    ensures Opaque(WeakEtag(size, mtime)) == [QUOTE] + CoreOf(size, mtime) + [QUOTE]
  {
    hide HexText;
    var tag := WeakEtag(size, mtime);
    assert tag == WEAK + ([QUOTE] + CoreOf(size, mtime) + [QUOTE]);
    assert tag[2..] == [QUOTE] + CoreOf(size, mtime) + [QUOTE];
  }

  lemma NoDash(n: nat)
    ensures MINUS !in HexText(n) && COMMA !in HexText(n) && Plain(HexText(n))
  {
    hide HexText;
  }

  /** Two files have one tag only if they have one size and one time. */
  lemma CoreInjective(size: nat, mtime: nat, size2: nat, mtime2: nat)
    requires CoreOf(size, mtime) == CoreOf(size2, mtime2)
    ensures size == size2 && mtime == mtime2
  {
    hide HexText;
    var s := CoreOf(size, mtime);
    NoDash(size);
    NoDash(size2);
    ByteRanges.Dash(HexText(size), HexText(mtime));
    ByteRanges.Dash(HexText(size2), HexText(mtime2));
    assert HexText(size) == HexText(size2) && HexText(mtime) == HexText(mtime2);
    assert HexNumber(HexText(size)) == size && HexNumber(HexText(size2)) == size2;
    assert HexNumber(HexText(mtime)) == mtime && HexNumber(HexText(mtime2)) == mtime2;
  }

  lemma WeakEtagInjective(size: nat, mtime: nat, size2: nat, mtime2: nat)
    ensures WeakEtag(size, mtime) == WeakEtag(size2, mtime2) <==> size == size2 && mtime == mtime2
  {
    hide CoreOf, WeakEtag;
    if WeakEtag(size, mtime) == WeakEtag(size2, mtime2) {
      WeakEtagCore(size, mtime);
      WeakEtagCore(size2, mtime2);
      Unquoted(CoreOf(size, mtime), CoreOf(size2, mtime2));
      CoreInjective(size, mtime, size2, mtime2);
    }
  }

  lemma Unquoted(a: seq<byte>, b: seq<byte>)
    ensures [QUOTE] + a + [QUOTE] == [QUOTE] + b + [QUOTE] <==> a == b
  {
    var p, q := [QUOTE] + a + [QUOTE], [QUOTE] + b + [QUOTE];
    if p == q {
      assert |a| == |b|;
      assert p[1..|a| + 1] == a && q[1..|b| + 1] == b;
    }
  }

  // ---- lists of tags -------------------------------------------------------

  /** A tag of a list, of this servlet or of any other, with blanks around it. */
  datatype Tag = Tag(lead: seq<byte>, weak: bool, core: seq<byte>, end: seq<byte>)

  predicate TagOk(t: Tag) {
    Blanks(t.lead) && Plain(t.core) && COMMA !in t.core && Blanks(t.end)
  }

  function Bare(t: Tag): seq<byte> {
    (if t.weak then WEAK else []) + ([QUOTE] + t.core + [QUOTE])
  }

  function TagText(t: Tag): seq<byte> {
    t.lead + Bare(t) + t.end
  }

  function TagTexts(tags: seq<Tag>): (r: seq<seq<byte>>)
    ensures |r| == |tags| && forall i :: 0 <= i < |r| ==> r[i] == TagText(tags[i])
  {
    seq(|tags|, i requires 0 <= i < |tags| => TagText(tags[i]))
  }

  /** The blanks at either end of a header belong to the header, not to a tag. */
  predicate TagsOk(tags: seq<Tag>) {
    && tags != [] && tags[0].lead == [] && tags[|tags| - 1].end == []
    && forall i :: 0 <= i < |tags| ==> TagOk(tags[i])
  }

  function TagList(tags: seq<Tag>): seq<byte>
    requires tags != []
  {
    Join(TagTexts(tags), COMMA)
  }

  /** Some tag of the list is the file's; for If-Match it may not be marked weak. */
  predicate Lists(tags: seq<Tag>, core: seq<byte>, weakOk: bool) {
    exists i :: 0 <= i < |tags| && tags[i].core == core && (weakOk || !tags[i].weak)
  }

  lemma BareShape(t: Tag)
    requires TagOk(t)
    ensures Plain(Bare(t)) && COMMA !in Bare(t) && COMMA !in TagText(t)
  {
  }

  lemma BareOpaque(t: Tag)
    ensures Opaque(Bare(t)) == [QUOTE] + t.core + [QUOTE] && (WEAK <= Bare(t) <==> t.weak)
  {
    var opaqueTag := [QUOTE] + t.core + [QUOTE];
    assert opaqueTag[0] == QUOTE;
    assert (WEAK + opaqueTag)[2..] == opaqueTag;
    assert [] + opaqueTag == opaqueTag;
  }

  lemma BareEnds(t: Tag)
    ensures var s := Bare(t); |s| > 1 && (s[0] == QUOTE || s[0] == WEAK[0]) && s[|s| - 1] == QUOTE
  {
  }

  lemma CandidateIff(t: Tag, size: nat, mtime: nat, weakOk: bool)
    requires TagOk(t)
    ensures CandidateMatches(TagText(t), WeakEtag(size, mtime), weakOk) <==>
      t.core == CoreOf(size, mtime) && (weakOk || !t.weak)
  {
    hide Trim, Bare, CoreOf, WeakEtag, Opaque;
    BareShape(t);
    BareOpaque(t);
    PlainTrimmed(Bare(t));
    TrimBlanks(t.lead, Bare(t), t.end);
    WeakEtagCore(size, mtime);
    Unquoted(t.core, CoreOf(size, mtime));
  }

  lemma ListEnds(tags: seq<Tag>)
    requires TagsOk(tags)
    ensures Trimmed(TagList(tags)) && TagList(tags) != [STAR]
  {
    hide Join, TagTexts, Bare, Trimmed, TagOk;
    var texts, first, last := TagTexts(tags), tags[0], tags[|tags| - 1];
    BareEnds(first);
    BareEnds(last);
    assert TagText(first) == Bare(first) + first.end && TagText(last) == last.lead + Bare(last);
    JoinStart(texts);
    ByteRanges.JoinEnd(texts);
    QuotedEnds(TagList(tags));
  }

  lemma JoinStart(pieces: seq<seq<byte>>)
    requires |pieces| > 0 && pieces[0] != []
    ensures Join(pieces, COMMA) != [] && Join(pieces, COMMA)[0] == pieces[0][0]
  {
  }

  lemma QuotedEnds(s: seq<byte>)
    requires s != [] && (s[0] == QUOTE || s[0] == WEAK[0]) && s[|s| - 1] == QUOTE
    ensures Trimmed(s) && s != [STAR]
  {
  }

  /** A list matches a file exactly when it lists its tag. */
  lemma ListMatchesIff(gap: seq<byte>, tags: seq<Tag>, end: seq<byte>, size: nat, mtime: nat, weakOk: bool)
    requires Blanks(gap) && TagsOk(tags) && Blanks(end)
    ensures EtagMatches(gap + TagList(tags) + end, WeakEtag(size, mtime), weakOk) <==>
      Lists(tags, CoreOf(size, mtime), weakOk)
  {
    hide Trim, Split, Join, CandidateMatches, CoreOf, WeakEtag, TagText, Trimmed;
    var texts := TagTexts(tags);
    ListEnds(tags);
    TrimBlanks(gap, TagList(tags), end);
    forall i | 0 <= i < |tags|
      ensures COMMA !in texts[i]
      ensures CandidateMatches(texts[i], WeakEtag(size, mtime), weakOk) <==>
        tags[i].core == CoreOf(size, mtime) && (weakOk || !tags[i].weak)
    {
      BareShape(tags[i]);
      CandidateIff(tags[i], size, mtime, weakOk);
    }
    SplitJoin(texts, COMMA);
  }

  /** A star stands for any file. */
  lemma StarMatches(gap: seq<byte>, end: seq<byte>, etag: seq<byte>, weakOk: bool)
    requires Blanks(gap) && Blanks(end)
    ensures EtagMatches(gap + [42] + end, etag, weakOk)
  {
    hide Trim;
    assert Trimmed([42]);
    TrimBlanks(gap, [42], end);
  }

  // ---- requests ------------------------------------------------------------

  /** A header that names tags. */
  datatype Names = Any(anyGap: seq<byte>, anyEnd: seq<byte>) | These(gap: seq<byte>, tags: seq<Tag>, end: seq<byte>)

  predicate NamesOk(n: Names) {
    match n
    case Any(gap, end) => Blanks(gap) && Blanks(end)
    case These(gap, tags, end) => Blanks(gap) && TagsOk(tags) && Blanks(end)
  }

  function NamesText(n: Names): seq<byte>
    requires NamesOk(n)
  {
    match n
    case Any(gap, end) => gap + [42] + end
    case These(gap, tags, end) => gap + TagList(tags) + end
  }

  predicate Covers(n: Names, core: seq<byte>, weakOk: bool) {
    n.Any? || Lists(n.tags, core, weakOk)
  }

  lemma CoversIff(n: Names, size: nat, mtime: nat, weakOk: bool)
    requires NamesOk(n)
    ensures EtagMatches(NamesText(n), WeakEtag(size, mtime), weakOk) <==> Covers(n, CoreOf(size, mtime), weakOk)
  {
    hide EtagMatches, TagList, TagsOk, CoreOf, WeakEtag, Lists;
    match n
    case Any(gap, end) => StarMatches(gap, end, WeakEtag(size, mtime), weakOk);
    case These(gap, tags, end) => ListMatchesIff(gap, tags, end, size, mtime, weakOk);
  }

  /** The conditional headers of a request: tags named, and dates as the servlet prints them. */
  datatype Conditions = Conditions(
    ifMatch: Option<Names>, unmodifiedSince: Option<nat>, ifNoneMatch: Option<Names>, modifiedSince: Option<nat>)

  predicate ConditionsOk(c: Conditions) {
    && (c.ifMatch.Some? ==> NamesOk(c.ifMatch.value))
    && (c.ifNoneMatch.Some? ==> NamesOk(c.ifNoneMatch.value))
    && (c.unmodifiedSince.Some? ==> c.unmodifiedSince.value <= USIZE_MAX)
    && (c.modifiedSince.Some? ==> c.modifiedSince.value <= USIZE_MAX)
  }

  function NamesHeader(n: Option<Names>): Option<seq<byte>>
    requires n.Some? ==> NamesOk(n.value)
  {
    if n.Some? then Some(NamesText(n.value)) else None
  }

  function DateHeader(since: Option<nat>): Option<seq<byte>> {
    if since.Some? then Some(HttpDate.HttpDateOf(since.value)) else None
  }

  function Asking(c: Conditions, range: Option<seq<byte>>): Request
    requires ConditionsOk(c)
  {
    Request(NamesHeader(c.ifMatch), DateHeader(c.unmodifiedSince), NamesHeader(c.ifNoneMatch),
      DateHeader(c.modifiedSince), range)
  }

  /** The file is not the one the client wants to change: If-Match lists other tags, or, when it is
      absent, the file changed after the date; a date from 2 to the 63 on says nothing. */
  predicate Fails(c: Conditions, len: nat, mtime: nat) {
    if c.ifMatch.Some? then !Covers(c.ifMatch.value, CoreOf(len, mtime), false)
    else c.unmodifiedSince.Some? && c.unmodifiedSince.value < I64_LIMIT && c.unmodifiedSince.value < mtime
  }

  /** The client has the file: If-None-Match lists its tag, or, when it is absent, the file did not
      change after the date. */
  predicate Has(c: Conditions, len: nat, mtime: nat) {
    if c.ifNoneMatch.Some? then Covers(c.ifNoneMatch.value, CoreOf(len, mtime), true)
    else c.modifiedSince.Some? && c.modifiedSince.value < I64_LIMIT && mtime <= c.modifiedSince.value
  }

  lemma HoldsIff(c: Conditions, range: Option<seq<byte>>, len: nat, mtime: nat)
    requires ConditionsOk(c)
    ensures PreconditionHolds(Asking(c, range), WeakEtag(len, mtime), mtime) <==> !Fails(c, len, mtime)
  {
    hide EtagMatches, NamesText, NamesOk, Covers, CoreOf, WeakEtag, HttpDate.ParseHttpDate, HttpDate.HttpDateOf;
    if c.ifMatch.Some? {
      CoversIff(c.ifMatch.value, len, mtime, false);
    } else if c.unmodifiedSince.Some? {
      HttpDate.DateRoundTrip(c.unmodifiedSince.value);
    }
  }

  lemma FreshIff(c: Conditions, range: Option<seq<byte>>, len: nat, mtime: nat)
    requires ConditionsOk(c)
    ensures IsFresh(Asking(c, range), WeakEtag(len, mtime), mtime) <==> Has(c, len, mtime)
  {
    hide EtagMatches, NamesText, NamesOk, Covers, CoreOf, WeakEtag, HttpDate.ParseHttpDate, HttpDate.HttpDateOf;
    if c.ifNoneMatch.Some? {
      CoversIff(c.ifNoneMatch.value, len, mtime, true);
    } else if c.modifiedSince.Some? {
      HttpDate.DateRoundTrip(c.modifiedSince.value);
    }
  }

  /** For every combination of the four conditional headers and any Range: 412 exactly when the
      file is not the one wanted, else 304 exactly when the client has it. */
  lemma ConditionsDecide(c: Conditions, range: Option<seq<byte>>, len: nat, mtime: nat)
    requires ConditionsOk(c)
    ensures var answer := ServeFile(Asking(c, range), len, mtime);
      && (answer == PreconditionFailed <==> Fails(c, len, mtime))
      && (answer == NotModified <==> !Fails(c, len, mtime) && Has(c, len, mtime))
      && (!Fails(c, len, mtime) && !Has(c, len, mtime) ==>
          answer == ServeFile(Request(None, None, None, None, range), len, mtime))
  {
    hide ConditionsOk, Asking, Fails, Has, PreconditionHolds, IsFresh, WeakEtag, ByteRanges.ParseRange;
    HoldsIff(c, range, len, mtime);
    FreshIff(c, range, len, mtime);
    Unconditional(range, len, mtime);
    AskingRange(c, range);
  }

  lemma AskingRange(c: Conditions, range: Option<seq<byte>>)
    requires ConditionsOk(c)
    ensures Asking(c, range).range == range
  {
  }

  lemma Unconditional(range: Option<seq<byte>>, len: nat, mtime: nat)
    ensures var req := Request(None, None, None, None, range);
      PreconditionHolds(req, WeakEtag(len, mtime), mtime) && !IsFresh(req, WeakEtag(len, mtime), mtime)
  {
  }

  // ---- one header ----------------------------------------------------------

  /** A tag the servlet gave out once, sent back alone: 304 exactly while the file has the size and
      the time it had then, whatever dates come with it. */
  lemma StaleTagIsServed(
      size: nat, time: nat, modified: Option<seq<byte>>, range: Option<seq<byte>>, len: nat, mtime: nat)
    ensures ServeFile(Request(None, None, Some(WeakEtag(size, time)), modified, range), len, mtime) == NotModified
      <==> (size, time) == (len, mtime)
  {
    hide EtagMatches, WeakEtag, ByteRanges.ParseRange;
    OwnTagIff(size, time, len, mtime);
  }

  lemma OwnTagIff(size: nat, time: nat, len: nat, mtime: nat)
    ensures EtagMatches(WeakEtag(size, time), WeakEtag(len, mtime), true) <==> (size, time) == (len, mtime)
  {
    hide EtagMatches, CoreOf, WeakEtag;
    var tags := [Tag([], true, CoreOf(size, time), [])];
    CorePlain(size, time);
    WeakEtagCore(size, time);
    assert TagTexts(tags) == [TagText(tags[0])];
    assert [] + TagList(tags) + [] == WeakEtag(size, time);
    ListMatchesIff([], tags, [], len, mtime, true);
    assert tags[0].core == CoreOf(size, time);
    if CoreOf(size, time) == CoreOf(len, mtime) {
      CoreInjective(size, time, len, mtime);
    }
  }

  lemma CorePlain(size: nat, mtime: nat)
    ensures Plain(CoreOf(size, mtime)) && COMMA !in CoreOf(size, mtime)
  {
    hide HexText;
    NoDash(size);
    NoDash(mtime);
  }

  /** A date sent back alone: 304 exactly when the file did not change after it, for dates below
      2 to the 63; later ones never give 304. */
  lemma EchoedDateDecides(since: nat, range: Option<seq<byte>>, len: nat, mtime: nat)
    requires since <= USIZE_MAX
    ensures ServeFile(Request(None, None, None, Some(HttpDate.HttpDateOf(since)), range), len, mtime) == NotModified
      <==> since < I64_LIMIT && mtime <= since
  {
    ConditionsDecide(Conditions(None, None, None, Some(since)), range, len, mtime);
  }

  /** A date that does not read is no condition. */
  lemma UnreadDateIsIgnored(date: seq<byte>, range: Option<seq<byte>>, len: nat, mtime: nat)
    requires HttpDate.ParseHttpDate(date).None?
    ensures ServeFile(Request(None, Some(date), None, Some(date), range), len, mtime) ==
      ServeFile(Request(None, None, None, None, range), len, mtime)
  {
  }

  // ---- content -------------------------------------------------------------

  /** Without conditions and without a Range the whole file is served. */
  lemma NothingAsked(len: nat, mtime: nat)
    ensures ServeFile(Request(None, None, None, None, None), len, mtime) == Full
  {
  }

  /** A list of ranges of a file that is not empty: everything when it lists none, 416 when none is
      satisfiable, and otherwise the satisfiable ones in order, in one part or in several. */
  lemma RangesServed(
      before: seq<byte>, elements: seq<ByteRanges.Element>, after: seq<byte>, len: nat, mtime: nat)
    requires Blanks(before) && Blanks(after) && ByteRanges.ElementsOk(elements) && len > 0
    ensures var range := before + ByteRanges.ListText(elements) + after;
      var answer := ServeFile(Request(None, None, None, None, Some(range)), len, mtime);
      var specs := ByteRanges.SpecsOf(elements);
      var ranges := ByteRanges.Resolved(specs, len);
      && (answer == Full <==> specs == [])
      && (answer == RangeNotSatisfiable <==> specs != [] && ranges == [])
      && (answer.Partial? <==> |ranges| == 1) && (answer.Partial? ==> [(answer.start, answer.end)] == ranges)
      && (answer.MultiPartial? <==> |ranges| >= 2) && (answer.MultiPartial? ==> answer.ranges == ranges)
  {
    var range := before + ByteRanges.ListText(elements) + after;
    hide ByteRanges.ParseRange, ByteRanges.ListText, ByteRanges.ElementsOk, ByteRanges.Resolve;
    ByteRanges.RenderedRanges(before, elements, after, len);
    Unconditional(Some(range), len, mtime);
    hide PreconditionHolds, IsFresh, WeakEtag;
    ByteRanges.NoneResolved(ByteRanges.SpecsOf(elements), len);
  }
}
