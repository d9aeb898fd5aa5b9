/** The conditional and range decisions of the default servlet for a regular file of known
    size and modification time. */
module DefaultServlet {
  import opened Bytes
  import opened Text
  import opened HttpDate
  import ByteRanges

  const QUOTE: byte := 34
  const WEAK: seq<byte> := [87, 47]

  /** `W/"size-mtime"` in hexadecimal. */
  function WeakEtag(size: nat, mtime: nat): seq<byte> {
    WEAK + [QUOTE] + HexText(size) + [MINUS] + HexText(mtime) + [QUOTE]
  }

  function Opaque(tag: seq<byte>): seq<byte> {
    if WEAK <= tag then tag[2..] else tag
  }

  predicate CandidateMatches(candidate: seq<byte>, etag: seq<byte>, weakOk: bool) {
    var c := Trim(candidate);
    Opaque(c) == Opaque(etag) && (weakOk || !(WEAK <= c))
  }

  predicate EtagMatches(header: seq<byte>, etag: seq<byte>, weakOk: bool) {
    var h := Trim(header);
    h == [STAR] || exists i :: 0 <= i < |Split(h, COMMA)| && CandidateMatches(Split(h, COMMA)[i], etag, weakOk)
  }

  method ComputeEtagMatches(header: seq<byte>, etag: seq<byte>, weakOk: bool) returns (r: bool)
    ensures r == EtagMatches(header, etag, weakOk)
  {
    hide Trim, Split, CandidateMatches;
    var h := Trim(header);
    if h == [STAR] {
      return true;
    }
    var candidates := Split(h, COMMA);
    for i := 0 to |candidates|
      invariant forall k :: 0 <= k < i ==> !CandidateMatches(candidates[k], etag, weakOk)
    {
      if CandidateMatches(candidates[i], etag, weakOk) {
        return true;
      }
    }
    r := false;
  }

  /** The first value of each header the decision looks at. */
  datatype Request = Request(
    ifMatch: Option<seq<byte>>,
    ifUnmodifiedSince: Option<seq<byte>>,
    ifNoneMatch: Option<seq<byte>>,
    ifModifiedSince: Option<seq<byte>>,
    range: Option<seq<byte>>)

  datatype Decision =
    | PreconditionFailed
    | NotModified
    | RangeNotSatisfiable
    | Partial(start: nat, end: nat)
    | MultiPartial(ranges: seq<(nat, nat)>)
    | Full

  predicate PreconditionHolds(req: Request, etag: seq<byte>, mtime: nat) {
    match req.ifMatch
    case Some(tags) => EtagMatches(tags, etag, false)
    case None =>
      match req.ifUnmodifiedSince
      case None => true
      case Some(date) => match ParseHttpDate(date) case None => true case Some(since) => mtime <= since
  }

  predicate IsFresh(req: Request, etag: seq<byte>, mtime: nat) {
    match req.ifNoneMatch
    case Some(tags) => EtagMatches(tags, etag, true)
    case None =>
      match req.ifModifiedSince
      case None => false
      case Some(date) => match ParseHttpDate(date) case None => false case Some(since) => mtime <= since
  }

  function ServeFile(req: Request, len: nat, mtime: nat): Decision {
    var etag := WeakEtag(len, mtime);
    if !PreconditionHolds(req, etag, mtime) then PreconditionFailed
    else if IsFresh(req, etag, mtime) then NotModified
    else if req.range.None? then Full
    else
      match ByteRanges.ParseRange(req.range.value, len)
      case NoRange => Full
      case Unsatisfiable => RangeNotSatisfiable
      case Single(start, end) => Partial(start, end)
      case Multiple(ranges) => MultiPartial(ranges)
  }

  // ---- echoing validators --------------------------------------------------

  lemma EtagPlain(size: nat, mtime: nat)
    ensures var tag := WeakEtag(size, mtime);
      Trim(tag) == tag && COMMA !in tag && Split(tag, COMMA) == [tag] && WEAK <= tag && tag != [STAR]
  {
    hide HexText, Trim, Split;
    var tag := WeakEtag(size, mtime);
    assert Plain(HexText(size)) && COMMA !in HexText(size);
    assert Plain(HexText(mtime)) && COMMA !in HexText(mtime);
    assert Plain(tag);
    PlainTrimmed(tag);
    TrimNoop(tag);
    SplitJoin([tag], COMMA);
  }

  /** The servlet's own tag matches itself weakly and, being weak, never strongly. */
  lemma OwnEtag(size: nat, mtime: nat)
    ensures EtagMatches(WeakEtag(size, mtime), WeakEtag(size, mtime), true)
    ensures !EtagMatches(WeakEtag(size, mtime), WeakEtag(size, mtime), false)
  {
    hide HexText, Trim, Split, WeakEtag;
    EtagPlain(size, mtime);
    var tag := WeakEtag(size, mtime);
    assert Split(tag, COMMA)[0] == tag;
    assert CandidateMatches(tag, tag, true);
  }

  /** Echoing `ETag` in `If-None-Match` gives 304 for every size and time, whatever else is asked. */
  lemma EchoedEtagIsFresh(req: Request, len: nat, mtime: nat)
    requires req.ifMatch.None? && req.ifUnmodifiedSince.None?
    requires req.ifNoneMatch == Some(WeakEtag(len, mtime))
    ensures ServeFile(req, len, mtime) == NotModified
  {
    hide EtagMatches, WeakEtag;
    OwnEtag(len, mtime);
  }

  /** Echoing it in `If-Match` always fails the precondition: the tag is weak. */
  lemma EchoedEtagNeverMatches(req: Request, len: nat, mtime: nat)
    requires req.ifMatch == Some(WeakEtag(len, mtime))
    ensures ServeFile(req, len, mtime) == PreconditionFailed
  {
    hide EtagMatches, WeakEtag;
    OwnEtag(len, mtime);
  }

  /** Echoing `Last-Modified` in `If-Modified-Since` gives 304 exactly for times below 2 to the 63. */
  lemma EchoedDateIsFreshIff(range: Option<seq<byte>>, len: nat, mtime: nat)
    requires mtime <= USIZE_MAX
    ensures var req := Request(None, None, None, Some(HttpDateOf(mtime)), range);
      ServeFile(req, len, mtime) == NotModified <==> mtime < I64_LIMIT
  {
    hide ParseHttpDate, HttpDateOf, WeakEtag;
    DateRoundTrip(mtime);
  }

  /** Echoing it in `If-Unmodified-Since`, without `If-Match`, never fails the precondition. */
  lemma EchoedDateHolds(req: Request, len: nat, mtime: nat)
    requires mtime <= USIZE_MAX
    ensures var echo := req.(ifMatch := None, ifUnmodifiedSince := Some(HttpDateOf(mtime)));
      ServeFile(echo, len, mtime) != PreconditionFailed
  {
    hide ParseHttpDate, HttpDateOf, WeakEtag;
    DateRoundTrip(mtime);
  }

  /** A partial response always names octets the file has. */
  lemma PartialInBounds(req: Request, len: nat, mtime: nat)
    ensures match ServeFile(req, len, mtime)
            case Partial(start, end) => start <= end < len
            case MultiPartial(ranges) => ByteRanges.InBounds(ranges, len)
            case _ => true
  {
    hide PreconditionHolds, IsFresh, ByteRanges.ParseRange;
    if req.range.Some? {
      ByteRanges.RangesInBounds(req.range.value, len);
    }
  }
}
