/** What stops the chunked decoder, and with which error, after any chunks and trailers that it
    read before; the body and the trailers read so far are kept. */
module ChunkedRefusals {
  import opened Bytes
  import opened Text
  import opened Chunked
  import opened ChunkedRendering
  import Utf8

  /** The decoder stopped with the error at the state, whatever was left to come. */
  predicate Stops(o: Outcome, error: ChunkedError, body: seq<byte>, trailers: seq<Header>) {
    o.error == Some(error) && o.st.body == body && o.st.trailers == trailers
  }

  // ---- one line ------------------------------------------------------------

  /** A line feed with no carriage return before it. */
  predicate BareEnding(line: seq<byte>) {
    LF !in line && (line == [] || line[|line| - 1] != CR)
  }

  lemma {:induction false} FeedBare(before: seq<byte>, line: seq<byte>, rest: seq<byte>, cap: nat)
    requires LF !in line && BareEnding(before + line) && |before| + |line| <= cap
    ensures Feed(before, line + [LF] + rest, cap) == FedError(Malformed, before + line)
    decreases |line|
  {
    var input := line + [LF] + rest;
    if line == [] {
      assert before + [] == before && input[0] == LF;
    } else {
      assert input[0] == line[0] && line[0] in line && input[1..] == line[1..] + [LF] + rest;
      assert before + [line[0]] + line[1..] == before + line;
      FeedBare(before + [line[0]], line[1..], rest, cap);
    }
  }

  ghost predicate AtLine(st: State) {
    (st.phase.Size? || st.phase.Trailer?) && st.line == []
  }

  lemma BareLineStops(st: State, line: seq<byte>, rest: seq<byte>, maxBody: nat)
    requires AtLine(st) && BareEnding(line) && |line| <= LineCap(st.phase)
    ensures Stops(Run(st, line + [LF] + rest, maxBody), Malformed, st.body, st.trailers)
  {
    hide Run, Feed;
    assert [] + line == line;
    FeedBare([], line, rest, LineCap(st.phase));
    RunFeeds(st, line + [LF] + rest, maxBody);
  }

  lemma LongLineStops(st: State, line: seq<byte>, rest: seq<byte>, maxBody: nat)
    requires AtLine(st) && LF !in line && |line| + 1 > LineCap(st.phase)
    ensures Stops(Run(st, line + CRLF + rest, maxBody), TooLarge, st.body, st.trailers)
  {
    hide Run, Feed;
    FeedWholeLineIff([], line, rest, LineCap(st.phase));
    RunFeeds(st, line + CRLF + rest, maxBody);
  }

  lemma ParsedLineStops(st: State, line: seq<byte>, rest: seq<byte>, maxBody: nat, error: ChunkedError)
    requires AtLine(st) && LF !in line && |line| + 1 <= LineCap(st.phase)
    requires AfterLine(st.(line := line), maxBody).Fail? && AfterLine(st.(line := line), maxBody).error == error
    ensures Stops(Run(st, line + CRLF + rest, maxBody), error, st.body, st.trailers)
  {
    hide Run, Feed, ParseSize, ParseTrailer;
    assert [] + line == line;
    FeedWholeLineIff([], line, rest, LineCap(st.phase));
    RunFeeds(st, line + CRLF + rest, maxBody);
  }

  // ---- size lines ----------------------------------------------------------

  /** Visible text that is no chunk size: nothing, an octet that is no hexadecimal digit, or a
      number of more than 64 bits. */
  predicate NoSize(text: seq<byte>) {
    Plain(text) && SEMICOLON !in text &&
    (text == [] || (exists i :: 0 <= i < |text| && !IsHex(text[i])) ||
     (AllHex(text) && HexNumber(text) > USIZE_MAX))
  }

  lemma NoSizeRefused(lead: seq<byte>, text: seq<byte>, gap: seq<byte>, ext: seq<byte>)
    requires Blanks(lead) && NoSize(text) && Blanks(gap) && (ext == [] || ext[0] == SEMICOLON)
    ensures ParseSize(lead + text + gap + ext) == Err(Malformed)
  {
    hide HexNumber, Utf8.Valid, IndexOf, Trim;
    var part := lead + text + gap;
    PlainTrimmed(text);
    TrimBlanks(lead, text, gap);
    assert SEMICOLON !in part;
    if ext == [] {
      assert part + ext == part;
    } else {
      assert (part + ext)[..|part|] == part;
      IndexOfAt(part + ext, SEMICOLON, |part|);
    }
  }

  lemma NotTextRefused(part: seq<byte>, ext: seq<byte>)
    requires !Utf8.Valid(part) && SEMICOLON !in part && (ext == [] || ext[0] == SEMICOLON)
    ensures ParseSize(part + ext) == Err(Malformed)
  {
    hide Utf8.Valid, IndexOf;
    if ext == [] {
      assert part + ext == part;
    } else {
      assert (part + ext)[..|part|] == part;
      IndexOfAt(part + ext, SEMICOLON, |part|);
    }
  }

  /** Chunks that the decoder accepts under a cap. */
  ghost predicate Accepted(chunks: seq<Chunk>, maxBody: nat) {
    (forall i :: 0 <= i < |chunks| ==> ChunkOk(chunks[i])) && |BodyOf(chunks)| <= maxBody <= USIZE_MAX
  }

  lemma AfterChunks(chunks: seq<Chunk>, rest: seq<byte>, maxBody: nat)
    requires Accepted(chunks, maxBody)
    ensures Run(START, RenderChunks(chunks) + rest, maxBody) ==
      Shift(|RenderChunks(chunks)|, Run(START.(body := BodyOf(chunks)), rest, maxBody))
  {
    hide Run, ChunkOk, RenderChunks, BodyOf;
    RunChunks(START, chunks, rest, maxBody);
    assert [] + BodyOf(chunks) == BodyOf(chunks);
  }

  /** A chunk that would take the body over the cap is refused at its size line, before any of its
      data; only the largest cap is never exceeded. */
  lemma OverCapStops(chunks: seq<Chunk>, l: SizeLine, size: nat, rest: seq<byte>, maxBody: nat)
    requires Accepted(chunks, maxBody) && SizeLineOk(l, size) && size > 0
    requires |BodyOf(chunks)| + size > maxBody && maxBody < USIZE_MAX
    ensures Stops(Run(START, RenderChunks(chunks) + (SizeText(l) + CRLF + rest), maxBody),
      TooLarge, BodyOf(chunks), [])
  {
    hide Run, RenderChunks, BodyOf, SizeText, ParseSize, HexNumber, AllHex, ChunkOk;
    AfterChunks(chunks, SizeText(l) + CRLF + rest, maxBody);
    ParseSizeOk(l, size);
    ParsedLineStops(START.(body := BodyOf(chunks)), SizeText(l), rest, maxBody, TooLarge);
  }

  /** A size line without a size. */
  lemma NoSizeStops(
      chunks: seq<Chunk>, lead: seq<byte>, text: seq<byte>, gap: seq<byte>, ext: seq<byte>, rest: seq<byte>,
      maxBody: nat)
    requires Accepted(chunks, maxBody)
    requires Blanks(lead) && NoSize(text) && Blanks(gap) && (ext == [] || ext[0] == SEMICOLON) && LF !in ext
    requires |lead + text + gap + ext| + 1 <= 4096
    ensures Stops(Run(START, RenderChunks(chunks) + ((lead + text + gap + ext) + CRLF + rest), maxBody),
      Malformed, BodyOf(chunks), [])
  {
    hide Run, RenderChunks, BodyOf, ParseSize, HexNumber, AllHex, IsHex, ChunkOk;
    var line := lead + text + gap + ext;
    AfterChunks(chunks, line + CRLF + rest, maxBody);
    NoSizeRefused(lead, text, gap, ext);
    ParsedLineStops(START.(body := BodyOf(chunks)), line, rest, maxBody, Malformed);
  }

  /** A size line that ends in a bare line feed, or is too long. */
  lemma BadSizeLineStops(chunks: seq<Chunk>, line: seq<byte>, rest: seq<byte>, maxBody: nat)
    requires Accepted(chunks, maxBody) && LF !in line
    ensures BareEnding(line) && |line| <= 4096 ==>
      Stops(Run(START, RenderChunks(chunks) + (line + [LF] + rest), maxBody), Malformed, BodyOf(chunks), [])
    ensures |line| >= 4096 ==>
      Stops(Run(START, RenderChunks(chunks) + (line + CRLF + rest), maxBody), TooLarge, BodyOf(chunks), [])
  {
    hide Run, RenderChunks, BodyOf, ChunkOk;
    var st := START.(body := BodyOf(chunks));
    if BareEnding(line) && |line| <= 4096 {
      AfterChunks(chunks, line + [LF] + rest, maxBody);
      BareLineStops(st, line, rest, maxBody);
    }
    if |line| >= 4096 {
      AfterChunks(chunks, line + CRLF + rest, maxBody);
      LongLineStops(st, line, rest, maxBody);
    }
  }

  // ---- data ----------------------------------------------------------------

  lemma NoCrStops(st: State, b: byte, rest: seq<byte>, maxBody: nat)
    requires st.phase == DataCrlf(false)
    ensures b != CR ==> Stops(Run(st, [b] + rest, maxBody), Malformed, st.body, st.trailers)
    ensures b != LF ==> Stops(Run(st, [CR] + ([b] + rest), maxBody), Malformed, st.body, st.trailers)
  {
    assert ([CR] + ([b] + rest))[1..] == [b] + rest;
    RunOne(st, [CR] + ([b] + rest), maxBody);
    RunOne(st, [b] + rest, maxBody);
    RunOne(st.(phase := DataCrlf(true)), [b] + rest, maxBody);
    hide Run;
  }

  /** Data that no CR LF follows. */
  lemma UnendedDataStops(chunks: seq<Chunk>, c: Chunk, b: byte, rest: seq<byte>, maxBody: nat)
    requires Accepted(chunks + [c], maxBody)
    ensures b != CR ==> Stops(Run(START, RenderChunks(chunks) + (SizeText(c.line) + CRLF + (c.data + ([b] + rest))),
      maxBody), Malformed, BodyOf(chunks) + c.data, [])
    ensures b != LF ==> Stops(Run(START, RenderChunks(chunks) +
      (SizeText(c.line) + CRLF + (c.data + ([CR] + ([b] + rest)))), maxBody), Malformed, BodyOf(chunks) + c.data, [])
  {
    hide Run, RenderChunks, BodyOf, SizeText, ChunkOk, Accepted;
    FrontAccepted(chunks, c, maxBody);
    NoCrStops(State(DataCrlf(false), [], BodyOf(chunks) + c.data, []), b, rest, maxBody);
    ToDataEnd(chunks, c, [b] + rest, maxBody);
    ToDataEnd(chunks, c, [CR] + ([b] + rest), maxBody);
  }

  lemma FrontAccepted(chunks: seq<Chunk>, c: Chunk, maxBody: nat)
    requires Accepted(chunks + [c], maxBody)
    ensures Accepted(chunks, maxBody) && ChunkOk(c) && |BodyOf(chunks)| + |c.data| <= maxBody
  {
    hide ChunkOk;
    BodySnoc(chunks, c);
    forall i | 0 <= i < |chunks| ensures ChunkOk(chunks[i]) {
      assert (chunks + [c])[i] == chunks[i];
    }
    assert (chunks + [c])[|chunks|] == c;
  }

  lemma {:induction false} BodySnoc(chunks: seq<Chunk>, c: Chunk)
    ensures BodyOf(chunks + [c]) == BodyOf(chunks) + c.data
  {
    if chunks == [] {
      assert ([] + [c])[1..] == [];
    } else {
      assert (chunks + [c])[1..] == chunks[1..] + [c];
      BodySnoc(chunks[1..], c);
    }
  }

  lemma ToDataEnd(chunks: seq<Chunk>, c: Chunk, rest: seq<byte>, maxBody: nat)
    requires Accepted(chunks, maxBody) && ChunkOk(c) && |BodyOf(chunks)| + |c.data| <= maxBody
    ensures Run(START, RenderChunks(chunks) + (SizeText(c.line) + CRLF + (c.data + rest)), maxBody) ==
      Shift(|RenderChunks(chunks)| + |SizeText(c.line)| + 2 + |c.data|,
        Run(State(DataCrlf(false), [], BodyOf(chunks) + c.data, []), rest, maxBody))
  {
    hide Run, RenderChunks, BodyOf, SizeText, ParseSize, HexNumber, AllHex, Accepted;
    var st := START.(body := BodyOf(chunks));
    var line := SizeText(c.line);
    AfterChunks(chunks, line + CRLF + (c.data + rest), maxBody);
    assert maxBody <= USIZE_MAX by { CapFits(chunks, maxBody); }
    ParseSizeOk(c.line, |c.data|);
    RunLine(st, line, c.data + rest, maxBody);
    RunCopies(st.(phase := Data(|c.data|)), c.data + rest, maxBody);
    assert (c.data + rest)[..|c.data|] == c.data && (c.data + rest)[|c.data|..] == rest;
  }

  lemma CapFits(chunks: seq<Chunk>, maxBody: nat)
    requires Accepted(chunks, maxBody)
    ensures maxBody <= USIZE_MAX
  {
  }

  // ---- trailers ------------------------------------------------------------

  /** A body read to its end and some of its trailer fields. */
  ghost predicate Trailing(m: Message, maxBody: nat) {
    MessageOk(m, maxBody) && maxBody <= USIZE_MAX
  }

  function FrontOf(m: Message): seq<byte> {
    RenderChunks(m.chunks) + (SizeText(m.last) + CRLF + RenderFields(m.trailers))
  }

  lemma AfterFields(m: Message, rest: seq<byte>, maxBody: nat)
    requires Trailing(m, maxBody)
    ensures Run(START, FrontOf(m) + rest, maxBody) ==
      Shift(|FrontOf(m)|, Run(State(Trailer, [], BodyOf(m.chunks), HeadersOf(m.trailers)), rest, maxBody))
  {
    hide Run, RenderChunks, BodyOf, SizeText, RenderFields, HeadersOf, ChunkOk, FieldOk, SizeLineOk;
    var line := SizeText(m.last) + CRLF;
    assert FrontOf(m) + rest == RenderChunks(m.chunks) + (line + (RenderFields(m.trailers) + rest));
    RunToTrailers(m.chunks, m.last, RenderFields(m.trailers) + rest, maxBody);
    RunFields(State(Trailer, [], BodyOf(m.chunks), []), m.trailers, rest, maxBody);
    assert [] + HeadersOf(m.trailers) == HeadersOf(m.trailers);
  }

  /** A line that is no field: no colon, nothing but blanks before it, or not text. */
  ghost predicate NoField(line: seq<byte>) {
    line != [] && LF !in line &&
    (COLON !in line || !Utf8.Valid(line) || exists gap, rest :: Blanks(gap) && line == gap + [COLON] + rest)
  }

  lemma NoFieldRefused(line: seq<byte>)
    requires NoField(line)
    ensures ParseTrailer(line) == Err(Malformed)
  {
    hide Utf8.Valid, Trim, IndexOf;
    if gap, rest :| Blanks(gap) && line == gap + [COLON] + rest {
      BlankText(gap);
      assert line[..|gap|] == gap;
      IndexOfAt(line, COLON, |gap|);
      assert gap + [] + [] == gap;
      assert Trimmed([]);
      TrimBlanks(gap, [], []);
    }
  }

  /** A trailer line that is no field, ends in a bare line feed or is too long. */
  lemma BadTrailerStops(m: Message, line: seq<byte>, rest: seq<byte>, maxBody: nat)
    requires Trailing(m, maxBody) && |m.trailers| < 32 && LF !in line
    ensures NoField(line) && |line| < 8192 ==>
      Stops(Run(START, FrontOf(m) + (line + CRLF + rest), maxBody), Malformed, BodyOf(m.chunks), HeadersOf(m.trailers))
    ensures BareEnding(line) && |line| <= 8192 ==>
      Stops(Run(START, FrontOf(m) + (line + [LF] + rest), maxBody), Malformed, BodyOf(m.chunks), HeadersOf(m.trailers))
    ensures |line| >= 8192 ==>
      Stops(Run(START, FrontOf(m) + (line + CRLF + rest), maxBody), TooLarge, BodyOf(m.chunks), HeadersOf(m.trailers))
  {
    hide Run, FrontOf, BodyOf, Trailing, NoField, ParseTrailer;
    var st := State(Trailer, [], BodyOf(m.chunks), HeadersOf(m.trailers));
    AfterFields(m, line + CRLF + rest, maxBody);
    AfterFields(m, line + [LF] + rest, maxBody);
    hide HeadersOf;
    if NoField(line) && |line| < 8192 {
      NoFieldRefused(line);
      SomeLine(line);
      ParsedLineStops(st, line, rest, maxBody, Malformed);
    }
    if BareEnding(line) && |line| <= 8192 {
      BareLineStops(st, line, rest, maxBody);
    }
    if |line| >= 8192 {
      LongLineStops(st, line, rest, maxBody);
    }
  }

  lemma SomeLine(line: seq<byte>)
    requires NoField(line)
    ensures line != []
  {
  }

  /** A thirty-third trailer line, whatever it says. */
  lemma TrailersAreLimited(m: Message, line: seq<byte>, rest: seq<byte>, maxBody: nat)
    requires Trailing(m, maxBody) && |m.trailers| == 32
    requires line != [] && LF !in line && |line| < 8192
    ensures Stops(Run(START, FrontOf(m) + (line + CRLF + rest), maxBody),
      TooLarge, BodyOf(m.chunks), HeadersOf(m.trailers))
  {
    hide Run, FrontOf, BodyOf, Trailing, ParseTrailer;
    var st := State(Trailer, [], BodyOf(m.chunks), HeadersOf(m.trailers));
    AfterFields(m, line + CRLF + rest, maxBody);
    hide HeadersOf;
    ParsedLineStops(st, line, rest, maxBody, TooLarge);
  }
}
