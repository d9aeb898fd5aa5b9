/** Every rendering of a chunked body decodes to what was rendered, and the streaming decoder
    agrees with a decoder that sees the whole buffer. */
module ChunkedRendering {
  import opened Bytes
  import opened Text
  import opened Chunked
  import Utf8

  const CRLF: seq<byte> := [CR, LF]

  // ---- what may be rendered ------------------------------------------------

  /** A chunk-size line: digits with blanks around them, and an extension. */
  datatype SizeLine = SizeLine(lead: seq<byte>, digits: seq<byte>, gap: seq<byte>, ext: seq<byte>)

  function SizeText(l: SizeLine): seq<byte> {
    l.lead + l.digits + l.gap + l.ext
  }

  ghost predicate SizeLineOk(l: SizeLine, size: nat) {
    && Blanks(l.lead) && Blanks(l.gap)
    && l.digits != [] && AllHex(l.digits) && HexNumber(l.digits) == size <= USIZE_MAX
    && (l.ext == [] || l.ext[0] == SEMICOLON) && LF !in l.ext
    && |SizeText(l)| + 1 <= MAX_CHUNK_LINE_LEN
  }

  /** A size line of digits alone. */
  function Bare(digits: seq<byte>): SizeLine {
    SizeLine([], digits, [], [])
  }

  lemma BareText(digits: seq<byte>)
    ensures SizeText(Bare(digits)) == digits
  {
  }

  datatype Chunk = Chunk(line: SizeLine, data: seq<byte>)

  ghost predicate ChunkOk(c: Chunk) {
    SizeLineOk(c.line, |c.data|) && c.data != []
  }

  function ChunkText(c: Chunk): seq<byte> {
    SizeText(c.line) + CRLF + c.data + CRLF
  }

  /** A trailer field with the blanks around its name and its value. */
  datatype Field = Field(
    lead: seq<byte>, name: seq<byte>, pad: seq<byte>, gap: seq<byte>, value: seq<byte>, end: seq<byte>)

  ghost predicate FieldOk(f: Field) {
    && Blanks(f.lead) && Blanks(f.pad)
    && f.name != [] && Trimmed(f.name) && COLON !in f.name && LF !in f.name && Utf8.Valid(f.name)
    && Blanks(f.gap) && Blanks(f.end)
    && Trimmed(f.value) && LF !in f.value && Utf8.Valid(f.value)
    && |FieldLine(f)| + 1 <= MAX_TRAILER_LINE_LEN
  }

  function FieldLine(f: Field): seq<byte> {
    (f.lead + f.name + f.pad) + [COLON] + (f.gap + f.value + f.end)
  }

  datatype Message = Message(chunks: seq<Chunk>, last: SizeLine, trailers: seq<Field>)

  function BodyOf(chunks: seq<Chunk>): seq<byte> {
    if chunks == [] then [] else chunks[0].data + BodyOf(chunks[1..])
  }

  function HeadersOf(fields: seq<Field>): (r: seq<Header>)
    ensures |r| == |fields|
  {
    if fields == [] then [] else [(fields[0].name, fields[0].value)] + HeadersOf(fields[1..])
  }

  ghost predicate MessageOk(m: Message, maxBody: nat) {
    && (forall i :: 0 <= i < |m.chunks| ==> ChunkOk(m.chunks[i]))
    && SizeLineOk(m.last, 0)
    && (forall i :: 0 <= i < |m.trailers| ==> FieldOk(m.trailers[i]))
    && |m.trailers| <= MAX_TRAILER_COUNT
    && |BodyOf(m.chunks)| <= maxBody
  }

  function RenderChunks(chunks: seq<Chunk>): seq<byte> {
    if chunks == [] then [] else ChunkText(chunks[0]) + RenderChunks(chunks[1..])
  }

  function RenderFields(fields: seq<Field>): seq<byte> {
    if fields == [] then [] else FieldLine(fields[0]) + CRLF + RenderFields(fields[1..])
  }

  function Render(m: Message): seq<byte> {
    RenderChunks(m.chunks) + SizeText(m.last) + CRLF + (RenderFields(m.trailers) + CRLF)
  }

  // ---- reading one line ----------------------------------------------------

  /** A line and its CR within the cap is read whole; one octet more is refused. */
  lemma {:induction false} FeedWholeLineIff(before: seq<byte>, line: seq<byte>, rest: seq<byte>, cap: nat)
    requires LF !in line && |before| <= cap
    ensures Feed(before, line + CRLF + rest, cap) ==
      if |before| + |line| + 1 <= cap then Fed(|line| + 2, before + line, true)
      else FedError(TooLarge, (before + line + [CR])[..cap + 1])
    decreases |line|
  {
    var input := line + CRLF + rest;
    if line == [] {
      assert input[0] == CR && input[1..][0] == LF;
      assert before + [] == before;
      if |before| + 1 <= cap {
        assert (before + [CR])[..|before|] == before;
        assert Feed(before + [CR], input[1..], cap) == Fed(1, before, true);
      } else {
        assert (before + [CR])[..cap + 1] == before + [CR];
      }
    } else {
      assert line[0] in line && input[0] == line[0];
      assert input[1..] == line[1..] + CRLF + rest;
      var longer := before + [line[0]];
      assert longer + line[1..] == before + line;
      if |longer| <= cap {
        FeedWholeLineIff(longer, line[1..], rest, cap);
      } else {
        assert (before + line + [CR])[..cap + 1] == longer;
      }
    }
  }

  /** A complete line takes the machine through its parser and on to the rest. */
  lemma RunLine(st: State, line: seq<byte>, rest: seq<byte>, maxBody: nat)
    requires (st.phase.Size? || st.phase.Trailer?) && st.line == []
    requires LF !in line && |line| + 1 <= LineCap(st.phase)
    requires AfterLine(st.(line := line), maxBody).Next?
    ensures Run(st, line + CRLF + rest, maxBody)
         == Shift(|line| + 2, Run(AfterLine(st.(line := line), maxBody).st, rest, maxBody))
  {
    hide AfterLine, Run, Feed;
    var input := line + CRLF + rest;
    FeedWholeLineIff([], line, rest, LineCap(st.phase));
    assert [] + line == line;
    RunFeeds(st, input, maxBody);
    assert input[|line| + 2..] == rest;
  }

  lemma HexIsPlain(digits: seq<byte>)
    requires AllHex(digits)
    ensures Utf8.Valid(digits) && LF !in digits && SEMICOLON !in digits
    ensures digits != [] ==> Trimmed(digits)
  {
    Utf8.AsciiValid(digits);
  }

  lemma ParseSizeOk(l: SizeLine, size: nat)
    requires SizeLineOk(l, size)
    ensures ParseSize(SizeText(l)) == Ok(size) && LF !in SizeText(l)
  {
    hide HexNumber, Utf8.Valid, IndexOf, Trim, AllHex;
    var part := l.lead + l.digits + l.gap;
    SizePart(l.lead, l.digits, l.gap);
    if l.ext == [] {
      assert SizeText(l) == part;
    } else {
      assert SizeText(l)[..|part|] == part;
      IndexOfAt(SizeText(l), SEMICOLON, |part|);
    }
  }

  /** The part before the extension is text that trims to the digits. */
  lemma SizePart(lead: seq<byte>, digits: seq<byte>, gap: seq<byte>)
    requires Blanks(lead) && Blanks(gap) && digits != [] && AllHex(digits)
    ensures var part := lead + digits + gap;
      Utf8.Valid(part) && LF !in part && SEMICOLON !in part && Trim(part) == digits
  {
    hide Utf8.Valid, Trim;
    HexIsPlain(digits);
    TrimBlanks(lead, digits, gap);
    Utf8.AsciiValid(lead);
    Utf8.AsciiValid(gap);
    Utf8.ValidConcat(lead, digits);
    Utf8.ValidConcat(lead + digits, gap);
  }

  // ---- reading chunks ------------------------------------------------------

  lemma RunChunk(st: State, c: Chunk, rest: seq<byte>, maxBody: nat)
    requires st.phase.Size? && st.line == [] && ChunkOk(c) && |st.body| + |c.data| <= maxBody <= USIZE_MAX
    ensures Run(st, ChunkText(c) + rest, maxBody) ==
      Shift(|ChunkText(c)|, Run(st.(body := st.body + c.data), rest, maxBody))
  {
    hide Run, Feed, ParseSize, AllHex, HexNumber, SizeText;
    var line := SizeText(c.line);
    ParseSizeOk(c.line, |c.data|);
    var afterData := CRLF + rest;
    RunLine(st, line, c.data + afterData, maxBody);
    var reading := st.(phase := Data(|c.data|));
    var read := st.(body := st.body + c.data, phase := DataCrlf(false));
    RunCopies(reading, c.data + afterData, maxBody);
    assert (c.data + afterData)[..|c.data|] == c.data && (c.data + afterData)[|c.data|..] == afterData;
    RunCrlf(read, rest, maxBody);
    assert ChunkText(c) + rest == line + CRLF + (c.data + afterData);
  }

  lemma RunCrlf(st: State, rest: seq<byte>, maxBody: nat)
    requires st.phase == DataCrlf(false)
    ensures Run(st, CRLF + rest, maxBody) == Shift(2, Run(st.(phase := Size), rest, maxBody))
  {
    var input := CRLF + rest;
    var mid := st.(phase := DataCrlf(true));
    StepCrlf(st, CR, maxBody);
    StepCrlf(mid, LF, maxBody);
    assert input[1..] == [LF] + rest && ([LF] + rest)[1..] == rest;
    assert Run(mid, [LF] + rest, maxBody) == Shift(1, Run(st.(phase := Size), rest, maxBody));
  }

  lemma {:induction false} RunChunks(st: State, chunks: seq<Chunk>, rest: seq<byte>, maxBody: nat)
    requires st.phase.Size? && st.line == [] && (forall i :: 0 <= i < |chunks| ==> ChunkOk(chunks[i]))
    requires |st.body| + |BodyOf(chunks)| <= maxBody <= USIZE_MAX
    ensures Run(st, RenderChunks(chunks) + rest, maxBody)
         == Shift(|RenderChunks(chunks)|, Run(st.(body := st.body + BodyOf(chunks)), rest, maxBody))
    decreases |chunks|
  {
    hide Run, ChunkOk;
    if chunks == [] {
      assert RenderChunks(chunks) + rest == rest;
      assert st.body + [] == st.body;
    } else {
      var c := chunks[0];
      var head, tail := ChunkText(c), RenderChunks(chunks[1..]);
      assert RenderChunks(chunks) == head + tail && BodyOf(chunks) == c.data + BodyOf(chunks[1..]);
      hide RenderChunks, BodyOf, ChunkText;
      Regroup(head, tail, rest);
      Regroup(st.body, c.data, BodyOf(chunks[1..]));
      RunChunk(st, c, tail + rest, maxBody);
      RunChunks(st.(body := st.body + c.data), chunks[1..], rest, maxBody);
    }
  }

  // ---- reading trailers ----------------------------------------------------

  lemma ParseTrailerOk(f: Field)
    requires FieldOk(f)
    ensures ParseTrailer(FieldLine(f)) == Ok((f.name, f.value))
    ensures LF !in FieldLine(f) && FieldLine(f) != []
  {
    hide IndexOf, Utf8.Valid, Trim, Trimmed;
    var line := FieldLine(f);
    var left, right := f.lead + f.name + f.pad, f.gap + f.value + f.end;
    BlankText(f.lead);
    BlankText(f.pad);
    BlankText(f.gap);
    BlankText(f.end);
    FieldLineValid(f);
    assert line[..|left|] == left && line[|left| + 1..] == right;
    IndexOfAt(line, COLON, |left|);
    TrimBlanks(f.lead, f.name, f.pad);
    TrimBlanks(f.gap, f.value, f.end);
  }

  lemma BlankText(gap: seq<byte>)
    requires Blanks(gap)
    ensures COLON !in gap && LF !in gap && Utf8.Valid(gap)
  {
    Utf8.AsciiValid(gap);
  }

  lemma Padded(lead: seq<byte>, text: seq<byte>, end: seq<byte>)
    requires Blanks(lead) && Utf8.Valid(text) && Blanks(end)
    ensures Utf8.Valid(lead + text + end)
  {
    hide Utf8.Valid;
    BlankText(lead);
    BlankText(end);
    Utf8.ValidConcat(lead, text);
    Utf8.ValidConcat(lead + text, end);
  }

  lemma FieldLineValid(f: Field)
    requires FieldOk(f)
    ensures Utf8.Valid(FieldLine(f))
  {
    hide Utf8.Valid, Trimmed;
    var left, right := f.lead + f.name + f.pad, f.gap + f.value + f.end;
    Padded(f.lead, f.name, f.pad);
    Padded(f.gap, f.value, f.end);
    Utf8.AsciiValid([COLON]);
    Utf8.ValidConcat(left, [COLON]);
    Utf8.ValidConcat(left + [COLON], right);
  }

  /** One trailer line is parsed and kept. */
  lemma RunTrailer(st: State, f: Field, rest: seq<byte>, maxBody: nat)
    requires st.phase.Trailer? && st.line == [] && FieldOk(f) && |st.trailers| < MAX_TRAILER_COUNT
    ensures Run(st, FieldLine(f) + CRLF + rest, maxBody) ==
      Shift(|FieldLine(f)| + 2, Run(st.(trailers := st.trailers + [(f.name, f.value)]), rest, maxBody))
  {
    hide Run, ParseTrailer, FieldLine, FieldOk;
    ParseTrailerOk(f);
    FieldLineFits(f);
    var read := st.(line := FieldLine(f));
    assert AfterLine(read, maxBody) == Next(st.(trailers := st.trailers + [(f.name, f.value)]));
    RunLine(st, FieldLine(f), rest, maxBody);
  }

  /** The blank line completes the body; what follows is left. */
  lemma RunBlank(st: State, rest: seq<byte>, maxBody: nat)
    requires st.phase.Trailer? && st.line == []
    ensures Run(st, CRLF + rest, maxBody) == Outcome(st.(phase := Done), 2, None)
  {
    hide Run, ParseTrailer;
    assert CRLF + rest == [] + CRLF + rest;
    RunLine(st, [], rest, maxBody);
    RunStops(st.(phase := Done), rest, maxBody);
  }

  lemma {:induction false} RunFields(st: State, fields: seq<Field>, rest: seq<byte>, maxBody: nat)
    requires st.phase.Trailer? && st.line == [] && (forall i :: 0 <= i < |fields| ==> FieldOk(fields[i]))
    requires |st.trailers| + |fields| <= MAX_TRAILER_COUNT
    ensures Run(st, RenderFields(fields) + rest, maxBody) ==
      Shift(|RenderFields(fields)|, Run(st.(trailers := st.trailers + HeadersOf(fields)), rest, maxBody))
    decreases |fields|
  {
    hide Run, FieldLine, FieldOk;
    if fields == [] {
      assert RenderFields(fields) + rest == rest;
      assert st.trailers + [] == st.trailers;
    } else {
      var f := fields[0];
      var tail := RenderFields(fields[1..]);
      FieldsUnfold(fields, st.trailers, rest);
      hide RenderFields, HeadersOf;
      RunTrailer(st, f, tail + rest, maxBody);
      RunFields(st.(trailers := st.trailers + [(f.name, f.value)]), fields[1..], rest, maxBody);
    }
  }

  lemma FieldsUnfold(fields: seq<Field>, before: seq<Header>, rest: seq<byte>)
    requires fields != []
    ensures var f, tail := fields[0], RenderFields(fields[1..]);
      && RenderFields(fields) + rest == FieldLine(f) + CRLF + (tail + rest)
      && |RenderFields(fields)| == |FieldLine(f)| + 2 + |tail|
      && before + HeadersOf(fields) == before + [(f.name, f.value)] + HeadersOf(fields[1..])
  {
    hide FieldLine;
    var f, tail := fields[0], RenderFields(fields[1..]);
    assert RenderFields(fields) == FieldLine(f) + CRLF + tail;
    assert HeadersOf(fields) == [(f.name, f.value)] + HeadersOf(fields[1..]);
    hide RenderFields, HeadersOf;
    Regroup(FieldLine(f) + CRLF, tail, rest);
    Regroup(before, [(f.name, f.value)], HeadersOf(fields[1..]));
  }

  /** The trailer section is read to its blank line. */
  lemma RunTrailers(st: State, fields: seq<Field>, rest: seq<byte>, maxBody: nat)
    requires st.phase.Trailer? && st.line == [] && (forall i :: 0 <= i < |fields| ==> FieldOk(fields[i]))
    requires |st.trailers| + |fields| <= MAX_TRAILER_COUNT
    ensures Run(st, (RenderFields(fields) + CRLF) + rest, maxBody) ==
      Outcome(st.(phase := Done, trailers := st.trailers + HeadersOf(fields)), |RenderFields(fields)| + 2, None)
  {
    hide Run, RenderFields, HeadersOf, FieldOk;
    Regroup(RenderFields(fields), CRLF, rest);
    RunFields(st, fields, CRLF + rest, maxBody);
    RunBlank(st.(trailers := st.trailers + HeadersOf(fields)), rest, maxBody);
  }

  /** The chunks and the last size line, up to the trailer section. */
  lemma RunToTrailers(chunks: seq<Chunk>, last: SizeLine, rest: seq<byte>, maxBody: nat)
    requires (forall i :: 0 <= i < |chunks| ==> ChunkOk(chunks[i])) && SizeLineOk(last, 0)
    requires |BodyOf(chunks)| <= maxBody <= USIZE_MAX
    ensures Run(START, RenderChunks(chunks) + (SizeText(last) + CRLF + rest), maxBody) ==
      Shift(|RenderChunks(chunks)| + |SizeText(last)| + 2, Run(State(Trailer, [], BodyOf(chunks), []), rest, maxBody))
  {
    hide Run, AllHex, HexNumber, ParseSize, ChunkOk, SizeText;
    RunChunks(START, chunks, SizeText(last) + CRLF + rest, maxBody);
    ParseSizeOk(last, 0);
    assert [] + BodyOf(chunks) == BodyOf(chunks);
    RunLine(START.(body := BodyOf(chunks)), SizeText(last), rest, maxBody);
  }

  lemma FieldLineFits(f: Field)
    requires FieldOk(f)
    ensures |FieldLine(f)| + 1 <= MAX_TRAILER_LINE_LEN
  {
  }

  /** Completeness: any rendering, whatever follows it, decodes to its chunks and trailers and
      consumes exactly the rendering. */
  lemma RenderingDecodes(m: Message, tail: seq<byte>, maxBody: nat)
    requires MessageOk(m, maxBody) && maxBody <= USIZE_MAX
    ensures Run(START, Render(m) + tail, maxBody)
         == Outcome(State(Done, [], BodyOf(m.chunks), HeadersOf(m.trailers)), |Render(m)|, None)
  {
    hide Run, FieldOk, ChunkOk, SizeLineOk, RenderChunks, RenderFields, SizeText, BodyOf, HeadersOf;
    var line, fields := SizeText(m.last), RenderFields(m.trailers) + CRLF;
    assert Render(m) + tail == RenderChunks(m.chunks) + (line + CRLF + (fields + tail));
    RunToTrailers(m.chunks, m.last, fields + tail, maxBody);
    RunTrailers(State(Trailer, [], BodyOf(m.chunks), []), m.trailers, tail, maxBody);
    assert [] + HeadersOf(m.trailers) == HeadersOf(m.trailers);
  }

  // ---- the body bound at the largest cap -----------------------------------

  const SIXTEEN_F: seq<byte> := [102, 102, 102, 102, 102, 102, 102, 102, 102, 102, 102, 102, 102, 102, 102, 102]

  lemma {:induction false} LettersF(n: nat)
    requires n <= 16
    ensures AllHex(SIXTEEN_F[..n]) && HexNumber(SIXTEEN_F[..n]) == Pow2(4 * n) - 1
  {
    hide Pow2;
    if n == 0 {
      PowerZero();
    } else {
      LettersF(n - 1);
      OneLetterMore(SIXTEEN_F[..n], n);
      SixteenTimes(n);
    }
  }

  lemma OneLetterMore(s: seq<byte>, n: nat)
    requires 0 < n <= 16 && s == SIXTEEN_F[..n] && AllHex(SIXTEEN_F[..n - 1])
    ensures AllHex(s) && HexNumber(s) == 16 * HexNumber(SIXTEEN_F[..n - 1]) + 15
  {
    assert s[..n - 1] == SIXTEEN_F[..n - 1] && s[n - 1] == 102;
  }

  lemma SixteenTimes(n: nat)
    requires n > 0
    ensures Pow2(4 * n) == 16 * Pow2(4 * (n - 1))
  {
    Pow2Add(4 * (n - 1), 4);
    PowerFour();
    hide Pow2;
    assert 4 * n == 4 * (n - 1) + 4;
  }

  lemma PowerZero()
    ensures Pow2(0) == 1
  {
  }

  lemma PowerFour()
    ensures Pow2(4) == 16
  {
  }

  /** `1 CRLF a CRLF`, then a size line of sixteen `f`. */
  const OVERFLOW: seq<byte> := [49, CR, LF, 97, CR, LF] + SIXTEEN_F + [CR, LF]

  /** From the start state that input leaves one octet of body and 2 to the 64 less one to come. */
  lemma OverflowRun()
    ensures Run(START, OVERFLOW, USIZE_MAX).st == State(Data(USIZE_MAX), [], [97], [])
  {
    hide Run, Feed, HexNumber, AllHex, ParseSize, SIXTEEN_F;
    var c := Chunk(Bare([49]), [97]);
    var line := SIXTEEN_F;
    BareText([49]);
    BareText(line);
    OneDigit();
    SixteenDigits();
    RunChunk(START, c, line + CRLF, USIZE_MAX);
    assert ChunkText(c) + (line + CRLF) == OVERFLOW;
    var st := START.(body := [] + [97]);
    ParseSizeOk(Bare(line), USIZE_MAX);
    LargestCapLosesTheBound(st.(line := line));
    assert line + CRLF + [] == line + CRLF;
    RunLine(st, line, [], USIZE_MAX);
    RunStops(AfterLine(st.(line := line), USIZE_MAX).st, [], USIZE_MAX);
  }

  lemma OneDigit()
    ensures AllHex([49]) && HexNumber([49]) == 1
  {
    assert [49][..0] == [];
  }

  lemma SixteenDigits()
    ensures SizeLineOk(Bare(SIXTEEN_F), USIZE_MAX)
  {
    hide Pow2, HexNumber;
    LettersF(16);
    assert SIXTEEN_F[..16] == SIXTEEN_F;
    TwoTo64();
  }

  /** The cap bounds body plus remaining chunk on every input if and only if it is not the
      largest `usize`. */
  lemma BodyBoundHoldsIff(maxBody: nat)
    requires maxBody <= USIZE_MAX
    ensures (forall input :: WithinCap(Run(START, input, maxBody).st, maxBody)) <==> maxBody < USIZE_MAX
  {
    hide Run;
    if maxBody < USIZE_MAX {
      forall input ensures WithinCap(Run(START, input, maxBody).st, maxBody) {
        RunSound(START, input, maxBody);
      }
    } else {
      OverflowRun();
      assert !WithinCap(Run(START, OVERFLOW, maxBody).st, maxBody);
    }
  }

  // ---- the program's own encoder -------------------------------------------

  function EncodeChunked(body: seq<byte>): seq<byte> {
    (if body == [] then [] else HexText(|body|) + CRLF + body + CRLF) + [48] + CRLF + CRLF
  }

  /** What the encoder writes is a rendering, so the decoder returns the body. */
  lemma EncodedDecodes(body: seq<byte>, tail: seq<byte>, maxBody: nat)
    requires |body| <= maxBody <= USIZE_MAX
    ensures Run(START, EncodeChunked(body) + tail, maxBody)
         == Outcome(State(Done, [], body, []), |EncodeChunked(body)|, None)
  {
    hide Run, AllHex, HexNumber, HexText;
    var c := Chunk(Bare(HexText(|body|)), body);
    var m := Message(if body == [] then [] else [c], Bare([48]), []);
    BareText(HexText(|body|));
    BareText([48]);
    SizeDigits(|body|);
    SizeDigits(0);
    ZeroDigit();
    assert BodyOf([c]) == body + BodyOf([]) by { assert [c][1..] == []; }
    assert body + [] == body;
    assert RenderChunks([c]) == HexText(|body|) + CRLF + body + CRLF by {
      assert [c][1..] == [];
    }
    assert Render(m) == EncodeChunked(body);
    RenderingDecodes(m, tail, maxBody);
  }

  lemma ZeroDigit()
    ensures AllHex([48]) && HexNumber([48]) == 0
  {
    assert [48][..0] == [];
  }

  lemma SizeDigits(n: nat)
    requires n <= USIZE_MAX
    ensures |HexText(n)| <= 16
  {
    hide Pow2, HexText;
    TwoTo64();
    HexTextLength(n, 16);
  }
}
