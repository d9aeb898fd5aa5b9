/** The whole-buffer chunked decoder of the compatibility tests, and when the streaming
    decoder agrees with it. */
module ChunkedOneShot {
  import opened Bytes
  import opened Text
  import opened Chunked
  import opened ChunkedRendering
  import Utf8

  /** `Panicked`: the sum `size + 2` wrapped around and the slice that follows is out of range. */
  datatype OneShotError = MissingCrlf | NotUtf8 | BadSize | Truncated | Panicked

  /** The first position of CR LF. */
  function FindCrlf(s: seq<byte>): (r: Option<nat>)
    ensures r.Some? ==> r.value + 2 <= |s|
  {
    if |s| < 2 then None
    else if s[0] == CR && s[1] == LF then Some(0)
    else
      match FindCrlf(s[1..])
      case None => None
      case Some(i) => Some(i + 1)
  }

  /** `usize::from_str_radix(s, 16)`: a leading `+` is accepted. */
  function FromRadix16(s: seq<byte>): Option<nat> {
    var digits := if |s| > 1 && s[0] == PLUS then s[1..] else s;
    if digits == [] || !AllHex(digits) || HexNumber(digits) > USIZE_MAX then None else Some(HexNumber(digits))
  }

  /** A `usize` sum. */
  function Wrapped(n: nat): nat {
    n % (USIZE_MAX + 1)
  }

  function OneShot(input: seq<byte>, out: seq<byte>): Result<seq<byte>, OneShotError>
    decreases |input|
  {
    match FindCrlf(input)
    case None => Err(MissingCrlf)
    case Some(end) =>
      var line, rest := input[..end], input[end + 2..];
      if !Utf8.Valid(line) then Err(NotUtf8)
      else
        match FromRadix16(Trim(Before(line, SEMICOLON)))
        case None => Err(BadSize)
        case Some(size) =>
          if size == 0 then Ok(out)
          else if |rest| < Wrapped(size + 2) then Err(Truncated)
          else if |rest| < size + 2 then Err(Panicked)
          else OneShot(rest[size + 2..], out + rest[..size])
  }

  method DecodeChunked(body: seq<byte>) returns (r: Result<seq<byte>, OneShotError>)
    ensures r == OneShot(body, [])
  {
    hide Utf8.Valid, Trim, Before, FromRadix16, FindCrlf, OneShot, Wrapped;
    var out: seq<byte> := [];
    var input := body;
    while true
      invariant OneShot(input, out) == OneShot(body, [])
      decreases |input|
    {
      OneTurn(input, out);
      var end := FindCrlf(input);
      if end.None? {
        return Err(MissingCrlf);
      }
      var line := input[..end.value];
      if !Utf8.Valid(line) {
        return Err(NotUtf8);
      }
      var size := FromRadix16(Trim(Before(line, SEMICOLON)));
      if size.None? {
        return Err(BadSize);
      }
      var rest := input[end.value + 2..];
      if size.value == 0 {
        return Ok(out);
      }
      if |rest| < Wrapped(size.value + 2) {
        return Err(Truncated);
      }
      if |rest| < size.value + 2 {
        return Err(Panicked);
      }
      out := out + rest[..size.value];
      input := rest[size.value + 2..];
    }
  }

  /** One turn of the loop. */
  lemma OneTurn(input: seq<byte>, out: seq<byte>)
    ensures var end := FindCrlf(input);
      OneShot(input, out) ==
        if end.None? then Err(MissingCrlf)
        else
          var line, rest := input[..end.value], input[end.value + 2..];
          var size := FromRadix16(Trim(Before(line, SEMICOLON)));
          if !Utf8.Valid(line) then Err(NotUtf8)
          else if size.None? then Err(BadSize)
          else if size.value == 0 then Ok(out)
          else if |rest| < Wrapped(size.value + 2) then Err(Truncated)
          else if |rest| < size.value + 2 then Err(Panicked)
          else OneShot(rest[size.value + 2..], out + rest[..size.value])
  {
    hide Utf8.Valid, Trim, Before, FromRadix16, FindCrlf, Wrapped;
  }

  // ---- agreement -----------------------------------------------------------

  /** Every size line, extension included, satisfies `ok`. */
  predicate SizeLines(input: seq<byte>, ok: seq<byte> -> bool)
    decreases |input|
  {
    match FindCrlf(input)
    case None => true
    case Some(end) =>
      var rest := input[end + 2..];
      ok(input[..end]) &&
      match ParseSize(input[..end])
      case Err(_) => true
      case Ok(size) => 0 < size && size + 2 <= |rest| ==> SizeLines(rest[size + 2..], ok)
  }

  lemma {:induction false} FindCrlfAt(s: seq<byte>, i: nat)
    requires i + 2 <= |s| && s[i] == CR && s[i + 1] == LF && LF !in s[..i + 1]
    ensures FindCrlf(s) == Some(i)
  {
    if i > 0 {
      assert s[..i + 1][1] == s[1];
      assert s[1..][..i] == s[..i + 1][1..];
      FindCrlfAt(s[1..], i - 1);
    }
  }

  /** A line ends at the first LF, and a CR stands before it. */
  lemma {:induction false} FeedEndsAtCrlf(before: seq<byte>, input: seq<byte>, cap: nat)
    requires Feed(before, input, cap).Fed? && Feed(before, input, cap).terminated
    ensures var Fed(used, l, _) := Feed(before, input, cap);
      && 0 < used && input[used - 1] == LF && LF !in input[..used - 1]
      && before + input[..used - 1] == l + [CR]
    decreases |input|
  {
    if input[0] == LF {
      assert input[..0] == [];
      assert before == before[..|before| - 1] + [CR];
    } else {
      var used, b := Feed(before, input, cap).used, input[0];
      FeedEndsAtCrlf(before + [b], input[1..], cap);
      hide Feed;
      assert input[..used - 1] == [b] + input[1..][..used - 2];
      Regroup(before, [b], input[1..][..used - 2]);
    }
  }

  lemma FirstLine(input: seq<byte>, cap: nat)
    requires Feed([], input, cap).Fed? && Feed([], input, cap).terminated
    ensures var Fed(used, l, _) := Feed([], input, cap);
      2 <= used && FindCrlf(input) == Some(used - 2) && l == input[..used - 2]
  {
    FeedEndsAtCrlf([], input, cap);
    var Fed(used, l, _) := Feed([], input, cap);
    var front := input[..used - 1];
    assert [] + front == front == l + [CR];
    assert input[used - 2] == front[used - 2] == CR;
    assert l == front[..used - 2] == input[..used - 2];
    assert input[..used - 1] == front;
    FindCrlfAt(input, used - 2);
  }

  lemma {:induction false} TrailersKeepBody(st: State, input: seq<byte>, maxBody: nat)
    requires st.phase.Trailer? || st.phase.Done?
    ensures Run(st, input, maxBody).st.body == st.body
    decreases |input|
  {
    if st.phase.Trailer? && input != [] {
      match Step(st, input[0], maxBody)
      case Fail(e, st') =>
      case Next(st') => TrailersKeepBody(st', input[1..], maxBody);
    }
  }

  lemma CrlfOrNothing(st: State, rest: seq<byte>, maxBody: nat)
    requires st.phase == DataCrlf(false) && Completes(st, rest, maxBody)
    ensures 2 <= |rest| && Run(st, rest, maxBody) == Shift(2, Run(st.(phase := Size), rest[2..], maxBody))
  {
    var mid := st.(phase := DataCrlf(true));
    assert Run(st, rest, maxBody) == Shift(1, Run(mid, rest[1..], maxBody));
    assert rest[1..][1..] == rest[2..];
  }

  ghost predicate Completes(st: State, input: seq<byte>, maxBody: nat) {
    Run(st, input, maxBody).st.phase.Done? && Run(st, input, maxBody).error.None?
  }

  lemma SameSize(line: seq<byte>)
    requires ParseSize(line).Ok?
    ensures FromRadix16(Trim(Before(line, SEMICOLON))) == Some(ParseSize(line).value)
  {
    hide HexNumber, Trim, Before, Utf8.Valid;
  }

  /** A completed streaming decode has read a size line and then either the trailers or one
      whole chunk. */
  lemma FirstChunk(st: State, input: seq<byte>, maxBody: nat) returns (end: nat, size: nat)
    requires st.phase.Size? && st.line == [] && Completes(st, input, maxBody)
    ensures FindCrlf(input) == Some(end) && ParseSize(input[..end]) == Ok(size)
    ensures var rest := input[end + 2..];
      if size == 0 then Run(st, input, maxBody).st.body == st.body
      else size + 2 <= |rest| && size <= USIZE_MAX &&
           var st' := st.(body := st.body + rest[..size]);
           Completes(st', rest[size + 2..], maxBody) &&
           Run(st, input, maxBody).st.body == Run(st', rest[size + 2..], maxBody).st.body
  {
    hide Feed, Run, ParseSize;
    RunFeeds(st, input, maxBody);
    var fed := Feed(st.line, input, MAX_CHUNK_LINE_LEN);
    FirstLine(input, MAX_CHUNK_LINE_LEN);
    end := fed.used - 2;
    var rest := input[end + 2..];
    size := ParseSize(input[..end]).value;
    if size == 0 {
      TrailersKeepBody(st.(phase := Trailer), rest, maxBody);
    } else {
      SizeFits(input[..end]);
      RunCopies(st.(phase := Data(size)), rest, maxBody);
      if |rest| < size {
        ShortData(st.(phase := Data(size)), rest, maxBody);
      }
      var read := st.(body := st.body + rest[..size], phase := DataCrlf(false));
      CrlfOrNothing(read, rest[size..], maxBody);
      assert rest[size..][2..] == rest[size + 2..];
      assert st.(body := st.body + rest[..size]) == read.(phase := Size);
    }
  }

  lemma SizeFits(line: seq<byte>)
    requires ParseSize(line).Ok?
    ensures ParseSize(line).value <= USIZE_MAX
  {
  }

  lemma ShortData(st: State, rest: seq<byte>, maxBody: nat)
    requires st.phase.Data? && |rest| < st.phase.remaining
    ensures !Completes(st, rest, maxBody)
  {
    RunCopies(st, rest, maxBody);
    assert rest[..|rest|] == rest && rest[|rest|..] == [];
  }

  lemma {:induction false} StreamingAgrees(st: State, input: seq<byte>, maxBody: nat)
    requires st.phase.Size? && st.line == [] && Completes(st, input, maxBody)
    ensures OneShot(input, st.body) == Ok(Run(st, input, maxBody).st.body) <==> SizeLines(input, Utf8.Valid)
    decreases |input|
  {
    hide Run, ParseSize, Completes, Utf8.Valid, FindCrlf, OneShot, SizeLines;
    var end, size := FirstChunk(st, input, maxBody);
    var rest := input[end + 2..];
    OneChunk(input, end, size, st.body);
    LineAndRest(input, end, size, Utf8.Valid);
    if size > 0 {
      StreamingAgrees(st.(body := st.body + rest[..size]), rest[size + 2..], maxBody);
    }
  }

  /** One turn of the whole-buffer decoder over a chunk that is there. */
  lemma OneChunk(input: seq<byte>, end: nat, size: nat, out: seq<byte>)
    requires FindCrlf(input) == Some(end) && ParseSize(input[..end]) == Ok(size)
    requires size + 2 <= |input| - end - 2 || size == 0
    ensures OneShot(input, out) ==
      if !Utf8.Valid(input[..end]) then Err(NotUtf8)
      else if size == 0 then Ok(out)
      else OneShot(input[end + 2..][size + 2..], out + input[end + 2..][..size])
  {
    hide ParseSize, FromRadix16, Utf8.Valid, FindCrlf, Trim, Before, OneShot, Wrapped;
    OneTurn(input, out);
    SameSize(input[..end]);
    WrappedAtMost(size + 2);
  }

  lemma WrappedAtMost(n: nat)
    ensures Wrapped(n) <= n
  {
  }

  lemma LineAndRest(input: seq<byte>, end: nat, size: nat, ok: seq<byte> -> bool)
    requires FindCrlf(input) == Some(end) && ParseSize(input[..end]) == Ok(size)
    requires size + 2 <= |input| - end - 2 || size == 0
    ensures SizeLines(input, ok) <==>
      ok(input[..end]) && (size > 0 ==> SizeLines(input[end + 2..][size + 2..], ok))
  {
    hide ParseSize, FindCrlf;
  }

  /** Whenever the streaming decoder completes, the whole-buffer decoder returns the same body
      on the same input if and only if every size line is valid UTF-8. */
  lemma StreamingRefinesOneShot(input: seq<byte>, maxBody: nat)
    requires Completes(START, input, maxBody)
    ensures OneShot(input, []) == Ok(Run(START, input, maxBody).st.body) <==> SizeLines(input, Utf8.Valid)
  {
    StreamingAgrees(START, input, maxBody);
  }

  /** An input that only the streaming decoder accepts: an octet that is not text after the `;`. */
  lemma NonTextExtensionSeparates()
    ensures var input := [48, SEMICOLON, 255] + CRLF + CRLF;
      Completes(START, input, 100) && Run(START, input, 100).st.body == [] && OneShot(input, []) == Err(NotUtf8)
  {
    hide Run, Feed, AllHex, HexNumber, FindCrlf;
    var line: seq<byte> := [48, SEMICOLON, 255];
    var m := Message([], SizeLine([], [48], [], [SEMICOLON, 255]), []);
    ZeroDigit();
    assert SizeText(m.last) == line;
    assert Render(m) == line + CRLF + CRLF;
    assert Render(m) + [] == line + CRLF + CRLF;
    RenderingDecodes(m, [], 100);
    var input := line + CRLF + CRLF;
    assert input[..3] == line && input[..4] == line + [CR];
    FindCrlfAt(input, 3);
    NotText();
  }

  lemma NotText()
    ensures !Utf8.Valid([48, SEMICOLON, 255])
  {
    var line: seq<byte> := [48, SEMICOLON, 255];
    assert line[1..][1..] == [255];
    assert Utf8.CharLen([255]) == 0;
  }

  /** In particular when the framing lines are ASCII, whatever the chunks hold. */
  lemma AsciiLinesAgree(input: seq<byte>, maxBody: nat)
    requires Completes(START, input, maxBody) && SizeLines(input, Utf8.IsAscii)
    ensures OneShot(input, []) == Ok(Run(START, input, maxBody).st.body)
  {
    AsciiLinesValid(input);
    StreamingRefinesOneShot(input, maxBody);
  }

  lemma {:induction false} AsciiLinesValid(input: seq<byte>)
    requires SizeLines(input, Utf8.IsAscii)
    ensures SizeLines(input, Utf8.Valid)
    decreases |input|
  {
    hide ParseSize, Utf8.Valid, Utf8.IsAscii, FindCrlf;
    match FindCrlf(input)
    case None =>
    case Some(end) =>
      Utf8.AsciiValid(input[..end]);
      var rest := input[end + 2..];
      match ParseSize(input[..end])
      case Err(_) =>
      case Ok(size) =>
        if 0 < size && size + 2 <= |rest| {
          AsciiLinesValid(rest[size + 2..]);
        }
  }
}
