/** The chunked transfer coding (section 7.1 of RFC 9112): a resumable decoder fed arbitrary
    fragments, and the one-byte machine it implements. */
module Chunked {
  import opened Bytes
  import opened Text
  import Utf8

  const MAX_CHUNK_LINE_LEN: nat := 4096
  const MAX_TRAILER_LINE_LEN: nat := 8192
  const MAX_TRAILER_COUNT: nat := 32

  datatype ChunkedError = TooLarge | Malformed

  datatype Phase = Size | Data(remaining: nat) | DataCrlf(seenCr: bool) | Trailer | Done

  type Header = (seq<byte>, seq<byte>)

  datatype State = State(phase: Phase, line: seq<byte>, body: seq<byte>, trailers: seq<Header>)

  const START: State := State(Size, [], [], [])

  /** A state, or the error that stops decoding and the state it leaves. */
  datatype Progress = Next(st: State) | Fail(error: ChunkedError, st: State)

  // ---- the two framing lines -----------------------------------------------

  /** The number on a chunk-size line: hexadecimal, up to the first `;`, trimmed. */
  function ParseSize(line: seq<byte>): Result<nat, ChunkedError> {
    var part := Before(line, SEMICOLON);
    var digits := Trim(part);
    if !Utf8.Valid(part) || digits == [] || !AllHex(digits) then Err(Malformed)
    else if HexNumber(digits) > USIZE_MAX then Err(Malformed)
    else Ok(HexNumber(digits))
  }

  function SaturatingAdd(a: nat, b: nat): nat {
    if a + b > USIZE_MAX then USIZE_MAX else a + b
  }

  function AfterSizeLine(st: State, maxBody: nat): Progress {
    var taken := st.(line := []);
    match ParseSize(st.line)
    case Err(e) => Fail(e, taken)
    case Ok(size) =>
      if size == 0 then Next(taken.(phase := Trailer))
      else if SaturatingAdd(|st.body|, size) > maxBody then Fail(TooLarge, taken)
      else Next(taken.(phase := Data(size)))
  }

  function ParseTrailer(line: seq<byte>): Result<Header, ChunkedError> {
    if !Utf8.Valid(line) then Err(Malformed)
    else
      match IndexOf(line, COLON)
      case None => Err(Malformed)
      case Some(colon) =>
        var name := Trim(line[..colon]);
        if name == [] then Err(Malformed) else Ok((name, Trim(line[colon + 1..])))
  }

  function AfterTrailerLine(st: State): Progress {
    if st.line == [] then Next(st.(phase := Done))
    else
      var taken := st.(line := []);
      if |st.trailers| >= MAX_TRAILER_COUNT then Fail(TooLarge, taken)
      else
        match ParseTrailer(st.line)
        case Err(e) => Fail(e, taken)
        case Ok(h) => Next(taken.(trailers := st.trailers + [h]))
  }

  function AfterLine(st: State, maxBody: nat): Progress {
    if st.phase.Size? then AfterSizeLine(st, maxBody) else AfterTrailerLine(st)
  }

  function LineCap(phase: Phase): nat {
    if phase.Size? then MAX_CHUNK_LINE_LEN else MAX_TRAILER_LINE_LEN
  }

  // ---- one byte ------------------------------------------------------------

  function StepLine(st: State, b: byte, maxBody: nat): Progress {
    if b == LF then
      if st.line != [] && st.line[|st.line| - 1] == CR
      then AfterLine(st.(line := st.line[..|st.line| - 1]), maxBody)
      else Fail(Malformed, st)
    else
      var longer := st.(line := st.line + [b]);
      if |longer.line| > LineCap(st.phase) then Fail(TooLarge, longer) else Next(longer)
  }

  function Step(st: State, b: byte, maxBody: nat): Progress
    requires !st.phase.Done?
  {
    match st.phase
    case Size => StepLine(st, b, maxBody)
    case Trailer => StepLine(st, b, maxBody)
    case Data(remaining) =>
      Next(st.(body := st.body + [b], phase := if remaining <= 1 then DataCrlf(false) else Data(remaining - 1)))
    case DataCrlf(seenCr) =>
      if !seenCr then if b == CR then Next(st.(phase := DataCrlf(true))) else Fail(Malformed, st)
      else if b == LF then Next(st.(phase := Size)) else Fail(Malformed, st)
    case Done => Next(st)
  }

  // ---- any bytes -----------------------------------------------------------

  /** Where a fold of the machine over some bytes ends. */
  datatype Outcome = Outcome(st: State, used: nat, error: Option<ChunkedError>)

  function Shift(n: nat, o: Outcome): Outcome {
    o.(used := o.used + n)
  }

  /** The fold of `Step`, which stops at `Done` and at the first error. */
  function Run(st: State, input: seq<byte>, maxBody: nat): Outcome
    decreases |input|
  {
    if st.phase.Done? || input == [] then Outcome(st, 0, None)
    else
      match Step(st, input[0], maxBody)
      case Fail(e, st') => Outcome(st', 1, Some(e))
      case Next(st') => Shift(1, Run(st', input[1..], maxBody))
  }

  /** Going on with more input, unless an error already stopped. */
  function Then(o: Outcome, more: seq<byte>, maxBody: nat): Outcome {
    if o.error.Some? then o else Shift(o.used, Run(o.st, more, maxBody))
  }

  lemma {:induction false} RunConcat(st: State, a: seq<byte>, b: seq<byte>, maxBody: nat)
    ensures Run(st, a + b, maxBody) == Then(Run(st, a, maxBody), b, maxBody)
    decreases |a|
  {
    hide Step;
    if a == [] {
      assert a + b == b;
    } else if !st.phase.Done? {
      assert (a + b)[1..] == a[1..] + b;
      match Step(st, a[0], maxBody)
      case Fail(e, st') =>
      case Next(st') => RunConcat(st', a[1..], b, maxBody);
    }
  }

  /** Fragments pushed one after the other, up to the first error. */
  function PushAll(st: State, fragments: seq<seq<byte>>, maxBody: nat): Outcome
    decreases |fragments|
  {
    if fragments == [] then Outcome(st, 0, None)
    else
      var o := Run(st, fragments[0], maxBody);
      if o.error.Some? then o else Shift(o.used, PushAll(o.st, fragments[1..], maxBody))
  }

  function Flatten(fragments: seq<seq<byte>>): seq<byte> {
    if fragments == [] then [] else fragments[0] + Flatten(fragments[1..])
  }

  /** However a stream is cut, the outcome is that of one push of the whole. */
  lemma {:induction false} FragmentationDoesNotMatter(st: State, fragments: seq<seq<byte>>, maxBody: nat)
    ensures PushAll(st, fragments, maxBody) == Run(st, Flatten(fragments), maxBody)
    decreases |fragments|
  {
    hide Step;
    if fragments != [] {
      var o := Run(st, fragments[0], maxBody);
      RunConcat(st, fragments[0], Flatten(fragments[1..]), maxBody);
      FragmentationDoesNotMatter(o.st, fragments[1..], maxBody);
    }
  }

  lemma RunOne(st: State, input: seq<byte>, maxBody: nat)
    requires !st.phase.Done? && input != []
    ensures var next := Step(st, input[0], maxBody);
      Run(st, input, maxBody) ==
        if next.Fail? then Outcome(next.st, 1, Some(next.error)) else Shift(1, Run(next.st, input[1..], maxBody))
  {
  }

  lemma RunStops(st: State, input: seq<byte>, maxBody: nat)
    requires st.phase.Done? || input == []
    ensures Run(st, input, maxBody) == Outcome(st, 0, None)
  {
  }

  lemma {:induction false} RunUses(st: State, input: seq<byte>, maxBody: nat)
    ensures var o := Run(st, input, maxBody);
      o.used <= |input| && (o.error.None? && !o.st.phase.Done? ==> o.used == |input|)
    decreases |input|
  {
    hide Step;
    if !st.phase.Done? && input != [] {
      match Step(st, input[0], maxBody)
      case Fail(e, st') =>
      case Next(st') => RunUses(st', input[1..], maxBody);
    }
  }

  // ---- what every step keeps -----------------------------------------------

  /** A chunk in progress has something left, only line phases hold a line, trailers are counted. */
  ghost predicate Framed(st: State) {
    && (st.phase.Data? ==> st.phase.remaining > 0)
    && (st.phase.Data? || st.phase.DataCrlf? ==> st.line == [])
    && |st.trailers| <= MAX_TRAILER_COUNT
  }

  /** Announced and received body bytes stay within the cap. */
  ghost predicate WithinCap(st: State, maxBody: nat) {
    |st.body| + (if st.phase.Data? then st.phase.remaining else 0) <= maxBody
  }

  lemma StepSound(st: State, b: byte, maxBody: nat)
    requires Framed(st) && !st.phase.Done?
    ensures Framed(Step(st, b, maxBody).st)
    ensures Step(st, b, maxBody).Next? && |st.line| <= LineCap(st.phase) ==>
      |Step(st, b, maxBody).st.line| <= LineCap(Step(st, b, maxBody).st.phase)
    ensures WithinCap(st, maxBody) && maxBody < USIZE_MAX ==> WithinCap(Step(st, b, maxBody).st, maxBody)
  {
    hide ParseSize, ParseTrailer;
  }

  /** After any bytes, under any cap: the framing facts hold, at most 32 trailers are kept and,
      short of an error, no line is over its cap; and short of the largest cap, body plus
      remaining chunk is within it. */
  lemma {:induction false} RunSound(st: State, input: seq<byte>, maxBody: nat)
    requires Framed(st) && |st.line| <= LineCap(st.phase)
    ensures var o := Run(st, input, maxBody);
      && Framed(o.st) && (o.error.None? ==> |o.st.line| <= LineCap(o.st.phase))
      && (WithinCap(st, maxBody) && maxBody < USIZE_MAX ==> WithinCap(o.st, maxBody))
    decreases |input|
  {
    hide Step, Framed, WithinCap;
    if !st.phase.Done? && input != [] {
      StepSound(st, input[0], maxBody);
      match Step(st, input[0], maxBody)
      case Fail(e, st') =>
      case Next(st') => RunSound(st', input[1..], maxBody);
    }
  }

  /** With the largest cap the saturating sum never exceeds it, and the bound is lost. */
  lemma LargestCapLosesTheBound(st: State)
    requires st.phase.Size? && |st.body| > 0 && ParseSize(st.line) == Ok(USIZE_MAX)
    ensures AfterSizeLine(st, USIZE_MAX) == Next(st.(line := [], phase := Data(USIZE_MAX)))
    ensures !WithinCap(AfterSizeLine(st, USIZE_MAX).st, USIZE_MAX)
  {
  }

  // ---- many bytes at a time ------------------------------------------------

  /** What accumulating a line does: a complete line, more to come, or an error. */
  datatype Fed =
    | Fed(used: nat, line: seq<byte>, terminated: bool)
    | FedError(error: ChunkedError, line: seq<byte>)

  function Feed(line: seq<byte>, input: seq<byte>, cap: nat): (r: Fed)
    ensures r.Fed? ==> r.used <= |input| && (!r.terminated ==> r.used == |input|)
    ensures r.Fed? && input != [] ==> r.used > 0
    decreases |input|
  {
    if input == [] then Fed(0, line, false)
    else if input[0] == LF then
      if line != [] && line[|line| - 1] == CR then Fed(1, line[..|line| - 1], true) else FedError(Malformed, line)
    else if |line| + 1 > cap then FedError(TooLarge, line + [input[0]])
    else
      match Feed(line + [input[0]], input[1..], cap)
      case FedError(e, l) => FedError(e, l)
      case Fed(used, l, terminated) => Fed(used + 1, l, terminated)
  }

  /** Feeding a line and then parsing it is the fold over the same bytes. */
  lemma {:induction false} RunFeeds(st: State, input: seq<byte>, maxBody: nat)
    requires st.phase.Size? || st.phase.Trailer?
    ensures var o := Run(st, input, maxBody);
      match Feed(st.line, input, LineCap(st.phase))
      case FedError(e, l) => o.st == st.(line := l) && o.error == Some(e)
      case Fed(used, l, terminated) =>
        if !terminated then o == Outcome(st.(line := l), used, None)
        else match AfterLine(st.(line := l), maxBody)
             case Fail(e, st') => o.st == st' && o.error == Some(e)
             case Next(st') => o == Shift(used, Run(st', input[used..], maxBody))
    decreases |input|
  {
    hide AfterLine;
    if input != [] && input[0] != LF && |st.line| + 1 <= LineCap(st.phase) {
      var st' := st.(line := st.line + [input[0]]);
      assert Step(st, input[0], maxBody) == Next(st');
      RunFeeds(st', input[1..], maxBody);
      match Feed(st'.line, input[1..], LineCap(st.phase))
      case FedError(e, l) =>
      case Fed(used, l, terminated) => assert input[1..][used..] == input[used + 1..];
    }
  }

  /** Copying a run of data bytes at once is the fold over them. */
  lemma {:induction false} RunCopies(st: State, input: seq<byte>, maxBody: nat)
    requires st.phase.Data? && st.phase.remaining > 0
    ensures var take := Min(st.phase.remaining, |input|);
      var left := st.phase.remaining - take;
      var st' := st.(body := st.body + input[..take], phase := if left == 0 then DataCrlf(false) else Data(left));
      Run(st, input, maxBody) == Shift(take, Run(st', input[take..], maxBody))
    decreases |input|
  {
    if input == [] {
      assert st.body + input[..0] == st.body;
    } else {
      var take := Min(st.phase.remaining, |input|);
      var next := Step(st, input[0], maxBody).st;
      assert st.body + [input[0]] + input[1..][..take - 1] == st.body + input[..take];
      assert input[1..][take - 1..] == input[take..];
      if st.phase.remaining > 1 {
        RunCopies(next, input[1..], maxBody);
      } else {
        assert input[1..][..0] == [] && next.body + [] == next.body;
      }
    }
  }

  // ---- the decoder ---------------------------------------------------------

  class ChunkedDecoder {
    const maxBody: nat
    var phase: Phase
    var line: seq<byte>
    var lineTerminated: bool
    var body: seq<byte>
    var trailers: seq<Header>

    /** `lineTerminated` is scratch between feeding a line and parsing it. */
    function View(): State
      reads this
    {
      State(phase, line, body, trailers)
    }

    ghost predicate Valid()
      reads this
    {
      phase.Data? ==> phase.remaining > 0
    }

    constructor (maxBody: nat)
      ensures Valid() && View() == START && this.maxBody == maxBody
    {
      this.maxBody := maxBody;
      phase, line, body, trailers := Size, [], [], [];
      lineTerminated := false;
    }

    method FeedLine(input: seq<byte>, maxLen: nat) returns (r: Result<nat, ChunkedError>)
      modifies this`line, this`lineTerminated
      ensures match Feed(old(line), input, maxLen)
              case FedError(e, l) => r == Err(e) && line == l
              case Fed(used, l, terminated) => r == Ok(used) && line == l && lineTerminated == terminated
    {
      lineTerminated := false;
      var idx := 0;
      ghost var whole := Feed(line, input, maxLen);
      while idx < |input|
        invariant idx <= |input| && !lineTerminated
        invariant match Feed(line, input[idx..], maxLen)
                  case FedError(e, l) => whole == FedError(e, l)
                  case Fed(used, l, terminated) => whole == Fed(used + idx, l, terminated)
      {
        var b := input[idx];
        assert input[idx..][1..] == input[idx + 1..];
        idx := idx + 1;
        if b == LF {
          if line != [] && line[|line| - 1] == CR {
            line := line[..|line| - 1];
            lineTerminated := true;
            return Ok(idx);
          }
          return Err(Malformed);
        }
        line := line + [b];
        if |line| > maxLen {
          return Err(TooLarge);
        }
      }
      r := Ok(idx);
    }

    method ParseSizeLine() returns (r: Result<(), ChunkedError>)
      requires phase.Size?
      modifies this`line, this`phase
      ensures match AfterSizeLine(old(View()), maxBody)
              case Fail(e, st) => r == Err(e) && View() == st
              case Next(st) => r == Ok(()) && View() == st
      ensures Valid()
    {
      var taken := line;
      line := [];
      var sizePart := Before(taken, SEMICOLON);
      if !Utf8.Valid(sizePart) {
        return Err(Malformed);
      }
      var sizeStr := Trim(sizePart);
      if sizeStr == [] || !AllHex(sizeStr) {
        return Err(Malformed);
      }
      var size := HexNumber(sizeStr);
      if size > USIZE_MAX {
        return Err(Malformed);
      }
      if size == 0 {
        phase := Trailer;
      } else {
        if SaturatingAdd(|body|, size) > maxBody {
          return Err(TooLarge);
        }
        phase := Data(size);
      }
      r := Ok(());
    }

    method ParseTrailerLine() returns (r: Result<(), ChunkedError>)
      requires phase.Trailer? && line != []
      modifies this`line, this`trailers
      ensures match AfterTrailerLine(old(View()))
              case Fail(e, st) => r == Err(e) && View() == st
              case Next(st) => r == Ok(()) && View() == st
    {
      var taken := line;
      line := [];
      if |trailers| >= MAX_TRAILER_COUNT {
        return Err(TooLarge);
      }
      var parsed := ParseTrailer(taken);
      if parsed.Err? {
        return Err(parsed.error);
      }
      trailers := trailers + [parsed.value];
      r := Ok(());
    }

    /** The size-line arm of the loop: some bytes go into the line, a complete line is parsed. */
    method PushSizeLine(rest: seq<byte>) returns (r: Result<nat, ChunkedError>)
      requires phase.Size? && rest != []
      modifies this
      ensures Valid() && Advances(old(View()), rest, maxBody, r, View())
    {
      hide AfterSizeLine, Feed, Step;
      RunFeeds(View(), rest, maxBody);
      var n := FeedLine(rest, MAX_CHUNK_LINE_LEN);
      if n.Err? {
        return Err(n.error);
      }
      if lineTerminated {
        var parsed := ParseSizeLine();
        if parsed.Err? {
          return Err(parsed.error);
        }
      } else {
        assert rest[n.value..] == [];
      }
      r := n;
    }

    /** The trailer arm of the loop; a blank line completes the body. */
    method PushTrailerLine(rest: seq<byte>) returns (r: Result<nat, ChunkedError>)
      requires phase.Trailer? && rest != []
      modifies this
      ensures Valid() && Advances(old(View()), rest, maxBody, r, View())
    {
      hide AfterTrailerLine, Feed, Step;
      RunFeeds(View(), rest, maxBody);
      var n := FeedLine(rest, MAX_TRAILER_LINE_LEN);
      if n.Err? {
        return Err(n.error);
      }
      if lineTerminated {
        if line == [] {
          BlankLine(View());
          phase := Done;
        } else {
          var parsed := ParseTrailerLine();
          if parsed.Err? {
            return Err(parsed.error);
          }
        }
      } else {
        assert rest[n.value..] == [];
      }
      r := n;
    }

    /** Feed a fragment; the result and the new state are those of the byte machine. */
    method Push(input: seq<byte>) returns (r: Result<nat, ChunkedError>)
      requires Valid()
      modifies this
      ensures Valid()
      ensures var o := Run(old(View()), input, maxBody);
        View() == o.st && r == if o.error.Some? then Err(o.error.value) else Ok(o.used)
    {
      hide Step, Run;
      var idx := 0;
      ghost var whole := Run(View(), input, maxBody);
      assert input[0..] == input;
      while idx < |input|
        invariant idx <= |input| && Valid()
        invariant whole == Shift(idx, Run(View(), input[idx..], maxBody))
        decreases |input| - idx
      {
        var rest := input[idx..];
        ghost var st, start := View(), idx;
        match phase {
          case Done =>
            RunStops(st, rest, maxBody);
            break;
          case Size =>
            var n := PushSizeLine(rest);
            if n.Err? {
              return Err(n.error);
            }
            idx := idx + n.value;
          case Data(remaining) =>
            RunCopies(st, rest, maxBody);
            var take := Min(remaining, |input| - idx);
            assert rest[..take] == input[idx..idx + take];
            body := body + input[idx..idx + take];
            idx := idx + take;
            var left := remaining - take;
            phase := if left == 0 then DataCrlf(false) else Data(left);
          case DataCrlf(seenCr) =>
            var b := input[idx];
            StepCrlf(st, b, maxBody);
            RunOne(st, rest, maxBody);
            idx := idx + 1;
            if !seenCr {
              if b != CR {
                return Err(Malformed);
              }
              phase := DataCrlf(true);
            } else {
              if b != LF {
                return Err(Malformed);
              }
              phase := Size;
            }
          case Trailer =>
            var n := PushTrailerLine(rest);
            if n.Err? {
              return Err(n.error);
            }
            idx := idx + n.value;
        }
        assert rest[idx - start..] == input[idx..];
      }
      RunStops(View(), input[idx..], maxBody);
      r := Ok(idx);
    }
  }

  /** Some of `rest` has been dealt with: what is left to do is what the fold still does. */
  ghost predicate Advances(st: State, rest: seq<byte>, maxBody: nat, r: Result<nat, ChunkedError>, st': State) {
    match r
    case Err(e) => Run(st, rest, maxBody).st == st' && Run(st, rest, maxBody).error == Some(e)
    case Ok(n) => 0 < n <= |rest| && Run(st, rest, maxBody) == Shift(n, Run(st', rest[n..], maxBody))
  }

  lemma BlankLine(st: State)
    requires st.line == []
    ensures AfterTrailerLine(st) == Next(st.(phase := Done))
  {
  }

  lemma StepCrlf(st: State, b: byte, maxBody: nat)
    requires st.phase.DataCrlf?
    ensures Step(st, b, maxBody) ==
      if !st.phase.seenCr then if b == CR then Next(st.(phase := DataCrlf(true))) else Fail(Malformed, st)
      else if b == LF then Next(st.(phase := Size)) else Fail(Malformed, st)
  {
  }
}
