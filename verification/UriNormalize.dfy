/** Request target normalization: percent-decoding and a stack of path segments. */
module UriNormalize {
  import opened Bytes
  import opened Text
  import Utf8

  const BACKSLASH: byte := 92
  const PERCENT: byte := 37
  const QUESTION: byte := 63

  datatype NormalizeError =
    PathTraversal | Backslash | NulByte | EncodedSlash | BadPercentEncoding | InvalidUtf8 | NotAbsolute

  datatype NormalizedUri = NormalizedUri(path: seq<byte>, query: Option<seq<byte>>)

  type Decoding = Result<seq<byte>, NormalizeError>

  // ---- percent-decoding ----------------------------------------------------

  function Prepend(front: seq<byte>, r: Decoding): Decoding {
    if r.Ok? then Ok(front + r.value) else r
  }

  /** The decoding that starts `s`: its octet and how much of `s` it takes. */
  function NextOctet(s: seq<byte>): Result<(byte, nat), NormalizeError>
    requires s != []
    ensures NextOctet(s).Ok? ==> 0 < NextOctet(s).value.1 <= |s|
  {
    if s[0] == PERCENT then
      if |s| < 3 || !IsHex(s[1]) || !IsHex(s[2]) then Err(BadPercentEncoding)
      else
        var b := 16 * HexValue(s[1]) + HexValue(s[2]);
        if b == SLASH then Err(EncodedSlash) else if b == 0 then Err(NulByte) else Ok((b, 3))
    else if s[0] == 0 then Err(NulByte)
    else Ok((s[0], 1))
  }

  function PercentDecoded(input: seq<byte>): Decoding
    decreases |input|
  {
    if input == [] then Ok([])
    else
      var next := NextOctet(input);
      if next.Err? then Err(next.error) else Prepend([next.value.0], PercentDecoded(input[next.value.1..]))
  }

  method PercentDecode(input: seq<byte>) returns (r: Decoding)
    ensures r == PercentDecoded(input)
  {
    hide HexValue, PercentDecoded;
    var out: seq<byte> := [];
    var i := 0;
    PrependNothing(PercentDecoded(input));
    assert input[0..] == input;
    while i < |input|
      invariant i <= |input|
      invariant PercentDecoded(input) == Prepend(out, PercentDecoded(input[i..]))
    {
      DecodingStep(out, input[i..]);
      if input[i] == PERCENT {
        if i + 2 >= |input| {
          return Err(BadPercentEncoding);
        }
        if !IsHex(input[i + 1]) || !IsHex(input[i + 2]) {
          return Err(BadPercentEncoding);
        }
        var b := 16 * HexValue(input[i + 1]) + HexValue(input[i + 2]);
        if b == SLASH {
          return Err(EncodedSlash);
        }
        if b == 0 {
          return Err(NulByte);
        }
        assert input[i..][3..] == input[i + 3..];
        out := out + [b];
        i := i + 3;
      } else if input[i] == 0 {
        return Err(NulByte);
      } else {
        assert input[i..][1..] == input[i + 1..];
        out := out + [input[i]];
        i := i + 1;
      }
    }
    assert input[i..] == [];
    DecodedEmpty(out);
    r := Ok(out);
  }

  lemma DecodingStep(out: seq<byte>, rest: seq<byte>)
    requires rest != []
    ensures Prepend(out, PercentDecoded(rest)) ==
      var next := NextOctet(rest);
      if next.Err? then Err(next.error) else Prepend(out + [next.value.0], PercentDecoded(rest[next.value.1..]))
  {
    hide HexValue;
    var next := NextOctet(rest);
    if next.Ok? {
      PrependTwice(out, next.value.0, PercentDecoded(rest[next.value.1..]));
    }
  }

  lemma DecodedEmpty(out: seq<byte>)
    ensures Prepend(out, PercentDecoded([])) == Ok(out)
  {
    assert out + [] == out;
  }

  lemma PrependNothing(r: Decoding)
    ensures Prepend([], r) == r
  {
    if r.Ok? {
      assert [] + r.value == r.value;
    }
  }

  lemma PrependTwice(out: seq<byte>, b: byte, r: Decoding)
    ensures Prepend(out, Prepend([b], r)) == Prepend(out + [b], r)
  {
    if r.Ok? {
      assert out + ([b] + r.value) == (out + [b]) + r.value;
    }
  }

  // ---- dot segments --------------------------------------------------------

  predicate IsDot(s: seq<byte>) {
    s == [DOT]
  }

  predicate IsDotDot(s: seq<byte>) {
    s == [DOT, DOT]
  }

  predicate Skipped(s: seq<byte>) {
    s == [] || IsDot(s)
  }

  predicate Ordinary(s: seq<byte>) {
    !Skipped(s) && !IsDotDot(s)
  }

  /** The stack of names after some segments; nothing once a `..` finds it empty. */
  function Stack(segments: seq<seq<byte>>): Option<seq<seq<byte>>> {
    if segments == [] then Some([])
    else
      match Stack(segments[..|segments| - 1])
      case None => None
      case Some(stack) =>
        var s := segments[|segments| - 1];
        if Skipped(s) then Some(stack)
        else if IsDotDot(s) then if stack == [] then None else Some(stack[..|stack| - 1])
        else Some(stack + [s])
  }

  function JoinAll(names: seq<seq<byte>>): seq<byte> {
    if names == [] then [] else Join(names, SLASH)
  }

  predicate EndsWithSlash(path: seq<byte>) {
    |path| > 1 && path[|path| - 1] == SLASH
  }

  function Rebuilt(names: seq<seq<byte>>, trailing: bool): seq<byte> {
    [SLASH] + JoinAll(names) + (if trailing && |JoinAll(names)| > 0 then [SLASH] else [])
  }

  function Collapsed(path: seq<byte>): Decoding {
    match Stack(Split(path, SLASH))
    case None => Err(PathTraversal)
    case Some(names) => Ok(Rebuilt(names, EndsWithSlash(path)))
  }

  method CollapseDotSegments(path: seq<byte>) returns (r: Decoding)
    ensures r == Collapsed(path)
  {
    hide Split, JoinAll;
    var trailingSlash := EndsWithSlash(path);
    var stack: seq<seq<byte>> := [];
    var segments := Split(path, SLASH);
    for i := 0 to |segments|
      invariant Stack(segments[..i]) == Some(stack)
    {
      assert segments[..i + 1][..i] == segments[..i];
      if Skipped(segments[i]) {
      } else if IsDotDot(segments[i]) {
        if stack == [] {
          StackFails(segments, i + 1);
          return Err(PathTraversal);
        }
        stack := stack[..|stack| - 1];
      } else {
        stack := stack + [segments[i]];
      }
    }
    assert segments[..|segments|] == segments;
    var result := [SLASH];
    result := result + JoinAll(stack);
    if trailingSlash && |result| > 1 {
      result := result + [SLASH];
    }
    assert result + [] == result;
    r := Ok(result);
  }

  lemma {:induction false} StackFails(segments: seq<seq<byte>>, k: nat)
    requires k <= |segments| && Stack(segments[..k]).None?
    ensures Stack(segments).None?
  {
    if k < |segments| {
      assert segments[..|segments| - 1][..k] == segments[..k];
      StackFails(segments[..|segments| - 1], k);
    } else {
      assert segments[..k] == segments;
    }
  }

  /** Ordinary names less `..` segments. */
  function Net(segments: seq<seq<byte>>): int {
    if segments == [] then 0
    else
      var s := segments[|segments| - 1];
      Net(segments[..|segments| - 1]) + (if Skipped(s) then 0 else if IsDotDot(s) then -1 else 1)
  }

  ghost predicate NeverBelowRoot(segments: seq<seq<byte>>) {
    forall k :: 0 <= k <= |segments| ==> Net(segments[..k]) >= 0
  }

  /** The stack exists exactly when no prefix has more `..` than names; its height is the
      difference, and it holds only ordinary names out of the segments. */
  lemma {:induction false} StackMeaning(segments: seq<seq<byte>>)
    ensures Stack(segments).Some? <==> NeverBelowRoot(segments)
    ensures Stack(segments).Some? ==>
      |Stack(segments).value| == Net(segments) &&
      forall i :: 0 <= i < |Stack(segments).value| ==>
        Ordinary(Stack(segments).value[i]) && Stack(segments).value[i] in segments
  {
    assert segments[..|segments|] == segments;
    if segments != [] {
      var front := segments[..|segments| - 1];
      StackMeaning(front);
      if NeverBelowRoot(segments) {
        PrefixesDown(segments, front);
      } else if NeverBelowRoot(front) && Net(segments) >= 0 {
        PrefixesUp(segments, front);
      }
    } else {
      assert segments[..0] == [];
    }
  }

  lemma PrefixesDown(segments: seq<seq<byte>>, front: seq<seq<byte>>)
    requires segments != [] && front == segments[..|segments| - 1] && NeverBelowRoot(segments)
    ensures NeverBelowRoot(front) && Net(segments) >= 0
  {
    hide Net;
    forall k | 0 <= k <= |front| ensures Net(front[..k]) >= 0 {
      assert front[..k] == segments[..k];
    }
    assert segments[..|segments|] == segments;
  }

  lemma PrefixesUp(segments: seq<seq<byte>>, front: seq<seq<byte>>)
    requires segments != [] && front == segments[..|segments| - 1] && NeverBelowRoot(front) && Net(segments) >= 0
    ensures NeverBelowRoot(segments)
  {
    hide Net;
    forall k | 0 <= k <= |segments| ensures Net(segments[..k]) >= 0 {
      if k <= |front| {
        assert segments[..k] == front[..k];
      } else {
        assert segments[..k] == segments;
      }
    }
  }

  /** Collapsing succeeds exactly when the path never climbs above the root. */
  lemma CollapseSucceedsIff(path: seq<byte>)
    ensures Collapsed(path).Ok? <==> NeverBelowRoot(Split(path, SLASH))
  {
    StackMeaning(Split(path, SLASH));
  }

  lemma {:induction false} JoinSnoc(names: seq<seq<byte>>, last: seq<byte>)
    requires names != []
    ensures Join(names + [last], SLASH) == Join(names, SLASH) + [SLASH] + last
  {
    if |names| == 1 {
      assert (names + [last])[1..] == [last];
    } else {
      JoinSnoc(names[1..], last);
      assert (names + [last])[1..] == names[1..] + [last];
    }
  }

  /** The segments of a rebuilt path: the names between the leading empty one and, after a
      trailing slash, another. */
  function SegmentsOf(names: seq<seq<byte>>, trailing: bool): seq<seq<byte>> {
    if names == [] then [[], []] else [[]] + names + (if trailing then [[]] else [])
  }

  lemma RebuiltSegments(names: seq<seq<byte>>, trailing: bool)
    requires forall i :: 0 <= i < |names| ==> SLASH !in names[i] && names[i] != []
    ensures Split(Rebuilt(names, trailing), SLASH) == SegmentsOf(names, trailing)
  {
    hide Split;
    var segments := SegmentsOf(names, trailing);
    if names == [] {
      assert segments[1..] == [[]] && Join(segments, SLASH) == [] + [SLASH] + Join([[]], SLASH);
      assert Rebuilt(names, trailing) == Join(segments, SLASH);
    } else {
      assert Join(names, SLASH) != [] by { JoinNotEmpty(names); }
      var rooted := [[]] + names;
      assert rooted[1..] == names;
      assert Join(rooted, SLASH) == [] + [SLASH] + Join(names, SLASH);
      JoinSnoc(rooted, []);
      assert rooted + [] == rooted;
      assert Rebuilt(names, trailing) == Join(segments, SLASH);
    }
    SplitJoin(segments, SLASH);
  }

  lemma JoinNotEmpty(names: seq<seq<byte>>)
    requires names != [] && names[0] != []
    ensures Join(names, SLASH) != []
  {
  }

  lemma {:induction false} StackOfOrdinary(names: seq<seq<byte>>)
    requires forall i :: 0 <= i < |names| ==> Ordinary(names[i])
    ensures Stack([[]] + names) == Some(names)
  {
    if names == [] {
      assert ([[]] + names)[..0] == [];
    } else {
      assert ([[]] + names)[..|names|] == [[]] + names[..|names| - 1];
      StackOfOrdinary(names[..|names| - 1]);
      assert names == names[..|names| - 1] + [names[|names| - 1]];
    }
  }

  lemma StackOfSegments(names: seq<seq<byte>>, trailing: bool)
    requires forall i :: 0 <= i < |names| ==> Ordinary(names[i])
    ensures Stack(SegmentsOf(names, trailing)) == Some(names)
  {
    StackOfOrdinary(names);
    if names == [] {
      assert SegmentsOf(names, trailing)[..1] == [[]] + names;
    } else if trailing {
      var s := [[]] + names + [[]];
      assert s[..|s| - 1] == [[]] + names;
    } else {
      assert [[]] + names + [] == [[]] + names;
    }
  }

  lemma NamesOfPath(path: seq<byte>, names: seq<seq<byte>>)
    requires Stack(Split(path, SLASH)) == Some(names)
    ensures forall i :: 0 <= i < |names| ==> Ordinary(names[i]) && SLASH !in names[i]
  {
    StackMeaning(Split(path, SLASH));
  }

  lemma RebuiltRooted(names: seq<seq<byte>>, trailing: bool)
    ensures Rebuilt(names, trailing) != [] && Rebuilt(names, trailing)[0] == SLASH
  {
  }

  /** A collapsed path starts with a slash, and its segments are ordinary names but for the
      leading empty one and, under a trailing slash, the last. */
  lemma CollapsedIsClean(path: seq<byte>)
    requires Collapsed(path).Ok?
    ensures var r := Collapsed(path).value;
      r != [] && r[0] == SLASH &&
      var names := Stack(Split(path, SLASH)).value;
      Split(r, SLASH) == SegmentsOf(names, EndsWithSlash(path)) &&
      forall i :: 0 <= i < |names| ==> Ordinary(names[i])
  {
    hide Rebuilt;
    var names := Stack(Split(path, SLASH)).value;
    NamesOfPath(path, names);
    RebuiltSegments(names, EndsWithSlash(path));
    assert Rebuilt(names, EndsWithSlash(path))[0] == SLASH by { RebuiltRooted(names, EndsWithSlash(path)); }
  }

  lemma RebuiltEnding(names: seq<seq<byte>>, trailing: bool)
    requires forall i :: 0 <= i < |names| ==> Ordinary(names[i]) && SLASH !in names[i]
    ensures Rebuilt(names, EndsWithSlash(Rebuilt(names, trailing))) == Rebuilt(names, trailing)
  {
    if names != [] {
      JoinNotEmpty(names);
      JoinEnding(names);
    }
  }

  lemma {:induction false} JoinEnding(names: seq<seq<byte>>)
    requires names != [] && forall i :: 0 <= i < |names| ==> names[i] != [] && SLASH !in names[i]
    ensures Join(names, SLASH) != [] && Join(names, SLASH)[|Join(names, SLASH)| - 1] != SLASH
  {
    if |names| > 1 {
      JoinEnding(names[1..]);
    }
  }

  /** Collapsing again changes nothing. */
  lemma CollapseIdempotent(path: seq<byte>)
    requires Collapsed(path).Ok?
    ensures Collapsed(Collapsed(path).value) == Collapsed(path)
  {
    hide Split, Rebuilt, Stack, EndsWithSlash;
    var names := Stack(Split(path, SLASH)).value;
    NamesOfPath(path, names);
    CollapsedIsClean(path);
    StackOfSegments(names, EndsWithSlash(path));
    RebuiltEnding(names, EndsWithSlash(path));
  }

  // ---- the whole target ----------------------------------------------------

  function NormalizeTarget(target: seq<byte>): Result<NormalizedUri, NormalizeError> {
    var mark := IndexOf(target, QUESTION);
    var raw := if mark.Some? then target[..mark.value] else target;
    var query := if mark.Some? then Some(target[mark.value + 1..]) else None;
    if raw == [STAR] then Ok(NormalizedUri([STAR], query))
    else if raw == [] || raw[0] != SLASH then Err(NotAbsolute)
    else if BACKSLASH in raw then Err(Backslash)
    else
      match PercentDecoded(raw)
      case Err(e) => Err(e)
      case Ok(decoded) =>
        if BACKSLASH in decoded then Err(Backslash)
        else if !Utf8.Valid(decoded) then Err(InvalidUtf8)
        else
          match Collapsed(decoded)
          case Err(e) => Err(e)
          case Ok(path) => Ok(NormalizedUri(path, query))
  }

  /** Decoding never yields a NUL, however it is spelled. */
  lemma {:induction false} DecodedHasNoNul(input: seq<byte>)
    requires PercentDecoded(input).Ok?
    ensures 0 !in PercentDecoded(input).value
    decreases |input|
  {
    if input != [] {
      DecodedHasNoNul(input[NextOctet(input).value.1..]);
    }
  }

  lemma {:induction false} PieceOctets(s: seq<byte>, i: nat, b: byte)
    requires i < |Split(s, SLASH)| && b in Split(s, SLASH)[i]
    ensures b in s
    decreases |s|
  {
    var mark := IndexOf(s, SLASH);
    if mark.Some? && i > 0 {
      assert Split(s, SLASH)[i] == Split(s[mark.value + 1..], SLASH)[i - 1];
      PieceOctets(s[mark.value + 1..], i - 1, b);
    }
  }

  lemma {:induction false} JoinOctets(names: seq<seq<byte>>, b: byte)
    requires names != [] && b in Join(names, SLASH) && b != SLASH
    ensures exists i :: 0 <= i < |names| && b in names[i]
  {
    if |names| > 1 && b !in names[0] {
      var rest := Join(names[1..], SLASH);
      assert b in rest;
      JoinOctets(names[1..], b);
      var i :| 0 <= i < |names[1..]| && b in names[1..][i];
      assert b in names[i + 1];
    }
  }

  /** Collapsing invents nothing but slashes. */
  lemma CollapsedOctets(path: seq<byte>, b: byte)
    requires Collapsed(path).Ok? && b in Collapsed(path).value && b != SLASH
    ensures b in path
  {
    hide Split, Join, Stack;
    var segments := Split(path, SLASH);
    var names := Stack(segments).value;
    assert names != [] && b in Join(names, SLASH);
    JoinOctets(names, b);
    var i :| 0 <= i < |names| && b in names[i];
    StackMeaning(segments);
    var k :| 0 <= k < |segments| && segments[k] == names[i];
    PieceOctets(path, k, b);
  }

  /** Every accepted path but `*` is rooted, holds no backslash and no NUL, and has no dot
      segment and no empty segment inside. */
  lemma AcceptedIsClean(target: seq<byte>)
    requires NormalizeTarget(target).Ok? && NormalizeTarget(target).value.path != [STAR]
    ensures var path := NormalizeTarget(target).value.path;
      path != [] && path[0] == SLASH && BACKSLASH !in path && 0 !in path &&
      exists names, trailing ::
        Split(path, SLASH) == SegmentsOf(names, trailing) &&
        forall i :: 0 <= i < |names| ==> Ordinary(names[i])
  {
    hide Split, Join, PercentDecoded;
    var raw := Before(target, QUESTION);
    var decoded := PercentDecoded(raw).value;
    var names := Stack(Split(decoded, SLASH)).value;
    CollapsedIsClean(decoded);
    assert Split(Collapsed(decoded).value, SLASH) == SegmentsOf(names, EndsWithSlash(decoded));
    DecodedHasNoNul(raw);
    if BACKSLASH in Collapsed(decoded).value {
      CollapsedOctets(decoded, BACKSLASH);
    }
    if 0 in Collapsed(decoded).value {
      CollapsedOctets(decoded, 0);
    }
  }
}
