/** Exactly which request targets are accepted, and which error names what is wrong with the
    others: percent-decoding against the spellings of a path, and the refusals of the whole. */
module UriRefusals {
  import opened Bytes
  import opened Text
  import opened UriNormalize
  import Utf8

  // ---- spellings -----------------------------------------------------------

  const LOWER_DIGITS: seq<byte> := Ascii("0123456789abcdef")
  const UPPER_DIGITS: seq<byte> := Ascii("0123456789ABCDEF")

  /** A hexadecimal digit of either case. */
  ghost predicate DigitOf(digit: byte, v: nat)
    requires v < 16
  {
    digit == LOWER_DIGITS[v] || digit == UPPER_DIGITS[v]
  }

  ghost predicate SomeDigit(digit: byte) {
    exists v :: 0 <= v < 16 && DigitOf(digit, v)
  }

  ghost predicate EscapeOf(piece: seq<byte>, b: byte) {
    |piece| == 3 && piece[0] == PERCENT && DigitOf(piece[1], b / 16) && DigitOf(piece[2], b % 16)
  }

  /** An octet as itself or escaped: a slash only as itself, a percent sign only escaped, a NUL
      in no way. */
  ghost predicate SpellsOctet(piece: seq<byte>, b: byte) {
    b != 0 && ((b != PERCENT && piece == [b]) || (b != SLASH && EscapeOf(piece, b)))
  }

  function Flatten(pieces: seq<seq<byte>>): seq<byte> {
    if pieces == [] then [] else pieces[0] + Flatten(pieces[1..])
  }

  ghost predicate SpellsWith(s: seq<byte>, d: seq<byte>, pieces: seq<seq<byte>>) {
    |pieces| == |d| && s == Flatten(pieces) && forall i :: 0 <= i < |d| ==> SpellsOctet(pieces[i], d[i])
  }

  ghost predicate Spells(s: seq<byte>, d: seq<byte>) {
    exists pieces :: SpellsWith(s, d, pieces)
  }

  lemma DigitValue(digit: byte, v: nat)
    requires v < 16
    ensures DigitOf(digit, v) <==> IsHex(digit) && HexValue(digit) == v
  {
    var lower, upper := "0123456789abcdef", "0123456789ABCDEF";
    assert lower[v] as int == if v < 10 then 48 + v else 87 + v;
    assert upper[v] as int == if v < 10 then 48 + v else 55 + v;
  }

  lemma EscapeValue(piece: seq<byte>, b: byte)
    ensures EscapeOf(piece, b) <==>
      |piece| == 3 && piece[0] == PERCENT && IsHex(piece[1]) && IsHex(piece[2]) &&
      16 * HexValue(piece[1]) + HexValue(piece[2]) == b
  {
    hide DigitOf, HexValue, IsHex;
    if |piece| == 3 {
      DigitValue(piece[1], b / 16);
      DigitValue(piece[2], b % 16);
    }
  }

  /** The next octet is what its piece spells. */
  lemma NextSpelled(piece: seq<byte>, b: byte, rest: seq<byte>)
    requires SpellsOctet(piece, b)
    ensures piece != [] && NextOctet(piece + rest) == Ok((b, |piece|))
  {
    EscapeValue(piece, b);
    hide HexValue, IsHex, EscapeOf;
  }

  lemma NextSpells(s: seq<byte>)
    requires s != [] && NextOctet(s).Ok?
    ensures SpellsOctet(s[..NextOctet(s).value.1], NextOctet(s).value.0)
  {
    var (b, n) := NextOctet(s).value;
    EscapeValue(s[..n], b);
    hide HexValue, IsHex, EscapeOf;
  }

  lemma {:induction false} SpelledDecodes(s: seq<byte>, d: seq<byte>, pieces: seq<seq<byte>>)
    requires SpellsWith(s, d, pieces)
    ensures PercentDecoded(s) == Ok(d)
    decreases |d|
  {
    hide NextOctet, SpellsOctet;
    if d != [] {
      var rest := Flatten(pieces[1..]);
      NextSpelled(pieces[0], d[0], rest);
      SpelledDecodes(rest, d[1..], pieces[1..]);
      assert s[|pieces[0]|..] == rest;
      assert [d[0]] + d[1..] == d;
    }
  }

  lemma {:induction false} DecodedSpells(s: seq<byte>) returns (pieces: seq<seq<byte>>)
    requires PercentDecoded(s).Ok?
    ensures SpellsWith(s, PercentDecoded(s).value, pieces)
    decreases |s|
  {
    hide NextOctet, SpellsOctet;
    if s == [] {
      pieces := [];
    } else {
      var n := NextOctet(s).value.1;
      NextSpells(s);
      var tail := DecodedSpells(s[n..]);
      pieces := [s[..n]] + tail;
      assert pieces[1..] == tail && s == s[..n] + s[n..];
    }
  }

  /** Decoding gives a path exactly when the input spells it. */
  lemma DecodesIffSpells(s: seq<byte>, d: seq<byte>)
    ensures PercentDecoded(s) == Ok(d) <==> Spells(s, d)
  {
    hide PercentDecoded;
    if PercentDecoded(s) == Ok(d) {
      var pieces := DecodedSpells(s);
      assert SpellsWith(s, d, pieces);
    }
    if pieces :| SpellsWith(s, d, pieces) {
      SpelledDecodes(s, d, pieces);
    }
  }

  // ---- slashes -------------------------------------------------------------

  function Slashes(s: seq<byte>): nat {
    if s == [] then 0 else (if s[0] == 47 then 1 else 0) + Slashes(s[1..])
  }

  lemma {:induction false} SlashesConcat(a: seq<byte>, b: seq<byte>)
    ensures Slashes(a + b) == Slashes(a) + Slashes(b)
  {
    if a == [] {
      assert a + b == b;
    } else {
      assert (a + b)[1..] == a[1..] + b;
      SlashesConcat(a[1..], b);
    }
  }

  lemma PieceSlashes(piece: seq<byte>, b: byte)
    requires SpellsOctet(piece, b)
    ensures Slashes(piece) == Slashes([b])
  {
    EscapeValue(piece, b);
    hide EscapeOf;
    if piece != [b] {
      assert piece == [piece[0]] + ([piece[1]] + [piece[2]]);
      SlashesConcat([piece[0]], [piece[1]] + [piece[2]]);
      SlashesConcat([piece[1]], [piece[2]]);
    }
  }

  /** Decoding neither adds nor removes a boundary between segments. */
  lemma {:induction false} SlashesKept(s: seq<byte>)
    requires PercentDecoded(s).Ok?
    ensures Slashes(PercentDecoded(s).value) == Slashes(s)
    decreases |s|
  {
    hide NextOctet, SpellsOctet;
    if s != [] {
      var (b, n) := NextOctet(s).value;
      NextSpells(s);
      PieceSlashes(s[..n], b);
      SlashesKept(s[n..]);
      SlashesConcat(s[..n], s[n..]);
      assert s == s[..n] + s[n..];
      SlashesConcat([b], PercentDecoded(s[n..]).value);
    }
  }

  // ---- the first error -----------------------------------------------------

  /** Decoding goes on after what decodes. */
  lemma {:induction false} DecodesThen(a: seq<byte>, b: seq<byte>)
    requires PercentDecoded(a).Ok?
    ensures PercentDecoded(a + b) == Prepend(PercentDecoded(a).value, PercentDecoded(b))
    decreases |a|
  {
    hide NextOctet;
    if a == [] {
      assert a + b == b;
      PrependNothing(PercentDecoded(b));
    } else {
      var (octet, n) := NextOctet(a).value;
      NextSpells(a);
      assert a[..n] + (a[n..] + b) == a + b && (a + b)[n..] == a[n..] + b;
      NextSpelled(a[..n], octet, a[n..] + b);
      DecodesThen(a[n..], b);
      PrependJoin([octet], PercentDecoded(a[n..]).value, PercentDecoded(b));
    }
  }

  lemma PrependJoin(a: seq<byte>, b: seq<byte>, r: Decoding)
    ensures Prepend(a, Prepend(b, r)) == Prepend(a + b, r)
  {
    if r.Ok? {
      Regroup(a, b, r.value);
    }
  }

  /** What cannot start any spelling, and the error it draws. */
  ghost predicate Offends(s: seq<byte>, e: NormalizeError) {
    match e
    case EncodedSlash => |s| >= 3 && EscapeOf(s[..3], 47)
    case NulByte => (|s| >= 1 && s[0] == 0) || (|s| >= 3 && EscapeOf(s[..3], 0))
    case BadPercentEncoding => |s| >= 1 && s[0] == PERCENT && (|s| < 3 || !SomeDigit(s[1]) || !SomeDigit(s[2]))
    case _ => false
  }

  lemma HexIff(digit: byte)
    ensures SomeDigit(digit) <==> IsHex(digit)
  {
    hide DigitOf;
    if IsHex(digit) {
      DigitValue(digit, HexValue(digit));
    }
    if v :| 0 <= v < 16 && DigitOf(digit, v) {
      DigitValue(digit, v);
    }
  }

  lemma OffenceRefused(s: seq<byte>, e: NormalizeError)
    requires Offends(s, e)
    ensures PercentDecoded(s) == Err(e)
  {
    if |s| >= 3 {
      EscapeValue(s[..3], 47);
      EscapeValue(s[..3], 0);
      HexIff(s[1]);
      HexIff(s[2]);
    }
    hide EscapeOf, SomeDigit, HexValue, IsHex;
  }

  /** After any decodable front, an escaped slash, a NUL in either spelling or a broken escape is
      refused by its own error, whatever follows. */
  lemma DecodingRefuses(front: seq<byte>, s: seq<byte>, e: NormalizeError)
    requires PercentDecoded(front).Ok? && Offends(s, e)
    ensures PercentDecoded(front + s) == Err(e)
  {
    hide PercentDecoded;
    OffenceRefused(s, e);
    DecodesThen(front, s);
  }

  lemma EncodedSlashOffends(rest: seq<byte>)
    ensures Offends(Ascii("%2F") + rest, EncodedSlash) && Offends(Ascii("%2f") + rest, EncodedSlash)
    ensures Offends(Ascii("%00") + rest, NulByte)
  {
    var upper, lower, nul := "%2F", "%2f", "%00";
    assert upper[2] as int == 70 && lower[2] as int == 102 && upper[1] as int == 50 && lower[1] as int == 50;
    assert nul[1] as int == 48 && nul[2] as int == 48;
    assert upper[0] as int == 37 && lower[0] as int == 37 && nul[0] as int == 37;
    assert (Ascii(upper) + rest)[..3] == Ascii(upper);
    assert (Ascii(lower) + rest)[..3] == Ascii(lower);
    assert (Ascii(nul) + rest)[..3] == Ascii(nul);
    EscapeValue(Ascii(upper), 47);
    EscapeValue(Ascii(lower), 47);
    EscapeValue(Ascii(nul), 0);
    hide EscapeOf;
  }

  // ---- whole targets -------------------------------------------------------

  /** A raw path with or without a query after it. */
  ghost predicate TargetOf(target: seq<byte>, raw: seq<byte>) {
    QUESTION !in raw && (target == raw || (raw + [QUESTION] <= target))
  }

  lemma RawPath(target: seq<byte>, raw: seq<byte>)
    requires TargetOf(target, raw)
    ensures Before(target, QUESTION) == raw
  {
    if target != raw {
      assert target[..|raw| + 1] == raw + [QUESTION];
      assert target[..|raw|] == raw && target[|raw|] == QUESTION;
      IndexOfAt(target, QUESTION, |raw|);
    }
  }

  /** A path that the container serves under the name `d`. */
  ghost predicate Serves(raw: seq<byte>, d: seq<byte>) {
    Spells(raw, d) && BACKSLASH !in raw && BACKSLASH !in d && Utf8.Valid(d) && NeverBelowRoot(Split(d, SLASH))
  }

  /** A target is accepted exactly when it is `*` or a rooted spelling of a path of text that
      never climbs above the root and holds no backslash in either form. */
  lemma AcceptedIff(target: seq<byte>, raw: seq<byte>)
    requires TargetOf(target, raw)
    ensures NormalizeTarget(target).Ok? <==>
      raw == [STAR] || (raw != [] && raw[0] == SLASH && exists d :: Serves(raw, d))
  {
    hide Split, PercentDecoded, Collapsed, Utf8.Valid, NeverBelowRoot, Spells;
    RawPath(target, raw);
    if PercentDecoded(raw).Ok? {
      var d := PercentDecoded(raw).value;
      DecodesIffSpells(raw, d);
      CollapseSucceedsIff(d);
      if NormalizeTarget(target).Ok? && raw != [STAR] {
        assert Serves(raw, d);
      }
    }
    if d :| Serves(raw, d) {
      DecodesIffSpells(raw, d);
      CollapseSucceedsIff(d);
    }
  }

  /** What is wrong before decoding. */
  lemma RawRefused(target: seq<byte>, raw: seq<byte>)
    requires TargetOf(target, raw) && raw != [STAR]
    ensures raw == [] || raw[0] != SLASH ==> NormalizeTarget(target) == Err(NotAbsolute)
    ensures raw != [] && raw[0] == SLASH && BACKSLASH in raw ==> NormalizeTarget(target) == Err(Backslash)
  {
    hide PercentDecoded, Collapsed, Utf8.Valid;
    RawPath(target, raw);
  }

  ghost predicate Rooted(raw: seq<byte>) {
    raw != [] && raw[0] == SLASH && BACKSLASH !in raw
  }

  /** A rooted path with an escaped slash, a NUL or a broken escape after a decodable front. */
  lemma EscapeRefused(target: seq<byte>, front: seq<byte>, s: seq<byte>, e: NormalizeError)
    requires TargetOf(target, front + s) && Rooted(front + s)
    requires PercentDecoded(front).Ok? && Offends(s, e)
    ensures NormalizeTarget(target) == Err(e)
  {
    hide PercentDecoded, Collapsed, Utf8.Valid, Offends;
    RawPath(target, front + s);
    DecodingRefuses(front, s, e);
    assert s == [STAR] ==> !Offends(s, e) by { NoOffence(e); }
  }

  lemma NoOffence(e: NormalizeError)
    ensures !Offends([STAR], e)
  {
  }

  /** What is wrong with the path that a rooted target spells, in this order: an escaped backslash,
      octets that are not text, a climb above the root. */
  lemma SpelledRefused(target: seq<byte>, raw: seq<byte>, d: seq<byte>)
    requires TargetOf(target, raw) && Rooted(raw) && Spells(raw, d)
    ensures BACKSLASH in d ==> NormalizeTarget(target) == Err(Backslash)
    ensures BACKSLASH !in d && !Utf8.Valid(d) ==> NormalizeTarget(target) == Err(InvalidUtf8)
    ensures BACKSLASH !in d && Utf8.Valid(d) && !NeverBelowRoot(Split(d, SLASH)) ==>
      NormalizeTarget(target) == Err(PathTraversal)
  {
    hide Split, PercentDecoded, Stack, Utf8.Valid, NeverBelowRoot, Spells, Rebuilt;
    RawPath(target, raw);
    DecodesIffSpells(raw, d);
    CollapseSucceedsIff(d);
  }

  // ---- dot segments --------------------------------------------------------

  lemma {:induction false} SplitConcat(a: seq<byte>, c: seq<byte>)
    ensures Split(a + ([SLASH] + c), SLASH) == Split(a, SLASH) + Split(c, SLASH)
    decreases |a|
  {
    hide IndexOf;
    var s := a + ([SLASH] + c);
    match IndexOf(a, SLASH)
    case None =>
      assert s[..|a|] == a && s[|a| + 1..] == c;
      IndexOfAt(s, SLASH, |a|);
    case Some(i) =>
      assert s[..i] == a[..i] && s[i + 1..] == a[i + 1..] + ([SLASH] + c);
      IndexOfAt(s, SLASH, i);
      SplitConcat(a[i + 1..], c);
  }

  /** Segments that bring a stack back to where it was may be left out. */
  lemma {:induction false} NoNetEffect(a: seq<seq<byte>>, middle: seq<seq<byte>>, c: seq<seq<byte>>)
    requires Stack(a + middle) == Stack(a)
    ensures Stack(a + middle + c) == Stack(a + c)
    decreases |c|
  {
    if c == [] {
      assert a + middle + c == a + middle && a + c == a;
    } else {
      var front := c[..|c| - 1];
      NoNetEffect(a, middle, front);
      assert (a + middle + c)[..|a + middle + c| - 1] == a + middle + front;
      assert (a + c)[..|a + c| - 1] == a + front;
    }
  }

  /** A segment of one dot, and no segment at all between two slashes, mean nothing. */
  lemma DotIsNothing(a: seq<seq<byte>>, c: seq<seq<byte>>)
    ensures Stack(a + [Ascii(".")] + c) == Stack(a + c) && Stack(a + [[]] + c) == Stack(a + c)
  {
    assert (a + [Ascii(".")])[..|a|] == a && (a + [[]])[..|a|] == a;
    NoNetEffect(a, [Ascii(".")], c);
    NoNetEffect(a, [[]], c);
  }

  /** Two dots take back the name before them. */
  lemma DotsTakeBack(a: seq<seq<byte>>, name: seq<byte>, c: seq<seq<byte>>)
    requires Stack(a).Some?
    requires name != [] && name != Ascii(".") && name != Ascii("..")
    ensures Stack(a + [name, Ascii("..")] + c) == Stack(a + c)
  {
    var both := a + [name, Ascii("..")];
    assert both[..|both| - 1] == a + [name] && (a + [name])[..|a|] == a;
    NoNetEffect(a, [name, Ascii("..")], c);
  }

  lemma SplitOne(name: seq<byte>)
    requires SLASH !in name
    ensures Split(name, SLASH) == [name]
  {
  }

  /** A path, a name, another segment and the rest, with slashes between them. */
  function Between(a: seq<byte>, name: seq<byte>, dots: seq<byte>, c: seq<byte>): seq<byte> {
    a + ([SLASH] + (name + ([SLASH] + (dots + ([SLASH] + c)))))
  }

  lemma SplitBetween(a: seq<byte>, name: seq<byte>, dots: seq<byte>, c: seq<byte>)
    requires SLASH !in name && SLASH !in dots
    ensures Split(Between(a, name, dots, c), SLASH) == Split(a, SLASH) + [name, dots] + Split(c, SLASH)
  {
    SplitOne(name);
    SplitOne(dots);
    hide Split;
    SplitConcat(a, name + ([SLASH] + (dots + ([SLASH] + c))));
    SplitConcat(name, dots + ([SLASH] + c));
    SplitConcat(dots, c);
    TwoBetween(Split(a, SLASH), name, dots, Split(c, SLASH));
  }

  lemma TwoBetween<T>(a: seq<T>, x: T, y: T, b: seq<T>)
    ensures a + ([x] + ([y] + b)) == a + [x, y] + b
  {
  }

  lemma SameEnding(a: seq<byte>, name: seq<byte>, dots: seq<byte>, c: seq<byte>)
    requires a + c != []
    ensures EndsWithSlash(Between(a, name, dots, c)) == EndsWithSlash(a + ([SLASH] + c))
  {
    var long, short := Between(a, name, dots, c), a + ([SLASH] + c);
    LastOctet(a, [SLASH] + c);
    LastOctet(a + ([SLASH] + (name + ([SLASH] + dots))), [SLASH] + c);
    assert long == a + ([SLASH] + (name + ([SLASH] + dots))) + ([SLASH] + c);
  }

  lemma LastOctet(a: seq<byte>, b: seq<byte>)
    requires b != []
    ensures (a + b)[|a + b| - 1] == b[|b| - 1]
  {
  }

  /** In a path, a name with two dots after it may be left out. */
  lemma ParentCancels(a: seq<byte>, name: seq<byte>, c: seq<byte>)
    requires Collapsed(a).Ok? && SLASH !in name
    requires name != [] && name != Ascii(".") && name != Ascii("..")
    ensures Collapsed(Between(a, name, Ascii(".."), c)) == Collapsed(a + ([SLASH] + c))
  {
    var dots := Ascii("..");
    assert dots[0] == DOT && dots[1] == DOT && |dots| == 2;
    DotsTakeBack(Split(a, SLASH), name, Split(c, SLASH));
    hide Split, Rebuilt, Stack, Ascii, Between, EndsWithSlash;
    SplitConcat(a, c);
    SplitBetween(a, name, dots, c);
    if a + c == [] {
      assert a == [] && c == [];
      NothingLeft();
    } else {
      SameEnding(a, name, dots, c);
    }
  }

  /** At the root a trailing slash makes no difference. */
  lemma NothingLeft()
    ensures Stack(Split([], SLASH) + Split([], SLASH)) == Some([])
    ensures Rebuilt([], true) == Rebuilt([], false)
  {
    assert Split([], SLASH) == [[]];
    var one: seq<seq<byte>> := [[]];
    assert (one + one)[..1] == one && one[..0] == [];
  }
}
