/** String operations of the program's language on UTF-8 octets: trimming Unicode white
    space, splitting, and reading numbers. */
module Text {
  import opened Bytes

  const TAB: byte := 9
  const LF: byte := 10
  const CR: byte := 13
  const SPACE: byte := 32
  const STAR: byte := 42
  const PLUS: byte := 43
  const COMMA: byte := 44
  const MINUS: byte := 45
  const DOT: byte := 46
  const SLASH: byte := 47
  const COLON: byte := 58
  const SEMICOLON: byte := 59

  // ---- trimming ------------------------------------------------------------

  /** The two-octet white space: U+0085 and U+00A0. */
  predicate White2(a: byte, b: byte) {
    a == 0xC2 && (b == 0x85 || b == 0xA0)
  }

  /** The three-octet white space: U+1680, U+2000 to U+200A, U+2028, U+2029, U+202F, U+205F, U+3000. */
  predicate White3(a: byte, b: byte, c: byte) {
    (a == 0xE1 && b == 0x9A && c == 0x80) ||
    (a == 0xE2 && b == 0x80 && (0x80 <= c <= 0x8A || c == 0xA8 || c == 0xA9 || c == 0xAF)) ||
    (a == 0xE2 && b == 0x81 && c == 0x9F) ||
    (a == 0xE3 && b == 0x80 && c == 0x80)
  }

  predicate White1(a: byte) {
    9 <= a <= 13 || a == SPACE
  }

  /** The length of the white-space character that starts `s`, or 0. */
  function WhiteAtStart(s: seq<byte>): (n: nat)
    ensures n <= |s|
  {
    if |s| >= 1 && White1(s[0]) then 1
    else if |s| >= 2 && White2(s[0], s[1]) then 2
    else if |s| >= 3 && White3(s[0], s[1], s[2]) then 3
    else 0
  }

  function WhiteAtEnd(s: seq<byte>): (n: nat)
    ensures n <= |s|
  {
    var k := |s|;
    if k >= 1 && White1(s[k - 1]) then 1
    else if k >= 2 && White2(s[k - 2], s[k - 1]) then 2
    else if k >= 3 && White3(s[k - 3], s[k - 2], s[k - 1]) then 3
    else 0
  }

  function TrimStart(s: seq<byte>): seq<byte>
    decreases |s|
  {
    var n := WhiteAtStart(s);
    if n == 0 then s else TrimStart(s[n..])
  }

  function TrimEnd(s: seq<byte>): seq<byte>
    decreases |s|
  {
    var n := WhiteAtEnd(s);
    if n == 0 then s else TrimEnd(s[..|s| - n])
  }

  function Trim(s: seq<byte>): seq<byte> {
    TrimEnd(TrimStart(s))
  }

  /** Nothing to trim at either end. */
  predicate Trimmed(s: seq<byte>) {
    WhiteAtStart(s) == 0 && WhiteAtEnd(s) == 0
  }

  lemma TrimNoop(s: seq<byte>)
    requires Trimmed(s)
    ensures Trim(s) == s
  {
  }

  predicate Blanks(s: seq<byte>) {
    forall i :: 0 <= i < |s| ==> s[i] == SPACE || s[i] == TAB
  }

  /** Blanks around a trimmed string go away. */
  lemma TrimBlanks(gap: seq<byte>, s: seq<byte>, end: seq<byte>)
    requires Blanks(gap) && Trimmed(s) && Blanks(end)
    ensures Trim(gap + s + end) == s
  {
    hide TrimStart, TrimEnd;
    if s == [] {
      assert gap + s + end == (gap + end) + [];
      TrimStartBlanks(gap + end, []);
      assert s + s == s;
      TrimEndBlanks(s, []);
    } else {
      BlanksAfter(s, end);
      assert gap + s + end == gap + (s + end);
      TrimStartBlanks(gap, s + end);
      TrimEndBlanks(s, end);
    }
  }

  /** What stands after a string cannot complete a white-space character at its start. */
  lemma BlanksAfter(s: seq<byte>, end: seq<byte>)
    requires s != [] && WhiteAtStart(s) == 0 && Blanks(end)
    ensures WhiteAtStart(s + end) == 0
  {
    var t := s + end;
    assert t[0] == s[0];
    assert |t| >= 2 && |s| < 2 ==> t[1] in end;
    assert |t| >= 3 && |s| < 3 ==> t[2] in end;
  }

  lemma {:induction false} TrimStartBlanks(gap: seq<byte>, s: seq<byte>)
    requires Blanks(gap) && WhiteAtStart(s) == 0
    ensures TrimStart(gap + s) == s
  {
    if gap == [] {
      assert gap + s == s;
    } else {
      assert (gap + s)[1..] == gap[1..] + s;
      TrimStartBlanks(gap[1..], s);
    }
  }

  lemma {:induction false} TrimEndBlanks(s: seq<byte>, end: seq<byte>)
    requires WhiteAtEnd(s) == 0 && Blanks(end)
    ensures TrimEnd(s + end) == s
    decreases |end|
  {
    if end == [] {
      assert s + end == s;
    } else {
      var front := end[..|end| - 1];
      assert (s + end)[..|s + end| - 1] == s + front;
      TrimEndBlanks(s, front);
    }
  }

  // ---- searching -----------------------------------------------------------

  /** The first position of `b`, if any. */
  function IndexOf(s: seq<byte>, b: byte): (r: Option<nat>)
    ensures r.Some? ==> r.value < |s| && s[r.value] == b && b !in s[..r.value]
    ensures r.None? ==> b !in s
  {
    if s == [] then None
    else if s[0] == b then Some(0)
    else
      match IndexOf(s[1..], b)
      case None => None
      case Some(i) => assert s[..i + 1] == [s[0]] + s[1..][..i]; Some(i + 1)
  }

  /** What precedes the first `b`, or everything. */
  function Before(s: seq<byte>, b: byte): (r: seq<byte>)
    ensures r <= s && b !in r
  {
    match IndexOf(s, b)
    case Some(i) => s[..i]
    case None => s
  }

  lemma {:induction false} IndexOfAt(s: seq<byte>, b: byte, i: nat)
    requires i < |s| && s[i] == b && b !in s[..i]
    ensures IndexOf(s, b) == Some(i)
  {
    if i > 0 {
      assert s[0] in s[..i];
      assert s[1..][..i - 1] == s[..i][1..];
      IndexOfAt(s[1..], b, i - 1);
    }
  }

  // ---- hexadecimal ---------------------------------------------------------

  predicate IsHex(b: byte) {
    48 <= b <= 57 || 65 <= b <= 70 || 97 <= b <= 102
  }

  function HexValue(b: byte): (v: nat)
    requires IsHex(b)
    ensures v < 16
  {
    if b <= 57 then b - 48 else if b <= 70 then b - 55 else b - 87
  }

  predicate AllHex(s: seq<byte>) {
    forall i :: 0 <= i < |s| ==> IsHex(s[i])
  }

  function HexNumber(s: seq<byte>): nat
    requires AllHex(s)
  {
    if s == [] then 0 else 16 * HexNumber(s[..|s| - 1]) + HexValue(s[|s| - 1])
  }

  /** Lower-case hexadecimal without leading zeros. */
  function HexText(n: nat): (s: seq<byte>)
    ensures |s| > 0 && AllHex(s) && HexNumber(s) == n
  {
    if n < 16 then
      assert [HexDigit(n)][..0] == [];
      [HexDigit(n)]
    else
      var front := HexText(n / 16);
      assert (front + [HexDigit(n % 16)])[..|front|] == front;
      front + [HexDigit(n % 16)]
  }

  function HexDigit(v: nat): (b: byte)
    requires v < 16
    ensures IsHex(b) && HexValue(b) == v
  {
    if v < 10 then 48 + v else 87 + v
  }

  /** `n` hexadecimal digits hold every value below 16 to the `n`. */
  lemma {:induction false} HexTextLength(n: nat, k: nat)
    requires k > 0 && n < Pow2(4 * k)
    ensures |HexText(n)| <= k
  {
    if n >= 16 {
      assert Pow2(4) == 16;
      if k > 1 {
        Pow2Add(4 * (k - 1), 4);
        HexTextLength(n / 16, k - 1);
      }
    }
  }

  // ---- splitting -----------------------------------------------------------

  /** The pieces between the occurrences of `b`; always at least one. */
  function Split(s: seq<byte>, b: byte): (r: seq<seq<byte>>)
    ensures |r| > 0 && forall i :: 0 <= i < |r| ==> b !in r[i]
    decreases |s|
  {
    match IndexOf(s, b)
    case None => [s]
    case Some(i) => [s[..i]] + Split(s[i + 1..], b)
  }

  /** Pieces with `b` between them. */
  function Join(pieces: seq<seq<byte>>, b: byte): seq<byte>
    requires |pieces| > 0
  {
    if |pieces| == 1 then pieces[0] else pieces[0] + [b] + Join(pieces[1..], b)
  }

  lemma {:induction false} SplitJoin(pieces: seq<seq<byte>>, b: byte)
    requires |pieces| > 0 && forall i :: 0 <= i < |pieces| ==> b !in pieces[i]
    ensures Split(Join(pieces, b), b) == pieces
    decreases |pieces|
  {
    hide IndexOf;
    var s := Join(pieces, b);
    if |pieces| == 1 {
      assert b !in s;
      assert pieces == [pieces[0]];
    } else {
      var i := |pieces[0]|;
      assert s[..i] == pieces[0] && s[i + 1..] == Join(pieces[1..], b);
      IndexOfAt(s, b, i);
      SplitJoin(pieces[1..], b);
      assert pieces == [pieces[0]] + pieces[1..];
    }
  }

  lemma {:induction false} JoinSplit(s: seq<byte>, b: byte)
    ensures Join(Split(s, b), b) == s
    decreases |s|
  {
    match IndexOf(s, b)
    case None =>
    case Some(i) =>
      JoinSplit(s[i + 1..], b);
      assert Split(s, b)[1..] == Split(s[i + 1..], b);
      assert s == s[..i] + [b] + s[i + 1..];
  }

  // ---- decimal -------------------------------------------------------------

  predicate IsDigit(b: byte) {
    48 <= b <= 57
  }

  predicate AllDigits(s: seq<byte>) {
    forall i :: 0 <= i < |s| ==> IsDigit(s[i])
  }

  function DecNumber(s: seq<byte>): nat
    requires AllDigits(s)
  {
    if s == [] then 0 else 10 * DecNumber(s[..|s| - 1]) + (s[|s| - 1] - 48)
  }

  function DecText(n: nat): (s: seq<byte>)
    ensures |s| > 0 && AllDigits(s) && DecNumber(s) == n
  {
    if n < 10 then
      assert [48 + n][..0] == [];
      [48 + n]
    else
      var front := DecText(n / 10);
      assert (front + [48 + n % 10])[..|front|] == front;
      front + [48 + n % 10]
  }

  /** `{:0w}` on a non-negative number. */
  function PadZeros(s: seq<byte>, width: nat): (r: seq<byte>)
    ensures |r| == if |s| < width then width else |s|
    decreases width - |s|
  {
    if |s| >= width then s else PadZeros([48] + s, width)
  }

  lemma {:induction false} PadZerosNumber(s: seq<byte>, width: nat)
    requires AllDigits(s)
    ensures AllDigits(PadZeros(s, width)) && DecNumber(PadZeros(s, width)) == DecNumber(s)
    decreases width - |s|
  {
    if |s| < width {
      LeadingZero(s);
      PadZerosNumber([48] + s, width);
    }
  }

  lemma {:induction false} LeadingZero(s: seq<byte>)
    requires AllDigits(s)
    ensures AllDigits([48] + s) && DecNumber([48] + s) == DecNumber(s)
  {
    if s == [] {
      assert ([48] + s)[..0] == [];
    } else {
      LeadingZero(s[..|s| - 1]);
      assert ([48] + s)[..|s|] == [48] + s[..|s| - 1];
    }
  }

  const I64_LIMIT: int := 0x8000_0000_0000_0000

  /** `str::parse::<u64>`: digits with an optional `+`. */
  function ParseU64(s: seq<byte>): Option<nat> {
    var digits := if |s| > 1 && s[0] == PLUS then s[1..] else s;
    if digits == [] || !AllDigits(digits) || DecNumber(digits) > USIZE_MAX then None else Some(DecNumber(digits))
  }

  /** `str::parse::<i64>`: digits with an optional sign. */
  function ParseI64(s: seq<byte>): Option<int> {
    var signed := |s| > 1 && (s[0] == PLUS || s[0] == MINUS);
    var digits := if signed then s[1..] else s;
    if digits == [] || !AllDigits(digits) then None
    else
      var n: int := DecNumber(digits);
      if signed && s[0] == MINUS then if n > I64_LIMIT then None else Some(-n)
      else if n >= I64_LIMIT then None else Some(n)
  }

  lemma ParseDigits(s: seq<byte>)
    requires s != [] && AllDigits(s)
    ensures DecNumber(s) < I64_LIMIT ==> ParseI64(s) == Some(DecNumber(s))
    ensures DecNumber(s) <= USIZE_MAX ==> ParseU64(s) == Some(DecNumber(s))
  {
    assert IsDigit(s[0]);
  }

  /** Visible text that is not a number of 64 bits: nothing, an octet that is neither a digit nor a
      leading plus sign, or a number too large. */
  predicate NoNumber(text: seq<byte>) {
    && Plain(text)
    && (text == [] || (exists i :: 0 <= i < |text| && NoPart(text, i)) ||
        (AllDigits(text) && DecNumber(text) > USIZE_MAX))
  }

  predicate NoPart(text: seq<byte>, i: nat)
    requires i < |text|
  {
    !IsDigit(text[i]) && (i > 0 || |text| == 1 || text[i] != PLUS)
  }

  lemma NoNumberIsNone(text: seq<byte>)
    requires NoNumber(text)
    ensures ParseU64(text) == None && Plain(text)
  {
    assert text == [] ==> AllDigits(text) && DecNumber(text) == 0;
    hide DecNumber;
    if i :| 0 <= i < |text| && NoPart(text, i) {
      assert text[0] == PLUS && |text| > 1 ==> text[1..][i - 1] == text[i];
    } else if text != [] {
      assert IsDigit(text[0]);
    }
  }

  // ---- white-space separated tokens ----------------------------------------

  /** Where the first white space of `s` starts, or its end. */
  function TokenEnd(s: seq<byte>): (n: nat)
    ensures n <= |s|
  {
    if s == [] || WhiteAtStart(s) > 0 then 0 else 1 + TokenEnd(s[1..])
  }

  /** `split_whitespace`: the next token and what follows it. */
  function NextToken(s: seq<byte>): Option<(seq<byte>, seq<byte>)> {
    var t := TrimStart(s);
    if t == [] then None else Some((t[..TokenEnd(t)], t[TokenEnd(t)..]))
  }

  /** Visible ASCII. */
  predicate Plain(s: seq<byte>) {
    forall i :: 0 <= i < |s| ==> 33 <= s[i] <= 126
  }

  lemma {:induction false} TokenOfPlain(token: seq<byte>, rest: seq<byte>)
    requires Plain(token) && (rest == [] || rest[0] == SPACE)
    ensures TokenEnd(token + rest) == |token|
    decreases |token|
  {
    if token == [] {
      assert token + rest == rest;
    } else {
      assert (token + rest)[1..] == token[1..] + rest;
      TokenOfPlain(token[1..], rest);
    }
  }

  /** A plain token after at most one blank. */
  lemma NextPlainToken(lead: seq<byte>, token: seq<byte>, rest: seq<byte>)
    requires (lead == [] || lead == [SPACE]) && token != [] && Plain(token) && (rest == [] || rest[0] == SPACE)
    ensures NextToken(lead + token + rest) == Some((token, rest))
  {
    var s := lead + token + rest;
    var t := token + rest;
    assert t[0] == token[0] && TrimStart(t) == t;
    if lead == [] {
      assert s == t;
    } else {
      assert s[1..] == t && TrimStart(s) == TrimStart(s[1..]);
    }
    TokenOfPlain(token, rest);
    assert t[..|token|] == token && t[|token|..] == rest;
  }

  lemma PlainTrimmed(s: seq<byte>)
    requires Plain(s)
    ensures Trimmed(s)
  {
  }

  lemma DigitsPlain(s: seq<byte>)
    requires AllDigits(s)
    ensures Plain(s)
  {
  }
}
