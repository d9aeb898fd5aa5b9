/** The body length that an AJP request declares, from the octets on the wire. */
module AjpDeclared {
  import opened Bytes
  import opened AjpMessage
  import opened AjpRequest
  import opened AjpForward
  import Text

  // ---- header names --------------------------------------------------------

  const CAPITALS: seq<byte> := Ascii("ABCDEFGHIJKLMNOPQRSTUVWXYZ")
  const SMALLS: seq<byte> := Ascii("abcdefghijklmnopqrstuvwxyz")

  /** The same letter, perhaps in capitals. */
  ghost predicate SameLetter(written: byte, plain: byte) {
    written == plain || exists i :: 0 <= i < 26 && written == CAPITALS[i] && plain == SMALLS[i]
  }

  ghost predicate SameLetters(written: seq<byte>, plain: seq<byte>) {
    |written| == |plain| && forall i :: 0 <= i < |written| ==> SameLetter(written[i], plain[i])
  }

  lemma Alphabet(i: nat)
    requires i < 26
    ensures CAPITALS[i] == 65 + i && SMALLS[i] == 97 + i
  {
  }

  lemma LowerOctetIff(written: byte, plain: byte)
    requires plain !in CAPITALS
    ensures LowerOctet(written) == plain <==> SameLetter(written, plain)
  {
    forall i | 0 <= i < 26 ensures CAPITALS[i] == 65 + i && SMALLS[i] == 97 + i {
      Alphabet(i);
    }
    hide Ascii;
    if 65 <= written <= 90 {
      var i := written - 65;
      assert CAPITALS[i] == written && SMALLS[i] == written + 32;
    }
  }

  /** A name reads as a lower-case one exactly when it spells it in letters of either case. */
  lemma LowerIff(name: seq<byte>, plain: seq<byte>)
    requires forall b :: b in plain ==> b !in CAPITALS
    ensures Lower(name) == plain <==> SameLetters(name, plain)
  {
    hide LowerOctet, SameLetter;
    if |name| == |plain| {
      forall i | 0 <= i < |name| ensures Lower(name)[i] == plain[i] <==> SameLetter(name[i], plain[i]) {
        LowerOctetIff(name[i], plain[i]);
      }
    }
  }

  // ---- the declared length -------------------------------------------------

  function LengthName(): seq<byte> {
    Ascii("content-length")
  }

  /** The last header of that name counts: a number between blanks. */
  lemma LastLengthCounts(before: seq<Header>, gap: seq<byte>, n: nat, end: seq<byte>, after: seq<Header>)
    requires Text.Blanks(gap) && Text.Blanks(end) && n <= USIZE_MAX
    requires forall i :: 0 <= i < |after| ==> after[i].0 != LengthName()
    ensures ContentLength(before + [(LengthName(), gap + Text.DecText(n) + end)] + after) == n
  {
    hide ContentLength, Declared, Text.DecText;
    var value := gap + Text.DecText(n) + end;
    LaterHeaders(before, value, after);
    NumberDeclared(gap, n, end);
  }

  lemma {:induction false} LaterHeaders(before: seq<Header>, value: seq<byte>, after: seq<Header>)
    requires forall i :: 0 <= i < |after| ==> after[i].0 != LengthName()
    ensures ContentLength(before + [(LengthName(), value)] + after) == Declared(value)
    decreases |after|
  {
    hide Declared;
    var all := before + [(LengthName(), value)] + after;
    if after == [] {
      assert all == before + [(LengthName(), value)];
    } else {
      assert all[..|all| - 1] == before + [(LengthName(), value)] + after[..|after| - 1];
      LaterHeaders(before, value, after[..|after| - 1]);
    }
  }

  lemma NumberDeclared(gap: seq<byte>, n: nat, end: seq<byte>)
    requires Text.Blanks(gap) && Text.Blanks(end) && n <= USIZE_MAX
    ensures Declared(gap + Text.DecText(n) + end) == n
  {
    hide Text.DecText, Text.Trim;
    var digits := Text.DecText(n);
    Text.DigitsPlain(digits);
    Text.PlainTrimmed(digits);
    Text.TrimBlanks(gap, digits, end);
    Text.ParseDigits(digits);
  }

  /** Without such a header no body is declared. */
  lemma {:induction false} NoLengthIsZero(headers: seq<Header>)
    requires forall i :: 0 <= i < |headers| ==> headers[i].0 != LengthName()
    ensures ContentLength(headers) == 0
  {
    if headers != [] {
      NoLengthIsZero(headers[..|headers| - 1]);
    }
  }

  /** A header of that name which is no number declares no body, whatever stood before it. */
  lemma NoNumberIsZero(
      before: seq<Header>, gap: seq<byte>, text: seq<byte>, end: seq<byte>, after: seq<Header>)
    requires Text.Blanks(gap) && Text.Blanks(end) && Text.NoNumber(text)
    requires forall i :: 0 <= i < |after| ==> after[i].0 != LengthName()
    ensures ContentLength(before + [(LengthName(), gap + text + end)] + after) == 0
  {
    hide ContentLength, Text.Trim, Text.NoNumber, Text.ParseU64;
    LaterHeaders(before, gap + text + end, after);
    Text.NoNumberIsNone(text);
    Text.PlainTrimmed(text);
    Text.TrimBlanks(gap, text, end);
  }

  // ---- on the wire ---------------------------------------------------------

  /** A header whose name is the one for the body's length: by its code, or spelled. */
  ghost predicate NamesLength(h: WireHeader) {
    match h
    case Coded(code, _) => code == 8
    case Named(name, _) => SameLetters(name, LengthName())
  }

  lemma CodeOfLength(code: byte)
    requires 1 <= code <= |COMMON_HEADERS|
    ensures CommonHeader(code).value == LengthName() <==> code == 8
  {
    var name := COMMON_HEADERS[code - 1];
    if code != 8 {
      assert |name| != 14 || name[0] != 'c';
      assert |name| == 14 ==> CommonHeader(code).value[0] != LengthName()[0];
    }
  }

  lemma LengthNameIsLower()
    ensures forall b :: b in LengthName() ==> b !in CAPITALS
  {
    forall i | 0 <= i < 26 ensures CAPITALS[i] == 65 + i {
      Alphabet(i);
    }
    var name := "content-length";
    forall b | b in LengthName() ensures b !in CAPITALS {
      var k :| 0 <= k < |LengthName()| && LengthName()[k] == b;
      assert name[k] as int < 128;
      assert b == name[k] as int;
      assert b == 45 || b >= 97;
    }
  }

  lemma NamesLengthIff(h: WireHeader)
    requires SendableHeader(h)
    ensures HeaderOf(h).0 == LengthName() <==> NamesLength(h)
  {
    hide Lower, CommonHeader, SameLetters;
    match h
    case Coded(code, _) => CodeOfLength(code);
    case Named(name, _) =>
      LengthNameIsLower();
      LowerIff(name, LengthName());
  }

  /** The last header that names the body's length, by code or spelled, declares it to the
      container. */
  lemma DeclaredArrives(l: Layout, i: nat, gap: seq<byte>, n: nat, end: seq<byte>, rest: seq<byte>)
    requires SendableLayout(l) && i < |l.headers|
    requires NamesLength(l.headers[i]) && forall k :: i < k < |l.headers| ==> !NamesLength(l.headers[k])
    requires Text.Blanks(gap) && Text.Blanks(end) && n <= USIZE_MAX
    requires ValueOf(l.headers[i]) == gap + Text.DecText(n) + end
    ensures var r := TakeForward(LayoutBytes(l) + rest); r.Got? && r.value.contentLength == n && r.rest == rest
  {
    hide LayoutBytes, TakeForward, ContentLength, NamesLength, HeaderOf, SendableHeader, Text.DecText, AttributesOf,
      HeadOf, SendableAttribute;
    LayoutDecodes(l, rest);
    var headers := HeadersOf(l.headers);
    forall k | i <= k < |headers| ensures headers[k].0 == LengthName() <==> k == i {
      NamesLengthIff(l.headers[k]);
    }
    ValueKept(l.headers[i]);
    LastLengthCounts(headers[..i], gap, n, end, headers[i + 1..]);
    assert headers == headers[..i] + [headers[i]] + headers[i + 1..];
  }

  lemma ValueKept(h: WireHeader)
    requires SendableHeader(h)
    ensures HeaderOf(h).1 == ValueOf(h)
  {
  }

  /** A request without such a header has no body for the connection to ask for. */
  lemma NothingDeclared(l: Layout, rest: seq<byte>)
    requires SendableLayout(l) && forall k :: 0 <= k < |l.headers| ==> !NamesLength(l.headers[k])
    ensures var r := TakeForward(LayoutBytes(l) + rest); r.Got? && r.value.contentLength == 0 && r.rest == rest
  {
    hide LayoutBytes, TakeForward, ContentLength, NamesLength, HeaderOf, SendableHeader, AttributesOf, HeadOf,
      SendableAttribute;
    LayoutDecodes(l, rest);
    var headers := HeadersOf(l.headers);
    forall k | 0 <= k < |headers| ensures headers[k].0 != LengthName() {
      NamesLengthIff(l.headers[k]);
    }
    NoLengthIsZero(headers);
  }
}
