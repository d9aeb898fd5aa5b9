/** What the decoder of AJP requests refuses, and where it stops reading. */
module AjpRefusals {
  import opened Bytes
  import opened AjpMessage
  import opened AjpRequest
  import opened AjpForward
  import Utf8

  // ---- strings -------------------------------------------------------------

  /** Text that ends before its length, or before its NUL. */
  lemma ShortTextRefused(raw: seq<byte>, n: nat)
    ensures n > |raw| ==> TakeText(raw, n) == Failed(Truncated, raw)
    ensures TakeText(raw, |raw|) == Failed(Truncated, [])
  {
    hide Utf8.Valid;
    assert raw[|raw|..] == [];
  }

  /** Text without a NUL after it, and text that is not UTF-8. */
  lemma TextRefused(raw: seq<byte>, after: byte, rest: seq<byte>)
    ensures after != 0 ==> TakeText(raw + ([after] + rest), |raw|) == Failed(MissingNul, rest)
    ensures after == 0 && !Utf8.Valid(raw) ==> TakeText(raw + ([after] + rest), |raw|) == Failed(NotUtf8, rest)
  {
    hide Utf8.Valid, TakeU8;
    var s := raw + ([after] + rest);
    assert s[..|raw|] == raw && s[|raw|..] == [after] + rest;
    U8Taken(after, rest);
  }

  /** The null marker where a string is required. */
  lemma NullRefused(rest: seq<byte>)
    ensures TakeRequired(StringBytes(None) + rest) == Failed(NullString, rest)
  {
    NullReadsBack(rest);
  }

  // ---- frames --------------------------------------------------------------

  /** A frame cut anywhere short of its end, but not at its very start. */
  lemma CutFrameRefused(magic: seq<byte>, payload: seq<byte>, k: nat)
    requires |magic| == 2 && |payload| < 0x1_0000 && k < |payload| + 4
    ensures var cut := Frame(magic, payload)[..k];
      TakePacket(cut, magic) == if k == 0 then Got(None, []) else Failed(UnexpectedEnd, [])
  {
    var frame := Frame(magic, payload);
    if k >= 4 {
      var cut := frame[..k];
      assert cut[0] == magic[0] && cut[1] == magic[1];
      assert cut[2] == U16Bytes(|payload|)[0] && cut[3] == U16Bytes(|payload|)[1];
      assert BigEndian(cut[2], cut[3]) == |payload|;
    }
  }

  /** A frame for the other direction, or none at all. */
  lemma OtherMagicRefused(magic: seq<byte>, other: seq<byte>, payload: seq<byte>, rest: seq<byte>)
    requires |magic| == |other| == 2 && magic != other && |payload| < 0x1_0000
    ensures TakePacket(Frame(other, payload) + rest, magic) == Failed(BadMagic, payload + rest)
  {
    var s := Frame(other, payload) + rest;
    assert magic[0] != other[0] || magic[1] != other[1];
    assert s[0] == other[0] && s[1] == other[1];
    assert s[4..] == payload + rest;
  }

  // ---- requests ------------------------------------------------------------

  /** Another kind of packet. */
  lemma OtherPacketRefused(code: byte, rest: seq<byte>)
    requires code != 2
    ensures TakeForward([code] + rest) == Failed(WrongType, rest)
  {
    U8Taken(code, rest);
  }

  /** A method code outside 1 to 27. */
  lemma OtherMethodRefused(code: byte, rest: seq<byte>)
    requires code == 0 || code > 27
    ensures TakeForward([2] + ([code] + rest)) == Failed(UnknownMethod, rest)
  {
    U8Taken(2, [code] + rest);
    U8Taken(code, rest);
  }

  lemma {:induction false} HeadersGoOn(headers: seq<WireHeader>, s: seq<byte>, more: nat)
    requires SendableHeaders(headers)
    ensures TakeHeaders(HeadersBytes(headers) + s, |headers| + more) ==
      HeadersThen(HeadersOf(headers), TakeHeaders(s, more))
    decreases |headers|
  {
    hide SendableHeader, HeaderBytes, TakeHeader, HeaderOf, HeadersThen;
    var r := TakeHeaders(s, more);
    if headers == [] {
      assert HeadersBytes(headers) + s == s && HeadersOf(headers) == [];
      HeadersThenTwice([], (s, s), r);
    } else {
      var h := HeaderOf(headers[0]);
      var tail := HeadersBytes(headers[1..]) + s;
      assert HeadersBytes(headers) + s == HeaderBytes(headers[0]) + tail;
      HeaderTaken(headers[0], tail);
      HeadersGoOn(headers[1..], s, more);
      TwoFronts(h, HeadersOf(headers[1..]), r);
      assert [h] + HeadersOf(headers[1..]) == HeadersOf(headers);
    }
  }

  lemma TwoFronts(h: Header, front: seq<Header>, r: Reading<seq<Header>>)
    ensures HeadersThen([h], HeadersThen(front, r)) == HeadersThen([h] + front, r)
  {
    if r.Got? {
      Regroup([h], front, r.value);
    }
  }

  /** A header code outside 0xA001 to 0xA00E, after any headers. */
  lemma OtherHeaderRefused(l: Layout, n: u16, code: byte, rest: seq<byte>)
    requires SendableHead(l) && SendableHeaders(l.headers) && |l.headers| < n
    requires code == 0 || code > 14
    ensures TakeForward(HeadBytes(l) + (U16Bytes(n) + (HeadersBytes(l.headers) + ([0xA0, code] + rest)))) ==
      Failed(UnknownHeaderCode, rest)
  {
    hide SendableHead, HeadBytes, TakeHead, HeadOf, HeadersBytes, TakeHeaders, HeadersOf, SendableHeader, U16Bytes,
      TakeU16, TakeForward;
    var last := [0xA0, code] + rest;
    var headers := HeadersBytes(l.headers) + last;
    HeadTaken(l, U16Bytes(n) + headers);
    U16Taken(n, headers);
    UnknownCode(code, rest, n - |l.headers|);
    HeadersGoOn(l.headers, last, n - |l.headers|);
    HeadersStop(HeadBytes(l) + (U16Bytes(n) + headers), HeadOf(l), U16Bytes(n) + headers, n, headers, UnknownHeaderCode,
      rest);
  }

  lemma HeadersStop(
      s: seq<byte>, head: Head, count: seq<byte>, n: u16, headers: seq<byte>, e: AjpError, rest: seq<byte>)
    requires TakeHead(s) == Got(head, count) && TakeU16(count) == Got(n, headers)
    requires TakeHeaders(headers, n) == Failed(e, rest)
    ensures TakeForward(s) == Failed(e, rest)
  {
    hide TakeHead, TakeU16, TakeHeaders, TakeAttributes, ContentLength;
  }

  lemma UnknownCode(code: byte, rest: seq<byte>, more: nat)
    requires (code == 0 || code > 14) && more > 0
    ensures TakeHeaders([0xA0, code] + rest, more) == Failed(UnknownHeaderCode, rest)
  {
    var s := [0xA0, code] + rest;
    assert s[1..][1..] == rest;
    assert TakeHeader(s) == Failed(UnknownHeaderCode, rest);
  }

  /** The attribute codes the connector knows. */
  predicate Attributed(code: byte) {
    1 <= code <= 13 || code == 0xFF
  }

  /** Another attribute code, after any attributes. */
  lemma OtherAttributeRefused(l: Layout, code: byte, rest: seq<byte>)
    requires SendableLayout(l) && !Attributed(code)
    ensures TakeForward(FrontBytes(l) + (AttributesBytes(l.attributes) + ([code] + rest))) ==
      Failed(UnknownAttribute, rest)
  {
    hide FrontBytes, AttributesBytes, TakeForward, TakeAttributes, HeadOf, HeadersOf, SendableAttribute, SendableHead,
      SendableHeader, AfterAll, Attributed;
    var last := [code] + rest;
    UnknownAttributeCode(code, rest, AfterAll(NO_ATTRIBUTES, l.attributes));
    FrontTaken(l, AttributesBytes(l.attributes) + last);
    AttributesTaken(l.attributes, last, NO_ATTRIBUTES);
  }

  lemma UnknownAttributeCode(code: byte, rest: seq<byte>, a: Attributes)
    requires !Attributed(code)
    ensures TakeAttributes([code] + rest, a) == Failed(UnknownAttribute, rest)
  {
    assert ([code] + rest)[1..] == rest;
  }

  /** Each code the connector knows goes on to what follows its strings. */
  lemma KnownCodes(code: byte)
    ensures OneString(code) || code == REQ_ATTRIBUTE || code == ARE_DONE <==> Attributed(code)
  {
  }

  /** Attributes that never end. */
  lemma UnendedRefused(l: Layout)
    requires SendableLayout(l)
    ensures TakeForward(FrontBytes(l) + AttributesBytes(l.attributes)) == Failed(Truncated, [])
  {
    hide FrontBytes, AttributesBytes, TakeForward, HeadOf, HeadersOf, SendableAttribute, SendableHead, SendableHeader,
      TakeAttribute;
    var bytes := FrontBytes(l) + AttributesBytes(l.attributes);
    assert bytes + [] == bytes && AttributesBytes(l.attributes) + [] == AttributesBytes(l.attributes);
    FrontTaken(l, AttributesBytes(l.attributes));
    AttributesTaken(l.attributes, [], NO_ATTRIBUTES);
  }
}
