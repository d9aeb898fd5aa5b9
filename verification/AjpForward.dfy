/** A structured AJP request laid out on the wire, and what its decoder makes of it. */
module AjpForward {
  import opened Bytes
  import opened AjpMessage
  import opened AjpRequest
  import Utf8

  // ---- the layout ----------------------------------------------------------

  /** A header named by a common-header code or by its own text. */
  datatype WireHeader =
    | Coded(code: byte, codedValue: seq<byte>)
    | Named(name: seq<byte>, value: seq<byte>)

  datatype Attribute =
    | Single(code: byte, single: Option<seq<byte>>)
    | Pair(pairName: seq<byte>, pairValue: seq<byte>)

  datatype Layout = Layout(
    methodCode: byte, protocol: seq<byte>, reqUri: seq<byte>, remoteAddr: seq<byte>, remoteHost: Option<seq<byte>>,
    serverName: seq<byte>, serverPort: u16, ssl: byte, headers: seq<WireHeader>, attributes: seq<Attribute>)

  /** A name whose two-octet length does not start with 0xA0 and does not wrap. */
  predicate SendableName(name: seq<byte>) {
    Utf8.Valid(name) && (|name| < 0xA000 || 0xA100 <= |name| < 0x1_0000)
  }

  predicate SendableHeader(h: WireHeader) {
    match h
    case Coded(code, value) => 1 <= code <= |COMMON_HEADERS| && Sendable(value)
    case Named(name, value) => SendableName(name) && Sendable(value)
  }

  predicate SendableAttribute(a: Attribute) {
    match a
    case Single(code, value) => OneString(code) && SendableOrNull(value)
    case Pair(name, value) => Sendable(name) && Sendable(value)
  }

  predicate SendableHead(l: Layout) {
    1 <= l.methodCode <= |METHODS| && Sendable(l.protocol) && Sendable(l.reqUri) && Sendable(l.remoteAddr) &&
    SendableOrNull(l.remoteHost) && Sendable(l.serverName)
  }

  predicate SendableHeaders(headers: seq<WireHeader>) {
    forall i :: 0 <= i < |headers| ==> SendableHeader(headers[i])
  }

  predicate SendableAttributes(attributes: seq<Attribute>) {
    forall i :: 0 <= i < |attributes| ==> SendableAttribute(attributes[i])
  }

  predicate SendableLayout(l: Layout) {
    SendableHead(l) && |l.headers| < 0x1_0000 && SendableHeaders(l.headers) && SendableAttributes(l.attributes)
  }

  function NameBytes(h: WireHeader): seq<byte> {
    match h
    case Coded(code, _) => [HEADER_CODE, code]
    case Named(name, _) => StringBytes(Some(name))
  }

  function ValueOf(h: WireHeader): seq<byte> {
    match h
    case Coded(_, value) => value
    case Named(_, value) => value
  }

  function HeaderBytes(h: WireHeader): seq<byte> {
    NameBytes(h) + StringBytes(Some(ValueOf(h)))
  }

  function HeadersBytes(headers: seq<WireHeader>): seq<byte> {
    if headers == [] then [] else HeaderBytes(headers[0]) + HeadersBytes(headers[1..])
  }

  function AttributeBytes(a: Attribute): seq<byte> {
    match a
    case Single(code, value) => [code] + StringBytes(value)
    case Pair(name, value) => [REQ_ATTRIBUTE] + (StringBytes(Some(name)) + StringBytes(Some(value)))
  }

  function AttributesBytes(attributes: seq<Attribute>): seq<byte> {
    if attributes == [] then [] else AttributeBytes(attributes[0]) + AttributesBytes(attributes[1..])
  }

  function HeadBytes(l: Layout): seq<byte> {
    [FORWARD_REQUEST] + ([l.methodCode] + (StringBytes(Some(l.protocol)) + (StringBytes(Some(l.reqUri)) +
    (StringBytes(Some(l.remoteAddr)) + (StringBytes(l.remoteHost) + (StringBytes(Some(l.serverName)) +
    (U16Bytes(l.serverPort) + [l.ssl])))))))
  }

  /** Everything before the attributes. */
  function FrontBytes(l: Layout): seq<byte>
    requires |l.headers| < 0x1_0000
  {
    HeadBytes(l) + U16Bytes(|l.headers|) + HeadersBytes(l.headers)
  }

  function LayoutBytes(l: Layout): seq<byte>
    requires |l.headers| < 0x1_0000
  {
    FrontBytes(l) + AttributesBytes(l.attributes) + [ARE_DONE]
  }

  // ---- what a layout means -------------------------------------------------

  function HeadOf(l: Layout): Head
    requires SendableHead(l)
  {
    Head(MethodName(l.methodCode).value, l.protocol, l.reqUri, l.remoteAddr, l.remoteHost, l.serverName, l.serverPort,
      l.ssl != 0)
  }

  function HeaderOf(h: WireHeader): AjpRequest.Header
    requires SendableHeader(h)
  {
    match h
    case Coded(code, value) => (CommonHeader(code).value, value)
    case Named(name, value) => (Lower(name), value)
  }

  function HeadersOf(headers: seq<WireHeader>): (r: seq<AjpRequest.Header>)
    requires SendableHeaders(headers)
  {
    seq(|headers|, i requires 0 <= i < |headers| => HeaderOf(headers[i]))
  }

  /** The value of the last attribute with a code; null counts as a value, absence as null. */
  function LastOf(attributes: seq<Attribute>, code: byte): Option<seq<byte>> {
    if attributes == [] then None
    else
      match attributes[|attributes| - 1]
      case Single(c, value) => if c == code then value else LastOf(attributes[..|attributes| - 1], code)
      case Pair(_, _) => LastOf(attributes[..|attributes| - 1], code)
  }

  /** The last stored method that is not null. */
  function StoredMethod(attributes: seq<Attribute>): Option<seq<byte>> {
    if attributes == [] then None
    else
      match attributes[|attributes| - 1]
      case Single(c, value) =>
        if c == STORED_METHOD && value.Some? then value else StoredMethod(attributes[..|attributes| - 1])
      case Pair(_, _) => StoredMethod(attributes[..|attributes| - 1])
  }

  function AttributesOf(attributes: seq<Attribute>): Attributes {
    Attributes(
      LastOf(attributes, QUERY_STRING), LastOf(attributes, REMOTE_USER), LastOf(attributes, AUTH_TYPE),
      LastOf(attributes, ROUTE), LastOf(attributes, SSL_CERT), LastOf(attributes, SECRET), StoredMethod(attributes))
  }

  function RequestOf(l: Layout): ForwardRequest
    requires SendableLayout(l)
  {
    ForwardRequest(HeadOf(l), HeadersOf(l.headers), ContentLength(HeadersOf(l.headers)), AttributesOf(l.attributes))
  }

  // ---- header names --------------------------------------------------------

  /** What reading makes of a written name of any length. */
  lemma NameThen(name: seq<byte>, rest: seq<byte>)
    ensures var n := |name| % 0x1_0000;
      var body := name + [0] + rest;
      var text := TakeText(body, n);
      TakeName(StringBytes(Some(name)) + rest) ==
        if n / 256 == HEADER_CODE then
          if CommonHeader(n % 256).None? then Failed(UnknownHeaderCode, body)
          else Got(CommonHeader(n % 256).value, body)
        else if text.Failed? then Failed(text.error, text.rest)
        else Got(Lower(text.value), text.rest)
  {
    hide CommonHeader, TakeText, Lower, TakeU8;
    var n := |name| % 0x1_0000;
    var body := name + [0] + rest;
    assert StringBytes(Some(name)) + rest == [n / 256] + ([n % 256] + body);
    U8Taken(n / 256, [n % 256] + body);
    U8Taken(n % 256, body);
    assert BigEndian(n / 256, n % 256) == n;
  }

  /** A length that wraps reads at most its remainder. */
  lemma WrappedNameIsShort(name: seq<byte>, s: seq<byte>)
    requires |name| >= 0x1_0000
    ensures var text := TakeText(s, |name| % 0x1_0000); text.Got? ==> |Lower(text.value)| < |name|
  {
    hide TakeText;
    var n := |name| % 0x1_0000;
    if TakeText(s, n).Got? {
      TextLength(s, n);
    }
  }

  /** A written name reads back, lower-cased, exactly when its length does not look like a
      header code and does not wrap. */
  lemma NameReadsBackIff(name: seq<byte>, rest: seq<byte>)
    requires Utf8.Valid(name)
    ensures TakeName(StringBytes(Some(name)) + rest) == Got(Lower(name), rest) <==> SendableName(name)
  {
    hide Utf8.Valid, CommonHeader, TakeText, Lower, TakeName, StringBytes;
    var body := name + [0] + rest;
    NameThen(name, rest);
    assert |body| > |rest|;
    if |name| < 0x1_0000 {
      TextTaken(name, rest);
      HighOctet(|name|);
    } else {
      WrappedNameIsShort(name, body);
    }
  }

  lemma HighOctet(n: nat)
    ensures n / 256 == 0xA0 <==> 0xA000 <= n < 0xA100
  {
  }

  lemma CodeTaken(code: byte, rest: seq<byte>)
    requires 1 <= code <= |COMMON_HEADERS|
    ensures TakeName([HEADER_CODE, code] + rest) == Got(CommonHeader(code).value, rest)
  {
    var s := [HEADER_CODE, code] + rest;
    assert s[1..][1..] == rest;
  }

  // ---- the layout decodes back ---------------------------------------------

  lemma HeaderTaken(h: WireHeader, rest: seq<byte>)
    requires SendableHeader(h)
    ensures TakeHeader(HeaderBytes(h) + rest) == Got(HeaderOf(h), rest)
  {
    hide TakeName, TakeRequired, StringBytes, CommonHeader, Lower, Utf8.Valid;
    var value := StringBytes(Some(ValueOf(h))) + rest;
    assert HeaderBytes(h) + rest == NameBytes(h) + value;
    StringTaken(Some(ValueOf(h)), rest);
    match h
    case Coded(code, _) => CodeTaken(code, value);
    case Named(name, _) => NameReadsBackIff(name, value);
  }

  lemma {:induction false} HeadersTaken(headers: seq<WireHeader>, rest: seq<byte>)
    requires SendableHeaders(headers)
    ensures TakeHeaders(HeadersBytes(headers) + rest, |headers|) == Got(HeadersOf(headers), rest)
    decreases |headers|
  {
    hide SendableHeader, HeaderBytes, TakeHeader, HeaderOf;
    if headers == [] {
      assert HeadersBytes(headers) + rest == rest;
    } else {
      var tail := HeadersBytes(headers[1..]) + rest;
      assert HeadersBytes(headers) + rest == HeaderBytes(headers[0]) + tail;
      HeaderTaken(headers[0], tail);
      HeadersTaken(headers[1..], rest);
      assert [HeaderOf(headers[0])] + HeadersOf(headers[1..]) == HeadersOf(headers);
    }
  }

  lemma HeadTaken(l: Layout, rest: seq<byte>)
    requires SendableHead(l)
    ensures TakeHead(HeadBytes(l) + rest) == Got(HeadOf(l), rest)
  {
    hide TakeU8, TakeU16, TakeString, TakeRequired, StringBytes, U16Bytes, Sendable;
    var ssl := [l.ssl] + rest;
    var port := U16Bytes(l.serverPort) + ssl;
    var server := StringBytes(Some(l.serverName)) + port;
    var host := StringBytes(l.remoteHost) + server;
    var addr := StringBytes(Some(l.remoteAddr)) + host;
    var uri := StringBytes(Some(l.reqUri)) + addr;
    var protocol := StringBytes(Some(l.protocol)) + uri;
    var code := [l.methodCode] + protocol;
    assert HeadBytes(l) + rest == [FORWARD_REQUEST] + code;
    U8Taken(FORWARD_REQUEST, code);
    U8Taken(l.methodCode, protocol);
    StringTaken(Some(l.protocol), uri);
    StringTaken(Some(l.reqUri), addr);
    StringTaken(Some(l.remoteAddr), host);
    StringTaken(l.remoteHost, server);
    StringTaken(Some(l.serverName), port);
    U16Taken(l.serverPort, ssl);
    U8Taken(l.ssl, rest);
  }

  /** The state after one attribute of a layout. */
  function After(a: Attributes, attribute: Attribute): Attributes {
    match attribute
    case Single(code, value) => WithAttribute(a, code, value)
    case Pair(_, _) => a
  }

  lemma AttributeTaken(attribute: Attribute, rest: seq<byte>, a: Attributes)
    requires SendableAttribute(attribute)
    ensures TakeAttributes(AttributeBytes(attribute) + rest, a) == TakeAttributes(rest, After(a, attribute))
  {
    hide TakeAttribute, TakeAttributes, StringBytes, Sendable, SendableOrNull, OneString, WithAttribute;
    match attribute
    case Single(code, value) =>
      SingleTaken(code, value, rest, a);
      OneStringGoesOn(code);
      NextAttribute(code, StringBytes(value) + rest, rest, a, After(a, attribute));
      assert AttributeBytes(attribute) + rest == [code] + (StringBytes(value) + rest);
    case Pair(name, value) =>
      var fields := StringBytes(Some(name)) + (StringBytes(Some(value)) + rest);
      PairTaken(name, value, rest, a);
      NextAttribute(REQ_ATTRIBUTE, fields, rest, a, a);
      assert AttributeBytes(attribute) + rest == [REQ_ATTRIBUTE] + fields;
  }

  lemma OneStringGoesOn(code: byte)
    requires OneString(code)
    ensures code != ARE_DONE && code != REQ_ATTRIBUTE
  {
  }

  lemma PairTaken(name: seq<byte>, value: seq<byte>, rest: seq<byte>, a: Attributes)
    requires Sendable(name) && Sendable(value)
    ensures TakeAttribute(StringBytes(Some(name)) + (StringBytes(Some(value)) + rest), REQ_ATTRIBUTE, a) == Got(a, rest)
  {
    hide TakeString, TakeRequired, StringBytes, Sendable;
    StringTaken(Some(name), StringBytes(Some(value)) + rest);
    StringTaken(Some(value), rest);
  }

  lemma SingleTaken(code: byte, value: Option<seq<byte>>, rest: seq<byte>, a: Attributes)
    requires OneString(code) && SendableOrNull(value)
    ensures TakeAttribute(StringBytes(value) + rest, code, a) == Got(WithAttribute(a, code, value), rest)
  {
    hide TakeString, StringBytes, OneString, SendableOrNull, WithAttribute;
    StringTaken(value, rest);
  }

  lemma NextAttribute(code: byte, s: seq<byte>, rest: seq<byte>, a: Attributes, b: Attributes)
    requires code != ARE_DONE && TakeAttribute(s, code, a) == Got(b, rest)
    ensures TakeAttributes([code] + s, a) == TakeAttributes(rest, b)
  {
    hide TakeAttribute;
    assert ([code] + s)[1..] == s;
  }

  function AfterAll(a: Attributes, attributes: seq<Attribute>): Attributes
    decreases |attributes|
  {
    if attributes == [] then a else AfterAll(After(a, attributes[0]), attributes[1..])
  }

  lemma {:induction false} AttributesTaken(attributes: seq<Attribute>, rest: seq<byte>, a: Attributes)
    requires SendableAttributes(attributes)
    ensures TakeAttributes(AttributesBytes(attributes) + rest, a) == TakeAttributes(rest, AfterAll(a, attributes))
    decreases |attributes|
  {
    hide AttributeBytes, SendableAttribute, TakeAttributes, After;
    if attributes == [] {
      assert AttributesBytes(attributes) + rest == rest;
    } else {
      var tail := AttributesBytes(attributes[1..]) + rest;
      assert AttributesBytes(attributes) + rest == AttributeBytes(attributes[0]) + tail;
      AttributeTaken(attributes[0], tail, a);
      AttributesTaken(attributes[1..], rest, After(a, attributes[0]));
    }
  }

  lemma {:induction false} AfterAllSnoc(a: Attributes, front: seq<Attribute>, last: Attribute)
    ensures AfterAll(a, front + [last]) == After(AfterAll(a, front), last)
    decreases |front|
  {
    hide After;
    if front == [] {
      assert front + [last] == [last];
    } else {
      assert (front + [last])[1..] == front[1..] + [last];
      AfterAllSnoc(After(a, front[0]), front[1..], last);
    }
  }

  /** Taking attributes one by one leaves, for every code, the last one. */
  lemma {:induction false} LastAttributeWins(attributes: seq<Attribute>)
    ensures AfterAll(NO_ATTRIBUTES, attributes) == AttributesOf(attributes)
  {
    if attributes != [] {
      var front := attributes[..|attributes| - 1];
      var last := attributes[|attributes| - 1];
      LastAttributeWins(front);
      AfterAllSnoc(NO_ATTRIBUTES, front, last);
      assert front + [last] == attributes;
    }
  }

  /** Decoding what precedes the attributes leaves them to be read from nothing. */
  lemma FrontTaken(l: Layout, rest: seq<byte>)
    requires SendableHead(l) && |l.headers| < 0x1_0000 && SendableHeaders(l.headers)
    ensures TakeForward(FrontBytes(l) + rest) ==
      match TakeAttributes(rest, NO_ATTRIBUTES)
      case Failed(e, after) => Failed(e, after)
      case Got(a, after) =>
        Got(ForwardRequest(HeadOf(l), HeadersOf(l.headers), ContentLength(HeadersOf(l.headers)), a), after)
  {
    hide SendableHead, HeadBytes, TakeHead, HeadOf, HeadersBytes, TakeHeaders, HeadersOf, SendableHeader, U16Bytes,
      TakeU16, TakeAttributes, ContentLength;
    var headers := HeadersBytes(l.headers) + rest;
    var count := U16Bytes(|l.headers|) + headers;
    assert FrontBytes(l) + rest == HeadBytes(l) + count;
    HeadTaken(l, count);
    U16Taken(|l.headers|, headers);
    HeadersTaken(l.headers, rest);
  }

  /** A request laid out on the wire decodes back to itself, whatever follows it. */
  lemma LayoutDecodes(l: Layout, rest: seq<byte>)
    requires SendableLayout(l)
    ensures TakeForward(LayoutBytes(l) + rest) == Got(RequestOf(l), rest)
  {
    hide FrontBytes, AttributesBytes, HeadOf, HeadersOf, ContentLength, AttributesOf, TakeForward, SendableAttribute;
    var end := [ARE_DONE] + rest;
    assert LayoutBytes(l) + rest == FrontBytes(l) + (AttributesBytes(l.attributes) + end);
    FrontTaken(l, AttributesBytes(l.attributes) + end);
    AttributesTaken(l.attributes, end, NO_ATTRIBUTES);
    LastAttributeWins(l.attributes);
    assert end[1..] == rest;
  }

  // ---- req_attribute pairs -------------------------------------------------

  /** A name and value pair between attributes changes nothing, whatever follows it, even when
      what follows is refused. */
  lemma PairChangesNothing(l: Layout, name: seq<byte>, value: seq<byte>, rest: seq<byte>)
    requires SendableLayout(l) && Sendable(name) && Sendable(value)
    ensures TakeForward(FrontBytes(l) + AttributesBytes(l.attributes) + AttributeBytes(Pair(name, value)) + rest) ==
            TakeForward(FrontBytes(l) + AttributesBytes(l.attributes) + rest)
  {
    hide FrontBytes, AttributesBytes, AttributeBytes, TakeForward, TakeAttributes, HeadOf, HeadersOf, Sendable,
      SendableHead, SendableHeader;
    var front := FrontBytes(l);
    var attributes := AttributesBytes(l.attributes);
    var pair := AttributeBytes(Pair(name, value));
    assert front + attributes + pair + rest == front + (attributes + (pair + rest));
    assert front + attributes + rest == front + (attributes + rest);
    FrontTaken(l, attributes + (pair + rest));
    FrontTaken(l, attributes + rest);
    AttributesTaken(l.attributes, pair + rest, NO_ATTRIBUTES);
    AttributesTaken(l.attributes, rest, NO_ATTRIBUTES);
    AttributeTaken(Pair(name, value), rest, AfterAll(NO_ATTRIBUTES, l.attributes));
  }

  function WithoutPairs(attributes: seq<Attribute>): seq<Attribute> {
    if attributes == [] then []
    else
      WithoutPairs(attributes[..|attributes| - 1]) +
      (if attributes[|attributes| - 1].Pair? then [] else [attributes[|attributes| - 1]])
  }

  /** One attribute more, in the three functions. */
  lemma OneMore(front: seq<Attribute>, last: Attribute, code: byte)
    ensures LastOf(front + [last], code) ==
      if last.Single? && last.code == code then last.single else LastOf(front, code)
    ensures StoredMethod(front + [last]) ==
      if last.Single? && last.code == STORED_METHOD && last.single.Some? then last.single else StoredMethod(front)
    ensures WithoutPairs(front + [last]) == if last.Pair? then WithoutPairs(front) else WithoutPairs(front) + [last]
  {
    assert (front + [last])[..|front|] == front;
    assert WithoutPairs(front) + [] == WithoutPairs(front);
  }

  lemma {:induction false} PairsMeanNothing(attributes: seq<Attribute>, code: byte)
    ensures LastOf(WithoutPairs(attributes), code) == LastOf(attributes, code)
    ensures StoredMethod(WithoutPairs(attributes)) == StoredMethod(attributes)
  {
    if attributes == [] {
      assert WithoutPairs(attributes) == attributes;
    } else {
      hide *;
      var front, last := attributes[..|attributes| - 1], attributes[|attributes| - 1];
      assert attributes == front + [last];
      PairsMeanNothing(front, code);
      OneMore(front, last, code);
      OneMore(WithoutPairs(front), last, code);
    }
  }

  /** Two packets that differ only in pairs, any number of them anywhere, decode alike. */
  lemma PairsAreDropped(l: Layout, other: seq<Attribute>, rest: seq<byte>)
    requires SendableLayout(l) && SendableAttributes(other)
    requires WithoutPairs(other) == WithoutPairs(l.attributes)
    ensures TakeForward(LayoutBytes(l.(attributes := other)) + rest) == TakeForward(LayoutBytes(l) + rest)
  {
    hide LayoutBytes, TakeForward, HeadersOf, LastOf, StoredMethod, SendableAttribute, SendableHeader, Sendable;
    LayoutDecodes(l, rest);
    LayoutDecodes(l.(attributes := other), rest);
    forall code: byte ensures LastOf(other, code) == LastOf(l.attributes, code) {
      PairsMeanNothing(other, code);
      PairsMeanNothing(l.attributes, code);
    }
    PairsMeanNothing(other, 0);
    PairsMeanNothing(l.attributes, 0);
  }
}
