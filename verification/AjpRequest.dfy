/** The AJP Forward Request packet: its decoder, and the layout that the decoder should undo. */
module AjpRequest {
  import opened Bytes
  import opened AjpMessage
  import Text
  import Utf8

  type Header = (seq<byte>, seq<byte>)

  const FORWARD_REQUEST: byte := 2
  const HEADER_CODE: byte := 0xA0
  const REMOTE_USER: byte := 0x03
  const AUTH_TYPE: byte := 0x04
  const QUERY_STRING: byte := 0x05
  const ROUTE: byte := 0x06
  const SSL_CERT: byte := 0x07
  const REQ_ATTRIBUTE: byte := 0x0A
  const SECRET: byte := 0x0C
  const STORED_METHOD: byte := 0x0D
  const ARE_DONE: byte := 0xFF
  /** Context, servlet path, SSL cipher, SSL session and SSL key size. */
  const DROPPED: seq<byte> := [0x01, 0x02, 0x08, 0x09, 0x0B]

  const METHODS: seq<string> := [
    "OPTIONS", "GET", "HEAD", "POST", "PUT", "DELETE", "TRACE", "PROPFIND", "PROPPATCH", "MKCOL", "COPY", "MOVE",
    "LOCK", "UNLOCK", "ACL", "REPORT", "VERSION-CONTROL", "CHECKIN", "CHECKOUT", "UNCHECKOUT", "SEARCH",
    "MKWORKSPACE", "UPDATE", "LABEL", "MERGE", "BASELINE-CONTROL", "MKACTIVITY"
  ]

  const COMMON_HEADERS: seq<string> := [
    "accept", "accept-charset", "accept-encoding", "accept-language", "authorization", "connection", "content-type",
    "content-length", "cookie", "cookie2", "host", "pragma", "referer", "user-agent"
  ]

  function MethodName(code: byte): Option<seq<byte>> {
    if 1 <= code <= |METHODS| then Some(Ascii(METHODS[code - 1])) else None
  }

  function CommonHeader(second: byte): Option<seq<byte>> {
    if 1 <= second <= |COMMON_HEADERS| then Some(Ascii(COMMON_HEADERS[second - 1])) else None
  }

  function LowerOctet(b: byte): byte {
    if 65 <= b <= 90 then b + 32 else b
  }

  function Lower(s: seq<byte>): (r: seq<byte>)
    ensures |r| == |s|
  {
    seq(|s|, i requires 0 <= i < |s| => LowerOctet(s[i]))
  }

  // ---- the decoded request -------------------------------------------------

  datatype Head = Head(
    methodName: seq<byte>, protocol: seq<byte>, reqUri: seq<byte>, remoteAddr: seq<byte>, remoteHost: Option<seq<byte>>,
    serverName: seq<byte>, serverPort: u16, isSsl: bool)

  /** What the attributes may set; `stored` is the method that replaces the coded one. */
  datatype Attributes = Attributes(
    query: Option<seq<byte>>, user: Option<seq<byte>>, authType: Option<seq<byte>>, route: Option<seq<byte>>,
    cert: Option<seq<byte>>, secret: Option<seq<byte>>, stored: Option<seq<byte>>)

  datatype ForwardRequest = ForwardRequest(
    head: Head, headers: seq<Header>, contentLength: nat, attributes: Attributes)
  {
    function Method(): seq<byte> {
      if attributes.stored.Some? then attributes.stored.value else head.methodName
    }
  }

  const NO_ATTRIBUTES: Attributes := Attributes(None, None, None, None, None, None, None)

  /** The value of the last content-length header: 0 when there is none or it is not a number. */
  function ContentLength(headers: seq<Header>): nat {
    if headers == [] then 0
    else
      var (name, value) := headers[|headers| - 1];
      if name == Ascii("content-length") then Declared(value) else ContentLength(headers[..|headers| - 1])
  }

  function Declared(value: seq<byte>): nat {
    var n := Text.ParseU64(Text.Trim(value));
    if n.Some? then n.value else 0
  }

  // ---- decoding ------------------------------------------------------------

  function TakeHead(s: seq<byte>): Reading<Head> {
    var (code, s) :- TakeU8(s);
    if code != FORWARD_REQUEST then Failed(WrongType, s)
    else
      var (methodCode, s) :- TakeU8(s);
      if MethodName(methodCode).None? then Failed(UnknownMethod, s)
      else
        var (protocol, s) :- TakeRequired(s);
        var (reqUri, s) :- TakeRequired(s);
        var (remoteAddr, s) :- TakeRequired(s);
        var (remoteHost, s) :- TakeString(s);
        var (serverName, s) :- TakeRequired(s);
        var (serverPort, s) :- TakeU16(s);
        var (ssl, s) :- TakeU8(s);
        var name := MethodName(methodCode).value;
        Got(Head(name, protocol, reqUri, remoteAddr, remoteHost, serverName, serverPort, ssl != 0), s)
  }

  /** A header name: a two-octet code under 0xA0, or text after its length. */
  function TakeName(s: seq<byte>): Reading<seq<byte>> {
    var (first, s) :- TakeU8(s);
    var (second, s) :- TakeU8(s);
    if first == HEADER_CODE then
      if CommonHeader(second).None? then Failed(UnknownHeaderCode, s) else Got(CommonHeader(second).value, s)
    else
      var (name, s) :- TakeText(s, BigEndian(first, second));
      Got(Lower(name), s)
  }

  function TakeHeader(s: seq<byte>): Reading<Header> {
    var (name, s) :- TakeName(s);
    var (value, s) :- TakeRequired(s);
    Got((name, value), s)
  }

  function TakeHeaders(s: seq<byte>, n: nat): Reading<seq<Header>>
    decreases n
  {
    if n == 0 then Got([], s)
    else
      var (h, s) :- TakeHeader(s);
      HeadersThen([h], TakeHeaders(s, n - 1))
  }

  function HeadersThen(front: seq<Header>, r: Reading<seq<Header>>): Reading<seq<Header>> {
    if r.Got? then Got(front + r.value, r.rest) else r
  }

  /** The effect of an attribute with one string. */
  function WithAttribute(a: Attributes, code: byte, value: Option<seq<byte>>): Attributes {
    if code == REMOTE_USER then a.(user := value)
    else if code == AUTH_TYPE then a.(authType := value)
    else if code == QUERY_STRING then a.(query := value)
    else if code == ROUTE then a.(route := value)
    else if code == SSL_CERT then a.(cert := value)
    else if code == SECRET then a.(secret := value)
    else if code == STORED_METHOD && value.Some? then a.(stored := value)
    else a
  }

  /** The codes that a single string follows. */
  predicate OneString(code: byte) {
    code in [REMOTE_USER, AUTH_TYPE, QUERY_STRING, ROUTE, SSL_CERT, SECRET, STORED_METHOD] || code in DROPPED
  }

  /** What follows an attribute code, and the attributes after it. */
  function TakeAttribute(s: seq<byte>, code: byte, a: Attributes): (r: Reading<Attributes>)
    ensures |r.rest| <= |s|
  {
    if OneString(code) then
      var (value, s) :- TakeString(s);
      Got(WithAttribute(a, code, value), s)
    else if code == REQ_ATTRIBUTE then
      var (_, s) :- TakeRequired(s);
      var (_, s) :- TakeRequired(s);
      Got(a, s)
    else Failed(UnknownAttribute, s)
  }

  function TakeAttributes(s: seq<byte>, a: Attributes): Reading<Attributes>
    decreases |s|
  {
    if s == [] then Failed(Truncated, s)
    else if s[0] == ARE_DONE then Got(a, s[1..])
    else
      match TakeAttribute(s[1..], s[0], a)
      case Failed(e, rest) => Failed(e, rest)
      case Got(b, rest) => TakeAttributes(rest, b)
  }

  function TakeForward(s: seq<byte>): Reading<ForwardRequest> {
    var (head, s) :- TakeHead(s);
    var (n, s) :- TakeU16(s);
    var (headers, s) :- TakeHeaders(s, n);
    var (attributes, s) :- TakeAttributes(s, NO_ATTRIBUTES);
    Got(ForwardRequest(head, headers, ContentLength(headers), attributes), s)
  }

  method DecodeName(msg: AjpMessage) returns (r: Result<seq<byte>, AjpError>)
    requires msg.Valid()
    modifies msg`pos
    ensures msg.Did(r, TakeName(old(msg.Rest())))
  {
    hide Utf8.Valid, CommonHeader, Lower;
    var first :- msg.ReadU8();
    if first == HEADER_CODE {
      var second :- msg.ReadU8();
      var name := CommonHeader(second);
      if name.None? {
        return Err(UnknownHeaderCode);
      }
      return Ok(name.value);
    }
    var second :- msg.ReadU8();
    var raw :- msg.ReadBytes(BigEndian(first, second));
    var nul :- msg.ReadU8();
    if nul != 0 {
      return Err(MissingNul);
    }
    if !Utf8.Valid(raw) {
      return Err(NotUtf8);
    }
    r := Ok(Lower(raw));
  }

  method DecodeHead(msg: AjpMessage) returns (r: Result<Head, AjpError>)
    requires msg.Valid()
    modifies msg`pos
    ensures msg.Did(r, TakeHead(old(msg.Rest())))
  {
    hide MethodName, TakeRequired, TakeString, TakeU16, TakeU8;
    var code :- msg.ReadU8();
    if code != FORWARD_REQUEST {
      return Err(WrongType);
    }
    var methodCode :- msg.ReadU8();
    var name := MethodName(methodCode);
    if name.None? {
      return Err(UnknownMethod);
    }
    var protocol :- msg.ReadRequiredString();
    var reqUri :- msg.ReadRequiredString();
    var remoteAddr :- msg.ReadRequiredString();
    var remoteHost :- msg.ReadString();
    var serverName :- msg.ReadRequiredString();
    var serverPort :- msg.ReadU16();
    var ssl :- msg.ReadU8();
    r := Ok(Head(name.value, protocol, reqUri, remoteAddr, remoteHost, serverName, serverPort, ssl != 0));
  }

  lemma HeadersThenTwice(front: seq<Header>, h: Header, r: Reading<seq<Header>>)
    ensures HeadersThen(front, HeadersThen([h], r)) == HeadersThen(front + [h], r)
    ensures HeadersThen([], r) == r
  {
    if r.Got? {
      assert front + ([h] + r.value) == (front + [h]) + r.value;
      assert [] + r.value == r.value;
    }
  }

  method DecodeHeaders(msg: AjpMessage, n: nat) returns (r: Result<(seq<Header>, nat), AjpError>)
    requires msg.Valid()
    modifies msg`pos
    ensures msg.Valid() && msg.Rest() == TakeHeaders(old(msg.Rest()), n).rest
    ensures match TakeHeaders(old(msg.Rest()), n)
      case Failed(e, _) => r == Err(e)
      case Got(headers, _) => r == Ok((headers, ContentLength(headers)))
  {
    hide TakeName, TakeRequired, Declared;
    var headers: seq<Header> := [];
    var contentLength := 0;
    ghost var s := msg.Rest();
    if TakeHeaders(s, n).Got? {
      assert [] + TakeHeaders(s, n).value == TakeHeaders(s, n).value;
    }
    for i := 0 to n
      invariant msg.Valid()
      invariant TakeHeaders(s, n) == HeadersThen(headers, TakeHeaders(msg.Rest(), n - i))
      invariant contentLength == ContentLength(headers)
    {
      ghost var here := msg.Rest();
      var name :- DecodeName(msg);
      var value :- msg.ReadRequiredString();
      if name == Ascii("content-length") {
        contentLength := Declared(value);
      }
      assert TakeHeaders(here, n - i) == HeadersThen([(name, value)], TakeHeaders(msg.Rest(), n - i - 1));
      HeadersThenTwice(headers, (name, value), TakeHeaders(msg.Rest(), n - i - 1));
      assert (headers + [(name, value)])[..|headers|] == headers;
      headers := headers + [(name, value)];
    }
    assert headers + [] == headers;
    r := Ok((headers, contentLength));
  }

  method DecodeAttributes(msg: AjpMessage) returns (r: Result<Attributes, AjpError>)
    requires msg.Valid()
    modifies msg`pos
    ensures msg.Did(r, TakeAttributes(old(msg.Rest()), NO_ATTRIBUTES))
  {
    hide TakeRequired, TakeString;
    var a := NO_ATTRIBUTES;
    ghost var s := msg.Rest();
    var done := false;
    while !done
      invariant msg.Valid()
      invariant !done ==> TakeAttributes(s, NO_ATTRIBUTES) == TakeAttributes(msg.Rest(), a)
      invariant done ==> TakeAttributes(s, NO_ATTRIBUTES) == Got(a, msg.Rest())
      decreases !done, |msg.Rest()|
    {
      ghost var here := msg.Rest();
      var code :- msg.ReadU8();
      if code == ARE_DONE {
        done := true;
      } else if OneString(code) {
        var value :- msg.ReadString();
        StringShortens(here[1..]);
        a := WithAttribute(a, code, value);
      } else if code == REQ_ATTRIBUTE {
        var name :- msg.ReadRequiredString();
        StringShortens(here[1..]);
        ghost var mid := msg.Rest();
        var value :- msg.ReadRequiredString();
        StringShortens(mid);
      } else {
        return Err(UnknownAttribute);
      }
    }
    r := Ok(a);
  }

  lemma StringShortens(s: seq<byte>)
    ensures TakeString(s).Got? ==> |TakeString(s).rest| < |s|
    ensures TakeRequired(s).Got? ==> |TakeRequired(s).rest| < |s|
  {
  }

  method DecodeForward(msg: AjpMessage) returns (r: Result<ForwardRequest, AjpError>)
    requires msg.Valid()
    modifies msg`pos
    ensures msg.Did(r, TakeForward(old(msg.Rest())))
  {
    hide TakeHead, TakeHeaders, TakeAttributes, ContentLength, TakeU16;
    var head :- DecodeHead(msg);
    var n :- msg.ReadU16();
    var headers :- DecodeHeaders(msg, n);
    var attributes :- DecodeAttributes(msg);
    r := Ok(ForwardRequest(head, headers.0, headers.1, attributes));
  }
}
