/** The AJP response stream: Send Headers, Send Body Chunks, End Response, and the reader on
    the proxy's side that should get the response back. */
module AjpResponse {
  import opened Bytes
  import opened AjpMessage
  import Utf8

  const MAX_SEND_CHUNK: nat := 8192
  const SEND_BODY_CHUNK: byte := 3
  const SEND_HEADERS: byte := 4
  const END_RESPONSE: byte := 5

  type Header = (seq<byte>, seq<byte>)

  datatype Response = Response(status: u16, headers: seq<Header>, body: seq<byte>)

  /** Header names and values are text. */
  predicate Textual(headers: seq<Header>) {
    forall i :: 0 <= i < |headers| ==> Utf8.Valid(headers[i].0) && Utf8.Valid(headers[i].1)
  }

  function ReasonPhrase(status: u16): string {
    match status
    case 200 => "OK"
    case 201 => "Created"
    case 202 => "Accepted"
    case 204 => "No Content"
    case 301 => "Moved Permanently"
    case 302 => "Found"
    case 303 => "See Other"
    case 304 => "Not Modified"
    case 307 => "Temporary Redirect"
    case 308 => "Permanent Redirect"
    case 400 => "Bad Request"
    case 401 => "Unauthorized"
    case 403 => "Forbidden"
    case 404 => "Not Found"
    case 405 => "Method Not Allowed"
    case 408 => "Request Timeout"
    case 411 => "Length Required"
    case 413 => "Payload Too Large"
    case 414 => "URI Too Long"
    case 431 => "Request Header Fields Too Large"
    case 500 => "Internal Server Error"
    case 501 => "Not Implemented"
    case 502 => "Bad Gateway"
    case 503 => "Service Unavailable"
    case 505 => "HTTP Version Not Supported"
    case _ => "Status"
  }

  function Reason(status: u16): seq<byte> {
    Ascii(ReasonPhrase(status))
  }

  // ---- encoding ------------------------------------------------------------

  function PairBytes(h: Header): seq<byte> {
    StringBytes(Some(h.0)) + StringBytes(Some(h.1))
  }

  function PairsBytes(headers: seq<Header>): seq<byte> {
    if headers == [] then [] else PairBytes(headers[0]) + PairsBytes(headers[1..])
  }

  function HeadersPayload(resp: Response): seq<byte> {
    [SEND_HEADERS] + U16Bytes(resp.status) + StringBytes(Some(Reason(resp.status))) +
    U16Bytes(|resp.headers| % 0x1_0000) + PairsBytes(resp.headers)
  }

  function ChunkPayload(data: seq<byte>): (r: seq<byte>)
    requires |data| <= MAX_SEND_CHUNK
    ensures |r| == |data| + 4
  {
    [SEND_BODY_CHUNK] + U16Bytes(|data|) + data + [0]
  }

  function EndPayload(reuse: bool): (r: seq<byte>)
    ensures |r| == 2
  {
    [END_RESPONSE, if reuse then 1 else 0]
  }

  method EncodeSendHeaders(resp: Response) returns (msg: AjpMessage)
    ensures fresh(msg) && msg.payload == HeadersPayload(resp)
  {
    hide ReasonPhrase, StringBytes, U16Bytes;
    msg := new AjpMessage();
    msg.WriteU8(SEND_HEADERS);
    msg.WriteU16(resp.status);
    msg.WriteString(Some(Reason(resp.status)));
    msg.WriteU16(|resp.headers| % 0x1_0000);
    ghost var start := msg.payload;
    assert [] + [SEND_HEADERS] == [SEND_HEADERS];
    assert resp.headers[0..] == resp.headers;
    for i := 0 to |resp.headers|
      invariant msg.payload + PairsBytes(resp.headers[i..]) == start + PairsBytes(resp.headers)
    {
      var h := resp.headers[i];
      ghost var before := msg.payload;
      assert resp.headers[i..][1..] == resp.headers[i + 1..];
      msg.WriteString(Some(h.0));
      msg.WriteString(Some(h.1));
      ghost var others := PairsBytes(resp.headers[i + 1..]);
      assert msg.payload + others == before + (PairBytes(h) + others);
    }
    assert msg.payload + [] == msg.payload;
  }

  method EncodeSendBodyChunk(data: seq<byte>) returns (r: Result<AjpMessage, AjpError>)
    ensures |data| > MAX_SEND_CHUNK ==> r == Err(ChunkTooLong)
    ensures |data| <= MAX_SEND_CHUNK ==> r.Ok? && fresh(r.value) && r.value.payload == ChunkPayload(data)
  {
    if |data| > MAX_SEND_CHUNK {
      return Err(ChunkTooLong);
    }
    var msg := new AjpMessage();
    msg.WriteU8(SEND_BODY_CHUNK);
    msg.WriteU16(|data|);
    msg.WriteRaw(data);
    msg.WriteU8(0);
    r := Ok(msg);
  }

  method EncodeEndResponse(reuse: bool) returns (msg: AjpMessage)
    ensures fresh(msg) && msg.payload == EndPayload(reuse)
  {
    msg := new AjpMessage();
    msg.WriteU8(END_RESPONSE);
    msg.WriteU8(if reuse then 1 else 0);
  }

  /** The body cut into pieces of the largest chunk size. */
  function Chunks(body: seq<byte>): (r: seq<seq<byte>>)
    ensures forall i :: 0 <= i < |r| ==> 0 < |r[i]| <= MAX_SEND_CHUNK && (i + 1 < |r| ==> |r[i]| == MAX_SEND_CHUNK)
    ensures Concat(r) == body
  {
    if body == [] then []
    else if |body| <= MAX_SEND_CHUNK then
      assert Concat([body]) == body + Concat([]);
      [body]
    else
      var rest := Chunks(body[MAX_SEND_CHUNK..]);
      assert ([body[..MAX_SEND_CHUNK]] + rest)[1..] == rest;
      [body[..MAX_SEND_CHUNK]] + rest
  }

  /** No more packets than 8192 octets at a time need. */
  lemma {:induction false} ChunkCount(body: seq<byte>)
    ensures |Chunks(body)| == (|body| + 8191) / 8192
    decreases |body|
  {
    if |body| > MAX_SEND_CHUNK {
      ChunkCount(body[MAX_SEND_CHUNK..]);
    }
  }

  function Concat(pieces: seq<seq<byte>>): seq<byte> {
    if pieces == [] then [] else pieces[0] + Concat(pieces[1..])
  }

  function ChunkFrames(chunks: seq<seq<byte>>): seq<byte>
    requires forall i :: 0 <= i < |chunks| ==> |chunks[i]| <= MAX_SEND_CHUNK
  {
    if chunks == [] then [] else Frame(MAGIC_OUT, ChunkPayload(chunks[0])) + ChunkFrames(chunks[1..])
  }

  predicate Fits(resp: Response) {
    |HeadersPayload(resp)| <= MAX_PACKET_PAYLOAD
  }

  function ResponseBytes(resp: Response): seq<byte>
    requires Fits(resp)
  {
    Frame(MAGIC_OUT, HeadersPayload(resp)) + ChunkFrames(Chunks(resp.body)) + Frame(MAGIC_OUT, EndPayload(true))
  }

  /** Only the header packet can be too long; a chunk always fits its packet. */
  method WriteResponse(stream: Stream, resp: Response) returns (r: Result<(), AjpError>)
    modifies stream`outgoing
    ensures Fits(resp) ==> r == Ok(()) && stream.outgoing == old(stream.outgoing) + ResponseBytes(resp)
    ensures !Fits(resp) ==> r == Err(PayloadTooLong) && stream.outgoing == old(stream.outgoing)
  {
    hide HeadersPayload, Chunks, Frame, ChunkPayload, EndPayload;
    var msg := EncodeSendHeaders(resp);
    var _ :- msg.WriteTo(stream, MAGIC_OUT);
    ghost var start := stream.outgoing;
    ghost var chunks := Chunks(resp.body);
    var i := 0;
    ghost var k := 0;
    assert chunks[0..] == chunks && resp.body[0..] == resp.body;
    while i < |resp.body|
      invariant i <= |resp.body| && k <= |chunks|
      invariant chunks[k..] == Chunks(resp.body[i..])
      invariant stream.outgoing + ChunkFrames(chunks[k..]) == start + ChunkFrames(chunks)
    {
      var end := if |resp.body| - i <= MAX_SEND_CHUNK then |resp.body| else i + MAX_SEND_CHUNK;
      ghost var before := stream.outgoing;
      ChunksStep(resp.body, i, end);
      var chunk := EncodeSendBodyChunk(resp.body[i..end]);
      assert chunks[k] == resp.body[i..end];
      assert chunks[k..][1..] == chunks[k + 1..];
      var _ := chunk.value.WriteTo(stream, MAGIC_OUT);
      assert stream.outgoing + ChunkFrames(chunks[k + 1..]) == before + ChunkFrames(chunks[k..]);
      i := end;
      k := k + 1;
    }
    assert stream.outgoing + [] == stream.outgoing;
    var last := EncodeEndResponse(true);
    r := last.WriteTo(stream, MAGIC_OUT);
    assert stream.outgoing == old(stream.outgoing) + ResponseBytes(resp);
  }

  lemma ChunksStep(body: seq<byte>, i: nat, end: nat)
    requires i < end <= |body| && end == (if |body| - i <= MAX_SEND_CHUNK then |body| else i + MAX_SEND_CHUNK)
    ensures |body[i..end]| <= MAX_SEND_CHUNK
    ensures Chunks(body[i..]) == [body[i..end]] + Chunks(body[end..])
  {
    if |body| - i <= MAX_SEND_CHUNK {
      assert body[i..] == body[i..end] && body[end..] == [];
    } else {
      assert body[i..][MAX_SEND_CHUNK..] == body[end..] && body[i..][..MAX_SEND_CHUNK] == body[i..end];
    }
  }

  // ---- the proxy's reader --------------------------------------------------

  datatype Message =
    | SendHeaders(status: u16, reason: seq<byte>, headers: seq<Header>)
    | BodyChunk(data: seq<byte>)
    | EndResponse(reuse: bool)

  function TakePairs(s: seq<byte>, n: nat): Reading<seq<Header>>
    decreases n
  {
    if n == 0 then Got([], s)
    else
      var (name, s) :- TakeRequired(s);
      var (value, s) :- TakeRequired(s);
      var (others, s) :- TakePairs(s, n - 1);
      Got([(name, value)] + others, s)
  }

  function TakeHeaders(s: seq<byte>): Reading<Message> {
    var (status, s) :- TakeU16(s);
    var (reason, s) :- TakeRequired(s);
    var (n, s) :- TakeU16(s);
    var (headers, s) :- TakePairs(s, n);
    Got(SendHeaders(status, reason, headers), s)
  }

  function TakeChunk(s: seq<byte>): Reading<Message> {
    var (n, s) :- TakeU16(s);
    var (data, s) :- TakeBytes(s, n);
    var (nul, s) :- TakeU8(s);
    if nul != 0 then Failed(MissingNul, s) else Got(BodyChunk(data), s)
  }

  function TakeMessage(payload: seq<byte>): Reading<Message> {
    var (code, s) :- TakeU8(payload);
    if code == SEND_HEADERS then TakeHeaders(s)
    else if code == SEND_BODY_CHUNK then TakeChunk(s)
    else if code == END_RESPONSE then
      var (reuse, s) :- TakeU8(s);
      Got(EndResponse(reuse != 0), s)
    else Failed(WrongType, s)
  }

  /** Every message up to the end of the stream, each filling its packet. */
  function ReadAll(s: seq<byte>): Result<seq<Message>, AjpError>
    decreases |s|
  {
    match TakePacket(s, MAGIC_OUT)
    case Failed(e, _) => Err(e)
    case Got(None, _) => Ok([])
    case Got(Some(payload), rest) =>
      match TakeMessage(payload)
      case Failed(e, _) => Err(e)
      case Got(m, over) => if over != [] then Err(Leftover) else FirstThen([m], ReadAll(rest))
  }

  function FirstThen(first: seq<Message>, r: Result<seq<Message>, AjpError>): Result<seq<Message>, AjpError> {
    if r.Ok? then Ok(first + r.value) else r
  }

  lemma {:induction false} PairsTaken(headers: seq<Header>, rest: seq<byte>)
    requires Textual(headers)
    requires forall i :: 0 <= i < |headers| ==> |headers[i].0| < NULL_LENGTH && |headers[i].1| < NULL_LENGTH
    ensures TakePairs(PairsBytes(headers) + rest, |headers|) == Got(headers, rest)
    decreases |headers|
  {
    hide TakeRequired, StringBytes, Utf8.Valid;
    if headers == [] {
      assert [] + rest == rest;
    } else {
      var h := headers[0];
      var tail := PairsBytes(headers[1..]) + rest;
      var value := StringBytes(Some(h.1)) + tail;
      assert PairsBytes(headers) + rest == StringBytes(Some(h.0)) + value;
      StringTaken(Some(h.0), value);
      StringTaken(Some(h.1), tail);
      PairsTaken(headers[1..], rest);
      assert [h] + headers[1..] == headers;
    }
  }

  /** A payload that fits a packet holds only strings and counts that fit their prefixes. */
  lemma {:induction false} PairsSize(headers: seq<Header>)
    ensures |PairsBytes(headers)| >= 6 * |headers|
    ensures forall i :: 0 <= i < |headers| ==>
      |headers[i].0| <= |PairsBytes(headers)| - 6 && |headers[i].1| <= |PairsBytes(headers)| - 6
  {
    if headers != [] {
      PairsSize(headers[1..]);
      assert forall i :: 1 <= i < |headers| ==> headers[i] == headers[1..][i - 1];
    }
  }

  lemma ReasonSendable(status: u16)
    requires |Reason(status)| < NULL_LENGTH
    ensures Sendable(Reason(status))
  {
    hide ReasonPhrase;
    Utf8.AsciiValid(Reason(status));
  }

  lemma FieldsTaken(status: u16, reason: seq<byte>, headers: seq<Header>)
    requires Sendable(reason) && Textual(headers) && |headers| < 0x1_0000
    requires forall i :: 0 <= i < |headers| ==> |headers[i].0| < NULL_LENGTH && |headers[i].1| < NULL_LENGTH
    ensures TakeHeaders(U16Bytes(status) + (StringBytes(Some(reason)) + (U16Bytes(|headers|) + PairsBytes(headers)))) ==
            Got(SendHeaders(status, reason, headers), [])
  {
    hide TakeRequired, TakeU16, TakePairs, U16Bytes, StringBytes, PairsBytes, Utf8.Valid;
    var pairs := PairsBytes(headers);
    var count := U16Bytes(|headers|) + pairs;
    U16Taken(status, StringBytes(Some(reason)) + count);
    StringTaken(Some(reason), count);
    U16Taken(|headers|, pairs);
    PairsTaken(headers, []);
    assert pairs + [] == pairs;
  }

  lemma FittingSizes(resp: Response)
    requires Fits(resp)
    ensures |resp.headers| < 0x1_0000 && |Reason(resp.status)| < NULL_LENGTH
    ensures forall i :: 0 <= i < |resp.headers| ==>
      |resp.headers[i].0| < NULL_LENGTH && |resp.headers[i].1| < NULL_LENGTH
    ensures HeadersPayload(resp) == [SEND_HEADERS] +
      (U16Bytes(resp.status) + (StringBytes(Some(Reason(resp.status))) +
      (U16Bytes(|resp.headers|) + PairsBytes(resp.headers))))
  {
    hide Reason, PairsBytes, U16Bytes;
    PairsSize(resp.headers);
  }

  lemma HeadersTaken(resp: Response)
    requires Textual(resp.headers) && Fits(resp)
    ensures TakeMessage(HeadersPayload(resp)) == Got(SendHeaders(resp.status, Reason(resp.status), resp.headers), [])
  {
    hide Reason, TakeHeaders, U16Bytes, StringBytes, PairsBytes, HeadersPayload, Textual, Utf8.Valid;
    FittingSizes(resp);
    ReasonSendable(resp.status);
    FieldsTaken(resp.status, Reason(resp.status), resp.headers);
    U8Taken(SEND_HEADERS, HeadersPayload(resp)[1..]);
  }

  lemma ChunkTaken(data: seq<byte>)
    requires |data| <= MAX_SEND_CHUNK
    ensures TakeMessage(ChunkPayload(data)) == Got(BodyChunk(data), [])
  {
    hide TakeU16, U16Bytes;
    var tail := data + [0];
    assert ChunkPayload(data) == [SEND_BODY_CHUNK] + (U16Bytes(|data|) + tail);
    U8Taken(SEND_BODY_CHUNK, U16Bytes(|data|) + tail);
    U16Taken(|data|, tail);
    assert tail[..|data|] == data && tail[|data|..] == [0];
    U8Taken(0, []);
    assert [0] + [] == [0];
  }

  lemma EndTaken()
    ensures TakeMessage(EndPayload(true)) == Got(EndResponse(true), [])
  {
    assert EndPayload(true)[1..] == [1];
  }

  /** Reading one packet off the front of a stream. */
  lemma MessageRead(payload: seq<byte>, m: Message, rest: seq<byte>)
    requires |payload| <= MAX_PACKET_PAYLOAD && TakeMessage(payload) == Got(m, [])
    ensures ReadAll(Frame(MAGIC_OUT, payload) + rest) == FirstThen([m], ReadAll(rest))
  {
    hide Frame, TakePacket, TakeMessage;
    FrameReadsBack(MAGIC_OUT, payload, rest);
  }

  function ChunkMessages(chunks: seq<seq<byte>>): (r: seq<Message>)
    ensures |r| == |chunks| && forall i :: 0 <= i < |r| ==> r[i] == BodyChunk(chunks[i])
  {
    seq(|chunks|, i requires 0 <= i < |chunks| => BodyChunk(chunks[i]))
  }

  lemma FirstThenTwice(a: seq<Message>, b: seq<Message>, r: Result<seq<Message>, AjpError>)
    ensures FirstThen(a, FirstThen(b, r)) == FirstThen(a + b, r)
  {
    if r.Ok? {
      assert a + (b + r.value) == (a + b) + r.value;
    }
  }

  lemma {:induction false} ChunksRead(chunks: seq<seq<byte>>, rest: seq<byte>)
    requires forall i :: 0 <= i < |chunks| ==> |chunks[i]| <= MAX_SEND_CHUNK
    ensures ReadAll(ChunkFrames(chunks) + rest) == FirstThen(ChunkMessages(chunks), ReadAll(rest))
    decreases |chunks|
  {
    hide ReadAll, Frame, ChunkPayload;
    if chunks == [] {
      assert ChunkFrames(chunks) + rest == rest;
      assert ReadAll(rest).Ok? ==> [] + ReadAll(rest).value == ReadAll(rest).value;
    } else {
      var first := Frame(MAGIC_OUT, ChunkPayload(chunks[0]));
      var tail := ChunkFrames(chunks[1..]) + rest;
      assert ChunkFrames(chunks) + rest == first + tail;
      ChunkTaken(chunks[0]);
      MessageRead(ChunkPayload(chunks[0]), BodyChunk(chunks[0]), tail);
      ChunksRead(chunks[1..], rest);
      FirstThenTwice([BodyChunk(chunks[0])], ChunkMessages(chunks[1..]), ReadAll(rest));
      assert [BodyChunk(chunks[0])] + ChunkMessages(chunks[1..]) == ChunkMessages(chunks);
    }
  }

  /** What the proxy should see of a response. */
  function MessagesOf(resp: Response): seq<Message> {
    [SendHeaders(resp.status, Reason(resp.status), resp.headers)] + ChunkMessages(Chunks(resp.body)) +
    [EndResponse(true)]
  }

  /** Whenever a response can be written at all, the proxy reads back its status and ordered
      headers, the chunks of its body and the end of the response, and goes on after it. */
  lemma ResponseReadsBack(resp: Response, rest: seq<byte>)
    requires Textual(resp.headers) && Fits(resp)
    ensures ReadAll(ResponseBytes(resp) + rest) == FirstThen(MessagesOf(resp), ReadAll(rest))
  {
    hide ReadAll, Frame, HeadersPayload, Chunks, ChunkFrames, ChunkMessages, EndPayload, Reason, TakeMessage;
    var chunks := Chunks(resp.body);
    var head := SendHeaders(resp.status, Reason(resp.status), resp.headers);
    var end := Frame(MAGIC_OUT, EndPayload(true)) + rest;
    var body := ChunkFrames(chunks) + end;
    assert ResponseBytes(resp) + rest == Frame(MAGIC_OUT, HeadersPayload(resp)) + body;
    HeadersTaken(resp);
    MessageRead(HeadersPayload(resp), head, body);
    ChunksRead(chunks, end);
    EndTaken();
    MessageRead(EndPayload(true), EndResponse(true), rest);
    FirstThenTwice(ChunkMessages(chunks), [EndResponse(true)], ReadAll(rest));
    FirstThenTwice([head], ChunkMessages(chunks) + [EndResponse(true)], ReadAll(rest));
    assert [head] + (ChunkMessages(chunks) + [EndResponse(true)]) == MessagesOf(resp);
  }

  // ---- a whole connection --------------------------------------------------

  function Conversation(responses: seq<Response>): seq<byte>
    requires forall i :: 0 <= i < |responses| ==> Fits(responses[i])
  {
    if responses == [] then [] else ResponseBytes(responses[0]) + Conversation(responses[1..])
  }

  function MessagesOfAll(responses: seq<Response>): seq<Message> {
    if responses == [] then [] else MessagesOf(responses[0]) + MessagesOfAll(responses[1..])
  }

  /** The responses of a connection, written one after the other, read back as exactly their
      messages with nothing left over. */
  lemma {:induction false} ConversationReadsBack(responses: seq<Response>)
    requires forall i :: 0 <= i < |responses| ==> Fits(responses[i]) && Textual(responses[i].headers)
    ensures ReadAll(Conversation(responses)) == Ok(MessagesOfAll(responses))
  {
    hide Fits, ResponseBytes, MessagesOf, Textual;
    if responses != [] {
      ConversationReadsBack(responses[1..]);
      ResponseReadsBack(responses[0], Conversation(responses[1..]));
    }
  }

  /** The chunks a response is cut into hold its body and nothing else. */
  lemma BodyArrives(resp: Response)
    ensures var chunks := MessagesOf(resp)[1..|MessagesOf(resp)| - 1];
      |chunks| == |Chunks(resp.body)| && Concat(Chunks(resp.body)) == resp.body &&
      forall i :: 0 <= i < |chunks| ==>
        chunks[i] == BodyChunk(Chunks(resp.body)[i]) && 0 < |chunks[i].data| <= MAX_SEND_CHUNK
  {
    hide Reason, Chunks;
  }
}
