/** AJP/1.3 packets: a cursor that reads and writes length-prefixed fields, and framing. */
module AjpMessage {
  import opened Bytes
  import Utf8

  const MAX_PACKET_PAYLOAD: nat := 65535
  const NULL_LENGTH: nat := 0xFFFF
  const MAGIC_OUT: seq<byte> := [65, 66]

  datatype AjpError =
    | Truncated | MissingNul | NotUtf8 | NullString
    | PayloadTooLong | ChunkTooLong | UnexpectedEnd | BadMagic
    | WrongType | UnknownMethod | UnknownHeaderCode | UnknownAttribute | Leftover

  /** The outcome of reading a field off the front of some octets, and what it leaves unread. */
  datatype Reading<+T> = Failed(error: AjpError, rest: seq<byte>) | Got(value: T, rest: seq<byte>) {
    predicate IsFailure() {
      Failed?
    }

    function PropagateFailure<U>(): Reading<U>
      requires IsFailure()
    {
      Failed(error, rest)
    }

    function Extract(): (T, seq<byte>)
      requires !IsFailure()
    {
      (value, rest)
    }
  }

  // ---- fields --------------------------------------------------------------

  type u16 = n: int | 0 <= n < 0x1_0000

  function U16Bytes(n: u16): (r: seq<byte>)
    ensures |r| == 2
  {
    [n / 256, n % 256]
  }

  function BigEndian(high: byte, low: byte): u16 {
    256 * (high as int) + low as int
  }

  function TakeU8(s: seq<byte>): Reading<byte> {
    if s == [] then Failed(Truncated, s) else Got(s[0], s[1..])
  }

  function TakeU16(s: seq<byte>): Reading<u16> {
    if |s| < 2 then Failed(Truncated, s) else Got(BigEndian(s[0], s[1]), s[2..])
  }

  function TakeBytes(s: seq<byte>, n: nat): Reading<seq<byte>> {
    if |s| < n then Failed(Truncated, s) else Got(s[..n], s[n..])
  }

  /** A string as written: its length modulo 65536, its octets and a NUL; or the null marker. */
  function StringBytes(s: Option<seq<byte>>): seq<byte> {
    match s
    case None => U16Bytes(NULL_LENGTH)
    case Some(text) => U16Bytes(|text| % 0x1_0000) + text + [0]
  }

  /** Octets with a NUL after them, which must be text. */
  function TakeText(s: seq<byte>, n: nat): Reading<seq<byte>> {
    var (raw, s) :- TakeBytes(s, n);
    var (nul, s) :- TakeU8(s);
    if nul != 0 then Failed(MissingNul, s)
    else if !Utf8.Valid(raw) then Failed(NotUtf8, s)
    else Got(raw, s)
  }

  function TakeString(s: seq<byte>): Reading<Option<seq<byte>>> {
    var (len, s) :- TakeU16(s);
    if len == NULL_LENGTH then Got(None, s)
    else
      var (text, s) :- TakeText(s, len);
      Got(Some(text), s)
  }

  function TakeRequired(s: seq<byte>): Reading<seq<byte>> {
    var (text, s) :- TakeString(s);
    if text.None? then Failed(NullString, s) else Got(text.value, s)
  }

  lemma U16Taken(n: u16, rest: seq<byte>)
    ensures TakeU16(U16Bytes(n) + rest) == Got(n, rest)
  {
    assert (U16Bytes(n) + rest)[2..] == rest;
  }

  lemma U8Taken(b: byte, rest: seq<byte>)
    ensures TakeU8([b] + rest) == Got(b, rest)
  {
    assert ([b] + rest)[1..] == rest;
  }

  lemma TextTaken(text: seq<byte>, rest: seq<byte>)
    requires Utf8.Valid(text)
    ensures TakeText(text + [0] + rest, |text|) == Got(text, rest)
  {
    hide Utf8.Valid;
    var s := text + [0] + rest;
    assert s[..|text|] == text && s[|text|..] == [0] + rest;
    U8Taken(0, rest);
  }

  /** What a successful reading of text keeps of the input. */
  lemma TextLength(s: seq<byte>, n: nat)
    requires TakeText(s, n).Got?
    ensures n < |s| && TakeText(s, n) == Got(s[..n], s[n + 1..])
  {
    assert s[n..][1..] == s[n + 1..];
  }

  /** A string reads back exactly when it is shorter than the null marker; every longer one,
      wrapped or not, reads as something else. */
  lemma StringReadsBackIff(text: seq<byte>, rest: seq<byte>)
    requires Utf8.Valid(text)
    ensures TakeString(StringBytes(Some(text)) + rest) == Got(Some(text), rest) <==> |text| < NULL_LENGTH
  {
    hide Utf8.Valid, TakeText, TakeString, StringBytes;
    StringThen(text, rest);
    if |text| < NULL_LENGTH {
      TextTaken(text, rest);
    } else if |text| > NULL_LENGTH {
      WrappedTextIsShort(text, text + [0] + rest);
    }
  }

  lemma StringThen(text: seq<byte>, rest: seq<byte>)
    ensures var n := |text| % 0x1_0000;
      var body := TakeText(text + [0] + rest, n);
      TakeString(StringBytes(Some(text)) + rest) ==
        if n == NULL_LENGTH then Got(None, text + [0] + rest)
        else if body.Failed? then Failed(body.error, body.rest) else Got(Some(body.value), body.rest)
  {
    hide TakeText, TakeU16, U16Bytes;
    var n := |text| % 0x1_0000;
    assert StringBytes(Some(text)) + rest == U16Bytes(n) + (text + [0] + rest);
    U16Taken(n, text + [0] + rest);
  }

  lemma WrappedTextIsShort(text: seq<byte>, s: seq<byte>)
    requires |text| > NULL_LENGTH
    ensures var reading := TakeText(s, |text| % 0x1_0000); reading.Got? ==> reading.value != text
  {
    hide Utf8.Valid, TakeText;
    var n := |text| % 0x1_0000;
    if TakeText(s, n).Got? {
      TextLength(s, n);
      assert |s[..n]| == n;
    }
  }

  /** A string of 65535 octets reads as null, and its octets are left to be read as fields. */
  lemma LongStringReadsAsNull(text: seq<byte>, rest: seq<byte>)
    requires |text| == NULL_LENGTH
    ensures TakeString(StringBytes(Some(text)) + rest) == Got(None, text + [0] + rest)
  {
    hide U16Bytes, TakeU16;
    assert StringBytes(Some(text)) + rest == U16Bytes(NULL_LENGTH) + (text + [0] + rest);
    U16Taken(NULL_LENGTH, text + [0] + rest);
  }

  lemma NullReadsBack(rest: seq<byte>)
    ensures TakeString(StringBytes(None) + rest) == Got(None, rest)
  {
    U16Taken(NULL_LENGTH, rest);
  }

  predicate Sendable(text: seq<byte>) {
    Utf8.Valid(text) && |text| < NULL_LENGTH
  }

  predicate SendableOrNull(s: Option<seq<byte>>) {
    s.Some? ==> Sendable(s.value)
  }

  lemma StringTaken(s: Option<seq<byte>>, rest: seq<byte>)
    requires SendableOrNull(s)
    ensures TakeString(StringBytes(s) + rest) == Got(s, rest)
    ensures s.Some? ==> TakeRequired(StringBytes(s) + rest) == Got(s.value, rest)
  {
    hide TakeString, Utf8.Valid;
    match s
    case None => NullReadsBack(rest);
    case Some(text) => StringReadsBackIff(text, rest);
  }

  // ---- framing -------------------------------------------------------------

  function Frame(magic: seq<byte>, payload: seq<byte>): seq<byte>
    requires |payload| <= MAX_PACKET_PAYLOAD
  {
    magic + U16Bytes(|payload|) + payload
  }

  /** One packet off a stream that ends where `s` ends; nothing at a clean end.  A packet that
      is cut short takes the rest of the stream with it. */
  function TakePacket(s: seq<byte>, magic: seq<byte>): Reading<Option<seq<byte>>>
    requires |magic| == 2
  {
    if s == [] then Got(None, [])
    else if |s| < 4 then Failed(UnexpectedEnd, [])
    else if s[0] != magic[0] || s[1] != magic[1] then Failed(BadMagic, s[4..])
    else
      var len := BigEndian(s[2], s[3]);
      if |s| < 4 + len then Failed(UnexpectedEnd, [])
      else Got(Some(s[4..4 + len]), s[4 + len..])
  }

  /** A framed payload is read back, and the stream is left just after it. */
  lemma FrameReadsBack(magic: seq<byte>, payload: seq<byte>, rest: seq<byte>)
    requires |magic| == 2 && |payload| < 0x1_0000
    ensures TakePacket(Frame(magic, payload) + rest, magic) == Got(Some(payload), rest)
  {
    var s := Frame(magic, payload) + rest;
    assert s[2] == U16Bytes(|payload|)[0] && s[3] == U16Bytes(|payload|)[1];
    assert s[4..4 + |payload|] == payload && s[4 + |payload|..] == rest;
  }

  /** A transport: the octets still to arrive and those sent so far. */
  class Stream {
    var incoming: seq<byte>
    var outgoing: seq<byte>

    constructor (incoming: seq<byte>)
      ensures this.incoming == incoming && outgoing == []
    {
      this.incoming := incoming;
      outgoing := [];
    }

    /** Takes one octet; none at the end. */
    method ReadOne() returns (r: Option<byte>)
      modifies this`incoming
      ensures old(incoming) == [] ==> r == None && incoming == []
      ensures old(incoming) != [] ==> r == Some(old(incoming)[0]) && incoming == old(incoming)[1..]
    {
      if incoming == [] {
        return None;
      }
      r := Some(incoming[0]);
      incoming := incoming[1..];
    }

    /** Takes exactly `n` octets, or fails. */
    method ReadExact(n: nat) returns (r: Result<seq<byte>, AjpError>)
      modifies this`incoming
      ensures |old(incoming)| >= n ==> r == Ok(old(incoming)[..n]) && incoming == old(incoming)[n..]
      ensures |old(incoming)| < n ==> r == Err(UnexpectedEnd) && incoming == []
    {
      if |incoming| < n {
        incoming := [];
        return Err(UnexpectedEnd);
      }
      r := Ok(incoming[..n]);
      incoming := incoming[n..];
    }
  }

  /** A packet payload with a read position. */
  class AjpMessage {
    var payload: seq<byte>
    var pos: nat

    ghost predicate Valid()
      reads this
    {
      pos <= |payload|
    }

    ghost function Rest(): seq<byte>
      requires Valid()
      reads this
    {
      payload[pos..]
    }

    /** `r` and the new position are what `reading` of the old rest says. */
    ghost predicate Did<T>(r: Result<T, AjpError>, reading: Reading<T>)
      reads this
    {
      Valid() && Rest() == reading.rest &&
      match reading
      case Failed(e, _) => r == Err(e)
      case Got(v, _) => r == Ok(v)
    }

    constructor ()
      ensures Valid() && payload == [] && pos == 0
    {
      payload, pos := [], 0;
    }

    constructor FromPayload(payload: seq<byte>)
      ensures Valid() && this.payload == payload && pos == 0 && Rest() == payload
    {
      this.payload, pos := payload, 0;
    }

    method ReadU8() returns (r: Result<byte, AjpError>)
      requires Valid()
      modifies this`pos
      ensures Did(r, TakeU8(old(Rest())))
    {
      if pos >= |payload| {
        return Err(Truncated);
      }
      assert payload[pos..][1..] == payload[pos + 1..];
      r := Ok(payload[pos]);
      pos := pos + 1;
    }

    method ReadU16() returns (r: Result<u16, AjpError>)
      requires Valid()
      modifies this`pos
      ensures Did(r, TakeU16(old(Rest())))
    {
      if pos + 2 > |payload| {
        return Err(Truncated);
      }
      assert payload[pos..][2..] == payload[pos + 2..];
      r := Ok(BigEndian(payload[pos], payload[pos + 1]));
      pos := pos + 2;
    }

    method ReadBytes(n: nat) returns (r: Result<seq<byte>, AjpError>)
      requires Valid()
      modifies this`pos
      ensures Did(r, TakeBytes(old(Rest()), n))
    {
      if pos + n > |payload| {
        return Err(Truncated);
      }
      assert payload[pos..][..n] == payload[pos..pos + n] && payload[pos..][n..] == payload[pos + n..];
      r := Ok(payload[pos..pos + n]);
      pos := pos + n;
    }

    method ReadString() returns (r: Result<Option<seq<byte>>, AjpError>)
      requires Valid()
      modifies this`pos
      ensures Did(r, TakeString(old(Rest())))
    {
      hide Utf8.Valid;
      var len :- ReadU16();
      if len == NULL_LENGTH {
        return Ok(None);
      }
      var raw :- ReadBytes(len);
      var nul :- ReadU8();
      if nul != 0 {
        return Err(MissingNul);
      }
      if !Utf8.Valid(raw) {
        return Err(NotUtf8);
      }
      r := Ok(Some(raw));
    }

    method ReadRequiredString() returns (r: Result<seq<byte>, AjpError>)
      requires Valid()
      modifies this`pos
      ensures Did(r, TakeRequired(old(Rest())))
    {
      hide TakeString;
      var text :- ReadString();
      if text.None? {
        return Err(NullString);
      }
      r := Ok(text.value);
    }

    method WriteU8(b: byte)
      modifies this`payload
      ensures payload == old(payload) + [b]
    {
      payload := payload + [b];
    }

    method WriteU16(n: u16)
      modifies this`payload
      ensures payload == old(payload) + U16Bytes(n)
    {
      payload := payload + U16Bytes(n);
    }

    method WriteString(s: Option<seq<byte>>)
      modifies this`payload
      ensures payload == old(payload) + StringBytes(s)
    {
      match s
      case None => WriteU16(NULL_LENGTH);
      case Some(text) =>
        WriteU16(|text| % 0x1_0000);
        payload := payload + text;
        payload := payload + [0];
    }

    method WriteRaw(b: seq<byte>)
      modifies this`payload
      ensures payload == old(payload) + b
    {
      payload := payload + b;
    }

    method Encode(magic: seq<byte>) returns (r: Result<seq<byte>, AjpError>)
      requires |magic| == 2
      ensures r == if |payload| > MAX_PACKET_PAYLOAD then Err(PayloadTooLong) else Ok(Frame(magic, payload))
    {
      if |payload| > MAX_PACKET_PAYLOAD {
        return Err(PayloadTooLong);
      }
      var out := magic;
      out := out + U16Bytes(|payload|);
      out := out + payload;
      r := Ok(out);
    }

    /** Sends the framed payload, or sends nothing when it does not fit a packet. */
    method WriteTo(stream: Stream, magic: seq<byte>) returns (r: Result<(), AjpError>)
      requires |magic| == 2
      modifies stream`outgoing
      ensures |payload| > MAX_PACKET_PAYLOAD ==> r == Err(PayloadTooLong) && stream.outgoing == old(stream.outgoing)
      ensures |payload| <= MAX_PACKET_PAYLOAD ==>
        r == Ok(()) && stream.outgoing == old(stream.outgoing) + Frame(magic, payload)
    {
      var framed :- Encode(magic);
      stream.outgoing := stream.outgoing + framed;
      r := Ok(());
    }
  }

  /** Reads one packet off the stream; `None` when it ended before the packet. */
  method ReadFrom(stream: Stream, magic: seq<byte>) returns (r: Result<Option<AjpMessage>, AjpError>)
    requires |magic| == 2
    modifies stream`incoming
    ensures match TakePacket(old(stream.incoming), magic)
      case Failed(e, rest) => r == Err(e) && stream.incoming == rest
      case Got(None, rest) => r == Ok(None) && stream.incoming == rest
      case Got(Some(payload), rest) =>
        r.Ok? && r.value.Some? && fresh(r.value.value) && stream.incoming == rest &&
        r.value.value.Valid() && r.value.value.payload == payload && r.value.value.Rest() == payload
  {
    ghost var s := stream.incoming;
    var first := stream.ReadOne();
    if first.None? {
      return Ok(None);
    }
    var others :- stream.ReadExact(3);
    assert others == s[1..4] && stream.incoming == s[4..];
    var header := [first.value] + others;
    if header[0] != magic[0] || header[1] != magic[1] {
      return Err(BadMagic);
    }
    var len := BigEndian(header[2], header[3]);
    var payload := [];
    if len > 0 {
      payload :- stream.ReadExact(len);
    }
    assert payload == s[4..4 + len] && stream.incoming == s[4 + len..];
    var message := new AjpMessage.FromPayload(payload);
    r := Ok(Some(message));
  }
}
