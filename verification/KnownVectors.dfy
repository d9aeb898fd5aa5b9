/** Worked examples of the standards and of the repository's tests: they fix what no law about the
    model alone can, the tables and the order of octets. */
module KnownVectors {
  import opened Bytes
  import HpackTable
  import HpackIndex
  import HpackCodec
  import HpackInteger
  import AjpMessage
  import AjpRequest
  import AjpResponse
  import DefaultServlet
  import ChunkedRendering
  import Text
  import Calendar
  import HttpDate
  import ByteRanges
  import PercentCoding
  import UriNormalize

  // ---- HPACK ---------------------------------------------------------------

  /** Appendix C.1 of RFC 7541. */
  lemma Integers()
    ensures HpackInteger.Encoded(10, 5) == [10]
    ensures HpackInteger.Encoded(1337, 5) == [31, 154, 10]
    ensures HpackInteger.Encoded(42, 8) == [42]
  {
    HpackInteger.PrefixBounds(5);
    hide Pow2;
    assert HpackInteger.Groups(1306) == [154] + HpackInteger.Groups(10);
  }

  /** Indices that Appendix C of RFC 7541 and the tests use. */
  lemma StaticEntries()
    ensures var t := HpackIndex.StaticTable();
      && t[0] == HpackIndex.F(":authority", "") && t[1] == HpackIndex.F(":method", "GET")
      && t[3] == HpackIndex.F(":path", "/") && t[4] == HpackIndex.F(":path", "/index.html")
      && t[5] == HpackIndex.F(":scheme", "http") && t[6] == HpackIndex.F(":scheme", "https")
      && t[7] == HpackIndex.F(":status", "200") && t[23] == HpackIndex.F("cache-control", "")
      && t[32] == HpackIndex.F("date", "") && t[45] == HpackIndex.F("location", "")
      && t[54] == HpackIndex.F("set-cookie", "") && t[57] == HpackIndex.F("user-agent", "")
      && t[60] == HpackIndex.F("www-authenticate", "")
  {
    hide HpackIndex.F;
  }

  /** Appendix C.3.1: the size of an entry; C.2.4: an indexed field. */
  lemma EntryAndIndex()
    ensures HpackTable.EntrySize(HpackIndex.F(":authority", "www.example.com")) == 57
    ensures HpackCodec.IndexedField(2) == [0x82]
  {
    HpackInteger.PrefixBounds(7);
    hide Pow2;
  }

  // ---- AJP -----------------------------------------------------------------

  /** The tests' method codes. */
  lemma MethodCodes()
    ensures AjpRequest.MethodName(1) == Some(Ascii("OPTIONS")) && AjpRequest.MethodName(2) == Some(Ascii("GET"))
    ensures AjpRequest.MethodName(3) == Some(Ascii("HEAD")) && AjpRequest.MethodName(4) == Some(Ascii("POST"))
    ensures AjpRequest.MethodName(5) == Some(Ascii("PUT")) && AjpRequest.MethodName(6) == Some(Ascii("DELETE"))
    ensures AjpRequest.MethodName(27) == Some(Ascii("MKACTIVITY"))
    ensures AjpRequest.MethodName(0) == None && AjpRequest.MethodName(200) == None
  {
    hide Ascii;
  }

  /** The tests' header codes. */
  lemma HeaderCodes()
    ensures AjpRequest.CommonHeader(0x01) == Some(Ascii("accept"))
    ensures AjpRequest.CommonHeader(0x05) == Some(Ascii("authorization"))
    ensures AjpRequest.CommonHeader(0x08) == Some(Ascii("content-length"))
    ensures AjpRequest.CommonHeader(0x0B) == Some(Ascii("host"))
    ensures AjpRequest.CommonHeader(0x0E) == Some(Ascii("user-agent")) && AjpRequest.CommonHeader(0xFF) == None
  {
    hide Ascii;
  }

  /** Octets of the wire: the high octet of a number first, `AB` before a packet to the proxy. */
  lemma Wire()
    ensures AjpMessage.U16Bytes(0xBEEF) == [0xBE, 0xEF]
    ensures AjpMessage.StringBytes(Some([111, 107])) == [0, 2, 111, 107, 0]
    ensures AjpMessage.StringBytes(None) == [0xFF, 0xFF]
    ensures AjpMessage.Frame(AjpMessage.MAGIC_OUT, AjpResponse.EndPayload(true)) == [0x41, 0x42, 0, 2, 5, 1]
    ensures AjpResponse.ChunkPayload([97, 98, 99]) == [3, 0, 3, 97, 98, 99, 0]
  {
  }

  lemma Reasons()
    ensures AjpResponse.ReasonPhrase(200) == "OK" && AjpResponse.ReasonPhrase(304) == "Not Modified"
    ensures AjpResponse.ReasonPhrase(403) == "Forbidden" && AjpResponse.ReasonPhrase(404) == "Not Found"
    ensures AjpResponse.ReasonPhrase(500) == "Internal Server Error" && AjpResponse.ReasonPhrase(416) == "Status"
  {
  }

  // ---- HTTP ----------------------------------------------------------------

  lemma ExampleDay()
    ensures Calendar.CivilFromDays(9075) == Calendar.Date(1994, 11, 6, 0)
  {
    assert 9075 + 719_468 == 4 * 146_097 + 144_155;
    ExampleYear();
    ExampleMonth();
    hide Calendar.YearOfEra, Calendar.YearStart, Calendar.MonthPart, Calendar.MonthStart;
    assert (9075 + 719_468) / 146_097 == 4 && (9075 + 719_468) % 146_097 == 144_155;
  }

  lemma ExampleYear()
    ensures Calendar.YearOfEra(144_155) == 394 && Calendar.YearStart(394) == 143_905
  {
  }

  lemma ExampleMonth()
    ensures Calendar.MonthPart(250) == 8 && Calendar.MonthStart(8) == 245
  {
  }

  lemma TwoDigits(n: nat)
    requires n < 100
    ensures HttpDate.Padded(n, 2) == [48 + n / 10, 48 + n % 10]
  {
    if n < 10 {
      assert Text.DecText(n) == [48 + n];
    } else {
      assert Text.DecText(n) == Text.DecText(n / 10) + [48 + n % 10];
      assert Text.DecText(n / 10) == [48 + n / 10];
    }
  }

  lemma FourDigits()
    ensures HttpDate.Padded(1994, 4) == [49, 57, 57, 52]
  {
    assert Text.DecText(1) == [49];
    assert Text.DecText(19) == Text.DecText(1) + [57];
    assert Text.DecText(199) == Text.DecText(19) + [57];
    assert Text.DecText(1994) == Text.DecText(199) + [52];
    hide Text.DecText;
  }

  lemma ExampleClock()
    ensures HttpDate.Clock(31_777) == ([48, 56] + [58] + [52, 57] + [58] + [51, 55])
  {
    hide HttpDate.Padded;
    TwoDigits(8);
    TwoDigits(49);
    TwoDigits(37);
    assert 31_777 / 3600 == 8 && 31_777 % 3600 / 60 == 49 && 31_777 % 60 == 37;
  }

  lemma ExampleRendered()
    ensures HttpDate.Rendered(Calendar.Date(1994, 11, 6, 0), 31_777) ==
      Ascii("Sun") + [44] + [32] + [48, 54] + [32] + Ascii("Nov") + [32] + [49, 57, 57, 52] + [32] +
      ([48, 56] + [58] + [52, 57] + [58] + [51, 55]) + [32] + Ascii("GMT")
  {
    TwoDigits(6);
    FourDigits();
    ExampleClock();
    ExampleNames();
    hide HttpDate.Padded, HttpDate.WeekdayName, HttpDate.MonthName, HttpDate.Clock, Ascii, HttpDate.Triple;
  }

  /** The example of section 5.6.7 of RFC 9110: `Sun, 06 Nov 1994 08:49:37 GMT`. */
  lemma ExampleDate()
    ensures HttpDate.FormatImfFixdate(784_111_777) ==
      Ascii("Sun") + [44] + [32] + [48, 54] + [32] + Ascii("Nov") + [32] + [49, 57, 57, 52] + [32] +
      ([48, 56] + [58] + [52, 57] + [58] + [51, 55]) + [32] + Ascii("GMT")
  {
    hide HttpDate.Rendered, Calendar.CivilFromDays, Ascii;
    ExampleDay();
    ExampleRendered();
    assert 784_111_777 / 86_400 == 9075 && 784_111_777 % 86_400 == 31_777;
  }

  lemma ExampleNames()
    ensures HttpDate.WeekdayName(0) == Ascii("Sun") && HttpDate.MonthName(11) == Ascii("Nov")
    ensures HttpDate.Triple('G', 'M', 'T') == Ascii("GMT")
  {
    assert "Sun" == ['S', 'u', 'n'] && "Nov" == ['N', 'o', 'v'] && "GMT" == ['G', 'M', 'T'];
  }

  lemma ExampleTag()
    ensures DefaultServlet.WeakEtag(255, 16) == Ascii("W/") + [34] + Ascii("ff-10") + [34]
  {
  }

  lemma ExampleChunks()
    ensures ChunkedRendering.EncodeChunked(Ascii("Wiki")) == Ascii("4") + [13, 10] + Ascii("Wiki") + [13, 10] +
      Ascii("0") + [13, 10] + [13, 10]
  {
  }
}
