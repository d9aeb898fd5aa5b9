/** String literals (section 5.2 of RFC 7541): a length, then the octets, Huffman-coded when
    that is strictly shorter. */
module HpackString {
  import opened Bytes
  import opened HpackTable
  import HpackInteger
  import Huffman
  import HuffmanTable
  import Utf8

  ghost function Encoded(s: seq<byte>): (r: seq<byte>) {
    var t := HuffmanTable.Table();
    var huffLen := Huffman.EncodedLen(t, s);
    HpackInteger.PrefixBounds(7);
    if huffLen < |s| then HpackInteger.Flagged(0x80, huffLen, 7) + Huffman.Encoded(t, s)
    else HpackInteger.Flagged(0, |s|, 7) + s
  }

  ghost function Decoded(bytes: seq<byte>): (r: Result<(seq<byte>, nat), HpackError>)
    ensures r.Ok? ==> 1 <= r.value.1 <= |bytes|
  {
    if |bytes| == 0 then Err(Truncated)
    else
      match HpackInteger.Decode(bytes, 7)
      case Err(e) => Err(e)
      case Ok((len, start)) =>
        var end := start + len;
        if end > USIZE_MAX then Err(IntegerOverflow)
        else if end > |bytes| then Err(Truncated)
        else
          match Raw(bytes[0] >= 128, bytes[start..end])
          case Err(e) => Err(e)
          case Ok(raw) => if Utf8.Valid(raw) then Ok((raw, end)) else Err(InvalidUtf8)
  }

  ghost function Raw(huffman: bool, payload: seq<byte>): Result<seq<byte>, HpackError> {
    HuffmanTable.TableIsCode();
    if huffman then Huffman.Decoded(HuffmanTable.Table(), payload) else Ok(payload)
  }

  method EncodeString(s: seq<byte>) returns (out: seq<byte>)
    ensures out == Encoded(s)
  {
    hide HuffmanTable.Table, Huffman.IsCode, Huffman.Encoded, Huffman.EncodedLen;
    var t := HuffmanTable.Table();
    HuffmanTable.TableIsCode();
    HpackInteger.PrefixBounds(7);
    var huffLen := Huffman.ComputeEncodedLen(t, s);
    if huffLen < |s| {
      var prefix := HpackInteger.EncodeInteger(huffLen, 7);
      prefix := prefix[0 := prefix[0] + 0x80];
      assert prefix == HpackInteger.Flagged(0x80, huffLen, 7);
      var coded, held := Huffman.Encode(t, s);
      out := prefix + coded;
    } else {
      var prefix := HpackInteger.EncodeInteger(|s|, 7);
      assert prefix == HpackInteger.Flagged(0, |s|, 7);
      out := prefix + s;
    }
  }

  method DecodeString(bytes: seq<byte>) returns (r: Result<(seq<byte>, nat), HpackError>)
    ensures r == Decoded(bytes)
  {
    hide HuffmanTable.Table, Huffman.IsCode, Huffman.Decoded;
    HuffmanTable.TableIsCode();
    if |bytes| == 0 {
      return Err(Truncated);
    }
    var n := HpackInteger.DecodeInteger(bytes, 7);
    if n.Err? {
      return Err(n.error);
    }
    var (len, start) := n.value;
    var end := start + len;
    if end > USIZE_MAX {
      return Err(IntegerOverflow);
    }
    if end > |bytes| {
      return Err(Truncated);
    }
    var raw := bytes[start..end];
    if bytes[0] >= 128 {
      var decoded, held, kept := Huffman.Decode(HuffmanTable.Table(), raw);
      if decoded.Err? {
        return Err(decoded.error);
      }
      raw := decoded.value;
    }
    if !Utf8.Valid(raw) {
      return Err(InvalidUtf8);
    }
    r := Ok((raw, end));
  }

  /** A length prefix reads back, whatever follows. */
  lemma LengthRead(flags: nat, len: nat, rest: seq<byte>)
    requires (flags == 0 || flags == 0x80) && len <= USIZE_MAX
    ensures Pow2(7) == 128
    ensures var prefix := HpackInteger.Flagged(flags, len, 7);
      && HpackInteger.Decode(prefix + rest, 7) == Ok((len, |prefix|))
      && (prefix[0] >= 128 <==> flags == 0x80)
      && |prefix| <= 11
  {
    HpackInteger.PrefixBounds(7);
    HpackInteger.DecodeEncoded(flags, len, 7, rest);
    HpackInteger.DecodeMeaning(HpackInteger.Flagged(flags, len, 7) + rest, 7);
  }

  /** What decoding does once the length is read. */
  lemma AfterLength(flags: nat, len: nat, rest: seq<byte>)
    requires (flags == 0 || flags == 0x80) && len < LONGEST
    ensures Pow2(7) == 128
    ensures var prefix := HpackInteger.Flagged(flags, len, 7);
      var raw := Raw(flags == 0x80, rest[..Min(len, |rest|)]);
      Decoded(prefix + rest) ==
        if len > |rest| then Err(Truncated)
        else if raw.Err? then Err(raw.error)
        else if Utf8.Valid(raw.value) then Ok((raw.value, |prefix| + len)) else Err(InvalidUtf8)
  {
    hide HpackInteger.Flagged, HpackInteger.Decode, Raw, Utf8.Valid, Pow2;
    LengthRead(flags, len, rest);
    var prefix := HpackInteger.Flagged(flags, len, 7);
    var bytes := prefix + rest;
    if len <= |rest| {
      assert bytes[|prefix|..|prefix| + len] == rest[..len];
    }
  }

  /** No allocation of the program is this long. */
  const LONGEST: nat := 0x8000_0000_0000_0000

  /** The length announced for `s` is not the length of the Huffman form that follows it. */
  predicate Misannounced(s: seq<byte>) {
    var t := HuffmanTable.Table();
    Huffman.EncodedLen(t, s) < |s| && |Huffman.WordsOf(t, s)| >= 0x1_0000_0000
  }

  /** For every string and any octets after it: a string literal decodes to the string if and only
      if its length is not announced wrongly. */
  lemma DecodeEncodedIff(s: seq<byte>, rest: seq<byte>)
    requires Utf8.Valid(s) && |s| < LONGEST
    ensures Decoded(Encoded(s) + rest) == Ok((s, |Encoded(s)|)) <==> !Misannounced(s)
  {
    hide HuffmanTable.Table, Huffman.IsCode, Huffman.Encoded, Huffman.Decoded, Huffman.EncodedLen, Huffman.WordsOf,
      HpackInteger.Flagged, Decoded, Pow2, Utf8.Valid;
    var t := HuffmanTable.Table();
    HuffmanTable.TableIsCode();
    HpackInteger.PrefixBounds(7);
    Huffman.EncodedLenExactIff(t, s);
    Huffman.DecodeEncoded(t, s);
    var huffLen, coded := Huffman.EncodedLen(t, s), Huffman.Encoded(t, s);
    if huffLen < |s| {
      var prefix := HpackInteger.Flagged(0x80, huffLen, 7);
      assert prefix + coded + rest == prefix + (coded + rest);
      AfterLength(0x80, huffLen, coded + rest);
      if huffLen == |coded| {
        assert (coded + rest)[..huffLen] == coded;
      }
    } else {
      var prefix := HpackInteger.Flagged(0, |s|, 7);
      assert prefix + s + rest == prefix + (s + rest);
      AfterLength(0, |s|, s + rest);
      assert (s + rest)[..|s|] == s;
    }
  }

  /** The Huffman form is used exactly when it is shorter, so no string takes more octets than it
      has, besides its length. */
  lemma ShorterFormIsUsed(s: seq<byte>)
    requires !Misannounced(s)
    ensures Encoded(s) != []
    ensures var coded := |Huffman.Encoded(HuffmanTable.Table(), s)|;
      && (Encoded(s)[0] >= 128 <==> coded < |s|)
      && |Encoded(s)| == |HpackInteger.Encoded(Min(coded, |s|), 7)| + Min(coded, |s|)
  {
    hide HuffmanTable.Table, Huffman.Encoded, Huffman.EncodedLen, Huffman.WordsOf, HpackInteger.Encoded, Pow2;
    var t := HuffmanTable.Table();
    HpackInteger.PrefixBounds(7);
    Huffman.EncodedLenExactIff(t, s);
  }

  function Zeros(n: nat): (r: seq<byte>)
    ensures |r| == n && forall i :: 0 <= i < n ==> r[i] == 48
  {
    seq(n, _ => 48)
  }

  lemma {:induction false} ZerosTakeFiveBits(n: nat)
    ensures |Huffman.WordsOf(HuffmanTable.Table(), Zeros(n))| == 5 * n
  {
    hide HuffmanTable.Table;
    if n > 0 {
      HuffmanTable.ZeroWord();
      assert Zeros(n)[1..] == Zeros(n - 1);
      ZerosTakeFiveBits(n - 1);
    }
  }

  /** Such strings exist: 858 993 460 zero digits spell 4 294 967 300 bits, announced as one octet. */
  lemma LongStringIsMisannounced(rest: seq<byte>)
    ensures var s := Zeros(858_993_460);
      Utf8.Valid(s) && Misannounced(s) && Decoded(Encoded(s) + rest) != Ok((s, |Encoded(s)|))
  {
    hide HuffmanTable.Table, Huffman.WordsOf, Decoded, Encoded, Utf8.Valid, Zeros;
    var s := Zeros(858_993_460);
    ZerosTakeFiveBits(858_993_460);
    Utf8.AsciiValid(s);
    DecodeEncodedIff(s, rest);
  }

  /** Below 143 million octets no length is announced wrongly. */
  lemma ShortIsAnnounced(s: seq<byte>)
    requires 30 * |s| < 0x1_0000_0000
    ensures !Misannounced(s)
  {
    hide HuffmanTable.Table, Huffman.IsCode, Huffman.EncodedLen, Huffman.WordsOf;
    var t := HuffmanTable.Table();
    HuffmanTable.TableIsCode();
    Huffman.PartsOfCode(t);
    Huffman.WordsOfLength(t, s);
  }
}
