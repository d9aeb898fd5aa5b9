/** Octet by octet: what the manager writes for an octet, and what its decoder makes of every way
    to write one. */
module FormSpelling {
  import opened Bytes
  import opened Text
  import opened UriNormalize
  import opened UriRefusals
  import opened PercentCoding
  import Utf8

  // ---- writing -------------------------------------------------------------

  const PLAIN_OCTETS: seq<byte> :=
    Ascii("ABCDEFGHIJKLMNOPQRSTUVWXYZ") + Ascii("abcdefghijklmnopqrstuvwxyz") + Ascii("0123456789-_.~")

  lemma Ordered(s: string, first: byte, n: nat)
    requires n <= |s| && first + n <= 128
    requires forall i :: 0 <= i < n ==> s[i] as int == first + i
    ensures forall b: byte :: first <= b < first + n ==> b in Ascii(s)
    ensures forall i :: 0 <= i < n ==> first <= Ascii(s)[i] < first + n
  {
    forall b: byte | first <= b < first + n ensures b in Ascii(s) {
      assert Ascii(s)[b - first] == b;
    }
  }

  lemma CapitalOctets(b: byte)
    ensures b in Ascii("ABCDEFGHIJKLMNOPQRSTUVWXYZ") <==> 65 <= b <= 90
  {
    Ordered("ABCDEFGHIJKLMNOPQRSTUVWXYZ", 65, 26);
  }

  lemma SmallOctets(b: byte)
    ensures b in Ascii("abcdefghijklmnopqrstuvwxyz") <==> 97 <= b <= 122
  {
    Ordered("abcdefghijklmnopqrstuvwxyz", 97, 26);
  }

  lemma DigitOctets(b: byte)
    ensures b in Ascii("0123456789-_.~") <==> 48 <= b <= 57 || b == 45 || b == 95 || b == 46 || b == 126
  {
    var s := "0123456789-_.~";
    Ordered(s, 48, 10);
    assert s[10] as int == 45 && s[11] as int == 95 && s[12] as int == 46 && s[13] as int == 126;
    var octets := Ascii(s);
    assert octets[10] == 45 && octets[11] == 95 && octets[12] == 46 && octets[13] == 126;
  }

  lemma UnreservedIff(b: byte)
    ensures Unreserved(b) <==> b in PLAIN_OCTETS
  {
    CapitalOctets(b);
    SmallOctets(b);
    DigitOctets(b);
    hide Ascii;
  }

  /** The manager writes the plain octets as they are and every other one as two capital digits. */
  lemma OctetWritten(b: byte)
    ensures EncodedOctet(b) ==
      if b in PLAIN_OCTETS then [b] else [PERCENT, UPPER_DIGITS[b / 16], UPPER_DIGITS[b % 16]]
  {
    UnreservedIff(b);
    UpperDigit(b / 16);
    UpperDigit(b % 16);
    hide Ascii, Unreserved;
  }

  lemma UpperDigit(v: nat)
    requires v < 16
    ensures UpperHexDigit(v) == UPPER_DIGITS[v]
  {
    var upper := "0123456789ABCDEF";
    assert upper[v] as int == if v < 10 then 48 + v else 55 + v;
  }

  lemma {:induction false} EncodedConcat(a: seq<byte>, b: seq<byte>)
    ensures UrlEncoded(a + b) == UrlEncoded(a) + UrlEncoded(b)
  {
    hide EncodedOctet;
    if a == [] {
      assert a + b == b;
    } else {
      assert (a + b)[1..] == a[1..] + b;
      EncodedConcat(a[1..], b);
    }
  }

  // ---- reading -------------------------------------------------------------

  /** An octet as itself, escaped, or, for a blank, as a plus sign. */
  ghost predicate FormPiece(piece: seq<byte>, b: byte) {
    (piece == [b] && b != PERCENT && b != PLUS) || (piece == [PLUS] && b == SPACE) || EscapeOf(piece, b)
  }

  ghost predicate FormPieces(pieces: seq<seq<byte>>, d: seq<byte>) {
    |pieces| == |d| && forall i :: 0 <= i < |d| ==> FormPiece(pieces[i], d[i])
  }

  lemma PieceReads(piece: seq<byte>, b: byte, rest: seq<byte>)
    requires FormPiece(piece, b)
    ensures FormOctets(piece + rest) == [b] + FormOctets(rest)
  {
    EscapeValue(piece, b);
    hide HexValue, IsHex, EscapeOf;
    assert (piece + rest)[|piece|..] == rest;
  }

  /** However octets are written, they read back. */
  lemma {:induction false} PiecesRead(pieces: seq<seq<byte>>, d: seq<byte>, rest: seq<byte>)
    requires FormPieces(pieces, d)
    ensures FormOctets(UriRefusals.Flatten(pieces) + rest) == d + FormOctets(rest)
    decreases |d|
  {
    hide FormPiece, FormOctets;
    if d == [] {
      assert UriRefusals.Flatten(pieces) + rest == rest;
    } else {
      var tail := UriRefusals.Flatten(pieces[1..]);
      Regroup(pieces[0], tail, rest);
      PieceReads(pieces[0], d[0], tail + rest);
      PiecesRead(pieces[1..], d[1..], rest);
      Regroup([d[0]], d[1..], FormOctets(rest));
      assert [d[0]] + d[1..] == d;
    }
  }

  /** A percent sign that two digits do not follow stands for itself. */
  lemma BrokenEscapeStays(rest: seq<byte>)
    requires |rest| < 2 || !SomeDigit(rest[0]) || !SomeDigit(rest[1])
    ensures FormOctets([PERCENT] + rest) == [PERCENT] + FormOctets(rest)
  {
    var s := [PERCENT] + rest;
    if |rest| >= 2 {
      HexIff(rest[0]);
      HexIff(rest[1]);
    }
    hide IsHex, SomeDigit;
    assert s[1..] == rest;
  }

  /** Text written in any way is read; what is not text is taken as it is written. */
  lemma FormReads(pieces: seq<seq<byte>>, d: seq<byte>)
    requires FormPieces(pieces, d)
    ensures FormDecoded(UriRefusals.Flatten(pieces)) == if Utf8.Valid(d) then d else UriRefusals.Flatten(pieces)
  {
    hide FormPieces, FormOctets, Utf8.Valid;
    var s := UriRefusals.Flatten(pieces);
    PiecesRead(pieces, d, []);
    NothingRead();
    assert s + [] == s && d + [] == d;
  }

  lemma NothingRead()
    ensures FormOctets([]) == []
  {
  }

  // ---- queries -------------------------------------------------------------

  /** A name alone has the empty value; an empty piece is no parameter at all. */
  lemma NameAlone(name: seq<byte>)
    requires Utf8.Valid(name) && name != []
    ensures QueryOf(UrlEncoded(name)) == map[name := []]
    ensures QueryOf([]) == map[]
  {
    hide FormOctets, QueryOf;
    EncodedFormDecodes(name);
    NothingRead();
    OnePieceQuery(UrlEncoded(name));
    OnePieceQuery([]);
    EncodedFirst(name);
    NothingDecoded();
    hide UrlEncoded, FormDecoded, IndexOf;
  }

  lemma NothingDecoded()
    ensures FormDecoded([]) == []
  {
  }

  lemma EncodedFirst(s: seq<byte>)
    requires s != []
    ensures UrlEncoded(s) != [] && EQUALS !in UrlEncoded(s) && AMPERSAND !in UrlEncoded(s)
  {
  }
}
