/** The program's strings as sequences of Unicode scalar values: well-formed UTF-8 is exactly their
    encoding, and trimming takes away exactly the characters with the White_Space property. */
module Unicode {
  import opened Bytes
  import opened Text
  import opened Utf8

  /** Every code point but the surrogates. */
  predicate Scalar(c: nat) {
    c < 0xD800 || 0xE000 <= c < 0x11_0000
  }

  type Scalars = cs: seq<nat> | forall i :: 0 <= i < |cs| ==> Scalar(cs[i])

  /** Section 3 of RFC 3629. */
  function Encode(c: nat): (r: seq<byte>)
    requires Scalar(c)
    ensures 1 <= |r| <= 4
  {
    if c < 0x80 then [c]
    else if c < 0x800 then [0xC0 + c / 64, 0x80 + c % 64]
    else if c < 0x1_0000 then [0xE0 + c / 4096, 0x80 + c / 64 % 64, 0x80 + c % 64]
    else [0xF0 + c / 262_144, 0x80 + c / 4096 % 64, 0x80 + c / 64 % 64, 0x80 + c % 64]
  }

  function EncodeAll(cs: Scalars): seq<byte> {
    if cs == [] then [] else Encode(cs[0]) + EncodeAll(cs[1..])
  }

  // ---- well-formed text ----------------------------------------------------

  lemma CharOfScalar(c: nat, rest: seq<byte>)
    requires Scalar(c)
    ensures CharLen(Encode(c) + rest) == |Encode(c)|
  {
    var s := Encode(c) + rest;
    assert s[0] == Encode(c)[0];
  }

  lemma ScalarOfChar(s: seq<byte>) returns (c: nat)
    requires CharLen(s) > 0
    ensures Scalar(c) && s[..CharLen(s)] == Encode(c)
  {
    var n := CharLen(s);
    if n == 1 {
      c := s[0];
    } else if n == 2 {
      var a: nat, b: nat := s[0] - 0xC0, s[1] - 0x80;
      c := 64 * a + b;
      TwoOctets(a, b);
    } else if n == 3 {
      var a: nat, b: nat, d: nat := s[0] - 0xE0, s[1] - 0x80, s[2] - 0x80;
      c := 4096 * a + 64 * b + d;
      ThreeOctets(a, b, d);
    } else {
      var a: nat, b: nat, d: nat, e: nat := s[0] - 0xF0, s[1] - 0x80, s[2] - 0x80, s[3] - 0x80;
      c := 262_144 * a + 4096 * b + 64 * d + e;
      FourOctets(a, b, d, e);
    }
  }

  lemma TwoOctets(a: nat, b: nat)
    requires 2 <= a < 32 && b < 64
    ensures Encode(64 * a + b) == [0xC0 + a, 0x80 + b]
  {
  }

  lemma ThreeOctets(a: nat, b: nat, c: nat)
    requires a < 16 && b < 64 && c < 64 && (a == 0 ==> b >= 32) && (a == 13 ==> b < 32)
    ensures Scalar(4096 * a + 64 * b + c)
    ensures Encode(4096 * a + 64 * b + c) == [0xE0 + a, 0x80 + b, 0x80 + c]
  {
    var n := 4096 * a + 64 * b + c;
    assert n / 64 == 64 * a + b;
  }

  lemma FourOctets(a: nat, b: nat, c: nat, d: nat)
    requires a <= 4 && b < 64 && c < 64 && d < 64 && (a == 0 ==> b >= 16) && (a == 4 ==> b < 16)
    ensures Scalar(262_144 * a + 4096 * b + 64 * c + d)
    ensures Encode(262_144 * a + 4096 * b + 64 * c + d) == [0xF0 + a, 0x80 + b, 0x80 + c, 0x80 + d]
  {
    var n := 262_144 * a + 4096 * b + 64 * c + d;
    assert n / 64 == 4096 * a + 64 * b + c;
    assert n / 4096 == 64 * a + b;
  }

  lemma {:induction false} EncodedIsValid(cs: Scalars)
    ensures Valid(EncodeAll(cs))
  {
    hide Encode, CharLen;
    if cs != [] {
      EncodedIsValid(cs[1..]);
      CharOfScalar(cs[0], EncodeAll(cs[1..]));
      assert EncodeAll(cs)[|Encode(cs[0])|..] == EncodeAll(cs[1..]);
    }
  }

  lemma {:induction false} ValidIsEncoded(s: seq<byte>) returns (cs: Scalars)
    requires Valid(s)
    ensures s == EncodeAll(cs)
    decreases |s|
  {
    hide Encode, CharLen;
    if s == [] {
      cs := [];
    } else {
      var c := ScalarOfChar(s);
      var rest := ValidIsEncoded(s[CharLen(s)..]);
      cs := [c] + rest;
      assert cs[1..] == rest;
    }
  }

  /** Octets are well-formed exactly when some scalar values encode to them. */
  lemma ValidIff(s: seq<byte>)
    ensures Valid(s) <==> exists cs: Scalars :: s == EncodeAll(cs)
  {
    if Valid(s) {
      var cs := ValidIsEncoded(s);
    }
    if cs: Scalars :| s == EncodeAll(cs) {
      EncodedIsValid(cs);
    }
  }

  // ---- trimming ------------------------------------------------------------

  predicate WhiteSpace(c: nat) {
    9 <= c <= 13 || c == 32 || c == 0x85 || c == 0xA0 || c == 0x1680 || 0x2000 <= c <= 0x200A || c == 0x2028 ||
    c == 0x2029 || c == 0x202F || c == 0x205F || c == 0x3000
  }

  function DropFront(cs: Scalars): Scalars {
    if cs != [] && WhiteSpace(cs[0]) then DropFront(cs[1..]) else cs
  }

  function DropBack(cs: Scalars): Scalars {
    if cs != [] && WhiteSpace(cs[|cs| - 1]) then DropBack(cs[..|cs| - 1]) else cs
  }

  lemma WhiteStarts(c: nat, rest: seq<byte>)
    requires Scalar(c)
    ensures WhiteAtStart(Encode(c) + rest) == if WhiteSpace(c) then |Encode(c)| else 0
  {
    var s := Encode(c) + rest;
    assert s[0] == Encode(c)[0];
    assert |Encode(c)| > 1 ==> s[1] == Encode(c)[1];
    assert |Encode(c)| > 2 ==> s[2] == Encode(c)[2];
  }

  lemma WhiteEnds(front: seq<byte>, c: nat)
    requires Scalar(c)
    ensures WhiteAtEnd(front + Encode(c)) == if WhiteSpace(c) then |Encode(c)| else 0
  {
    var s, e := front + Encode(c), Encode(c);
    assert s[|s| - 1] == e[|e| - 1];
    assert |e| > 1 ==> s[|s| - 2] == e[|e| - 2];
    assert |e| > 2 ==> s[|s| - 3] == e[|e| - 3];
  }

  lemma {:induction false} EncodeSnoc(cs: Scalars)
    requires cs != []
    ensures EncodeAll(cs) == EncodeAll(cs[..|cs| - 1]) + Encode(cs[|cs| - 1])
  {
    hide Encode;
    if |cs| > 1 {
      var front, last := cs[..|cs| - 1], cs[|cs| - 1];
      EncodeSnoc(cs[1..]);
      assert cs[1..][..|cs| - 2] == front[1..];
      assert EncodeAll(front) == Encode(cs[0]) + EncodeAll(front[1..]);
      hide EncodeAll, Scalar;
      Regroup(Encode(cs[0]), EncodeAll(front[1..]), Encode(last));
    } else {
      assert cs[1..] == [] && cs[..0] == [];
    }
  }

  lemma {:induction false} TrimStartMeaning(cs: Scalars)
    ensures TrimStart(EncodeAll(cs)) == EncodeAll(DropFront(cs))
  {
    hide Encode, WhiteAtStart, WhiteSpace;
    if cs != [] {
      WhiteStarts(cs[0], EncodeAll(cs[1..]));
      if WhiteSpace(cs[0]) {
        TrimStartMeaning(cs[1..]);
        assert EncodeAll(cs)[|Encode(cs[0])|..] == EncodeAll(cs[1..]);
      }
    } else {
      NoWhite();
    }
  }

  lemma NoWhite()
    ensures WhiteAtStart([]) == 0 && WhiteAtEnd([]) == 0
  {
  }

  lemma {:induction false} TrimEndMeaning(cs: Scalars)
    ensures TrimEnd(EncodeAll(cs)) == EncodeAll(DropBack(cs))
    decreases |cs|
  {
    hide Encode, WhiteAtEnd, WhiteSpace;
    if cs != [] {
      var front, last := cs[..|cs| - 1], cs[|cs| - 1];
      EncodeSnoc(cs);
      WhiteEnds(EncodeAll(front), last);
      if WhiteSpace(last) {
        TrimEndMeaning(front);
        assert EncodeAll(cs)[..|EncodeAll(front)|] == EncodeAll(front);
      }
    } else {
      NoWhite();
    }
  }

  /** Trimming text drops its white space at both ends and nothing else. */
  lemma TrimMeaning(cs: Scalars)
    ensures Trim(EncodeAll(cs)) == EncodeAll(DropBack(DropFront(cs)))
  {
    hide TrimStart, TrimEnd, EncodeAll;
    TrimStartMeaning(cs);
    TrimEndMeaning(DropFront(cs));
  }
}
