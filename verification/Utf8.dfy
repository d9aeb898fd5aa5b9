/** Well-formed UTF-8 (section 4 of RFC 3629), the type invariant of the program's strings. */
module Utf8 {
  import opened Bytes

  predicate Continuation(b: byte) {
    0x80 <= b <= 0xBF
  }

  /** The length of the well-formed character that starts `s`, or 0 when none does. */
  function CharLen(s: seq<byte>): (n: nat)
    ensures n <= 4 && n <= |s|
  {
    if |s| >= 1 && s[0] <= 0x7F then 1
    else if |s| >= 2 && 0xC2 <= s[0] <= 0xDF && Continuation(s[1]) then 2
    else if |s| >= 3 && Continuation(s[2]) && Second3(s[0], s[1]) then 3
    else if |s| >= 4 && Continuation(s[2]) && Continuation(s[3]) && Second4(s[0], s[1]) then 4
    else 0
  }

  predicate Second3(a: byte, b: byte) {
    (a == 0xE0 && 0xA0 <= b <= 0xBF) || (0xE1 <= a <= 0xEC && Continuation(b)) ||
    (a == 0xED && 0x80 <= b <= 0x9F) || (0xEE <= a <= 0xEF && Continuation(b))
  }

  predicate Second4(a: byte, b: byte) {
    (a == 0xF0 && 0x90 <= b <= 0xBF) || (0xF1 <= a <= 0xF3 && Continuation(b)) ||
    (a == 0xF4 && 0x80 <= b <= 0x8F)
  }

  predicate Valid(s: seq<byte>) {
    s == [] || (CharLen(s) > 0 && Valid(s[CharLen(s)..]))
  }

  lemma {:induction false} ValidConcat(a: seq<byte>, b: seq<byte>)
    requires Valid(a)
    ensures Valid(a + b) <==> Valid(b)
  {
    if a == [] {
      assert a + b == b;
    } else {
      var n := CharLen(a);
      assert CharLen(a + b) == n;
      assert (a + b)[n..] == a[n..] + b;
      ValidConcat(a[n..], b);
    }
  }

  predicate IsAscii(s: seq<byte>) {
    forall i :: 0 <= i < |s| ==> s[i] < 128
  }

  lemma {:induction false} AsciiValid(s: seq<byte>)
    requires IsAscii(s)
    ensures Valid(s)
  {
    if s != [] {
      AsciiValid(s[1..]);
    }
  }
}
