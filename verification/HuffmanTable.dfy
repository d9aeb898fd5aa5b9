/** The Huffman code of Appendix B of RFC 7541, and the proof that it is a complete
    prefix code: listed by length and value, every word follows its predecessor. */
module HuffmanTable {
  import opened Bytes
  import opened Bits
  import opened Huffman

  // ---- Appendix B, sixteen symbols a row ------------------------------------

  function Symbols0(): seq<Code> {
    [ Code(0x1ff8, 13), Code(0x7fffd8, 23), Code(0xfffffe2, 28), Code(0xfffffe3, 28),
      Code(0xfffffe4, 28), Code(0xfffffe5, 28), Code(0xfffffe6, 28), Code(0xfffffe7, 28),
      Code(0xfffffe8, 28), Code(0xffffea, 24), Code(0x3ffffffc, 30), Code(0xfffffe9, 28),
      Code(0xfffffea, 28), Code(0x3ffffffd, 30), Code(0xfffffeb, 28), Code(0xfffffec, 28) ]
  }

  function Symbols1(): seq<Code> {
    [ Code(0xfffffed, 28), Code(0xfffffee, 28), Code(0xfffffef, 28), Code(0xffffff0, 28),
      Code(0xffffff1, 28), Code(0xffffff2, 28), Code(0x3ffffffe, 30), Code(0xffffff3, 28),
      Code(0xffffff4, 28), Code(0xffffff5, 28), Code(0xffffff6, 28), Code(0xffffff7, 28),
      Code(0xffffff8, 28), Code(0xffffff9, 28), Code(0xffffffa, 28), Code(0xffffffb, 28) ]
  }

  function Symbols2(): seq<Code> {
    [ Code(0x14, 6), Code(0x3f8, 10), Code(0x3f9, 10), Code(0xffa, 12),
      Code(0x1ff9, 13), Code(0x15, 6), Code(0xf8, 8), Code(0x7fa, 11),
      Code(0x3fa, 10), Code(0x3fb, 10), Code(0xf9, 8), Code(0x7fb, 11),
      Code(0xfa, 8), Code(0x16, 6), Code(0x17, 6), Code(0x18, 6) ]
  }

  function Symbols3(): seq<Code> {
    [ Code(0x0, 5), Code(0x1, 5), Code(0x2, 5), Code(0x19, 6),
      Code(0x1a, 6), Code(0x1b, 6), Code(0x1c, 6), Code(0x1d, 6),
      Code(0x1e, 6), Code(0x1f, 6), Code(0x5c, 7), Code(0xfb, 8),
      Code(0x7ffc, 15), Code(0x20, 6), Code(0xffb, 12), Code(0x3fc, 10) ]
  }

  function Symbols4(): seq<Code> {
    [ Code(0x1ffa, 13), Code(0x21, 6), Code(0x5d, 7), Code(0x5e, 7),
      Code(0x5f, 7), Code(0x60, 7), Code(0x61, 7), Code(0x62, 7),
      Code(0x63, 7), Code(0x64, 7), Code(0x65, 7), Code(0x66, 7),
      Code(0x67, 7), Code(0x68, 7), Code(0x69, 7), Code(0x6a, 7) ]
  }

  function Symbols5(): seq<Code> {
    [ Code(0x6b, 7), Code(0x6c, 7), Code(0x6d, 7), Code(0x6e, 7),
      Code(0x6f, 7), Code(0x70, 7), Code(0x71, 7), Code(0x72, 7),
      Code(0xfc, 8), Code(0x73, 7), Code(0xfd, 8), Code(0x1ffb, 13),
      Code(0x7fff0, 19), Code(0x1ffc, 13), Code(0x3ffc, 14), Code(0x22, 6) ]
  }

  function Symbols6(): seq<Code> {
    [ Code(0x7ffd, 15), Code(0x3, 5), Code(0x23, 6), Code(0x4, 5),
      Code(0x24, 6), Code(0x5, 5), Code(0x25, 6), Code(0x26, 6),
      Code(0x27, 6), Code(0x6, 5), Code(0x74, 7), Code(0x75, 7),
      Code(0x28, 6), Code(0x29, 6), Code(0x2a, 6), Code(0x7, 5) ]
  }

  function Symbols7(): seq<Code> {
    [ Code(0x2b, 6), Code(0x76, 7), Code(0x2c, 6), Code(0x8, 5),
      Code(0x9, 5), Code(0x2d, 6), Code(0x77, 7), Code(0x78, 7),
      Code(0x79, 7), Code(0x7a, 7), Code(0x7b, 7), Code(0x7ffe, 15),
      Code(0x7fc, 11), Code(0x3ffd, 14), Code(0x1ffd, 13), Code(0xffffffc, 28) ]
  }

  function Symbols8(): seq<Code> {
    [ Code(0xfffe6, 20), Code(0x3fffd2, 22), Code(0xfffe7, 20), Code(0xfffe8, 20),
      Code(0x3fffd3, 22), Code(0x3fffd4, 22), Code(0x3fffd5, 22), Code(0x7fffd9, 23),
      Code(0x3fffd6, 22), Code(0x7fffda, 23), Code(0x7fffdb, 23), Code(0x7fffdc, 23),
      Code(0x7fffdd, 23), Code(0x7fffde, 23), Code(0xffffeb, 24), Code(0x7fffdf, 23) ]
  }

  function Symbols9(): seq<Code> {
    [ Code(0xffffec, 24), Code(0xffffed, 24), Code(0x3fffd7, 22), Code(0x7fffe0, 23),
      Code(0xffffee, 24), Code(0x7fffe1, 23), Code(0x7fffe2, 23), Code(0x7fffe3, 23),
      Code(0x7fffe4, 23), Code(0x1fffdc, 21), Code(0x3fffd8, 22), Code(0x7fffe5, 23),
      Code(0x3fffd9, 22), Code(0x7fffe6, 23), Code(0x7fffe7, 23), Code(0xffffef, 24) ]
  }

  function Symbols10(): seq<Code> {
    [ Code(0x3fffda, 22), Code(0x1fffdd, 21), Code(0xfffe9, 20), Code(0x3fffdb, 22),
      Code(0x3fffdc, 22), Code(0x7fffe8, 23), Code(0x7fffe9, 23), Code(0x1fffde, 21),
      Code(0x7fffea, 23), Code(0x3fffdd, 22), Code(0x3fffde, 22), Code(0xfffff0, 24),
      Code(0x1fffdf, 21), Code(0x3fffdf, 22), Code(0x7fffeb, 23), Code(0x7fffec, 23) ]
  }

  function Symbols11(): seq<Code> {
    [ Code(0x1fffe0, 21), Code(0x1fffe1, 21), Code(0x3fffe0, 22), Code(0x1fffe2, 21),
      Code(0x7fffed, 23), Code(0x3fffe1, 22), Code(0x7fffee, 23), Code(0x7fffef, 23),
      Code(0xfffea, 20), Code(0x3fffe2, 22), Code(0x3fffe3, 22), Code(0x3fffe4, 22),
      Code(0x7ffff0, 23), Code(0x3fffe5, 22), Code(0x3fffe6, 22), Code(0x7ffff1, 23) ]
  }

  function Symbols12(): seq<Code> {
    [ Code(0x3ffffe0, 26), Code(0x3ffffe1, 26), Code(0xfffeb, 20), Code(0x7fff1, 19),
      Code(0x3fffe7, 22), Code(0x7ffff2, 23), Code(0x3fffe8, 22), Code(0x1ffffec, 25),
      Code(0x3ffffe2, 26), Code(0x3ffffe3, 26), Code(0x3ffffe4, 26), Code(0x7ffffde, 27),
      Code(0x7ffffdf, 27), Code(0x3ffffe5, 26), Code(0xfffff1, 24), Code(0x1ffffed, 25) ]
  }

  function Symbols13(): seq<Code> {
    [ Code(0x7fff2, 19), Code(0x1fffe3, 21), Code(0x3ffffe6, 26), Code(0x7ffffe0, 27),
      Code(0x7ffffe1, 27), Code(0x3ffffe7, 26), Code(0x7ffffe2, 27), Code(0xfffff2, 24),
      Code(0x1fffe4, 21), Code(0x1fffe5, 21), Code(0x3ffffe8, 26), Code(0x3ffffe9, 26),
      Code(0xffffffd, 28), Code(0x7ffffe3, 27), Code(0x7ffffe4, 27), Code(0x7ffffe5, 27) ]
  }

  function Symbols14(): seq<Code> {
    [ Code(0xfffec, 20), Code(0xfffff3, 24), Code(0xfffed, 20), Code(0x1fffe6, 21),
      Code(0x3fffe9, 22), Code(0x1fffe7, 21), Code(0x1fffe8, 21), Code(0x7ffff3, 23),
      Code(0x3fffea, 22), Code(0x3fffeb, 22), Code(0x1ffffee, 25), Code(0x1ffffef, 25),
      Code(0xfffff4, 24), Code(0xfffff5, 24), Code(0x3ffffea, 26), Code(0x7ffff4, 23) ]
  }

  function Symbols15(): seq<Code> {
    [ Code(0x3ffffeb, 26), Code(0x7ffffe6, 27), Code(0x3ffffec, 26), Code(0x3ffffed, 26),
      Code(0x7ffffe7, 27), Code(0x7ffffe8, 27), Code(0x7ffffe9, 27), Code(0x7ffffea, 27),
      Code(0x7ffffeb, 27), Code(0xffffffe, 28), Code(0x7ffffec, 27), Code(0x7ffffed, 27),
      Code(0x7ffffee, 27), Code(0x7ffffef, 27), Code(0x7fffff0, 27), Code(0x3ffffee, 26) ]
  }

  function Symbols16(): seq<Code> {
    [ Code(0x3fffffff, 30) ]
  }

  function Symbols(): (rows: seq<seq<Code>>)
    ensures |rows| == 17 && |rows[16]| == 1
    ensures forall j :: 0 <= j < 16 ==> |rows[j]| == 16
  {
    [ Symbols0(), Symbols1(), Symbols2(), Symbols3(), Symbols4(), Symbols5(),
      Symbols6(), Symbols7(), Symbols8(), Symbols9(), Symbols10(), Symbols11(),
      Symbols12(), Symbols13(), Symbols14(), Symbols15(), Symbols16() ]
  }

  /** The code word of a symbol, as the table lists it. */
  function CodeOf(sym: nat): Code
    requires sym <= EOS
  {
    Symbols()[sym / 16][sym % 16]
  }

  function Table(): (t: CodeTable)
    ensures |t| == EOS + 1
  {
    seq(EOS + 1, sym requires 0 <= sym <= EOS => CodeOf(sym))
  }

  // ---- canonical codes are complete prefix codes ---------------------------

  /** `b` is the word numbered right after `a`, lengthened by zeros. */
  predicate Follows(a: Code, b: Code) {
    5 <= a.length <= b.length <= 30 && b.code == Shl(a.code + 1, b.length - a.length)
  }

  ghost predicate Canonical(t: CodeTable, order: seq<nat>) {
    && |t| == |order| == EOS + 1
    && (forall r :: 0 <= r <= EOS ==> order[r] <= EOS)
    && t[order[0]] == Code(0, 5)
    && t[order[EOS]].code + 1 == Pow2(t[order[EOS]].length)
    && forall r :: 0 <= r < EOS ==> Follows(t[order[r]], t[order[r + 1]])
  }

  lemma {:induction false} ShlMonotone(a: nat, b: nat, n: nat)
    requires a <= b
    ensures Shl(a, n) <= Shl(b, n)
    ensures a < b ==> Shl(a, n) < Shl(b, n)
    ensures a <= Shl(a, n)
  {
    if n > 0 {
      ShlMonotone(a, b, n - 1);
    }
  }

  lemma {:induction false} ShlShl(a: nat, m: nat, n: nat)
    ensures Shl(Shl(a, m), n) == Shl(a, m + n)
  {
    if n > 0 {
      ShlShl(a, m, n - 1);
    }
  }

  lemma {:induction false} ShlPow2(m: nat, n: nat)
    ensures Shl(Pow2(m), n) == Pow2(m + n)
  {
    if n > 0 {
      ShlPow2(m, n - 1);
    }
  }

  lemma {:induction false} ShrShl(a: nat, low: nat, n: nat)
    requires low < Pow2(n)
    ensures Shr(Shl(a, n) + low, n) == a
  {
    if n > 0 {
      var v := Shl(a, n) + low;
      assert v / 2 == Shl(a, n - 1) + low / 2;
      ShrShl(a, low / 2, n - 1);
    }
  }

  /** A later word lies beyond everything an earlier word starts. */
  lemma {:induction false} LaterIsBeyond(t: CodeTable, order: seq<nat>, r: nat, s: nat)
    requires Canonical(t, order) && r < s <= EOS
    ensures var a, b := t[order[r]], t[order[s]];
      a.length <= b.length && Shl(a.code + 1, b.length - a.length) <= b.code
    decreases s
  {
    if r + 1 < s {
      LaterIsBeyond(t, order, r, s - 1);
      var a, m, b := t[order[r]], t[order[s - 1]], t[order[s]];
      assert Follows(m, b);
      ShlMonotone(Shl(a.code + 1, m.length - a.length), m.code + 1, b.length - m.length);
      ShlShl(a.code + 1, m.length - a.length, b.length - m.length);
    } else {
      assert Follows(t[order[r]], t[order[r + 1]]);
    }
  }

  lemma WordBound(t: CodeTable, order: seq<nat>, r: nat)
    requires Canonical(t, order) && r <= EOS
    ensures 5 <= t[order[r]].length <= 30 && t[order[r]].code < Pow2(t[order[r]].length)
  {
    var a, z := t[order[r]], t[order[EOS]];
    if r < EOS {
      assert Follows(t[order[r]], t[order[r + 1]]);
      LaterIsBeyond(t, order, r, EOS);
      if a.code >= Pow2(a.length) {
        ShlMonotone(Pow2(a.length), a.code + 1, z.length - a.length);
        ShlPow2(a.length, z.length - a.length);
      }
    } else {
      assert Follows(t[order[EOS - 1]], t[order[EOS]]);
    }
  }

  /** Two words in prefix relation: the longer one's leading bits spell the shorter one. */
  lemma PrefixMeansShr(a: Code, b: Code)
    requires a.code < Pow2(a.length) && b.code < Pow2(b.length)
    requires BitsOf(a.code, a.length) <= BitsOf(b.code, b.length)
    ensures a.length <= b.length && Shr(b.code, b.length - a.length) == a.code
  {
    var k := b.length - a.length;
    BitsOfSplit(b.code, a.length, k);
    assert BitsOf(Shr(b.code, k), a.length) == BitsOf(a.code, a.length);
    ShrBound(b.code, a.length, k);
    BitsOfInjective(Shr(b.code, k), a.code, a.length);
  }

  lemma {:induction false} ShrBound(v: nat, hi: nat, lo: nat)
    requires v < Pow2(hi + lo)
    ensures Shr(v, lo) < Pow2(hi)
  {
    if lo > 0 {
      ShrBound(v / 2, hi, lo - 1);
    }
  }

  lemma {:induction false} ShrMonotone(a: nat, b: nat, n: nat)
    requires a <= b
    ensures Shr(a, n) <= Shr(b, n)
  {
    if n > 0 {
      ShrMonotone(a / 2, b / 2, n - 1);
    }
  }

  lemma RanksPrefixFree(t: CodeTable, order: seq<nat>, r: nat, s: nat)
    requires Canonical(t, order) && r <= EOS && s <= EOS
    requires Word(t, order[r]) <= Word(t, order[s])
    ensures r == s
  {
    hide BitsOf, Pow2;
    var a, b := t[order[r]], t[order[s]];
    WordBound(t, order, r);
    WordBound(t, order, s);
    PrefixMeansShr(a, b);
    var k := b.length - a.length;
    if r < s {
      LaterIsBeyond(t, order, r, s);
      ShrMonotone(Shl(a.code + 1, k), b.code, k);
      Pow2Monotone(0, k);
      ShrShl(a.code + 1, 0, k);
    } else if s < r {
      LaterIsBeyond(t, order, s, r);
    }
  }

  /** Going through the words in order, some word must start any 30 bits. */
  lemma {:induction false} SomeWordStarts(t: CodeTable, order: seq<nat>, v: nat, r: nat) returns (s: nat)
    requires Canonical(t, order) && r <= EOS && v < Pow2(30)
    requires t[order[r]].length <= 30 && t[order[r]].code <= Shr(v, 30 - t[order[r]].length)
    ensures s <= EOS && 5 <= t[order[s]].length <= 30
    ensures Shr(v, 30 - t[order[s]].length) == t[order[s]].code
    decreases EOS - r
  {
    hide Pow2, Shr, Shl;
    WordBound(t, order, r);
    var a := t[order[r]];
    var front := Shr(v, 30 - a.length);
    if front == a.code {
      s := r;
    } else if r < EOS {
      var b := t[order[r + 1]];
      assert Follows(a, b);
      ShrBeyond(v, a.code + 1, 30 - b.length, b.length - a.length);
      s := SomeWordStarts(t, order, v, r + 1);
    } else {
      ShrBound(v, a.length, 30 - a.length);
      assert false;
    }
  }

  lemma {:induction false} ShrBeyond(v: nat, c: nat, low: nat, n: nat)
    requires c <= Shr(v, low + n)
    ensures Shl(c, n) <= Shr(v, low)
  {
    ShrShr(v, low, n);
    ShlBelow(Shr(v, low), c, n);
  }

  lemma {:induction false} ShrShr(v: nat, m: nat, n: nat)
    ensures Shr(v, m + n) == Shr(Shr(v, m), n)
  {
    if m > 0 {
      ShrShr(v / 2, m - 1, n);
    }
  }

  lemma {:induction false} ShlBelow(v: nat, c: nat, n: nat)
    requires c <= Shr(v, n)
    ensures Shl(c, n) <= v
  {
    if n > 0 {
      ShlBelow(v / 2, c, n - 1);
    }
  }

  lemma CanonicalIsComplete(t: CodeTable, order: seq<nat>)
    requires Canonical(t, order)
    ensures Complete(t)
  {
    hide BitsOf, Pow2, Shr, Shl;
    forall bits: Bits | |bits| >= 30 ensures HasWord(t, bits) {
      var front := bits[..30];
      ToNatBound(front);
      BitsOfToNat(front);
      var s := SomeWordStarts(t, order, ToNat(front), 0);
      var length := t[order[s]].length;
      BitsOfSplit(ToNat(front), length, 30 - length);
      assert Word(t, order[s]) == front[..length] == bits[..length];
      assert Starts(t, order[s], bits);
    }
  }

  ghost function Below(n: nat): (r: set<nat>)
    ensures forall k: nat :: k in r <==> k < n
    ensures |r| == n
  {
    if n == 0 then {} else Below(n - 1) + {n - 1}
  }

  ghost function Elements(s: seq<nat>): (r: set<nat>)
    ensures forall k: nat :: k in r <==> k in s
  {
    set k | k in s
  }

  lemma {:induction false} DistinctElements(s: seq<nat>)
    requires forall i, j :: 0 <= i < j < |s| ==> s[i] != s[j]
    ensures |Elements(s)| == |s|
  {
    if s != [] {
      var front, last := s[..|s| - 1], s[|s| - 1];
      DistinctElements(front);
      assert s == front + [last] && last !in front;
      assert Elements(s) == Elements(front) + {last};
    }
  }

  lemma {:induction false} SubsetSize(a: set<nat>, b: set<nat>)
    requires a <= b
    ensures |a| <= |b|
  {
    if x :| x in a {
      SubsetSize(a - {x}, b - {x});
    }
  }

  /** Distinct numbers below `n`, as many as `n`, are all of them. */
  lemma AllNumbersAppear(s: seq<nat>, n: nat, k: nat)
    requires |s| == n && k < n
    requires forall i :: 0 <= i < |s| ==> s[i] < n
    requires forall i, j :: 0 <= i < j < |s| ==> s[i] != s[j]
    ensures k in s
  {
    if k !in s {
      DistinctElements(s);
      assert Elements(s) <= Below(n) - {k};
      SubsetSize(Elements(s), Below(n) - {k});
    }
  }

  lemma RanksDistinct(t: CodeTable, order: seq<nat>)
    requires Canonical(t, order)
    ensures forall i, j :: 0 <= i < j < |order| ==> order[i] != order[j]
  {
    forall i, j | 0 <= i < j < |order| ensures order[i] != order[j] {
      LaterIsBeyond(t, order, i, j);
    }
  }

  /** A table whose words, in order, follow one another from 0 to all ones is a prefix code. */
  lemma CanonicalIsPrefixFree(t: CodeTable, order: seq<nat>)
    requires Canonical(t, order)
    ensures WellSized(t) && PrefixFree(t)
  {
    hide Word, Pow2;
    RanksDistinct(t, order);
    forall sym | 0 <= sym < |t|
      ensures 5 <= t[sym].length <= 30 && t[sym].code < Pow2(t[sym].length)
    {
      AllNumbersAppear(order, EOS + 1, sym);
      var r :| 0 <= r < |order| && order[r] == sym;
      WordBound(t, order, r);
    }
    forall a, b | 0 <= a < |t| && 0 <= b < |t| && Word(t, a) <= Word(t, b) ensures a == b {
      AllNumbersAppear(order, EOS + 1, a);
      AllNumbersAppear(order, EOS + 1, b);
      var r :| 0 <= r < |order| && order[r] == a;
      var s :| 0 <= s < |order| && order[s] == b;
      RanksPrefixFree(t, order, r, s);
    }
  }

  /** Only the last word is all ones. */
  lemma CanonicalPadding(t: CodeTable, order: seq<nat>)
    requires Canonical(t, order) && t[order[EOS]].length > 8
    ensures PaddingIsNoWord(t)
  {
    hide BitsOf, Shl;
    RanksDistinct(t, order);
    forall sym | 0 <= sym < |t| && AllOnes(Word(t, sym)) ensures |Word(t, sym)| > 8 {
      AllNumbersAppear(order, EOS + 1, sym);
      var r :| 0 <= r < |order| && order[r] == sym;
      var a, z := t[sym], t[order[EOS]];
      WordBound(t, order, r);
      WordBound(t, order, EOS);
      AllOnesIsMask(a.code, a.length);
      MaskNoop(a.code, a.length);
      if r < EOS {
        LaterIsBeyond(t, order, r, EOS);
        ShlPow2(a.length, z.length - a.length);
      }
    }
  }

  // ---- the concrete table --------------------------------------------------

  /** A stretch of the table in rank order: by length of the word, then by its value. */
  datatype Ranked =
    | Last(sym: nat, code: nat, length: nat)
    | Then(sym: nat, code: nat, length: nat, rest: Ranked)

  function Row0(): Ranked {
    Then(48, 0x0, 5, Then(49, 0x1, 5, Then(50, 0x2, 5, Then(97, 0x3, 5,
    Then(99, 0x4, 5, Then(101, 0x5, 5, Then(105, 0x6, 5, Then(111, 0x7, 5,
    Last(115, 0x8, 5)))))))))
  }

  function Row1(): Ranked {
    Then(115, 0x8, 5, Then(116, 0x9, 5, Then(32, 0x14, 6, Then(37, 0x15, 6,
    Then(45, 0x16, 6, Then(46, 0x17, 6, Then(47, 0x18, 6, Then(51, 0x19, 6,
    Last(52, 0x1a, 6)))))))))
  }

  function Row2(): Ranked {
    Then(52, 0x1a, 6, Then(53, 0x1b, 6, Then(54, 0x1c, 6, Then(55, 0x1d, 6,
    Then(56, 0x1e, 6, Then(57, 0x1f, 6, Then(61, 0x20, 6, Then(65, 0x21, 6,
    Last(95, 0x22, 6)))))))))
  }

  function Row3(): Ranked {
    Then(95, 0x22, 6, Then(98, 0x23, 6, Then(100, 0x24, 6, Then(102, 0x25, 6,
    Then(103, 0x26, 6, Then(104, 0x27, 6, Then(108, 0x28, 6, Then(109, 0x29, 6,
    Last(110, 0x2a, 6)))))))))
  }

  function Row4(): Ranked {
    Then(110, 0x2a, 6, Then(112, 0x2b, 6, Then(114, 0x2c, 6, Then(117, 0x2d, 6,
    Then(58, 0x5c, 7, Then(66, 0x5d, 7, Then(67, 0x5e, 7, Then(68, 0x5f, 7,
    Last(69, 0x60, 7)))))))))
  }

  function Row5(): Ranked {
    Then(69, 0x60, 7, Then(70, 0x61, 7, Then(71, 0x62, 7, Then(72, 0x63, 7,
    Then(73, 0x64, 7, Then(74, 0x65, 7, Then(75, 0x66, 7, Then(76, 0x67, 7,
    Last(77, 0x68, 7)))))))))
  }

  function Row6(): Ranked {
    Then(77, 0x68, 7, Then(78, 0x69, 7, Then(79, 0x6a, 7, Then(80, 0x6b, 7,
    Then(81, 0x6c, 7, Then(82, 0x6d, 7, Then(83, 0x6e, 7, Then(84, 0x6f, 7,
    Last(85, 0x70, 7)))))))))
  }

  function Row7(): Ranked {
    Then(85, 0x70, 7, Then(86, 0x71, 7, Then(87, 0x72, 7, Then(89, 0x73, 7,
    Then(106, 0x74, 7, Then(107, 0x75, 7, Then(113, 0x76, 7, Then(118, 0x77, 7,
    Last(119, 0x78, 7)))))))))
  }

  function Row8(): Ranked {
    Then(119, 0x78, 7, Then(120, 0x79, 7, Then(121, 0x7a, 7, Then(122, 0x7b, 7,
    Then(38, 0xf8, 8, Then(42, 0xf9, 8, Then(44, 0xfa, 8, Then(59, 0xfb, 8,
    Last(88, 0xfc, 8)))))))))
  }

  function Row9(): Ranked {
    Then(88, 0xfc, 8, Then(90, 0xfd, 8, Then(33, 0x3f8, 10, Then(34, 0x3f9, 10,
    Then(40, 0x3fa, 10, Then(41, 0x3fb, 10, Then(63, 0x3fc, 10, Then(39, 0x7fa, 11,
    Last(43, 0x7fb, 11)))))))))
  }

  function Row10(): Ranked {
    Then(43, 0x7fb, 11, Then(124, 0x7fc, 11, Then(35, 0xffa, 12, Then(62, 0xffb, 12,
    Then(0, 0x1ff8, 13, Then(36, 0x1ff9, 13, Then(64, 0x1ffa, 13, Then(91, 0x1ffb, 13,
    Last(93, 0x1ffc, 13)))))))))
  }

  function Row11(): Ranked {
    Then(93, 0x1ffc, 13, Then(126, 0x1ffd, 13, Then(94, 0x3ffc, 14, Then(125, 0x3ffd, 14,
    Then(60, 0x7ffc, 15, Then(96, 0x7ffd, 15, Then(123, 0x7ffe, 15, Then(92, 0x7fff0, 19,
    Last(195, 0x7fff1, 19)))))))))
  }

  function Row12(): Ranked {
    Then(195, 0x7fff1, 19, Then(208, 0x7fff2, 19, Then(128, 0xfffe6, 20, Then(130, 0xfffe7, 20,
    Then(131, 0xfffe8, 20, Then(162, 0xfffe9, 20, Then(184, 0xfffea, 20, Then(194, 0xfffeb, 20,
    Last(224, 0xfffec, 20)))))))))
  }

  function Row13(): Ranked {
    Then(224, 0xfffec, 20, Then(226, 0xfffed, 20, Then(153, 0x1fffdc, 21, Then(161, 0x1fffdd, 21,
    Then(167, 0x1fffde, 21, Then(172, 0x1fffdf, 21, Then(176, 0x1fffe0, 21, Then(177, 0x1fffe1, 21,
    Last(179, 0x1fffe2, 21)))))))))
  }

  function Row14(): Ranked {
    Then(179, 0x1fffe2, 21, Then(209, 0x1fffe3, 21, Then(216, 0x1fffe4, 21, Then(217, 0x1fffe5, 21,
    Then(227, 0x1fffe6, 21, Then(229, 0x1fffe7, 21, Then(230, 0x1fffe8, 21, Then(129, 0x3fffd2, 22,
    Last(132, 0x3fffd3, 22)))))))))
  }

  function Row15(): Ranked {
    Then(132, 0x3fffd3, 22, Then(133, 0x3fffd4, 22, Then(134, 0x3fffd5, 22, Then(136, 0x3fffd6, 22,
    Then(146, 0x3fffd7, 22, Then(154, 0x3fffd8, 22, Then(156, 0x3fffd9, 22, Then(160, 0x3fffda, 22,
    Last(163, 0x3fffdb, 22)))))))))
  }

  function Row16(): Ranked {
    Then(163, 0x3fffdb, 22, Then(164, 0x3fffdc, 22, Then(169, 0x3fffdd, 22, Then(170, 0x3fffde, 22,
    Then(173, 0x3fffdf, 22, Then(178, 0x3fffe0, 22, Then(181, 0x3fffe1, 22, Then(185, 0x3fffe2, 22,
    Last(186, 0x3fffe3, 22)))))))))
  }

  function Row17(): Ranked {
    Then(186, 0x3fffe3, 22, Then(187, 0x3fffe4, 22, Then(189, 0x3fffe5, 22, Then(190, 0x3fffe6, 22,
    Then(196, 0x3fffe7, 22, Then(198, 0x3fffe8, 22, Then(228, 0x3fffe9, 22, Then(232, 0x3fffea, 22,
    Last(233, 0x3fffeb, 22)))))))))
  }

  function Row18(): Ranked {
    Then(233, 0x3fffeb, 22, Then(1, 0x7fffd8, 23, Then(135, 0x7fffd9, 23, Then(137, 0x7fffda, 23,
    Then(138, 0x7fffdb, 23, Then(139, 0x7fffdc, 23, Then(140, 0x7fffdd, 23, Then(141, 0x7fffde, 23,
    Last(143, 0x7fffdf, 23)))))))))
  }

  function Row19(): Ranked {
    Then(143, 0x7fffdf, 23, Then(147, 0x7fffe0, 23, Then(149, 0x7fffe1, 23, Then(150, 0x7fffe2, 23,
    Then(151, 0x7fffe3, 23, Then(152, 0x7fffe4, 23, Then(155, 0x7fffe5, 23, Then(157, 0x7fffe6, 23,
    Last(158, 0x7fffe7, 23)))))))))
  }

  function Row20(): Ranked {
    Then(158, 0x7fffe7, 23, Then(165, 0x7fffe8, 23, Then(166, 0x7fffe9, 23, Then(168, 0x7fffea, 23,
    Then(174, 0x7fffeb, 23, Then(175, 0x7fffec, 23, Then(180, 0x7fffed, 23, Then(182, 0x7fffee, 23,
    Last(183, 0x7fffef, 23)))))))))
  }

  function Row21(): Ranked {
    Then(183, 0x7fffef, 23, Then(188, 0x7ffff0, 23, Then(191, 0x7ffff1, 23, Then(197, 0x7ffff2, 23,
    Then(231, 0x7ffff3, 23, Then(239, 0x7ffff4, 23, Then(9, 0xffffea, 24, Then(142, 0xffffeb, 24,
    Last(144, 0xffffec, 24)))))))))
  }

  function Row22(): Ranked {
    Then(144, 0xffffec, 24, Then(145, 0xffffed, 24, Then(148, 0xffffee, 24, Then(159, 0xffffef, 24,
    Then(171, 0xfffff0, 24, Then(206, 0xfffff1, 24, Then(215, 0xfffff2, 24, Then(225, 0xfffff3, 24,
    Last(236, 0xfffff4, 24)))))))))
  }

  function Row23(): Ranked {
    Then(236, 0xfffff4, 24, Then(237, 0xfffff5, 24, Then(199, 0x1ffffec, 25, Then(207, 0x1ffffed, 25,
    Then(234, 0x1ffffee, 25, Then(235, 0x1ffffef, 25, Then(192, 0x3ffffe0, 26, Then(193, 0x3ffffe1, 26,
    Last(200, 0x3ffffe2, 26)))))))))
  }

  function Row24(): Ranked {
    Then(200, 0x3ffffe2, 26, Then(201, 0x3ffffe3, 26, Then(202, 0x3ffffe4, 26, Then(205, 0x3ffffe5, 26,
    Then(210, 0x3ffffe6, 26, Then(213, 0x3ffffe7, 26, Then(218, 0x3ffffe8, 26, Then(219, 0x3ffffe9, 26,
    Last(238, 0x3ffffea, 26)))))))))
  }

  function Row25(): Ranked {
    Then(238, 0x3ffffea, 26, Then(240, 0x3ffffeb, 26, Then(242, 0x3ffffec, 26, Then(243, 0x3ffffed, 26,
    Then(255, 0x3ffffee, 26, Then(203, 0x7ffffde, 27, Then(204, 0x7ffffdf, 27, Then(211, 0x7ffffe0, 27,
    Last(212, 0x7ffffe1, 27)))))))))
  }

  function Row26(): Ranked {
    Then(212, 0x7ffffe1, 27, Then(214, 0x7ffffe2, 27, Then(221, 0x7ffffe3, 27, Then(222, 0x7ffffe4, 27,
    Then(223, 0x7ffffe5, 27, Then(241, 0x7ffffe6, 27, Then(244, 0x7ffffe7, 27, Then(245, 0x7ffffe8, 27,
    Last(246, 0x7ffffe9, 27)))))))))
  }

  function Row27(): Ranked {
    Then(246, 0x7ffffe9, 27, Then(247, 0x7ffffea, 27, Then(248, 0x7ffffeb, 27, Then(250, 0x7ffffec, 27,
    Then(251, 0x7ffffed, 27, Then(252, 0x7ffffee, 27, Then(253, 0x7ffffef, 27, Then(254, 0x7fffff0, 27,
    Last(2, 0xfffffe2, 28)))))))))
  }

  function Row28(): Ranked {
    Then(2, 0xfffffe2, 28, Then(3, 0xfffffe3, 28, Then(4, 0xfffffe4, 28, Then(5, 0xfffffe5, 28,
    Then(6, 0xfffffe6, 28, Then(7, 0xfffffe7, 28, Then(8, 0xfffffe8, 28, Then(11, 0xfffffe9, 28,
    Last(12, 0xfffffea, 28)))))))))
  }

  function Row29(): Ranked {
    Then(12, 0xfffffea, 28, Then(14, 0xfffffeb, 28, Then(15, 0xfffffec, 28, Then(16, 0xfffffed, 28,
    Then(17, 0xfffffee, 28, Then(18, 0xfffffef, 28, Then(19, 0xffffff0, 28, Then(20, 0xffffff1, 28,
    Last(21, 0xffffff2, 28)))))))))
  }

  function Row30(): Ranked {
    Then(21, 0xffffff2, 28, Then(23, 0xffffff3, 28, Then(24, 0xffffff4, 28, Then(25, 0xffffff5, 28,
    Then(26, 0xffffff6, 28, Then(27, 0xffffff7, 28, Then(28, 0xffffff8, 28, Then(29, 0xffffff9, 28,
    Last(30, 0xffffffa, 28)))))))))
  }

  function Row31(): Ranked {
    Then(30, 0xffffffa, 28, Then(31, 0xffffffb, 28, Then(127, 0xffffffc, 28, Then(220, 0xffffffd, 28,
    Then(249, 0xffffffe, 28, Then(10, 0x3ffffffc, 30, Then(13, 0x3ffffffd, 30, Then(22, 0x3ffffffe, 30,
    Last(256, 0x3fffffff, 30)))))))))
  }

  /** Row `j` holds the ranks 8 j to 8 j + 8; its last word opens the next row. */
  function Rows(): (rows: seq<Ranked>)
    ensures |rows| == 32
  {
    [ Row0(), Row1(), Row2(), Row3(), Row4(), Row5(), Row6(), Row7(),
      Row8(), Row9(), Row10(), Row11(), Row12(), Row13(), Row14(), Row15(),
      Row16(), Row17(), Row18(), Row19(), Row20(), Row21(), Row22(), Row23(),
      Row24(), Row25(), Row26(), Row27(), Row28(), Row29(), Row30(), Row31() ]
  }

  function Row(j: nat): Ranked
    requires j < 32
  {
    Rows()[j]
  }

  /** `Follows`, for the jumps in length that occur; words of one length follow their symbols. */
  predicate Next(a: Ranked, b: Ranked) {
    var n, c := b.length - a.length, a.code + 1;
    5 <= a.length <= b.length <= 30 && n <= 4 && (n == 0 ==> a.sym < b.sym) &&
    b.code ==
      (if n == 0 then c else if n == 1 then 2 * c else if n == 2 then 4 * c else if n == 3 then 8 * c else 16 * c)
  }

  /** The stretch lists words of the table, each following its predecessor. */
  predicate Linked(l: Ranked) {
    match l
    case Last(sym, code, length) => sym <= EOS && CodeOf(sym) == Code(code, length)
    case Then(sym, code, length, rest) =>
      sym <= EOS && CodeOf(sym) == Code(code, length) && Next(l, rest) && Linked(rest)
  }

  /** The stretch takes `n` steps and ends at the symbol `end`. */
  predicate Spans(l: Ranked, n: nat, end: nat) {
    match l
    case Last(sym, code, length) => n == 0 && sym == end
    case Then(sym, code, length, rest) => 0 < n && Spans(rest, n - 1, end)
  }

  function Nth(l: Ranked, k: nat): Ranked {
    if k == 0 || l.Last? then l else Nth(l.rest, k - 1)
  }

  /** The symbol of each rank. */
  function Order(): (order: seq<nat>)
    ensures |order| == EOS + 1
  {
    seq(EOS, r requires 0 <= r < EOS => Nth(Row(r / 8), r % 8).sym) + [EOS]
  }

  lemma Linked0() ensures Linked(Row0()) {}
  lemma Linked1() ensures Linked(Row1()) {}
  lemma Linked2() ensures Linked(Row2()) {}
  lemma Linked3() ensures Linked(Row3()) {}
  lemma Linked4() ensures Linked(Row4()) {}
  lemma Linked5() ensures Linked(Row5()) {}
  lemma Linked6() ensures Linked(Row6()) {}
  lemma Linked7() ensures Linked(Row7()) {}
  lemma Linked8() ensures Linked(Row8()) {}
  lemma Linked9() ensures Linked(Row9()) {}
  lemma Linked10() ensures Linked(Row10()) {}
  lemma Linked11() ensures Linked(Row11()) {}
  lemma Linked12() ensures Linked(Row12()) {}
  lemma Linked13() ensures Linked(Row13()) {}
  lemma Linked14() ensures Linked(Row14()) {}
  lemma Linked15() ensures Linked(Row15()) {}
  lemma Linked16() ensures Linked(Row16()) {}
  lemma Linked17() ensures Linked(Row17()) {}
  lemma Linked18() ensures Linked(Row18()) {}
  lemma Linked19() ensures Linked(Row19()) {}
  lemma Linked20() ensures Linked(Row20()) {}
  lemma Linked21() ensures Linked(Row21()) {}
  lemma Linked22() ensures Linked(Row22()) {}
  lemma Linked23() ensures Linked(Row23()) {}
  lemma Linked24() ensures Linked(Row24()) {}
  lemma Linked25() ensures Linked(Row25()) {}
  lemma Linked26() ensures Linked(Row26()) {}
  lemma Linked27() ensures Linked(Row27()) {}
  lemma Linked28() ensures Linked(Row28()) {}
  lemma Linked29() ensures Linked(Row29()) {}
  lemma Linked30() ensures Linked(Row30()) {}
  lemma Linked31() ensures Linked(Row31()) {}

  lemma Spans0()
    ensures Spans(Row0(), 8, Row1().sym)
    ensures Spans(Row1(), 8, Row2().sym)
    ensures Spans(Row2(), 8, Row3().sym)
    ensures Spans(Row3(), 8, Row4().sym)
    ensures Spans(Row4(), 8, Row5().sym)
    ensures Spans(Row5(), 8, Row6().sym)
    ensures Spans(Row6(), 8, Row7().sym)
    ensures Spans(Row7(), 8, Row8().sym)
  {}

  lemma Spans1()
    ensures Spans(Row8(), 8, Row9().sym)
    ensures Spans(Row9(), 8, Row10().sym)
    ensures Spans(Row10(), 8, Row11().sym)
    ensures Spans(Row11(), 8, Row12().sym)
    ensures Spans(Row12(), 8, Row13().sym)
    ensures Spans(Row13(), 8, Row14().sym)
    ensures Spans(Row14(), 8, Row15().sym)
    ensures Spans(Row15(), 8, Row16().sym)
  {}

  lemma Spans2()
    ensures Spans(Row16(), 8, Row17().sym)
    ensures Spans(Row17(), 8, Row18().sym)
    ensures Spans(Row18(), 8, Row19().sym)
    ensures Spans(Row19(), 8, Row20().sym)
    ensures Spans(Row20(), 8, Row21().sym)
    ensures Spans(Row21(), 8, Row22().sym)
    ensures Spans(Row22(), 8, Row23().sym)
    ensures Spans(Row23(), 8, Row24().sym)
  {}

  lemma Spans3()
    ensures Spans(Row24(), 8, Row25().sym)
    ensures Spans(Row25(), 8, Row26().sym)
    ensures Spans(Row26(), 8, Row27().sym)
    ensures Spans(Row27(), 8, Row28().sym)
    ensures Spans(Row28(), 8, Row29().sym)
    ensures Spans(Row29(), 8, Row30().sym)
    ensures Spans(Row30(), 8, Row31().sym)
    ensures Spans(Row31(), 8, EOS)
  {}

  /** Row `j` is linked and leads to the first symbol of the next row. */
  predicate RowOk(j: nat)
    requires j < 32
  {
    Linked(Row(j)) && Spans(Row(j), 8, if j < 31 then Row(j + 1).sym else EOS)
  }

  lemma RowsOk0()
    ensures RowOk(0) && RowOk(1) && RowOk(2) && RowOk(3)
  {
    hide Linked, CodeOf, Spans;
    Spans0();
    Linked0(); Linked1(); Linked2(); Linked3();
  }

  lemma RowsOk1()
    ensures RowOk(4) && RowOk(5) && RowOk(6) && RowOk(7)
  {
    hide Linked, CodeOf, Spans;
    Spans0();
    Linked4(); Linked5(); Linked6(); Linked7();
  }

  lemma RowsOk2()
    ensures RowOk(8) && RowOk(9) && RowOk(10) && RowOk(11)
  {
    hide Linked, CodeOf, Spans;
    Spans1();
    Linked8(); Linked9(); Linked10(); Linked11();
  }

  lemma RowsOk3()
    ensures RowOk(12) && RowOk(13) && RowOk(14) && RowOk(15)
  {
    hide Linked, CodeOf, Spans;
    Spans1();
    Linked12(); Linked13(); Linked14(); Linked15();
  }

  lemma RowsOk4()
    ensures RowOk(16) && RowOk(17) && RowOk(18) && RowOk(19)
  {
    hide Linked, CodeOf, Spans;
    Spans2();
    Linked16(); Linked17(); Linked18(); Linked19();
  }

  lemma RowsOk5()
    ensures RowOk(20) && RowOk(21) && RowOk(22) && RowOk(23)
  {
    hide Linked, CodeOf, Spans;
    Spans2();
    Linked20(); Linked21(); Linked22(); Linked23();
  }

  lemma RowsOk6()
    ensures RowOk(24) && RowOk(25) && RowOk(26) && RowOk(27)
  {
    hide Linked, CodeOf, Spans;
    Spans3();
    Linked24(); Linked25(); Linked26(); Linked27();
  }

  lemma RowsOk7()
    ensures RowOk(28) && RowOk(29) && RowOk(30) && RowOk(31)
  {
    hide Linked, CodeOf, Spans;
    Spans3();
    Linked28(); Linked29(); Linked30(); Linked31();
  }

  lemma RowLinked(j: nat)
    requires j < 32
    ensures RowOk(j)
  {
    hide RowOk;
    RowsOk0(); RowsOk1(); RowsOk2(); RowsOk3(); RowsOk4(); RowsOk5(); RowsOk6(); RowsOk7();
  }

  lemma {:induction false} LinkedNth(l: Ranked, n: nat, end: nat, k: nat)
    requires Linked(l) && Spans(l, n, end) && k < n
    ensures Nth(l, k).Then? && Nth(l, k).sym <= EOS && Nth(l, k).rest.sym <= EOS
    ensures Follows(CodeOf(Nth(l, k).sym), CodeOf(Nth(l, k).rest.sym))
    ensures CodeOf(Nth(l, k).sym).length == CodeOf(Nth(l, k).rest.sym).length ==> Nth(l, k).sym < Nth(l, k).rest.sym
    ensures if k + 1 < n then Nth(l, k).rest == Nth(l, k + 1) else Nth(l, k).rest.sym == end
  {
    hide CodeOf;
    if k > 0 {
      LinkedNth(l.rest, n - 1, end, k - 1);
    } else {
      var c := l.code + 1;
      assert Shl(c, 0) == c && Shl(c, 1) == 2 * c && Shl(c, 2) == 4 * c && Shl(c, 3) == 8 * c && Shl(c, 4) == 16 * c;
    }
  }

  lemma OrderAt(j: nat, k: nat)
    requires j < 32 && k < 8
    ensures Order()[8 * j + k] == Nth(Row(j), k).sym
  {
    hide Row, Nth;
    DivModOfSum(8, j, k);
  }

  lemma OrderFollows(r: nat)
    requires r < EOS
    ensures Order()[r] <= EOS && Order()[r + 1] <= EOS
    ensures Follows(CodeOf(Order()[r]), CodeOf(Order()[r + 1]))
    ensures CodeOf(Order()[r]).length == CodeOf(Order()[r + 1]).length ==> Order()[r] < Order()[r + 1]
  {
    hide CodeOf, Follows, Linked, Spans, Row;
    var j, k := r / 8, r % 8;
    RowLinked(j);
    LinkedNth(Row(j), 8, if j < 31 then Row(j + 1).sym else EOS, k);
    OrderAt(j, k);
    if k < 7 {
      OrderAt(j, k + 1);
    } else if j < 31 {
      OrderAt(j + 1, 0);
    }
  }

  /** Appendix B is a complete prefix code, and its padding is never a symbol. */
  lemma TableIsCode()
    ensures IsCode(Table())
  {
    hide IsCode, Canonical, PrefixFree, Complete, PaddingIsNoWord, WellSized;
    TableIsCanonical();
    CanonicalIsPrefixFree(Table(), Order());
    CanonicalIsComplete(Table(), Order());
    CanonicalPadding(Table(), Order());
    CodeParts(Table());
  }

  lemma TableIsCanonical()
    ensures Canonical(Table(), Order()) && Table()[Order()[EOS]].length > 8
  {
    hide CodeOf, Follows, Order, Table;
    var t, order := Table(), Order();
    TableEnds();
    TableAt(order[0]);
    TableAt(EOS);
    forall r {:trigger order[r]} | 0 <= r < EOS
      ensures order[r] <= EOS && order[r + 1] <= EOS && Follows(t[order[r]], t[order[r + 1]])
    {
      OrderFollows(r);
      TableAt(order[r]);
      TableAt(order[r + 1]);
    }
  }

  lemma TableAt(sym: nat)
    requires sym <= EOS
    ensures Table()[sym] == CodeOf(sym)
  {
    hide CodeOf;
  }

  lemma TableEnds()
    ensures Order()[0] <= EOS && CodeOf(Order()[0]) == Code(0, 5) && Order()[EOS] == EOS
    ensures CodeOf(EOS).length == 30 && CodeOf(EOS).code + 1 == Pow2(30)
  {
    PowerThirty();
  }

  lemma PowerThirty()
    ensures Pow2(30) == 0x4000_0000
  {
    TenBits();
    hide Pow2;
    Pow2Add(10, 10);
    Pow2Add(20, 10);
  }

  lemma TenBits()
    ensures Pow2(10) == 1024
  {
  }

  lemma CodeParts(t: CodeTable)
    requires WellSized(t) && PrefixFree(t) && Complete(t) && PaddingIsNoWord(t)
    ensures IsCode(t)
  {
  }

  lemma ZeroWord()
    ensures Table()[48].length == 5
  {
    TableAt(48);
  }

  /** With the code of Appendix B: octets decode to `d` exactly when they are what `d` encodes to. */
  lemma AppendixBIsExact(e: seq<byte>, d: seq<byte>)
    ensures WellSized(Table())
    ensures Decoded(Table(), e) == Ok(d) <==> e == Encoded(Table(), d)
  {
    hide Table, PrefixFree, Complete, PaddingIsNoWord, Encoded, Decoded;
    TableIsCode();
    ExactInverse(Table(), e, d);
  }

  // ---- which word belongs to which symbol ----------------------------------

  /** From one rank to a later one words grow longer, or larger along with their symbols. */
  lemma {:induction false} RanksAscend(r: nat, s: nat)
    requires r < s <= EOS
    ensures Order()[r] <= EOS && Order()[s] <= EOS
    ensures var a, b := CodeOf(Order()[r]), CodeOf(Order()[s]);
      a.length < b.length || (a.length == b.length && a.code < b.code && Order()[r] < Order()[s])
    decreases s - r
  {
    hide CodeOf, Order;
    OrderFollows(r);
    if r + 1 < s {
      RanksAscend(r + 1, s);
    }
  }

  /** The code is the canonical one for its lengths: words of one length are numbered in the order
      of their symbols, and shorter words come before longer ones. */
  lemma SymbolsAscend(a: nat, b: nat)
    requires a < b <= EOS && CodeOf(a).length == CodeOf(b).length
    ensures CodeOf(a).code < CodeOf(b).code
  {
    hide CodeOf, Order, Table, Canonical;
    var order := Order();
    TableIsCanonical();
    RanksOfCode(a);
    RanksOfCode(b);
    var r :| 0 <= r <= EOS && order[r] == a;
    var s :| 0 <= s <= EOS && order[s] == b;
    if r < s {
      RanksAscend(r, s);
    } else {
      RanksAscend(s, r);
    }
  }

  lemma RanksOfCode(sym: nat)
    requires sym <= EOS
    ensures exists r :: 0 <= r <= EOS && Order()[r] == sym
  {
    hide Table, Order, CodeOf;
    TableIsCanonical();
    RanksDistinct(Table(), Order());
    CanonicalBelow(Table(), Order());
    AllNumbersAppear(Order(), EOS + 1, sym);
    var r :| 0 <= r < |Order()| && Order()[r] == sym;
  }

  lemma CanonicalBelow(t: CodeTable, order: seq<nat>)
    requires Canonical(t, order)
    ensures |order| == EOS + 1 && forall r :: 0 <= r < |order| ==> order[r] < EOS + 1
  {
  }

  // The words of up to eight bits; the others belong to symbols that texts rarely hold.

  /** Symbols from the `first` of some words of one length on. */
  predicate Words(symbols: string, first: nat, length: nat) {
    forall i :: 0 <= i < |symbols| ==> WordIs(symbols[i], first + i, length)
  }

  predicate WordIs(symbol: char, code: nat, length: nat) {
    symbol as int <= EOS && CodeOf(symbol as int) == Code(code, length)
  }

  lemma FiveBits0()
    ensures Words("012ace", 0x0, 5)
  {
  }

  lemma FiveBits1()
    ensures Words("iost", 0x6, 5)
  {
  }

  lemma FiveBits()
    ensures Words("012ace" + "iost", 0x0, 5)
  {
    hide WordIs;
    FiveBits0(); FiveBits1();
  }

  lemma SixBits0()
    ensures Words(" %-./3", 0x14, 6)
  {
  }

  lemma SixBits1()
    ensures Words("456789", 0x1a, 6)
  {
  }

  lemma SixBits2()
    ensures Words("=A_bdf", 0x20, 6)
  {
  }

  lemma SixBits3()
    ensures Words("ghlmnp", 0x26, 6)
  {
  }

  lemma SixBits4()
    ensures Words("ru", 0x2c, 6)
  {
  }

  lemma SixBits()
    ensures Words(" %-./3" + "456789" + "=A_bdf" + "ghlmnp" + "ru", 0x14, 6)
  {
    hide WordIs;
    SixBits0(); SixBits1(); SixBits2(); SixBits3(); SixBits4();
  }

  lemma SevenBits0()
    ensures Words(":BCDEF", 0x5c, 7)
  {
  }

  lemma SevenBits1()
    ensures Words("GHIJKL", 0x62, 7)
  {
  }

  lemma SevenBits2()
    ensures Words("MNOPQR", 0x68, 7)
  {
  }

  lemma SevenBits3()
    ensures Words("STUVWY", 0x6e, 7)
  {
  }

  lemma SevenBits4()
    ensures Words("jkqvwx", 0x74, 7)
  {
  }

  lemma SevenBits5()
    ensures Words("yz", 0x7a, 7)
  {
  }

  lemma SevenBits()
    ensures Words(":BCDEF" + "GHIJKL" + "MNOPQR" + "STUVWY" + "jkqvwx" + "yz", 0x5c, 7)
  {
    hide WordIs;
    SevenBits0(); SevenBits1(); SevenBits2(); SevenBits3(); SevenBits4(); SevenBits5();
  }

  lemma EightBits()
    ensures Words("&*,;XZ", 0xf8, 8)
  {
  }
}
