/** The Huffman string code of section 5.2 of RFC 7541, for any table of code words that
    is prefix-free and complete.  `HuffmanTable` supplies the table of Appendix B. */
module Huffman {
  import opened Bytes
  import opened Bits
  import opened HpackTable

  datatype Code = Code(code: nat, length: nat)

  type CodeTable = seq<Code>

  /** The end-of-string symbol, used only as padding. */
  const EOS: nat := 256

  /** The code word of a symbol. */
  function Word(t: CodeTable, sym: nat): (w: Bits)
    requires sym < |t|
    ensures |w| == t[sym].length
  {
    BitsOf(t[sym].code, t[sym].length)
  }

  ghost predicate WellSized(t: CodeTable) {
    |t| == EOS + 1 &&
    forall sym :: 0 <= sym < |t| ==> 5 <= t[sym].length <= 30 && t[sym].code < Pow2(t[sym].length)
  }

  ghost predicate PrefixFree(t: CodeTable) {
    forall a, b :: 0 <= a < |t| && 0 <= b < |t| && Word(t, a) <= Word(t, b) ==> a == b
  }

  /** Some word starts every long enough bit string. */
  ghost predicate Complete(t: CodeTable) {
    forall bits: Bits :: |bits| >= 30 ==> HasWord(t, bits)
  }

  /** Padding cannot be mistaken for a symbol. */
  ghost predicate PaddingIsNoWord(t: CodeTable) {
    forall sym :: 0 <= sym < |t| && AllOnes(Word(t, sym)) ==> |Word(t, sym)| > 8
  }

  ghost predicate IsCode(t: CodeTable) {
    WellSized(t) && PrefixFree(t) && Complete(t) && PaddingIsNoWord(t)
  }

  ghost predicate Starts(t: CodeTable, sym: nat, bits: Bits) {
    sym < |t| && Word(t, sym) <= bits
  }

  ghost predicate HasWord(t: CodeTable, bits: Bits) {
    exists sym :: Starts(t, sym, bits)
  }

  lemma OneWordStarts(t: CodeTable, a: nat, b: nat, bits: Bits)
    requires PrefixFree(t) && Starts(t, a, bits) && Starts(t, b, bits)
    ensures a == b
  {
    var u, v := Word(t, a), Word(t, b);
    assert u == bits[..|u|] && v == bits[..|v|];
    assert (|u| <= |v| ==> u <= v) && (|v| <= |u| ==> v <= u);
  }

  // ---- what encoding means -------------------------------------------------

  function WordsOf(t: CodeTable, data: seq<byte>): Bits
    requires |t| == EOS + 1
  {
    if data == [] then [] else Word(t, data[0]) + WordsOf(t, data[1..])
  }

  function PadLength(n: nat): (p: nat)
    ensures p < 8 && (n + p) % 8 == 0
  {
    (8 - n % 8) % 8
  }

  function Padded(bits: Bits): (r: Bits)
    ensures |r| % 8 == 0
  {
    bits + Ones(PadLength(|bits|))
  }

  function Encoded(t: CodeTable, data: seq<byte>): seq<byte>
    requires |t| == EOS + 1
  {
    Pack(Padded(WordsOf(t, data)))
  }

  // ---- what decoding means -------------------------------------------------

  /** Symbols taken greedily off the front, and the bits no word starts; or an embedded EOS. */
  datatype Peeled = Peeled(out: seq<byte>, rest: Bits) | EmbeddedEos

  function Prepend(front: seq<byte>, p: Peeled): Peeled {
    match p
    case Peeled(out, rest) => Peeled(front + out, rest)
    case EmbeddedEos => EmbeddedEos
  }

  ghost function Peel(t: CodeTable, bits: Bits): Peeled
    requires WellSized(t)
    decreases |bits|
  {
    if HasWord(t, bits) then
      var sym: nat :| Starts(t, sym, bits);
      if sym == EOS then EmbeddedEos else Prepend([sym], Peel(t, bits[|Word(t, sym)|..]))
    else Peeled([], bits)
  }

  ghost function Decoded(t: CodeTable, data: seq<byte>): Result<seq<byte>, HpackError>
    requires WellSized(t)
  {
    match Peel(t, Unpack(data))
    case EmbeddedEos => Err(InvalidHuffman)
    case Peeled(out, rest) => if |rest| >= 8 || !AllOnes(rest) then Err(InvalidHuffman) else Ok(out)
  }

  // ---- peeling -------------------------------------------------------------

  /** The symbol that starts a bit string, and what follows its word. */
  lemma FirstWord(t: CodeTable, bits: Bits) returns (sym: nat, tail: Bits)
    requires HasWord(t, bits)
    ensures sym < |t| && bits == Word(t, sym) + tail
  {
    sym :| Starts(t, sym, bits);
    tail := bits[|Word(t, sym)|..];
  }

  lemma PeelWord(t: CodeTable, sym: nat, rest: Bits)
    requires WellSized(t) && PrefixFree(t) && sym < |t|
    ensures Peel(t, Word(t, sym) + rest)
         == if sym == EOS then EmbeddedEos else Prepend([sym], Peel(t, rest))
  {
    hide BitsOf;
    var bits := Word(t, sym) + rest;
    assert Starts(t, sym, bits);
    forall other: nat | Starts(t, other, bits) ensures other == sym {
      OneWordStarts(t, other, sym, bits);
    }
    assert bits[|Word(t, sym)|..] == rest;
  }

  lemma PeelNothing(t: CodeTable, bits: Bits)
    requires WellSized(t) && !HasWord(t, bits)
    ensures Peel(t, bits) == Peeled([], bits)
  {
  }

  lemma PrependTwice(a: seq<byte>, b: seq<byte>, p: Peeled)
    ensures Prepend(a, Prepend(b, p)) == Prepend(a + b, p)
    ensures Prepend([], p) == p
  {
    if p.Peeled? {
      assert a + (b + p.out) == (a + b) + p.out;
    }
  }

  /** Peeling can stop anywhere and go on when more bits have arrived. */
  lemma {:induction false} PeelAppend(t: CodeTable, a: Bits, b: Bits)
    requires WellSized(t) && PrefixFree(t)
    ensures Peel(t, a + b) == match Peel(t, a)
                              case EmbeddedEos => EmbeddedEos
                              case Peeled(out, rest) => Prepend(out, Peel(t, rest + b))
    decreases |a|
  {
    hide Peel, BitsOf, Word, HasWord;
    if HasWord(t, a) {
      var sym, tail := FirstWord(t, a);
      assert a + b == Word(t, sym) + (tail + b);
      PeelWord(t, sym, tail);
      PeelWord(t, sym, tail + b);
      if sym != EOS {
        PeelAppend(t, tail, b);
        if Peel(t, tail).Peeled? {
          PrependTwice([sym], Peel(t, tail).out, Peel(t, Peel(t, tail).rest + b));
        }
      }
    } else {
      PeelNothing(t, a);
      PrependTwice([], [], Peel(t, a + b));
    }
  }

  /** At most 29 bits stay unmatched, because the code is complete. */
  lemma {:induction false} PeelLeavesLittle(t: CodeTable, bits: Bits)
    requires IsCode(t)
    ensures var p := Peel(t, bits); p.Peeled? ==> |p.rest| <= 29 && !HasWord(t, p.rest)
    decreases |bits|
  {
    hide Peel, BitsOf, Word, HasWord;
    if HasWord(t, bits) {
      var sym, tail := FirstWord(t, bits);
      PeelWord(t, sym, tail);
      PeelLeavesLittle(t, tail);
    } else {
      PeelNothing(t, bits);
    }
  }

  lemma {:induction false} PeelWordsOf(t: CodeTable, data: seq<byte>, rest: Bits)
    requires IsCode(t)
    ensures Peel(t, WordsOf(t, data) + rest) == Prepend(data, Peel(t, rest))
  {
    hide Peel, BitsOf, Word, HasWord, PrefixFree, Complete, PaddingIsNoWord;
    if data == [] {
      assert WordsOf(t, data) + rest == rest;
      PrependTwice([], [], Peel(t, rest));
    } else {
      assert WordsOf(t, data) + rest == Word(t, data[0]) + (WordsOf(t, data[1..]) + rest);
      PeelWord(t, data[0], WordsOf(t, data[1..]) + rest);
      PeelWordsOf(t, data[1..], rest);
      PrependTwice([data[0]], data[1..], Peel(t, rest));
      assert data == [data[0]] + data[1..];
    }
  }

  lemma {:induction false} PeelSplits(t: CodeTable, bits: Bits)
    requires WellSized(t) && PrefixFree(t) && Peel(t, bits).Peeled?
    ensures bits == WordsOf(t, Peel(t, bits).out) + Peel(t, bits).rest
    decreases |bits|
  {
    hide Peel, BitsOf, Word, HasWord;
    if HasWord(t, bits) {
      var sym, tail := FirstWord(t, bits);
      PeelWord(t, sym, tail);
      PeelSplits(t, tail);
      var out := Peel(t, tail).out;
      assert ([sym] + out)[1..] == out;
      assert WordsOf(t, [sym] + out) == Word(t, sym) + WordsOf(t, out);
    } else {
      PeelNothing(t, bits);
    }
  }

  lemma OnesHoldNoWord(t: CodeTable, n: nat)
    requires IsCode(t) && n < 8
    ensures Peel(t, Ones(n)) == Peeled([], Ones(n))
  {
    hide BitsOf;
    forall sym: nat | Starts(t, sym, Ones(n)) ensures false {
      PrefixOfOnes(Word(t, sym), n);
    }
  }

  lemma PrefixOfOnes(w: Bits, n: nat)
    requires w <= Ones(n)
    ensures AllOnes(w) && |w| <= n
  {
    assert w == Ones(n)[..|w|];
  }

  // ---- the codec's laws ----------------------------------------------------

  lemma DecodeEncoded(t: CodeTable, data: seq<byte>)
    requires IsCode(t)
    ensures Decoded(t, Encoded(t, data)) == Ok(data)
  {
    hide Peel, BitsOf, HasWord, Word, Pack, Unpack, Ones;
    var words := WordsOf(t, data);
    UnpackPack(Padded(words));
    PeelWordsOf(t, data, Ones(PadLength(|words|)));
    OnesHoldNoWord(t, PadLength(|words|));
    assert data + [] == data;
  }

  lemma PadFills(words: Bits, rest: Bits, n: nat)
    requires n % 8 == 0 && |words| + |rest| == n && |rest| < 8 && AllOnes(rest)
    ensures words + rest == Padded(words)
  {
    assert |rest| == PadLength(|words|);
    assert rest == Ones(|rest|);
  }

  lemma EncodeDecoded(t: CodeTable, data: seq<byte>)
    requires IsCode(t) && Decoded(t, data).Ok?
    ensures Encoded(t, Decoded(t, data).value) == data
  {
    hide Peel, BitsOf, HasWord, Word, Pack, Unpack;
    var bits := Unpack(data);
    var Peeled(out, rest) := Peel(t, bits);
    PeelSplits(t, bits);
    hide WordsOf, AllOnes;
    PadFills(WordsOf(t, out), rest, 8 * |data|);
    PackUnpack(data);
  }

  /** The exact inverse: nothing decodes but what the encoder writes, and to what it wrote. */
  lemma ExactInverse(t: CodeTable, e: seq<byte>, d: seq<byte>)
    requires IsCode(t)
    ensures Decoded(t, e) == Ok(d) <==> e == Encoded(t, d)
  {
    DecodeEncoded(t, d);
    if Decoded(t, e) == Ok(d) {
      EncodeDecoded(t, e);
    }
  }

  // ---- the accumulator loops -----------------------------------------------

  lemma WordsOfPush(t: CodeTable, data: seq<byte>, b: byte)
    requires |t| == EOS + 1
    ensures WordsOf(t, data + [b]) == WordsOf(t, data) + Word(t, b)
  {
    hide Word;
    if data == [] {
      assert [b][1..] == [];
      assert [] + [b] == [b];
      assert WordsOf(t, [b]) == Word(t, b) + WordsOf(t, []);
    } else {
      WordsOfPush(t, data[1..], b);
      assert (data + [b])[1..] == data[1..] + [b];
    }
  }

  /** The live bits of the encoder's accumulator just after symbol `i` is shifted in: what the
      words before it leave over after whole octets, and its own word. */
  function EncoderHolds(t: CodeTable, data: seq<byte>, i: nat): nat
    requires |t| == EOS + 1 && i < |data|
  {
    |WordsOf(t, data[..i])| % 8 + t[data[i]].length
  }

  /** Seven bits left over and a word of at most thirty. */
  lemma EncoderHoldsLittle(t: CodeTable, data: seq<byte>, i: nat)
    requires WellSized(t) && i < |data|
    ensures EncoderHolds(t, data, i) <= 37
  {
    hide WordsOf;
    WordLength(t, data[i]);
  }

  lemma WordLength(t: CodeTable, sym: nat)
    requires WellSized(t) && sym < |t|
    ensures 5 <= t[sym].length <= 30 && t[sym].code < Pow2(t[sym].length)
  {
  }

  /** `held` lists what the accumulator holds for the first symbols of `data`. */
  ghost predicate EncoderTrace(t: CodeTable, data: seq<byte>, held: seq<nat>)
    requires |t| == EOS + 1
  {
    |held| <= |data| && forall i :: 0 <= i < |held| ==> held[i] == EncoderHolds(t, data, i) && held[i] <= 37
  }

  lemma EncoderTracePush(t: CodeTable, data: seq<byte>, held: seq<nat>)
    requires WellSized(t) && |held| < |data| && EncoderTrace(t, data, held)
    ensures EncoderTrace(t, data, held + [EncoderHolds(t, data, |held|)])
  {
    hide EncoderHolds;
    EncoderHoldsLittle(t, data, |held|);
  }

  /** The octets written and the live bits are the code words so far. */
  ghost predicate Spells(t: CodeTable, data: seq<byte>, out: seq<byte>, acc: nat, bits: nat)
    requires |t| == EOS + 1
  {
    Unpack(out) + BitsOf(acc, bits) == WordsOf(t, data)
  }

  lemma PartsOfCode(t: CodeTable)
    requires IsCode(t)
    ensures |t| == EOS + 1 && WellSized(t) && PrefixFree(t)
  {
  }

  lemma NothingSpelled(t: CodeTable, data: seq<byte>)
    requires |t| == EOS + 1
    ensures Spells(t, [], [], 0, 0) && EncoderTrace(t, data, [])
  {
  }

  /** Shifting in one symbol. */
  lemma EncoderStep(t: CodeTable, data: seq<byte>, i: nat, out: seq<byte>, acc: nat, bits: nat)
    requires WellSized(t) && i < |data| && bits < 8 && Spells(t, data[..i], out, acc, bits)
    ensures var Code(code, length) := t[data[i]];
      && 5 <= length <= 30 && code < Pow2(length)
      && bits + length == EncoderHolds(t, data, i) <= 37
      && Spells(t, data[..i + 1], out, PushBits(acc, bits, code, length), bits + length)
  {
    hide WordsOf, Unpack, BitsOf, PushBits, Pow2;
    var Code(code, length) := t[data[i]];
    WordLength(t, data[i]);
    assert |Unpack(out) + BitsOf(acc, bits)| == 8 * |out| + bits;
    assert data[..i + 1] == data[..i] + [data[i]];
    WordsOfPush(t, data[..i], data[i]);
    PushBitsMeaning(acc, bits, code, length);
    var a, b, c := Unpack(out), BitsOf(acc, bits), BitsOf(code, length);
    assert (a + b) + c == a + (b + c);
  }

  /** Writing one octet. */
  lemma EncoderEmits(t: CodeTable, data: seq<byte>, out: seq<byte>, acc: nat, bits: nat)
    requires |t| == EOS + 1 && 8 <= bits <= 64 && Spells(t, data, out, acc, bits)
    ensures Spells(t, data, out + [FrontOctet(acc, bits)], acc, bits - 8)
  {
    hide WordsOf, Unpack, BitsOf, FrontOctet;
    Emit(out, acc, bits);
  }

  /** The encoder's loop ended on an octet boundary. */
  lemma EncoderDone(t: CodeTable, data: seq<byte>, out: seq<byte>, acc: nat)
    requires |t| == EOS + 1 && Spells(t, data, out, acc, 0)
    ensures out == Encoded(t, data)
  {
    hide Pack, Unpack, WordsOf;
    assert Unpack(out) + BitsOf(acc, 0) == Unpack(out);
    assert Unpack(out) == Padded(WordsOf(t, data));
    PackUnpack(out);
  }

  /** The encoder's loop left some bits over, and one padded octet takes them. */
  lemma EncoderPads(t: CodeTable, data: seq<byte>, out: seq<byte>, acc: nat, bits: nat)
    requires |t| == EOS + 1 && 0 < bits < 8 && Spells(t, data, out, acc, bits)
    ensures out + [FrontOctet(PushBits(acc, bits, Pow2(8 - bits) - 1, 8 - bits), 8)] == Encoded(t, data)
  {
    hide Pack, Unpack, BitsOf, WordsOf, FrontOctet, PushBits, Pow2;
    var pad := 8 - bits;
    OnesOf(pad);
    PushBitsMeaning(acc, bits, Pow2(pad) - 1, pad);
    var last := FrontOctet(PushBits(acc, bits, Pow2(pad) - 1, pad), 8);
    LastOctet(PushBits(acc, bits, Pow2(pad) - 1, pad));
    UnpackPush(out, last);
    var a, b, c := Unpack(out), BitsOf(acc, bits), Ones(pad);
    assert (a + b) + c == a + (b + c);
    assert |a + b| == 8 * |out| + bits;
    assert Unpack(out + [last]) == Padded(WordsOf(t, data));
    PackUnpack(out + [last]);
  }

  lemma LastOctet(acc: nat)
    ensures BitsOf(FrontOctet(acc, 8), 8) == BitsOf(acc, 8)
  {
    hide FrontOctet;
    FrontOctetMeaning(acc, 8);
    assert BitsOf(acc, 0) == [];
  }

  /** Huffman-encode `data`; `held` records the live bits after each symbol is shifted in. */
  method Encode(t: CodeTable, data: seq<byte>) returns (out: seq<byte>, ghost held: seq<nat>)
    requires IsCode(t)
    ensures out == Encoded(t, data)
    ensures |held| == |data| && EncoderTrace(t, data, held)
  {
    hide IsCode, WellSized, Spells, Encoded, Pow2, FrontOctet, PushBits, EncoderTrace, EncoderHolds;
    out, held := [], [];
    var acc, bits: nat := 0, 0;
    PartsOfCode(t);
    NothingSpelled(t, data);
    for i := 0 to |data|
      invariant bits < 8 && Spells(t, data[..i], out, acc, bits)
      invariant |held| == i && EncoderTrace(t, data, held)
    {
      var Code(code, length) := t[data[i]];
      EncoderStep(t, data, i, out, acc, bits);
      EncoderTracePush(t, data, held);
      acc := PushBits(acc, bits, code, length);
      bits := bits + length;
      held := held + [bits];
      while bits >= 8
        invariant bits <= 37 && Spells(t, data[..i + 1], out, acc, bits)
      {
        EncoderEmits(t, data[..i + 1], out, acc, bits);
        out := out + [FrontOctet(acc, bits)];
        bits := bits - 8;
      }
    }
    assert data[..|data|] == data;
    if bits > 0 {
      var pad := 8 - bits;
      EncoderPads(t, data, out, acc, bits);
      acc := PushBits(acc, bits, Pow2(pad) - 1, pad);
      out := out + [FrontOctet(acc, 8)];
    } else {
      EncoderDone(t, data, out, acc);
    }
  }

  /** The byte length of the encoding; the bit count is a 32-bit sum that wraps around. */
  function EncodedLen(t: CodeTable, data: seq<byte>): nat
    requires |t| == EOS + 1
  {
    (|WordsOf(t, data)| % 0x1_0000_0000 + 7) / 8
  }

  method ComputeEncodedLen(t: CodeTable, data: seq<byte>) returns (n: nat)
    requires |t| == EOS + 1
    ensures n == EncodedLen(t, data)
  {
    var bits := 0;
    for i := 0 to |data|
      invariant bits == |WordsOf(t, data[..i])| % 0x1_0000_0000
    {
      assert data[..i + 1] == data[..i] + [data[i]];
      WordsOfPush(t, data[..i], data[i]);
      bits := (bits + t[data[i]].length) % 0x1_0000_0000;
    }
    assert data[..|data|] == data;
    n := (bits + 7) / 8;
  }

  lemma {:induction false} WordsOfLength(t: CodeTable, data: seq<byte>)
    requires WellSized(t)
    ensures 5 * |data| <= |WordsOf(t, data)| <= 30 * |data|
  {
    if data != [] {
      WordsOfLength(t, data[1..]);
    }
  }

  /** The announced length is the true one exactly while the bit count fits 32 bits. */
  lemma EncodedLenExactIff(t: CodeTable, data: seq<byte>)
    requires |t| == EOS + 1
    ensures EncodedLen(t, data) == |Encoded(t, data)| <==> |WordsOf(t, data)| < 0x1_0000_0000
    ensures EncodedLen(t, data) <= |Encoded(t, data)|
  {
    hide WordsOf, Pack, Unpack;
    UnpackPack(Padded(WordsOf(t, data)));
    OctetsOfBits(|WordsOf(t, data)|);
  }

  lemma OctetsOfBits(n: nat)
    ensures n + PadLength(n) == 8 * ((n + 7) / 8)
    ensures (n % 0x1_0000_0000 + 7) / 8 == (n + 7) / 8 <==> n < 0x1_0000_0000
    ensures (n % 0x1_0000_0000 + 7) / 8 <= (n + 7) / 8
  {
    var q, r := n / 0x1_0000_0000, n % 0x1_0000_0000;
    assert n == 0x1_0000_0000 * q + r && 0 <= q;
    RoundUp(n);
    RoundUpWrapped(q, r);
  }

  lemma RoundUp(n: nat)
    ensures n + PadLength(n) == 8 * ((n + 7) / 8)
  {
  }

  lemma RoundUpWrapped(q: nat, r: nat)
    ensures (0x1_0000_0000 * q + r + 7) / 8 == 0x2000_0000 * q + (r + 7) / 8
  {
  }

  /** The linear scan for a word given as number and length. */
  method Lookup(t: CodeTable, code: nat, length: nat) returns (r: Option<nat>)
    ensures r.Some? ==> r.value < |t| && t[r.value] == Code(code, length)
    ensures r.None? ==> Code(code, length) !in t
  {
    for sym := 0 to |t|
      invariant Code(code, length) !in t[..sym]
    {
      if t[sym].length == length && t[sym].code == code {
        return Some(sym);
      }
    }
    assert t[..|t|] == t;
    r := None;
  }

  lemma {:induction false} BitsOfInjective(a: nat, b: nat, n: nat)
    requires BitsOf(a, n) == BitsOf(b, n) && a < Pow2(n) && b < Pow2(n)
    ensures a == b
  {
    if n > 0 {
      var x, y := BitsOf(a, n), BitsOf(b, n);
      assert x[..n - 1] == BitsOf(a / 2, n - 1) && y[..n - 1] == BitsOf(b / 2, n - 1);
      assert x[n - 1] == (a % 2 == 1) && y[n - 1] == (b % 2 == 1);
      BitsOfInjective(a / 2, b / 2, n - 1);
    }
  }

  /** The scan of the first `length` bits finds a symbol exactly when its word starts the bits. */
  lemma CandidateIsWord(t: CodeTable, bits: Bits, candidate: nat, length: nat)
    requires WellSized(t) && length <= |bits|
    requires candidate < Pow2(length) && BitsOf(candidate, length) == bits[..length]
    ensures forall sym: nat :: sym < |t| && t[sym].length == length ==>
      (Starts(t, sym, bits) <==> t[sym] == Code(candidate, length))
  {
    hide BitsOf, Pow2;
    forall sym: nat | sym < |t| && t[sym].length == length
      ensures Starts(t, sym, bits) <==> t[sym] == Code(candidate, length)
    {
      if Starts(t, sym, bits) {
        BitsOfInjective(t[sym].code, candidate, length);
      }
    }
  }

  /** Try the code lengths 5 to 30, shortest first, on the live bits of the accumulator. */
  method MatchFront(t: CodeTable, acc: nat, accBits: nat) returns (r: Option<nat>)
    requires IsCode(t) && accBits <= 64
    ensures r.Some? ==> Starts(t, r.value, BitsOf(acc, accBits))
    ensures r.None? ==> !HasWord(t, BitsOf(acc, accBits))
  {
    hide BitsOf, Pow2, FrontBits, PrefixFree, Complete, PaddingIsNoWord;
    ghost var live := BitsOf(acc, accBits);
    for length := 5 to 31
      invariant forall sym: nat :: Starts(t, sym, live) ==> t[sym].length >= length
    {
      if length > accBits {
        break;
      }
      var candidate := FrontBits(acc, accBits, length);
      FrontBitsMeaning(acc, accBits, length);
      CandidateIsWord(t, live, candidate, length);
      r := Lookup(t, candidate, length);
      if r.Some? {
        return r;
      }
    }
    r := None;
  }

  /** The bits that stay unmatched once every whole symbol of `data` has been taken off. */
  ghost function Unmatched(t: CodeTable, data: seq<byte>): nat
    requires WellSized(t)
  {
    var p := Peel(t, Unpack(data));
    if p.Peeled? then |p.rest| else 0
  }

  /** Because the code is complete, 29 bits stay at most, so an octet more makes 37. */
  lemma DecoderHoldsLittle(t: CodeTable, data: seq<byte>)
    requires IsCode(t)
    ensures Unmatched(t, data) <= 29
  {
    PeelLeavesLittle(t, Unpack(data));
  }

  /** `held` lists the live bits once the next octet of `data` is in, `kept` those that stay. */
  ghost predicate DecoderTrace(t: CodeTable, data: seq<byte>, held: seq<nat>, kept: seq<nat>)
    requires WellSized(t)
  {
    && |kept| <= |held| <= |data|
    && (forall i :: 0 <= i < |held| ==> held[i] == Unmatched(t, data[..i]) + 8 && held[i] <= 37)
    && (forall i :: 0 <= i < |kept| ==> kept[i] == Unmatched(t, data[..i + 1]) && kept[i] <= 29)
  }

  lemma DecoderTraceHold(t: CodeTable, data: seq<byte>, held: seq<nat>, kept: seq<nat>)
    requires IsCode(t) && |held| < |data| && DecoderTrace(t, data, held, kept)
    ensures DecoderTrace(t, data, held + [Unmatched(t, data[..|held|]) + 8], kept)
  {
    hide Unmatched;
    DecoderHoldsLittle(t, data[..|held|]);
  }

  lemma DecoderTraceKeep(t: CodeTable, data: seq<byte>, held: seq<nat>, kept: seq<nat>)
    requires IsCode(t) && |kept| < |held| && DecoderTrace(t, data, held, kept)
    ensures DecoderTrace(t, data, held, kept + [Unmatched(t, data[..|kept| + 1])])
  {
    hide Unmatched;
    DecoderHoldsLittle(t, data[..|kept| + 1]);
  }

  /** The symbols found so far, and what peeling the live bits would still find, are what
      peeling everything seen finds. */
  ghost predicate Peeling(t: CodeTable, seen: seq<byte>, out: seq<byte>, acc: nat, live: nat)
    requires WellSized(t)
  {
    Peel(t, Unpack(seen)) == Prepend(out, Peel(t, BitsOf(acc, live)))
  }

  /** No word starts the live bits any more. */
  ghost predicate Settled(t: CodeTable, seen: seq<byte>, out: seq<byte>, acc: nat, live: nat)
    requires WellSized(t)
  {
    Peel(t, Unpack(seen)) == Peeled(out, BitsOf(acc, live)) && live == Unmatched(t, seen) <= 29
  }

  lemma NothingSeen(t: CodeTable, data: seq<byte>)
    requires WellSized(t)
    ensures Settled(t, [], [], 0, 0) && DecoderTrace(t, data, [], [])
  {
  }

  /** Shifting in one octet. */
  lemma DecoderStep(t: CodeTable, seen: seq<byte>, b: byte, out: seq<byte>, acc: nat, live: nat)
    requires WellSized(t) && PrefixFree(t) && Settled(t, seen, out, acc, live)
    ensures b < Pow2(8)
    ensures Peeling(t, seen + [b], out, PushBits(acc, live, b, 8), live + 8)
  {
    hide Peel, Unpack, BitsOf, PushBits, WellSized, PrefixFree, Pow2;
    UnpackPush(seen, b);
    PeelAppend(t, Unpack(seen), BitsOf(b, 8));
    PowerEight();
    PushBitsMeaning(acc, live, b, 8);
  }

  /** Nothing more to take off. */
  lemma DecoderSettles(t: CodeTable, seen: seq<byte>, out: seq<byte>, acc: nat, live: nat)
    requires IsCode(t) && Peeling(t, seen, out, acc, live) && !HasWord(t, BitsOf(acc, live))
    ensures Settled(t, seen, out, acc, live)
  {
    hide Peel, Unpack, BitsOf, HasWord, PrefixFree, Complete, PaddingIsNoWord;
    PeelNothing(t, BitsOf(acc, live));
    PeelLeavesLittle(t, BitsOf(acc, live));
    assert out + [] == out;
  }

  /** Taking one symbol off the live bits, or meeting the end-of-string symbol. */
  lemma DecoderTakes(t: CodeTable, seen: seq<byte>, out: seq<byte>, acc: nat, live: nat, sym: nat)
    requires IsCode(t) && live <= 64 && Peeling(t, seen, out, acc, live) && Starts(t, sym, BitsOf(acc, live))
    ensures sym <= EOS && sym < |t| && 5 <= t[sym].length <= live
    ensures sym == EOS ==> Peel(t, Unpack(seen)).EmbeddedEos?
    ensures sym < EOS ==> Peeling(t, seen, out + [sym], acc, live - t[sym].length)
  {
    hide Peel, Unpack, BitsOf, HasWord, PrefixFree, Complete, PaddingIsNoWord;
    var bits, length := BitsOf(acc, live), t[sym].length;
    WordLength(t, sym);
    assert |Word(t, sym)| == length;
    FrontBitsMeaning(acc, live, length);
    assert bits == Word(t, sym) + bits[length..];
    PeelWord(t, sym, bits[length..]);
    if sym < EOS {
      PrependTwice(out, [sym], Peel(t, bits[length..]));
    }
  }

  /** What is left at the end decides. */
  lemma DecoderEnds(t: CodeTable, data: seq<byte>, out: seq<byte>, acc: nat, live: nat)
    requires WellSized(t) && Settled(t, data, out, acc, live)
    ensures Peel(t, Unpack(data)).Peeled?
    ensures Decoded(t, data) ==
      if live >= 8 || (live > 0 && Mask(acc, live) != Pow2(live) - 1) then Err(InvalidHuffman) else Ok(out)
  {
    hide Peel, Unpack, BitsOf, Mask, Pow2, WellSized;
    AllOnesIsMask(acc, live);
  }

  /** Decode a Huffman string.  `held` records the live bits after each octet is shifted in and
      `kept` those left when its symbols have been taken off. */
  method Decode(t: CodeTable, data: seq<byte>)
    returns (r: Result<seq<byte>, HpackError>, ghost held: seq<nat>, ghost kept: seq<nat>)
    requires IsCode(t)
    ensures r == Decoded(t, data)
    ensures DecoderTrace(t, data, held, kept)
    ensures Peel(t, Unpack(data)).Peeled? ==> |held| == |kept| == |data|
  {
    hide IsCode, WellSized, PrefixFree, BitsOf, Pow2, Mask, PushBits, Unpack, Peel, HasWord, Starts, DecoderTrace,
      Peeling, Settled, Decoded, Unmatched;
    held, kept := [], [];
    var out: seq<byte> := [];
    var acc, accBits: nat := 0, 0;
    PartsOfCode(t);
    NothingSeen(t, data);
    for i := 0 to |data|
      invariant |held| == |kept| == i && DecoderTrace(t, data, held, kept)
      invariant Settled(t, data[..i], out, acc, accBits)
    {
      ghost var seen := data[..i + 1];
      assert seen == data[..i] + [data[i]];
      SettledBits(t, data[..i], out, acc, accBits);
      DecoderStep(t, data[..i], data[i], out, acc, accBits);
      acc := PushBits(acc, accBits, data[i], 8);
      accBits := accBits + 8;
      DecoderTraceHold(t, data, held, kept);
      held := held + [accBits];
      while true
        invariant accBits <= 37 && Peeling(t, seen, out, acc, accBits)
        decreases accBits
      {
        var found := MatchFront(t, acc, accBits);
        if found.None? {
          DecoderSettles(t, seen, out, acc, accBits);
          break;
        }
        var sym := found.value;
        DecoderTakes(t, seen, out, acc, accBits, sym);
        if sym == EOS {
          EmbeddedEosFails(t, data, i);
          r := Err(InvalidHuffman);
          return;
        }
        out := out + [sym];
        accBits := accBits - t[sym].length;
      }
      SettledBits(t, seen, out, acc, accBits);
      DecoderTraceKeep(t, data, held, kept);
      kept := kept + [accBits];
    }
    assert data[..|data|] == data;
    DecoderEnds(t, data, out, acc, accBits);
    if accBits >= 8 {
      r := Err(InvalidHuffman);
      return;
    }
    if accBits > 0 && Mask(acc, accBits) != Pow2(accBits) - 1 {
      r := Err(InvalidHuffman);
      return;
    }
    r := Ok(out);
  }

  lemma SettledBits(t: CodeTable, seen: seq<byte>, out: seq<byte>, acc: nat, live: nat)
    requires WellSized(t) && Settled(t, seen, out, acc, live)
    ensures live == Unmatched(t, seen) <= 29
  {
  }

  lemma EmbeddedEosFails(t: CodeTable, data: seq<byte>, i: nat)
    requires WellSized(t) && PrefixFree(t) && i < |data| && Peel(t, Unpack(data[..i + 1])).EmbeddedEos?
    ensures Peel(t, Unpack(data)).EmbeddedEos? && Decoded(t, data) == Err(InvalidHuffman)
  {
    hide Unpack, Peel;
    var seen := data[..i + 1];
    assert data == seen + data[i + 1..];
    UnpackConcat(seen, data[i + 1..]);
    PeelAppend(t, Unpack(seen), Unpack(data[i + 1..]));
  }
}
