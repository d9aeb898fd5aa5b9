/** Bit strings, most significant bit first, and the numbers and octets they spell. */
module Bits {
  import opened Bytes

  type Bits = seq<bool>

  /** The low `length` bits of `value`. */
  function BitsOf(value: nat, length: nat): (r: Bits)
    ensures |r| == length
  {
    if length == 0 then [] else BitsOf(value / 2, length - 1) + [value % 2 == 1]
  }

  function ToNat(b: Bits): nat {
    if b == [] then 0 else 2 * ToNat(b[..|b| - 1]) + (if b[|b| - 1] then 1 else 0)
  }

  predicate AllOnes(b: Bits) {
    forall i :: 0 <= i < |b| ==> b[i]
  }

  function Ones(n: nat): (r: Bits)
    ensures |r| == n && AllOnes(r)
  {
    seq(n, _ => true)
  }

  // ---- shifts and masks ----------------------------------------------------

  /** `v << n`, before any truncation. */
  function Shl(v: nat, n: nat): nat {
    if n == 0 then v else 2 * Shl(v, n - 1)
  }

  /** `v >> n`. */
  function Shr(v: nat, n: nat): nat {
    if n == 0 then v else Shr(v / 2, n - 1)
  }

  /** `v & ((1 << n) - 1)`; with `n` the width of a machine word, the wrap-around to it. */
  function Mask(v: nat, n: nat): (r: nat)
    ensures r < Pow2(n)
  {
    if n == 0 then 0 else 2 * Mask(v / 2, n - 1) + v % 2
  }

  /** The recursive shifts are the usual quotient, remainder and product. */
  lemma {:induction false} ShiftMeaning(v: nat, n: nat)
    ensures Shl(v, n) == v * Pow2(n)
    ensures v == Pow2(n) * Shr(v, n) + Mask(v, n)
    ensures Shr(v, n) == v / Pow2(n) && Mask(v, n) == v % Pow2(n)
  {
    ShiftDecomposes(v, n);
    DivModOfSum(Pow2(n), Shr(v, n), Mask(v, n));
  }

  lemma Double(p: nat, k: nat)
    ensures (2 * p) * k == 2 * (p * k) && k * (2 * p) == 2 * (k * p)
  {
  }

  lemma {:induction false} ShiftDecomposes(v: nat, n: nat)
    ensures Shl(v, n) == v * Pow2(n)
    ensures v == Pow2(n) * Shr(v, n) + Mask(v, n)
  {
    if n > 0 {
      ShiftDecomposes(v, n - 1);
      ShiftDecomposes(v / 2, n - 1);
      Double(Pow2(n - 1), v);
      Double(Pow2(n - 1), Shr(v / 2, n - 1));
    }
  }

  // ---- bit strings and numbers ---------------------------------------------

  /** The high and the low part of a field of bits. */
  lemma {:induction false} BitsOfSplit(v: nat, hi: nat, lo: nat)
    ensures BitsOf(v, hi + lo) == BitsOf(Shr(v, lo), hi) + BitsOf(v, lo)
  {
    if lo > 0 {
      BitsOfSplit(v / 2, hi, lo - 1);
      assert BitsOf(v, hi + lo) == BitsOf(v / 2, hi + (lo - 1)) + [v % 2 == 1];
    }
  }

  /** Only the low bits of the value matter. */
  lemma {:induction false} BitsOfMask(v: nat, length: nat, width: nat)
    requires length <= width
    ensures BitsOf(Mask(v, width), length) == BitsOf(v, length)
  {
    if length > 0 {
      BitsOfMask(v / 2, length - 1, width - 1);
    }
  }

  /** Shifting in `low` below `v`. */
  lemma {:induction false} BitsOfAppend(v: nat, hi: nat, low: nat, lo: nat)
    requires low < Pow2(lo)
    ensures BitsOf(Shl(v, lo) + low, hi + lo) == BitsOf(v, hi) + BitsOf(low, lo)
  {
    if lo > 0 {
      BitsOfAppend(v, hi, low / 2, lo - 1);
      var w := Shl(v, lo) + low;
      assert w / 2 == Shl(v, lo - 1) + low / 2 && w % 2 == low % 2;
      assert BitsOf(w, hi + lo) == BitsOf(w / 2, hi + (lo - 1)) + [w % 2 == 1];
    }
  }

  lemma {:induction false} ToNatBound(b: Bits)
    ensures ToNat(b) < Pow2(|b|)
  {
    if b != [] {
      ToNatBound(b[..|b| - 1]);
    }
  }

  lemma {:induction false} BitsOfToNat(b: Bits)
    ensures BitsOf(ToNat(b), |b|) == b
  {
    if b != [] {
      var front := b[..|b| - 1];
      BitsOfToNat(front);
      assert ToNat(b) / 2 == ToNat(front) && (ToNat(b) % 2 == 1) == b[|b| - 1];
      assert b == front + [b[|b| - 1]];
    }
  }

  lemma {:induction false} ToNatBitsOf(v: nat, length: nat)
    ensures ToNat(BitsOf(v, length)) == Mask(v, length)
  {
    if length > 0 {
      ToNatBitsOf(v / 2, length - 1);
      assert BitsOf(v, length)[..length - 1] == BitsOf(v / 2, length - 1);
    }
  }

  lemma {:induction false} MaskNoop(v: nat, n: nat)
    requires v < Pow2(n)
    ensures Mask(v, n) == v
  {
    if n > 0 {
      MaskNoop(v / 2, n - 1);
    }
  }

  /** A field of ones is the mask of its width. */
  lemma {:induction false} AllOnesIsMask(v: nat, length: nat)
    ensures AllOnes(BitsOf(v, length)) <==> Mask(v, length) == Pow2(length) - 1
  {
    if length > 0 {
      var front := BitsOf(v / 2, length - 1);
      AllOnesIsMask(v / 2, length - 1);
      var b := BitsOf(v, length);
      assert b == front + [v % 2 == 1];
      AllOnesConcat(front, [v % 2 == 1]);
      assert AllOnes([v % 2 == 1]) <==> v % 2 == 1 by { assert [v % 2 == 1][0] == (v % 2 == 1); }
    }
  }

  lemma AllOnesConcat(a: Bits, b: Bits)
    ensures AllOnes(a + b) <==> AllOnes(a) && AllOnes(b)
  {
    if AllOnes(a + b) {
      forall i | 0 <= i < |a| ensures a[i] { assert (a + b)[i]; }
      forall i | 0 <= i < |b| ensures b[i] { assert (a + b)[|a| + i]; }
    }
  }

  // ---- bit strings and octets ----------------------------------------------

  function Unpack(bytes: seq<byte>): (r: Bits)
    ensures |r| == 8 * |bytes|
  {
    if bytes == [] then [] else Unpack(bytes[..|bytes| - 1]) + BitsOf(bytes[|bytes| - 1], 8)
  }

  function Pack(b: Bits): (r: seq<byte>)
    requires |b| % 8 == 0
  {
    if b == [] then []
    else
      ToNatBound(b[|b| - 8..]);
      assert Pow2(8) == 256;
      Pack(b[..|b| - 8]) + [ToNat(b[|b| - 8..])]
  }

  lemma {:induction false} UnpackPack(b: Bits)
    requires |b| % 8 == 0
    ensures Unpack(Pack(b)) == b
  {
    if b != [] {
      hide Pack, Unpack;
      var front, last := b[..|b| - 8], b[|b| - 8..];
      UnpackPack(front);
      assert b == front + last;
      UnpackPackPush(front, last);
    }
  }

  lemma UnpackPackPush(front: Bits, last: Bits)
    requires |front| % 8 == 0 && |last| == 8
    ensures Unpack(Pack(front + last)) == Unpack(Pack(front)) + last
  {
    hide *;
    BitsOfToNat(last);
    PackPush(front, last);
    UnpackPush(Pack(front), ToNat(last));
  }

  lemma OctetBits(b: byte)
    ensures ToNat(BitsOf(b, 8)) == b
  {
    ToNatBitsOf(b, 8);
    assert Pow2(8) == 256;
    MaskNoop(b, 8);
  }

  lemma PackPush(front: Bits, last: Bits)
    requires |front| % 8 == 0 && |last| == 8
    ensures ToNat(last) < 256 && Pack(front + last) == Pack(front) + [ToNat(last)]
  {
    ToNatBound(last);
    assert Pow2(8) == 256;
    var b := front + last;
    assert b[|b| - 8..] == last && b[..|b| - 8] == front;
  }

  lemma UnpackPush(bytes: seq<byte>, b: byte)
    ensures Unpack(bytes + [b]) == Unpack(bytes) + BitsOf(b, 8)
  {
    assert (bytes + [b])[..|bytes|] == bytes;
  }

  lemma {:induction false} UnpackConcat(a: seq<byte>, b: seq<byte>)
    ensures Unpack(a + b) == Unpack(a) + Unpack(b)
  {
    hide BitsOf;
    if |b| == 0 {
      assert a + b == a;
    } else {
      var front, last := b[..|b| - 1], b[|b| - 1];
      UnpackConcat(a, front);
      assert a + b == (a + front) + [last];
      UnpackPush(a + front, last);
    }
  }

  lemma {:induction false} PackUnpack(bytes: seq<byte>)
    ensures Pack(Unpack(bytes)) == bytes
  {
    if |bytes| == 0 {
      assert bytes == [];
    } else {
      hide *;
      var front, last := bytes[..|bytes| - 1], bytes[|bytes| - 1];
      assert bytes == front + [last];
      PackUnpack(front);
      PackUnpackPush(front, last);
    }
  }

  lemma PackUnpackPush(front: seq<byte>, last: byte)
    requires Pack(Unpack(front)) == front
    ensures Pack(Unpack(front + [last])) == front + [last]
  {
    hide *;
    OctetBits(last);
    UnpackPush(front, last);
    PackPush(Unpack(front), BitsOf(last, 8));
  }

  // ---- a 64-bit accumulator holding `live` bits at its low end --------------

  /** `acc << length | code` in 64 bits, where no shift is out of range and no live bit is lost. */
  function PushBits(acc: nat, live: nat, code: nat, length: nat): (r: nat)
    requires length < 64 && live + length <= 64 && code < Pow2(length)
    ensures r < Pow2(64)
  {
    Mask(Shl(acc, length) + code, 64)
  }

  lemma PushBitsMeaning(acc: nat, live: nat, code: nat, length: nat)
    requires length < 64 && live + length <= 64 && code < Pow2(length)
    ensures BitsOf(PushBits(acc, live, code, length), live + length) == BitsOf(acc, live) + BitsOf(code, length)
  {
    BitsOfAppend(acc, live, code, length);
    BitsOfMask(Shl(acc, length) + code, live + length, 64);
  }

  /** `(acc >> (live - length)) & mask`: the oldest `length` live bits. */
  function FrontBits(acc: nat, live: nat, length: nat): (r: nat)
    requires length <= live && live - length < 64 && length < 64
    ensures r < Pow2(length)
  {
    Mask(Shr(acc, live - length), length)
  }

  lemma FrontBitsMeaning(acc: nat, live: nat, length: nat)
    requires length <= live && live - length < 64 && length < 64
    ensures BitsOf(FrontBits(acc, live, length), length) == BitsOf(acc, live)[..length]
    ensures BitsOf(acc, live - length) == BitsOf(acc, live)[length..]
  {
    BitsOfSplit(acc, length, live - length);
    BitsOfMask(Shr(acc, live - length), length, length);
  }

  /** `(acc >> (live - 8)) as u8`: the oldest live octet. */
  function FrontOctet(acc: nat, live: nat): byte
    requires 8 <= live && live - 8 < 64
  {
    assert Pow2(8) == 256;
    FrontBits(acc, live, 8)
  }

  lemma FrontOctetMeaning(acc: nat, live: nat)
    requires 8 <= live && live - 8 < 64
    ensures BitsOf(FrontOctet(acc, live), 8) + BitsOf(acc, live - 8) == BitsOf(acc, live)
  {
    hide FrontBits, BitsOf;
    FrontBitsMeaning(acc, live, 8);
    assert BitsOf(acc, live) == BitsOf(acc, live)[..8] + BitsOf(acc, live)[8..];
  }

  /** Moving the oldest live octet to the output keeps what output and live bits spell. */
  lemma Emit(out: seq<byte>, acc: nat, live: nat)
    requires 8 <= live && live - 8 < 64
    ensures Unpack(out + [FrontOctet(acc, live)]) + BitsOf(acc, live - 8) == Unpack(out) + BitsOf(acc, live)
  {
    hide *;
    FrontOctetMeaning(acc, live);
    UnpackPush(out, FrontOctet(acc, live));
    var a, b, c := Unpack(out), BitsOf(FrontOctet(acc, live), 8), BitsOf(acc, live - 8);
    assert (a + b) + c == a + (b + c);
  }

  lemma OnesOf(n: nat)
    ensures BitsOf(Pow2(n) - 1, n) == Ones(n)
  {
    MaskNoop(Pow2(n) - 1, n);
    AllOnesIsMask(Pow2(n) - 1, n);
  }
}
