/** Vocabulary shared by every model: octets, 64-bit bounds, optional values and results. */
module Bytes {

  /** One octet.  Bit operations of the program are written as arithmetic on it. */
  type byte = b: int | 0 <= b < 256

  datatype Option<+T> = None | Some(value: T)

  datatype Result<+T, +E> = Ok(value: T) | Err(error: E) {
    predicate IsFailure() {
      Err?
    }

    function PropagateFailure<U>(): Result<U, E>
      requires IsFailure()
    {
      Err(error)
    }

    function Extract(): T
      requires !IsFailure()
    {
      value
    }
  }

  /** The largest `usize` (and `u64`) of a 64-bit platform. */
  const USIZE_MAX: nat := 0xFFFF_FFFF_FFFF_FFFF

  /** The octets of an ASCII literal. */
  function Ascii(s: string): (r: seq<byte>)
    ensures |r| == |s|
    ensures forall i :: 0 <= i < |s| && s[i] as int < 128 ==> r[i] == s[i] as int
  {
    seq(|s|, i requires 0 <= i < |s| => Octet(s[i]))
  }

  function Octet(c: char): byte {
    if c as int < 128 then c as int else 63
  }

  function Min(a: nat, b: nat): nat {
    if a <= b then a else b
  }

  function Pow2(n: nat): (p: nat)
    ensures p > 0
  {
    if n == 0 then 1 else 2 * Pow2(n - 1)
  }

  lemma Regroup<T>(a: seq<T>, b: seq<T>, c: seq<T>)
    ensures (a + b) + c == a + (b + c)
  {
  }

  lemma {:induction false} Pow2Add(m: nat, n: nat)
    ensures Pow2(m + n) == Pow2(m) * Pow2(n)
  {
    if n == 0 {
    } else {
      Pow2Add(m, n - 1);
      assert Pow2(m + n) == 2 * Pow2(m + (n - 1));
    }
  }

  lemma {:induction false} Pow2Monotone(m: nat, n: nat)
    requires m <= n
    ensures Pow2(m) <= Pow2(n)
  {
    if m < n {
      Pow2Monotone(m, n - 1);
    }
  }

  lemma PowerEight()
    ensures Pow2(8) == 256
  {
  }

  lemma TwoTo64()
    ensures Pow2(64) == USIZE_MAX + 1
  {
    PowerEight();
    hide Pow2;
    Pow2Add(8, 8);
    Pow2Add(16, 16);
    Pow2Add(32, 32);
  }

  // ---- division by a variable ----------------------------------------------

  lemma MulMonotone(p: nat, a: int, b: int)
    requires a <= b
    ensures p * a <= p * b
  {
  }

  /** Quotient and remainder are determined by the product form. */
  lemma QuotientUnique(p: nat, a: int, r: int, b: int, s: int)
    requires 0 <= r < p && 0 <= s < p
    requires p * a + r == p * b + s
    ensures a == b && r == s
  {
    if a < b {
      MulMonotone(p, a + 1, b);
    } else if b < a {
      MulMonotone(p, b + 1, a);
    }
  }

  lemma DivModOfSum(p: nat, q: int, r: int)
    requires 0 <= r < p
    ensures (p * q + r) / p == q && (p * q + r) % p == r
  {
    var n := p * q + r;
    QuotientUnique(p, q, r, n / p, n % p);
  }

  lemma MultiplePlus(p: nat, n: nat, r: nat)
    requires 0 < p && n % p == 0 && r < p
    ensures (n + r) % p == r
  {
    var q := n / p;
    assert n == p * q;
    DivModOfSum(p, q, r);
  }
}
