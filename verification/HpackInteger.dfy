/** The variable-length integers of section 5.1 of RFC 7541. */
module HpackInteger {
  import opened Bytes
  import opened HpackTable

  type Decoded = Result<(nat, nat), HpackError>

  // ---- encoding ------------------------------------------------------------

  /** Little-endian groups of seven bits, all but the last carrying the continuation bit. */
  function Groups(n: nat): (r: seq<byte>)
    ensures |r| > 0
  {
    if n < 128 then [n] else [n % 128 + 128] + Groups(n / 128)
  }

  lemma GroupsStep(out: seq<byte>, n: nat)
    requires n >= 128
    ensures out + Groups(n) == out + [n % 128 + 128] + Groups(n / 128)
  {
  }

  function Encoded(value: nat, prefixBits: nat): (r: seq<byte>)
    requires 1 <= prefixBits <= 8
    ensures |r| > 0 && r[0] < Pow2(prefixBits)
  {
    PrefixBounds(prefixBits);
    var maxPrefix := Pow2(prefixBits) - 1;
    if value < maxPrefix then [value] else [maxPrefix] + Groups(value - maxPrefix)
  }

  lemma PrefixBounds(prefixBits: nat)
    requires 1 <= prefixBits <= 8
    ensures 2 <= Pow2(prefixBits) <= 256
    ensures Pow2(4) == 16 && Pow2(5) == 32 && Pow2(6) == 64 && Pow2(7) == 128 && Pow2(8) == 256
  {
    assert Pow2(4) == 16 && Pow2(5) == 32 && Pow2(6) == 64 && Pow2(7) == 128 && Pow2(8) == 256;
    Pow2Monotone(1, prefixBits);
    Pow2Monotone(prefixBits, 8);
  }

  /** The encoding with `flags` or-ed into the bits above the prefix. */
  function Flagged(flags: nat, value: nat, prefixBits: nat): (r: seq<byte>)
    requires 1 <= prefixBits <= 8
    requires flags % Pow2(prefixBits) == 0 && flags + Pow2(prefixBits) <= 256
    ensures |r| > 0 && flags <= r[0] < flags + Pow2(prefixBits)
  {
    var e := Encoded(value, prefixBits);
    [flags + e[0]] + e[1..]
  }

  method EncodeInteger(value: nat, prefixBits: nat) returns (out: seq<byte>)
    requires 1 <= prefixBits <= 8
    ensures out == Encoded(value, prefixBits)
  {
    PrefixBounds(prefixBits);
    var maxPrefix := Pow2(prefixBits) - 1;
    if value < maxPrefix {
      return [value];
    }
    hide Pow2;
    out := [maxPrefix];
    var remaining := value - maxPrefix;
    while remaining >= 128
      invariant remaining >= 0
      invariant out + Groups(remaining) == Encoded(value, prefixBits)
    {
      GroupsStep(out, remaining);
      out := out + [remaining % 128 + 128];
      remaining := remaining / 128;
    }
    out := out + [remaining];
  }

  // ---- decoding ------------------------------------------------------------

  /** The continuation loop: `consumed` bytes are behind, `value` holds the sum so far. */
  function Continue(bytes: seq<byte>, consumed: nat, value: nat, shift: nat): (r: Decoded)
    ensures r.Ok? ==> consumed < r.value.1 <= |bytes| && r.value.0 <= USIZE_MAX
    decreases |bytes| - consumed
  {
    if consumed >= |bytes| then Err(Truncated)
    else if shift >= 64 then Err(IntegerOverflow)
    else
      var b := bytes[consumed];
      var candidate := value + (b % 128) * Pow2(shift);
      if candidate > USIZE_MAX then Err(IntegerOverflow)
      else if b < 128 then Ok((candidate, consumed + 1))
      else Continue(bytes, consumed + 1, candidate, shift + 7)
  }

  function Decode(bytes: seq<byte>, prefixBits: nat): (r: Decoded)
    requires 1 <= prefixBits <= 8
    ensures r.Ok? ==> 1 <= r.value.1 <= |bytes| && r.value.0 <= USIZE_MAX
  {
    PrefixBounds(prefixBits);
    if |bytes| == 0 then Err(Truncated)
    else
      var maxPrefix := Pow2(prefixBits) - 1;
      var prefix := bytes[0] % Pow2(prefixBits);
      if prefix < maxPrefix then Ok((prefix, 1)) else Continue(bytes, 1, maxPrefix, 0)
  }

  method DecodeInteger(bytes: seq<byte>, prefixBits: nat) returns (r: Decoded)
    requires 1 <= prefixBits <= 8
    ensures r == Decode(bytes, prefixBits)
  {
    if |bytes| == 0 {
      return Err(Truncated);
    }
    PrefixBounds(prefixBits);
    var maxPrefix := Pow2(prefixBits) - 1;
    var prefix := bytes[0] % Pow2(prefixBits);
    if prefix < maxPrefix {
      return Ok((prefix, 1));
    }
    var value, shift, consumed := maxPrefix, 0, 1;
    while true
      invariant 1 <= consumed <= |bytes| && 0 <= value
      invariant Continue(bytes, consumed, value, shift) == Decode(bytes, prefixBits)
      decreases |bytes| - consumed
    {
      if consumed >= |bytes| {
        return Err(Truncated);
      }
      var b := bytes[consumed];
      consumed := consumed + 1;
      if shift >= 64 {
        return Err(IntegerOverflow);
      }
      var candidate := value + (b % 128) * Pow2(shift);
      if candidate > USIZE_MAX {
        return Err(IntegerOverflow);
      }
      value := candidate;
      if b < 128 {
        break;
      }
      shift := shift + 7;
    }
    r := Ok((value, consumed));
  }

  // ---- the codec's laws ----------------------------------------------------

  /** Scaling by seven bits, the arithmetic of one continuation byte. */
  lemma SevenBits(low: nat, high: nat, shift: nat)
    ensures (low + 128 * high) * Pow2(shift) == low * Pow2(shift) + high * Pow2(shift + 7)
  {
    Pow2Add(shift, 7);
    assert Pow2(7) == 128;
    var p := Pow2(shift);
    assert (low + 128 * high) * p == low * p + high * (p * 128);
  }

  lemma SplitGroup(n: nat, shift: nat)
    ensures n * Pow2(shift) == (n % 128) * Pow2(shift) + (n / 128) * Pow2(shift + 7)
    ensures (n / 128) * Pow2(shift + 7) >= 0
  {
    SevenBits(n % 128, n / 128, shift);
    assert n % 128 + 128 * (n / 128) == n;
  }

  lemma {:induction false} ContinueReadsGroups(before: seq<byte>, n: nat, rest: seq<byte>, value: nat, shift: nat)
    requires value + n * Pow2(shift) <= USIZE_MAX
    requires shift == 0 || n > 0
    ensures Continue(before + Groups(n) + rest, |before|, value, shift)
         == Ok((value + n * Pow2(shift), |before| + |Groups(n)|))
    decreases n
  {
    hide Pow2;
    var bytes := before + Groups(n) + rest;
    var b := Groups(n)[0];
    assert bytes[|before|] == b && b % 128 == n % 128;
    SplitGroup(n, shift);
    ShiftInRange(n, shift);
    if n >= 128 {
      var behind := before + [b];
      assert bytes == behind + Groups(n / 128) + rest;
      ContinueReadsGroups(behind, n / 128, rest, value + (n % 128) * Pow2(shift), shift + 7);
    }
  }

  /** A group that still carries value never sits at a shift of 64 or more. */
  lemma ShiftInRange(n: nat, shift: nat)
    requires n * Pow2(shift) <= USIZE_MAX
    requires shift == 0 || n > 0
    ensures shift < 64
  {
    if shift >= 64 {
      TwoTo64();
      assert n * Pow2(shift) >= Pow2(shift);
      Pow2Monotone(64, shift);
    }
  }

  /** Masking the prefix drops the flag bits. */
  lemma PrefixOfFlagged(flags: nat, value: nat, prefixBits: nat)
    requires 1 <= prefixBits <= 8
    requires flags % Pow2(prefixBits) == 0 && flags + Pow2(prefixBits) <= 256
    ensures Flagged(flags, value, prefixBits)[0] % Pow2(prefixBits) == Encoded(value, prefixBits)[0]
  {
    MultiplePlus(Pow2(prefixBits), flags, Encoded(value, prefixBits)[0]);
  }

  /** Round trip: every `usize`, any prefix width, any flag bits, any bytes after it. */
  lemma DecodeEncoded(flags: nat, value: nat, prefixBits: nat, rest: seq<byte>)
    requires 1 <= prefixBits <= 8
    requires flags % Pow2(prefixBits) == 0 && flags + Pow2(prefixBits) <= 256
    requires value <= USIZE_MAX
    ensures Decode(Flagged(flags, value, prefixBits) + rest, prefixBits)
         == Ok((value, |Flagged(flags, value, prefixBits)|))
  {
    PrefixBounds(prefixBits);
    PrefixOfFlagged(flags, value, prefixBits);
    var maxPrefix := Pow2(prefixBits) - 1;
    var encoded := Flagged(flags, value, prefixBits);
    if value >= maxPrefix {
      assert encoded + rest == [encoded[0]] + Groups(value - maxPrefix) + rest;
      ContinueReadsGroups([encoded[0]], value - maxPrefix, rest, maxPrefix, 0);
      assert (value - maxPrefix) * Pow2(0) == value - maxPrefix;
    }
  }

  /** The base-128 sum of the continuation bytes `bytes[from..to]`, least significant first. */
  function GroupSum(bytes: seq<byte>, from: nat, to: nat): nat
    requires from <= to <= |bytes|
    decreases |bytes| - from
  {
    if from == to then 0 else bytes[from] % 128 + 128 * GroupSum(bytes, from + 1, to)
  }

  lemma {:induction false} ContinueSums(bytes: seq<byte>, consumed: nat, value: nat, shift: nat)
    requires Continue(bytes, consumed, value, shift).Ok?
    ensures var (v, used) := Continue(bytes, consumed, value, shift).value;
      && consumed < used <= |bytes|
      && v == value + GroupSum(bytes, consumed, used) * Pow2(shift)
      && v <= USIZE_MAX
      && bytes[used - 1] < 128
      && (forall i :: consumed <= i < used - 1 ==> bytes[i] >= 128)
      && shift + 7 * (used - consumed) < 64 + 7
    decreases |bytes| - consumed
  {
    var b := bytes[consumed];
    var candidate := value + (b % 128) * Pow2(shift);
    if b >= 128 {
      ContinueSums(bytes, consumed + 1, candidate, shift + 7);
      var (v, used) := Continue(bytes, consumed, value, shift).value;
      SevenBits(b % 128, GroupSum(bytes, consumed + 1, used), shift);
    } else {
      assert GroupSum(bytes, consumed + 1, consumed + 1) == 0;
    }
  }

  /** Every successful decode is the prefix, or the full prefix plus the base-128 sum of
      the continuation bytes, fits a `usize` and takes at most eleven bytes. */
  lemma DecodeMeaning(bytes: seq<byte>, prefixBits: nat)
    requires 1 <= prefixBits <= 8
    requires Decode(bytes, prefixBits).Ok?
    ensures var (v, used) := Decode(bytes, prefixBits).value;
      && 1 <= used <= |bytes| && used <= 11 && v <= USIZE_MAX
      && (if bytes[0] % Pow2(prefixBits) < Pow2(prefixBits) - 1
          then used == 1 && v == bytes[0] % Pow2(prefixBits)
          else v == Pow2(prefixBits) - 1 + GroupSum(bytes, 1, used)
               && bytes[used - 1] < 128 && forall i :: 1 <= i < used - 1 ==> bytes[i] >= 128)
  {
    PrefixBounds(prefixBits);
    var maxPrefix := Pow2(prefixBits) - 1;
    if bytes[0] % Pow2(prefixBits) >= maxPrefix {
      ContinueSums(bytes, 1, maxPrefix, 0);
    }
  }

  // ---- what the decoder refuses --------------------------------------------

  lemma {:induction false} ContinueNeedsAll(before: seq<byte>, n: nat, k: nat, value: nat, shift: nat)
    requires value + n * Pow2(shift) <= USIZE_MAX && k < |Groups(n)|
    requires shift == 0 || n > 0
    ensures Continue(before + Groups(n)[..k], |before|, value, shift) == Err(Truncated)
    decreases n
  {
    hide Pow2;
    if k > 0 {
      var bytes, b := before + Groups(n)[..k], Groups(n)[0];
      assert bytes[|before|] == b && b % 128 == n % 128;
      SplitGroup(n, shift);
      ShiftInRange(n, shift);
      assert bytes == before + [b] + Groups(n / 128)[..k - 1];
      ContinueNeedsAll(before + [b], n / 128, k - 1, value + (n % 128) * Pow2(shift), shift + 7);
    }
  }

  /** An integer cut anywhere short of its end is refused as incomplete. */
  lemma CutIsTruncated(flags: nat, value: nat, prefixBits: nat, k: nat)
    requires 1 <= prefixBits <= 8
    requires flags % Pow2(prefixBits) == 0 && flags + Pow2(prefixBits) <= 256
    requires value <= USIZE_MAX && k < |Flagged(flags, value, prefixBits)|
    ensures Decode(Flagged(flags, value, prefixBits)[..k], prefixBits) == Err(Truncated)
  {
    PrefixBounds(prefixBits);
    PrefixOfFlagged(flags, value, prefixBits);
    var maxPrefix := Pow2(prefixBits) - 1;
    var cut := Flagged(flags, value, prefixBits)[..k];
    if k > 0 {
      var first := Flagged(flags, value, prefixBits)[0];
      assert cut == [first] + Groups(value - maxPrefix)[..k - 1];
      assert (value - maxPrefix) * Pow2(0) == value - maxPrefix;
      ContinueNeedsAll([first], value - maxPrefix, k - 1, maxPrefix, 0);
    }
  }

  lemma {:induction false} ContinueOverflows(before: seq<byte>, n: nat, rest: seq<byte>, value: nat, shift: nat)
    requires value + n * Pow2(shift) > USIZE_MAX
    ensures Continue(before + Groups(n) + rest, |before|, value, shift) == Err(IntegerOverflow)
    decreases n
  {
    hide Pow2;
    var bytes := before + Groups(n) + rest;
    var b := Groups(n)[0];
    assert bytes[|before|] == b && b % 128 == n % 128;
    if n >= 128 {
      SplitGroup(n, shift);
      var behind := before + [b];
      assert bytes == behind + Groups(n / 128) + rest;
      ContinueOverflows(behind, n / 128, rest, value + (n % 128) * Pow2(shift), shift + 7);
    }
  }

  /** A number above the largest `usize` is refused however it is written. */
  lemma LargerOverflows(flags: nat, value: nat, prefixBits: nat, rest: seq<byte>)
    requires 1 <= prefixBits <= 8
    requires flags % Pow2(prefixBits) == 0 && flags + Pow2(prefixBits) <= 256
    requires value > USIZE_MAX
    ensures Decode(Flagged(flags, value, prefixBits) + rest, prefixBits) == Err(IntegerOverflow)
  {
    PrefixBounds(prefixBits);
    PrefixOfFlagged(flags, value, prefixBits);
    var maxPrefix := Pow2(prefixBits) - 1;
    var encoded := Flagged(flags, value, prefixBits);
    assert encoded + rest == [encoded[0]] + Groups(value - maxPrefix) + rest;
    assert (value - maxPrefix) * Pow2(0) == value - maxPrefix;
    ContinueOverflows([encoded[0]], value - maxPrefix, rest, maxPrefix, 0);
  }
}
