/** The manager's percent-encoder against the two decoders that should undo it: the manager's
    query parser and the request target normalizer. */
module PercentCoding {
  import opened Bytes
  import opened Text
  import opened UriNormalize
  import Utf8

  const AMPERSAND: byte := 38
  const EQUALS: byte := 61

  // ---- encoding ------------------------------------------------------------

  /** ASCII letters, digits, `-`, `_`, `.` and `~`. */
  predicate Unreserved(b: byte) {
    65 <= b <= 90 || 97 <= b <= 122 || IsDigit(b) || b == 45 || b == 95 || b == 46 || b == 126
  }

  function UpperHexDigit(v: nat): (b: byte)
    requires v < 16
    ensures IsHex(b) && HexValue(b) == v && Unreserved(b)
  {
    if v < 10 then 48 + v else 55 + v
  }

  function EncodedOctet(b: byte): (r: seq<byte>)
    ensures r != [] && forall i :: 0 <= i < |r| ==> Unreserved(r[i]) || r[i] == PERCENT
  {
    if Unreserved(b) then [b] else [PERCENT, UpperHexDigit(b / 16), UpperHexDigit(b % 16)]
  }

  /** The encoded form uses unreserved octets and `%` only. */
  function UrlEncoded(s: seq<byte>): (r: seq<byte>)
    ensures forall i :: 0 <= i < |r| ==> Unreserved(r[i]) || r[i] == PERCENT
  {
    if s == [] then [] else EncodedOctet(s[0]) + UrlEncoded(s[1..])
  }

  method UrlEncode(input: seq<byte>) returns (out: seq<byte>)
    ensures out == UrlEncoded(input)
  {
    hide UrlEncoded;
    out := [];
    assert input[0..] == input && [] + UrlEncoded(input) == UrlEncoded(input);
    for i := 0 to |input|
      invariant UrlEncoded(input) == out + UrlEncoded(input[i..])
    {
      var b := input[i];
      EncodingStep(out, input[i..]);
      assert input[i..][1..] == input[i + 1..];
      if Unreserved(b) {
        out := out + [b];
      } else {
        out := out + [PERCENT, UpperHexDigit(b / 16), UpperHexDigit(b % 16)];
      }
    }
    EncodingStep(out, input[|input|..]);
  }

  lemma EncodingStep(out: seq<byte>, s: seq<byte>)
    ensures out + UrlEncoded(s) == if s == [] then out else out + EncodedOctet(s[0]) + UrlEncoded(s[1..])
  {
    hide EncodedOctet;
  }

  // ---- the manager's decoder -----------------------------------------------

  /** The escape that starts `s` is complete. */
  predicate Escape(s: seq<byte>) {
    |s| > 2 && s[0] == PERCENT && IsHex(s[1]) && IsHex(s[2])
  }

  function FormOctets(input: seq<byte>): seq<byte> {
    if input == [] then []
    else if Escape(input) then [16 * HexValue(input[1]) + HexValue(input[2])] + FormOctets(input[3..])
    else [if input[0] == PLUS then SPACE else input[0]] + FormOctets(input[1..])
  }

  /** The decoded octets, or the input itself when they are not text. */
  function FormDecoded(input: seq<byte>): seq<byte> {
    if Utf8.Valid(FormOctets(input)) then FormOctets(input) else input
  }

  method FormDecode(input: seq<byte>) returns (r: seq<byte>)
    ensures r == FormDecoded(input)
  {
    hide FormOctets, HexValue, Utf8.Valid;
    var out: seq<byte> := [];
    var i := 0;
    assert input[0..] == input && [] + FormOctets(input) == FormOctets(input);
    while i < |input|
      invariant i <= |input|
      invariant FormOctets(input) == out + FormOctets(input[i..])
    {
      FormStep(out, input[i..]);
      var step := 1;
      var b := input[i];
      if input[i] == PLUS {
        b := SPACE;
      } else if input[i] == PERCENT && i + 2 < |input| {
        if IsHex(input[i + 1]) && IsHex(input[i + 2]) {
          b := 16 * HexValue(input[i + 1]) + HexValue(input[i + 2]);
          step := 3;
        }
      }
      assert input[i..][step..] == input[i + step..];
      out := out + [b];
      i := i + step;
    }
    FormStep(out, input[i..]);
    r := if Utf8.Valid(out) then out else input;
  }

  lemma FormStep(out: seq<byte>, s: seq<byte>)
    ensures out + FormOctets(s) ==
      if s == [] then out
      else if Escape(s) then out + [16 * HexValue(s[1]) + HexValue(s[2])] + FormOctets(s[3..])
      else out + [if s[0] == PLUS then SPACE else s[0]] + FormOctets(s[1..])
  {
    hide HexValue;
    if s == [] {
      assert out + [] == out;
    } else {
      var b := if Escape(s) then 16 * HexValue(s[1]) + HexValue(s[2]) else if s[0] == PLUS then SPACE else s[0];
      var rest := FormOctets(s[if Escape(s) then 3 else 1..]);
      assert FormOctets(s) == [b] + rest;
      hide *;
      Regroup(out, [b], rest);
    }
  }

  lemma {:induction false} OctetsOfEncoded(s: seq<byte>)
    ensures FormOctets(UrlEncoded(s)) == s
  {
    if s != [] {
      OctetsOfEncoded(s[1..]);
      var rest := UrlEncoded(s[1..]);
      var code := EncodedOctet(s[0]) + rest;
      assert code[|EncodedOctet(s[0])|..] == rest;
    }
  }

  /** The manager reads back every string it encodes. */
  lemma EncodedFormDecodes(s: seq<byte>)
    requires Utf8.Valid(s)
    ensures FormDecoded(UrlEncoded(s)) == s
  {
    OctetsOfEncoded(s);
  }

  // ---- query strings -------------------------------------------------------

  type Query = map<seq<byte>, seq<byte>>

  /** What one `&`-separated piece adds to the query. */
  function PairOf(piece: seq<byte>): Query {
    if piece == [] then map[]
    else
      match IndexOf(piece, EQUALS)
      case Some(i) => map[FormDecoded(piece[..i]) := FormDecoded(piece[i + 1..])]
      case None => map[FormDecoded(piece) := FormDecoded([])]
  }

  function PairsOf(pieces: seq<seq<byte>>): Query {
    if pieces == [] then map[] else PairsOf(pieces[..|pieces| - 1]) + PairOf(pieces[|pieces| - 1])
  }

  function QueryOf(raw: seq<byte>): Query {
    PairsOf(Split(raw, AMPERSAND))
  }

  method ParseQuery(raw: seq<byte>) returns (out: Query)
    ensures out == QueryOf(raw)
  {
    hide Split, FormOctets, FormDecoded, PairOf, PairsOf, IndexOf;
    out := map[];
    var pieces := Split(raw, AMPERSAND);
    NoPairs();
    for n := 0 to |pieces|
      invariant out == PairsOf(pieces[..n])
    {
      var piece := pieces[n];
      OnePieceMore(pieces, n);
      PieceAdds(piece, out);
      if piece == [] {
        continue;
      }
      var k, v := piece, [];
      var mark := IndexOf(piece, EQUALS);
      if mark.Some? {
        k, v := piece[..mark.value], piece[mark.value + 1..];
      }
      k := FormDecode(k);
      v := FormDecode(v);
      out := out[k := v];
    }
    assert pieces[..|pieces|] == pieces;
  }

  lemma NoPairs()
    ensures PairsOf([]) == map[]
  {
  }

  lemma OnePieceMore(pieces: seq<seq<byte>>, n: nat)
    requires n < |pieces|
    ensures PairsOf(pieces[..n + 1]) == PairsOf(pieces[..n]) + PairOf(pieces[n])
  {
    hide PairOf;
    assert pieces[..n + 1][..n] == pieces[..n];
  }

  /** A piece adds nothing, or one name. */
  lemma PieceAdds(piece: seq<byte>, q: Query)
    ensures var mark := IndexOf(piece, EQUALS);
      q + PairOf(piece) ==
        if piece == [] then q
        else if mark.Some? then q[FormDecoded(piece[..mark.value]) := FormDecoded(piece[mark.value + 1..])]
        else q[FormDecoded(piece) := FormDecoded([])]
  {
    hide FormDecoded, IndexOf;
  }

  lemma {:induction false} PairsConcat(a: seq<seq<byte>>, b: seq<seq<byte>>)
    ensures PairsOf(a + b) == PairsOf(a) + PairsOf(b)
    decreases |b|
  {
    hide PairOf;
    if b == [] {
      assert a + b == a && PairsOf(a) + map[] == PairsOf(a);
    } else {
      var front := b[..|b| - 1];
      PairsConcat(a, front);
      assert (a + b)[..|a + b| - 1] == a + front;
      assert (a + b)[|a + b| - 1] == b[|b| - 1];
      OverlayAssociates(PairsOf(a), PairsOf(front), PairOf(b[|b| - 1]));
    }
  }

  lemma OverlayAssociates(a: Query, b: Query, c: Query)
    ensures (a + b) + c == a + (b + c)
  {
  }

  lemma OnePieceQuery(piece: seq<byte>)
    requires AMPERSAND !in piece
    ensures QueryOf(piece) == PairOf(piece)
  {
    hide PairOf;
    var one := [piece];
    assert Split(piece, AMPERSAND) == one && one[..0] == [];
    assert PairsOf(one) == PairsOf(one[..0]) + PairOf(piece);
    assert map[] + PairOf(piece) == PairOf(piece);
  }

  lemma {:induction false} SplitAtSeparator(a: seq<byte>, b: seq<byte>, c: byte)
    ensures Split(a + [c] + b, c) == Split(a, c) + Split(b, c)
    decreases |a|
  {
    var s := a + [c] + b;
    var mark := IndexOf(a, c);
    hide IndexOf;
    if mark.None? {
      assert s[..|a|] == a && s[|a| + 1..] == b;
      IndexOfAt(s, c, |a|);
    } else {
      var i := mark.value;
      var rest := a[i + 1..];
      assert s[..i] == a[..i] && s[i + 1..] == rest + [c] + b;
      IndexOfAt(s, c, i);
      SplitAtSeparator(rest, b, c);
      assert Split(s, c) == [a[..i]] + Split(rest + [c] + b, c);
      assert [a[..i]] + (Split(rest, c) + Split(b, c)) == ([a[..i]] + Split(rest, c)) + Split(b, c);
    }
  }

  /** Joining two queries with `&` overlays the second on the first, whatever they hold. */
  lemma QueriesCompose(a: seq<byte>, b: seq<byte>)
    ensures QueryOf(a + [AMPERSAND] + b) == QueryOf(a) + QueryOf(b)
  {
    SplitAtSeparator(a, b, AMPERSAND);
    PairsConcat(Split(a, AMPERSAND), Split(b, AMPERSAND));
  }

  function RenderedPair(name: seq<byte>, value: seq<byte>): seq<byte> {
    UrlEncoded(name) + [EQUALS] + UrlEncoded(value)
  }

  /** `name=value` pairs with `&` between them. */
  function RenderedQuery(pairs: seq<(seq<byte>, seq<byte>)>): seq<byte>
  {
    if pairs == [] then []
    else
      var last := pairs[|pairs| - 1];
      var front := pairs[..|pairs| - 1];
      if front == [] then RenderedPair(last.0, last.1)
      else RenderedQuery(front) + [AMPERSAND] + RenderedPair(last.0, last.1)
  }

  /** The map that the pairs describe, the last one of a name winning. */
  function LastWins(pairs: seq<(seq<byte>, seq<byte>)>): Query {
    if pairs == [] then map[]
    else LastWins(pairs[..|pairs| - 1])[pairs[|pairs| - 1].0 := pairs[|pairs| - 1].1]
  }

  lemma RenderedPairParses(name: seq<byte>, value: seq<byte>)
    requires Utf8.Valid(name) && Utf8.Valid(value)
    ensures QueryOf(RenderedPair(name, value)) == map[name := value]
  {
    hide FormDecoded, UrlEncoded;
    var piece := RenderedPair(name, value);
    var i := |UrlEncoded(name)|;
    assert piece[..i] == UrlEncoded(name) && piece[i + 1..] == UrlEncoded(value);
    IndexOfAt(piece, EQUALS, i);
    EncodedFormDecodes(name);
    EncodedFormDecodes(value);
    assert PairOf(piece) == map[name := value];
    assert AMPERSAND !in piece;
    OnePieceQuery(piece);
  }

  /** A query of encoded names and values parses to exactly those pairs. */
  lemma {:induction false} RenderedQueryParses(pairs: seq<(seq<byte>, seq<byte>)>)
    requires forall i :: 0 <= i < |pairs| ==> Utf8.Valid(pairs[i].0) && Utf8.Valid(pairs[i].1)
    ensures QueryOf(RenderedQuery(pairs)) == LastWins(pairs)
  {
    hide RenderedPair, QueryOf;
    if pairs == [] {
      OnePieceQuery([]);
    } else {
      var last := pairs[|pairs| - 1];
      var front := pairs[..|pairs| - 1];
      RenderedQueryParses(front);
      RenderedPairParses(last.0, last.1);
      if front != [] {
        QueriesCompose(RenderedQuery(front), RenderedPair(last.0, last.1));
      }
      assert LastWins(front) + map[last.0 := last.1] == LastWins(front)[last.0 := last.1];
    }
  }

  // ---- request targets -----------------------------------------------------

  /** A path segment that a target can name. */
  predicate Nameable(s: seq<byte>) {
    Ordinary(s) && SLASH !in s && BACKSLASH !in s && 0 !in s && Utf8.Valid(s)
  }

  function EncodedAll(names: seq<seq<byte>>): (r: seq<seq<byte>>)
    ensures |r| == |names|
  {
    seq(|names|, i requires 0 <= i < |names| => UrlEncoded(names[i]))
  }

  lemma {:induction false} TargetDecodes(s: seq<byte>, rest: seq<byte>)
    requires SLASH !in s && 0 !in s
    ensures PercentDecoded(UrlEncoded(s) + rest) == Prepend(s, PercentDecoded(rest))
    decreases |s|
  {
    if s == [] {
      assert UrlEncoded(s) + rest == rest;
      PrependNothing(PercentDecoded(rest));
    } else {
      var code := EncodedOctet(s[0]);
      var tail := UrlEncoded(s[1..]) + rest;
      TargetDecodes(s[1..], rest);
      assert UrlEncoded(s) + rest == code + tail;
      OctetDecodes(s[0], tail);
      PrependJoined([s[0]], s[1..], PercentDecoded(rest));
      assert [s[0]] + s[1..] == s;
    }
  }

  lemma OctetDecodes(b: byte, tail: seq<byte>)
    requires b != SLASH && b != 0
    ensures PercentDecoded(EncodedOctet(b) + tail) == Prepend([b], PercentDecoded(tail))
  {
    var code := EncodedOctet(b) + tail;
    assert code[|EncodedOctet(b)|..] == tail;
  }

  lemma PrependJoined(a: seq<byte>, b: seq<byte>, r: Decoding)
    ensures Prepend(a, Prepend(b, r)) == Prepend(a + b, r)
  {
    if r.Ok? {
      assert a + (b + r.value) == (a + b) + r.value;
    }
  }

  lemma SlashDecodes(rest: seq<byte>)
    ensures PercentDecoded([SLASH] + rest) == Prepend([SLASH], PercentDecoded(rest))
  {
    assert ([SLASH] + rest)[1..] == rest;
  }

  lemma {:induction false} JoinedDecodes(names: seq<seq<byte>>, rest: seq<byte>)
    requires names != [] && forall i :: 0 <= i < |names| ==> Nameable(names[i])
    ensures PercentDecoded(Join(EncodedAll(names), SLASH) + rest) == Prepend(Join(names, SLASH), PercentDecoded(rest))
    decreases |names|
  {
    hide PercentDecoded, UrlEncoded, Prepend;
    var first := UrlEncoded(names[0]);
    if |names| == 1 {
      TargetDecodes(names[0], rest);
    } else {
      assert EncodedAll(names)[1..] == EncodedAll(names[1..]);
      var tail := Join(EncodedAll(names[1..]), SLASH) + rest;
      assert Join(EncodedAll(names), SLASH) + rest == first + ([SLASH] + tail);
      TargetDecodes(names[0], [SLASH] + tail);
      SlashDecodes(tail);
      JoinedDecodes(names[1..], rest);
      PrependJoined([SLASH], Join(names[1..], SLASH), PercentDecoded(rest));
      PrependJoined(names[0], [SLASH] + Join(names[1..], SLASH), PercentDecoded(rest));
      assert names[0] + ([SLASH] + Join(names[1..], SLASH)) == Join(names, SLASH);
    }
  }

  /** `/`, the encoded names with slashes between them, perhaps a slash, perhaps a query. */
  function Spelled(names: seq<seq<byte>>, trailing: bool, query: Option<seq<byte>>): seq<byte> {
    Rebuilt(EncodedAll(names), trailing) + (if query.Some? then [QUESTION] + query.value else [])
  }

  lemma RebuiltDecodes(names: seq<seq<byte>>, trailing: bool)
    requires forall i :: 0 <= i < |names| ==> Nameable(names[i])
    ensures PercentDecoded(Rebuilt(EncodedAll(names), trailing)) == Ok(Rebuilt(names, trailing))
  {
    hide UrlEncoded;
    var codes := EncodedAll(names);
    if names == [] {
      SlashDecodes([]);
      assert [SLASH] + JoinAll(names) + [] == [SLASH];
      assert [SLASH] + JoinAll(codes) + [] == [SLASH] + [];
    } else {
      var end := if trailing then [SLASH] else [];
      CodesNotEmpty(names);
      JoinNotEmpty(codes);
      JoinNotEmpty(names);
      SlashDecodes([]);
      assert [SLASH] + [] == [SLASH];
      assert PercentDecoded(end) == Ok(end);
      JoinedDecodes(names, end);
      SlashDecodes(Join(codes, SLASH) + end);
      assert Rebuilt(codes, trailing) == [SLASH] + (Join(codes, SLASH) + end);
      assert Rebuilt(names, trailing) == [SLASH] + (Join(names, SLASH) + end);
    }
  }

  lemma CodesNotEmpty(names: seq<seq<byte>>)
    requires names != [] && names[0] != []
    ensures EncodedAll(names)[0] != []
  {
  }

  lemma {:induction false} JoinValid(names: seq<seq<byte>>)
    requires names != [] && forall i :: 0 <= i < |names| ==> Utf8.Valid(names[i])
    ensures Utf8.Valid(Join(names, SLASH))
  {
    hide Utf8.Valid;
    if |names| > 1 {
      JoinValid(names[1..]);
      Utf8.AsciiValid([SLASH]);
      Utf8.ValidConcat(names[0], [SLASH]);
      Utf8.ValidConcat(names[0] + [SLASH], Join(names[1..], SLASH));
    }
  }

  lemma RebuiltValid(names: seq<seq<byte>>, trailing: bool)
    requires forall i :: 0 <= i < |names| ==> Utf8.Valid(names[i])
    ensures Utf8.Valid(Rebuilt(names, trailing))
  {
    hide Utf8.Valid;
    var end := if trailing && |JoinAll(names)| > 0 then [SLASH] else [];
    Utf8.AsciiValid([SLASH]);
    Utf8.AsciiValid(end);
    Utf8.AsciiValid([]);
    if names != [] {
      JoinValid(names);
    }
    Utf8.ValidConcat([SLASH], JoinAll(names));
    Utf8.ValidConcat([SLASH] + JoinAll(names), end);
  }

  lemma {:induction false} JoinExcludes(names: seq<seq<byte>>, b: byte)
    requires names != [] && b != SLASH && forall i :: 0 <= i < |names| ==> b !in names[i]
    ensures b !in Join(names, SLASH)
  {
    if |names| > 1 {
      JoinExcludes(names[1..], b);
    }
  }

  lemma RebuiltExcludes(names: seq<seq<byte>>, trailing: bool, b: byte)
    requires b != SLASH && forall i :: 0 <= i < |names| ==> b !in names[i]
    ensures b !in Rebuilt(names, trailing)
  {
    if names != [] {
      JoinExcludes(names, b);
    }
  }

  /** Nameable segments, trailing slash or not, are a fixed point of collapsing. */
  lemma NameableCollapse(names: seq<seq<byte>>, trailing: bool)
    requires forall i :: 0 <= i < |names| ==> Nameable(names[i])
    ensures Collapsed(Rebuilt(names, trailing)) == Ok(Rebuilt(names, trailing))
  {
    hide Split, Rebuilt, Stack, EndsWithSlash;
    RebuiltSegments(names, trailing);
    StackOfSegments(names, trailing);
    RebuiltEnding(names, trailing);
  }

  /** A target spelled from encoded names normalizes to those names verbatim, with the query
      left as it is. */
  lemma SpelledNormalizes(names: seq<seq<byte>>, trailing: bool, query: Option<seq<byte>>)
    requires forall i :: 0 <= i < |names| ==> Nameable(names[i])
    ensures NormalizeTarget(Spelled(names, trailing, query)) == Ok(NormalizedUri(Rebuilt(names, trailing), query))
  {
    hide UrlEncoded, PercentDecoded, Collapsed, Rebuilt, Utf8.Valid;
    var raw := Rebuilt(EncodedAll(names), trailing);
    var target := Spelled(names, trailing, query);
    RebuiltExcludes(EncodedAll(names), trailing, QUESTION);
    RebuiltExcludes(EncodedAll(names), trailing, BACKSLASH);
    RebuiltRooted(EncodedAll(names), trailing);
    if query.Some? {
      assert target[..|raw|] == raw && target[|raw| + 1..] == query.value;
      IndexOfAt(target, QUESTION, |raw|);
    } else {
      assert target == raw;
    }
    RebuiltDecodes(names, trailing);
    RebuiltExcludes(names, trailing, BACKSLASH);
    RebuiltValid(names, trailing);
    NameableCollapse(names, trailing);
  }
}
