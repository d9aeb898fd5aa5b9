/** The combined index space of section 2.3.3 of RFC 7541: the static table, then the
    dynamic table, newest first. */
module HpackIndex {
  import opened Bytes
  import opened HpackTable

  function F(name: string, value: string): Field {
    Field(Ascii(name), Ascii(value))
  }

  function Static0(): seq<Field> {
    [
      F(":authority", ""), F(":method", "GET"),
      F(":method", "POST"), F(":path", "/"),
      F(":path", "/index.html"), F(":scheme", "http"),
      F(":scheme", "https"), F(":status", "200"),
      F(":status", "204"), F(":status", "206"),
      F(":status", "304"), F(":status", "400"),
      F(":status", "404"), F(":status", "500"),
      F("accept-charset", ""), F("accept-encoding", "gzip, deflate")
    ]
  }

  function Static1(): seq<Field> {
    [
      F("accept-language", ""), F("accept-ranges", ""),
      F("accept", ""), F("access-control-allow-origin", ""),
      F("age", ""), F("allow", ""),
      F("authorization", ""), F("cache-control", ""),
      F("content-disposition", ""), F("content-encoding", ""),
      F("content-language", ""), F("content-length", ""),
      F("content-location", ""), F("content-range", ""),
      F("content-type", ""), F("cookie", "")
    ]
  }

  function Static2(): seq<Field> {
    [
      F("date", ""), F("etag", ""),
      F("expect", ""), F("expires", ""),
      F("from", ""), F("host", ""),
      F("if-match", ""), F("if-modified-since", ""),
      F("if-none-match", ""), F("if-range", ""),
      F("if-unmodified-since", ""), F("last-modified", ""),
      F("link", ""), F("location", ""),
      F("max-forwards", ""), F("proxy-authenticate", "")
    ]
  }

  function Static3(): seq<Field> {
    [
      F("proxy-authorization", ""), F("range", ""),
      F("referer", ""), F("refresh", ""),
      F("retry-after", ""), F("server", ""),
      F("set-cookie", ""), F("strict-transport-security", ""),
      F("transfer-encoding", ""), F("user-agent", ""),
      F("vary", ""), F("via", ""),
      F("www-authenticate", "")
    ]
  }

  /** Appendix A of RFC 7541; index n on the wire is position n - 1 here. */
  function StaticTable(): (t: seq<Field>)
    ensures |t| == 61
  {
    Static0() + Static1() + Static2() + Static3()
  }

  /** Position p of the space is wire index p + 1. */
  function Space(entries: seq<Field>): (s: seq<Field>)
    ensures |s| == 61 + |entries|
  {
    StaticTable() + entries
  }

  function Resolve(idx: nat, entries: seq<Field>): Result<Field, HpackError> {
    if 1 <= idx <= |Space(entries)| then Ok(Space(entries)[idx - 1]) else Err(InvalidIndex(idx))
  }

  ghost predicate HasName(s: seq<Field>, name: seq<byte>) {
    exists i :: 0 <= i < |s| && s[i].name == name
  }

  /** The least wire index whose field is `f`. */
  function FirstFull(s: seq<Field>, f: Field): (r: Option<nat>)
    ensures r.Some? ==> 1 <= r.value <= |s| && s[r.value - 1] == f && f !in s[..r.value - 1]
    ensures r.None? ==> f !in s
  {
    if s == [] then None
    else
      var front := s[..|s| - 1];
      assert s == front + [s[|s| - 1]];
      match FirstFull(front, f)
      case Some(i) => assert front[..i - 1] == s[..i - 1]; Some(i)
      case None => if s[|s| - 1] == f then Some(|s|) else None
  }

  /** The least wire index whose field has the name. */
  function FirstName(s: seq<Field>, name: seq<byte>): (r: Option<nat>)
    ensures r.Some? ==> 1 <= r.value <= |s| && s[r.value - 1].name == name && !HasName(s[..r.value - 1], name)
    ensures r.None? ==> !HasName(s, name)
  {
    if s == [] then None
    else
      var front := s[..|s| - 1];
      assert s == front + [s[|s| - 1]];
      match FirstName(front, name)
      case Some(i) => assert front[..i - 1] == s[..i - 1]; Some(i)
      case None => if s[|s| - 1].name == name then Some(|s|) else None
  }

  // ---- the two scans -------------------------------------------------------

  /** The static table first, then the dynamic entries, for a full match. */
  method FindFull(f: Field, dynamic: DynamicTable) returns (r: Option<nat>)
    ensures r == FirstFull(Space(dynamic.entries), f)
  {
    hide StaticTable, FirstFull;
    ghost var space := Space(dynamic.entries);
    var fixed := StaticTable();
    for i := 0 to |fixed|
      invariant f !in space[..i]
    {
      if fixed[i] == f {
        UniqueFirst(space, i + 1, f);
        return Some(i + 1);
      }
      assert space[..i + 1] == space[..i] + [fixed[i]];
    }
    for i := 0 to |dynamic.entries|
      invariant f !in space[..61 + i]
    {
      if dynamic.entries[i] == f {
        UniqueFirst(space, 61 + i + 1, f);
        return Some(61 + 1 + i);
      }
      assert space[..61 + i + 1] == space[..61 + i] + [dynamic.entries[i]];
    }
    assert space[..|space|] == space;
    NoFirst(space, f);
    r := None;
  }

  lemma {:induction false} UniqueFirst(s: seq<Field>, r: nat, f: Field)
    requires 1 <= r <= |s| && s[r - 1] == f && f !in s[..r - 1]
    ensures FirstFull(s, f) == Some(r)
  {
    var front := s[..|s| - 1];
    if r < |s| {
      assert front[..r - 1] == s[..r - 1];
      UniqueFirst(front, r, f);
    }
  }

  lemma NoFirst(s: seq<Field>, f: Field)
    requires f !in s
    ensures FirstFull(s, f) == None
  {
  }

  /** The same scan for a name-only match. */
  method FindName(name: seq<byte>, dynamic: DynamicTable) returns (r: Option<nat>)
    ensures r == FirstName(Space(dynamic.entries), name)
  {
    hide StaticTable, FirstName;
    ghost var space := Space(dynamic.entries);
    var fixed := StaticTable();
    for i := 0 to |fixed|
      invariant !HasName(space[..i], name)
    {
      if fixed[i].name == name {
        UniqueFirstName(space, i + 1, name);
        return Some(i + 1);
      }
      assert space[..i + 1] == space[..i] + [fixed[i]];
    }
    for i := 0 to |dynamic.entries|
      invariant !HasName(space[..61 + i], name)
    {
      if dynamic.entries[i].name == name {
        UniqueFirstName(space, 61 + i + 1, name);
        return Some(61 + 1 + i);
      }
      assert space[..61 + i + 1] == space[..61 + i] + [dynamic.entries[i]];
    }
    assert space[..|space|] == space;
    NoFirstName(space, name);
    r := None;
  }

  lemma {:induction false} UniqueFirstName(s: seq<Field>, r: nat, name: seq<byte>)
    requires 1 <= r <= |s| && s[r - 1].name == name && !HasName(s[..r - 1], name)
    ensures FirstName(s, name) == Some(r)
  {
    var front := s[..|s| - 1];
    if r < |s| {
      assert front[..r - 1] == s[..r - 1];
      UniqueFirstName(front, r, name);
    }
  }

  lemma NoFirstName(s: seq<Field>, name: seq<byte>)
    requires !HasName(s, name)
    ensures FirstName(s, name) == None
  {
  }
}
