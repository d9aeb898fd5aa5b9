/** Request routing inside a host: the context with the longest path, the servlet pattern with
    the highest rank, and the split of the URI between them. */
module Mapper {
  import opened Bytes
  import opened Text

  datatype UrlPattern =
    | Exact(path: seq<byte>)
    | Prefix(prefix: seq<byte>)
    | Extension(ext: seq<byte>)
    | Default

  datatype Wrapper = Wrapper(name: seq<byte>, mappings: seq<UrlPattern>)

  datatype Context = Context(path: seq<byte>, wrappers: seq<Wrapper>)

  datatype MappingResult = MappingResult(
    context: Context, wrapper: Wrapper, servletPath: seq<byte>, pathInfo: Option<seq<byte>>, pattern: UrlPattern)

  // ---- patterns ------------------------------------------------------------

  predicate EndsWithSlashStar(raw: seq<byte>) {
    |raw| >= 2 && raw[|raw| - 2..] == [SLASH, STAR]
  }

  function ParsePattern(raw: seq<byte>): UrlPattern {
    if raw == [SLASH] || raw == [] then Default
    else if EndsWithSlashStar(raw) then Prefix(raw[..|raw| - 2])
    else if [STAR, DOT] <= raw then Extension(raw[2..])
    else Exact(raw)
  }

  function PatternText(p: UrlPattern): seq<byte> {
    match p
    case Exact(path) => path
    case Prefix(prefix) => prefix + [SLASH, STAR]
    case Extension(ext) => [STAR, DOT] + ext
    case Default => [SLASH]
  }

  /** Parsing loses nothing but the difference between the empty pattern and `/`. */
  lemma ParsedTextIsKept(raw: seq<byte>)
    ensures PatternText(ParsePattern(raw)) == if raw == [] then [SLASH] else raw
    ensures ParsePattern(PatternText(ParsePattern(raw))) == ParsePattern(raw)
  {
    if raw != [] && raw != [SLASH] && EndsWithSlashStar(raw) {
      assert raw == raw[..|raw| - 2] + raw[|raw| - 2..];
    }
  }

  /** `path` is `prefix` itself or goes on with a slash after it. */
  predicate Under(prefix: seq<byte>, path: seq<byte>) {
    path == prefix || (prefix <= path && |prefix| < |path| && path[|prefix|] == SLASH)
  }

  /** `r` is the end of `s` after the last `b`. */
  ghost predicate IsAfterLast(s: seq<byte>, b: byte, r: seq<byte>) {
    b !in r && |r| <= |s| && s[|s| - |r|..] == r && (|r| < |s| ==> s[|s| - |r| - 1] == b)
  }

  lemma OneOctetMore(s: seq<byte>, b: byte, r: seq<byte>)
    requires s != [] && s[|s| - 1] != b && IsAfterLast(s[..|s| - 1], b, r)
    ensures IsAfterLast(s, b, r + [s[|s| - 1]])
  {
    var front := s[..|s| - 1];
    assert s == front + [s[|s| - 1]];
    assert s[|front| - |r|..] == front[|front| - |r|..] + [s[|s| - 1]];
  }

  /** What follows the last `b`, or everything. */
  function AfterLast(s: seq<byte>, b: byte): (r: seq<byte>)
    ensures IsAfterLast(s, b, r)
  {
    if s == [] || s[|s| - 1] == b then []
    else
      var r := AfterLast(s[..|s| - 1], b);
      OneOctetMore(s, b, r);
      r + [s[|s| - 1]]
  }

  predicate HasExtension(path: seq<byte>, ext: seq<byte>) {
    var last := AfterLast(path, SLASH);
    DOT in last && AfterLast(last, DOT) == ext
  }

  predicate Matches(p: UrlPattern, path: seq<byte>) {
    match p
    case Exact(q) => q == path
    case Prefix(prefix) => prefix == [] || Under(prefix, path)
    case Extension(ext) => HasExtension(path, ext)
    case Default => true
  }

  /** An extension with a dot or a slash in it can never match. */
  lemma CompoundExtensionNeverMatches(ext: seq<byte>, path: seq<byte>)
    requires DOT in ext || SLASH in ext
    ensures !Matches(Extension(ext), path)
  {
    hide AfterLast;
    var last := AfterLast(path, SLASH);
    var suffix := AfterLast(last, DOT);
    assert DOT !in suffix && SLASH !in last && suffix == last[|last| - |suffix|..];
  }

  /** The kinds by their shapes; a prefix takes precedence over an extension. */
  lemma KindsByShape(text: seq<byte>)
    ensures ParsePattern(text + Ascii("/*")) == Prefix(text)
    ensures !EndsWithSlashStar(text) && text != Ascii("*") ==> ParsePattern(Ascii("*.") + text) == Extension(text)
    ensures ParsePattern([]) == Default && ParsePattern(Ascii("/")) == Default
    ensures text != [] && text != Ascii("/") && !EndsWithSlashStar(text) && !(Ascii("*.") <= text) ==>
      ParsePattern(text) == Exact(text)
  {
    var star, dot := Ascii("/*"), Ascii("*.");
    assert star == [SLASH, STAR] && dot == [STAR, DOT] && Ascii("/") == [SLASH];
    var prefix, extension := text + star, dot + text;
    assert prefix[|prefix| - 2..] == star && prefix[..|prefix| - 2] == text;
    assert extension[2..] == text;
    if !EndsWithSlashStar(text) {
      assert |text| >= 2 ==> extension[|extension| - 2..] == text[|text| - 2..];
      assert |text| == 1 ==> extension[|extension| - 2..] == [DOT] + text;
      assert |text| == 0 ==> extension == dot;
    }
  }

  /** The last segment of a path ends in a dot and the extension. */
  ghost predicate EndsInExtension(path: seq<byte>, ext: seq<byte>) {
    SLASH !in ext && DOT !in ext && exists front :: path == front + [DOT] + ext
  }

  /** No octet `b` follows, so what follows the last one is unique. */
  lemma NotShorter(s: seq<byte>, b: byte, r: seq<byte>, t: seq<byte>)
    requires IsAfterLast(s, b, r) && IsAfterLast(s, b, t)
    ensures |t| <= |r|
  {
    var start := |s| - |t|;
    assert forall i :: start <= i < |s| ==> s[i] == s[start..][i - start];
  }

  lemma AfterLastIff(s: seq<byte>, b: byte, r: seq<byte>)
    ensures AfterLast(s, b) == r <==> IsAfterLast(s, b, r)
  {
    var t := AfterLast(s, b);
    hide AfterLast;
    if IsAfterLast(s, b, r) {
      NotShorter(s, b, r, t);
      NotShorter(s, b, t, r);
    }
  }

  /** Extensions match by the end of the path. */
  lemma ExtensionIff(path: seq<byte>, ext: seq<byte>)
    ensures Matches(Extension(ext), path) <==> EndsInExtension(path, ext)
  {
    var last := AfterLast(path, SLASH);
    hide AfterLast;
    if Matches(Extension(ext), path) {
      if DOT in ext || SLASH in ext {
        CompoundExtensionNeverMatches(ext, path);
      }
      var front := path[..|path| - |ext| - 1];
      assert last == path[|path| - |last|..];
      assert path == front + [DOT] + ext;
    }
    if EndsInExtension(path, ext) {
      var front :| path == front + [DOT] + ext;
      DottedLast(path, front, ext, last);
      AfterLastIff(last, DOT, ext);
    }
  }

  lemma DottedLast(path: seq<byte>, front: seq<byte>, ext: seq<byte>, last: seq<byte>)
    requires path == front + [DOT] + ext && SLASH !in ext && DOT !in ext && IsAfterLast(path, SLASH, last)
    ensures DOT in last && IsAfterLast(last, DOT, ext)
  {
    assert forall i :: |front| < i < |path| ==> path[i] == ext[i - |front| - 1];
    assert path[|front|] == DOT;
    assert |ext| < |last|;
    assert last == path[|path| - |last|..];
    assert last[|last| - |ext| - 1] == path[|path| - |ext| - 1];
    assert last[|last| - |ext|..] == path[|path| - |ext|..] == ext;
  }

  function Specificity(p: UrlPattern): nat {
    match p
    case Exact(_) => 3
    case Prefix(_) => 2
    case Extension(_) => 1
    case Default => 0
  }

  function Length(p: UrlPattern): nat {
    match p
    case Exact(path) => |path|
    case Prefix(prefix) => |prefix|
    case Extension(ext) => |ext|
    case Default => 0
  }

  /** The kind decides, then the length. */
  predicate Outranks(p: UrlPattern, q: UrlPattern) {
    Specificity(p) > Specificity(q) || (Specificity(p) == Specificity(q) && Length(p) > Length(q))
  }

  /** Two patterns that match the same path with the same rank are the same pattern. */
  lemma TiesAreIdentical(p: UrlPattern, q: UrlPattern, path: seq<byte>)
    ensures Matches(p, path) && Matches(q, path) && !Outranks(p, q) && !Outranks(q, p) ==> p == q
  {
    if p.Prefix? && q.Prefix? && Matches(p, path) && Matches(q, path) && |p.prefix| == |q.prefix| {
      assert p.prefix == path[..|p.prefix|] && q.prefix == path[..|p.prefix|];
    }
  }

  // ---- choosing a wrapper --------------------------------------------------

  type Candidate = (Wrapper, UrlPattern)

  function PatternsOf(w: Wrapper, patterns: seq<UrlPattern>): seq<Candidate> {
    seq(|patterns|, i requires 0 <= i < |patterns| => (w, patterns[i]))
  }

  /** Every pattern with its wrapper, in declaration order. */
  function Declared(wrappers: seq<Wrapper>): seq<Candidate> {
    if wrappers == [] then []
    else
      var w := wrappers[|wrappers| - 1];
      Declared(wrappers[..|wrappers| - 1]) + PatternsOf(w, w.mappings)
  }

  function Better(best: Option<Candidate>, c: Candidate, path: seq<byte>): Option<Candidate> {
    if Matches(c.1, path) && (best.None? || Outranks(c.1, best.value.1)) then Some(c) else best
  }

  function FirstBest(candidates: seq<Candidate>, path: seq<byte>): Option<Candidate> {
    if candidates == [] then None
    else Better(FirstBest(candidates[..|candidates| - 1], path), candidates[|candidates| - 1], path)
  }

  method ResolveWrapper(context: Context, path: seq<byte>) returns (best: Option<Candidate>)
    ensures best == FirstBest(Declared(context.wrappers), path)
  {
    hide Matches, Outranks, FirstBest, Declared, PatternsOf;
    best := None;
    NothingDeclared(path);
    var wrappers := context.wrappers;
    for i := 0 to |wrappers|
      invariant best == FirstBest(Declared(wrappers[..i]), path)
    {
      var w := wrappers[i];
      ghost var before := Declared(wrappers[..i]);
      NoPatterns(before, w);
      for j := 0 to |w.mappings|
        invariant best == FirstBest(before + PatternsOf(w, w.mappings[..j]), path)
      {
        var pattern := w.mappings[j];
        OnePatternMore(before, w, j, path);
        if Matches(pattern, path) {
          if best.None? || Outranks(pattern, best.value.1) {
            best := Some((w, pattern));
          }
        }
      }
      assert w.mappings[..|w.mappings|] == w.mappings;
      OneWrapperMore(wrappers, i);
    }
    assert wrappers[..|wrappers|] == wrappers;
  }

  lemma NothingDeclared(path: seq<byte>)
    ensures FirstBest(Declared([]), path) == None
  {
  }

  lemma NoPatterns(before: seq<Candidate>, w: Wrapper)
    ensures before + PatternsOf(w, w.mappings[..0]) == before
  {
  }

  lemma OnePatternMore(before: seq<Candidate>, w: Wrapper, j: nat, path: seq<byte>)
    requires j < |w.mappings|
    ensures FirstBest(before + PatternsOf(w, w.mappings[..j + 1]), path) ==
      Better(FirstBest(before + PatternsOf(w, w.mappings[..j]), path), (w, w.mappings[j]), path)
  {
    hide Better;
    var c := (w, w.mappings[j]);
    var seen := before + PatternsOf(w, w.mappings[..j]);
    assert PatternsOf(w, w.mappings[..j + 1]) == PatternsOf(w, w.mappings[..j]) + [c];
    Regroup(before, PatternsOf(w, w.mappings[..j]), [c]);
    assert (seen + [c])[..|seen|] == seen;
  }

  lemma OneWrapperMore(wrappers: seq<Wrapper>, i: nat)
    requires i < |wrappers|
    ensures Declared(wrappers[..i + 1]) == Declared(wrappers[..i]) + PatternsOf(wrappers[i], wrappers[i].mappings)
  {
    hide PatternsOf;
    assert wrappers[..i + 1][..i] == wrappers[..i];
  }

  /** Candidate `k` matches, none outranks it, and every earlier match ranks lower. */
  ghost predicate FirstMaximum(candidates: seq<Candidate>, path: seq<byte>, k: nat)
    requires k < |candidates|
  {
    Matches(candidates[k].1, path) &&
    (forall m :: 0 <= m < |candidates| && Matches(candidates[m].1, path) ==>
      !Outranks(candidates[m].1, candidates[k].1)) &&
    (forall m :: 0 <= m < k && Matches(candidates[m].1, path) ==> Outranks(candidates[k].1, candidates[m].1))
  }

  /** The search finds nothing exactly when nothing matches; otherwise it finds the first of the
      highest-ranking matches. */
  lemma {:induction false} FirstBestIsFirstMaximum(candidates: seq<Candidate>, path: seq<byte>) returns (k: nat)
    ensures FirstBest(candidates, path).None? ==>
      forall m :: 0 <= m < |candidates| ==> !Matches(candidates[m].1, path)
    ensures FirstBest(candidates, path).Some? ==>
      k < |candidates| && FirstBest(candidates, path) == Some(candidates[k]) && FirstMaximum(candidates, path, k)
  {
    hide Matches;
    k := 0;
    if candidates != [] {
      var n := |candidates| - 1;
      var front := candidates[..n];
      k := FirstBestIsFirstMaximum(front, path);
      assert forall m :: 0 <= m < n ==> front[m] == candidates[m];
      if Matches(candidates[n].1, path) && (FirstBest(front, path).None? || Outranks(candidates[n].1, front[k].1)) {
        k := n;
      }
    }
  }

  ghost function PatternSet(candidates: seq<Candidate>): set<UrlPattern> {
    set i | 0 <= i < |candidates| :: candidates[i].1
  }

  /** The pattern that wins depends on the patterns declared, not on their order. */
  lemma WinnerIgnoresOrder(a: seq<Candidate>, b: seq<Candidate>, path: seq<byte>)
    requires PatternSet(a) == PatternSet(b)
    ensures FirstBest(a, path).None? <==> FirstBest(b, path).None?
    ensures FirstBest(a, path).Some? ==> FirstBest(a, path).value.1 == FirstBest(b, path).value.1
  {
    var i := FirstBestIsFirstMaximum(a, path);
    var j := FirstBestIsFirstMaximum(b, path);
    hide Matches, Outranks, FirstBest;
    if FirstBest(a, path).Some? {
      assert a[i].1 in PatternSet(b);
      var m :| 0 <= m < |b| && b[m].1 == a[i].1;
    }
    if FirstBest(b, path).Some? {
      assert b[j].1 in PatternSet(a);
      var n :| 0 <= n < |a| && a[n].1 == b[j].1;
    }
    if FirstBest(a, path).Some? && FirstBest(b, path).Some? {
      TiesAreIdentical(a[i].1, b[j].1, path);
    }
  }

  /** The rule of precedence, by kinds: an exact pattern for the path wins over all; a prefix wins
      only without one and over every shorter prefix; an extension only when neither an exact
      pattern nor a prefix matches; the default only when nothing else does.  The wrapper is the
      first that declares the pattern. */
  ghost predicate WinsByKind(candidates: seq<Candidate>, path: seq<byte>, winner: Candidate) {
    var p, declared := winner.1, PatternSet(candidates);
    && Matches(p, path)
    && (exists k :: FirstDeclares(candidates, k, winner))
    && (Exact(path) in declared ==> p == Exact(path))
    && (p.Prefix? ==> forall q :: Prefix(q) in declared && Matches(Prefix(q), path) ==> |q| <= |p.prefix|)
    && (p.Extension? ==> forall q :: q in declared && Matches(q, path) ==> q == p || q == Default)
    && (p.Default? ==> forall q :: q in declared && Matches(q, path) ==> q == Default)
  }

  ghost predicate FirstDeclares(candidates: seq<Candidate>, k: nat, c: Candidate) {
    k < |candidates| && candidates[k] == c && forall m :: 0 <= m < k ==> candidates[m].1 != c.1
  }

  lemma SameExtension(a: seq<byte>, b: seq<byte>, path: seq<byte>)
    requires Matches(Extension(a), path) && Matches(Extension(b), path)
    ensures a == b
  {
  }

  /** The search follows the rule. */
  lemma BestWinsByKind(candidates: seq<Candidate>, path: seq<byte>)
    ensures FirstBest(candidates, path).Some? ==> WinsByKind(candidates, path, FirstBest(candidates, path).value)
    ensures FirstBest(candidates, path).None? ==> forall q :: q in PatternSet(candidates) ==> !Matches(q, path)
  {
    hide FirstBest, HasExtension;
    var k := FirstBestIsFirstMaximum(candidates, path);
    if FirstBest(candidates, path).Some? {
      var p := candidates[k].1;
      assert FirstDeclares(candidates, k, candidates[k]);
      forall q | q in PatternSet(candidates) && Matches(q, path) ensures !Outranks(q, p) {
        var m :| 0 <= m < |candidates| && candidates[m].1 == q;
      }
      forall q | q in PatternSet(candidates) && Matches(q, path) && q.Extension? && p.Extension? ensures q == p {
        SameExtension(q.ext, p.ext, path);
      }
    }
  }

  /** Where the match-all prefix (slash star) is declared, neither an extension nor the default
      pattern can win. */
  lemma SlashStarBeatsExtensions(candidates: seq<Candidate>, path: seq<byte>, i: nat)
    requires i < |candidates| && candidates[i].1 == Prefix([])
    ensures FirstBest(candidates, path).Some?
    ensures var p := FirstBest(candidates, path).value.1; p.Exact? || p.Prefix?
  {
    var k := FirstBestIsFirstMaximum(candidates, path);
    assert Matches(candidates[i].1, path);
  }

  // ---- choosing a context --------------------------------------------------

  predicate IsRoot(path: seq<byte>) {
    path == [] || path == [SLASH]
  }

  predicate UriUnderContext(path: seq<byte>, uri: seq<byte>) {
    IsRoot(path) || Under(path, uri)
  }

  predicate Rooted(uri: seq<byte>) {
    uri != [] && uri[0] == SLASH
  }

  /** A host keys its contexts by their paths. */
  predicate Keyed(contexts: map<seq<byte>, Context>) {
    forall k :: k in contexts ==> contexts[k].path == k
  }

  /** `c` is a context over the URI with no longer rival; none when there is no context over it. */
  ghost predicate IsLongest(contexts: map<seq<byte>, Context>, uri: seq<byte>, c: Option<Context>) {
    match c
    case None => forall k :: k in contexts ==> !UriUnderContext(k, uri)
    case Some(ctx) =>
      ctx.path in contexts && contexts[ctx.path] == ctx && UriUnderContext(ctx.path, uri) &&
      forall k :: k in contexts && UriUnderContext(k, uri) ==> |k| <= |ctx.path|
  }

  /** Walks the contexts in whatever order the map gives them. */
  method ResolveContext(contexts: map<seq<byte>, Context>, uri: seq<byte>) returns (best: Option<Context>)
    requires Keyed(contexts)
    ensures IsLongest(contexts, uri, best)
  {
    hide UriUnderContext;
    best := None;
    var bestLen := 0;
    var left := contexts.Keys;
    while left != {}
      invariant left <= contexts.Keys
      invariant IsLongest(contexts - left, uri, best)
      invariant best.Some? ==> bestLen == |best.value.path|
      decreases |left|
    {
      var path :| path in left;
      ghost var seen := contexts - left;
      left := left - {path};
      assert forall k :: k in contexts - left <==> k in seen || k == path;
      if !UriUnderContext(path, uri) {
        continue;
      }
      if best.None? || |path| > bestLen {
        bestLen := |path|;
        best := Some(contexts[path]);
      }
    }
    assert contexts - left == contexts;
  }

  /** Two paths over the same rooted URI differ in length unless they are equal. */
  lemma PathsOverUriDiffer(a: seq<byte>, b: seq<byte>, uri: seq<byte>)
    requires Rooted(uri) && UriUnderContext(a, uri) && UriUnderContext(b, uri) && |a| == |b|
    ensures a == b
  {
    if !IsRoot(a) {
      assert a == uri[..|a|];
    }
    if !IsRoot(b) {
      assert b == uri[..|b|];
    }
    if |a| == 1 {
      assert uri[..1] == [SLASH];
    }
  }

  /** The longest context is unique, so the order of the walk cannot matter. */
  lemma LongestIsUnique(contexts: map<seq<byte>, Context>, uri: seq<byte>, c: Option<Context>, d: Option<Context>)
    requires Rooted(uri) && IsLongest(contexts, uri, c) && IsLongest(contexts, uri, d)
    ensures c == d
  {
    hide UriUnderContext;
    if c.Some? && d.Some? {
      PathsOverUriDiffer(c.value.path, d.value.path, uri);
    }
  }

  // ---- splitting the URI ---------------------------------------------------

  function StripContextPath(path: seq<byte>, uri: seq<byte>): seq<byte> {
    var rel := if !IsRoot(path) && path <= uri then uri[|path|..] else uri;
    if rel == [] then [SLASH] else rel
  }

  function NotEmpty(s: seq<byte>): Option<seq<byte>> {
    if s == [] then None else Some(s)
  }

  /** The slice after the prefix is in bounds because the pattern matched. */
  function SplitServletPath(pattern: UrlPattern, relative: seq<byte>): (seq<byte>, Option<seq<byte>>)
    requires Matches(pattern, relative)
  {
    match pattern
    case Exact(_) => (relative, None)
    case Extension(_) => (relative, None)
    case Prefix(prefix) => if prefix == [] then ([], NotEmpty(relative)) else (prefix, NotEmpty(relative[|prefix|..]))
    case Default => ([], Some(relative))
  }

  /** What each kind of pattern leaves of a path: all of it is the servlet's for an exact pattern
      and an extension; a prefix splits it before a slash, if anything is left; the default
      pattern leaves it all as path info. */
  predicate SplitByKind(pattern: UrlPattern, relative: seq<byte>, servletPath: seq<byte>, info: Option<seq<byte>>) {
    match pattern
    case Exact(_) => servletPath == relative && info == None
    case Extension(_) => servletPath == relative && info == None
    case Default => servletPath == [] && info == Some(relative)
    case Prefix(prefix) =>
      && servletPath == prefix
      && (info == None <==> relative == prefix)
      && (info.Some? ==> relative == prefix + info.value && (prefix == [] || info.value[..1] == [SLASH]))
  }

  lemma PartsByKind(pattern: UrlPattern, relative: seq<byte>)
    requires Matches(pattern, relative)
    ensures var parts := SplitServletPath(pattern, relative); SplitByKind(pattern, relative, parts.0, parts.1)
  {
    hide HasExtension;
  }

  /** The root context contributes nothing to a URI. */
  function Mounted(path: seq<byte>): seq<byte> {
    if IsRoot(path) then [] else path
  }

  function OrEmpty(s: Option<seq<byte>>): seq<byte> {
    if s.Some? then s.value else []
  }

  lemma MountedThenRelative(path: seq<byte>, uri: seq<byte>)
    requires Rooted(uri) && UriUnderContext(path, uri)
    ensures Rooted(StripContextPath(path, uri))
    ensures Mounted(path) + StripContextPath(path, uri) == if uri == path && !IsRoot(path) then uri + [SLASH] else uri
  {
    if IsRoot(path) {
      assert [] + uri == uri;
    } else if uri == path {
      assert uri[|path|..] == [];
    } else {
      assert uri == path + uri[|path|..];
      assert uri[|path|..][0] == SLASH;
    }
  }

  lemma SplitKeepsPath(pattern: UrlPattern, relative: seq<byte>)
    requires Matches(pattern, relative)
    ensures var parts := SplitServletPath(pattern, relative); parts.0 + OrEmpty(parts.1) == relative
  {
    hide HasExtension;
    match pattern
    case Prefix(prefix) =>
      if prefix == [] {
        assert [] + relative == relative;
      } else {
        assert relative == prefix + relative[|prefix|..];
      }
    case Default => assert [] + relative == relative;
    case Exact(_) => assert relative + [] == relative;
    case Extension(_) => assert relative + [] == relative;
  }

  /** Context path, servlet path and path info rebuild the URI; the bare URI of a context other
      than the root gains a slash. */
  lemma PartsRebuildUri(path: seq<byte>, uri: seq<byte>, pattern: UrlPattern)
    requires Rooted(uri) && UriUnderContext(path, uri) && Matches(pattern, StripContextPath(path, uri))
    ensures Rooted(StripContextPath(path, uri))
    ensures var parts := SplitServletPath(pattern, StripContextPath(path, uri));
      Mounted(path) + parts.0 + OrEmpty(parts.1) == if uri == path && !IsRoot(path) then uri + [SLASH] else uri
  {
    hide Matches, StripContextPath, SplitServletPath;
    var rel := StripContextPath(path, uri);
    var parts := SplitServletPath(pattern, rel);
    MountedThenRelative(path, uri);
    SplitKeepsPath(pattern, rel);
    assert Mounted(path) + parts.0 + OrEmpty(parts.1) == Mounted(path) + (parts.0 + OrEmpty(parts.1));
  }

  /** Routing within a host: `None` when no context or no servlet claims the URI. */
  method Map(contexts: map<seq<byte>, Context>, uri: seq<byte>) returns (r: Option<MappingResult>)
    requires Keyed(contexts) && Rooted(uri)
    ensures r.None? ==> forall c :: IsLongest(contexts, uri, Some(c)) ==>
      FirstBest(Declared(c.wrappers), StripContextPath(c.path, uri)).None?
    ensures r.Some? ==>
      var m := r.value;
      IsLongest(contexts, uri, Some(m.context)) &&
      var relative := StripContextPath(m.context.path, uri);
      FirstBest(Declared(m.context.wrappers), relative) == Some((m.wrapper, m.pattern)) &&
      WinsByKind(Declared(m.context.wrappers), relative, (m.wrapper, m.pattern)) &&
      SplitByKind(m.pattern, relative, m.servletPath, m.pathInfo) &&
      Mounted(m.context.path) + m.servletPath + OrEmpty(m.pathInfo) ==
        (if uri == m.context.path && !IsRoot(uri) then uri + [SLASH] else uri)
  {
    hide UriUnderContext, Matches, StripContextPath, SplitServletPath, WinsByKind, SplitByKind;
    var context := ResolveContext(contexts, uri);
    if context.None? {
      return None;
    }
    var relative := StripContextPath(context.value.path, uri);
    var found := ResolveWrapper(context.value, relative);
    if found.None? {
      forall c | IsLongest(contexts, uri, Some(c)) ensures c == context.value {
        LongestIsUnique(contexts, uri, Some(c), context);
      }
      return None;
    }
    ghost var k := FirstBestIsFirstMaximum(Declared(context.value.wrappers), relative);
    BestWinsByKind(Declared(context.value.wrappers), relative);
    var (wrapper, pattern) := found.value;
    PartsByKind(pattern, relative);
    PartsRebuildUri(context.value.path, uri, pattern);
    var parts := SplitServletPath(pattern, relative);
    r := Some(MappingResult(context.value, wrapper, parts.0, parts.1, pattern));
  }
}
