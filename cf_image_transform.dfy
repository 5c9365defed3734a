/** The `after_render:html` filter of the blog (`cfImageTransform`): every
    image URL under the R2 base found in a `src`-like attribute, inside a
    `srcset` value or in a CSS `url(...)` gets the Cloudflare Images prefix
    `/cdn-cgi/image/<options>/` put in front of it; nothing else in the page
    changes. Its three global, case-insensitive replacements are

      reAttr       ((?:src|data-src|data-original|data-lazy-src)=["'])(BASE/[^"' >\n]+)(["'])
      reSrcset     (srcset=["'])([^"']+)(["'])     with, inside the value,
      reUrlInSrcset  BASE/[^\s,]+
      reStyle      (url\(["']?)(BASE/[^"')\s]+)(["']?\))

    where BASE is the configured base with its regular-expression
    metacharacters escaped. */
module CfImageTransform {
  import opened Wrappers
  import opened JsString

  // ---------------------------------------------------------------------
  //  Configuration
  // ---------------------------------------------------------------------

  /** One key of the `cf_image_transform` section of `_config.yml`: not
      written, written without a value (YAML `null`), or given a value. */
  datatype Entry<T> = Absent | Null | Given(value: T)

  datatype Section = Section(enable: Entry<bool>, enableDev: Entry<bool>,
                             r2BaseUrl: Entry<string>, transformOptions: Entry<string>)

  /** The merged configuration `cfg`; `None` is a key whose value is null. */
  datatype Config = Config(enable: Option<bool>, enableDev: Option<bool>,
                           r2BaseUrl: Option<string>, transformOptions: Option<string>)

  const DefaultOptions: string := "format=auto,quality=85,metadata=none"

  /** DEFAULTS. */
  const Defaults: Config := Config(Some(true), Some(false), Some(""), Some(DefaultOptions))

  /** `{}`, what stands in for a missing section. */
  const EmptySection: Section := Section(Absent, Absent, Absent, Absent)

  /** What `Object.assign` leaves in one key: the user's value, null
      included, over the default. */
  function MergeKey<T>(entry: Entry<T>, default: Option<T>): Option<T> {
    match entry
    case Absent => default
    case Null => None
    case Given(v) => Some(v)
  }

  /** A merged key: the default when the user did not write the key, null
      when they wrote it without a value, their value otherwise. */
  predicate Overrides<T(==)>(entry: Entry<T>, default: Option<T>, merged: Option<T>) {
    (entry.Absent? ==> merged == default) &&
    (entry.Null? ==> merged == None) &&
    (entry.Given? ==> merged == Some(entry.value))
  }

  /** `Object.assign({}, DEFAULTS, hexo.config[CONFIG_KEY] || {})`. */
  function Merge(section: Option<Section>): (cfg: Config)
    ensures section.None? ==> cfg == Defaults
    ensures section.Some? ==>
      Overrides(section.value.enable, Defaults.enable, cfg.enable) &&
      Overrides(section.value.enableDev, Defaults.enableDev, cfg.enableDev) &&
      Overrides(section.value.r2BaseUrl, Defaults.r2BaseUrl, cfg.r2BaseUrl) &&
      Overrides(section.value.transformOptions, Defaults.transformOptions, cfg.transformOptions)
  {
    var user := if section.Some? then section.value else EmptySection;
    Config(MergeKey(user.enable, Defaults.enable), MergeKey(user.enableDev, Defaults.enableDev),
           MergeKey(user.r2BaseUrl, Defaults.r2BaseUrl),
           MergeKey(user.transformOptions, Defaults.transformOptions))
  }

  /** A missing section and an empty one configure the filter alike. */
  lemma MissingSectionIsEmpty()
    ensures Merge(None) == Merge(Some(EmptySection)) == Defaults
  {
  }

  /** JavaScript truthiness of a boolean-or-null key. */
  predicate Truthy(b: Option<bool>) {
    b == Some(true)
  }

  /** `(x || '')` on a string-or-null key. */
  function OrEmpty(s: Option<string>): string {
    if s.Some? then s.value else ""
  }

  /** `s.replace(/\/$/, '')`: one trailing `/` removed, no more. */
  function StripTrailingSlash(s: string): (r: string)
    ensures r <= s && |s| - 1 <= |r|
    ensures |r| < |s| <==> s != [] && s[|s| - 1] == '/'
  {
    if s != [] && s[|s| - 1] == '/' then s[..|s| - 1] else s
  }

  /** `o.replace(/^\/|\/$/g, '')`: one leading `/` and one trailing `/`
      removed. What is left is the slice of `o` after the leading `/`, if
      any, that stops one short of the end exactly when a `/` is left at
      the end. */
  function StripSlashes(o: string): (r: string)
    ensures var a := if o != [] && o[0] == '/' then 1 else 0;
      a + |r| <= |o| && |o| - 1 <= a + |r| && r == o[a..a + |r|] &&
      (a + |r| < |o| <==> a < |o| && o[|o| - 1] == '/')
  {
    if o != [] && o[0] == '/' then StripTrailingSlash(o[1..]) else StripTrailingSlash(o)
  }

  /** `/cdn-cgi/image/${opts}/`. */
  function CdnPrefix(opts: string): (prefix: string)
    ensures |prefix| == |opts| + 16 && prefix[..15] == "/cdn-cgi/image/"
    ensures prefix[15..15 + |opts|] == opts && prefix[|prefix| - 1] == '/'
  {
    "/cdn-cgi/image/" + opts + "/"
  }

  /** The options can be read back from the prefix: distinct options give
      distinct prefixes. */
  lemma CdnPrefixInjective(a: string, b: string)
    ensures CdnPrefix(a) == CdnPrefix(b) <==> a == b
  {
    if CdnPrefix(a) == CdnPrefix(b) {
      assert a == CdnPrefix(a)[15..15 + |a|];
    }
  }

  /** The base `r2Base` the filter works with. */
  function Base(cfg: Config): string {
    StripTrailingSlash(OrEmpty(cfg.r2BaseUrl))
  }

  /** The `cdnPrefix` the filter puts in front of each URL. */
  function Prefix(cfg: Config): string {
    CdnPrefix(StripSlashes(OrEmpty(cfg.transformOptions)))
  }

  /** The three early returns: `hexo server` without `enable_dev`, the filter
      switched off, or no base URL once its trailing `/` is gone. */
  predicate Skips(cmd: string, cfg: Config) {
    (cmd == "server" && !Truthy(cfg.enableDev)) || !Truthy(cfg.enable) || Base(cfg) == []
  }

  // ---------------------------------------------------------------------
  //  Escaping the base
  // ---------------------------------------------------------------------

  /** The characters in `[.*+?^${}()|[\]\\]`. */
  predicate IsRegExpMeta(c: char) {
    c in ".*+?^${}()|[]\\"
  }

  /** `r2Base.replace(/[.*+?^${}()|[\]\\]/g, '\\$&')`. */
  function EscapeRegExp(s: string): (r: string)
    ensures |s| <= |r| <= 2 * |s|
    decreases |s|
  {
    if s == [] then []
    else (if IsRegExpMeta(s[0]) then ['\\', s[0]] else [s[0]]) + EscapeRegExp(s[1..])
  }

  function Prepend(c: char, r: Option<string>): Option<string> {
    if r.Some? then Some([c] + r.value) else None
  }

  /** The text a pattern source matches when it is made only of ordinary
      characters and escaped metacharacters, each standing for itself; none
      when it holds a metacharacter with its special meaning or any other
      escape. */
  function PatternLiteral(t: string): (r: Option<string>)
    decreases |t|
  {
    if t == [] then Some([])
    else if t[0] == '\\' then
      if |t| >= 2 && IsRegExpMeta(t[1]) then Prepend(t[1], PatternLiteral(t[2..])) else None
    else if IsRegExpMeta(t[0]) then None
    else Prepend(t[0], PatternLiteral(t[1..]))
  }

  /** The escaped base, read as a pattern, is the base itself character for
      character: the regular expressions below match the base literally. */
  lemma {:induction false} EscapedBaseIsLiteral(s: string)
    ensures PatternLiteral(EscapeRegExp(s)) == Some(s)
    decreases |s|
  {
    if s != [] {
      var rest := EscapeRegExp(s[1..]);
      EscapedBaseIsLiteral(s[1..]);
      if IsRegExpMeta(s[0]) {
        var t := ['\\', s[0]] + rest;
        assert EscapeRegExp(s) == t;
        assert t[2..] == rest;
      } else {
        var t := [s[0]] + rest;
        assert EscapeRegExp(s) == t;
        assert t[1..] == rest;
      }
      assert [s[0]] + s[1..] == s;
    }
  }

  // ---------------------------------------------------------------------
  //  Case-insensitive matching
  // ---------------------------------------------------------------------

  /** `lit` at `i` in `s` under the `i` flag. */
  predicate LitI(s: string, i: nat, lit: string) {
    i + |lit| <= |s| && forall k :: 0 <= k < |lit| ==> LowerChar(s[i + k]) == LowerChar(lit[k])
  }

  /** `BASE/` matches at `p`. */
  predicate BaseAt(s: string, p: nat, base: string) {
    LitI(s, p, base + "/")
  }

  predicate IsQuote(c: char) { c == '"' || c == '\'' }
  predicate NotQuote(c: char) { !IsQuote(c) }
  /** `[^"' >\n]`. */
  predicate AttrUrlChar(c: char) { !IsQuote(c) && c != ' ' && c != '>' && c != '\n' }
  /** `[^\s,]`. */
  predicate SrcsetUrlChar(c: char) { !IsSpace(c) && c != ',' }
  /** `[^"')\s]`. */
  predicate StyleUrlChar(c: char) { !IsQuote(c) && c != ')' && !IsSpace(c) }

  /** `BASE/` at `p` followed by a non-empty greedy run of the class: the end
      of the run. */
  function BaseRun(s: string, p: nat, base: string, inClass: char -> bool): (r: Option<nat>)
    requires p <= |s|
    ensures r.Some? ==> BaseAt(s, p, base) && p + |base| + 1 < r.value <= |s|
    ensures r.Some? ==> forall k :: p + |base| + 1 <= k < r.value ==> inClass(s[k])
    ensures r.Some? ==> r.value == |s| || !inClass(s[r.value])
    ensures r.Some? ==> UrlRun(s, p, r.value, base, inClass)
  {
    if !BaseAt(s, p, base) then None
    else
      var r := RunEnd(s, p + |base| + 1, inClass);
      if r > p + |base| + 1 then Some(r) else None
  }

  // ---------------------------------------------------------------------
  //  One match of each regular expression
  // ---------------------------------------------------------------------

  /** A match from `i` to `end`. A `Point` match carries one URL `s[at..upTo]`
      that gets the prefix; a `Region` match carries a `srcset` value
      `s[from..to]` whose URLs get it. */
  datatype Hit =
    | Point(at: nat, upTo: nat, end: nat)
    | Region(from: nat, to: nat, end: nat)

  /** The four replacements of the filter, the URLs inside a `srcset` value
      being the fourth. */
  datatype Pass = Attr | Srcset | SrcsetUrl | Style

  /** What every match is: it ends after its start, inside the text, and a
      URL that gets the prefix starts with `BASE/`. */
  predicate Fits(s: string, i: nat, base: string, h: Option<Hit>) {
    h.Some? ==>
      i < h.value.end <= |s| &&
      match h.value
      case Point(p, r, e) => i <= p && p + |base| + 1 < r <= e && BaseAt(s, p, base)
      case Region(v, q, e) => i <= v <= q <= e
  }

  /** The alternation `(?:src|data-src|data-original|data-lazy-src)` at `i`:
      the index after the name. The four names differ in their first or
      their sixth letter, so at most one of them matches at `i`, and
      backtracking into the alternation never finds another. */
  function AttrNameEnd(s: string, i: nat): (n: Option<nat>)
    ensures n.Some? ==> n.value <= |s|
    ensures n.Some? ==>
      (LitI(s, i, "src") && n.value == i + 3) || (LitI(s, i, "data-src") && n.value == i + 8) ||
      (LitI(s, i, "data-original") && n.value == i + 13) ||
      (LitI(s, i, "data-lazy-src") && n.value == i + 13)
  {
    if LitI(s, i, "src") then Some(i + 3)
    else if LitI(s, i, "data-src") then Some(i + 8)
    else if LitI(s, i, "data-original") then Some(i + 13)
    else if LitI(s, i, "data-lazy-src") then Some(i + 13)
    else None
  }

  /** reAttr at `i`: the name, `=` and a quote, `BASE/` with at least one URL
      character after it, and a closing quote where the URL characters stop
      (of either kind: the two quotes need not agree). Backtracking cannot
      help, since a shorter URL is followed by a URL character, which is no
      quote. */
  function AttrHit(s: string, i: nat, base: string): (h: Option<Hit>)
    requires i <= |s|
    ensures Fits(s, i, base, h)
    ensures h.Some? ==> h.value.Point? && h.value.end == h.value.upTo + 1 && IsQuote(s[h.value.upTo])
    ensures h.Some? ==> 2 <= h.value.at && s[h.value.at - 2] == '=' && IsQuote(s[h.value.at - 1])
    ensures h.Some? ==>
      exists name :: AttrAt(s, i, base, name, h.value.upTo) && h.value.at == i + |name| + 2
  {
    match AttrNameEnd(s, i)
    case None => None
    case Some(n) =>
      if n + 2 <= |s| && s[n] == '=' && IsQuote(s[n + 1]) then
        match BaseRun(s, n + 2, base, AttrUrlChar)
        case None => None
        case Some(r) =>
          if r < |s| && IsQuote(s[r]) then
            AttrNameWitness(s, i, base, n, r);
            Some(Point(n + 2, r, r + 1))
          else None
      else None
  }

  /** The name the alternation read is one of the four attribute names. */
  lemma AttrNameWitness(s: string, i: nat, base: string, n: nat, r: nat)
    requires AttrNameEnd(s, i) == Some(n) && n + 2 <= |s| && s[n] == '=' && IsQuote(s[n + 1])
    requires UrlRun(s, n + 2, r, base, AttrUrlChar) && r < |s| && IsQuote(s[r])
    ensures exists name :: AttrAt(s, i, base, name, r) && n == i + |name|
  {
    var name :=
      if LitI(s, i, "src") && n == i + 3 then "src"
      else if LitI(s, i, "data-src") && n == i + 8 then "data-src"
      else if LitI(s, i, "data-original") && n == i + 13 then "data-original"
      else "data-lazy-src";
    assert AttrAt(s, i, base, name, r);
  }

  /** reSrcset at `i`: `srcset=`, a quote, a non-empty value without quotes
      and the quote that stops it. */
  function SrcsetHit(s: string, i: nat): (h: Option<Hit>)
    requires i <= |s|
    ensures h.Some? ==>
      h.value.Region? && i + 8 == h.value.from < h.value.to && h.value.end == h.value.to + 1 <= |s|
    ensures h.Some? ==> LitI(s, i, "srcset=") && IsQuote(s[i + 7]) && IsQuote(s[h.value.to])
    ensures h.Some? ==> forall k :: h.value.from <= k < h.value.to ==> !IsQuote(s[k])
  {
    if LitI(s, i, "srcset=") && i + 8 <= |s| && IsQuote(s[i + 7]) then
      var q := RunEnd(s, i + 8, NotQuote);
      if i + 8 < q < |s| then Some(Region(i + 8, q, q + 1)) else None
    else None
  }

  /** reUrlInSrcset at `i`: `BASE/` and a non-empty run up to white space or
      a comma; the whole match is the URL. */
  function SrcsetUrlHit(s: string, i: nat, base: string): (h: Option<Hit>)
    requires i <= |s|
    ensures Fits(s, i, base, h)
    ensures h.Some? ==> h == Some(Point(i, h.value.end, h.value.end))
    ensures h.Some? ==> h.value.end == |s| || !SrcsetUrlChar(s[h.value.end])
    ensures h.Some? ==> UrlRun(s, i, h.value.end, base, SrcsetUrlChar)
  {
    match BaseRun(s, i, base, SrcsetUrlChar)
    case None => None
    case Some(r) => Some(Point(i, r, r))
  }

  /** The rest of reStyle once `url(` and the optional quote are read at
      `p`: the URL and then `)` or a quote and `)`. */
  function StyleRest(s: string, p: nat, base: string): (h: Option<Hit>)
    requires p <= |s|
    ensures Fits(s, p, base, h)
    ensures h.Some? ==> h.value.Point? && h.value.at == p
    ensures h.Some? ==> s[h.value.end - 1] == ')'
    ensures h.Some? ==>
      h.value.end == h.value.upTo + 1 || (h.value.end == h.value.upTo + 2 && IsQuote(s[h.value.upTo]))
    ensures h.Some? ==>
      UrlRun(s, h.value.at, h.value.upTo, base, StyleUrlChar) && StyleClose(s, h.value.upTo, h.value.end)
  {
    match BaseRun(s, p, base, StyleUrlChar)
    case None => None
    case Some(r) =>
      if r + 1 < |s| && IsQuote(s[r]) && s[r + 1] == ')' then Some(Point(p, r, r + 2))
      else if r < |s| && s[r] == ')' then Some(Point(p, r, r + 1))
      else None
  }

  /** reStyle at `i`: `url(`, then the greedy optional quote is tried first
      and, if the rest fails after it, the rest is tried without it. */
  function StyleHit(s: string, i: nat, base: string): (h: Option<Hit>)
    requires i <= |s|
    ensures Fits(s, i, base, h)
    ensures h.Some? ==> h.value.Point? && LitI(s, i, "url(")
    ensures h.Some? ==> h.value.at == i + 4 || (h.value.at == i + 5 && IsQuote(s[i + 4]))
    ensures h.Some? ==> s[h.value.end - 1] == ')'
    ensures h.Some? ==>
      UrlRun(s, h.value.at, h.value.upTo, base, StyleUrlChar) && StyleClose(s, h.value.upTo, h.value.end)
  {
    if !LitI(s, i, "url(") then None
    else
      var quoted := if i + 4 < |s| && IsQuote(s[i + 4]) then StyleRest(s, i + 5, base) else None;
      if quoted.Some? then quoted else StyleRest(s, i + 4, base)
  }

  function HitAt(pass: Pass, s: string, i: nat, base: string): (h: Option<Hit>)
    requires i <= |s|
    ensures Fits(s, i, base, h)
    ensures h.Some? && h.value.Region? ==> pass == Srcset
  {
    match pass
    case Attr => AttrHit(s, i, base)
    case Srcset => SrcsetHit(s, i)
    case SrcsetUrl => SrcsetUrlHit(s, i, base)
    case Style => StyleHit(s, i, base)
  }

  // ---------------------------------------------------------------------
  //  The global replacements
  // ---------------------------------------------------------------------

  /** A pass over a `srcset` value is nested inside a pass over the page. */
  function Rank(pass: Pass): nat {
    if pass == SrcsetUrl then 0 else 1
  }

  /** `html.replace(re, callback)` from index `i`: each leftmost match is
      replaced by what its callback builds and the scan goes on after it; a
      position where nothing matches keeps its character. A `Point` match
      becomes its text before the URL, the prefix, the URL and its text
      after the URL; a `srcset` match becomes `prefix + newVal + suffix`
      with `newVal` the value's own replacement. */
  function Replace(pass: Pass, s: string, i: nat, base: string, prefix: string): string
    requires i <= |s|
    decreases Rank(pass), |s| - i
  {
    if i == |s| then []
    else
      match HitAt(pass, s, i, base)
      case None => [s[i]] + Replace(pass, s, i + 1, base, prefix)
      case Some(Point(p, r, e)) => s[i..p] + prefix + s[p..r] + s[r..e] + Replace(pass, s, e, base, prefix)
      case Some(Region(v, q, e)) =>
        s[i..v] + Replace(SrcsetUrl, s[v..q], 0, base, prefix) + s[q..e] + Replace(pass, s, e, base, prefix)
  }

  // ---------------------------------------------------------------------
  //  What a pass does: cut the page before each URL it rewrites
  // ---------------------------------------------------------------------

  /** Two runs of pieces, the last piece of the first run and the first
      piece of the second becoming one. */
  function Glue(xs: seq<string>, ys: seq<string>): (r: seq<string>)
    requires |xs| >= 1 && |ys| >= 1
    ensures |r| == |xs| + |ys| - 1
    decreases |xs|
  {
    if |xs| == 1 then [xs[0] + ys[0]] + ys[1..] else [xs[0]] + Glue(xs[1..], ys)
  }

  /** The page from `i`, cut right before each URL the pass rewrites. */
  function Pieces(pass: Pass, s: string, i: nat, base: string): (ps: seq<string>)
    requires i <= |s|
    ensures |ps| >= 1
    decreases Rank(pass), |s| - i
  {
    if i == |s| then [[]]
    else
      match HitAt(pass, s, i, base)
      case None => Glue([[s[i]]], Pieces(pass, s, i + 1, base))
      case Some(Point(p, _, e)) => Glue([s[i..p], s[p..e]], Pieces(pass, s, e, base))
      case Some(Region(v, q, e)) =>
        Glue([s[i..v]], Glue(Pieces(SrcsetUrl, s[v..q], 0, base), Glue([s[q..e]], Pieces(pass, s, e, base))))
  }

  /** Every piece after the first starts with `BASE/`. */
  ghost predicate Marked(ps: seq<string>, base: string) {
    forall k :: 1 <= k < |ps| ==> BaseAt(ps[k], 0, base)
  }

  lemma {:induction false} JoinGlue(xs: seq<string>, ys: seq<string>, sep: string)
    requires |xs| >= 1 && |ys| >= 1
    ensures Join(Glue(xs, ys), sep) == Join(xs, sep) + Join(ys, sep)
    decreases |xs|
  {
    if |xs| == 1 {
      var g := [xs[0] + ys[0]] + ys[1..];
      if |ys| > 1 {
        assert g[1..] == ys[1..];
      }
    } else {
      var g := Glue(xs[1..], ys);
      JoinGlue(xs[1..], ys, sep);
      assert ([xs[0]] + g)[1..] == g;
    }
  }

  lemma GlueStart(xs: seq<string>, ys: seq<string>)
    requires |xs| >= 1 && |ys| >= 1
    ensures xs[0] <= Glue(xs, ys)[0]
    decreases |xs|
  {
  }

  /** A text that starts with `BASE/` still does with more after it. */
  lemma BaseAtExtended(x: string, y: string, base: string)
    requires x <= y && BaseAt(x, 0, base)
    ensures BaseAt(y, 0, base)
  {
    forall k | 0 <= k < |base + "/"| ensures LowerChar(y[k]) == LowerChar((base + "/")[k]) {
      assert y[k] == x[k];
    }
  }

  lemma {:induction false} GlueMarked(xs: seq<string>, ys: seq<string>, base: string)
    requires |xs| >= 1 && |ys| >= 1 && Marked(xs, base) && Marked(ys, base)
    ensures Marked(Glue(xs, ys), base)
    decreases |xs|
  {
    var r := Glue(xs, ys);
    if |xs| == 1 {
      forall k | 1 <= k < |r| ensures BaseAt(r[k], 0, base) {
        assert r[k] == ys[k];
      }
    } else {
      var g := Glue(xs[1..], ys);
      assert Marked(xs[1..], base) by {
        forall k | 1 <= k < |xs[1..]| ensures BaseAt(xs[1..][k], 0, base) {
          assert xs[1..][k] == xs[k + 1];
        }
      }
      GlueMarked(xs[1..], ys, base);
      GlueStart(xs[1..], ys);
      BaseAtExtended(xs[1], g[0], base);
      forall k | 1 <= k < |r| ensures BaseAt(r[k], 0, base) {
        assert r[k] == g[k - 1];
      }
    }
  }

  /** `BASE/` at `p` in the page starts its slice from `p`. */
  lemma BaseAtSlice(s: string, p: nat, e: nat, base: string)
    requires BaseAt(s, p, base) && p + |base| + 1 <= e <= |s|
    ensures BaseAt(s[p..e], 0, base)
  {
    forall k | 0 <= k < |base + "/"| ensures LowerChar(s[p..e][k]) == LowerChar((base + "/")[k]) {
      assert s[p..e][k] == s[p + k];
    }
  }

  /** The two pieces of a URL match: the text before the URL, and the URL
      with what follows it in the match. */
  lemma PointMarked(s: string, i: nat, p: nat, e: nat, base: string)
    requires i <= p && BaseAt(s, p, base) && p + |base| + 1 <= e <= |s|
    ensures Marked([s[i..p], s[p..e]], base)
  {
    BaseAtSlice(s, p, e, base);
  }

  /** How `Replace` and `Pieces` go on past a position where nothing matches. */
  lemma MissSteps(pass: Pass, s: string, i: nat, base: string, prefix: string)
    requires i < |s| && HitAt(pass, s, i, base).None?
    ensures Pieces(pass, s, i, base) == Glue([[s[i]]], Pieces(pass, s, i + 1, base))
    ensures Replace(pass, s, i, base, prefix) == [s[i]] + Replace(pass, s, i + 1, base, prefix)
  {
  }

  /** How `Replace` and `Pieces` go on past a URL match. */
  lemma PointSteps(pass: Pass, s: string, i: nat, base: string, prefix: string, p: nat, r: nat, e: nat)
    requires i < |s| && HitAt(pass, s, i, base) == Some(Point(p, r, e))
    ensures i <= p && p + |base| + 1 < r <= e <= |s| && BaseAt(s, p, base)
    ensures Pieces(pass, s, i, base) == Glue([s[i..p], s[p..e]], Pieces(pass, s, e, base))
    ensures Replace(pass, s, i, base, prefix) ==
            s[i..p] + prefix + s[p..r] + s[r..e] + Replace(pass, s, e, base, prefix)
  {
  }

  /** How `Replace` and `Pieces` go on past a `srcset` match. */
  lemma RegionSteps(pass: Pass, s: string, i: nat, base: string, prefix: string, v: nat, q: nat, e: nat)
    requires i < |s| && HitAt(pass, s, i, base) == Some(Region(v, q, e))
    ensures i <= v <= q <= e <= |s|
    ensures Pieces(pass, s, i, base) ==
            Glue([s[i..v]], Glue(Pieces(SrcsetUrl, s[v..q], 0, base), Glue([s[q..e]], Pieces(pass, s, e, base))))
    ensures Replace(pass, s, i, base, prefix) ==
            s[i..v] + Replace(SrcsetUrl, s[v..q], 0, base, prefix) + s[q..e] + Replace(pass, s, e, base, prefix)
  {
  }

  /** Every piece after the first starts with `BASE/`: the prefix only ever
      goes in front of the configured base. */
  lemma {:induction false} PiecesMarked(pass: Pass, s: string, i: nat, base: string)
    requires i <= |s|
    ensures Marked(Pieces(pass, s, i, base), base)
    decreases Rank(pass), |s| - i, 1
  {
    if i < |s| {
      var h := HitAt(pass, s, i, base);
      if h.None? {
        MissSteps(pass, s, i, base, []);
        PiecesMarked(pass, s, i + 1, base);
        GlueMarked([[s[i]]], Pieces(pass, s, i + 1, base), base);
      } else if h.value.Point? {
        PointPiecesMarked(pass, s, i, base, h.value.at, h.value.upTo, h.value.end);
      } else {
        RegionPiecesMarked(pass, s, i, base, h.value.from, h.value.to, h.value.end);
      }
    }
  }

  /** The URL case of the proof above. */
  lemma {:induction false} PointPiecesMarked(pass: Pass, s: string, i: nat, base: string, p: nat, r: nat, e: nat)
    requires i < |s| && HitAt(pass, s, i, base) == Some(Point(p, r, e))
    ensures Marked(Pieces(pass, s, i, base), base)
    decreases Rank(pass), |s| - i, 0
  {
    PointSteps(pass, s, i, base, [], p, r, e);
    PiecesMarked(pass, s, e, base);
    PointMarked(s, i, p, e, base);
    GlueMarked([s[i..p], s[p..e]], Pieces(pass, s, e, base), base);
  }

  /** The srcset case of the proof above. */
  lemma {:induction false} RegionPiecesMarked(pass: Pass, s: string, i: nat, base: string, v: nat, q: nat, e: nat)
    requires i < |s| && HitAt(pass, s, i, base) == Some(Region(v, q, e))
    ensures Marked(Pieces(pass, s, i, base), base)
    decreases Rank(pass), |s| - i, 0
  {
    RegionSteps(pass, s, i, base, [], v, q, e);
    PiecesMarked(SrcsetUrl, s[v..q], 0, base);
    PiecesMarked(pass, s, e, base);
    RegionMarked(s[i..v], Pieces(SrcsetUrl, s[v..q], 0, base), s[q..e], Pieces(pass, s, e, base), base);
  }

  lemma RegionMarked(before: string, inner: seq<string>, after: string, rest: seq<string>, base: string)
    requires |inner| >= 1 && |rest| >= 1 && Marked(inner, base) && Marked(rest, base)
    ensures Marked(Glue([before], Glue(inner, Glue([after], rest))), base)
  {
    GlueMarked([after], rest, base);
    GlueMarked(inner, Glue([after], rest), base);
    GlueMarked([before], Glue(inner, Glue([after], rest)), base);
  }

  /** The pieces make up the page: a pass drops and reorders nothing. */
  lemma {:induction false} PiecesCover(pass: Pass, s: string, i: nat, base: string)
    requires i <= |s|
    ensures Join(Pieces(pass, s, i, base), "") == s[i..]
    decreases Rank(pass), |s| - i, 1
  {
    if i < |s| {
      var h := HitAt(pass, s, i, base);
      if h.None? {
        MissSteps(pass, s, i, base, []);
        PiecesCover(pass, s, i + 1, base);
        MissCover(s, i, Pieces(pass, s, i + 1, base));
      } else if h.value.Point? {
        PointPiecesCover(pass, s, i, base, h.value.at, h.value.upTo, h.value.end);
      } else {
        RegionPiecesCover(pass, s, i, base, h.value.from, h.value.to, h.value.end);
      }
    }
  }

  /** The URL case of the proof above. */
  lemma {:induction false} PointPiecesCover(pass: Pass, s: string, i: nat, base: string, p: nat, r: nat, e: nat)
    requires i < |s| && HitAt(pass, s, i, base) == Some(Point(p, r, e))
    ensures Join(Pieces(pass, s, i, base), "") == s[i..]
    decreases Rank(pass), |s| - i, 0
  {
    PointSteps(pass, s, i, base, [], p, r, e);
    PiecesCover(pass, s, e, base);
    PointCover(s, i, p, e, Pieces(pass, s, e, base));
  }

  /** The srcset case of the proof above. */
  lemma {:induction false} RegionPiecesCover(pass: Pass, s: string, i: nat, base: string, v: nat, q: nat, e: nat)
    requires i < |s| && HitAt(pass, s, i, base) == Some(Region(v, q, e))
    ensures Join(Pieces(pass, s, i, base), "") == s[i..]
    decreases Rank(pass), |s| - i, 0
  {
    RegionSteps(pass, s, i, base, [], v, q, e);
    PiecesCover(SrcsetUrl, s[v..q], 0, base);
    PiecesCover(pass, s, e, base);
    RegionCover(s, i, v, q, e, Pieces(SrcsetUrl, s[v..q], 0, base), Pieces(pass, s, e, base));
  }

  lemma MissCover(s: string, i: nat, rest: seq<string>)
    requires i < |s| && |rest| >= 1 && Join(rest, "") == s[i + 1..]
    ensures Join(Glue([[s[i]]], rest), "") == s[i..]
  {
    JoinGlue([[s[i]]], rest, "");
    assert [s[i]] + s[i + 1..] == s[i..];
  }

  lemma PointCover(s: string, i: nat, p: nat, e: nat, rest: seq<string>)
    requires i <= p <= e <= |s| && |rest| >= 1 && Join(rest, "") == s[e..]
    ensures Join(Glue([s[i..p], s[p..e]], rest), "") == s[i..]
  {
    var pair := [s[i..p], s[p..e]];
    JoinGlue(pair, rest, "");
    assert pair[1..] == [s[p..e]];
    assert Join(pair, "") == s[i..p] + s[p..e];
    Adjacent(s, i, p, e);
    Adjacent(s, i, e, |s|);
  }

  lemma RegionCover(s: string, i: nat, v: nat, q: nat, e: nat, inner: seq<string>, rest: seq<string>)
    requires i <= v <= q <= e <= |s| && |inner| >= 1 && |rest| >= 1
    requires Join(inner, "") == s[v..q][0..] && Join(rest, "") == s[e..]
    ensures Join(Glue([s[i..v]], Glue(inner, Glue([s[q..e]], rest))), "") == s[i..]
  {
    RegionJoin(s[i..v], inner, s[q..e], rest, "");
    assert s[v..q][0..] == s[v..q];
    Adjacent(s, i, v, q);
    Adjacent(s, i, q, e);
    Adjacent(s, i, e, |s|);
  }

  /** Two adjacent slices make one. */
  lemma Adjacent(s: string, a: nat, b: nat, c: nat)
    requires a <= b <= c <= |s|
    ensures s[a..b] + s[b..c] == s[a..c]
    ensures c == |s| ==> s[a..b] + s[b..] == s[a..]
  {
    assert s[a..b] + s[b..c] == s[a..c];
  }

  lemma PointJoin(s: string, i: nat, p: nat, e: nat, sep: string)
    requires i <= p <= e <= |s|
    ensures Join([s[i..p], s[p..e]], sep) == s[i..p] + sep + s[p..e]
  {
    assert [s[i..p], s[p..e]][1..] == [s[p..e]];
  }

  lemma RegionJoin(before: string, inner: seq<string>, after: string, rest: seq<string>, sep: string)
    requires |inner| >= 1 && |rest| >= 1
    ensures Join(Glue([before], Glue(inner, Glue([after], rest))), sep) ==
            before + Join(inner, sep) + after + Join(rest, sep)
  {
    JoinGlue([after], rest, sep);
    JoinGlue(inner, Glue([after], rest), sep);
    JoinGlue([before], Glue(inner, Glue([after], rest)), sep);
  }

  /** Each callback builds `before + prefix + url + after` from the very
      text of its match, so a pass is its pieces joined with the prefix. */
  lemma {:induction false} ReplaceJoinsPieces(pass: Pass, s: string, i: nat, base: string, prefix: string)
    requires i <= |s|
    ensures Replace(pass, s, i, base, prefix) == Join(Pieces(pass, s, i, base), prefix)
    decreases Rank(pass), |s| - i, 1
  {
    if i < |s| {
      var h := HitAt(pass, s, i, base);
      if h.None? {
        MissSteps(pass, s, i, base, prefix);
        ReplaceJoinsPieces(pass, s, i + 1, base, prefix);
        JoinGlue([[s[i]]], Pieces(pass, s, i + 1, base), prefix);
      } else if h.value.Point? {
        var p, r, e := h.value.at, h.value.upTo, h.value.end;
        PointSteps(pass, s, i, base, prefix, p, r, e);
        ReplaceJoinsPieces(pass, s, e, base, prefix);
        PointReplaced(s, i, p, r, e, Pieces(pass, s, e, base), Replace(pass, s, e, base, prefix), prefix);
      } else {
        RegionJoinsPieces(pass, s, i, base, prefix, h.value.from, h.value.to, h.value.end);
      }
    }
  }

  /** The srcset case of the proof above: the rewritten value and the rest. */
  lemma {:induction false} RegionJoinsPieces(pass: Pass, s: string, i: nat, base: string, prefix: string,
                                             v: nat, q: nat, e: nat)
    requires i < |s| && HitAt(pass, s, i, base) == Some(Region(v, q, e))
    ensures Replace(pass, s, i, base, prefix) == Join(Pieces(pass, s, i, base), prefix)
    decreases Rank(pass), |s| - i, 0
  {
    RegionSteps(pass, s, i, base, prefix, v, q, e);
    ReplaceJoinsPieces(SrcsetUrl, s[v..q], 0, base, prefix);
    ReplaceJoinsPieces(pass, s, e, base, prefix);
    RegionJoin(s[i..v], Pieces(SrcsetUrl, s[v..q], 0, base), s[q..e], Pieces(pass, s, e, base), prefix);
  }

  lemma PointReplaced(s: string, i: nat, p: nat, r: nat, e: nat, rest: seq<string>, tail: string, prefix: string)
    requires i <= p <= r <= e <= |s| && |rest| >= 1 && tail == Join(rest, prefix)
    ensures s[i..p] + prefix + s[p..r] + s[r..e] + tail == Join(Glue([s[i..p], s[p..e]], rest), prefix)
  {
    JoinGlue([s[i..p], s[p..e]], rest, prefix);
    PointJoin(s, i, p, e, prefix);
    assert s[p..e] == s[p..r] + s[r..e];
  }

  /** The prefix goes exactly where the page holds `BASE/`-led URLs: the
      output is the page cut into pieces that make it up, joined by the
      prefix, every piece but the first starting with `BASE/`. */
  lemma PassInsertsPrefix(pass: Pass, s: string, base: string, prefix: string)
    ensures var ps := Pieces(pass, s, 0, base);
      Replace(pass, s, 0, base, prefix) == Join(ps, prefix) && Join(ps, "") == s && Marked(ps, base)
  {
    ReplaceJoinsPieces(pass, s, 0, base, prefix);
    PiecesCover(pass, s, 0, base);
    PiecesMarked(pass, s, 0, base);
    assert s[0..] == s;
  }

  /** The second piece starts right after the first inside the page. */
  lemma SecondPieceAt(ps: seq<string>, s: string, base: string)
    requires |ps| >= 2 && Join(ps, "") == s && Marked(ps, base)
    ensures BaseAt(s, |ps[0]|, base)
  {
    var tail := Join(ps[1..], "");
    assert s == ps[0] + tail;
    assert ps[1..][0] == ps[1];
    FirstPieceStarts(ps[1..], "");
    forall k | 0 <= k < |base + "/"| ensures LowerChar(s[|ps[0]| + k]) == LowerChar((base + "/")[k]) {
      assert s[|ps[0]| + k] == tail[k] == ps[1][k];
    }
  }

  lemma FirstPieceStarts(ps: seq<string>, sep: string)
    requires |ps| >= 1
    ensures ps[0] <= Join(ps, sep)
  {
  }

  /** A page where `BASE/` occurs nowhere comes out of a pass as it went in. */
  lemma ReplaceWithoutBase(pass: Pass, s: string, base: string, prefix: string)
    requires forall k :: 0 <= k <= |s| ==> !BaseAt(s, k, base)
    ensures Replace(pass, s, 0, base, prefix) == s
  {
    PassInsertsPrefix(pass, s, base, prefix);
    var ps := Pieces(pass, s, 0, base);
    if |ps| >= 2 {
      SecondPieceAt(ps, s, base);
      assert false;
    }
  }

  /** `src="BASE/path"`, the page of the example in the filter's own
      documentation. */
  predicate SrcAttribute(s: string, base: string, path: string) {
    |s| == |base| + |path| + 7 && s[..5] == "src=\"" && s[5..5 + |base|] == base &&
    s[5 + |base|] == '/' && s[6 + |base|..|s| - 1] == path && s[|s| - 1] == '"'
  }

  lemma SrcAttributeShape(base: string, path: string)
    ensures SrcAttribute("src=\"" + base + "/" + path + "\"", base, path)
  {
    var s := "src=\"" + base + "/" + path + "\"";
    assert s[..5] == "src=\"";
    assert s[5..5 + |base|] == base;
    assert s[6 + |base|..|s| - 1] == path;
  }

  /** Where reAttr matches in such a page: the whole of it, the URL from
      index 5 up to the closing quote. */
  lemma SrcAttributeHit(s: string, base: string, path: string)
    requires SrcAttribute(s, base, path) && path != []
    requires forall k :: 0 <= k < |path| ==> AttrUrlChar(path[k])
    ensures HitAt(Attr, s, 0, base) == Some(Point(5, |s| - 1, |s|))
  {
    assert s[0] == 's' && s[1] == 'r' && s[2] == 'c' && s[3] == '=' && s[4] == '"' by {
      assert s[..5][0] == s[0] && s[..5][1] == s[1] && s[..5][2] == s[2];
      assert s[..5][3] == s[3] && s[..5][4] == s[4];
    }
    assert LitI(s, 0, "src");
    assert AttrNameEnd(s, 0) == Some(3);
    forall k | 0 <= k < |base + "/"| ensures LowerChar(s[5 + k]) == LowerChar((base + "/")[k]) {
      if k < |base| { assert s[5 + k] == s[5..5 + |base|][k]; }
    }
    var u := 6 + |base|;
    forall k | u <= k < |s| - 1 ensures AttrUrlChar(s[k]) {
      assert s[k] == s[u..|s| - 1][k - u] == path[k - u];
    }
    RunEndExact(s, u, |s| - 1, AttrUrlChar);
    assert BaseRun(s, 5, base, AttrUrlChar) == Some(|s| - 1);
  }

  /** In such a page the prefix goes in only right after `src="`. */
  lemma SrcAttributeReplaced(s: string, base: string, path: string, prefix: string)
    requires SrcAttribute(s, base, path) && path != []
    requires forall k :: 0 <= k < |path| ==> AttrUrlChar(path[k])
    ensures Replace(Attr, s, 0, base, prefix) == s[0..5] + prefix + s[5..|s| - 1] + s[|s| - 1..|s|]
  {
    SrcAttributeHit(s, base, path);
    PointSteps(Attr, s, 0, base, prefix, 5, |s| - 1, |s|);
    assert Replace(Attr, s, |s|, base, prefix) == [];
  }

  lemma SrcAttributeText(base: string, path: string, prefix: string)
    ensures var s := "src=\"" + base + "/" + path + "\"";
      s[0..5] + prefix + s[5..|s| - 1] + s[|s| - 1..|s|] == "src=\"" + prefix + base + "/" + path + "\""
  {
    var s := "src=\"" + base + "/" + path + "\"";
    var url := base + "/" + path;
    assert s == "src=\"" + url + "\"";
    assert s[0..5] == "src=\"";
    assert s[5..|s| - 1] == url;
    assert s[|s| - 1..|s|] == "\"";
  }

  /** The documented example: `src="BASE/path"` becomes
      `src="<prefix>BASE/path"`. */
  lemma SrcAttributeRewritten(base: string, path: string, prefix: string)
    requires path != [] && forall k :: 0 <= k < |path| ==> AttrUrlChar(path[k])
    ensures Replace(Attr, "src=\"" + base + "/" + path + "\"", 0, base, prefix) ==
            "src=\"" + prefix + base + "/" + path + "\""
  {
    SrcAttributeShape(base, path);
    SrcAttributeReplaced("src=\"" + base + "/" + path + "\"", base, path, prefix);
    SrcAttributeText(base, path, prefix);
  }

  // ---------------------------------------------------------------------
  //  Every URL in its three contexts is found and rewritten
  // ---------------------------------------------------------------------

  /** `BASE/` at `p`, then at least one character of the class, up to `r`. */
  predicate UrlRun(s: string, p: nat, r: nat, base: string, inClass: char -> bool) {
    BaseAt(s, p, base) && p + |base| + 1 < r <= |s| &&
    forall k :: p + |base| + 1 <= k < r ==> inClass(s[k])
  }

  /** A run of the class that stops at `r` is what `BaseRun` reads. */
  lemma BaseRunFound(s: string, p: nat, r: nat, base: string, inClass: char -> bool)
    requires UrlRun(s, p, r, base, inClass) && (r == |s| || !inClass(s[r]))
    ensures BaseRun(s, p, base, inClass) == Some(r)
  {
    RunEndExact(s, p + |base| + 1, r, inClass);
  }

  /** The four attribute names of reAttr. */
  predicate IsAttrName(name: string) {
    name == "src" || name == "data-src" || name == "data-original" || name == "data-lazy-src"
  }

  /** Each of the four names is read by the alternation, whichever of them it is. */
  lemma AttrNameFound(s: string, i: nat, name: string)
    requires IsAttrName(name) && LitI(s, i, name)
    ensures AttrNameEnd(s, i) == Some(i + |name|)
  {
    if name != "src" {
      LitIDiffers(s, i, name, "src", 0);
      if name != "data-src" {
        LitIDiffers(s, i, name, "data-src", 5);
        if name != "data-original" {
          LitIDiffers(s, i, name, "data-original", 5);
        }
      }
    }
  }

  /** Two literals that differ, case aside, at `k` do not both match at `i`. */
  lemma LitIDiffers(s: string, i: nat, a: string, b: string, k: nat)
    requires k < |a| && k < |b| && LowerChar(a[k]) != LowerChar(b[k]) && LitI(s, i, a)
    ensures !LitI(s, i, b)
  {
    assert LowerChar(s[i + k]) == LowerChar(a[k]);
  }

  /** `name=`, a quote, `BASE/` and URL characters up to the quote at `r`, at `i`. */
  predicate AttrAt(s: string, i: nat, base: string, name: string, r: nat) {
    IsAttrName(name) && LitI(s, i, name) && UrlRun(s, i + |name| + 2, r, base, AttrUrlChar) &&
    s[i + |name|] == '=' && IsQuote(s[i + |name| + 1]) && r < |s| && IsQuote(s[r])
  }

  /** reAttr matches every such attribute, the URL from after the quote up to the closing quote. */
  lemma AttrHitFound(s: string, i: nat, base: string, name: string, r: nat)
    requires AttrAt(s, i, base, name, r)
    ensures AttrHit(s, i, base) == Some(Point(i + |name| + 2, r, r + 1))
  {
    AttrNameFound(s, i, name);
    BaseRunFound(s, i + |name| + 2, r, base, AttrUrlChar);
  }

  /** `srcset=`, a quote, a non-empty value without quotes and the quote at `q`, at `i`. */
  predicate SrcsetAt(s: string, i: nat, q: nat) {
    LitI(s, i, "srcset=") && i + 8 < q < |s| && IsQuote(s[i + 7]) &&
    (forall k :: i + 8 <= k < q ==> !IsQuote(s[k])) && IsQuote(s[q])
  }

  /** reSrcset matches every such attribute, the value from after the quote up to the closing quote. */
  lemma SrcsetHitFound(s: string, i: nat, q: nat)
    requires SrcsetAt(s, i, q)
    ensures SrcsetHit(s, i) == Some(Region(i + 8, q, q + 1))
  {
    RunEndExact(s, i + 8, q, NotQuote);
  }

  /** reUrlInSrcset matches every `BASE/` URL that runs up to white space, a comma or the end. */
  lemma SrcsetUrlHitFound(s: string, i: nat, base: string, r: nat)
    requires UrlRun(s, i, r, base, SrcsetUrlChar) && (r == |s| || !SrcsetUrlChar(s[r]))
    ensures SrcsetUrlHit(s, i, base) == Some(Point(i, r, r))
  {
    BaseRunFound(s, i, r, base, SrcsetUrlChar);
  }

  /** The end of reStyle after a URL that stops at `r`: `)`, or a quote and `)`. */
  predicate StyleClose(s: string, r: nat, e: nat) {
    (e == r + 2 && r + 1 < |s| && IsQuote(s[r]) && s[r + 1] == ')') ||
    (e == r + 1 && r < |s| && s[r] == ')')
  }

  /** `url(`, an optional quote, `BASE/`, URL characters up to `r` and the
      closing at `r`, at `i`; the URL starts at `p`. */
  predicate StyleAt(s: string, i: nat, base: string, p: nat, r: nat, e: nat) {
    LitI(s, i, "url(") && UrlRun(s, p, r, base, StyleUrlChar) && StyleClose(s, r, e) &&
    ((p == i + 5 && IsQuote(s[i + 4])) || (p == i + 4 && !IsQuote(s[i + 4])))
  }

  lemma StyleRestFound(s: string, p: nat, base: string, r: nat, e: nat)
    requires UrlRun(s, p, r, base, StyleUrlChar) && StyleClose(s, r, e)
    ensures StyleRest(s, p, base) == Some(Point(p, r, e))
  {
    BaseRunFound(s, p, r, base, StyleUrlChar);
  }

  /** reStyle matches every such `url(...)`, quoted or not. */
  lemma StyleHitFound(s: string, i: nat, base: string, p: nat, r: nat, e: nat)
    requires StyleAt(s, i, base, p, r, e)
    ensures StyleHit(s, i, base) == Some(Point(p, r, e))
  {
    StyleRestFound(s, p, base, r, e);
  }

  /** No match of the pass starts in `s[i..j]`. */
  ghost predicate NoHitBetween(pass: Pass, s: string, i: nat, j: nat, base: string)
    requires i <= j <= |s|
  {
    forall k :: i <= k < j ==> HitAt(pass, s, k, base).None?
  }

  /** A global replace copies the text up to its next match unchanged. */
  lemma {:induction false} ReplaceSkipsUnmatched(pass: Pass, s: string, i: nat, j: nat, base: string, prefix: string)
    requires i <= j <= |s| && NoHitBetween(pass, s, i, j, base)
    ensures Replace(pass, s, i, base, prefix) == s[i..j] + Replace(pass, s, j, base, prefix)
    decreases j - i
  {
    if i < j {
      MissStepsBetween(pass, s, i, j, base, prefix);
      ReplaceSkipsUnmatched(pass, s, i + 1, j, base, prefix);
      ConsSlice(s, i, j, Replace(pass, s, j, base, prefix));
    }
  }

  lemma MissStepsBetween(pass: Pass, s: string, i: nat, j: nat, base: string, prefix: string)
    requires i < j <= |s| && NoHitBetween(pass, s, i, j, base)
    ensures NoHitBetween(pass, s, i + 1, j, base)
    ensures Replace(pass, s, i, base, prefix) == [s[i]] + Replace(pass, s, i + 1, base, prefix)
  {
    assert HitAt(pass, s, i, base).None?;
    MissSteps(pass, s, i, base, prefix);
  }

  lemma ConsSlice(s: string, i: nat, j: nat, tail: string)
    requires i < j <= |s|
    ensures [s[i]] + (s[i + 1..j] + tail) == s[i..j] + tail
  {
    assert [s[i]] + s[i + 1..j] == s[i..j];
  }

  /** The leftmost URL match from `i` on gets the prefix in front of its URL,
      the text before it unchanged, and the replace goes on after it. */
  lemma LeftmostPointRewritten(pass: Pass, s: string, i: nat, j: nat, base: string, prefix: string,
                               p: nat, r: nat, e: nat)
    requires i <= j < |s| && NoHitBetween(pass, s, i, j, base) && HitAt(pass, s, j, base) == Some(Point(p, r, e))
    ensures j <= p < r <= e <= |s| && BaseAt(s, p, base)
    ensures Replace(pass, s, i, base, prefix) == s[i..p] + prefix + s[p..e] + Replace(pass, s, e, base, prefix)
  {
    ReplaceSkipsUnmatched(pass, s, i, j, base, prefix);
    PointSteps(pass, s, j, base, prefix, p, r, e);
    SkipThenPoint(s, i, j, p, r, e, prefix, Replace(pass, s, e, base, prefix));
  }

  lemma SkipThenPoint(s: string, i: nat, j: nat, p: nat, r: nat, e: nat, prefix: string, tail: string)
    requires i <= j <= p <= r <= e <= |s|
    ensures s[i..j] + (s[j..p] + prefix + s[p..r] + s[r..e] + tail) == s[i..p] + prefix + s[p..e] + tail
  {
    Adjacent(s, i, j, p);
    Adjacent(s, p, r, e);
  }

  /** The leftmost `srcset` match from `i` on has its value rewritten by the
      inner replace, the text around it unchanged. */
  lemma LeftmostRegionRewritten(s: string, i: nat, j: nat, base: string, prefix: string, v: nat, q: nat, e: nat)
    requires i <= j < |s| && NoHitBetween(Srcset, s, i, j, base) && HitAt(Srcset, s, j, base) == Some(Region(v, q, e))
    ensures j <= v <= q <= e <= |s|
    ensures Replace(Srcset, s, i, base, prefix) ==
            s[i..v] + Replace(SrcsetUrl, s[v..q], 0, base, prefix) + s[q..e] + Replace(Srcset, s, e, base, prefix)
  {
    ReplaceSkipsUnmatched(Srcset, s, i, j, base, prefix);
    RegionReplaced(s, j, base, prefix, v, q, e);
    SkipThenRegion(s, i, j, v, Replace(SrcsetUrl, s[v..q], 0, base, prefix), s[q..e], Replace(Srcset, s, e, base, prefix));
  }

  /** How `Replace` goes on past a `srcset` match. */
  lemma RegionReplaced(s: string, j: nat, base: string, prefix: string, v: nat, q: nat, e: nat)
    requires j < |s| && HitAt(Srcset, s, j, base) == Some(Region(v, q, e))
    ensures j <= v <= q <= e <= |s|
    ensures Replace(Srcset, s, j, base, prefix) ==
            s[j..v] + Replace(SrcsetUrl, s[v..q], 0, base, prefix) + s[q..e] + Replace(Srcset, s, e, base, prefix)
  {
  }

  lemma SkipThenRegion(s: string, i: nat, j: nat, v: nat, x: string, y: string, z: string)
    requires i <= j <= v <= |s|
    ensures s[i..j] + (s[j..v] + x + y + z) == s[i..v] + x + y + z
  {
    Adjacent(s, i, j, v);
  }

  /** An attribute `name="BASE/..."` (any of the four names, either quote)
      at the next match position gets the prefix right after its quote. */
  lemma AttrRewritten(s: string, i: nat, j: nat, base: string, prefix: string, name: string, r: nat)
    requires i <= j && AttrAt(s, j, base, name, r) && NoHitBetween(Attr, s, i, j, base)
    ensures Replace(Attr, s, i, base, prefix) ==
            s[i..j + |name| + 2] + prefix + s[j + |name| + 2..r + 1] + Replace(Attr, s, r + 1, base, prefix)
  {
    AttrHitFound(s, j, base, name, r);
    LeftmostPointRewritten(Attr, s, i, j, base, prefix, j + |name| + 2, r, r + 1);
  }

  /** A `srcset` value at the next match position is rewritten by the inner replace. */
  lemma SrcsetRewritten(s: string, i: nat, j: nat, base: string, prefix: string, q: nat)
    requires i <= j && SrcsetAt(s, j, q) && NoHitBetween(Srcset, s, i, j, base)
    ensures Replace(Srcset, s, i, base, prefix) ==
            s[i..j + 8] + Replace(SrcsetUrl, s[j + 8..q], 0, base, prefix) + s[q..q + 1] +
            Replace(Srcset, s, q + 1, base, prefix)
  {
    SrcsetHitFound(s, j, q);
    LeftmostRegionRewritten(s, i, j, base, prefix, j + 8, q, q + 1);
  }

  /** A `BASE/` URL of a `srcset` value at the next match position gets the prefix. */
  lemma SrcsetUrlRewritten(s: string, i: nat, j: nat, base: string, prefix: string, r: nat)
    requires i <= j && UrlRun(s, j, r, base, SrcsetUrlChar) && (r == |s| || !SrcsetUrlChar(s[r]))
    requires NoHitBetween(SrcsetUrl, s, i, j, base)
    ensures Replace(SrcsetUrl, s, i, base, prefix) == s[i..j] + prefix + s[j..r] + Replace(SrcsetUrl, s, r, base, prefix)
  {
    SrcsetUrlHitFound(s, j, base, r);
    LeftmostPointRewritten(SrcsetUrl, s, i, j, base, prefix, j, r, r);
  }

  /** A CSS `url(BASE/...)`, quoted or not, at the next match position gets
      the prefix right before `BASE/`. */
  lemma StyleRewritten(s: string, i: nat, j: nat, base: string, prefix: string, p: nat, r: nat, e: nat)
    requires i <= j && StyleAt(s, j, base, p, r, e) && NoHitBetween(Style, s, i, j, base)
    ensures Replace(Style, s, i, base, prefix) == s[i..p] + prefix + s[p..e] + Replace(Style, s, e, base, prefix)
  {
    StyleHitFound(s, j, base, p, r, e);
    LeftmostPointRewritten(Style, s, i, j, base, prefix, p, r, e);
  }

  // ---------------------------------------------------------------------
  //  The filter
  // ---------------------------------------------------------------------

  /** The three replacements, in the order the filter runs them. */
  function Transform(html: string, base: string, prefix: string): string {
    var afterAttr := Replace(Attr, html, 0, base, prefix);
    var afterSrcset := Replace(Srcset, afterAttr, 0, base, prefix);
    Replace(Style, afterSrcset, 0, base, prefix)
  }

  /** `cfImageTransform(html)` run by the command `cmd` (`hexo.env.cmd`) with
      the given `cf_image_transform` section: the page untouched when a
      guard holds, else the three replacements with the normalised base and
      prefix. */
  function CfImageTransform(cmd: string, section: Option<Section>, html: string): (out: string)
    ensures Skips(cmd, Merge(section)) ==> out == html
    ensures !Skips(cmd, Merge(section)) ==>
      Base(Merge(section)) != [] && out == Transform(html, Base(Merge(section)), Prefix(Merge(section)))
  {
    var cfg := Merge(section);
    if cmd == "server" && !Truthy(cfg.enableDev) then html
    else if !Truthy(cfg.enable) then html
    else
      var r2Base := Base(cfg);
      if r2Base == [] then html
      else Transform(html, r2Base, Prefix(cfg))
  }

  /** A page that never mentions `BASE/` is left as it is. */
  lemma TransformWithoutBase(html: string, base: string, prefix: string)
    requires forall k :: 0 <= k <= |html| ==> !BaseAt(html, k, base)
    ensures Transform(html, base, prefix) == html
  {
    ReplaceWithoutBase(Attr, html, base, prefix);
    ReplaceWithoutBase(Srcset, html, base, prefix);
    ReplaceWithoutBase(Style, html, base, prefix);
  }
}
