/** The three image-reference grammars of the migration script, as matcher
    functions that follow the JavaScript regular-expression engine's
    backtracking order, and the global `exec` scan that finds their
    leftmost, non-overlapping matches in a document:

      RE_HEXO_IMG   {%\s*img\s+(https?://[^\s'"]+)(?:\s+'([^']*)')?\s*%}
      RE_ASSET_IMG  {%\s*asset_img\s+([^\s%]+)(?:\s+([^%]*?))?\s*%}
      RE_MD_IMG     !\[([^\]]*)\]\((https?://[^\s)]+?)(?:\s+"([^"]*)")?\)
*/
module MigratePatterns {
  import opened Wrappers
  import opened JsString

  /** One image reference found in a document: the exact matched span and its captures. */
  datatype Reference =
    | ExternalTag(span: string, url: string, alt: Option<string>)
    | LocalAsset(span: string, filename: string, alt: Option<string>)
    | MarkdownImage(span: string, altText: string, url: string, title: Option<string>)

  /** The three syntaxes, in the order the document is scanned for them. */
  datatype Syntax = HexoImg | AssetImg | MdImg

  predicate OfSyntax(r: Reference, syntax: Syntax) {
    match syntax
    case HexoImg => r.ExternalTag?
    case AssetImg => r.LocalAsset?
    case MdImg => r.MarkdownImage?
  }

  /** A match: the reference and the index just past its span. */
  datatype Match = Match(ref: Reference, end: nat)

  /** `lit` stands in `s` at index `i`. */
  predicate LitAt(s: string, i: nat, lit: string) {
    i + |lit| <= |s| && s[i..i + |lit|] == lit
  }

  /** A URL with an `http://` or `https://` scheme. */
  predicate IsHttpUrl(url: string) {
    "http://" <= url || "https://" <= url
  }

  // Character classes of the three grammars.
  predicate HexoUrlChar(c: char) { !IsSpace(c) && c != '\'' && c != '"' }
  predicate AssetNameChar(c: char) { !IsSpace(c) && c != '%' }
  predicate MdUrlChar(c: char) { !IsSpace(c) && c != ')' }
  predicate NotApostrophe(c: char) { c != '\'' }
  predicate NotPercent(c: char) { c != '%' }
  predicate NotBracket(c: char) { c != ']' }
  predicate NotDoubleQuote(c: char) { c != '"' }

  /** The end of a greedy `\s*` from `i`. */
  function SkipSpaces(s: string, i: nat): (j: nat)
    requires i <= |s|
    ensures i <= j <= |s|
    ensures forall k :: i <= k < j ==> IsSpace(s[k])
    ensures j == |s| || !IsSpace(s[j])
  {
    RunEnd(s, i, IsSpace)
  }

  /** The characters that spell `http://` and `https://`. */
  predicate IsSchemeChar(c: char) {
    c == 'h' || c == 't' || c == 'p' || c == 's' || c == ':' || c == '/'
  }

  /** A character class that takes in every scheme character. */
  predicate AdmitsScheme(inClass: char -> bool) {
    inClass('h') && inClass('t') && inClass('p') && inClass('s') && inClass(':') && inClass('/')
  }

  lemma UrlClassesAdmitScheme()
    ensures AdmitsScheme(HexoUrlChar) && AdmitsScheme(MdUrlChar)
  {
  }

  /** `https?://` at `i`: the index just past it. */
  function SchemeEnd(s: string, i: nat): (r: Option<nat>)
    ensures r.Some? ==> r.value <= |s| && i + 7 <= r.value && IsHttpUrl(s[i..r.value])
    ensures r.Some? ==> forall k :: i <= k < r.value ==> IsSchemeChar(s[k])
  {
    if LitAt(s, i, "https://") then
      assert forall k :: i <= k < i + 8 ==> s[k] == "https://"[k - i];
      Some(i + 8)
    else if LitAt(s, i, "http://") then
      assert forall k :: i <= k < i + 7 ==> s[k] == "http://"[k - i];
      Some(i + 7)
    else None
  }

  /** `{%\s*<keyword>\s+` at `i`: the index where the tag's argument starts. */
  function TagArgument(s: string, i: nat, keyword: string): (r: Option<nat>)
    requires i <= |s|
    ensures r.Some? ==> i + 2 + |keyword| < r.value <= |s| && LitAt(s, i, "{%")
  {
    if !LitAt(s, i, "{%") then None
    else
      var a := SkipSpaces(s, i + 2);
      if !LitAt(s, a, keyword) then None
      else
        var b := SkipSpaces(s, a + |keyword|);
        if b == a + |keyword| then None else Some(b)
  }

  /** `https?://` at `b` followed by a non-empty greedy run of `inClass`:
      the index past the scheme and the index where the run ends. */
  function UrlRun(s: string, b: nat, inClass: char -> bool): (r: Option<(nat, nat)>)
    requires b <= |s|
    requires AdmitsScheme(inClass)
    ensures r.Some? ==> b + 7 <= r.value.0 < r.value.1 <= |s| && IsHttpUrl(s[b..r.value.1])
    ensures r.Some? ==> forall k :: b <= k < r.value.1 ==> inClass(s[k])
    ensures r.Some? ==> r.value.1 == |s| || !inClass(s[r.value.1])
  {
    match SchemeEnd(s, b)
    case None => None
    case Some(u0) =>
      var e := RunEnd(s, u0, inClass);
      if e == u0 then None
      else
        assert s[b..u0] == s[b..e][..u0 - b];
        Some((u0, e))
  }

  /** Cutting a URL of the grammar short, past its scheme, leaves a URL. */
  lemma HttpUrlPrefix(url: string, n: nat)
    requires IsHttpUrl(url) && 8 <= n <= |url|
    ensures IsHttpUrl(url[..n])
  {
    if "http://" <= url {
      assert url[..n][..7] == url[..7];
    } else {
      assert url[..n][..8] == url[..8];
    }
  }

  // ---------------------------------------------------------------------
  //  {% img <url> ['<alt>'] %}
  // ---------------------------------------------------------------------

  /** After a URL that runs to `e` (the greedy run's end): the optional
      `\s+'caption'`, then `\s*%}`. It yields the caption and the end of the tag. */
  function ImgTail(s: string, e: nat): (r: Option<(Option<string>, nat)>)
    requires e <= |s|
    ensures r.Some? ==> e + 2 <= r.value.1 <= |s| && LitAt(s, r.value.1 - 2, "%}")
    ensures r.Some? && r.value.0.Some? ==> '\'' !in r.value.0.value
  {
    var w := SkipSpaces(s, e);
    if w > e && w < |s| && s[w] == '\'' then
      var q := RunEnd(s, w + 1, NotApostrophe);
      if q < |s| then
        var t := SkipSpaces(s, q + 1);
        if LitAt(s, t, "%}") then Some((Some(s[w + 1..q]), t + 2)) else None
      else None
    else if LitAt(s, w, "%}") then Some((None, w + 2))
    else None
  }

  /** The largest `e` in `[lo, hi)` with `%}` at `e`: where backtracking
      into the URL finds the tag's end when the maximal URL has no valid tail. */
  function LastClose(s: string, lo: nat, hi: nat): (r: Option<nat>)
    requires lo <= hi <= |s|
    ensures r.Some? ==> lo <= r.value < hi && LitAt(s, r.value, "%}")
    ensures forall e :: (if r.Some? then r.value < e else lo <= e) && e < hi ==> !LitAt(s, e, "%}")
    decreases hi - lo
  {
    if hi == lo then None
    else if LitAt(s, hi - 1, "%}") then Some(hi - 1)
    else LastClose(s, lo, hi - 1)
  }

  /** What a RE_HEXO_IMG match from `i` is: a span from `{%` to `%}`, an
      http(s) URL without white space, `'` or `"`, and a caption without `'`. */
  predicate ImgShape(s: string, i: nat, r: Option<Match>) {
    r.Some? ==>
      i + 4 <= r.value.end <= |s| && r.value.ref.ExternalTag? && r.value.ref.span == s[i..r.value.end] &&
      LitAt(s, i, "{%") && LitAt(s, r.value.end - 2, "%}") &&
      IsHttpUrl(r.value.ref.url) &&
      (forall k :: 0 <= k < |r.value.ref.url| ==> HexoUrlChar(r.value.ref.url[k])) &&
      (r.value.ref.alt.Some? ==> '\'' !in r.value.ref.alt.value)
  }

  /** An `img` tag match from `i` whose URL is `s[b..e]`, if the tag then closes. */
  function ImgMatch(s: string, i: nat, b: nat, e: nat, tail: Option<(Option<string>, nat)>): (r: Option<Match>)
    requires i + 2 < b < e <= |s| && LitAt(s, i, "{%")
    requires IsHttpUrl(s[b..e]) && forall k :: b <= k < e ==> HexoUrlChar(s[k])
    requires tail.Some? ==> e + 2 <= tail.value.1 <= |s| && LitAt(s, tail.value.1 - 2, "%}")
    requires tail.Some? && tail.value.0.Some? ==> '\'' !in tail.value.0.value
    ensures r.Some? <==> tail.Some?
    ensures ImgShape(s, i, r)
  {
    match tail
    case None => None
    case Some((alt, end)) => Some(Match(ExternalTag(s[i..end], s[b..e], alt), end))
  }

  /** When the maximal URL `s[b..runEnd]` has no valid tail, the engine
      gives characters back: the tag then closes where the longest shorter
      URL (still past the scheme `s[b..u0]`) is directly followed by `%}`. */
  function ImgBacktrack(s: string, i: nat, b: nat, u0: nat, runEnd: nat): (r: Option<Match>)
    requires i + 2 < b && b + 7 <= u0 < runEnd <= |s| && LitAt(s, i, "{%")
    requires IsHttpUrl(s[b..runEnd]) && forall k :: b <= k < runEnd ==> HexoUrlChar(s[k])
    ensures ImgShape(s, i, r) && (r.Some? ==> r.value.ref.alt.None?)
  {
    match LastClose(s, u0 + 1, runEnd)
    case None => None
    case Some(e) =>
      HttpUrlPrefix(s[b..runEnd], e - b);
      assert s[b..runEnd][..e - b] == s[b..e];
      ImgMatch(s, i, b, e, Some((None, e + 2)))
  }

  /** RE_HEXO_IMG from `i` once `{% img ` is read, the URL starting at `b`:
      the URL, with backtracking when the maximal one has no valid tail. */
  function ImgAfterArgument(s: string, i: nat, b: nat): (r: Option<Match>)
    requires i + 2 < b <= |s| && LitAt(s, i, "{%")
    ensures ImgShape(s, i, r)
  {
    UrlClassesAdmitScheme();
    match UrlRun(s, b, HexoUrlChar)
    case None => None
    case Some((u0, runEnd)) =>
      var tail := ImgTail(s, runEnd);
      if tail.Some? then ImgMatch(s, i, b, runEnd, tail)
      else ImgBacktrack(s, i, b, u0, runEnd)
  }

  /** RE_HEXO_IMG matched at index `i`. The span runs from `{%` to `%}`, the
      URL has an http(s) scheme and none of white space, `'` or `"`, and the
      caption holds no `'`. */
  function MatchImgAt(s: string, i: nat): (r: Option<Match>)
    requires i <= |s|
    ensures ImgShape(s, i, r)
  {
    match TagArgument(s, i, "img")
    case None => None
    case Some(b) => ImgAfterArgument(s, i, b)
  }

  // ---------------------------------------------------------------------
  //  {% asset_img <filename> [alt] %}
  // ---------------------------------------------------------------------

  /** After the file name ending at `f`: the optional `\s+([^%]*?)`, then
      `\s*%}`. The lazy caption is the text up to the first `%` less its
      trailing white space, which the `\s*` takes. */
  function AssetTail(s: string, f: nat): (r: Option<(Option<string>, nat)>)
    requires f <= |s|
    ensures r.Some? ==> f + 2 <= r.value.1 <= |s| && LitAt(s, r.value.1 - 2, "%}")
    ensures r.Some? && r.value.0.Some? ==> '%' !in r.value.0.value
  {
    var w := SkipSpaces(s, f);
    if w > f then
      var m := RunEnd(s, w, NotPercent);
      if LitAt(s, m, "%}") then
        var alt := TrimEnd(s[w..m]);
        assert alt == s[w..m][..|alt|];
        Some((Some(alt), m + 2))
      else None
    else if LitAt(s, f, "%}") then Some((None, f + 2))
    else None
  }

  /** What a RE_ASSET_IMG match from `i` is: a span from `{%` to `%}`, a
      non-empty file name without white space or `%`, and a caption
      without `%`. */
  predicate AssetShape(s: string, i: nat, r: Option<Match>) {
    r.Some? ==>
      i + 4 <= r.value.end <= |s| && r.value.ref.LocalAsset? && r.value.ref.span == s[i..r.value.end] &&
      LitAt(s, i, "{%") && LitAt(s, r.value.end - 2, "%}") &&
      r.value.ref.filename != [] &&
      (forall k :: 0 <= k < |r.value.ref.filename| ==> AssetNameChar(r.value.ref.filename[k])) &&
      (r.value.ref.alt.Some? ==> '%' !in r.value.ref.alt.value)
  }

  /** An `asset_img` tag match from `i` whose file name is `s[b..f]`, if the tag then closes. */
  function AssetMatch(s: string, i: nat, b: nat, f: nat, tail: Option<(Option<string>, nat)>): (r: Option<Match>)
    requires i + 2 < b < f <= |s| && LitAt(s, i, "{%")
    requires forall k :: b <= k < f ==> AssetNameChar(s[k])
    requires tail.Some? ==> f + 2 <= tail.value.1 <= |s| && LitAt(s, tail.value.1 - 2, "%}")
    requires tail.Some? && tail.value.0.Some? ==> '%' !in tail.value.0.value
    ensures r.Some? <==> tail.Some?
    ensures AssetShape(s, i, r)
  {
    match tail
    case None => None
    case Some((alt, end)) =>
      var name := s[b..f];
      assert forall k :: 0 <= k < |name| ==> name[k] == s[b + k];
      Some(Match(LocalAsset(s[i..end], name, alt), end))
  }

  /** RE_ASSET_IMG matched at index `i`. The file name is the whole run of
      characters other than white space and `%`; a caption, when there is
      white space after the name, is everything up to the first `%`, less
      its trailing white space, and that `%` must open the closing `%}`. */
  function MatchAssetAt(s: string, i: nat): (r: Option<Match>)
    requires i <= |s|
    ensures AssetShape(s, i, r)
  {
    match TagArgument(s, i, "asset_img")
    case None => None
    case Some(b) =>
      var f := RunEnd(s, b, AssetNameChar);
      if f == b then None else AssetMatch(s, i, b, f, AssetTail(s, f))
  }

  // ---------------------------------------------------------------------
  //  ![alt](url "title")
  // ---------------------------------------------------------------------

  /** After a URL ending at `e` (where the `[^\s)]` run stops): `)`, or
      `\s+"title"` and then `)`. */
  function MdTail(s: string, e: nat): (r: Option<(Option<string>, nat)>)
    requires e <= |s|
    ensures r.Some? ==> e < r.value.1 <= |s| && s[r.value.1 - 1] == ')'
    ensures r.Some? && r.value.0.Some? ==> '"' !in r.value.0.value
  {
    if e < |s| && s[e] == ')' then Some((None, e + 1))
    else
      var w := SkipSpaces(s, e);
      if w > e && w < |s| && s[w] == '"' then
        var q := RunEnd(s, w + 1, NotDoubleQuote);
        if LitAt(s, q, "\")") then Some((Some(s[w + 1..q]), q + 2)) else None
      else None
  }

  /** What a RE_MD_IMG match from `i` is: a span from `![` to `)`, an alt
      text without `]`, an http(s) URL without white space or `)`, and a
      title without `"`. */
  predicate MdShape(s: string, i: nat, r: Option<Match>) {
    r.Some? ==>
      i < r.value.end <= |s| && r.value.ref.MarkdownImage? && r.value.ref.span == s[i..r.value.end] &&
      LitAt(s, i, "![") && s[r.value.end - 1] == ')' &&
      ']' !in r.value.ref.altText && IsHttpUrl(r.value.ref.url) &&
      (forall k :: 0 <= k < |r.value.ref.url| ==> MdUrlChar(r.value.ref.url[k])) &&
      (r.value.ref.title.Some? ==> '"' !in r.value.ref.title.value)
  }

  /** The Markdown image matched from `i` with alt `s[i + 2..a]` and URL
      `s[a + 2..e]`, if the tail closes it. */
  function MdMatch(s: string, i: nat, a: nat, e: nat, tail: Option<(Option<string>, nat)>): Option<Match>
    requires i + 2 <= a && a + 2 <= e <= |s|
    requires tail.Some? ==> e <= tail.value.1 <= |s|
  {
    match tail
    case None => None
    case Some((title, end)) => Some(Match(MarkdownImage(s[i..end], s[i + 2..a], s[a + 2..e], title), end))
  }

  /** The pieces the grammar checks make the match one of RE_MD_IMG's shape. */
  lemma MdMatchShape(s: string, i: nat, a: nat, e: nat)
    requires i + 2 <= a && a + 2 < e <= |s| && LitAt(s, i, "![")
    requires forall k :: i + 2 <= k < a ==> NotBracket(s[k])
    requires IsHttpUrl(s[a + 2..e]) && forall k :: a + 2 <= k < e ==> MdUrlChar(s[k])
    ensures MdShape(s, i, MdMatch(s, i, a, e, MdTail(s, e)))
  {
    var tail := MdTail(s, e);
    if tail.Some? {
      var alt := s[i + 2..a];
      forall k | 0 <= k < |alt| ensures alt[k] != ']' {
        assert alt[k] == s[i + 2 + k] && NotBracket(s[i + 2 + k]);
      }
      var url := s[a + 2..e];
      assert forall k :: 0 <= k < |url| ==> url[k] == s[a + 2 + k];
    }
  }

  /** RE_MD_IMG from `i` once `![alt](` is read, the alt ending at `a`: an
      http(s) URL up to white space or `)`, then the tail. */
  function MdAfterHead(s: string, i: nat, a: nat): (r: Option<Match>)
    requires i + 2 <= a && a + 2 <= |s| && LitAt(s, i, "![")
    requires forall k :: i + 2 <= k < a ==> NotBracket(s[k])
    ensures MdShape(s, i, r)
  {
    UrlClassesAdmitScheme();
    match UrlRun(s, a + 2, MdUrlChar)
    case None => None
    case Some((_, e)) =>
      MdMatchShape(s, i, a, e);
      MdMatch(s, i, a, e, MdTail(s, e))
  }

  /** RE_MD_IMG matched at index `i`. The alt text holds no `]`, the URL has
      an http(s) scheme and runs to the first white space or `)`, and the
      optional title is a double-quoted string without `"`. */
  function MatchMdAt(s: string, i: nat): (r: Option<Match>)
    requires i <= |s|
    ensures MdShape(s, i, r)
  {
    if !LitAt(s, i, "![") then None
    else
      var a := RunEnd(s, i + 2, NotBracket);
      if !LitAt(s, a, "](") then None else MdAfterHead(s, i, a)
  }

  // ---------------------------------------------------------------------
  //  The global `exec` scan
  // ---------------------------------------------------------------------

  function MatchAt(syntax: Syntax, s: string, i: nat): (r: Option<Match>)
    requires i <= |s|
    ensures r.Some? ==> i < r.value.end <= |s| && OfSyntax(r.value.ref, syntax) && r.value.ref.span == s[i..r.value.end]
  {
    match syntax
    case HexoImg => MatchImgAt(s, i)
    case AssetImg => MatchAssetAt(s, i)
    case MdImg => MatchMdAt(s, i)
  }

  /** A grammar as the scan sees it: a match that starts at `i` ends after `i`, inside the text. */
  ghost predicate IsMatcher(matcher: (string, nat) -> Option<Match>) {
    forall s: string, i: nat :: matcher(s, i).Some? ==> i < matcher(s, i).value.end <= |s|
  }

  /** The regular expression of a syntax, as a matcher at every index. */
  function Grammar(syntax: Syntax): (matcher: (string, nat) -> Option<Match>)
    ensures IsMatcher(matcher)
    ensures forall s: string, i: nat :: matcher(s, i).Some? ==> OfSyntax(matcher(s, i).value.ref, syntax)
  {
    (s: string, i: nat) => if i <= |s| then MatchAt(syntax, s, i) else None
  }

  /** One `exec` from `lastIndex == from`: the leftmost index at or after
      `from` where the grammar matches, with its match. */
  function NextMatch(matcher: (string, nat) -> Option<Match>, s: string, from: nat): (r: Option<(nat, Match)>)
    requires IsMatcher(matcher) && from <= |s|
    ensures r.Some? ==> from <= r.value.0 <= |s| && matcher(s, r.value.0) == Some(r.value.1)
    ensures r.Some? ==> r.value.0 < r.value.1.end <= |s|
    ensures forall j :: from <= j <= |s| && (r.None? || j < r.value.0) ==> matcher(s, j).None?
    decreases |s| - from
  {
    match matcher(s, from)
    case Some(m) => Some((from, m))
    case None => if from == |s| then None else NextMatch(matcher, s, from + 1)
  }

  /** The references `while ((match = RE.exec(content)) !== null)` visits,
      in document order, from `lastIndex == from`. */
  function Matches(matcher: (string, nat) -> Option<Match>, s: string, from: nat): (refs: seq<Reference>)
    requires IsMatcher(matcher) && from <= |s|
    decreases |s| - from
  {
    match NextMatch(matcher, s, from)
    case None => []
    case Some((_, m)) => [m.ref] + Matches(matcher, s, m.end)
  }

  /** Every reference a scan with the grammar of `syntax` visits is of that syntax. */
  lemma {:induction false} MatchesOfSyntax(syntax: Syntax, s: string, from: nat)
    requires from <= |s|
    ensures forall r :: r in Matches(Grammar(syntax), s, from) ==> OfSyntax(r, syntax)
    decreases |s| - from
  {
    var g := Grammar(syntax);
    match NextMatch(g, s, from)
    case None =>
    case Some((_, m)) =>
      MatchesOfSyntax(syntax, s, m.end);
  }
}
