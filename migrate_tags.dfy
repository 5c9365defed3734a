/** The tags the migration writes, read back by the grammars that found
    the originals: each rendered form is matched whole, with the same
    captures. */
module MigrateTags {
  import opened Wrappers
  import opened JsString
  import opened MigrateHelpers
  import opened MigratePatterns

  /** The three pieces of a concatenation are its slices. */
  lemma ConcatSlices(x: string, y: string, z: string)
    ensures (x + y + z)[..|x|] == x && (x + y + z)[|x|..|x| + |y|] == y && (x + y + z)[|x| + |y|..] == z
  {
  }

  /** A rewritten Markdown image is its head `![alt](`, its URL and its tail. */
  lemma ImageTagPieces(alt: string, url: string, titlePart: string)
    ensures ImageTag(alt, url, titlePart) == ("![" + alt + "](") + url + (titlePart + ")")
  {
  }

  /** One trailing white-space character after a piece that does not end in
      white space is what `trimEnd` removes. */
  lemma TrimEndOneSpace(s: string, w: nat, m: nat)
    requires w < m <= |s| && IsSpace(s[m - 1])
    requires m - 1 == w || !IsSpace(s[m - 2])
    ensures TrimEnd(s[w..m]) == s[w..m - 1]
  {
    assert s[w..m][..m - 1 - w] == s[w..m - 1];
  }

  /** A URL the rewritten tags can carry: an http(s) scheme followed by at
      least one character, every character of the class. */
  predicate CarriedUrl(url: string, inClass: char -> bool) {
    (("http://" <= url && |url| > 7) || ("https://" <= url && |url| > 8)) &&
    forall k :: 0 <= k < |url| ==> inClass(url[k])
  }

  /** A carried URL standing at `b` and ending at `e` is recognised as the URL. */
  lemma UrlRunAt(s: string, b: nat, url: string, inClass: char -> bool)
    requires AdmitsScheme(inClass)
    requires CarriedUrl(url, inClass)
    requires b + |url| <= |s| && s[b..b + |url|] == url
    requires b + |url| == |s| || !inClass(s[b + |url|])
    ensures UrlRun(s, b, inClass).Some? && UrlRun(s, b, inClass).value.1 == b + |url|
  {
    var e := b + |url|;
    assert s[b..b + 7] == url[..7];
    assert s[b..b + 8] == url[..8];
    var n := if "https://" <= url then 8 else 7;
    if n == 8 {
      assert url[4] == 's' && !("http://" <= url);
      assert LitAt(s, b, "https://");
    } else {
      assert s[b + 4] == url[4] == ':';
      assert !LitAt(s, b, "https://") && LitAt(s, b, "http://");
    }
    assert SchemeEnd(s, b) == Some(b + n);
    assert b + n < e;
    forall k | b + n <= k < e ensures inClass(s[k]) {
      assert s[k] == url[k - b];
    }
    RunEndExact(s, b + n, e, inClass);
    assert RunEnd(s, b + n, inClass) == e;
  }

  /** The head `![alt](` of a Markdown image: the alt text runs to the `]`. */
  lemma MdHeadAt(s: string, alt: string)
    requires ']' !in alt && 4 + |alt| <= |s| && s[..4 + |alt|] == "![" + alt + "]("
    ensures LitAt(s, 0, "![") && RunEnd(s, 2, NotBracket) == 2 + |alt| && LitAt(s, 2 + |alt|, "](")
    ensures s[2..2 + |alt|] == alt
  {
    var a := 2 + |alt|;
    var head := "![" + alt + "](";
    assert forall k :: 0 <= k < a + 2 ==> s[k] == head[k];
    assert s[0..2] == "![";
    forall k | 2 <= k < a ensures NotBracket(s[k]) {
      assert s[k] == alt[k - 2];
    }
    RunEndExact(s, 2, a, NotBracket);
    assert s[a..a + 2] == "](";
  }

  /** How the RE_MD_IMG tail proceeds on ` "t")` once its pieces are known. */
  lemma MdTitleFromParts(s: string, e: nat, q: nat, t: string)
    requires e + 2 <= q && q + 2 == |s| && s[e] == ' ' && s[e + 1] == '"'
    requires SkipSpaces(s, e) == e + 1 && RunEnd(s, e + 2, NotDoubleQuote) == q && LitAt(s, q, "\")")
    requires s[e + 2..q] == t
    ensures MdTail(s, e) == Some((Some(t), |s|))
  {
  }

  /** The characters of a text that reads ` "t")` from `e` on, the closing `"` at `q`. */
  predicate MdTitleChars(s: string, e: nat, q: nat, t: string) {
    q == e + 2 + |t| && q + 2 == |s| && s[e] == ' ' && s[e + 1] == '"' &&
    s[q] == '"' && s[q + 1] == ')' &&
    forall k :: 0 <= k < |t| ==> s[e + 2 + k] == t[k]
  }

  lemma MdTitleCharsAt(s: string, e: nat, q: nat, t: string)
    requires q == e + 2 + |t|
    requires e <= |s| && s[e..] == " \"" + t + "\")"
    ensures MdTitleChars(s, e, q, t)
  {
    var r := " \"" + t + "\")";
    assert s[e] == r[0] && s[e + 1] == r[1];
    assert s[q] == r[q - e] && s[q + 1] == r[q + 1 - e];
    forall k | 0 <= k < |t| ensures s[e + 2 + k] == t[k] {
      assert s[e + 2 + k] == r[2 + k];
    }
  }

  /** The title runs to the `"` that opens the closing `")`. */
  lemma MdTitleRun(s: string, e: nat, q: nat, t: string)
    requires '"' !in t && MdTitleChars(s, e, q, t)
    ensures SkipSpaces(s, e) == e + 1
    ensures RunEnd(s, e + 2, NotDoubleQuote) == q && LitAt(s, q, "\")")
  {
    RunEndExact(s, e, e + 1, IsSpace);
    forall k | e + 2 <= k < q ensures NotDoubleQuote(s[k]) {
      assert s[k] == t[k - e - 2];
      assert t[k - e - 2] in t;
    }
    RunEndExact(s, e + 2, q, NotDoubleQuote);
    assert s[q..q + 2] == "\")";
  }

  /** The title is the text between the quotes. */
  lemma MdTitleSlice(s: string, e: nat, q: nat, t: string)
    requires MdTitleChars(s, e, q, t)
    ensures s[e + 2..q] == t
  {
    assert |s[e + 2..q]| == |t|;
    forall k | 0 <= k < |t| ensures s[e + 2..q][k] == t[k] {
      assert s[e + 2 + k] == t[k];
    }
  }

  /** The title RE_MD_IMG reads back: an empty title is written as none. */
  function ShownTitle(title: Option<string>): Option<string> {
    if title == Some("") then None else title
  }

  /** `s` reads, from `e` on, the title tail of a rewritten Markdown image and its `)`. */
  predicate TitleTail(s: string, e: nat, title: Option<string>) {
    e <= |s| && s[e..] == TitlePart(title) + ")" && (title.Some? ==> '"' !in title.value)
  }

  /** The RE_MD_IMG tail after `e` reads `title` and closes the image at the end of `s`. */
  predicate MdTailCloses(s: string, e: nat, title: Option<string>) {
    e <= |s| && MdTail(s, e) == Some((title, |s|))
  }

  /** The tail ` "title")` or `)` that closes a rewritten Markdown image;
      it starts with white space or `)`, where the URL run stops. */
  lemma MdTailAt(s: string, e: nat, title: Option<string>)
    requires TitleTail(s, e, title)
    ensures e < |s| && !MdUrlChar(s[e])
    ensures MdTailCloses(s, e, ShownTitle(title))
  {
    if TitlePart(title) == [] {
      assert s[e] == (s[e..])[0] == ')';
    } else {
      var t := title.value;
      var q := e + 2 + |t|;
      MdTitleCharsAt(s, e, q, t);
      MdTitleRun(s, e, q, t);
      MdTitleSlice(s, e, q, t);
      MdTitleFromParts(s, e, q, t);
    }
  }

  /** What RE_MD_IMG has found once it has read the head, the URL and the tail of `s`. */
  predicate MdParts(s: string, a: nat, e: nat, title: Option<string>) {
    2 <= a && a + 2 < e <= |s| &&
    LitAt(s, 0, "![") && RunEnd(s, 2, NotBracket) == a && LitAt(s, a, "](") &&
    (UrlClassesAdmitScheme();
     UrlRun(s, a + 2, MdUrlChar).Some? && UrlRun(s, a + 2, MdUrlChar).value.1 == e) &&
    MdTailCloses(s, e, title)
  }

  /** How RE_MD_IMG proceeds once its head, URL and tail are known. */
  lemma MdMatchFromParts(s: string, a: nat, e: nat, title: Option<string>)
    requires MdParts(s, a, e, title)
    ensures MatchMdAt(s, 0) == Some(Match(MarkdownImage(s, s[2..a], s[a + 2..e], title), |s|))
  {
    assert MatchMdAt(s, 0) == MdAfterHead(s, 0, a);
    assert MdAfterHead(s, 0, a) == MdMatch(s, 0, a, e, MdTail(s, e));
    assert s[0..|s|] == s;
  }

  /** `s` starts with `![alt](url`, and `e` is where the URL ends. */
  predicate MdHead(s: string, alt: string, url: string, e: nat) {
    e == 4 + |alt| + |url| && e <= |s| && s[..4 + |alt|] == "![" + alt + "](" && s[4 + |alt|..e] == url
  }

  /** `s` reads `![alt](url`, the URL stops at `e`, and a tail closes the image. */
  predicate MdText(s: string, alt: string, url: string, e: nat, title: Option<string>) {
    MdHead(s, alt, url, e) && e < |s| && !MdUrlChar(s[e]) && MdTailCloses(s, e, title)
  }

  /** RE_MD_IMG reads such a text as its pieces. */
  lemma MdTextParts(s: string, alt: string, url: string, a: nat, e: nat, title: Option<string>)
    requires a == 2 + |alt|
    requires ']' !in alt && CarriedUrl(url, MdUrlChar) && MdText(s, alt, url, e, title)
    ensures MdParts(s, a, e, title)
    ensures s[2..a] == alt && s[a + 2..e] == url
  {
    MdHeadAt(s, alt);
    UrlClassesAdmitScheme();
    UrlRunAt(s, a + 2, url, MdUrlChar);
  }

  /** Such a text is matched whole. */
  lemma MdTagAt(s: string, alt: string, url: string, e: nat, title: Option<string>)
    requires ']' !in alt && CarriedUrl(url, MdUrlChar) && MdText(s, alt, url, e, title)
    ensures MatchMdAt(s, 0) == Some(Match(MarkdownImage(s, alt, url, title), |s|))
  {
    var a := 2 + |alt|;
    MdTextParts(s, alt, url, a, e, title);
    MdMatchFromParts(s, a, e, title);
  }

  /** A text that starts with `![alt](url` and goes on with a title tail. */
  lemma MdTextFromSlices(s: string, alt: string, url: string, e: nat, title: Option<string>)
    requires MdHead(s, alt, url, e) && TitleTail(s, e, title)
    ensures MdText(s, alt, url, e, ShownTitle(title))
  {
    MdTailAt(s, e, title);
  }

  /** The slices of a rewritten Markdown image. */
  lemma ImageTagSlices(alt: string, url: string, titlePart: string, e: nat)
    requires e == 4 + |alt| + |url|
    ensures MdHead(ImageTag(alt, url, titlePart), alt, url, e)
    ensures ImageTag(alt, url, titlePart)[e..] == titlePart + ")"
  {
    ImageTagPieces(alt, url, titlePart);
    ConcatSlices("![" + alt + "](", url, titlePart + ")");
  }

  /** The Markdown image the migration writes is such a text. */
  lemma MdTextOfTag(alt: string, url: string, e: nat, title: Option<string>)
    requires e == 4 + |alt| + |url|
    requires title.Some? ==> '"' !in title.value
    ensures MdText(ImageTag(alt, url, TitlePart(title)), alt, url, e, ShownTitle(title))
  {
    var s := ImageTag(alt, url, TitlePart(title));
    ImageTagSlices(alt, url, TitlePart(title), e);
    assert TitleTail(s, e, title);
    MdTextFromSlices(s, alt, url, e, title);
  }

  /** `![alt](url "title")` as the migration writes it is matched whole by
      RE_MD_IMG with the same alt, URL and title; an empty title is written
      as none. */
  lemma MdTagRoundTrip(alt: string, url: string, title: Option<string>)
    requires ']' !in alt && CarriedUrl(url, MdUrlChar)
    requires title.Some? ==> '"' !in title.value
    ensures var tag := ImageTag(alt, url, TitlePart(title));
            MatchMdAt(tag, 0) ==
              Some(Match(MarkdownImage(tag, alt, url, ShownTitle(title)), |tag|))
  {
    var e := 4 + |alt| + |url|;
    MdTextOfTag(alt, url, e, title);
    MdTagAt(ImageTag(alt, url, TitlePart(title)), alt, url, e, ShownTitle(title));
  }

  // ---------------------------------------------------------------------
  //  The two Hexo tags in their usual spelling
  // ---------------------------------------------------------------------

  /** `{% <keyword> ` opens a tag whose argument starts right after the single space. */
  lemma TagArgumentAt(s: string, keyword: string, b: nat)
    requires keyword != [] && !IsSpace(keyword[0]) && b == |keyword| + 4
    requires b < |s| && s[..b] == "{% " + keyword + " "
    requires !IsSpace(s[b])
    ensures TagArgument(s, 0, keyword) == Some(b)
  {
    var head := "{% " + keyword + " ";
    assert forall k :: 0 <= k < b ==> s[k] == head[k];
    assert s[0..2] == "{%";
    assert s[2] == ' ' && s[3] == keyword[0];
    RunEndExact(s, 2, 3, IsSpace);
    assert s[3..b - 1] == keyword;
    assert s[b - 1] == ' ';
    RunEndExact(s, b - 1, b, IsSpace);
  }

  /** `{% img <url> 'caption' %}`, or `{% img <url> %}` without a caption. */
  function HexoImgTag(url: string, caption: Option<string>): string {
    "{% img " + url + ImgTagRest(caption)
  }

  /** How the caption branch of the `img` tail proceeds once its pieces are known. */
  lemma ImgCaptionFromParts(s: string, e: nat, q: nat)
    requires e + 2 <= q && q + 4 <= |s|
    requires SkipSpaces(s, e) == e + 1 && s[e + 1] == '\''
    requires RunEnd(s, e + 2, NotApostrophe) == q
    requires SkipSpaces(s, q + 1) == q + 2 && LitAt(s, q + 2, "%}")
    ensures ImgTail(s, e) == Some((Some(s[e + 2..q]), q + 4))
  {
  }

  /** The characters of a text that reads ` 'c' %}` from `e` on, the closing
      quote at `q`. */
  predicate ImgCaptionChars(s: string, e: nat, q: nat, c: string) {
    q == e + 2 + |c| && q + 4 == |s| && s[e] == ' ' && s[e + 1] == '\'' &&
    s[q] == '\'' && s[q + 1] == ' ' && s[q + 2] == '%' && s[q + 3] == '}' &&
    forall k :: 0 <= k < |c| ==> s[e + 2 + k] == c[k]
  }

  lemma ImgCaptionCharsAt(s: string, e: nat, q: nat, c: string)
    requires e <= |s| && s[e..] == " '" + c + "' %}" && q + 4 == |s|
    ensures ImgCaptionChars(s, e, q, c)
  {
    var t := " '" + c + "' %}";
    assert s[e] == t[0] && s[e + 1] == t[1];
    assert s[q] == t[|t| - 4] && s[q + 1] == t[|t| - 3];
    assert s[q + 2] == t[|t| - 2] && s[q + 3] == t[|t| - 1];
    forall k | 0 <= k < |c| ensures s[e + 2 + k] == c[k] {
      assert s[e + 2 + k] == t[2 + k];
    }
  }

  /** The caption runs to the `'` before the closing ` %}`. */
  lemma ImgCaptionRun(s: string, e: nat, q: nat, c: string)
    requires '\'' !in c && ImgCaptionChars(s, e, q, c)
    ensures SkipSpaces(s, e) == e + 1
    ensures RunEnd(s, e + 2, NotApostrophe) == q
    ensures SkipSpaces(s, q + 1) == q + 2 && LitAt(s, q + 2, "%}")
  {
    RunEndExact(s, e, e + 1, IsSpace);
    ImgCaptionBody(s, e, q, c);
    ImgCaptionClose(s, q);
  }

  lemma ImgCaptionBody(s: string, e: nat, q: nat, c: string)
    requires '\'' !in c && ImgCaptionChars(s, e, q, c)
    ensures RunEnd(s, e + 2, NotApostrophe) == q
  {
    forall k | e + 2 <= k < q ensures NotApostrophe(s[k]) {
      assert s[k] == c[k - e - 2];
      assert c[k - e - 2] in c;
    }
    RunEndExact(s, e + 2, q, NotApostrophe);
  }

  lemma ImgCaptionClose(s: string, q: nat)
    requires q + 4 == |s| && s[q + 1] == ' ' && s[q + 2] == '%' && s[q + 3] == '}'
    ensures SkipSpaces(s, q + 1) == q + 2 && LitAt(s, q + 2, "%}")
  {
    RunEndExact(s, q + 1, q + 2, IsSpace);
    assert s[q + 2..q + 4] == "%}";
  }

  /** The caption is the text between the quotes. */
  lemma ImgCaptionSlice(s: string, e: nat, q: nat, c: string)
    requires ImgCaptionChars(s, e, q, c)
    ensures s[e + 2..q] == c
  {
    assert |s[e + 2..q]| == |c|;
    forall k | 0 <= k < |c| ensures s[e + 2..q][k] == c[k] {
      assert s[e + 2 + k] == c[k];
    }
  }

  /** The tail ` 'caption' %}` closes an `img` tag with that caption. */
  lemma ImgCaptionTailAt(s: string, e: nat, c: string)
    requires '\'' !in c
    requires e <= |s| && s[e..] == " '" + c + "' %}"
    ensures ImgTail(s, e) == Some((Some(c), |s|))
  {
    var q := |s| - 4;
    ImgCaptionCharsAt(s, e, q, c);
    ImgCaptionRun(s, e, q, c);
    ImgCaptionSlice(s, e, q, c);
    ImgCaptionFromParts(s, e, q);
  }

  /** The text after the URL of an `img` tag in its usual spelling. */
  function ImgTagRest(caption: Option<string>): string {
    (if caption.Some? then " '" + caption.value + "'" else "") + " %}"
  }

  /** What RE_HEXO_IMG meets after the URL of such a tag. */
  lemma ImgTailAt(s: string, e: nat, caption: Option<string>)
    requires caption.Some? ==> '\'' !in caption.value
    requires e <= |s| && s[e..] == ImgTagRest(caption)
    ensures ImgTail(s, e) == Some((caption, |s|))
  {
    if caption.Some? {
      assert s[e..] == " '" + caption.value + "' %}";
      ImgCaptionTailAt(s, e, caption.value);
    } else {
      assert s[e..] == " %}";
      assert s[e] == ' ' && s[e + 1] == '%';
      RunEndExact(s, e, e + 1, IsSpace);
      assert s[e + 1..e + 3] == "%}";
    }
  }

  /** What RE_HEXO_IMG has found once it has read the keyword, the URL and the tail of `s`. */
  predicate ImgParts(s: string, e: nat, caption: Option<string>) {
    7 < e <= |s| && TagArgument(s, 0, "img") == Some(7) &&
    (UrlClassesAdmitScheme();
     UrlRun(s, 7, HexoUrlChar).Some? && UrlRun(s, 7, HexoUrlChar).value.1 == e) &&
    ImgTail(s, e) == Some((caption, |s|))
  }

  /** How RE_HEXO_IMG proceeds after `{% img ` once the URL and tail are known. */
  lemma ImgArgumentFromParts(s: string, e: nat, caption: Option<string>)
    requires ImgParts(s, e, caption)
    ensures ImgAfterArgument(s, 0, 7) == Some(Match(ExternalTag(s, s[7..e], caption), |s|))
  {
    assert s[0..|s|] == s;
  }

  /** How RE_HEXO_IMG proceeds once the tag's argument, URL and tail are known. */
  lemma ImgMatchFromParts(s: string, e: nat, caption: Option<string>)
    requires ImgParts(s, e, caption)
    ensures MatchImgAt(s, 0) == Some(Match(ExternalTag(s, s[7..e], caption), |s|))
  {
    ImgArgumentFromParts(s, e, caption);
    assert MatchImgAt(s, 0) == ImgAfterArgument(s, 0, 7);
  }

  /** `s` reads `{% img <url>`, the URL stops there, and a tail closes the tag. */
  predicate ImgText(s: string, url: string, caption: Option<string>) {
    7 + |url| < |s| && s[..7] == "{% img " && s[7..7 + |url|] == url &&
    !HexoUrlChar(s[7 + |url|]) && ImgTail(s, 7 + |url|) == Some((caption, |s|))
  }

  /** Such a text is matched whole. */
  lemma ImgTagAt(s: string, url: string, caption: Option<string>)
    requires CarriedUrl(url, HexoUrlChar) && ImgText(s, url, caption)
    ensures MatchImgAt(s, 0) == Some(Match(ExternalTag(s, url, caption), |s|))
  {
    var e: nat := 7 + |url|;
    assert s[7] == url[0];
    assert s[..7] == "{% " + "img" + " ";
    TagArgumentAt(s, "img", 7);
    UrlClassesAdmitScheme();
    UrlRunAt(s, 7, url, HexoUrlChar);
    ImgMatchFromParts(s, e, caption);
  }

  /** The `img` tag in its usual spelling is such a text. */
  lemma ImgTextOfTag(url: string, caption: Option<string>)
    requires caption.Some? ==> '\'' !in caption.value
    ensures ImgText(HexoImgTag(url, caption), url, caption)
  {
    var head, rest := "{% img ", ImgTagRest(caption);
    var s := HexoImgTag(url, caption);
    assert s == head + url + rest;
    ConcatSlices(head, url, rest);
    var e := |head| + |url|;
    ImgTailAt(s, e, caption);
    assert s[e] == rest[0] == ' ';
  }

  /** RE_HEXO_IMG reads back the URL and caption of a tag in its usual spelling. */
  lemma HexoImgTagRoundTrip(url: string, caption: Option<string>)
    requires CarriedUrl(url, HexoUrlChar)
    requires caption.Some? ==> '\'' !in caption.value
    ensures var tag := HexoImgTag(url, caption);
            MatchImgAt(tag, 0) == Some(Match(ExternalTag(tag, url, caption), |tag|))
  {
    ImgTextOfTag(url, caption);
    ImgTagAt(HexoImgTag(url, caption), url, caption);
  }

  /** `{% asset_img <name> caption %}`, or `{% asset_img <name> %}` for an empty caption. */
  function AssetImgTag(name: string, caption: string): string {
    "{% asset_img " + name + AssetTagRest(caption)
  }

  /** A caption as it stands in a tag: no `%`, and no white space at either end. */
  predicate CleanCaption(caption: string) {
    '%' !in caption && (caption == [] || (!IsSpace(caption[0]) && !IsSpace(caption[|caption| - 1])))
  }

  /** How the `asset_img` tail proceeds when white space follows the name
      and the first `%` after it, at `m`, opens `%}` at the end of the text. */
  lemma AssetTailFromParts(s: string, f: nat, m: nat, caption: string)
    requires f < m && m + 2 == |s|
    requires SkipSpaces(s, f) == f + 1
    requires RunEnd(s, f + 1, NotPercent) == m && LitAt(s, m, "%}")
    requires TrimEnd(s[f + 1..m]) == caption
    ensures AssetTail(s, f) == Some((Some(caption), |s|))
  {
  }

  /** The text after the file name of an `asset_img` tag in its usual spelling. */
  function AssetTagRest(caption: string): string {
    (if caption == [] then "" else " " + caption) + " %}"
  }

  /** The characters of a text that reads `AssetTagRest(caption)` from `f`
      on, with the closing `%}` at `m`. */
  predicate AssetRestChars(s: string, f: nat, m: nat, caption: string) {
    m + 2 == |s| && f < m && s[f] == ' ' && s[m] == '%' && s[m + 1] == '}' &&
    (caption == [] ==> m == f + 1) &&
    (caption != [] ==> m == f + |caption| + 2 && s[m - 1] == ' ' &&
                       forall k :: 0 <= k < |caption| ==> s[f + 1 + k] == caption[k])
  }

  lemma AssetRestCharsAt(s: string, f: nat, m: nat, caption: string)
    requires m + 2 == |s|
    requires f <= |s| && s[f..] == AssetTagRest(caption)
    ensures AssetRestChars(s, f, m, caption)
  {
    var t := AssetTagRest(caption);
    assert s[f] == t[0];
    assert s[m] == t[m - f] && s[m + 1] == t[m + 1 - f];
    if caption != [] {
      assert s[m - 1] == t[m - 1 - f];
      forall k | 0 <= k < |caption| ensures s[f + 1 + k] == caption[k] {
        assert s[f + 1 + k] == t[1 + k];
      }
    }
  }

  /** The white space after the name is the single space. */
  lemma AssetRestSkip(s: string, f: nat, m: nat, caption: string)
    requires CleanCaption(caption) && AssetRestChars(s, f, m, caption)
    ensures SkipSpaces(s, f) == f + 1
  {
    if caption == [] {
      assert s[f + 1] == '%';
    } else {
      assert s[f + 1] == caption[0];
    }
    RunEndExact(s, f, f + 1, IsSpace);
  }

  /** The run up to the first `%` ends where `%}` closes the text. */
  lemma AssetRestRun(s: string, f: nat, m: nat, caption: string)
    requires CleanCaption(caption) && AssetRestChars(s, f, m, caption)
    ensures RunEnd(s, f + 1, NotPercent) == m && LitAt(s, m, "%}")
  {
    forall k | f + 1 <= k < m ensures NotPercent(s[k]) {
      if k < m - 1 {
        assert s[k] == caption[k - f - 1];
        assert caption[k - f - 1] in caption;
      }
    }
    RunEndExact(s, f + 1, m, NotPercent);
    assert s[m..m + 2] == "%}";
  }

  /** The lazy caption less its trailing white space is the caption. */
  lemma AssetRestTrim(s: string, f: nat, m: nat, caption: string)
    requires CleanCaption(caption) && AssetRestChars(s, f, m, caption)
    ensures TrimEnd(s[f + 1..m]) == caption
  {
    var w := f + 1;
    if caption == [] {
      assert s[w..m] == [];
    } else {
      assert s[m - 2] == caption[|caption| - 1];
      TrimEndOneSpace(s, w, m);
      assert |s[w..m - 1]| == |caption|;
      forall k | 0 <= k < |caption| ensures s[w..m - 1][k] == caption[k] {
        assert s[w + k] == caption[k];
      }
    }
  }

  /** What RE_ASSET_IMG meets after the file name of such a tag. The
      optional caption group always takes part: with no caption text it
      captures the empty string. */
  lemma AssetTailAt(s: string, f: nat, caption: string)
    requires CleanCaption(caption)
    requires f <= |s| && s[f..] == AssetTagRest(caption)
    ensures AssetTail(s, f) == Some((Some(caption), |s|))
  {
    var m := |s| - 2;
    AssetRestCharsAt(s, f, m, caption);
    AssetRestSkip(s, f, m, caption);
    AssetRestRun(s, f, m, caption);
    AssetRestTrim(s, f, m, caption);
    AssetTailFromParts(s, f, m, caption);
  }

  /** What RE_ASSET_IMG has found once it has read the keyword, the file
      name ending at `f` and the tail of `s`. */
  predicate AssetParts(s: string, f: nat, caption: Option<string>) {
    13 < f <= |s| && TagArgument(s, 0, "asset_img") == Some(13) &&
    RunEnd(s, 13, AssetNameChar) == f && AssetTail(s, f) == Some((caption, |s|))
  }

  /** How RE_ASSET_IMG proceeds once the tag's argument, name and tail are known. */
  lemma AssetMatchFromParts(s: string, f: nat, caption: Option<string>)
    requires AssetParts(s, f, caption)
    ensures MatchAssetAt(s, 0) == Some(Match(LocalAsset(s, s[13..f], caption), |s|))
  {
    assert s[0..|s|] == s;
  }

  /** `s` starts with `{% asset_img <name>`, the name ending at `f`, and the
      tail after it closes the tag. */
  predicate AssetText(s: string, name: string, f: nat, caption: Option<string>) {
    f == 13 + |name| && f < |s| && s[..13] == "{% asset_img " && s[13..f] == name &&
    !AssetNameChar(s[f]) && AssetTail(s, f) == Some((caption, |s|))
  }

  /** A file name of that text is the run RE_ASSET_IMG reads as the name. */
  lemma AssetTextParts(s: string, name: string, f: nat, caption: Option<string>)
    requires name != [] && forall k :: 0 <= k < |name| ==> AssetNameChar(name[k])
    requires AssetText(s, name, f, caption)
    ensures AssetParts(s, f, caption)
  {
    assert s[13] == name[0];
    assert s[..13] == "{% " + "asset_img" + " ";
    TagArgumentAt(s, "asset_img", 13);
    NameRunAt(s, name, 13, f, AssetNameChar);
  }

  /** A name standing at `b`, made of class members and followed by a
      non-member at `f`, is the greedy run from `b`. */
  lemma NameRunAt(s: string, name: string, b: nat, f: nat, inClass: char -> bool)
    requires forall k :: 0 <= k < |name| ==> inClass(name[k])
    requires f == b + |name| && f < |s| && s[b..f] == name && !inClass(s[f])
    ensures RunEnd(s, b, inClass) == f
  {
    forall k | b <= k < f ensures inClass(s[k]) {
      assert s[k] == name[k - b];
    }
    RunEndExact(s, b, f, inClass);
  }

  /** Such a text is matched whole. */
  lemma AssetTagAt(s: string, name: string, f: nat, caption: Option<string>)
    requires name != [] && forall k :: 0 <= k < |name| ==> AssetNameChar(name[k])
    requires AssetText(s, name, f, caption)
    ensures MatchAssetAt(s, 0) == Some(Match(LocalAsset(s, name, caption), |s|))
  {
    AssetTextParts(s, name, f, caption);
    AssetMatchFromParts(s, f, caption);
  }

  /** The `asset_img` tag in its usual spelling is such a text. */
  lemma AssetTextOfTag(name: string, f: nat, caption: string)
    requires f == 13 + |name|
    requires CleanCaption(caption)
    ensures AssetText(AssetImgTag(name, caption), name, f, Some(caption))
  {
    var head, rest := "{% asset_img ", AssetTagRest(caption);
    var s := AssetImgTag(name, caption);
    assert s == head + name + rest;
    ConcatSlices(head, name, rest);
    AssetTailAt(s, f, caption);
    assert s[f] == rest[0] == ' ';
  }

  /** RE_ASSET_IMG reads back the file name and caption of a tag in its usual spelling. */
  lemma AssetImgTagRoundTrip(name: string, caption: string)
    requires name != [] && forall k :: 0 <= k < |name| ==> AssetNameChar(name[k])
    requires CleanCaption(caption)
    ensures var tag := AssetImgTag(name, caption);
            MatchAssetAt(tag, 0) == Some(Match(LocalAsset(tag, name, Some(caption)), |tag|))
  {
    var f := 13 + |name|;
    AssetTextOfTag(name, f, caption);
    AssetTagAt(AssetImgTag(name, caption), name, f, Some(caption));
  }
}
