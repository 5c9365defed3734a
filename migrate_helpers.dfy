/** The pure helpers of the image-migration script: extension and MIME type
    of a file name, the storage key and public URL of an uploaded image, the
    file name taken from an image URL, the alt-text policies of the three
    reference syntaxes, and the environment-variable names that the
    configuration check reports. */
module MigrateHelpers {
  import opened Wrappers
  import opened JsString
  import opened NodePath

  // ---------------------------------------------------------------------
  //  getExt / getMime
  // ---------------------------------------------------------------------

  /** The part of a name or URL that getExt reads: everything before the
      first `?`, and of that everything before the first `#`. */
  function ExtSource(nameOrUrl: string): (cut: string)
    ensures cut <= nameOrUrl && '?' !in cut && '#' !in cut
  {
    BeforeFirst(BeforeFirst(nameOrUrl, '?'), '#')
  }

  /** getExt: the lower-cased `path.extname` of the name cut at the first
      `?` and then at the first `#`; `.png` when that has no extension. It
      always starts with its only `.`, and holds no upper-case letter and
      none of `/`, `?`, `#`. */
  function GetExt(nameOrUrl: string): (r: string)
    ensures Extname(ExtSource(nameOrUrl)) == [] ==> r == ".png"
    ensures Extname(ExtSource(nameOrUrl)) != [] ==> r == ToLower(Extname(ExtSource(nameOrUrl)))
    ensures |r| >= 1 && r[0] == '.' && '.' !in r[1..]
    ensures '/' !in r && '?' !in r && '#' !in r
    ensures forall k :: 0 <= k < |r| ==> !IsUpperAscii(r[k])
  {
    var cut := ExtSource(nameOrUrl);
    var ext := ToLower(Extname(cut));
    LowerExtShape(cut);
    if ext == [] then PngShape(); ".png" else ext
  }

  lemma PngShape()
    ensures var r := ".png";
      |r| >= 1 && r[0] == '.' && '.' !in r[1..] &&
      '/' !in r && '?' !in r && '#' !in r && forall k :: 0 <= k < |r| ==> !IsUpperAscii(r[k])
  {
  }

  lemma LowerCharFacts(c: char)
    ensures !IsUpperAscii(LowerChar(c))
    ensures !IsUpperAscii(c) ==> LowerChar(c) == c
  {
  }

  /** The lower-cased extension of a name that holds no `?` and no `#`. */
  lemma LowerExtShape(cut: string)
    requires '?' !in cut && '#' !in cut
    ensures var ext := ToLower(Extname(cut));
      (ext == [] || (ext[0] == '.' && '.' !in ext[1..])) &&
      '/' !in ext && '?' !in ext && '#' !in ext &&
      forall k :: 0 <= k < |ext| ==> !IsUpperAscii(ext[k])
  {
    var b := Basename(cut);
    var e := Extname(cut);
    var ext := ToLower(e);
    NameAvoids(cut, '?');
    NameAvoids(cut, '#');
    assert '/' !in e by {
      assert e == b[|b| - |e|..];
    }
    forall k | 0 <= k < |e|
      ensures (ext[k] == '.' <==> e[k] == '.') && ext[k] != '/' && ext[k] != '?' && ext[k] != '#'
      ensures !IsUpperAscii(ext[k])
    {
      LowerCharFacts(e[k]);
      assert e[k] in e;
    }
    if ext != [] {
      assert '.' !in ext[1..] by {
        forall k | 1 <= k < |ext| ensures ext[k] != '.' {
          assert e[k] in e[1..];
        }
      }
    }
  }

  /** The own entries of the extension table in getMime. */
  function MimeOf(key: string): Option<string> {
    if key == "png" then Some("image/png")
    else if key == "jpg" || key == "jpeg" then Some("image/jpeg")
    else if key == "gif" then Some("image/gif")
    else if key == "webp" then Some("image/webp")
    else if key == "svg" then Some("image/svg+xml")
    else if key == "bmp" then Some("image/bmp")
    else if key == "ico" then Some("image/x-icon")
    else None
  }

  const OctetStream := "application/octet-stream"

  /** Every content type getMime can produce. */
  const MimeTypes: set<string> := {
    "image/png", "image/jpeg", "image/gif", "image/webp", "image/svg+xml",
    "image/bmp", "image/x-icon", OctetStream
  }

  /** The content type for an extension, as getMime's table gives it: the
      extension loses its first `.` and is looked up, with the generic binary
      type for every key the table does not hold. */
  function MimeForExt(ext: string): (r: string)
    ensures r in MimeTypes
    ensures r == OctetStream <==> MimeOf(DropFirst(ext, '.')).None?
  {
    match MimeOf(DropFirst(ext, '.'))
    case Some(m) => m
    case None => OctetStream
  }

  /** getMime, as intended: the content type of the file's extension. */
  function GetMime(filename: string): (r: string)
    ensures r in MimeTypes
  {
    MimeForExt(GetExt(filename))
  }

  /** The extension table written out both ways: each image type is produced
      for exactly its keys (the extension without its first `.`), and the
      generic binary type for every other key. */
  lemma MimeForExtTable(ext: string)
    ensures var key := DropFirst(ext, '.');
      (MimeForExt(ext) == "image/png" <==> key == "png") &&
      (MimeForExt(ext) == "image/jpeg" <==> key == "jpg" || key == "jpeg") &&
      (MimeForExt(ext) == "image/gif" <==> key == "gif") &&
      (MimeForExt(ext) == "image/webp" <==> key == "webp") &&
      (MimeForExt(ext) == "image/svg+xml" <==> key == "svg") &&
      (MimeForExt(ext) == "image/bmp" <==> key == "bmp") &&
      (MimeForExt(ext) == "image/x-icon" <==> key == "ico") &&
      (MimeForExt(ext) == OctetStream <==> key !in {"png", "jpg", "jpeg", "gif", "webp", "svg", "bmp", "ico"})
  {
    MimeOfTable(DropFirst(ext, '.'));
  }

  lemma MimeOfTable(key: string)
    ensures MimeOf(key) == Some("image/png") <==> key == "png"
    ensures MimeOf(key) == Some("image/jpeg") <==> key == "jpg" || key == "jpeg"
    ensures MimeOf(key) == Some("image/gif") <==> key == "gif"
    ensures MimeOf(key) == Some("image/webp") <==> key == "webp"
    ensures MimeOf(key) == Some("image/svg+xml") <==> key == "svg"
    ensures MimeOf(key) == Some("image/bmp") <==> key == "bmp"
    ensures MimeOf(key) == Some("image/x-icon") <==> key == "ico"
    ensures MimeOf(key).None? <==> key !in {"png", "jpg", "jpeg", "gif", "webp", "svg", "bmp", "ico"}
    ensures MimeOf(key) != Some(OctetStream)
  {
  }

  /** getMime of a file by its extension; a name without one counts as `.png`. */
  lemma MimeByExtension(filename: string)
    ensures var key := GetExt(filename)[1..];
      (GetMime(filename) == "image/png" <==> key == "png") &&
      (GetMime(filename) == "image/jpeg" <==> key == "jpg" || key == "jpeg") &&
      (GetMime(filename) == OctetStream <==> key !in {"png", "jpg", "jpeg", "gif", "webp", "svg", "bmp", "ico"})
    ensures Extname(ExtSource(filename)) == [] ==> GetMime(filename) == "image/png"
    ensures '.' !in filename ==> GetMime(filename) == "image/png"
  {
    var ext := GetExt(filename);
    assert DropFirst(ext, '.') == ext[1..];
    MimeForExtTable(ext);
    if '.' !in filename {
      GetExtWithoutDot(filename);
    }
    if Extname(ExtSource(filename)) == [] {
      assert ext == ".png" && ext[1..] == "png";
    }
  }

  /** A name with no `.` at all gets the default extension `.png`. */
  lemma GetExtWithoutDot(nameOrUrl: string)
    requires '.' !in nameOrUrl
    ensures GetExt(nameOrUrl) == ".png"
  {
    var cut := ExtSource(nameOrUrl);
    assert '.' !in cut by {
      assert cut == nameOrUrl[..|cut|];
    }
    NameAvoids(cut, '.');
  }

  /** A query string or a fragment does not change the extension: getExt
      reads only what comes before the first `?` or `#`. */
  lemma GetExtIgnoresSuffix(name: string, rest: string)
    requires '?' !in name && '#' !in name
    ensures GetExt(name + "?" + rest) == GetExt(name)
    ensures GetExt(name + "#" + rest) == GetExt(name)
  {
    BeforeFirstAbsent(name, '?');
    BeforeFirstAbsent(name, '#');
    QueryCut(name, rest);
    FragmentCut(name, rest);
  }

  lemma QueryCut(name: string, rest: string)
    requires '?' !in name && '#' !in name
    ensures ExtSource(name + "?" + rest) == name
  {
    BeforeFirstStops(name, '?', rest);
    assert name + "?" + rest == name + ([ '?' ] + rest);
    BeforeFirstAbsent(name, '#');
  }

  lemma FragmentCut(name: string, rest: string)
    requires '?' !in name && '#' !in name
    ensures ExtSource(name + "#" + rest) == name
  {
    var q := BeforeFirst(rest, '?');
    assert name + "#" + rest == (name + "#") + rest;
    BeforeFirstAfter(name + "#", '?', rest);
    assert (name + "#") + q == name + (['#'] + q);
    BeforeFirstStops(name, '#', q);
  }

  /** Cutting at the first `c` of `a + b`, when `a` holds no `c`, keeps `a`. */
  lemma {:induction false} BeforeFirstAfter(a: string, c: char, b: string)
    requires c !in a
    ensures BeforeFirst(a + b, c) == a + BeforeFirst(b, c)
    decreases |a|
  {
    if a != [] {
      assert (a + b)[0] == a[0] && (a + b)[1..] == a[1..] + b;
      BeforeFirstAfter(a[1..], c, b);
      assert [a[0]] + (a[1..] + BeforeFirst(b, c)) == a + BeforeFirst(b, c);
    } else {
      assert a + b == b;
    }
  }

  /** `a + c + b` cut at its first `c`, when `a` holds no `c`, is `a`. */
  lemma BeforeFirstStops(a: string, c: char, b: string)
    requires c !in a
    ensures BeforeFirst(a + ([c] + b), c) == a
  {
    BeforeFirstAfter(a, c, [c] + b);
    assert a + [] == a;
  }

  /** A value of the JavaScript lookup `map[key]`, which also sees the two
      lower-case members every object literal inherits from Object.prototype. */
  datatype JsValue = Str(s: string) | ObjectConstructor | ObjectPrototype

  /** The table lookup as written, `map[key] || 'application/octet-stream'`
      on an object literal: the keys `constructor` and `__proto__` find the
      inherited members instead of falling back to the generic type. */
  function LookupAsWritten(ext: string): (r: JsValue)
    ensures r.Str? <==> DropFirst(ext, '.') != "constructor" && DropFirst(ext, '.') != "__proto__"
    ensures r.Str? ==> r == Str(MimeForExt(ext))
  {
    var key := DropFirst(ext, '.');
    MimeKeysShort(key);
    match MimeOf(key)
    case Some(m) => Str(m)
    case None =>
      if key == "constructor" then ObjectConstructor
      else if key == "__proto__" then ObjectPrototype
      else Str(OctetStream)
  }

  /** The keys of the extension table are at most four characters long. */
  lemma MimeKeysShort(key: string)
    ensures MimeOf(key).Some? ==> |key| <= 4
  {
  }

  /** getMime as written. */
  function GetMimeAsWritten(filename: string): JsValue {
    LookupAsWritten(GetExt(filename))
  }

  /** An image file whose extension is `.constructor` gets a function, not a
      content type, from getMime as written; the corrected lookup gives the
      generic binary type. */
  lemma GetMimeAsWrittenReturnsFunction(stem: string)
    requires stem != [] && '/' !in stem && '?' !in stem && '#' !in stem
    ensures GetMimeAsWritten(stem + ".constructor") == ObjectConstructor
    ensures GetMime(stem + ".constructor") == OctetStream
  {
    ConstructorExt(stem);
    ConstructorLookup();
  }

  lemma ConstructorExt(stem: string)
    requires stem != [] && '/' !in stem && '?' !in stem && '#' !in stem
    ensures GetExt(stem + ".constructor") == ".constructor"
  {
    var ext := ".constructor";
    assert '.' !in ext[1..];
    assert forall k :: 0 <= k < |ext| ==> !IsUpperAscii(ext[k]);
    assert '/' !in ext && '?' !in ext && '#' !in ext;
    GetExtOfName(stem, ext);
  }

  /** A name with no `/`, `?` or `#` whose last `.` opens `ext` after a
      non-empty stem has `ext`, lower-cased, as its extension. */
  lemma GetExtOfName(stem: string, ext: string)
    requires stem != [] && |ext| >= 2 && ext[0] == '.' && '.' !in ext[1..]
    requires forall c :: c in stem + ext ==> c != '/' && c != '?' && c != '#'
    ensures GetExt(stem + ext) == ToLower(ext)
    ensures (forall k :: 0 <= k < |ext| ==> !IsUpperAscii(ext[k])) ==> GetExt(stem + ext) == ext
  {
    var f := stem + ext;
    BeforeFirstAbsent(f, '?');
    BeforeFirstAbsent(f, '#');
    ExtnameOfName(stem, ext);
    if forall k :: 0 <= k < |ext| ==> !IsUpperAscii(ext[k]) {
      LowerUnchanged(ext);
    }
  }

  lemma ExtnameOfName(stem: string, ext: string)
    requires stem != [] && |ext| >= 2 && ext[0] == '.' && '.' !in ext[1..]
    requires '/' !in stem + ext
    ensures Extname(stem + ext) == ext
  {
    var f := stem + ext;
    assert Basename(f) == f;
    assert f[|stem|..] == ext;
    forall k | |stem| < k < |f| ensures f[k] != '.' {
      assert f[k] == ext[k - |stem|];
      assert ext[k - |stem|] == ext[1..][k - |stem| - 1];
    }
    assert f[|stem|] == '.';
    LastDotIs(f, |stem|);
    assert |f| > 2;
    assert ExtOf(f) == f[|stem|..];
  }

  lemma LowerUnchanged(s: string)
    requires forall k :: 0 <= k < |s| ==> !IsUpperAscii(s[k])
    ensures ToLower(s) == s
  {
    assert forall k :: 0 <= k < |s| ==> ToLower(s)[k] == s[k];
  }

  lemma ConstructorLookup()
    ensures LookupAsWritten(".constructor") == ObjectConstructor
    ensures MimeForExt(".constructor") == OctetStream
  {
    assert DropFirst(".constructor", '.') == "constructor";
  }

  lemma BeforeFirstAbsent(s: string, c: char)
    requires c !in s
    ensures BeforeFirst(s, c) == s
  {
  }

  // ---------------------------------------------------------------------
  //  Storage key and public URL
  // ---------------------------------------------------------------------

  /** The storage key `r2KeyPrefix + mdBaseName + "/" + filename`. */
  function StorageKey(keyPrefix: string, docName: string, filename: string): string {
    keyPrefix + docName + "/" + filename
  }

  /** The public URL `r2PublicBaseUrl + "/" + key`. */
  function PublicUrl(publicBaseUrl: string, key: string): string {
    publicBaseUrl + "/" + key
  }

  /** Within one document, two references share a storage key exactly when
      they share a file name: the key is the single upload slot of a
      file name, whichever syntax the reference used. */
  lemma StorageKeyInjective(keyPrefix: string, docName: string, f1: string, f2: string)
    ensures StorageKey(keyPrefix, docName, f1) == StorageKey(keyPrefix, docName, f2) <==> f1 == f2
  {
    var head := keyPrefix + docName + "/";
    if StorageKey(keyPrefix, docName, f1) == StorageKey(keyPrefix, docName, f2) {
      assert f1 == StorageKey(keyPrefix, docName, f1)[|head|..];
      assert f2 == StorageKey(keyPrefix, docName, f2)[|head|..];
    }
  }

  /** The public URL names its key: two keys have the same public URL only
      when they are the same key. */
  lemma PublicUrlInjective(publicBaseUrl: string, k1: string, k2: string)
    ensures PublicUrl(publicBaseUrl, k1) == PublicUrl(publicBaseUrl, k2) <==> k1 == k2
  {
    var head := publicBaseUrl + "/";
    if PublicUrl(publicBaseUrl, k1) == PublicUrl(publicBaseUrl, k2) {
      assert k1 == PublicUrl(publicBaseUrl, k1)[|head|..];
      assert k2 == PublicUrl(publicBaseUrl, k2)[|head|..];
    }
  }

  /** The public URL of a key lies under the public base URL. */
  lemma PublicUrlOnBase(publicBaseUrl: string, key: string)
    ensures publicBaseUrl + "/" <= PublicUrl(publicBaseUrl, key)
    ensures |PublicUrl(publicBaseUrl, key)| == |publicBaseUrl| + 1 + |key|
  {
    assert PublicUrl(publicBaseUrl, key)[..|publicBaseUrl| + 1] == publicBaseUrl + "/";
  }

  /** The file name of an external image: `path.basename(url.split('?')[0])`,
      the last path segment before the query string: once the trailing
      slashes of that part are dropped, the whole stretch after its last `/`. */
  function ExternalFilename(url: string): (r: string)
    ensures '/' !in r && '?' !in r
    ensures LastSegment(r, BeforeFirst(url, '?'))
    ensures '/' !in url && '?' !in url ==> r == url
  {
    var cut := BeforeFirst(url, '?');
    NameAvoids(cut, '?');
    Basename(cut)
  }

  // ---------------------------------------------------------------------
  //  Replacement tags and their alt-text policies
  // ---------------------------------------------------------------------

  /** `{% img %}` alt text: the caption with every `"` and `'` removed and
      then trimmed; the file name when there is no caption or it is empty. */
  function ImgAlt(altRaw: Option<string>, filename: string): (r: string)
    ensures altRaw.None? || altRaw == Some("") ==> r == filename
    ensures altRaw.Some? && altRaw.value != "" ==> TrimOf(r, RemoveAll(altRaw.value, Quotes))
    ensures altRaw.Some? && altRaw.value != "" ==>
      '"' !in r && '\'' !in r && (r == [] || (!IsSpace(r[0]) && !IsSpace(r[|r| - 1])))
    ensures (altRaw.Some? && altRaw.value != "" && '"' !in altRaw.value && '\'' !in altRaw.value &&
             !IsSpace(altRaw.value[0]) && !IsSpace(altRaw.value[|altRaw.value| - 1])) ==> r == altRaw.value
  {
    match altRaw
    case None => filename
    case Some(a) => if a == [] then filename else Unquoted(a)
  }

  /** The two quote characters `["']`. */
  const Quotes: set<char> := {'"', '\''}

  /** `a.replace(/["']/g, '').trim()`: the caption's other characters, in
      order, with the white space at both ends taken off. No quote is left,
      and a caption that has neither quotes nor white space at its ends
      comes back unchanged. */
  function Unquoted(a: string): (r: string)
    ensures TrimOf(r, RemoveAll(a, Quotes))
    ensures '"' !in r && '\'' !in r && (r == [] || (!IsSpace(r[0]) && !IsSpace(r[|r| - 1])))
    ensures a != [] && '"' !in a && '\'' !in a && !IsSpace(a[0]) && !IsSpace(a[|a| - 1]) ==> r == a
  {
    var unquoted := RemoveAll(a, Quotes);
    assert '"' !in a && '\'' !in a ==> unquoted == a;
    Trim(unquoted)
  }

  /** `{% asset_img %}` alt text: the caption trimmed, quotes kept; the file
      name when there is no caption or it is empty. */
  function AssetAlt(altRaw: Option<string>, filename: string): (r: string)
    ensures altRaw.None? || altRaw == Some("") ==> r == filename
    ensures altRaw.Some? && altRaw.value != "" ==> TrimOf(r, altRaw.value)
    ensures (altRaw.Some? && altRaw.value != "" &&
             !IsSpace(altRaw.value[0]) && !IsSpace(altRaw.value[|altRaw.value| - 1])) ==> r == altRaw.value
  {
    match altRaw
    case None => filename
    case Some(a) => if a == [] then filename else Trim(a)
  }

  /** The title tail of a rewritten Markdown image: ` "title"` when the
      original had a non-empty title, nothing otherwise. */
  function TitlePart(title: Option<string>): (r: string)
    ensures title.None? || title == Some("") ==> r == []
    ensures title.Some? && title.value != "" ==> r == " \"" + title.value + "\""
  {
    match title
    case Some(t) => if t == [] then [] else " \"" + t + "\""
    case None => []
  }

  /** The Markdown image `![alt](url<titlePart>)` that every rewritten reference becomes. */
  function ImageTag(alt: string, url: string, titlePart: string): string {
    "![" + alt + "](" + url + titlePart + ")"
  }

  // ---------------------------------------------------------------------
  //  validateConfig
  // ---------------------------------------------------------------------

  /** `k.replace(/([A-Z])/g, '_$1')`: an underscore before each capital letter. */
  function MarkCapitals(k: string): (r: string)
    ensures |r| >= |k|
    decreases |k|
  {
    if k == [] then []
    else (if IsUpperAscii(k[0]) then ['_', k[0]] else [k[0]]) + MarkCapitals(k[1..])
  }

  /** The environment-variable name printed for a missing setting. */
  function EnvName(k: string): string {
    ToUpper(MarkCapitals(k))
  }

  /** Reading an environment-variable name back as a setting name: an
      underscore marks a capital, every other letter is lower case. */
  function SettingName(e: string): string
    decreases |e|
  {
    if e == [] then []
    else if e[0] == '_' && |e| > 1 then [e[1]] + SettingName(e[2..])
    else [LowerChar(e[0])] + SettingName(e[1..])
  }

  lemma ToUpperAppend(a: string, b: string)
    ensures ToUpper(a + b) == ToUpper(a) + ToUpper(b)
  {
    assert forall k :: 0 <= k < |a + b| ==> ToUpper(a + b)[k] == (ToUpper(a) + ToUpper(b))[k];
  }

  /** EnvName loses nothing for a camel-case setting name without
      underscores: the name can be read back from it. */
  lemma {:induction false} EnvNameRoundTrip(k: string)
    requires '_' !in k
    ensures SettingName(EnvName(k)) == k
    decreases |k|
  {
    if k != [] {
      var head: string := if IsUpperAscii(k[0]) then ['_', k[0]] else [k[0]];
      assert MarkCapitals(k) == head + MarkCapitals(k[1..]);
      ToUpperAppend(head, MarkCapitals(k[1..]));
      EnvNameRoundTrip(k[1..]);
      var rest := ToUpper(MarkCapitals(k[1..]));
      if IsUpperAscii(k[0]) {
        assert EnvName(k) == ['_', k[0]] + rest;
      } else {
        assert EnvName(k) == [UpperChar(k[0])] + rest;
        assert UpperChar(k[0]) != '_';
      }
    }
  }

  /** The settings that the script's CONFIG holds. */
  datatype MigrationConfig = MigrationConfig(
    r2AccessKeyId: string, r2SecretAccessKey: string, r2AccountId: string,
    r2Bucket: string, r2PublicBaseUrl: string, r2KeyPrefix: string)

  /** The required settings, with their CONFIG field names, in the order they are checked. */
  function RequiredSettings(cfg: MigrationConfig): seq<(string, string)> {
    [("r2AccessKeyId", cfg.r2AccessKeyId), ("r2SecretAccessKey", cfg.r2SecretAccessKey),
     ("r2AccountId", cfg.r2AccountId), ("r2Bucket", cfg.r2Bucket),
     ("r2PublicBaseUrl", cfg.r2PublicBaseUrl)]
  }

  /** What `required.filter(k => !CONFIG[k])` keeps of one setting, as an environment name. */
  function Reported(setting: (string, string)): seq<string> {
    if setting.1 == [] then [EnvName(setting.0)] else []
  }

  /** The environment names of the settings whose value is empty, in order:
      every name reported is an empty setting's, and every empty setting's
      name is reported. */
  function MissingNames(settings: seq<(string, string)>): (r: seq<string>)
    ensures |r| <= |settings|
    ensures r == [] <==> forall k :: 0 <= k < |settings| ==> settings[k].1 != []
    ensures forall n :: n in r ==> exists k :: 0 <= k < |settings| && settings[k].1 == [] && n == EnvName(settings[k].0)
    ensures forall k :: 0 <= k < |settings| && settings[k].1 == [] ==> EnvName(settings[k].0) in r
    decreases |settings|
  {
    if settings == [] then []
    else
      var rest := MissingNames(settings[1..]);
      assert forall k :: 1 <= k < |settings| ==> settings[k] == settings[1..][k - 1];
      if settings[0].1 == [] then [EnvName(settings[0].0)] + rest else rest
  }

  /** The filter keeps the order of `required`: the names of a row of
      settings are those of its first part, then those of the rest. */
  lemma {:induction false} MissingNamesAppend(a: seq<(string, string)>, b: seq<(string, string)>)
    ensures MissingNames(a + b) == MissingNames(a) + MissingNames(b)
    ensures forall x :: MissingNames([x]) == Reported(x)
    decreases |a|
  {
    if a != [] {
      assert (a + b)[0] == a[0] && (a + b)[1..] == a[1..] + b;
      MissingNamesAppend(a[1..], b);
    } else {
      assert a + b == b;
    }
    forall x ensures MissingNames([x]) == Reported(x) {
      assert [x][1..] == [];
    }
  }

  /** validateConfig: the names to report, one for each empty required
      setting in the order of `required`, and none exactly when every
      required setting is set. */
  function ValidateConfig(cfg: MigrationConfig): (missing: seq<string>)
    ensures missing ==
      Reported(("r2AccessKeyId", cfg.r2AccessKeyId)) + Reported(("r2SecretAccessKey", cfg.r2SecretAccessKey)) +
      Reported(("r2AccountId", cfg.r2AccountId)) + Reported(("r2Bucket", cfg.r2Bucket)) +
      Reported(("r2PublicBaseUrl", cfg.r2PublicBaseUrl))
    ensures missing == [] <==>
      cfg.r2AccessKeyId != [] && cfg.r2SecretAccessKey != [] && cfg.r2AccountId != [] &&
      cfg.r2Bucket != [] && cfg.r2PublicBaseUrl != []
    ensures |missing| <= 5
  {
    var req := RequiredSettings(cfg);
    assert req[0].1 == cfg.r2AccessKeyId && req[1].1 == cfg.r2SecretAccessKey &&
      req[2].1 == cfg.r2AccountId && req[3].1 == cfg.r2Bucket && req[4].1 == cfg.r2PublicBaseUrl;
    RequiredInOrder(req);
    MissingNames(req)
  }

  /** The names of five settings, one setting at a time. */
  lemma RequiredInOrder(req: seq<(string, string)>)
    requires |req| == 5
    ensures MissingNames(req) ==
      Reported(req[0]) + Reported(req[1]) + Reported(req[2]) + Reported(req[3]) + Reported(req[4])
  {
    var r1, r2, r3, r4 := req[1..], req[2..], req[3..], req[4..];
    assert r1[1..] == r2 && r2[1..] == r3 && r3[1..] == r4 && r4[1..] == [];
    assert r1[0] == req[1] && r2[0] == req[2] && r3[0] == req[3] && r4[0] == req[4];
    assert MissingNames(r4[1..]) == [];
    NamesCons(req);
    NamesCons(r1);
    NamesCons(r2);
    NamesCons(r3);
    NamesCons(r4);
    Chain(MissingNames(req), MissingNames(r1), MissingNames(r2), MissingNames(r3), MissingNames(r4),
          Reported(req[0]), Reported(req[1]), Reported(req[2]), Reported(req[3]), Reported(req[4]));
  }

  lemma Chain(m0: seq<string>, m1: seq<string>, m2: seq<string>, m3: seq<string>, m4: seq<string>,
              a: seq<string>, b: seq<string>, c: seq<string>, d: seq<string>, e: seq<string>)
    requires m0 == a + m1 && m1 == b + m2 && m2 == c + m3 && m3 == d + m4 && m4 == e + []
    ensures m0 == a + b + c + d + e
  {
  }

  /** The names of the first setting, then those of the rest. */
  lemma NamesCons(xs: seq<(string, string)>)
    requires |xs| >= 1
    ensures MissingNames(xs) == Reported(xs[0]) + MissingNames(xs[1..])
  {
  }
}
