# Hexo blog images on Cloudflare R2, modelled in Dafny

This project models the two pieces of a Hexo blog that move its images to a
Cloudflare R2 bucket and serve them through Cloudflare Images.

- **The migration script** (`tools/migrate-images-to-r2.js`). For every post
  it finds three kinds of image reference:
  - `{% img <url> 'caption' %}` tags pointing at an external image host;
  - `{% asset_img <file> caption %}` tags naming a file in the post's asset
    folder;
  - Markdown images `![alt](url "title")` on an http(s) URL.

  It uploads each image to the bucket under `r2KeyPrefix + postName + "/" +
  fileName`, or skips the upload when that key is already stored. It counts
  every upload, skip and failure. It rewrites each reference as a Markdown
  image on the public base URL, and writes the post back unless this is a dry
  run. It also checks that the five required settings are present.
- **The `after_render:html` filter** (`scripts/cf-image-transform.js`). It
  merges the `cf_image_transform` section of `_config.yml` over its defaults,
  then returns early in three cases:
  - under `hexo server` when `enable_dev` is off;
  - when `enable` is off;
  - when no base URL is configured.

  Otherwise it puts `/cdn-cgi/image/<options>/` in front of every image URL
  under the base. It does this in `src`-like attributes, inside `srcset`
  values and in CSS `url(...)`.

The modules are:

- `Wrappers`: `Option`.
- `JsString`: the JavaScript string operations the code uses.
  - `trim`, `toLowerCase`/`toUpperCase` on ASCII letters, `indexOf`.
  - `split`/`join`, with the round trip proved.
- `NodePath`: `path.basename` and `path.extname`.
- `MigrateHelpers`: `getExt`, `getMime`, the storage key and public URL, the
  alt-text policies, and `validateConfig`.
- `MigratePatterns`: the three global regular expressions of the script.
  - Each is a matcher function that follows the engine's greedy, lazy and
    backtracking steps.
  - A leftmost, non-overlapping scan plays `RegExp.prototype.exec` with
    `lastIndex`.
- `MigrateTags`: round trips between the tags the script writes or reads and
  what the matchers return for them.
- `MigrateProcess`: `processMdFile`, in two layers.
  - A specification: `Decide`, `Step` for one reference, `Fold` for a scan,
    `Pass` for the three scans, `ApplyAll` for the split/join rewrite, and
    `WrittenContent`.
  - The imperative code, proved equal to it: the classes `Stats`,
    `ObjectStore` and `ReplacementMap`, and the `while` loops of the three
    scans and of the rewrite.
- `MigrateRerun`: a second run leaves the tags written by the first run alone.
- `CfImageTransform`: the filter.
  - The configuration merge and the guards.
  - The normalisation of the base and of the options.
  - The escaped base, proved to stand for itself.
  - Each regular expression as a matcher.
  - Each global `replace` as a recursive function.
  - The main property: every pass cuts the page into pieces that make it up.
    Each piece after the first starts with `BASE/`. The output is the pieces
    joined with the CDN prefix.

## Model

| member | source | states |
|---|---|---|
| MigrateHelpers.GetExt | tools/migrate-images-to-r2.js:101-105 | the extension is `path.extname`, lower-cased, of the part before the first `?` and then the first `#` (`ExtSource`), and `.png` when that has none; it starts with its only `.` and holds no upper-case letter and none of `/`, `?`, `#` |
| MigrateHelpers.ExtSource | tools/migrate-images-to-r2.js:102 | the part read is a prefix of the name holding neither `?` nor `#` |
| MigrateHelpers.GetExtWithoutDot | tools/migrate-images-to-r2.js:101-105 | a name without any `.` gets `.png` |
| MigrateHelpers.GetExtIgnoresSuffix | tools/migrate-images-to-r2.js:102 | a query string `?…` or a fragment `#…` after a name does not change its extension |
| MigrateHelpers.GetExtOfName | tools/migrate-images-to-r2.js:101-105 | a plain name `stem + ext` gets `ext` lower-cased, and exactly `ext` when it has no upper-case letter |
| NodePath.ExtOf | tools/migrate-images-to-r2.js:103 | `path.extname` of a base name is empty or its suffix from the last `.`, shorter than the name; a `.` after the first character always gives an extension, except in `..` |
| NodePath.Basename | tools/migrate-images-to-r2.js:260 | `path.basename` is the whole last segment (`LastSegment`): the stretch after the last `/` once trailing slashes are dropped; it holds no `/` and is the path itself when the path has no `/` |
| MigrateHelpers.MimeForExt | tools/migrate-images-to-r2.js:108-121 | the content type is one of the known types, and it is the generic binary type exactly when the table has no entry for the extension |
| MigrateHelpers.MimeForExtTable | tools/migrate-images-to-r2.js:110-120 | for each of the seven image types, the type is produced exactly for its table keys, and every other key gives `application/octet-stream` |
| MigrateHelpers.GetMime | tools/migrate-images-to-r2.js:108-121 | getMime always returns a content type from the table or the generic type |
| MigrateHelpers.MimeByExtension | tools/migrate-images-to-r2.js:108-121 | a file is `image/png` exactly for the extension `png`, which is also what a name without an extension (or without any `.`) gets, and `image/jpeg` exactly for `jpg`/`jpeg`; it is the binary type exactly for an extension outside the table |
| MigrateHelpers.LookupAsWritten | tools/migrate-images-to-r2.js:120 | the object-literal lookup gives a string exactly when the key is not an inherited member (`constructor`, `__proto__`), and then the same type as the table |
| MigrateHelpers.GetMimeAsWrittenReturnsFunction | tools/migrate-images-to-r2.js:108-121 | for a file `stem.constructor`, getMime as written returns the `Object` function, while the table falls back to the binary type |
| MigrateHelpers.StorageKeyInjective | tools/migrate-images-to-r2.js:261 | within one post two references share a storage key exactly when they share a file name, whichever syntax they use |
| MigrateHelpers.PublicUrlInjective | tools/migrate-images-to-r2.js:277 | distinct keys have distinct public URLs |
| MigrateHelpers.PublicUrlOnBase | tools/migrate-images-to-r2.js:320 | every public URL starts with the public base URL and `/`, followed by the key |
| MigrateHelpers.ExternalFilename | tools/migrate-images-to-r2.js:260 | the file name of an image URL is the whole last segment of the part before the first `?`; it holds no `/` and no `?`, and a bare name comes back unchanged |
| MigrateHelpers.ImgAlt | tools/migrate-images-to-r2.js:280 | a missing or empty caption gives the file name; otherwise the alt text is the caption without its quotes, trimmed (`TrimOf` of `RemoveAll`), and a caption already clean is kept |
| MigrateHelpers.Unquoted | tools/migrate-images-to-r2.js:280 | the result is the caption with its quotes removed, trimmed: no quote, no surrounding white space, and a clean caption unchanged |
| MigrateHelpers.AssetAlt | tools/migrate-images-to-r2.js:321 | a missing or empty caption gives the file name; otherwise the caption trimmed (`TrimOf`), quotes kept, and a caption without outer white space unchanged |
| JsString.Trim | tools/migrate-images-to-r2.js:280 | `trim` gives the slice of the string with only white space before and after it and none at its own ends (`TrimOf`) |
| JsString.TrimOfUnique | tools/migrate-images-to-r2.js:280 | at most one string is a given string trimmed, so `TrimOf` fixes the result |
| JsString.RemoveAllAppend | tools/migrate-images-to-r2.js:280 | `replace(/["']/g, '')` works character by character: it keeps every other character, in order, and drops each quote |
| MigrateHelpers.TitlePart | tools/migrate-images-to-r2.js:361 | a non-empty title becomes ` "title"`; an absent or empty one adds nothing |
| MigrateHelpers.EnvNameRoundTrip | tools/migrate-images-to-r2.js:75 | the environment name of a camel-case setting name loses nothing: the setting name reads back from it |
| MigrateHelpers.MissingNames | tools/migrate-images-to-r2.js:71-77 | every reported name is the environment name of an empty setting, every empty setting is reported, and none is reported exactly when every setting is set |
| MigrateHelpers.MissingNamesAppend | tools/migrate-images-to-r2.js:71 | the filter keeps the order of `required`: the names of a row of settings are those of its first part followed by those of the rest, one per empty setting |
| MigrateHelpers.ValidateConfig | tools/migrate-images-to-r2.js:69-80 | the reported names are one per empty required setting, in the order of `required`; nothing is reported exactly when all five are set |
| JsString.JoinSplit | tools/migrate-images-to-r2.js:375 | `s.split(sep).join(sep)` is `s` for every separator, the empty one included |
| JsString.SplitPiecesAvoidSeparator | tools/migrate-images-to-r2.js:375 | no piece of `split(original)` contains the original |
| JsString.ReplaceAllAbsent | tools/migrate-images-to-r2.js:375 | split/join with an original that does not occur leaves the text unchanged |
| MigratePatterns.MatchImgAt | tools/migrate-images-to-r2.js:213 | a RE_HEXO_IMG match is a span from `{%` to `%}` with an http(s) URL free of white space and quotes, and a caption without `'` |
| MigratePatterns.MatchAssetAt | tools/migrate-images-to-r2.js:219 | a RE_ASSET_IMG match is a span from `{%` to `%}` with a non-empty file name free of white space and `%`, and a caption without `%` |
| MigratePatterns.MatchMdAt | tools/migrate-images-to-r2.js:225 | a RE_MD_IMG match is a span from `![` to `)` with an alt text without `]`, an http(s) URL free of white space and `)`, and a title without `"` |
| MigratePatterns.NextMatch | tools/migrate-images-to-r2.js:256 | `exec` from `lastIndex` finds the leftmost position where the pattern matches, and no match starts between `lastIndex` and it |
| MigratePatterns.MatchesOfSyntax | tools/migrate-images-to-r2.js:253-257 | every reference a scan visits is of the scan's own syntax |
| MigrateTags.HexoImgTagRoundTrip | tools/migrate-images-to-r2.js:213 | a `{% img url 'caption' %}` tag, or one without a caption, is matched whole, with its URL and caption read back |
| MigrateTags.AssetImgTagRoundTrip | tools/migrate-images-to-r2.js:219 | a `{% asset_img name caption %}` tag is matched whole, with its file name and caption read back |
| MigrateTags.MdTagRoundTrip | tools/migrate-images-to-r2.js:225 | the Markdown image the script writes is matched whole by RE_MD_IMG, with its alt text, URL and (non-empty) title read back |
| MigrateProcess.StepCountsOnce | tools/migrate-images-to-r2.js:256-287 | a reference is ignored with no effect, or bumps exactly one counter; only a skip or an upload adds a replacement, and it adds the span with its new tag |
| MigrateProcess.SkipOnlyWhenStored | tools/migrate-images-to-r2.js:264-268 | a skip happens exactly when a reference that reaches the `try` finds its key stored, the head request does not throw, and this is not a dry run |
| MigrateProcess.MappedSpanIgnored | tools/migrate-images-to-r2.js:258 | a span already in the replacement map changes nothing |
| MigrateProcess.PublicImageIgnored | tools/migrate-images-to-r2.js:340-342 | a Markdown image already on the public base URL changes nothing |
| MigrateProcess.MissingAssetFails | tools/migrate-images-to-r2.js:299-303 | an asset missing from the asset folder counts one failure and changes nothing else |
| MigrateProcess.UploadStoresObject | tools/migrate-images-to-r2.js:269-275 | a real upload stores the object under its key, which was not there before unless its head request threw |
| MigrateProcess.HeadFailureReuploads | tools/migrate-images-to-r2.js:164-171 | a stored key whose head request throws is fetched and put again, counted as an upload |
| MigrateProcess.StepSkip | tools/migrate-images-to-r2.js:266-268 | a stored key outside a dry run counts a skip and maps the span to its new tag |
| MigrateProcess.StepUpload | tools/migrate-images-to-r2.js:269-282 | a fetch and put that succeed count an upload, map the span, and store the object unless this is a dry run |
| MigrateProcess.StepFetchFails | tools/migrate-images-to-r2.js:283-286 | a download, read or upload that throws counts one failure and changes nothing else |
| MigrateProcess.FoldCounts | tools/migrate-images-to-r2.js:253-369 | over any scan: earlier entries stay in place, originals stay distinct, each new entry matches one skip or upload, and the counters grow by at most one per reference |
| MigrateProcess.FoldStore | tools/migrate-images-to-r2.js:263-275 | stored objects stay, and are overwritten only when their head request throws; every new object sits under `keyPrefix + postName + "/"`; a dry run stores nothing |
| MigrateProcess.FoldIgnored | tools/migrate-images-to-r2.js:258 | a scan whose references are all mapped already changes nothing |
| MigrateProcess.NothingToWrite | tools/migrate-images-to-r2.js:372-390 | the post is written exactly when the map is non-empty and this is not a dry run; an empty map leaves the text as it was |
| MigrateProcess.ApplyAllAbsent | tools/migrate-images-to-r2.js:373-376 | replacements whose originals do not occur leave the text unchanged |
| MigrateProcess.NoReferencesNoChange | tools/migrate-images-to-r2.js:253-378 | a post in which none of the three patterns matches keeps its counters and store, and is not written |
| MigrateProcess.Assign | tools/migrate-images-to-r2.js:282 | `Map.set` keeps insertion order: a new key goes at the end, an existing key keeps its place with the new value, and every other entry stays |
| MigrateProcess.ObjectStore.Exists | tools/migrate-images-to-r2.js:164-171 | true exactly for a stored key whose head request does not throw; any error is caught and reported as false |
| MigrateProcess.ObjectStore.ContentType | tools/migrate-images-to-r2.js:183 | an object's content type is the corrected getMime of its file name, from the table or the generic type, and equal to getMime as written wherever that gives a string |
| MigrateProcess.ObjectStore.Put | tools/migrate-images-to-r2.js:179-186 | the object is stored under its key, and nothing else in the bucket changes |
| MigrateProcess.ReplacementMap.Set | tools/migrate-images-to-r2.js:282 | the map after `set` is `Assign` of the map before |
| MigrateProcess.FetchAndPut | tools/migrate-images-to-r2.js:270-272 | success exactly when the content can be fetched and, outside a dry run, the upload is accepted; the object is stored only then |
| MigrateProcess.Transfer | tools/migrate-images-to-r2.js:263-286 | the `try` block leaves exactly the state `Step` describes |
| MigrateProcess.SkipStored | tools/migrate-images-to-r2.js:266-268 | the skip branch, with the tag mapped after it, leaves exactly the state `Step` describes for a stored object |
| MigrateProcess.FetchAndUpload | tools/migrate-images-to-r2.js:269-286 | the fetch-and-upload branch, then the mapped tag or the caught error, leaves exactly the state `Step` describes |
| MigrateProcess.MapSpan | tools/migrate-images-to-r2.js:282 | setting a span that is not yet mapped appends it last |
| MigrateProcess.HandleReference | tools/migrate-images-to-r2.js:257-286 | one loop iteration leaves exactly the state `Step` describes |
| MigrateProcess.Scan | tools/migrate-images-to-r2.js:253-288 | the `exec` loop leaves exactly the state `Fold` describes over the scan's matches |
| MigrateProcess.ApplyReplacements | tools/migrate-images-to-r2.js:372-378 | the rewriting loop yields `ApplyAll` of the text and the map, in insertion order |
| MigrateProcess.ProcessMdFile | tools/migrate-images-to-r2.js:237-391 | counters and bucket end as `Pass` says; the text written back is the rewritten text, written exactly when the map is non-empty and this is not a dry run |
| MigrateRerun.PublishedImageIgnored | tools/migrate-images-to-r2.js:339-342 | a tag written by the migration reads back as a Markdown image on the public base URL, which a second run ignores |
| CfImageTransform.Merge | scripts/cf-image-transform.js:26-34 | a section key not written takes the default, a key written without a value is null, any other key takes the user's value; no section gives the defaults |
| CfImageTransform.MissingSectionIsEmpty | scripts/cf-image-transform.js:34 | a missing section and an empty one give the defaults |
| CfImageTransform.StripTrailingSlash | scripts/cf-image-transform.js:45 | the base loses one trailing `/` when it has one and is otherwise unchanged |
| CfImageTransform.StripSlashes | scripts/cf-image-transform.js:51 | the options lose one leading and one trailing `/`; what is left is the slice in between |
| CfImageTransform.CdnPrefix | scripts/cf-image-transform.js:52 | the prefix is `/cdn-cgi/image/`, then the options, then a final `/` |
| CfImageTransform.CdnPrefixInjective | scripts/cf-image-transform.js:52 | the options can be read back from the prefix: distinct options give distinct prefixes |
| CfImageTransform.EscapeRegExp | scripts/cf-image-transform.js:55 | escaping at most doubles the base |
| CfImageTransform.EscapedBaseIsLiteral | scripts/cf-image-transform.js:55 | the escaped base, read as a pattern, stands for exactly the base, character for character |
| CfImageTransform.AttrHit | scripts/cf-image-transform.js:60-63 | a reAttr match is one of `src`, `data-src`, `data-original`, `data-lazy-src` (any case), `=`, a quote, `BASE/` and a non-empty run of `[^"' >\n]`, then a closing quote where that run stops (`AttrAt`); `AttrHitFound` is the converse |
| CfImageTransform.AttrNameWitness | scripts/cf-image-transform.js:60 | the name the alternation reads is one of the four attribute names |
| CfImageTransform.SrcsetHit | scripts/cf-image-transform.js:70-73 | a reSrcset match is `srcset=`, a quote, a non-empty value without quotes, and the quote that stops it |
| CfImageTransform.SrcsetUrlHit | scripts/cf-image-transform.js:74 | a URL in a srcset value is `BASE/` and a non-empty run of `[^\s,]` that stops at the first white space, comma or the end; `SrcsetUrlHitFound` is the converse |
| CfImageTransform.StyleRest | scripts/cf-image-transform.js:81-84 | after `url(` and the optional quote, the URL is `BASE/` and a non-empty run of `[^"')\s]`, closed right where it stops by `)` or by a quote and `)` |
| CfImageTransform.StyleHit | scripts/cf-image-transform.js:81-84 | a reStyle match starts with `url(`, has its URL right after it or after a quote, the URL a `BASE/` run of `[^"')\s]` closed where it stops by `)` or a quote and `)`; `StyleHitFound` is the converse |
| CfImageTransform.AttrHitFound | scripts/cf-image-transform.js:60-63 | every `src`, `data-src`, `data-original` or `data-lazy-src` attribute, any case, `=` and either quote, then `BASE/`, URL characters and a quote, is matched, its URL running from after the quote to the closing quote |
| CfImageTransform.SrcsetHitFound | scripts/cf-image-transform.js:70-73 | every `srcset=` with a quote, a non-empty value without quotes and a closing quote is matched, with that value |
| CfImageTransform.SrcsetUrlHitFound | scripts/cf-image-transform.js:74 | every `BASE/` followed by characters other than white space and commas is matched as a URL up to the first of them |
| CfImageTransform.StyleHitFound | scripts/cf-image-transform.js:81-84 | every `url(`, with or without a quote, then `BASE/`, URL characters and `)` or a quote and `)`, is matched with the URL right after `url(` or the quote |
| CfImageTransform.ReplaceSkipsUnmatched | scripts/cf-image-transform.js:64-87 | a global replace copies the text up to its next match unchanged |
| CfImageTransform.LeftmostPointRewritten | scripts/cf-image-transform.js:64-87 | the leftmost URL match from the scan position gets the prefix right before its URL, the text before it unchanged, and the replace goes on after the match |
| CfImageTransform.LeftmostRegionRewritten | scripts/cf-image-transform.js:75-78 | the leftmost `srcset` match has its value rewritten by the inner replace, the text around it unchanged |
| CfImageTransform.AttrRewritten | scripts/cf-image-transform.js:60-66 | an attribute `name="BASE/…"` of any of the four names and either quote, at the next match position, gets the prefix right after its quote |
| CfImageTransform.SrcsetRewritten | scripts/cf-image-transform.js:70-78 | a `srcset` value at the next match position is replaced by its own rewritten value |
| CfImageTransform.SrcsetUrlRewritten | scripts/cf-image-transform.js:74-76 | a `BASE/` URL of a `srcset` value at the next match position gets the prefix |
| CfImageTransform.StyleRewritten | scripts/cf-image-transform.js:81-87 | a CSS `url(BASE/…)`, quoted or not, at the next match position gets the prefix right before `BASE/` |
| CfImageTransform.ReplaceJoinsPieces | scripts/cf-image-transform.js:64-87 | each global replace is its page's pieces joined with the CDN prefix |
| CfImageTransform.PiecesCover | scripts/cf-image-transform.js:64-87 | the pieces make up the page: no text is dropped, duplicated or reordered |
| CfImageTransform.PiecesMarked | scripts/cf-image-transform.js:64-87 | every piece after the first starts with `BASE/`, so the prefix only goes in front of the base |
| CfImageTransform.PassInsertsPrefix | scripts/cf-image-transform.js:64-87 | a pass's output is the page, cut only right before `BASE/` occurrences, with the prefix put in at each cut |
| CfImageTransform.ReplaceWithoutBase | scripts/cf-image-transform.js:64-87 | a page in which `BASE/` never occurs comes out of a pass unchanged |
| CfImageTransform.TransformWithoutBase | scripts/cf-image-transform.js:57-89 | a page in which `BASE/` never occurs comes out of all three passes unchanged |
| CfImageTransform.SrcAttributeRewritten | scripts/cf-image-transform.js:19-21 | the documented example: `src="BASE/path"` becomes `src="<prefix>BASE/path"` |
| CfImageTransform.CfImageTransform | scripts/cf-image-transform.js:33-91 | the page is returned untouched exactly under a guard; otherwise the base is non-empty and the three passes run with the normalised base and prefix |

## Left out

- Network, storage and disk are left out: the downloads (redirects, proxy,
  timeouts), the S3 client, reading and writing files, listing the posts
  directory, and the command line, `main` and logging. The outside world is
  fixed sets of downloadable URLs, present and readable asset files, keys
  whose upload throws, and keys whose head request throws (`World`). The
  bucket is a map from key to the file name the object came from.
- `processMdFile` is asynchronous, but every `await` runs in sequence, so the
  model runs the steps in order and leaves out the promises.
- `createR2Client`, `readLocal` and `listMarkdownFiles` are not modelled. The
  post's base name is the `docName` setting; the asset folder is the set of
  its file names.
- `downloadUrl`'s byte contents are not modelled: the store records the file
  name, from which the content type follows.
- Case folding is ASCII only. This covers the `i` flag of the filter's
  patterns, `toLowerCase` in getExt, and `toUpperCase` in validateConfig.
  Non-ASCII letters that JavaScript folds are compared as written.
- Configuration values are booleans or strings, or absent, or null. Other YAML
  values (numbers, lists, a non-object section) and the truthiness of
  non-empty strings are left out.
- MigrateProcess.ObjectStore.ContentType: uses the corrected getMime of the
  Findings table below. For a file ending in `.constructor` or `.__proto__`,
  the script as written passes the inherited `Object.prototype` member as
  `ContentType` (`GetMimeAsWritten` gives it), which the store does not
  record.
- CfImageTransform.StyleHitFound: the unquoted `url(BASE/…)` form is stated
  for text whose character after `url(` is not a quote, so a base that itself
  starts with a quote is not covered.
- CfImageTransform.EscapedBaseIsLiteral: states what the escaped pattern
  matches through `PatternLiteral`, not through a general regular-expression
  semantics. The matchers then compare against the base itself.
- The filter's registration with Hexo (`after_render:html`, priority 20) and
  its warning log are left out. `hexo.env.cmd` is the `cmd` parameter.
- `scripts/sign-image.js` and `scripts/debug.js` are not part of this model.

## Findings

| source | as written | input that shows it | evidently intended | confidence | as-written member | corrected member |
|---|---|---|---|---|---|---|
| tools/migrate-images-to-r2.js:108-121 | `map[ext] \|\| 'application/octet-stream'` on an object literal also finds the members inherited from `Object.prototype`. The lower-case keys `constructor` and `__proto__` then return a function or an object instead of a content type. | an image file `logo.constructor` | the generic binary type for any extension not in the table | not executed | MigrateHelpers.GetMimeAsWrittenReturnsFunction | MigrateHelpers.GetMime |
