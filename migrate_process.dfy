/** The per-document rewrite of the migration script (`processMdFile`):
    the three scans in fixed order, the per-reference decision that bumps
    one counter, the replacement map, the literal split/join rewrite and
    the write decision. The specification functions come first, the
    lemmas about them next, and the classes and methods that do the work
    step by step last. */
module MigrateProcess {
  import opened Wrappers
  import opened JsString
  import opened MigrateHelpers
  import opened MigratePatterns

  /** What the run knows about the post: `r2KeyPrefix`, `r2PublicBaseUrl`,
      the post's base name and the `--dry-run` flag. */
  datatype Settings = Settings(keyPrefix: string, publicBaseUrl: string, docName: string, dryRun: bool)

  /** The outside world, as fixed sets:
      - `downloadable`: the URLs whose download succeeds;
      - `assetFiles`: the file names present in the post's asset folder;
      - `readableAssets`: the file names whose read succeeds;
      - `rejectedKeys`: the keys whose upload throws;
      - `headFails`: the keys whose `HeadObject` request throws (a network
        or permission error), which `existsInR2` reports as absent. */
  datatype World = World(downloadable: set<string>, assetFiles: set<string>,
                         readableAssets: set<string>, rejectedKeys: set<string>,
                         headFails: set<string>)

  /** `stats`: the three counters shared by all the posts of a run. */
  datatype Counters = Counters(uploaded: nat, skipped: nat, failed: nat)

  function Total(c: Counters): nat { c.uploaded + c.skipped + c.failed }

  /** What happens to one reference. */
  datatype Outcome = Ignored | Skipped | Uploaded | Failed

  /** The state a scan carries from one reference to the next: the
      replacement map (in insertion order), the counters and the store. */
  datatype PassState = PassState(replacements: seq<(string, string)>, counters: Counters,
                                 objects: map<string, string>)

  /** The spans the replacement map has a value for. */
  function Originals(entries: seq<(string, string)>): set<string> {
    set k | 0 <= k < |entries| :: entries[k].0
  }

  /** The originals of the map are pairwise distinct, as the keys of a `Map` are. */
  predicate DistinctOriginals(entries: seq<(string, string)>) {
    forall i, j :: 0 <= i < j < |entries| ==> entries[i].0 != entries[j].0
  }

  // ---------------------------------------------------------------------
  //  One reference
  // ---------------------------------------------------------------------

  /** The file name of the uploaded object. */
  function Filename(r: Reference): string {
    match r
    case ExternalTag(_, url, _) => ExternalFilename(url)
    case LocalAsset(_, filename, _) => filename
    case MarkdownImage(_, _, url, _) => ExternalFilename(url)
  }

  /** The storage key, the same rule for all three syntaxes. */
  function KeyOf(st: Settings, r: Reference): string {
    StorageKey(st.keyPrefix, st.docName, Filename(r))
  }

  /** The alt text of the new tag, under each syntax's policy. */
  function NewAlt(r: Reference): string {
    match r
    case ExternalTag(_, _, alt) => ImgAlt(alt, Filename(r))
    case LocalAsset(_, filename, alt) => AssetAlt(alt, filename)
    case MarkdownImage(_, alt, _, _) => alt
  }

  /** The title the new tag carries: only a Markdown image keeps one. */
  function NewTitle(r: Reference): Option<string> {
    if r.MarkdownImage? then r.title else None
  }

  /** The Markdown image that replaces the span. */
  function NewTag(st: Settings, r: Reference): string {
    ImageTag(NewAlt(r), PublicUrl(st.publicBaseUrl, KeyOf(st, r)), TitlePart(NewTitle(r)))
  }

  /** The content of the object can be obtained: the download of an
      external image, the read of a local asset. */
  predicate Fetchable(w: World, r: Reference) {
    if r.LocalAsset? then r.filename in w.readableAssets else r.url in w.downloadable
  }

  /** What `existsInR2` answers: the key is stored and its `HeadObject`
      request does not throw. */
  predicate HeadFinds(w: World, objects: map<string, string>, key: string) {
    key in objects && key !in w.headFails
  }

  /** The branch one reference takes, in the order the script tests. */
  function Decide(st: Settings, w: World, s: PassState, r: Reference): Outcome {
    if r.span in Originals(s.replacements) then Ignored
    else if r.MarkdownImage? && st.publicBaseUrl <= r.url then Ignored
    else if r.LocalAsset? && r.filename !in w.assetFiles then Failed
    else if HeadFinds(w, s.objects, KeyOf(st, r)) && !st.dryRun then Skipped
    else if !Fetchable(w, r) then Failed
    else if !st.dryRun && KeyOf(st, r) in w.rejectedKeys then Failed
    else Uploaded
  }

  /** The state after one reference. */
  function Step(st: Settings, w: World, s: PassState, r: Reference): PassState {
    var c := s.counters;
    match Decide(st, w, s, r)
    case Ignored => s
    case Failed => s.(counters := c.(failed := c.failed + 1))
    case Skipped =>
      PassState(s.replacements + [(r.span, NewTag(st, r))], c.(skipped := c.skipped + 1), s.objects)
    case Uploaded =>
      var objects := if st.dryRun then s.objects else s.objects[KeyOf(st, r) := Filename(r)];
      PassState(s.replacements + [(r.span, NewTag(st, r))], c.(uploaded := c.uploaded + 1), objects)
  }

  /** The state after a sequence of references, handled front to back. */
  function Fold(st: Settings, w: World, s: PassState, refs: seq<Reference>): PassState
    decreases |refs|
  {
    if refs == [] then s
    else Step(st, w, Fold(st, w, s, refs[..|refs| - 1]), refs[|refs| - 1])
  }

  /** The three scans of one document, `{% img %}`, then `{% asset_img %}`,
      then Markdown images, starting from an empty replacement map. */
  function Pass(st: Settings, w: World, content: string, counters: Counters,
                objects: map<string, string>): PassState
  {
    var s1 := Fold(st, w, PassState([], counters, objects), Matches(Grammar(HexoImg), content, 0));
    var s2 := Fold(st, w, s1, Matches(Grammar(AssetImg), content, 0));
    Fold(st, w, s2, Matches(Grammar(MdImg), content, 0))
  }

  /** `content = content.split(original).join(replacement)` for every entry, in insertion order. */
  function ApplyAll(content: string, entries: seq<(string, string)>): string
    decreases |entries|
  {
    if entries == [] then content
    else
      var last := entries[|entries| - 1];
      ReplaceAll(ApplyAll(content, entries[..|entries| - 1]), last.0, last.1)
  }

  /** The file's new content if the script writes it: only when the map is
      not empty, and never in a dry run. */
  function WrittenContent(st: Settings, content: string, entries: seq<(string, string)>): Option<string> {
    if entries != [] && !st.dryRun then Some(ApplyAll(content, entries)) else None
  }

  // ---------------------------------------------------------------------
  //  What one step does
  // ---------------------------------------------------------------------

  /** Each reference is ignored with no effect at all, or bumps exactly one
      counter; only a skip or an upload adds a replacement, and it adds the
      span with its new tag. */
  lemma StepCountsOnce(st: Settings, w: World, s: PassState, r: Reference)
    ensures var t := Step(st, w, s, r);
            (Decide(st, w, s, r) == Ignored <==> Total(t.counters) == Total(s.counters)) &&
            (Decide(st, w, s, r) != Ignored ==> Total(t.counters) == Total(s.counters) + 1)
    ensures var t := Step(st, w, s, r);
            Decide(st, w, s, r) == Ignored ==> t == s
    ensures var t := Step(st, w, s, r);
            (Decide(st, w, s, r) in {Skipped, Uploaded} ==> t.replacements == s.replacements + [(r.span, NewTag(st, r))]) &&
            (Decide(st, w, s, r) !in {Skipped, Uploaded} ==> t.replacements == s.replacements)
  {
  }

  /** A skip happens exactly when the key is already stored, its head
      request succeeds, and this is not a dry run (and the reference was
      neither ignored nor a missing asset). */
  lemma SkipOnlyWhenStored(st: Settings, w: World, s: PassState, r: Reference)
    ensures Decide(st, w, s, r) == Skipped <==>
            r.span !in Originals(s.replacements) && !(r.MarkdownImage? && st.publicBaseUrl <= r.url) &&
            !(r.LocalAsset? && r.filename !in w.assetFiles) &&
            KeyOf(st, r) in s.objects && KeyOf(st, r) !in w.headFails && !st.dryRun
  {
  }

  /** A span already in the map is never handled again, so the syntax scanned first wins. */
  lemma MappedSpanIgnored(st: Settings, w: World, s: PassState, r: Reference)
    requires r.span in Originals(s.replacements)
    ensures Step(st, w, s, r) == s
  {
  }

  /** A Markdown image already on the public base URL is left alone: nothing counted, nothing mapped. */
  lemma PublicImageIgnored(st: Settings, w: World, s: PassState, r: Reference)
    requires r.MarkdownImage? && st.publicBaseUrl <= r.url
    ensures Step(st, w, s, r) == s
  {
  }

  /** A local asset that is not in the asset folder fails, whatever the store holds. */
  lemma MissingAssetFails(st: Settings, w: World, s: PassState, r: Reference)
    requires r.LocalAsset? && r.span !in Originals(s.replacements) && r.filename !in w.assetFiles
    ensures var t := Step(st, w, s, r);
            t.counters == s.counters.(failed := s.counters.failed + 1) &&
            t.replacements == s.replacements && t.objects == s.objects
  {
  }

  /** A real upload stores the object under its key, made from its file
      name; the key was not stored before, unless its head request threw. */
  lemma UploadStoresObject(st: Settings, w: World, s: PassState, r: Reference)
    requires Decide(st, w, s, r) == Uploaded && !st.dryRun
    ensures var t := Step(st, w, s, r);
            (KeyOf(st, r) !in s.objects || KeyOf(st, r) in w.headFails) &&
            t.objects == s.objects[KeyOf(st, r) := Filename(r)]
  {
  }

  /** A stored object whose head request throws is fetched and put again:
      the catch in `existsInR2` turns the error into "not stored". */
  lemma HeadFailureReuploads(st: Settings, w: World, s: PassState, r: Reference)
    requires Attempted(st, w, s.replacements, r) && !st.dryRun
    requires KeyOf(st, r) in s.objects && KeyOf(st, r) in w.headFails
    requires Fetchable(w, r) && KeyOf(st, r) !in w.rejectedKeys
    ensures Decide(st, w, s, r) == Uploaded
    ensures var t := Step(st, w, s, r);
            t.objects == s.objects[KeyOf(st, r) := Filename(r)] &&
            t.counters == s.counters.(uploaded := s.counters.uploaded + 1)
  {
  }

  /** The reference reaches the `try` block: its span is not mapped yet, it
      is not a Markdown image on the public base URL, and it is not a
      missing asset. */
  predicate Attempted(st: Settings, w: World, entries: seq<(string, string)>, r: Reference) {
    r.span !in Originals(entries) && !(r.MarkdownImage? && st.publicBaseUrl <= r.url) &&
    !(r.LocalAsset? && r.filename !in w.assetFiles)
  }

  /** A stored object outside a dry run is skipped: counted, and its span mapped. */
  lemma StepSkip(st: Settings, w: World, s: PassState, r: Reference)
    requires Attempted(st, w, s.replacements, r) && HeadFinds(w, s.objects, KeyOf(st, r)) && !st.dryRun
    ensures Step(st, w, s, r) ==
            PassState(s.replacements + [(r.span, NewTag(st, r))],
                      s.counters.(skipped := s.counters.skipped + 1), s.objects)
  {
    assert Decide(st, w, s, r) == Skipped;
  }

  /** A fetch and put that succeed count an upload, map the span, and store
      the object unless this is a dry run. */
  lemma StepUpload(st: Settings, w: World, s: PassState, r: Reference)
    requires Attempted(st, w, s.replacements, r) && !(HeadFinds(w, s.objects, KeyOf(st, r)) && !st.dryRun)
    requires Fetchable(w, r) && (st.dryRun || KeyOf(st, r) !in w.rejectedKeys)
    ensures Step(st, w, s, r) ==
            PassState(s.replacements + [(r.span, NewTag(st, r))],
                      s.counters.(uploaded := s.counters.uploaded + 1),
                      if st.dryRun then s.objects else s.objects[KeyOf(st, r) := Filename(r)])
  {
    assert Decide(st, w, s, r) == Uploaded;
  }

  /** A fetch or put that throws counts a failure and changes nothing else. */
  lemma StepFetchFails(st: Settings, w: World, s: PassState, r: Reference)
    requires Attempted(st, w, s.replacements, r) && !(HeadFinds(w, s.objects, KeyOf(st, r)) && !st.dryRun)
    requires !(Fetchable(w, r) && (st.dryRun || KeyOf(st, r) !in w.rejectedKeys))
    ensures Step(st, w, s, r) == s.(counters := s.counters.(failed := s.counters.failed + 1))
  {
    assert Decide(st, w, s, r) == Failed;
  }

  // ---------------------------------------------------------------------
  //  What a scan does
  // ---------------------------------------------------------------------

  /** Over any sequence of references: the entries already in the map stay,
      in place; the map's originals stay distinct; each new entry comes
      with exactly one skip or upload; the counters grow by at most one per
      reference. */
  lemma {:induction false} FoldCounts(st: Settings, w: World, s: PassState, refs: seq<Reference>)
    requires DistinctOriginals(s.replacements)
    ensures var t := Fold(st, w, s, refs);
            s.replacements <= t.replacements && DistinctOriginals(t.replacements)
    ensures var t := Fold(st, w, s, refs);
            |t.replacements| - |s.replacements| ==
              (t.counters.uploaded - s.counters.uploaded) + (t.counters.skipped - s.counters.skipped)
    ensures var t := Fold(st, w, s, refs);
            s.counters.uploaded <= t.counters.uploaded && s.counters.skipped <= t.counters.skipped &&
            s.counters.failed <= t.counters.failed &&
            Total(t.counters) <= Total(s.counters) + |refs|
    decreases |refs|
  {
    if refs != [] {
      var front := refs[..|refs| - 1];
      var u := Fold(st, w, s, front);
      FoldCounts(st, w, s, front);
      var r := refs[|refs| - 1];
      if Decide(st, w, u, r) in {Skipped, Uploaded} {
        var t := Step(st, w, u, r);
        forall i, j | 0 <= i < j < |t.replacements| ensures t.replacements[i].0 != t.replacements[j].0 {
          if j == |u.replacements| {
            assert u.replacements[i].0 in Originals(u.replacements);
          }
        }
      }
    }
  }

  /** One step stores nothing, or, in a real run, one object under a key
      that was not there or whose head request threw. */
  lemma StepStore(st: Settings, w: World, s: PassState, r: Reference)
    ensures var t := Step(st, w, s, r);
            t.objects == s.objects ||
            (!st.dryRun && (KeyOf(st, r) !in s.objects || KeyOf(st, r) in w.headFails) &&
             t.objects == s.objects[KeyOf(st, r) := Filename(r)])
  {
    var d := Decide(st, w, s, r);
    var t := Step(st, w, s, r);
    if d == Uploaded && !st.dryRun {
      assert t.objects == s.objects[KeyOf(st, r) := Filename(r)];
    } else {
      assert t.objects == s.objects;
    }
  }

  /** Objects already in the store stay there, and are never overwritten
      unless their head request throws; every new object sits under
      `keyPrefix + docName + "/"`, and a dry run leaves the store as it was. */
  lemma {:induction false} FoldStore(st: Settings, w: World, s: PassState, refs: seq<Reference>)
    ensures var t := Fold(st, w, s, refs);
            forall k :: k in s.objects ==> k in t.objects
    ensures var t := Fold(st, w, s, refs);
            forall k :: k in s.objects && k !in w.headFails ==> t.objects[k] == s.objects[k]
    ensures var t := Fold(st, w, s, refs);
            forall k :: k in t.objects && k !in s.objects ==> st.keyPrefix + st.docName + "/" <= k
    ensures st.dryRun ==> Fold(st, w, s, refs).objects == s.objects
    decreases |refs|
  {
    if refs != [] {
      var front := refs[..|refs| - 1];
      FoldStore(st, w, s, front);
      var u := Fold(st, w, s, front);
      var r := refs[|refs| - 1];
      var key := KeyOf(st, r);
      assert st.keyPrefix + st.docName + "/" <= key by {
        assert key == (st.keyPrefix + st.docName + "/") + Filename(r);
      }
      StepStore(st, w, u, r);
    }
  }

  /** A scan over references that are all ignored changes nothing. */
  lemma {:induction false} FoldIgnored(st: Settings, w: World, s: PassState, refs: seq<Reference>)
    requires forall r :: r in refs ==> r.span in Originals(s.replacements)
    ensures Fold(st, w, s, refs) == s
    decreases |refs|
  {
    if refs != [] {
      FoldIgnored(st, w, s, refs[..|refs| - 1]);
      assert refs[|refs| - 1] in refs;
    }
  }

  // ---------------------------------------------------------------------
  //  What the rewrite does
  // ---------------------------------------------------------------------

  /** With an empty map the content is unchanged and nothing is written;
      in a dry run nothing is written either. */
  lemma NothingToWrite(st: Settings, content: string, entries: seq<(string, string)>)
    ensures entries == [] ==> ApplyAll(content, entries) == content && WrittenContent(st, content, entries).None?
    ensures st.dryRun ==> WrittenContent(st, content, entries).None?
    ensures WrittenContent(st, content, entries).Some? <==> entries != [] && !st.dryRun
  {
  }

  /** Replacing a span that does not occur, for every entry, leaves the content as it was. */
  lemma {:induction false} ApplyAllAbsent(content: string, entries: seq<(string, string)>)
    requires forall k :: 0 <= k < |entries| ==> entries[k].0 != [] && Avoids(content, entries[k].0)
    ensures ApplyAll(content, entries) == content
    decreases |entries|
  {
    if entries != [] {
      var front := entries[..|entries| - 1];
      ApplyAllAbsent(content, front);
      var last := entries[|entries| - 1];
      ReplaceAllAbsent(content, last.0, last.1);
    }
  }

  /** A document in which none of the three grammars matches is left alone:
      the counters and the store are as they were, and nothing is written. */
  lemma NoReferencesNoChange(st: Settings, w: World, content: string, counters: Counters,
                             objects: map<string, string>)
    requires NextMatch(Grammar(HexoImg), content, 0).None? && NextMatch(Grammar(AssetImg), content, 0).None? &&
             NextMatch(Grammar(MdImg), content, 0).None?
    ensures var p := Pass(st, w, content, counters, objects);
            p == PassState([], counters, objects) && WrittenContent(st, content, p.replacements).None?
  {
  }

  // ---------------------------------------------------------------------
  //  The state the script updates in place
  // ---------------------------------------------------------------------

  /** `stats`: the counters the caller owns and every post adds to. */
  class Stats {
    var uploaded: nat
    var skipped: nat
    var failed: nat

    constructor ()
      ensures uploaded == 0 && skipped == 0 && failed == 0
    {
      uploaded, skipped, failed := 0, 0, 0;
    }

    function Counts(): Counters
      reads this
    {
      Counters(uploaded, skipped, failed)
    }
  }

  /** The R2 bucket: for each key it holds, the file name the object was
      uploaded from; that name fixes the object's `ContentType`. */
  class ObjectStore {
    var objects: map<string, string>

    constructor (initial: map<string, string>)
      ensures objects == initial
    {
      objects := initial;
    }

    /** `existsInR2`: true when the `HeadObject` request succeeds, which
        needs a stored key; any error the request throws (the keys in
        `headFails`) is caught and reported as false. */
    method Exists(key: string, headFails: set<string>) returns (found: bool)
      ensures found <==> key in objects && key !in headFails
    {
      if key in headFails {
        return false;
      }
      found := key in objects;
    }

    /** The `ContentType` the object under `key` is uploaded with, by the
        corrected getMime: a type from the table or the generic type. It is
        what getMime as written gives whenever that is a string, that is for
        every extension but `.constructor` and `.__proto__`. */
    function ContentType(key: string): (r: string)
      requires key in objects
      reads this
      ensures r in MimeTypes
      ensures GetMimeAsWritten(objects[key]).Str? ==> GetMimeAsWritten(objects[key]) == Str(r)
    {
      GetMime(objects[key])
    }

    /** `PutObject` of the file `filename` under `key`, with the content
        type of that name: the object is stored under its key, replacing
        nothing else. */
    method Put(key: string, filename: string)
      modifies this
      ensures objects == old(objects)[key := filename]
    {
      objects := objects[key := filename];
    }
  }

  /** Appending an entry adds its original to the originals. */
  lemma OriginalsAppend(entries: seq<(string, string)>, entry: (string, string))
    ensures Originals(entries + [entry]) == Originals(entries) + {entry.0}
  {
    var r := entries + [entry];
    forall x | x in Originals(r) ensures x in Originals(entries) + {entry.0} {
      var k :| 0 <= k < |r| && r[k].0 == x;
      if k < |entries| {
        assert entries[k].0 == x;
      }
    }
    forall x | x in Originals(entries) ensures x in Originals(r) {
      var k :| 0 <= k < |entries| && entries[k].0 == x;
      assert r[k].0 == x;
    }
    assert r[|entries|].0 == entry.0;
  }

  /** `map.set(k, v)` on an insertion-ordered map: a new key goes last, an
      existing one keeps its place and takes the new value. */
  function Assign(entries: seq<(string, string)>, key: string, value: string): (r: seq<(string, string)>)
    ensures |r| == |entries| + (if key in Originals(entries) then 0 else 1)
    ensures Originals(r) == Originals(entries) + {key}
    ensures key !in Originals(entries) ==> r == entries + [(key, value)]
    ensures forall k :: 0 <= k < |entries| && entries[k].0 != key ==> r[k] == entries[k]
    ensures forall k :: 0 <= k < |entries| && entries[k].0 == key ==> r[k] == (key, value)
  {
    if key in Originals(entries) then
      var r := seq(|entries|, k requires 0 <= k < |entries| =>
                     if entries[k].0 == key then (key, value) else entries[k]);
      assert Originals(r) == Originals(entries) by {
        forall x | x in Originals(r) ensures x in Originals(entries) {
          var k :| 0 <= k < |r| && r[k].0 == x;
          assert entries[k].0 == x;
        }
        forall x | x in Originals(entries) ensures x in Originals(r) {
          var k :| 0 <= k < |entries| && entries[k].0 == x;
          assert r[k].0 == x;
        }
      }
      r
    else
      OriginalsAppend(entries, (key, value));
      entries + [(key, value)]
  }

  /** `replacements`: the map from an original span to its new tag. */
  class ReplacementMap {
    var entries: seq<(string, string)>

    constructor ()
      ensures entries == []
    {
      entries := [];
    }

    /** `replacements.has(key)`. */
    function Has(key: string): bool
      reads this
    {
      key in Originals(entries)
    }

    /** `replacements.set(key, value)`. */
    method Set(key: string, value: string)
      modifies this
      ensures entries == Assign(old(entries), key, value)
    {
      entries := Assign(entries, key, value);
    }
  }

  // ---------------------------------------------------------------------
  //  processMdFile
  // ---------------------------------------------------------------------

  /** The body of one `while (exec)` iteration: handles one reference and
      leaves exactly the state `Step` describes. */
  method HandleReference(st: Settings, w: World, r: Reference,
                         stats: Stats, store: ObjectStore, replacements: ReplacementMap)
    modifies stats, store, replacements
    ensures PassState(replacements.entries, stats.Counts(), store.objects) ==
            Step(st, w, PassState(old(replacements.entries), old(stats.Counts()), old(store.objects)), r)
  {
    ghost var s0 := PassState(replacements.entries, stats.Counts(), store.objects);
    if replacements.Has(r.span) {
      MappedSpanIgnored(st, w, s0, r);
      return;
    }
    if r.MarkdownImage? && st.publicBaseUrl <= r.url {
      PublicImageIgnored(st, w, s0, r);
      return;
    }
    if r.LocalAsset? && r.filename !in w.assetFiles {
      MissingAssetFails(st, w, s0, r);
      stats.failed := stats.failed + 1;
      return;
    }
    Transfer(st, w, r, stats, store, replacements);
  }

  /** The `try` block of a loop iteration, for a reference that was neither
      ignored nor a missing asset: skip a stored object, or fetch and upload
      it, and map the span to its new tag; a fetch or upload that throws
      counts as a failure and maps nothing. */
  method Transfer(st: Settings, w: World, r: Reference,
                  stats: Stats, store: ObjectStore, replacements: ReplacementMap)
    requires Attempted(st, w, replacements.entries, r)
    modifies stats, store, replacements
    ensures PassState(replacements.entries, stats.Counts(), store.objects) ==
            Step(st, w, PassState(old(replacements.entries), old(stats.Counts()), old(store.objects)), r)
  {
    var alreadyExists := store.Exists(KeyOf(st, r), w.headFails);
    if alreadyExists && !st.dryRun {
      SkipStored(st, w, r, stats, store, replacements);
    } else {
      FetchAndUpload(st, w, r, stats, store, replacements);
    }
  }

  /** A stored object outside a dry run: count a skip and map the span. */
  method SkipStored(st: Settings, w: World, r: Reference,
                    stats: Stats, store: ObjectStore, replacements: ReplacementMap)
    requires Attempted(st, w, replacements.entries, r)
    requires HeadFinds(w, store.objects, KeyOf(st, r)) && !st.dryRun
    modifies stats, replacements
    ensures PassState(replacements.entries, stats.Counts(), store.objects) ==
            Step(st, w, PassState(old(replacements.entries), old(stats.Counts()), old(store.objects)), r)
  {
    StepSkip(st, w, PassState(replacements.entries, stats.Counts(), store.objects), r);
    stats.skipped := stats.skipped + 1;
    MapSpan(replacements, r.span, NewTag(st, r));
  }

  /** Otherwise: fetch and put, then count an upload and map the span, or
      count a failure when one of them throws. */
  method FetchAndUpload(st: Settings, w: World, r: Reference,
                        stats: Stats, store: ObjectStore, replacements: ReplacementMap)
    requires Attempted(st, w, replacements.entries, r)
    requires !(HeadFinds(w, store.objects, KeyOf(st, r)) && !st.dryRun)
    modifies stats, store, replacements
    ensures PassState(replacements.entries, stats.Counts(), store.objects) ==
            Step(st, w, PassState(old(replacements.entries), old(stats.Counts()), old(store.objects)), r)
  {
    ghost var s0 := PassState(replacements.entries, stats.Counts(), store.objects);
    var ok := FetchAndPut(st, w, r, store);
    if ok {
      StepUpload(st, w, s0, r);
      stats.uploaded := stats.uploaded + 1;
      MapSpan(replacements, r.span, NewTag(st, r));
      assert stats.Counts() == s0.counters.(uploaded := s0.counters.uploaded + 1);
    } else {
      StepFetchFails(st, w, s0, r);
      stats.failed := stats.failed + 1;
      assert stats.Counts() == s0.counters.(failed := s0.counters.failed + 1);
    }
  }

  /** `replacements.set` of a span not mapped yet: it goes last. */
  method MapSpan(replacements: ReplacementMap, span: string, tag: string)
    requires span !in Originals(replacements.entries)
    modifies replacements
    ensures replacements.entries == old(replacements.entries) + [(span, tag)]
  {
    replacements.Set(span, tag);
  }

  /** Fetch the content (download or read), then `uploadToR2`, which puts
      the object unless this is a dry run. `ok` is false when one of them
      throws; the store then holds what it held. */
  method FetchAndPut(st: Settings, w: World, r: Reference, store: ObjectStore) returns (ok: bool)
    modifies store
    ensures ok <==> Fetchable(w, r) && (st.dryRun || KeyOf(st, r) !in w.rejectedKeys)
    ensures store.objects ==
            if ok && !st.dryRun then old(store.objects)[KeyOf(st, r) := Filename(r)] else old(store.objects)
  {
    if !Fetchable(w, r) {
      return false;
    }
    if !st.dryRun {
      var key := KeyOf(st, r);
      if key in w.rejectedKeys {
        return false;
      }
      store.Put(key, Filename(r));
    }
    return true;
  }

  /** One `exec` step of the scan: the found reference, then the rest from its end. */
  lemma MatchesNext(matcher: (string, nat) -> Option<Match>, content: string, from: nat)
    requires IsMatcher(matcher) && from <= |content|
    ensures NextMatch(matcher, content, from).None? ==> Matches(matcher, content, from) == []
    ensures NextMatch(matcher, content, from).Some? ==>
            var m := NextMatch(matcher, content, from).value.1;
            Matches(matcher, content, from) == [m.ref] + Matches(matcher, content, m.end)
  {
  }

  /** The references visited so far, followed by the rest of the scan, do
      not change when one more `exec` moves a reference from the rest to them. */
  lemma MatchesAdvance(matcher: (string, nat) -> Option<Match>, content: string, from: nat,
                       visited: seq<Reference>)
    requires IsMatcher(matcher) && from <= |content| && NextMatch(matcher, content, from).Some?
    ensures var m := NextMatch(matcher, content, from).value.1;
            visited + Matches(matcher, content, from) == (visited + [m.ref]) + Matches(matcher, content, m.end)
  {
    MatchesNext(matcher, content, from);
  }

  /** Handling one more reference after a sequence of them. */
  lemma FoldAppend(st: Settings, w: World, s: PassState, refs: seq<Reference>, r: Reference)
    ensures Fold(st, w, s, refs + [r]) == Step(st, w, Fold(st, w, s, refs), r)
  {
    assert (refs + [r])[..|refs|] == refs;
  }

  /** One scan: `RE.lastIndex = 0; while ((match = RE.exec(content)) !== null) { … }`. */
  method Scan(matcher: (string, nat) -> Option<Match>, content: string, st: Settings, w: World,
              stats: Stats, store: ObjectStore, replacements: ReplacementMap)
    requires IsMatcher(matcher)
    modifies stats, store, replacements
    ensures PassState(replacements.entries, stats.Counts(), store.objects) ==
            Fold(st, w, PassState(old(replacements.entries), old(stats.Counts()), old(store.objects)),
                 Matches(matcher, content, 0))
  {
    ghost var start := PassState(replacements.entries, stats.Counts(), store.objects);
    ghost var visited: seq<Reference> := [];
    var lastIndex := 0;
    var found := NextMatch(matcher, content, lastIndex);
    while found.Some?
      invariant lastIndex <= |content|
      invariant found == NextMatch(matcher, content, lastIndex)
      invariant Matches(matcher, content, 0) == visited + Matches(matcher, content, lastIndex)
      invariant PassState(replacements.entries, stats.Counts(), store.objects) == Fold(st, w, start, visited)
      decreases |content| - lastIndex
    {
      var m := found.value.1;
      MatchesAdvance(matcher, content, lastIndex, visited);
      HandleReference(st, w, m.ref, stats, store, replacements);
      FoldAppend(st, w, start, visited, m.ref);
      visited := visited + [m.ref];
      lastIndex := m.end;
      found := NextMatch(matcher, content, lastIndex);
    }
    MatchesNext(matcher, content, lastIndex);
    assert visited + [] == visited;
  }

  /** The rewriting loop of processMdFile: every replacement, in insertion
      order, turns each occurrence of its original into its new text. */
  method ApplyReplacements(content: string, entries: seq<(string, string)>) returns (text: string)
    ensures text == ApplyAll(content, entries)
  {
    text := content;
    var i := 0;
    while i < |entries|
      invariant 0 <= i <= |entries|
      invariant text == ApplyAll(content, entries[..i])
    {
      assert entries[..i + 1][..i] == entries[..i];
      text := ReplaceAll(text, entries[i].0, entries[i].1);
      i := i + 1;
    }
    assert entries[..i] == entries;
  }

  /** `processMdFile` on a post of base name `st.docName` whose text is
      `content`: the three scans, then the rewrite, then the write. It
      returns the text it writes back, if it writes. */
  method ProcessMdFile(content: string, st: Settings, w: World, stats: Stats, store: ObjectStore)
    returns (written: Option<string>)
    modifies stats, store
    ensures var p := Pass(st, w, content, old(stats.Counts()), old(store.objects));
            stats.Counts() == p.counters && store.objects == p.objects &&
            written == WrittenContent(st, content, p.replacements)
  {
    var replacements := new ReplacementMap();
    Scan(Grammar(HexoImg), content, st, w, stats, store, replacements);
    Scan(Grammar(AssetImg), content, st, w, stats, store, replacements);
    Scan(Grammar(MdImg), content, st, w, stats, store, replacements);

    ghost var s3 := PassState(replacements.entries, stats.Counts(), store.objects);
    assert s3 == Pass(st, w, content, old(stats.Counts()), old(store.objects));
    var changed := false;
    var text := content;
    if |replacements.entries| > 0 {
      text := ApplyReplacements(content, replacements.entries);
      changed := true;
    }

    if changed && !st.dryRun {
      written := Some(text);
    } else {
      written := None;
    }
  }
}
