/** What a second run of the migration does over tags the first run wrote:
    the new Markdown image reads back as an image on the public base URL,
    which the scan leaves alone. */
module MigrateRerun {
  import opened Wrappers
  import opened MigrateHelpers
  import opened MigratePatterns
  import opened MigrateTags
  import opened MigrateProcess

  /** A Markdown image on the public base URL reads back as itself, and the
      scan then leaves it alone. Every tag a run writes, `NewTag(st, r)`, has
      this form with `url == PublicUrl(st.publicBaseUrl, KeyOf(st, r))`,
      which starts with the public base URL (`PublicUrlOnBase`): so when that
      URL holds no white space or `)`, the alt text no `]` and the title no
      `"`, a second run leaves the migrated tag alone. */
  lemma PublishedImageIgnored(st: Settings, w: World, alt: string, url: string, title: Option<string>)
    requires ']' !in alt && CarriedUrl(url, MdUrlChar) && st.publicBaseUrl <= url
    requires title.Some? ==> '"' !in title.value
    ensures var tag := ImageTag(alt, url, TitlePart(title));
            var image := MarkdownImage(tag, alt, url, ShownTitle(title));
            MatchMdAt(tag, 0) == Some(Match(image, |tag|)) &&
            forall s :: Step(st, w, s, image) == s
  {
    MdTagRoundTrip(alt, url, title);
    var tag := ImageTag(alt, url, TitlePart(title));
    var image := MarkdownImage(tag, alt, url, ShownTitle(title));
    forall s ensures Step(st, w, s, image) == s {
      PublicImageIgnored(st, w, s, image);
    }
  }
}
