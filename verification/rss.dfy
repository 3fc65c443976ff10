/** The RSS/Atom adapter (sources/rss.py): entries of a parsed feed become
    standard article rows. `feedparser.parse` is the parameter `feedparser`, and
    `parsedate_to_datetime(raw).astimezone(utc).isoformat()` is the parameter
    `rfc2822`, None where it raises. */
module Rss {
  import opened Wrappers
  import opened Rows

  /** A feed category; `term` may be missing. */
  datatype Tag = Tag(term: Option<string>)

  /** A feed entry; each field may be missing. */
  datatype Entry = Entry(published: Option<string>, updated: Option<string>,
                         title: Option<string>, link: Option<string>,
                         tags: Option<seq<Tag>>)

  /** `feedparser.parse` either raises or yields entries (the `bozo` flag only
      causes a warning to be logged). */
  datatype FeedParse = ParseRaised | Parsed(entries: seq<Entry>, bozo: bool)

  /** `_normalise_date`: an empty string is returned unchanged, a string that
      parses as an RFC 2822 date becomes its UTC ISO 8601 form, and any other
      string passes through unchanged. */
  function NormaliseDate(rfc2822: string -> Option<string>, raw: string): (r: string)
    ensures raw == "" ==> r == ""
    ensures rfc2822(raw).None? ==> r == raw
    ensures r != raw ==> Some(r) == rfc2822(raw)
    ensures raw != "" && rfc2822(raw).Some? ==> r == rfc2822(raw).value
  {
    if raw == "" then raw
    else match rfc2822(raw)
      case Some(iso) => iso
      case None => raw
  }

  /** `entry.get("published", entry.get("updated", ""))` */
  function RawDate(e: Entry): string {
    match e.published
    case Some(p) => p
    case None => e.updated.GetOr("")
  }

  /** The section: the configured one if non-empty, else the first tag's term if
      the entry has tags, else "". */
  function EntrySection(section: string, e: Entry): string {
    if section == "" && e.tags.Some? && |e.tags.value| > 0 then e.tags.value[0].term.GetOr("")
    else section
  }

  /** `entries[:n]` with Python's slice rules: a negative `n` counts from the end. */
  function SlicePrefix<T>(s: seq<T>, n: int): (r: seq<T>)
    ensures 0 <= n ==> |r| == if n < |s| then n else |s|
    ensures n < 0 ==> |r| == if -n < |s| then |s| + n else 0
    ensures r == s[..|r|]
  {
    if 0 <= n then (if n < |s| then s[..n] else s)
    else if -n < |s| then s[..|s| + n] else []
  }

  /** `if max_items: entries = entries[:max_items]`: None and 0 mean no cap. */
  function Retained(entries: seq<Entry>, maxItems: Option<int>): seq<Entry> {
    if maxItems.Some? && maxItems.value != 0 then SlicePrefix(entries, maxItems.value)
    else entries
  }

  function EntryToArticle(rfc2822: string -> Option<string>, sourceName: string,
                          section: string, e: Entry): Row
  {
    ArticleRow(sourceName, e.title.GetOr(""), EntrySection(section, e),
               NormaliseDate(rfc2822, RawDate(e)), e.link.GetOr(""))
  }

  /** `fetch`: a parser exception yields no articles; otherwise one row per
      retained entry, in entry order, with the five standard keys. */
  function Fetch(feedparser: string -> FeedParse, rfc2822: string -> Option<string>,
                 feedUrl: string, sourceName: string, section: string,
                 maxItems: Option<int>): (articles: seq<Row>)
    ensures feedparser(feedUrl).ParseRaised? ==> articles == []
    ensures feedparser(feedUrl).Parsed? ==>
              var entries := feedparser(feedUrl).entries;
              && |articles| <= |entries|
              && (maxItems.None? || maxItems == Some(0) ==> |articles| == |entries|)
              && (maxItems.Some? && maxItems.value > 0 ==>
                    |articles| == if maxItems.value < |entries| then maxItems.value else |entries|)
              && (maxItems.Some? && maxItems.value < 0 ==>
                    |articles| == if -maxItems.value < |entries| then |entries| + maxItems.value else 0)
              && (forall i :: 0 <= i < |articles| ==>
                    var e := entries[i];
                    && articles[i].Keys == ARTICLE_KEYS
                    && articles[i][SOURCE] == sourceName
                    && articles[i][HEADLINE] == e.title.GetOr("")
                    && articles[i][WEB_URL] == e.link.GetOr("")
                    && articles[i][SECTION_NAME]
                       == (if section != "" then section
                           else if e.tags.Some? && |e.tags.value| > 0 then e.tags.value[0].term.GetOr("")
                           else "")
                    && articles[i][LAST_MODIFIED]
                       == NormaliseDate(rfc2822,
                            if e.published.Some? then e.published.value else e.updated.GetOr("")))
  {
    match feedparser(feedUrl)
    case ParseRaised => []
    case Parsed(entries, _) =>
      var kept := Retained(entries, maxItems);
      seq(|kept|, i requires 0 <= i < |kept| => EntryToArticle(rfc2822, sourceName, section, kept[i]))
  }
}
