/** The standard article format: the string-keyed dictionaries that pass between
    the source adapters, the deduplicator, storage and the e-mail digest. A key that
    is missing reads as the empty string. */
module Rows {

  type Row = map<string, string>

  const SOURCE := "source"
  const HEADLINE := "headline"
  const SECTION_NAME := "sectionName"
  const LAST_MODIFIED := "lastModified"
  const WEB_URL := "webUrl"
  const DATE_ADDED := "date_added"
  const HASH := "hash"

  /** The five keys every source adapter emits. */
  const ARTICLE_KEYS: set<string> := {SOURCE, HEADLINE, SECTION_NAME, LAST_MODIFIED, WEB_URL}

  /** The seven keys of a stored article. */
  const STORED_KEYS: set<string> := ARTICLE_KEYS + {DATE_ADDED, HASH}

  /** `row.get(key, default)` */
  function GetOr(row: Row, key: string, default: string): string {
    if key in row then row[key] else default
  }

  /** `row.get(key, "")` */
  function Get(row: Row, key: string): string {
    GetOr(row, key, "")
  }

  /** The dictionary literal the adapters append for one article. */
  function ArticleRow(source: string, headline: string, sectionName: string,
                      lastModified: string, webUrl: string): (r: Row)
    ensures r.Keys == ARTICLE_KEYS
    ensures r[SOURCE] == source && r[HEADLINE] == headline
    ensures r[SECTION_NAME] == sectionName && r[LAST_MODIFIED] == lastModified
    ensures r[WEB_URL] == webUrl
  {
    map[SOURCE := source, HEADLINE := headline, SECTION_NAME := sectionName,
        LAST_MODIFIED := lastModified, WEB_URL := webUrl]
  }
}
