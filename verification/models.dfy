/** The tables of db/models.py as immutable records, and the store as one value
    holding every table. Row ids are autoincrement integers; since no modelled
    operation deletes a row, the id of a row is its position plus one. */
module Models {
  import opened Wrappers
  import opened Rows

  /** `news_sources`; `sourceType` is "rss" or "api". */
  datatype Source = Source(sourceName: string, section: string, sourceType: string,
                           url: string, active: bool)

  /** `news_articles` */
  datatype Article = Article(dateAdded: string, lastModified: string, source: string,
                             sectionName: string, headline: string, webUrl: string,
                             hash: string)

  /** `users`; `tier` 1 is free, 2 paid. */
  datatype User = User(email: string, firstName: string, lastName: string,
                       timezone: string, deliverySchedule: string, active: bool, tier: int)

  /** `user_subscriptions` */
  datatype Subscription = Subscription(userId: nat, sourceId: nat)

  /** `user_deliveries`: declared, but written by no code in this model. */
  datatype Delivery = Delivery(userId: nat, articleId: nat)

  /** `lookup_tiers`: ids are given explicitly. */
  datatype LookupTier = LookupTier(id: int, tierName: string)

  /** `user_tier_changes`; `prevTier` is NULL for the initial assignment. */
  datatype TierChange = TierChange(userId: nat, prevTier: Option<int>, newTier: int)

  datatype Store = Store(sources: seq<Source>, articles: seq<Article>, users: seq<User>,
                         subscriptions: seq<Subscription>, deliveries: seq<Delivery>,
                         tiers: seq<LookupTier>, tierChanges: seq<TierChange>)

  const EMPTY_STORE := Store([], [], [], [], [], [], [])

  /** The autoincrement id of the row at position `i`. */
  function RowId(i: nat): nat { i + 1 }

  /** The declared width of the `hash` column (String(64)). */
  const HASH_WIDTH := 64

  /** No two rows of `s` share a key. */
  predicate Distinct<T, K(==)>(s: seq<T>, key: T -> K) {
    forall i, j :: 0 <= i < j < |s| ==> key(s[i]) != key(s[j])
  }

  /** Appending `added` to `stored` keeps `key` unique: the check a commit makes
      for a unique column. */
  predicate Fresh<T, K(==)>(stored: seq<T>, added: seq<T>, key: T -> K) {
    && Distinct(added, key)
    && forall i, j :: 0 <= i < |added| && 0 <= j < |stored| ==> key(added[i]) != key(stored[j])
  }

  lemma DistinctAppend<T, K>(stored: seq<T>, added: seq<T>, key: T -> K)
    requires Fresh(stored, added, key)
    ensures Distinct(stored, key) ==> Distinct(stored + added, key)
  {
    var s := stored + added;
    forall i, j | 0 <= i < j < |s| && Distinct(stored, key) ensures key(s[i]) != key(s[j]) {
      if j < |stored| {
      } else if i < |stored| {
        assert key(s[j]) == key(added[j - |stored|]);
      } else {
        assert s[i] == added[i - |stored|] && s[j] == added[j - |stored|];
      }
    }
  }

  function SourceUrl(s: Source): string { s.url }
  function ArticleHash(a: Article): string { a.hash }
  function UserEmail(u: User): string { u.email }
  function TierId(t: LookupTier): int { t.id }
  function TierName(t: LookupTier): string { t.tierName }
  function SubscriptionPair(s: Subscription): Subscription { s }
  function DeliveryPair(d: Delivery): Delivery { d }

  /** The unique constraints the schema declares. */
  predicate Valid(st: Store) {
    && Distinct(st.sources, SourceUrl)
    && Distinct(st.articles, ArticleHash)
    && Distinct(st.users, UserEmail)
    && Distinct(st.subscriptions, SubscriptionPair)
    && Distinct(st.deliveries, DeliveryPair)
    && Distinct(st.tiers, TierId)
    && Distinct(st.tiers, TierName)
  }

  /** The set of stored article hashes. */
  function Hashes(st: Store): set<string> {
    set i | 0 <= i < |st.articles| :: st.articles[i].hash
  }

  /** A Source built without `section` or `active` gets "" and true. */
  function NewSource(sourceName: string, sourceType: string, url: string): (s: Source)
    ensures s.section == "" && s.active
    ensures s.sourceName == sourceName && s.sourceType == sourceType && s.url == url
  {
    Source(sourceName, "", sourceType, url, true)
  }

  /** A User built from the required columns gets the column defaults. */
  function NewUser(email: string, firstName: string): (u: User)
    ensures u.lastName == "" && u.timezone == "Europe/Berlin"
    ensures u.deliverySchedule == "daily" && u.tier == 1 && u.active
    ensures u.email == email && u.firstName == firstName
  {
    User(email, firstName, "", "Europe/Berlin", "daily", true, 1)
  }

  const CHECK_MARK: char := '\U{2713}'
  const CROSS_MARK: char := '\U{2717}'

  function StatusMark(active: bool): string {
    if active then [CHECK_MARK] else [CROSS_MARK]
  }

  /** `Source.__repr__`: the character after "<Source [" is a check mark exactly
      when the source is active. */
  function SourceRepr(s: Source): (r: string)
    ensures |r| > 9 && r[..9] == "<Source ["
    ensures r[9] == CHECK_MARK <==> s.active
  {
    "<Source [" + StatusMark(s.active) + "] " + s.sourceName + " / " + s.section
      + " (" + s.sourceType + ")>"
  }

  /** `User.__repr__`: the character after "<User [" is a check mark exactly when
      the user is active. */
  function UserRepr(u: User): (r: string)
    ensures |r| > 7 && r[..7] == "<User ["
    ensures r[7] == CHECK_MARK <==> u.active
  {
    "<User [" + StatusMark(u.active) + "] " + u.firstName + " " + u.lastName
      + " (" + u.email + ")>"
  }

  /** `Article.to_dict`: exactly the seven standard keys, each the matching column. */
  function ToDict(a: Article): (r: Row)
    ensures r.Keys == STORED_KEYS
  {
    map[DATE_ADDED := a.dateAdded, LAST_MODIFIED := a.lastModified, SOURCE := a.source,
        SECTION_NAME := a.sectionName, HEADLINE := a.headline, WEB_URL := a.webUrl,
        HASH := a.hash]
  }
}
