/** Seeding (db/seed.py): news sources, lookup tiers, the default user with its
    initial tier record, and that user's subscriptions to every active source.
    Each stage is one commit; a stage whose commit violates a unique constraint
    raises after the earlier stages have already been committed. */
module Seed {
  import opened Wrappers
  import opened Models

  const SEED_SOURCES: seq<Source> := [
    // Currently active
    Source("The Guardian", "World", "api", "https://content.guardianapis.com/search", true),
    Source("BBC News", "World", "rss", "https://feeds.bbci.co.uk/news/world/rss.xml", true),
    Source("BBC News", "UK", "rss", "https://feeds.bbci.co.uk/news/uk/rss.xml", true),
    Source("Al Jazeera", "All", "rss", "https://www.aljazeera.com/xml/rss/all.xml", true),
    Source("NPR", "News", "rss", "https://feeds.npr.org/1001/rss.xml", true),
    // Available but inactive: world news
    Source("The Guardian", "World", "rss", "https://www.theguardian.com/world/rss", false),
    Source("France 24", "World", "rss", "https://www.france24.com/en/rss", false),
    Source("DW", "World", "rss", "https://rss.dw.com/rdf/rss-en-all", false),
    // Technology
    Source("BBC News", "Technology", "rss", "https://feeds.bbci.co.uk/news/technology/rss.xml", false),
    Source("Hacker News", "Technology", "rss", "https://hnrss.org/frontpage", false),
    Source("The Verge", "Technology", "rss", "https://www.theverge.com/rss/index.xml", false),
    Source("Ars Technica", "Technology", "rss", "https://feeds.arstechnica.com/arstechnica/index", false),
    Source("TechCrunch", "Technology", "rss", "https://techcrunch.com/feed/", false),
    Source("Wired", "Technology", "rss", "https://www.wired.com/feed/rss", false),
    Source("The Register", "Technology", "rss", "https://www.theregister.com/headlines.atom", false),
    // Science and environment
    Source("BBC News", "Science", "rss", "https://feeds.bbci.co.uk/news/science_and_environment/rss.xml", false),
    Source("Nature", "Science", "rss", "https://www.nature.com/nature.rss", false),
    Source("NASA", "Breaking News", "rss", "https://www.nasa.gov/rss/dyn/breaking_news.rss", false),
    // Business and finance
    Source("BBC News", "Business", "rss", "https://feeds.bbci.co.uk/news/business/rss.xml", false),
    // Sport
    Source("BBC Sport", "Sport", "rss", "https://feeds.bbci.co.uk/sport/rss.xml", false),
    Source("ESPN", "Top Headlines", "rss", "https://www.espn.com/espn/rss/news", false),
    // Entertainment and culture
    Source("BBC News", "Entertainment", "rss", "https://feeds.bbci.co.uk/news/entertainment_and_arts/rss.xml", false),
    Source("The Guardian", "Culture", "rss", "https://www.theguardian.com/uk/culture/rss", false)
  ]

  const SEED_TIERS: seq<LookupTier> := [LookupTier(1, "free"), LookupTier(2, "subscription")]

  const DEFAULT_EMAIL := "simongreen1@gmail.com"
  const DEFAULT_USER := User(DEFAULT_EMAIL, "Simon", "Green", "Europe/Berlin", "daily", true, 1)

  /** Length plus the eighth character from the end: already enough to tell
      the seed URLs apart, and far cheaper to compare than whole strings. */
  function UrlSignature(url: string): (r: (nat, char))
    ensures |url| >= 8 ==> r == (|url|, url[|url| - 8])
  {
    if |url| >= 8 then (|url|, url[|url| - 8]) else (|url|, ' ')
  }

  /** `UrlSignature` of each seed URL, in table order. This table is not part
      of the seeded data: it exists only so that SeedUrlsDistinct can be proved
      by comparing short pairs instead of 23 long strings. Any edit to
      SEED_SOURCES needs the matching edit here, or the SeedSignatures lemmas
      stop verifying. */
  const SEED_SIGNATURES: seq<(nat, char)> := [
    (39, 'm'),
    (43, '/'),
    (40, '/'),
    (41, '/'),
    (34, '/'),
    (37, 'o'),
    (31, 'm'),
    (33, 's'),
    (48, '/'),
    (27, 'r'),
    (38, 'n'),
    (47, 'c'),
    (28, 'o'),
    (30, 'f'),
    (42, 'n'),
    (61, '/'),
    (33, 't'),
    (46, 'n'),
    (46, '/'),
    (38, '/'),
    (34, 'r'),
    (60, '/'),
    (42, 't')
  ]

  lemma SeedSignaturesDistinct()
    ensures |SEED_SIGNATURES| == 23
    ensures forall i, j :: 0 <= i < j < |SEED_SIGNATURES| ==> SEED_SIGNATURES[i] != SEED_SIGNATURES[j]
  {
  }

  lemma SeedSignatures0To4()
    ensures forall k :: 0 <= k < 4 ==> UrlSignature(SEED_SOURCES[k].url) == SEED_SIGNATURES[k]
  {
    assert UrlSignature(SEED_SOURCES[0].url) == (39, 'm');
    assert UrlSignature(SEED_SOURCES[1].url) == (43, '/');
    assert UrlSignature(SEED_SOURCES[2].url) == (40, '/');
    assert UrlSignature(SEED_SOURCES[3].url) == (41, '/');
  }

  lemma SeedSignatures4To8()
    ensures forall k :: 4 <= k < 8 ==> UrlSignature(SEED_SOURCES[k].url) == SEED_SIGNATURES[k]
  {
    assert UrlSignature(SEED_SOURCES[4].url) == (34, '/');
    assert UrlSignature(SEED_SOURCES[5].url) == (37, 'o');
    assert UrlSignature(SEED_SOURCES[6].url) == (31, 'm');
    assert UrlSignature(SEED_SOURCES[7].url) == (33, 's');
  }

  lemma SeedSignatures8To12()
    ensures forall k :: 8 <= k < 12 ==> UrlSignature(SEED_SOURCES[k].url) == SEED_SIGNATURES[k]
  {
    assert UrlSignature(SEED_SOURCES[8].url) == (48, '/');
    assert UrlSignature(SEED_SOURCES[9].url) == (27, 'r');
    assert UrlSignature(SEED_SOURCES[10].url) == (38, 'n');
    assert UrlSignature(SEED_SOURCES[11].url) == (47, 'c');
  }

  lemma SeedSignatures12To16()
    ensures forall k :: 12 <= k < 16 ==> UrlSignature(SEED_SOURCES[k].url) == SEED_SIGNATURES[k]
  {
    assert UrlSignature(SEED_SOURCES[12].url) == (28, 'o');
    assert UrlSignature(SEED_SOURCES[13].url) == (30, 'f');
    assert UrlSignature(SEED_SOURCES[14].url) == (42, 'n');
    assert UrlSignature(SEED_SOURCES[15].url) == (61, '/');
  }

  lemma SeedSignatures16To20()
    ensures forall k :: 16 <= k < 20 ==> UrlSignature(SEED_SOURCES[k].url) == SEED_SIGNATURES[k]
  {
    assert UrlSignature(SEED_SOURCES[16].url) == (33, 't');
    assert UrlSignature(SEED_SOURCES[17].url) == (46, 'n');
    assert UrlSignature(SEED_SOURCES[18].url) == (46, '/');
    assert UrlSignature(SEED_SOURCES[19].url) == (38, '/');
  }

  lemma SeedSignatures20To23()
    ensures forall k :: 20 <= k < 23 ==> UrlSignature(SEED_SOURCES[k].url) == SEED_SIGNATURES[k]
  {
    assert UrlSignature(SEED_SOURCES[20].url) == (34, 'r');
    assert UrlSignature(SEED_SOURCES[21].url) == (60, '/');
    assert UrlSignature(SEED_SOURCES[22].url) == (42, 't');
  }

  /** The seed table lists every URL once, which is what keeps the unique url
      constraint even though the loop never adds to its set of existing URLs. */
  lemma SeedUrlsDistinct()
    ensures |SEED_SOURCES| == 23
    ensures Distinct(SEED_SOURCES, SourceUrl)
  {
    SeedSignaturesDistinct();
    SeedSignatures0To4();
    SeedSignatures4To8();
    SeedSignatures8To12();
    SeedSignatures12To16();
    SeedSignatures16To20();
    SeedSignatures20To23();
    forall i, j | 0 <= i < j < |SEED_SOURCES|
      ensures SourceUrl(SEED_SOURCES[i]) != SourceUrl(SEED_SOURCES[j])
    {
      assert UrlSignature(SEED_SOURCES[i].url) != UrlSignature(SEED_SOURCES[j].url);
    }
  }

  // ---------------------------------------------------------------- sources

  /** The URLs already in `news_sources`. */
  function StoredUrls(sources: seq<Source>): set<string> {
    set i | 0 <= i < |sources| :: sources[i].url
  }

  /** The candidates whose URL is not stored yet, in table order. */
  function MissingSources(candidates: seq<Source>, stored: set<string>): (r: seq<Source>)
    ensures |r| <= |candidates|
    ensures forall k :: 0 <= k < |r| ==> r[k] in candidates && r[k].url !in stored
  {
    if candidates == [] then []
    else (if candidates[0].url in stored then [] else [candidates[0]])
         + MissingSources(candidates[1..], stored)
  }

  /** How many candidates are skipped because their URL is stored. */
  function SkippedSources(candidates: seq<Source>, stored: set<string>): nat {
    if candidates == [] then 0
    else (if candidates[0].url in stored then 1 else 0) + SkippedSources(candidates[1..], stored)
  }

  /** Every candidate is either added or skipped. */
  lemma {:induction false} SourceCounts(candidates: seq<Source>, stored: set<string>)
    ensures |MissingSources(candidates, stored)| + SkippedSources(candidates, stored) == |candidates|
  {
    if candidates != [] {
      SourceCounts(candidates[1..], stored);
    }
  }

  /** A candidate whose URL is not stored is added. */
  lemma {:induction false} MissingSourcesComplete(candidates: seq<Source>, stored: set<string>, i: nat)
    requires i < |candidates| && candidates[i].url !in stored
    ensures candidates[i] in MissingSources(candidates, stored)
  {
    if i > 0 {
      MissingSourcesComplete(candidates[1..], stored, i - 1);
    }
  }

  /** Filtering keeps the URLs of distinct candidates distinct. */
  lemma {:induction false} MissingSourcesDistinct(candidates: seq<Source>, stored: set<string>)
    requires Distinct(candidates, SourceUrl)
    ensures Distinct(MissingSources(candidates, stored), SourceUrl)
  {
    if candidates != [] {
      var rest := candidates[1..];
      assert Distinct(rest, SourceUrl) by {
        forall i, j | 0 <= i < j < |rest| ensures rest[i].url != rest[j].url {
          assert rest[i] == candidates[i + 1] && rest[j] == candidates[j + 1];
        }
      }
      MissingSourcesDistinct(rest, stored);
      var tail := MissingSources(rest, stored);
      forall k | 0 <= k < |tail| ensures tail[k].url != candidates[0].url {
        var j :| 0 <= j < |rest| && rest[j] == tail[k];
        assert rest[j] == candidates[j + 1];
      }
    }
  }

  /** The seed URLs missing from the table are distinct and none is stored, so
      adding them keeps the url column unique. */
  lemma MissingSourcesFresh(st: Store)
    ensures Fresh(st.sources, MissingSources(SEED_SOURCES, StoredUrls(st.sources)), SourceUrl)
  {
    var stored := StoredUrls(st.sources);
    SeedUrlsDistinct();
    MissingSourcesDistinct(SEED_SOURCES, stored);
    var added := MissingSources(SEED_SOURCES, stored);
    forall i, j | 0 <= i < |added| && 0 <= j < |st.sources|
      ensures SourceUrl(added[i]) != SourceUrl(st.sources[j])
    {
      assert st.sources[j].url in stored;
    }
  }

  /** The source commit: the seed sources whose URL is not stored are added
      and the rest are counted as skipped. Its unique url check always passes
      (MissingSourcesFresh), so the commit is the append, and afterwards every
      seed URL is stored. */
  function SeedSources(st: Store): (r: Result<Store, Error>)
    ensures r.Success?
    ensures r.value == st.(sources := st.sources + MissingSources(SEED_SOURCES, StoredUrls(st.sources)))
    ensures |MissingSources(SEED_SOURCES, StoredUrls(st.sources))|
            + SkippedSources(SEED_SOURCES, StoredUrls(st.sources)) == |SEED_SOURCES|
    ensures forall k :: 0 <= k < |SEED_SOURCES| ==> SEED_SOURCES[k].url in StoredUrls(r.value.sources)
  {
    var added := MissingSources(SEED_SOURCES, StoredUrls(st.sources));
    SourceCounts(SEED_SOURCES, StoredUrls(st.sources));
    MissingSourcesFresh(st);
    MissingSourcesFillTable(st.sources);
    Success(st.(sources := st.sources + added))
  }

  // ------------------------------------------------------------------ tiers

  function StoredTierIds(tiers: seq<LookupTier>): set<int> {
    set i | 0 <= i < |tiers| :: tiers[i].id
  }

  function StoredTierNames(tiers: seq<LookupTier>): set<string> {
    set i | 0 <= i < |tiers| :: tiers[i].tierName
  }

  /** The candidate tiers whose id is not stored yet, in order. */
  function MissingTiers(candidates: seq<LookupTier>, stored: set<int>): (r: seq<LookupTier>)
    ensures |r| <= |candidates|
    ensures forall k :: 0 <= k < |r| ==> r[k] in candidates && r[k].id !in stored
  {
    if candidates == [] then []
    else (if candidates[0].id in stored then [] else [candidates[0]])
         + MissingTiers(candidates[1..], stored)
  }

  lemma {:induction false} MissingTiersComplete(candidates: seq<LookupTier>, stored: set<int>, i: nat)
    requires i < |candidates| && candidates[i].id !in stored
    ensures candidates[i] in MissingTiers(candidates, stored)
  {
    if i > 0 {
      MissingTiersComplete(candidates[1..], stored, i - 1);
    }
  }

  /** The two seed tiers, each kept only when its id is not stored. */
  lemma SeedMissingTiers(ids: set<int>)
    ensures MissingTiers(SEED_TIERS, ids)
            == (if 1 in ids then [] else [LookupTier(1, "free")])
               + (if 2 in ids then [] else [LookupTier(2, "subscription")])
  {
    assert SEED_TIERS[1..] == [LookupTier(2, "subscription")];
    assert SEED_TIERS[1..][1..] == [];
  }

  /** A commit of tiers with distinct names keeps the name column unique
      exactly when none of their names is stored. */
  lemma FreshTierNames(tiers: seq<LookupTier>, added: seq<LookupTier>)
    requires Distinct(added, TierName)
    ensures Fresh(tiers, added, TierName) <==> forall t :: t in added ==> t.tierName !in StoredTierNames(tiers)
  {
    var names := StoredTierNames(tiers);
    if forall t :: t in added ==> t.tierName !in names {
      forall i, j | 0 <= i < |added| && 0 <= j < |tiers| ensures TierName(added[i]) != TierName(tiers[j]) {
        assert tiers[j].tierName in names;
        assert added[i] in added;
      }
    } else {
      var t :| t in added && t.tierName in names;
      var i :| 0 <= i < |added| && added[i] == t;
      var j :| 0 <= j < |tiers| && tiers[j].tierName == t.tierName;
      assert TierName(added[i]) == TierName(tiers[j]);
    }
  }

  /** A seed tier whose id is not stored carries a name that is: inserting it
      would repeat a unique tier name. */
  predicate TierNameClash(tiers: seq<LookupTier>) {
    || (1 !in StoredTierIds(tiers) && "free" in StoredTierNames(tiers))
    || (2 !in StoredTierIds(tiers) && "subscription" in StoredTierNames(tiers))
  }

  /** The id check of the tier commit always passes, since only tiers whose id
      is missing are added; the name check passes exactly when there is no
      name clash. */
  lemma MissingTiersChecks(tiers: seq<LookupTier>)
    ensures var added := MissingTiers(SEED_TIERS, StoredTierIds(tiers));
            && Fresh(tiers, added, TierId)
            && (Fresh(tiers, added, TierName) <==> !TierNameClash(tiers))
  {
    var ids := StoredTierIds(tiers);
    SeedMissingTiers(ids);
    var added := MissingTiers(SEED_TIERS, ids);
    assert Fresh(tiers, added, TierId) by {
      forall i, j | 0 <= i < |added| && 0 <= j < |tiers| ensures TierId(added[i]) != TierId(tiers[j]) {
        assert tiers[j].id in ids;
      }
    }
    FreshTierNames(tiers, added);
  }

  /** Adding the missing seed tiers leaves both seed tier ids stored. */
  lemma MissingTiersFillIds(tiers: seq<LookupTier>)
    ensures forall t :: t in SEED_TIERS ==>
              t.id in StoredTierIds(tiers + MissingTiers(SEED_TIERS, StoredTierIds(tiers)))
  {
    var ids := StoredTierIds(tiers);
    SeedMissingTiers(ids);
    var after := tiers + MissingTiers(SEED_TIERS, ids);
    forall id | id in ids ensures id in StoredTierIds(after) {
      var j :| 0 <= j < |tiers| && tiers[j].id == id;
      assert after[j] == tiers[j];
    }
    if 1 !in ids {
      assert after[|tiers|].id == 1;
    }
    if 2 !in ids {
      assert after[|after| - 1].id == 2;
    }
  }

  /** The tier commit checks both unique columns, the id and the name. Only
      ids are looked up beforehand, so the id check always passes
      (MissingTiersChecks) and the commit fails exactly when a seed tier whose
      id is missing has its name stored under another id; otherwise both seed
      tier ids end up stored. */
  function SeedTiers(st: Store): (r: Result<Store, Error>)
    ensures r.Failure? <==> TierNameClash(st.tiers)
    ensures r.Failure? ==> r.error.IntegrityError?
    ensures r.Success? ==> r.value == st.(tiers := st.tiers + MissingTiers(SEED_TIERS, StoredTierIds(st.tiers)))
    ensures r.Success? ==> forall t :: t in SEED_TIERS ==> t.id in StoredTierIds(r.value.tiers)
  {
    var added := MissingTiers(SEED_TIERS, StoredTierIds(st.tiers));
    MissingTiersChecks(st.tiers);
    MissingTiersFillIds(st.tiers);
    if !Fresh(st.tiers, added, TierName) then Failure(IntegrityError("UNIQUE constraint failed: lookup_tiers.tier_name"))
    else Success(st.(tiers := st.tiers + added))
  }

  // ------------------------------------------------------------------- user

  /** The position of the first user with `email`, as `.first()` returns it. */
  function FindUser(users: seq<User>, email: string): (r: Option<nat>)
    ensures r.Some? ==> r.value < |users| && users[r.value].email == email
    ensures r.Some? ==> forall j :: 0 <= j < r.value ==> users[j].email != email
    ensures r.None? <==> forall j :: 0 <= j < |users| ==> users[j].email != email
  {
    if |users| == 0 then None
    else if users[0].email == email then Some(0)
    else match FindUser(users[1..], email)
      case None => None
      case Some(i) => Some(i + 1)
  }

  /** Appending a user changes neither a found position nor, for its own
      email when it was absent, leaves it unfound. */
  lemma FindUserAppend(users: seq<User>, u: User, email: string)
    ensures FindUser(users, email).Some? ==> FindUser(users + [u], email) == FindUser(users, email)
    ensures FindUser(users, email).None? && u.email == email ==> FindUser(users + [u], email) == Some(|users|)
  {
    var s := users + [u];
    var r := FindUser(s, email);
    if FindUser(users, email).Some? {
      var i := FindUser(users, email).value;
      assert s[i] == users[i];
      assert r.Some?;
    } else if u.email == email {
      assert s[|users|].email == email;
      assert r.Some?;
    }
  }

  /** The id the default user has, or gets when it is created. */
  function DefaultUserId(users: seq<User>): nat {
    match FindUser(users, DEFAULT_EMAIL)
    case Some(i) => RowId(i)
    case None => RowId(|users|)
  }

  /** When no user has the default email, adding the default user keeps the
      email column unique. */
  lemma DefaultUserFresh(users: seq<User>)
    requires FindUser(users, DEFAULT_EMAIL).None?
    ensures Fresh(users, [DEFAULT_USER], UserEmail)
  {
  }

  /** Looks the default user up by email; when absent, commits the user and
      then the initial tier record (no previous tier, new tier 1). The email is
      then new, so the unique check passes (DefaultUserFresh) and the stage never
      fails; it changes nothing when the user exists, and afterwards the lookup by
      email finds the user whose id it returns. */
  function SeedUser(st: Store): (r: Result<(Store, nat), Error>)
    ensures r.Success?
    ensures r.value.1 == DefaultUserId(st.users)
    ensures FindUser(st.users, DEFAULT_EMAIL).None? ==>
              r.value.0 == st.(users := st.users + [DEFAULT_USER],
                               tierChanges := st.tierChanges + [TierChange(RowId(|st.users|), None, 1)])
    ensures FindUser(st.users, DEFAULT_EMAIL).Some? ==> r.value.0 == st
    ensures FindUser(r.value.0.users, DEFAULT_EMAIL) == Some(DefaultUserId(st.users) - 1)
  {
    FindUserAppend(st.users, DEFAULT_USER, DEFAULT_EMAIL);
    match FindUser(st.users, DEFAULT_EMAIL)
    case Some(i) => Success((st, RowId(i)))
    case None =>
      DefaultUserFresh(st.users);
      var uid := RowId(|st.users|);
      Success((st.(users := st.users + [DEFAULT_USER],
                   tierChanges := st.tierChanges + [TierChange(uid, None, 1)]), uid))
  }

  // ---------------------------------------------------------- subscriptions

  /** The ids of the sources user `uid` is subscribed to. */
  function SubscribedSourceIds(subs: seq<Subscription>, uid: nat): set<nat> {
    set i | 0 <= i < |subs| && subs[i].userId == uid :: subs[i].sourceId
  }

  /** `uid` is subscribed to every active source of `st`. */
  predicate SubscribedToAllActive(st: Store, uid: nat) {
    forall i :: 0 <= i < |st.sources| && st.sources[i].active ==> RowId(i) in SubscribedSourceIds(st.subscriptions, uid)
  }

  /** `after` keeps the subscriptions `before` and adds only ones of `uid` to
      its active sources. */
  predicate AddsOnlyActiveSubscriptions(before: seq<Subscription>, after: Store, uid: nat) {
    && |before| <= |after.subscriptions|
    && after.subscriptions[..|before|] == before
    && forall k :: |before| <= k < |after.subscriptions| ==>
         && after.subscriptions[k].userId == uid
         && 1 <= after.subscriptions[k].sourceId <= |after.sources|
         && after.sources[after.subscriptions[k].sourceId - 1].active
  }

  /** Subscriptions of `uid` to the active sources among the first `n`, in id
      order, skipping those in `subscribed`. */
  function NewSubscriptions(sources: seq<Source>, uid: nat, subscribed: set<nat>, n: nat): (r: seq<Subscription>)
    requires n <= |sources|
    ensures forall k :: 0 <= k < |r| ==> r[k].userId == uid && 1 <= r[k].sourceId <= n
    ensures forall k :: 0 <= k < |r| ==> sources[r[k].sourceId - 1].active && r[k].sourceId !in subscribed
    ensures forall k, l :: 0 <= k < l < |r| ==> r[k].sourceId < r[l].sourceId
    decreases n
  {
    if n == 0 then []
    else NewSubscriptions(sources, uid, subscribed, n - 1)
         + (if sources[n - 1].active && RowId(n - 1) !in subscribed then [Subscription(uid, RowId(n - 1))] else [])
  }

  /** Every active source not yet subscribed gets a subscription. */
  lemma {:induction false} NewSubscriptionsComplete(sources: seq<Source>, uid: nat, subscribed: set<nat>, n: nat, i: nat)
    requires n <= |sources| && i < n
    requires sources[i].active && RowId(i) !in subscribed
    ensures Subscription(uid, RowId(i)) in NewSubscriptions(sources, uid, subscribed, n)
  {
    var prev := NewSubscriptions(sources, uid, subscribed, n - 1);
    var last := if sources[n - 1].active && RowId(n - 1) !in subscribed
                then [Subscription(uid, RowId(n - 1))] else [];
    assert NewSubscriptions(sources, uid, subscribed, n) == prev + last;
    if i < n - 1 {
      NewSubscriptionsComplete(sources, uid, subscribed, n - 1, i);
    }
  }

  /** The subscription commit for user `uid`. Its unique pair check always
      passes (NewSubscriptionsFresh), so it never fails; it keeps the stored
      subscriptions, adds only ones of `uid` to active sources, and leaves `uid`
      subscribed to every active source. */
  function SeedSubscriptions(st: Store, uid: nat): (r: Result<Store, Error>)
    ensures r.Success?
    ensures r.value == st.(subscriptions := st.subscriptions
              + NewSubscriptions(st.sources, uid, SubscribedSourceIds(st.subscriptions, uid), |st.sources|))
    ensures SubscribedToAllActive(r.value, uid)
    ensures AddsOnlyActiveSubscriptions(st.subscriptions, r.value, uid)
  {
    var added := NewSubscriptions(st.sources, uid, SubscribedSourceIds(st.subscriptions, uid), |st.sources|);
    NewSubscriptionsFresh(st, uid);
    NewSubscriptionsCoverActive(st, uid);
    NewSubscriptionsOnlyActive(st, uid);
    Success(st.(subscriptions := st.subscriptions + added))
  }

  /** The subscriptions to add never clash with the stored ones. */
  lemma NewSubscriptionsFresh(st: Store, uid: nat)
    ensures Fresh(st.subscriptions,
                  NewSubscriptions(st.sources, uid, SubscribedSourceIds(st.subscriptions, uid), |st.sources|),
                  SubscriptionPair)
  {
    var subscribed := SubscribedSourceIds(st.subscriptions, uid);
    var added := NewSubscriptions(st.sources, uid, subscribed, |st.sources|);
    forall i, j | 0 <= i < |added| && 0 <= j < |st.subscriptions|
      ensures SubscriptionPair(added[i]) != SubscriptionPair(st.subscriptions[j])
    {
      if st.subscriptions[j].userId == uid {
        assert st.subscriptions[j].sourceId in subscribed;
      }
    }
  }

  /** Adding the new subscriptions leaves `uid` subscribed to every active
      source. */
  lemma NewSubscriptionsCoverActive(st: Store, uid: nat)
    ensures SubscribedToAllActive(st.(subscriptions := st.subscriptions
              + NewSubscriptions(st.sources, uid, SubscribedSourceIds(st.subscriptions, uid), |st.sources|)), uid)
  {
    var subscribed := SubscribedSourceIds(st.subscriptions, uid);
    var after := st.subscriptions + NewSubscriptions(st.sources, uid, subscribed, |st.sources|);
    forall i | 0 <= i < |st.sources| && st.sources[i].active
      ensures RowId(i) in SubscribedSourceIds(after, uid)
    {
      SubscribedAfter(st.sources, st.subscriptions, uid, subscribed, i);
    }
  }

  /** The new subscriptions are all of `uid`, to active sources. */
  lemma NewSubscriptionsOnlyActive(st: Store, uid: nat)
    ensures AddsOnlyActiveSubscriptions(st.subscriptions, st.(subscriptions := st.subscriptions
              + NewSubscriptions(st.sources, uid, SubscribedSourceIds(st.subscriptions, uid), |st.sources|)), uid)
  {
    var added := NewSubscriptions(st.sources, uid, SubscribedSourceIds(st.subscriptions, uid), |st.sources|);
    var after := st.subscriptions + added;
    forall k | |st.subscriptions| <= k < |after|
      ensures after[k] == added[k - |st.subscriptions|]
    {
    }
  }

  lemma SubscribedAfter(sources: seq<Source>, subs: seq<Subscription>, uid: nat, subscribed: set<nat>, i: nat)
    requires subscribed == SubscribedSourceIds(subs, uid)
    requires i < |sources| && sources[i].active
    ensures RowId(i) in SubscribedSourceIds(subs + NewSubscriptions(sources, uid, subscribed, |sources|), uid)
  {
    var added := NewSubscriptions(sources, uid, subscribed, |sources|);
    var after := subs + added;
    if RowId(i) in subscribed {
      var j :| 0 <= j < |subs| && subs[j].userId == uid && subs[j].sourceId == RowId(i);
      assert after[j] == subs[j];
    } else {
      NewSubscriptionsComplete(sources, uid, subscribed, |sources|, i);
      var k :| 0 <= k < |added| && added[k] == Subscription(uid, RowId(i));
      assert after[|subs| + k] == added[k];
    }
  }

  // ------------------------------------------------------------------- seed

  /** The store after the stages that committed; a failed stage raises. */
  datatype SeedOutcome = Seeded(store: Store) | SeedFailed(store: Store, error: Error)

  /** `seed`: the sources are always committed first; the run then fails
      exactly at the tier commit when a tier to be added carries a name already
      stored, leaving the committed sources and nothing else. Articles and
      deliveries are never touched. */
  function Seed(st: Store): (out: SeedOutcome)
    ensures out.store.articles == st.articles && out.store.deliveries == st.deliveries
    ensures out.store.sources == st.sources + MissingSources(SEED_SOURCES, StoredUrls(st.sources))
    ensures out.SeedFailed? <==> TierNameClash(st.tiers)
    ensures out.SeedFailed? ==>
              && out.error.IntegrityError?
              && out.store == st.(sources := st.sources + MissingSources(SEED_SOURCES, StoredUrls(st.sources)))
  {
    match SeedSources(st)
    case Failure(e) => SeedFailed(st, e)
    case Success(st1) =>
      match SeedTiers(st1)
      case Failure(e) => SeedFailed(st1, e)
      case Success(st2) =>
        match SeedUser(st2)
        case Failure(e) => SeedFailed(st2, e)
        case Success(p) =>
          match SeedSubscriptions(p.0, p.1)
          case Failure(e) => SeedFailed(p.0, e)
          case Success(st4) => Seeded(st4)
  }

  /** The store a successful seed produces, stage by stage. */
  lemma SeededStages(st: Store)
    requires !TierNameClash(st.tiers)
    ensures Seed(st).Seeded?
    ensures SeedSources(st).Success? && SeedTiers(SeedSources(st).value).Success?
    ensures SeedUser(SeedTiers(SeedSources(st).value).value).Success?
    ensures var st2 := SeedTiers(SeedSources(st).value).value;
            var st3 := SeedUser(st2).value.0;
            && SeedUser(st2).value.1 == DefaultUserId(st.users)
            && st2.users == st.users && st2.tierChanges == st.tierChanges
            && st3.sources == Seed(st).store.sources
            && st3.subscriptions == st.subscriptions
            && Seed(st).store.tiers == st2.tiers
            && Seed(st).store.users == st3.users
            && Seed(st).store.tierChanges == st3.tierChanges
            && Seed(st).store == SeedSubscriptions(st3, DefaultUserId(st.users)).value
  {
  }

  /** After a seed without a tier-name clash both tiers are stored. */
  lemma SeedStoresBothTiers(st: Store)
    requires !TierNameClash(st.tiers)
    ensures forall t :: t in SEED_TIERS ==> t.id in StoredTierIds(Seed(st).store.tiers)
  {
    SeededStages(st);
  }

  /** The user stage as seen from the whole seed: the stages around it leave
      the users and tier changes alone. */
  lemma UserStageWithin(st: Store, st2: Store, fin: Store)
    requires st2.users == st.users && st2.tierChanges == st.tierChanges
    requires fin.users == SeedUser(st2).value.0.users
    requires fin.tierChanges == SeedUser(st2).value.0.tierChanges
    ensures FindUser(st.users, DEFAULT_EMAIL).None? ==>
              && fin.users == st.users + [DEFAULT_USER]
              && fin.tierChanges == st.tierChanges + [TierChange(RowId(|st.users|), None, 1)]
    ensures FindUser(st.users, DEFAULT_EMAIL).Some? ==>
              fin.users == st.users && fin.tierChanges == st.tierChanges
    ensures FindUser(fin.users, DEFAULT_EMAIL) == Some(DefaultUserId(st.users) - 1)
  {
  }

  /** After a seed without a tier-name clash the default user exists; it was
      created, with one tier record, exactly when no user had its email. */
  lemma SeedCreatesDefaultUser(st: Store)
    requires !TierNameClash(st.tiers)
    ensures FindUser(st.users, DEFAULT_EMAIL).None? ==>
              && Seed(st).store.users == st.users + [DEFAULT_USER]
              && Seed(st).store.tierChanges == st.tierChanges + [TierChange(RowId(|st.users|), None, 1)]
    ensures FindUser(st.users, DEFAULT_EMAIL).Some? ==>
              Seed(st).store.users == st.users && Seed(st).store.tierChanges == st.tierChanges
    ensures FindUser(Seed(st).store.users, DEFAULT_EMAIL) == Some(DefaultUserId(st.users) - 1)
  {
    SeededStages(st);
    UserStageWithin(st, SeedTiers(SeedSources(st).value).value, Seed(st).store);
  }

  /** After a successful seed the default user is subscribed to every active
      source. */
  lemma SeedSubscribesActiveSources(st: Store)
    requires !TierNameClash(st.tiers)
    ensures SubscribedToAllActive(Seed(st).store, DefaultUserId(st.users))
  {
    SeededStages(st);
  }

  /** Seeding keeps the stored subscriptions, and every one it adds is one of
      the default user to an active source. */
  lemma SeedSubscribesOnlyToActive(st: Store)
    requires !TierNameClash(st.tiers)
    ensures AddsOnlyActiveSubscriptions(st.subscriptions, Seed(st).store, DefaultUserId(st.users))
  {
    SeededStages(st);
  }

  /** Adding the missing seed sources leaves every seed URL stored. */
  lemma MissingSourcesFillTable(stored: seq<Source>)
    ensures forall k :: 0 <= k < |SEED_SOURCES| ==>
              SEED_SOURCES[k].url in StoredUrls(stored + MissingSources(SEED_SOURCES, StoredUrls(stored)))
  {
    var before := StoredUrls(stored);
    var added := MissingSources(SEED_SOURCES, before);
    var after := stored + added;
    forall k | 0 <= k < |SEED_SOURCES| ensures SEED_SOURCES[k].url in StoredUrls(after) {
      if SEED_SOURCES[k].url in before {
        var j :| 0 <= j < |stored| && stored[j].url == SEED_SOURCES[k].url;
        assert after[j] == stored[j];
      } else {
        MissingSourcesComplete(SEED_SOURCES, before, k);
        var m :| 0 <= m < |added| && added[m] == SEED_SOURCES[k];
        assert after[|stored| + m] == SEED_SOURCES[k];
      }
    }
  }

  /** After seeding, whatever the outcome, every seed URL is stored. */
  lemma SeedStoresEverySeedUrl(st: Store)
    ensures forall k :: 0 <= k < |SEED_SOURCES| ==> SEED_SOURCES[k].url in StoredUrls(Seed(st).store.sources)
  {
    MissingSourcesFillTable(st.sources);
  }

  /** Nothing is missing when every candidate URL is stored. */
  lemma {:induction false} MissingSourcesNone(candidates: seq<Source>, stored: set<string>)
    requires forall k :: 0 <= k < |candidates| ==> candidates[k].url in stored
    ensures MissingSources(candidates, stored) == []
  {
    if candidates != [] {
      assert forall k :: 0 <= k < |candidates| - 1 ==> candidates[1..][k] == candidates[k + 1];
      MissingSourcesNone(candidates[1..], stored);
    }
  }

  /** Nothing is missing when every candidate tier id is stored. */
  lemma {:induction false} MissingTiersNone(candidates: seq<LookupTier>, stored: set<int>)
    requires forall k :: 0 <= k < |candidates| ==> candidates[k].id in stored
    ensures MissingTiers(candidates, stored) == []
  {
    if candidates != [] {
      assert forall k :: 0 <= k < |candidates| - 1 ==> candidates[1..][k] == candidates[k + 1];
      MissingTiersNone(candidates[1..], stored);
    }
  }

  /** No subscription is new when every active source is subscribed. */
  lemma {:induction false} NewSubscriptionsNone(sources: seq<Source>, uid: nat, subscribed: set<nat>, n: nat)
    requires n <= |sources|
    requires forall i :: 0 <= i < n && sources[i].active ==> RowId(i) in subscribed
    ensures NewSubscriptions(sources, uid, subscribed, n) == []
  {
    if n > 0 {
      NewSubscriptionsNone(sources, uid, subscribed, n - 1);
    }
  }

  lemma SeedSourcesIdle(s: Store)
    requires forall k :: 0 <= k < |SEED_SOURCES| ==> SEED_SOURCES[k].url in StoredUrls(s.sources)
    ensures SeedSources(s) == Success(s)
  {
    MissingSourcesNone(SEED_SOURCES, StoredUrls(s.sources));
    assert s.(sources := s.sources + []) == s;
  }

  lemma SeedTiersIdle(s: Store)
    requires forall t :: t in SEED_TIERS ==> t.id in StoredTierIds(s.tiers)
    ensures SeedTiers(s) == Success(s)
  {
    MissingTiersNone(SEED_TIERS, StoredTierIds(s.tiers));
    assert s.(tiers := s.tiers + []) == s;
  }

  lemma SeedSubscriptionsIdle(s: Store, uid: nat)
    requires SubscribedToAllActive(s, uid)
    ensures SeedSubscriptions(s, uid) == Success(s)
  {
    NewSubscriptionsNone(s.sources, uid, SubscribedSourceIds(s.subscriptions, uid), |s.sources|);
    assert s.(subscriptions := s.subscriptions + []) == s;
  }

  /** Running the seed again on what a seed left changes nothing. After a
      success every seed URL and tier id is stored, the user exists, and it is
      subscribed to every active source; after a failure the tiers, which
      caused it, are as they were, so the second run fails in the same way. */
  lemma SeedIsIdempotent(st: Store)
    ensures Seed(Seed(st).store) == Seed(st)
  {
    if TierNameClash(st.tiers) {
      SeedFailedIsIdempotent(st);
      return;
    }
    var s := Seed(st).store;
    SeedStoresEverySeedUrl(st);
    SeedSourcesIdle(s);
    SeedCreatesDefaultUser(st);
    SeedStoresBothTiers(st);
    SeedTiersIdle(s);
    assert SeedUser(s) == Success((s, DefaultUserId(st.users)));
    SeedSubscribesActiveSources(st);
    SeedSubscriptionsIdle(s, DefaultUserId(st.users));
  }

  /** A failed seed left the sources committed and the clashing tiers as they
      were, so seeding that store again fails with the same store. */
  lemma SeedFailedIsIdempotent(st: Store)
    requires TierNameClash(st.tiers)
    ensures Seed(Seed(st).store) == Seed(st)
  {
    var s := Seed(st).store;
    SeedStoresEverySeedUrl(st);
    SeedSourcesIdle(s);
  }

  /** Every stage commits only rows that keep its table's unique columns
      unique, so seeding a store that satisfies them leaves one that does. */
  lemma SeedKeepsValid(st: Store)
    requires Valid(st)
    ensures Valid(Seed(st).store)
  {
    var st1 := SeedSources(st).value;
    MissingSourcesFresh(st);
    DistinctAppend(st.sources, MissingSources(SEED_SOURCES, StoredUrls(st.sources)), SourceUrl);
    assert Valid(st1);
    if SeedTiers(st1).Success? {
      var added := MissingTiers(SEED_TIERS, StoredTierIds(st1.tiers));
      var st2 := SeedTiers(st1).value;
      MissingTiersChecks(st1.tiers);
      DistinctAppend(st1.tiers, added, TierId);
      DistinctAppend(st1.tiers, added, TierName);
      assert Valid(st2);
      var st3 := SeedUser(st2).value.0;
      var uid := SeedUser(st2).value.1;
      if FindUser(st2.users, DEFAULT_EMAIL).None? {
        DefaultUserFresh(st2.users);
        DistinctAppend(st2.users, [DEFAULT_USER], UserEmail);
      }
      assert Valid(st3);
      NewSubscriptionsFresh(st3, uid);
      DistinctAppend(st3.subscriptions,
                     NewSubscriptions(st3.sources, uid, SubscribedSourceIds(st3.subscriptions, uid), |st3.sources|),
                     SubscriptionPair);
    }
  }
}
