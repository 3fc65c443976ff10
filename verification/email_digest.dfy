/** The digest logic of utils/email_service.py: reading an article's timestamp,
    bucketing by age, the per-article card's timestamp decision and the e-mail's
    subject and greeting. The Gmail transport, the HTML markup and the time-zone
    database are not part of this model.

    Instants are microseconds since 1970-01-01T00:00:00Z. `datetime.fromisoformat`
    is the parameter `parse`: None when it raises ValueError, otherwise an aware or
    a naive datetime. */
module EmailDigest {
  import opened Wrappers
  import opened Rows
  import StableSort
  import Decimal

  type Instant = int

  const MICROS_PER_HOUR: int := 3_600_000_000
  const ONE_HOUR: int := MICROS_PER_HOUR
  const SIX_HOURS: int := 6 * MICROS_PER_HOUR
  const TWENTY_FOUR_HOURS: int := 24 * MICROS_PER_HOUR

  /** `datetime.min` in UTC, 0001-01-01T00:00:00+00:00: the timestamp of an
      article whose lastModified is empty or unparseable. */
  const MIN_INSTANT: Instant := -62_135_596_800_000_000

  datatype DateTime = Aware(instant: Instant) | Naive(wallClock: int)

  /** `s.replace("Z", "+00:00")` */
  function ReplaceZ(s: string): (r: string)
    ensures 'Z' !in s ==> r == s
  {
    if |s| == 0 then ""
    else (if s[0] == 'Z' then "+00:00" else [s[0]]) + ReplaceZ(s[1..])
  }

  /** `_get_article_dt`: never fails; an empty or unparseable lastModified gets the
      sentinel, anything else its parse. */
  function ArticleDt(parse: string -> Option<DateTime>, a: Row): (dt: DateTime)
    ensures Get(a, LAST_MODIFIED) == "" ==> dt == Aware(MIN_INSTANT)
    ensures parse(ReplaceZ(Get(a, LAST_MODIFIED))).None? ==> dt == Aware(MIN_INSTANT)
    ensures dt != Aware(MIN_INSTANT) ==> Some(dt) == parse(ReplaceZ(Get(a, LAST_MODIFIED)))
    ensures Get(a, LAST_MODIFIED) != "" && parse(ReplaceZ(Get(a, LAST_MODIFIED))).Some? ==>
              dt == parse(ReplaceZ(Get(a, LAST_MODIFIED))).value
  {
    var raw := Get(a, LAST_MODIFIED);
    if raw == "" then Aware(MIN_INSTANT)
    else match parse(ReplaceZ(raw))
      case Some(dt) => dt
      case None => Aware(MIN_INSTANT)
  }

  /** True when every timestamp can be subtracted from an aware `now`; a naive one
      makes `now - dt` raise TypeError. */
  predicate AllAware(parse: string -> Option<DateTime>, articles: seq<Row>) {
    forall i :: 0 <= i < |articles| ==> ArticleDt(parse, articles[i]).Aware?
  }

  /** The instant of an article, read only when AllAware holds (the naive case
      never reaches the arithmetic). */
  function InstantOf(parse: string -> Option<DateTime>, a: Row): Instant {
    match ArticleDt(parse, a)
    case Aware(t) => t
    case Naive(_) => MIN_INSTANT
  }

  /** The sort key of `_bucket_articles`. */
  function SortKey(parse: string -> Option<DateTime>): Row -> int {
    a => InstantOf(parse, a)
  }

  /** The three fixed headings, in output order. */
  datatype Heading = LastHour | LastSixHours | LastDay {
    function Text(): string {
      match this
      case LastHour => "In the last hour"
      case LastSixHours => "In the last 6 hours"
      case LastDay => "In the last 24 hours"
    }
    function Rank(): nat {
      match this
      case LastHour => 0
      case LastSixHours => 1
      case LastDay => 2
    }
  }

  /** The heading an age falls under. The source tests the 24-hour threshold too,
      but both of its outcomes choose the same heading. */
  function Classify(age: int): (h: Heading)
    ensures h == LastHour <==> age <= ONE_HOUR
    ensures h == LastSixHours <==> ONE_HOUR < age <= SIX_HOURS
    ensures h == LastDay <==> SIX_HOURS < age
  {
    if age <= ONE_HOUR then LastHour
    else if age <= SIX_HOURS then LastSixHours
    else if age <= TWENTY_FOUR_HOURS then LastDay
    else LastDay
  }

  function HeadingOf(parse: string -> Option<DateTime>, now: Instant, a: Row): Heading {
    Classify(now - InstantOf(parse, a))
  }

  /** The articles whose age falls under `h`, in input order. */
  function Bucket(parse: string -> Option<DateTime>, articles: seq<Row>, now: Instant,
                  h: Heading): seq<Row>
  {
    if |articles| == 0 then []
    else (if HeadingOf(parse, now, articles[0]) == h then [articles[0]] else [])
         + Bucket(parse, articles[1..], now, h)
  }

  datatype Section = Section(heading: Heading, items: seq<Row>)

  function SortedSection(parse: string -> Option<DateTime>, articles: seq<Row>, now: Instant,
                         h: Heading): Section
  {
    Section(h, StableSort.SortDesc(SortKey(parse), Bucket(parse, articles, now, h)))
  }

  function IfNonEmpty(s: Section): seq<Section> {
    if |s.items| > 0 then [s] else []
  }

  /** `_bucket_articles`: Failure when a naive timestamp makes the age arithmetic
      raise; otherwise the non-empty sections in the fixed heading order, each
      sorted newest first. */
  function BucketArticles(parse: string -> Option<DateTime>, articles: seq<Row>,
                          now: Instant): (r: Result<seq<Section>, Error>)
    ensures r.Failure? <==> !AllAware(parse, articles)
    ensures r.Failure? ==> r.error.TypeError?
  {
    if !AllAware(parse, articles) then
      Failure(TypeError("can't subtract offset-naive and offset-aware datetimes"))
    else
      Success(IfNonEmpty(SortedSection(parse, articles, now, LastHour))
              + IfNonEmpty(SortedSection(parse, articles, now, LastSixHours))
              + IfNonEmpty(SortedSection(parse, articles, now, LastDay)))
  }

  /** All items of all sections, in order. */
  function Flatten(sections: seq<Section>): seq<Row> {
    if |sections| == 0 then [] else sections[0].items + Flatten(sections[1..])
  }

  lemma {:induction false} FlattenAppend(a: seq<Section>, b: seq<Section>)
    ensures Flatten(a + b) == Flatten(a) + Flatten(b)
  {
    if |a| > 0 {
      FlattenAppend(a[1..], b);
      assert (a + b)[1..] == a[1..] + b;
    } else {
      assert a + b == b;
    }
  }

  /** One step of Bucket, counted: the first article adds a copy of `x` to the
      bucket exactly when it is `x` and `x` falls under `h`. */
  lemma BucketStep(parse: string -> Option<DateTime>, articles: seq<Row>, now: Instant,
                   h: Heading, x: Row)
    requires |articles| > 0
    ensures multiset(Bucket(parse, articles, now, h))[x]
         == (if articles[0] == x && HeadingOf(parse, now, x) == h then 1 else 0)
            + multiset(Bucket(parse, articles[1..], now, h))[x]
  {
    var a0 := articles[0];
    var head := if HeadingOf(parse, now, a0) == h then [a0] else [];
    var tail := Bucket(parse, articles[1..], now, h);
    assert Bucket(parse, articles, now, h) == head + tail;
    assert multiset(head + tail) == multiset(head) + multiset(tail);
    if a0 == x {
      assert multiset(head)[x] == if HeadingOf(parse, now, x) == h then 1 else 0;
    } else {
      assert multiset(head)[x] == 0;
    }
  }

  lemma MultisetStep(s: seq<Row>, x: Row)
    requires |s| > 0
    ensures multiset(s)[x] == (if s[0] == x then 1 else 0) + multiset(s[1..])[x]
  {
    assert s == [s[0]] + s[1..];
    assert multiset([s[0]] + s[1..]) == multiset([s[0]]) + multiset(s[1..]);
  }

  /** A bucket holds exactly the input copies of the articles of its heading. */
  lemma {:induction false} BucketCount(parse: string -> Option<DateTime>, articles: seq<Row>,
                                       now: Instant, h: Heading, x: Row)
    ensures multiset(Bucket(parse, articles, now, h))[x]
         == if HeadingOf(parse, now, x) == h then multiset(articles)[x] else 0
  {
    if |articles| > 0 {
      BucketCount(parse, articles[1..], now, h, x);
      BucketStep(parse, articles, now, h, x);
      MultisetStep(articles, x);
    }
  }

  /** The three buckets partition the input. */
  lemma {:induction false} BucketsPartition(parse: string -> Option<DateTime>, articles: seq<Row>,
                                            now: Instant)
    ensures multiset(Bucket(parse, articles, now, LastHour))
          + multiset(Bucket(parse, articles, now, LastSixHours))
          + multiset(Bucket(parse, articles, now, LastDay))
         == multiset(articles)
  {
    forall x
      ensures (multiset(Bucket(parse, articles, now, LastHour))
             + multiset(Bucket(parse, articles, now, LastSixHours))
             + multiset(Bucket(parse, articles, now, LastDay)))[x]
             == multiset(articles)[x]
    {
      BucketCount(parse, articles, now, LastHour, x);
      BucketCount(parse, articles, now, LastSixHours, x);
      BucketCount(parse, articles, now, LastDay, x);
    }
  }

  /** Every input article lands in the sections exactly as often as it occurs in
      the input, so the section sizes sum to the input length. */
  lemma BucketArticlesPartition(parse: string -> Option<DateTime>, articles: seq<Row>,
                                now: Instant)
    requires AllAware(parse, articles)
    ensures var sections := BucketArticles(parse, articles, now).value;
            && multiset(Flatten(sections)) == multiset(articles)
            && |Flatten(sections)| == |articles|
  {
    var key := SortKey(parse);
    var s1 := SortedSection(parse, articles, now, LastHour);
    var s2 := SortedSection(parse, articles, now, LastSixHours);
    var s3 := SortedSection(parse, articles, now, LastDay);
    StableSort.SortDescCorrect(key, Bucket(parse, articles, now, LastHour));
    StableSort.SortDescCorrect(key, Bucket(parse, articles, now, LastSixHours));
    StableSort.SortDescCorrect(key, Bucket(parse, articles, now, LastDay));
    BucketsPartition(parse, articles, now);
    FlattenAppend(IfNonEmpty(s1), IfNonEmpty(s2));
    FlattenAppend(IfNonEmpty(s1) + IfNonEmpty(s2), IfNonEmpty(s3));
    assert Flatten(IfNonEmpty(s1)) == s1.items;
    assert Flatten(IfNonEmpty(s2)) == s2.items;
    assert Flatten(IfNonEmpty(s3)) == s3.items;
    var flat := Flatten(BucketArticles(parse, articles, now).value);
    assert flat == s1.items + s2.items + s3.items;
    calc {
      |flat|;
      |multiset(flat)|;
      |multiset(articles)|;
      |articles|;
    }
  }

  /** Dropping the empty ones from three sections in heading order keeps the
      others, in order. */
  lemma ThreeSections(s1: Section, s2: Section, s3: Section)
    requires s1.heading == LastHour && s2.heading == LastSixHours && s3.heading == LastDay
    ensures var ss := IfNonEmpty(s1) + IfNonEmpty(s2) + IfNonEmpty(s3);
            && (forall i :: 0 <= i < |ss| ==>
                  (ss[i] == s1 || ss[i] == s2 || ss[i] == s3) && |ss[i].items| > 0)
            && (forall i, j :: 0 <= i < j < |ss| ==> ss[i].heading.Rank() < ss[j].heading.Rank())
            && (|s1.items| > 0 ==> s1 in ss)
            && (|s2.items| > 0 ==> s2 in ss)
            && (|s3.items| > 0 ==> s3 in ss)
  {
  }

  /** A sorted section holds exactly the input copies of its heading's articles. */
  lemma SortedSectionCount(parse: string -> Option<DateTime>, articles: seq<Row>, now: Instant,
                           h: Heading, x: Row)
    ensures multiset(SortedSection(parse, articles, now, h).items)[x]
         == if HeadingOf(parse, now, x) == h then multiset(articles)[x] else 0
  {
    StableSort.SortDescCorrect(SortKey(parse), Bucket(parse, articles, now, h));
    BucketCount(parse, articles, now, h, x);
  }

  /** Each section is the sorted bucket of its heading. */
  lemma SectionsAreSortedBuckets(parse: string -> Option<DateTime>, articles: seq<Row>,
                                 now: Instant)
    requires AllAware(parse, articles)
    ensures var sections := BucketArticles(parse, articles, now).value;
            && (forall i :: 0 <= i < |sections| ==>
                  sections[i] == SortedSection(parse, articles, now, sections[i].heading)
                  && |sections[i].items| > 0)
            && (forall i, j :: 0 <= i < j < |sections| ==>
                  sections[i].heading.Rank() < sections[j].heading.Rank())
            && (forall h: Heading :: |SortedSection(parse, articles, now, h).items| > 0 ==>
                  SortedSection(parse, articles, now, h) in sections)
  {
    var s1 := SortedSection(parse, articles, now, LastHour);
    var s2 := SortedSection(parse, articles, now, LastSixHours);
    var s3 := SortedSection(parse, articles, now, LastDay);
    ThreeSections(s1, s2, s3);
  }

  /** Section i is the sorted bucket of its heading. */
  lemma SectionIsSortedBucket(parse: string -> Option<DateTime>, articles: seq<Row>,
                              now: Instant, i: nat)
    requires AllAware(parse, articles)
    requires i < |BucketArticles(parse, articles, now).value|
    ensures var s := BucketArticles(parse, articles, now).value[i];
            s == SortedSection(parse, articles, now, s.heading)
  {
    SectionsAreSortedBuckets(parse, articles, now);
  }

  /** Section `i` holds exactly the input copies of the articles whose age falls
      under its heading (age <= 1h, 1h < age <= 6h, otherwise), so an article
      appears in no other section. */
  lemma BucketArticlesPlacement(parse: string -> Option<DateTime>, articles: seq<Row>,
                                now: Instant, i: nat, x: Row)
    requires AllAware(parse, articles)
    requires i < |BucketArticles(parse, articles, now).value|
    ensures var s := BucketArticles(parse, articles, now).value[i];
            multiset(s.items)[x] == if HeadingOf(parse, now, x) == s.heading then multiset(articles)[x] else 0
  {
    SectionIsSortedBucket(parse, articles, now, i);
    var s := BucketArticles(parse, articles, now).value[i];
    SortedSectionCount(parse, articles, now, s.heading, x);
  }

  /** No article is dropped: the heading of every input article has a section. */
  lemma BucketArticlesDropsNothing(parse: string -> Option<DateTime>, articles: seq<Row>,
                                   now: Instant, j: nat)
    requires AllAware(parse, articles)
    requires j < |articles|
    ensures var sections := BucketArticles(parse, articles, now).value;
            exists i :: 0 <= i < |sections| &&
              sections[i].heading == HeadingOf(parse, now, articles[j]) &&
              articles[j] in sections[i].items
  {
    var sections := BucketArticles(parse, articles, now).value;
    var h := HeadingOf(parse, now, articles[j]);
    var s := SortedSection(parse, articles, now, h);
    SectionsAreSortedBuckets(parse, articles, now);
    SortedSectionCount(parse, articles, now, h, articles[j]);
    assert articles[j] in multiset(s.items);
    assert s in sections;
    var i :| 0 <= i < |sections| && sections[i] == s;
  }

  /** The sections are non-empty, come in the fixed order hour, 6 hours, 24 hours,
      and each is sorted newest first while articles with equal timestamps keep
      their input order. */
  lemma BucketArticlesOrder(parse: string -> Option<DateTime>, articles: seq<Row>, now: Instant)
    requires AllAware(parse, articles)
    ensures var sections := BucketArticles(parse, articles, now).value;
            && (forall i :: 0 <= i < |sections| ==> |sections[i].items| > 0)
            && (forall i, j :: 0 <= i < j < |sections| ==>
                  sections[i].heading.Rank() < sections[j].heading.Rank())
            && (forall i :: 0 <= i < |sections| ==>
                  StableSort.Descending(SortKey(parse), sections[i].items))
            && (forall i, k :: 0 <= i < |sections| ==>
                  StableSort.WithKey(SortKey(parse), sections[i].items, k)
                  == StableSort.WithKey(SortKey(parse),
                                        Bucket(parse, articles, now, sections[i].heading), k))
  {
    var sections := BucketArticles(parse, articles, now).value;
    var key := SortKey(parse);
    SectionsAreSortedBuckets(parse, articles, now);
    forall i | 0 <= i < |sections|
      ensures StableSort.Descending(key, sections[i].items)
      ensures forall k :: StableSort.WithKey(key, sections[i].items, k)
                       == StableSort.WithKey(key, Bucket(parse, articles, now, sections[i].heading), k)
    {
      StableSort.SortDescCorrect(key, Bucket(parse, articles, now, sections[i].heading));
    }
  }

  /** An article with an empty or unparseable lastModified is never rejected: it
      goes under "In the last 24 hours" for any clock past the sentinel's first
      six hours. */
  lemma UnknownAgeIsLastDay(parse: string -> Option<DateTime>, a: Row, now: Instant)
    requires Get(a, LAST_MODIFIED) == "" || parse(ReplaceZ(Get(a, LAST_MODIFIED))).None?
    requires now > MIN_INSTANT + SIX_HOURS
    ensures ArticleDt(parse, a) == Aware(MIN_INSTANT)
    ensures HeadingOf(parse, now, a) == LastDay
  {
  }

  /** The timestamp shown on an article card. */
  datatype Stamp = NotAvailable | Local(dt: DateTime, zone: string)

  /** An article card, before HTML escaping and markup. */
  datatype Card = Card(url: string, source: string, headline: string, section: string,
                       lastUpdated: Stamp)

  /** The fields every card shows, with the timestamp still "N/A": the URL, the
      source ("Unknown" when absent), the headline and the section. */
  function CardFields(a: Row): Card {
    Card(Get(a, WEB_URL), GetOr(a, SOURCE, "Unknown"), Get(a, HEADLINE), Get(a, SECTION_NAME),
         NotAvailable)
  }

  /** `_render_article_card` as written: a non-empty lastModified goes to
      `fromisoformat` outside any try, so an unparseable one raises ValueError. */
  function RenderCardAsWritten(parse: string -> Option<DateTime>, a: Row, zone: string)
    : (r: Result<Card, Error>)
    ensures r.Success? && r.value.lastUpdated == NotAvailable <==> Get(a, LAST_MODIFIED) == ""
    ensures r.Failure? <==> Get(a, LAST_MODIFIED) != "" && parse(ReplaceZ(Get(a, LAST_MODIFIED))).None?
  {
    var raw := Get(a, LAST_MODIFIED);
    var card := CardFields(a);
    if raw == "" then Success(card)
    else match parse(ReplaceZ(raw))
      case None => Failure(ValueError("Invalid isoformat string"))
      case Some(dt) => Success(card.(lastUpdated := Local(dt, zone)))
  }

  /** A pass-through date that the RSS normaliser could not convert is accepted by
      bucketing but makes the card renderer raise, aborting the whole e-mail. */
  lemma RenderCardAsWrittenRejectsPassThroughDate()
    ensures var parse := (s: string) => None;
            var a := map[LAST_MODIFIED := "Monday"];
            && BucketArticles(parse, [a], 0).Success?
            && RenderCardAsWritten(parse, a, "Europe/Berlin").Failure?
  {
    var parse := (s: string) => None;
    var a := map[LAST_MODIFIED := "Monday"];
    assert Get(a, LAST_MODIFIED) == "Monday";
    assert AllAware(parse, [a]);
  }

  /** The card renderer with the timestamp read as bucketing reads it: "N/A"
      exactly when the age is unknown (empty or unparseable), so it accepts every
      article that bucketing accepts. */
  function RenderCard(parse: string -> Option<DateTime>, a: Row, zone: string): (c: Card)
    ensures c.lastUpdated == NotAvailable <==>
            Get(a, LAST_MODIFIED) == "" || parse(ReplaceZ(Get(a, LAST_MODIFIED))).None?
    ensures c.lastUpdated != NotAvailable ==>
            c.lastUpdated == Local(ArticleDt(parse, a), zone)
    ensures RenderCardAsWritten(parse, a, zone).Success? ==>
            RenderCardAsWritten(parse, a, zone).value == c
    ensures c.source == GetOr(a, SOURCE, "Unknown")
  {
    var raw := Get(a, LAST_MODIFIED);
    var card := CardFields(a);
    if raw == "" then card
    else match parse(ReplaceZ(raw))
      case None => card
      case Some(dt) => card.(lastUpdated := Local(dt, zone))
  }

  datatype RenderedSection = RenderedSection(heading: string, cards: seq<Card>)

  datatype Email = Email(sender: string, recipient: string, subject: string,
                         greeting: string, total: nat, sections: seq<RenderedSection>)

  /** What `send_email_for_user` does short of the transport: return early, raise,
      or hand a composed e-mail to Gmail. */
  datatype SendOutcome = NothingToSend | Raised(error: Error) | Ready(email: Email)

  function RenderSection(parse: string -> Option<DateTime>, s: Section, zone: string)
    : (r: RenderedSection)
  {
    RenderedSection(s.heading.Text(),
                    seq(|s.items|, i requires 0 <= i < |s.items| => RenderCard(parse, s.items[i], zone)))
  }

  function CardCount(sections: seq<RenderedSection>): nat {
    if |sections| == 0 then 0 else |sections[0].cards| + CardCount(sections[1..])
  }

  lemma {:induction false} CardCountMatches(parse: string -> Option<DateTime>,
                                            sections: seq<Section>, zone: string)
    ensures CardCount(seq(|sections|, i requires 0 <= i < |sections| =>
                        RenderSection(parse, sections[i], zone)))
         == |Flatten(sections)|
  {
    if |sections| > 0 {
      var rendered := seq(|sections|, i requires 0 <= i < |sections| =>
                        RenderSection(parse, sections[i], zone));
      var tail := sections[1..];
      CardCountMatches(parse, tail, zone);
      assert rendered[1..] == seq(|tail|, i requires 0 <= i < |tail| =>
                                RenderSection(parse, tail[i], zone));
    }
  }

  function Greeting(userName: string): string {
    if userName != "" then "Hi " + userName + "," else "Hi,"
  }

  /** An article whose card `_render_article_card` as written cannot render: a
      non-empty lastModified that `fromisoformat` rejects. */
  predicate Unrenderable(parse: string -> Option<DateTime>, a: Row) {
    Get(a, LAST_MODIFIED) != "" && parse(ReplaceZ(Get(a, LAST_MODIFIED))).None?
  }

  predicate AnyUnrenderable(parse: string -> Option<DateTime>, items: seq<Row>) {
    exists i :: 0 <= i < |items| && Unrenderable(parse, items[i])
  }

  lemma {:induction false} AnyUnrenderableAppend(parse: string -> Option<DateTime>,
                                                 a: seq<Row>, b: seq<Row>)
    ensures AnyUnrenderable(parse, a + b)
            <==> AnyUnrenderable(parse, a) || AnyUnrenderable(parse, b)
  {
    if AnyUnrenderable(parse, a + b) {
      var i :| 0 <= i < |a + b| && Unrenderable(parse, (a + b)[i]);
      if i >= |a| {
        assert b[i - |a|] == (a + b)[i];
      }
    }
    if AnyUnrenderable(parse, a) {
      var i :| 0 <= i < |a| && Unrenderable(parse, a[i]);
      assert (a + b)[i] == a[i];
    }
    if AnyUnrenderable(parse, b) {
      var i :| 0 <= i < |b| && Unrenderable(parse, b[i]);
      assert (a + b)[|a| + i] == b[i];
    }
  }

  lemma AnyUnrenderableCons(parse: string -> Option<DateTime>, items: seq<Row>)
    requires |items| > 0
    ensures AnyUnrenderable(parse, items)
            <==> Unrenderable(parse, items[0]) || AnyUnrenderable(parse, items[1..])
  {
    AnyUnrenderableAppend(parse, [items[0]], items[1..]);
    assert [items[0]] + items[1..] == items;
    assert AnyUnrenderable(parse, [items[0]]) <==> Unrenderable(parse, items[0]) by {
      assert [items[0]][0] == items[0];
    }
  }

  /** Whether some article is unrenderable depends only on which articles there
      are, not on their order. */
  lemma AnyUnrenderablePermutation(parse: string -> Option<DateTime>, a: seq<Row>, b: seq<Row>)
    requires multiset(a) == multiset(b)
    ensures AnyUnrenderable(parse, a) <==> AnyUnrenderable(parse, b)
  {
    if AnyUnrenderable(parse, a) {
      var i :| 0 <= i < |a| && Unrenderable(parse, a[i]);
      assert a[i] in multiset(b);
      var j :| 0 <= j < |b| && b[j] == a[i];
    }
    if AnyUnrenderable(parse, b) {
      var i :| 0 <= i < |b| && Unrenderable(parse, b[i]);
      assert b[i] in multiset(a);
      var j :| 0 <= j < |a| && a[j] == b[i];
    }
  }

  /** The cards of one section as written: rendered in order, and the first card
      that raises aborts the section. */
  function RenderCardsAsWritten(parse: string -> Option<DateTime>, items: seq<Row>, zone: string)
    : (r: Result<seq<Card>, Error>)
    ensures r.Failure? <==> AnyUnrenderable(parse, items)
    ensures r.Failure? ==> r.error.ValueError?
    ensures r.Success? ==>
              r.value == seq(|items|, i requires 0 <= i < |items| => RenderCard(parse, items[i], zone))
    decreases |items|
  {
    if |items| == 0 then Success([])
    else
      AnyUnrenderableCons(parse, items);
      match RenderCardAsWritten(parse, items[0], zone)
      case Failure(e) => Failure(e)
      case Success(c) =>
        match RenderCardsAsWritten(parse, items[1..], zone)
        case Failure(e) => Failure(e)
        case Success(cs) => Success([c] + cs)
  }

  /** Rendering the first section in front of the rendered rest renders them all. */
  lemma RenderedSectionsCons(parse: string -> Option<DateTime>, sections: seq<Section>,
                             zone: string, cards: seq<Card>, rest: seq<RenderedSection>)
    requires |sections| > 0
    requires cards == seq(|sections[0].items|, i requires 0 <= i < |sections[0].items| =>
                          RenderCard(parse, sections[0].items[i], zone))
    requires rest == seq(|sections| - 1, i requires 0 <= i < |sections| - 1 =>
                         RenderSection(parse, sections[1..][i], zone))
    ensures [RenderedSection(sections[0].heading.Text(), cards)] + rest
            == seq(|sections|, i requires 0 <= i < |sections| => RenderSection(parse, sections[i], zone))
  {
    var all := seq(|sections|, i requires 0 <= i < |sections| => RenderSection(parse, sections[i], zone));
    assert all[0] == RenderedSection(sections[0].heading.Text(), cards);
    forall i | 0 < i < |sections|
      ensures all[i] == rest[i - 1]
    {
      assert sections[1..][i - 1] == sections[i];
    }
  }

  /** All sections as written: section by section, card by card, the first card
      that raises aborts the whole e-mail. */
  function RenderSectionsAsWritten(parse: string -> Option<DateTime>, sections: seq<Section>,
                                   zone: string): (r: Result<seq<RenderedSection>, Error>)
    ensures r.Failure? <==> AnyUnrenderable(parse, Flatten(sections))
    ensures r.Failure? ==> r.error.ValueError?
    ensures r.Success? ==>
              r.value == seq(|sections|, i requires 0 <= i < |sections| =>
                           RenderSection(parse, sections[i], zone))
    decreases |sections|
  {
    if |sections| == 0 then Success([])
    else
      AnyUnrenderableAppend(parse, sections[0].items, Flatten(sections[1..]));
      match RenderCardsAsWritten(parse, sections[0].items, zone)
      case Failure(e) => Failure(e)
      case Success(cards) =>
        match RenderSectionsAsWritten(parse, sections[1..], zone)
        case Failure(e) => Failure(e)
        case Success(rest) =>
          RenderedSectionsCons(parse, sections, zone, cards, rest);
          Success([RenderedSection(sections[0].heading.Text(), cards)] + rest)
  }

  /** `send_email_for_user` up to the hand-off, as written: no articles means no
      e-mail; a naive timestamp makes bucketing raise TypeError; otherwise a
      non-empty lastModified that `fromisoformat` rejects makes card rendering
      raise ValueError; only when neither happens is an e-mail composed, and it
      is the one the corrected renderer composes. */
  function SendEmailForUser(parse: string -> Option<DateTime>, articles: seq<Row>,
                            sender: string, recipient: string, userName: string,
                            userTimezone: string, now: Instant): (r: SendOutcome)
    ensures articles == [] <==> r == NothingToSend
    ensures r.Raised? ==> r.error.TypeError? || r.error.ValueError?
    ensures r.Raised? && r.error.TypeError? <==> articles != [] && !AllAware(parse, articles)
    ensures r.Raised? && r.error.ValueError? <==>
              articles != [] && AllAware(parse, articles) && AnyUnrenderable(parse, articles)
    ensures r.Ready? ==>
              r == SendEmailForUserCorrected(parse, articles, sender, recipient, userName,
                                             userTimezone, now)
  {
    if |articles| == 0 then NothingToSend
    else
      var subject := "New Articles for " + userName + " (" + Decimal.NatToDecimal(|articles|) + ")";
      match BucketArticles(parse, articles, now)
      case Failure(e) => Raised(e)
      case Success(sections) =>
        BucketArticlesPartition(parse, articles, now);
        AnyUnrenderablePermutation(parse, Flatten(sections), articles);
        match RenderSectionsAsWritten(parse, sections, userTimezone)
        case Failure(e) => Raised(e)
        case Success(rendered) =>
          Ready(Email(sender, recipient, subject, Greeting(userName), |articles|, rendered))
  }

  /** An article whose pass-through date the RSS normaliser left as "Monday" is
      accepted by bucketing but aborts the whole e-mail as written; the corrected
      composer sends it with an "N/A" timestamp. */
  lemma SendEmailForUserRejectsPassThroughDate()
    ensures var parse := (s: string) => None;
            var a := map[LAST_MODIFIED := "Monday"];
            && SendEmailForUser(parse, [a], "me", "you", "Ann", "Europe/Berlin", 0).Raised?
            && SendEmailForUser(parse, [a], "me", "you", "Ann", "Europe/Berlin", 0).error.ValueError?
            && SendEmailForUserCorrected(parse, [a], "me", "you", "Ann", "Europe/Berlin", 0).Ready?
  {
    var parse := (s: string) => None;
    var a := map[LAST_MODIFIED := "Monday"];
    assert Get(a, LAST_MODIFIED) == "Monday";
    assert AllAware(parse, [a]);
    assert Unrenderable(parse, [a][0]);
  }

  /** `send_email_for_user` with the corrected card renderer: no articles means no
      e-mail; a naive timestamp raises; otherwise the e-mail's subject carries the
      user name and the article count in decimal, the greeting falls back to "Hi,"
      for an empty name, and the cards across all sections number exactly the
      articles. */
  function SendEmailForUserCorrected(parse: string -> Option<DateTime>, articles: seq<Row>,
                                     sender: string, recipient: string, userName: string,
                                     userTimezone: string, now: Instant): (r: SendOutcome)
    ensures articles == [] <==> r == NothingToSend
    ensures r.Raised? ==> r.error.TypeError?
    ensures r.Raised? <==> articles != [] && !AllAware(parse, articles)
    ensures r.Ready? ==>
              && r.email.subject
                 == "New Articles for " + userName + " (" + Decimal.NatToDecimal(|articles|) + ")"
              && r.email.greeting == (if userName == "" then "Hi," else "Hi " + userName + ",")
              && r.email.total == |articles|
              && CardCount(r.email.sections) == |articles|
              && r.email.sender == sender && r.email.recipient == recipient
  {
    if |articles| == 0 then NothingToSend
    else
      var subject := "New Articles for " + userName + " (" + Decimal.NatToDecimal(|articles|) + ")";
      match BucketArticles(parse, articles, now)
      case Failure(e) => Raised(e)
      case Success(sections) =>
        BucketArticlesPartition(parse, articles, now);
        CardCountMatches(parse, sections, userTimezone);
        var rendered := seq(|sections|, i requires 0 <= i < |sections| =>
                          RenderSection(parse, sections[i], userTimezone));
        Ready(Email(sender, recipient, subject, Greeting(userName), |articles|, rendered))
  }
}
