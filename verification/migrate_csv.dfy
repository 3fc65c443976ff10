/** The one-off CSV import (db/migrate_csv.py). The CSV is the parameter `csv`:
    None when the file does not exist, otherwise its rows as pandas reads them. */
module MigrateCsv {
  import opened Wrappers
  import opened Rows
  import opened Models

  /** A CSV cell: text, or a blank that pandas reads as NaN. */
  datatype Cell = Text(text: string) | Blank

  type CsvRow = map<string, Cell>

  /** `str(cell)`; `str(NaN)` is "nan". */
  function Str(c: Cell): string {
    match c
    case Text(s) => s
    case Blank => "nan"
  }

  /** `str(row.get(key, ""))` */
  function Field(row: CsvRow, key: string): string {
    if key in row then Str(row[key]) else ""
  }

  function HashOf(row: CsvRow): string { Field(row, HASH) }

  /** The column mapping: lastModified, sectionName and webUrl are renamed, the
      other keys keep their names, and every value is stringified. Read back with
      `to_dict`, each stored column of the imported article is the cell under the
      same key, stringified, and a missing key becomes "". */
  function ToArticle(row: CsvRow): (a: Article)
    ensures forall k :: k in STORED_KEYS ==> ToDict(a)[k] == (if k in row then Str(row[k]) else "")
  {
    Article(Field(row, DATE_ADDED), Field(row, LAST_MODIFIED), Field(row, SOURCE),
            Field(row, SECTION_NAME), Field(row, HEADLINE), Field(row, WEB_URL), HashOf(row))
  }

  /** The rows the loop adds: those whose hash is not in `existing`, in order.
      `existing` is read once before the loop and never updated. */
  function Pending(rows: seq<CsvRow>, existing: set<string>): (p: seq<CsvRow>)
    ensures |p| <= |rows|
    ensures forall i :: 0 <= i < |p| ==> HashOf(p[i]) !in existing
    ensures forall r :: r in p ==> r in rows
  {
    if |rows| == 0 then []
    else (if HashOf(rows[0]) in existing then [] else [rows[0]]) + Pending(rows[1..], existing)
  }

  /** The number of rows the loop skips. */
  function SkippedCount(rows: seq<CsvRow>, existing: set<string>): nat {
    if |rows| == 0 then 0
    else (if HashOf(rows[0]) in existing then 1 else 0) + SkippedCount(rows[1..], existing)
  }

  function ToArticles(rows: seq<CsvRow>): (articles: seq<Article>)
    ensures |articles| == |rows|
    ensures forall i :: 0 <= i < |rows| ==> articles[i] == ToArticle(rows[i])
  {
    seq(|rows|, i requires 0 <= i < |rows| => ToArticle(rows[i]))
  }

  lemma {:induction false} AddedPlusSkipped(rows: seq<CsvRow>, existing: set<string>)
    ensures |Pending(rows, existing)| + SkippedCount(rows, existing) == |rows|
  {
    if |rows| > 0 {
      AddedPlusSkipped(rows[1..], existing);
    }
  }

  /** Missing file, committed import with its counts, or a failed commit that was
      rolled back and re-raised. */
  datatype Outcome =
    | NoCsvFile
    | Migrated(store: Store, added: nat, skipped: nat)
    | MigrationFailed(error: Error)

  /** `migrate`: a missing CSV changes nothing; otherwise a row is inserted exactly
      when its hash is not already stored, added and skipped sum to the row count,
      and the one commit succeeds exactly when the inserted hashes are pairwise
      distinct (duplicates inside the CSV roll everything back and raise). */
  function Migrate(st: Store, csv: Option<seq<CsvRow>>): (o: Outcome)
    ensures csv.None? <==> o == NoCsvFile
    ensures o.Migrated? <==>
              csv.Some? && Distinct(ToArticles(Pending(csv.value, Hashes(st))), ArticleHash)
    ensures o.Migrated? ==>
              && o.store == st.(articles := st.articles + ToArticles(Pending(csv.value, Hashes(st))))
              && o.added + o.skipped == |csv.value|
              && o.added == |Pending(csv.value, Hashes(st))|
    ensures o.MigrationFailed? ==> o.error.IntegrityError?
    ensures o.Migrated? && Valid(st) ==> Valid(o.store)
  {
    match csv
    case None => NoCsvFile
    case Some(rows) =>
      var existing := Hashes(st);
      var pending := Pending(rows, existing);
      var added := ToArticles(pending);
      AddedPlusSkipped(rows, existing);
      assert Fresh(st.articles, added, ArticleHash) <==> Distinct(added, ArticleHash) by {
        forall i, j | 0 <= i < |added| && 0 <= j < |st.articles|
          ensures ArticleHash(added[i]) != ArticleHash(st.articles[j])
        {
          assert st.articles[j].hash in existing;
        }
      }
      if Fresh(st.articles, added, ArticleHash) then
        DistinctAppend(st.articles, added, ArticleHash);
        Migrated(st.(articles := st.articles + added), |pending|, SkippedCount(rows, existing))
      else
        MigrationFailed(IntegrityError("UNIQUE constraint failed: news_articles.hash"))
  }

  /** After a committed import, importing the same CSV again adds nothing and
      skips every row. */
  lemma RerunAddsNothing(st: Store, rows: seq<CsvRow>)
    requires Migrate(st, Some(rows)).Migrated?
    ensures var st' := Migrate(st, Some(rows)).store;
            Migrate(st', Some(rows)) == Migrated(st', 0, |rows|)
  {
    var st' := Migrate(st, Some(rows)).store;
    forall i | 0 <= i < |rows| ensures HashOf(rows[i]) in Hashes(st') {
      ImportedRowStored(st, rows, i);
    }
    NothingPendingWhenAllStored(rows, Hashes(st'));
    AddedPlusSkipped(rows, Hashes(st'));
    assert st'.articles + ToArticles([]) == st'.articles;
  }

  /** After a committed import, the hash of every CSV row is stored. */
  lemma ImportedRowStored(st: Store, rows: seq<CsvRow>, i: nat)
    requires Migrate(st, Some(rows)).Migrated?
    requires i < |rows|
    ensures HashOf(rows[i]) in Hashes(Migrate(st, Some(rows)).store)
  {
    var st' := Migrate(st, Some(rows)).store;
    var existing := Hashes(st);
    var pending := Pending(rows, existing);
    var h := HashOf(rows[i]);
    if h !in existing {
      PendingKeeps(rows, existing, i);
      var k :| 0 <= k < |pending| && pending[k] == rows[i];
      assert st'.articles[|st.articles| + k].hash == h;
    } else {
      var j :| 0 <= j < |st.articles| && st.articles[j].hash == h;
      assert st'.articles[j] == st.articles[j];
    }
  }

  lemma {:induction false} PendingKeeps(rows: seq<CsvRow>, existing: set<string>, i: nat)
    requires i < |rows| && HashOf(rows[i]) !in existing
    ensures rows[i] in Pending(rows, existing)
  {
    if i > 0 {
      PendingKeeps(rows[1..], existing, i - 1);
    }
  }

  lemma {:induction false} NothingPendingWhenAllStored(rows: seq<CsvRow>, existing: set<string>)
    requires forall i :: 0 <= i < |rows| ==> HashOf(rows[i]) in existing
    ensures Pending(rows, existing) == []
  {
    if |rows| > 0 {
      NothingPendingWhenAllStored(rows[1..], existing);
    }
  }

  /** The first row is queued or skipped, then the loop goes on with the rest. */
  lemma PendingCons(rows: seq<CsvRow>, existing: set<string>)
    requires |rows| > 0
    ensures Pending(rows, existing)
            == (if HashOf(rows[0]) in existing then [] else [rows[0]]) + Pending(rows[1..], existing)
  {
  }

  /** The loop handles the rows one at a time, so queuing a concatenation
      queues each part in turn. */
  lemma {:induction false} PendingAppend(a: seq<CsvRow>, b: seq<CsvRow>, existing: set<string>)
    ensures Pending(a + b, existing) == Pending(a, existing) + Pending(b, existing)
    decreases |a|
  {
    if |a| == 0 {
      assert a + b == b;
    } else {
      var ab := a + b;
      assert ab[0] == a[0] && ab[1..] == a[1..] + b;
      PendingCons(ab, existing);
      PendingCons(a, existing);
      PendingAppend(a[1..], b, existing);
      var head := if HashOf(a[0]) in existing then [] else [a[0]];
      assert head + (Pending(a[1..], existing) + Pending(b, existing))
          == (head + Pending(a[1..], existing)) + Pending(b, existing);
    }
  }

  /** Unlike deduplication, the loop does not add a hash to its set once a row is
      queued: any two CSV rows with the same hash that is not stored yet are both
      queued, and the commit rolls the whole import back. */
  lemma DuplicateNewHashesRollBack(st: Store, rows: seq<CsvRow>, i: nat, j: nat)
    requires i < j < |rows|
    requires HashOf(rows[i]) == HashOf(rows[j]) && HashOf(rows[i]) !in Hashes(st)
    ensures Migrate(st, Some(rows)).MigrationFailed?
  {
    var existing := Hashes(st);
    var front, back := rows[..j], rows[j..];
    assert rows == front + back;
    PendingAppend(front, back, existing);
    assert front[i] == rows[i];
    PendingKeeps(front, existing, i);
    var p1 := Pending(front, existing);
    var k :| 0 <= k < |p1| && p1[k] == rows[i];
    assert back[0] == rows[j];
    assert back == [rows[j]] + back[1..];
    PendingAppend([rows[j]], back[1..], existing);
    assert Pending([rows[j]], existing) == [rows[j]] by {
      assert [rows[j]][1..] == [];
    }
    var pending := Pending(rows, existing);
    assert pending[k] == rows[i] && pending[|p1|] == rows[j];
    var added := ToArticles(pending);
    assert ArticleHash(added[k]) == ArticleHash(added[|p1|]);
  }
}
