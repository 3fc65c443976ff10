/** Article persistence (utils/storage.py). The database is either reachable,
    holding a store, or unreachable, in which case every query and commit raises. */
module Storage {
  import opened Rows
  import opened Models

  datatype Db = Reachable(store: Store) | Unreachable

  /** The column values `save_articles` takes from a row, a missing key giving "":
      read back with `to_dict`, each of the seven stored keys holds the row's value. */
  function FromRow(row: Row): (a: Article)
    ensures forall k :: k in STORED_KEYS ==> ToDict(a)[k] == Get(row, k)
  {
    Article(Get(row, DATE_ADDED), Get(row, LAST_MODIFIED), Get(row, SOURCE),
            Get(row, SECTION_NAME), Get(row, HEADLINE), Get(row, WEB_URL), Get(row, HASH))
  }

  function FromRows(rows: seq<Row>): (articles: seq<Article>)
    ensures |articles| == |rows|
    ensures forall i :: 0 <= i < |rows| ==> articles[i] == FromRow(rows[i])
  {
    seq(|rows|, i requires 0 <= i < |rows| => FromRow(rows[i]))
  }

  /** The `hash` values of a batch of rows. */
  function RowHashes(rows: seq<Row>): set<string> {
    set i | 0 <= i < |rows| :: Get(rows[i], HASH)
  }

  /** `load_existing_hashes`: every stored article hash, or the empty set when the
      read fails. */
  function LoadExistingHashes(db: Db): (hashes: set<string>)
    ensures db.Unreachable? ==> hashes == {}
    ensures db.Reachable? ==>
              forall h :: h in hashes <==> exists i :: 0 <= i < |db.store.articles| &&
                                                       db.store.articles[i].hash == h
  {
    match db
    case Unreachable => {}
    case Reachable(st) => Hashes(st)
  }

  /** `save_articles`: an empty batch is a no-op; otherwise the rows are added in
      one transaction whose commit fails, and is rolled back, when a hash would
      repeat. Nothing escapes: failure leaves the database as it was. */
  function SaveArticles(db: Db, rows: seq<Row>): (db': Db)
    ensures rows == [] ==> db' == db
    ensures db' == db ||
            (db.Reachable? && db' == Reachable(db.store.(articles := db.store.articles + FromRows(rows))))
    ensures db' != db <==>
            db.Reachable? && rows != [] && Fresh(db.store.articles, FromRows(rows), ArticleHash)
    ensures db.Reachable? && db' != db ==> Hashes(db'.store) == Hashes(db.store) + RowHashes(rows)
    ensures db.Reachable? && Valid(db.store) ==> Valid(db'.store)
  {
    if rows == [] then db
    else match db
      case Unreachable => db
      case Reachable(st) =>
        var added := FromRows(rows);
        if Fresh(st.articles, added, ArticleHash) then
          DistinctAppend(st.articles, added, ArticleHash);
          var st' := st.(articles := st.articles + added);
          assert Hashes(st') == Hashes(st) + RowHashes(rows) by {
            forall h | h in Hashes(st')
              ensures h in Hashes(st) + RowHashes(rows)
            {
              var i :| 0 <= i < |st'.articles| && st'.articles[i].hash == h;
              if i >= |st.articles| {
                assert h == Get(rows[i - |st.articles|], HASH);
              }
            }
            forall h | h in Hashes(st)
              ensures h in Hashes(st')
            {
              var i :| 0 <= i < |st.articles| && st.articles[i].hash == h;
              assert st'.articles[i] == st.articles[i];
            }
            forall h | h in RowHashes(rows)
              ensures h in Hashes(st')
            {
              var i :| 0 <= i < |rows| && Get(rows[i], HASH) == h;
              assert st'.articles[|st.articles| + i].hash == h;
            }
          }
          Reachable(st')
        else db
  }

  /** `to_dict` undoes the storage mapping: storing an article's dictionary gives
      back the same article. */
  lemma ToDictThenStoreRoundTrip(a: Article)
    ensures FromRow(ToDict(a)) == a
  {
  }

  /** A row with exactly the seven stored keys, saved and read back with
      `to_dict`, comes back unchanged. */
  lemma StoreThenToDictRoundTrip(row: Row)
    ensures row.Keys == STORED_KEYS ==> ToDict(FromRow(row)) == row
  {
    var d := ToDict(FromRow(row));
    if row.Keys == STORED_KEYS {
      assert forall k :: k in row ==> d[k] == row[k];
    }
  }
}
