/** The ingestion path as the storage and dedup helpers compose: load the stored
    hashes, deduplicate a fetched batch against them, save the new rows. */
module Ingest {
  import opened Rows
  import opened Models
  import opened Storage
  import Dedup

  /** One ingestion. The hash query and the save open separate sessions, so
      `readOk` says whether the query succeeded; when it fails the stored hashes
      read as empty. Against an unreachable database nothing happens. After a
      successful read the deduplicated rows always commit, nothing but the articles
      table changes, and the stored hashes become the old ones plus every
      fingerprint of the batch. After a failed read the batch is deduplicated only
      against itself, and the save commits exactly when those rows are non-empty
      and share no hash with a stored article; otherwise the rollback drops them
      all. */
  function Ingest(db: Db, readOk: bool, batch: seq<Row>, sha: string -> string,
                  clock: nat -> string): (db': Db)
    ensures db.Unreachable? ==> db' == Unreachable
    ensures db.Reachable? && readOk ==>
              db' == Reachable(db.store.(articles := db.store.articles
                     + FromRows(Dedup.NewRows(sha, batch, Hashes(db.store), clock))))
    ensures db.Reachable? && readOk ==>
              Hashes(db'.store) == Hashes(db.store) + Dedup.Fingerprints(sha, batch)
    ensures db.Reachable? && !readOk ==>
              var rows := Dedup.NewRows(sha, batch, {}, clock);
              && (db' == db || db' == Reachable(db.store.(articles := db.store.articles + FromRows(rows))))
              && (db' != db <==> rows != [] && Fresh(db.store.articles, FromRows(rows), ArticleHash))
  {
    var rows := Dedup.NewRows(sha, batch, if readOk then LoadExistingHashes(db) else {}, clock);
    if db.Reachable? && readOk then
      DedupedRowsCommit(db.store, batch, sha, clock);
      SaveArticles(db, rows)
    else SaveArticles(db, rows)
  }

  /** The hashes of the deduplicated rows are those of the kept articles. */
  lemma NewRowHashes(sha: string -> string, batch: seq<Row>, seen: set<string>,
                     clock: nat -> string)
    ensures RowHashes(Dedup.NewRows(sha, batch, seen, clock))
         == Dedup.KeptFingerprints(sha, batch, seen)
  {
    var rows := Dedup.NewRows(sha, batch, seen, clock);
    var idx := Dedup.Kept(sha, batch, seen);
    Dedup.NewRowsAreFreshAndDistinct(sha, batch, seen, clock);
    forall h | h in RowHashes(rows) ensures h in Dedup.KeptFingerprints(sha, batch, seen) {
      var k :| 0 <= k < |rows| && Get(rows[k], HASH) == h;
      assert HASH in rows[k] && rows[k][HASH] == h;
      assert h == Dedup.Fingerprint(sha, batch[idx[k]]);
    }
    forall h | h in Dedup.KeptFingerprints(sha, batch, seen) ensures h in RowHashes(rows) {
      var k :| 0 <= k < |idx| && h == Dedup.Fingerprint(sha, batch[idx[k]]);
      assert HASH in rows[k] && rows[k][HASH] == h;
      assert Get(rows[k], HASH) == h;
    }
  }

  /** Rows produced by deduplication against the stored hashes never violate the
      unique hash constraint, so against a reachable database the save commits, and
      afterwards the stored hashes are the old ones plus every fingerprint of the
      batch. */
  lemma DedupedRowsCommit(st: Store, batch: seq<Row>, sha: string -> string, clock: nat -> string)
    ensures var rows := Dedup.NewRows(sha, batch, Hashes(st), clock);
            var db' := SaveArticles(Reachable(st), rows);
            && db' == Reachable(st.(articles := st.articles + FromRows(rows)))
            && Hashes(db'.store) == Hashes(st) + Dedup.Fingerprints(sha, batch)
  {
    var seen := Hashes(st);
    var rows := Dedup.NewRows(sha, batch, seen, clock);
    var added := FromRows(rows);
    Dedup.NewRowsAreFreshAndDistinct(sha, batch, seen, clock);
    Dedup.SeenGrowsByKeptHashes(sha, batch, seen);
    NewRowHashes(sha, batch, seen, clock);
    forall i | 0 <= i < |added| ensures added[i].hash == rows[i][HASH] {
      assert HASH in rows[i];
    }
    forall i, j | 0 <= i < |added| && 0 <= j < |st.articles|
      ensures ArticleHash(added[i]) != ArticleHash(st.articles[j])
    {
      assert st.articles[j].hash in seen;
    }
    assert Fresh(st.articles, added, ArticleHash);
    if rows == [] {
      assert st.articles + added == st.articles;
      assert Dedup.KeptFingerprints(sha, batch, seen) == {};
    }
  }

  /** After a failed hash read, a batch holding any already stored article stores
      nothing at all: its first copy survives deduplication against the empty set,
      so the commit hits the unique hash and the rollback also drops every new
      article of the batch. */
  lemma FailedReadDropsBatch(st: Store, batch: seq<Row>, sha: string -> string,
                             clock: nat -> string, i: nat)
    requires i < |batch| && Dedup.Fingerprint(sha, batch[i]) in Hashes(st)
    ensures Ingest(Reachable(st), false, batch, sha, clock) == Reachable(st)
  {
    var rows := Dedup.NewRows(sha, batch, {}, clock);
    var h := Dedup.Fingerprint(sha, batch[i]);
    Dedup.SeenGrowsByKeptHashes(sha, batch, {});
    NewRowHashes(sha, batch, {}, clock);
    assert h in Dedup.Fingerprints(sha, batch);
    assert h in RowHashes(rows);
    var k :| 0 <= k < |rows| && Get(rows[k], HASH) == h;
    var j :| 0 <= j < |st.articles| && st.articles[j].hash == h;
    Dedup.NewRowsAreFreshAndDistinct(sha, batch, {}, clock);
    assert HASH in rows[k];
    assert ArticleHash(FromRows(rows)[k]) == ArticleHash(st.articles[j]);
  }

  /** Ingesting the same batch twice, with the same read outcome, stores what
      ingesting it once stores. */
  lemma IngestIsIdempotent(db: Db, readOk: bool, batch: seq<Row>, sha: string -> string,
                           clock: nat -> string)
    ensures Ingest(Ingest(db, readOk, batch, sha, clock), readOk, batch, sha, clock)
         == Ingest(db, readOk, batch, sha, clock)
  {
    var db1 := Ingest(db, readOk, batch, sha, clock);
    if db.Reachable? && readOk {
      var seen := Hashes(db1.store);
      Dedup.NothingKeptWhenAllSeen(sha, batch, seen);
      assert Dedup.NewRows(sha, batch, seen, clock) == [];
    } else if db.Reachable? && db1 != db {
      var rows := Dedup.NewRows(sha, batch, {}, clock);
      Dedup.NewRowsAreFreshAndDistinct(sha, batch, {}, clock);
      var n := |db.store.articles|;
      assert db1.store.articles[n] == FromRows(rows)[0];
      assert HASH in rows[0];
      assert ArticleHash(FromRows(rows)[0]) == ArticleHash(db1.store.articles[n]);
    }
  }

  /** A digest that always yields 64 characters keeps every stored hash within the
      declared width of the column, whatever the read outcome. */
  lemma IngestKeepsHashWidth(db: Db, readOk: bool, batch: seq<Row>, sha: string -> string,
                             clock: nat -> string)
    requires forall s :: |sha(s)| == HASH_WIDTH
    requires db.Reachable?
    requires forall i :: 0 <= i < |db.store.articles| ==> |db.store.articles[i].hash| <= HASH_WIDTH
    ensures var st' := Ingest(db, readOk, batch, sha, clock).store;
            forall i :: 0 <= i < |st'.articles| ==> |st'.articles[i].hash| <= HASH_WIDTH
  {
    var seen := if readOk then Hashes(db.store) else {};
    var added := FromRows(Dedup.NewRows(sha, batch, seen, clock));
    AddedHashWidth(sha, batch, seen, clock);
    var st' := Ingest(db, readOk, batch, sha, clock).store;
    assert st' == db.store || st'.articles == db.store.articles + added;
  }

  /** Every article built from deduplicated rows carries a digest output as its
      hash. */
  lemma AddedHashWidth(sha: string -> string, batch: seq<Row>, seen: set<string>,
                       clock: nat -> string)
    requires forall s :: |sha(s)| == HASH_WIDTH
    ensures var added := FromRows(Dedup.NewRows(sha, batch, seen, clock));
            forall k :: 0 <= k < |added| ==> |added[k].hash| == HASH_WIDTH
  {
    var rows := Dedup.NewRows(sha, batch, seen, clock);
    Dedup.NewRowsAreFreshAndDistinct(sha, batch, seen, clock);
    forall k | 0 <= k < |rows| ensures |FromRows(rows)[k].hash| == HASH_WIDTH {
      assert HASH in rows[k];
    }
  }
}
