/** Fingerprint deduplication (utils/dedup.py).

    The fingerprint of an article is the SHA-256 hex digest of its headline followed
    by its lastModified string, with no delimiter and a missing field read as "".
    The digest itself is the parameter `sha`: a deterministic function about which
    nothing else (in particular no injectivity) is assumed. */
module Dedup {
  import opened Rows

  function Fingerprint(sha: string -> string, a: Row): string {
    sha(Get(a, HEADLINE) + Get(a, LAST_MODIFIED))
  }

  /** The fingerprints of every article of a batch. */
  function Fingerprints(sha: string -> string, articles: seq<Row>): set<string> {
    set i | 0 <= i < |articles| :: Fingerprint(sha, articles[i])
  }

  /** The positions a deduplication keeps, in increasing order. An article is kept
      when its fingerprint is neither in `seen` nor the fingerprint of an earlier
      article of the same batch (KeptIffUnseen). Defined from the end of the batch,
      independently of the single forward pass that the source performs. */
  function Kept(sha: string -> string, articles: seq<Row>, seen: set<string>): (idx: seq<nat>)
    ensures |idx| <= |articles|
    ensures forall k :: 0 <= k < |idx| ==> idx[k] < |articles|
    ensures forall k, l :: 0 <= k < l < |idx| ==> idx[k] < idx[l]
    decreases |articles|
  {
    if |articles| == 0 then []
    else
      var n := |articles| - 1;
      var prefix := articles[..n];
      var before := Kept(sha, prefix, seen);
      if Fingerprint(sha, articles[n]) !in seen + Fingerprints(sha, prefix) then before + [n]
      else before
  }

  /** Kept, one position at a time: position i is kept exactly when the fingerprint
      of article i is in neither `seen` nor the fingerprints of the articles before it. */
  lemma {:induction false} KeptIffUnseen(sha: string -> string, articles: seq<Row>,
                                         seen: set<string>, i: nat)
    requires i < |articles|
    ensures i in Kept(sha, articles, seen) <==>
            Fingerprint(sha, articles[i]) !in seen + Fingerprints(sha, articles[..i])
    decreases |articles|
  {
    var n := |articles| - 1;
    var prefix := articles[..n];
    var before := Kept(sha, prefix, seen);
    assert Kept(sha, articles, seen) == before + [n] || Kept(sha, articles, seen) == before;
    if i < n {
      KeptIffUnseen(sha, prefix, seen, i);
      assert prefix[i] == articles[i];
      assert prefix[..i] == articles[..i];
      assert i in Kept(sha, articles, seen) <==> i in before;
    } else {
      assert n !in before;
    }
  }

  /** A kept row: a copy of the article with `date_added` and `hash` set. */
  function Stamp(a: Row, hash: string, dateAdded: string): (row: Row)
    ensures row.Keys == a.Keys + {DATE_ADDED, HASH}
    ensures row[HASH] == hash && row[DATE_ADDED] == dateAdded
    ensures forall k :: k in a && k != DATE_ADDED && k != HASH ==> row[k] == a[k]
  {
    a[DATE_ADDED := dateAdded][HASH := hash]
  }

  /** The rows a deduplication returns: the kept articles in input order, the k-th
      one stamped with the k-th clock reading. */
  function NewRows(sha: string -> string, articles: seq<Row>, seen: set<string>,
                   clock: nat -> string): (rows: seq<Row>)
  {
    var idx := Kept(sha, articles, seen);
    seq(|idx|, k requires 0 <= k < |idx| =>
      Stamp(articles[idx[k]], Fingerprint(sha, articles[idx[k]]), clock(k)))
  }

  /** The fingerprints of the kept articles. */
  function KeptFingerprints(sha: string -> string, articles: seq<Row>, seen: set<string>): set<string> {
    var idx := Kept(sha, articles, seen);
    set k | 0 <= k < |idx| :: Fingerprint(sha, articles[idx[k]])
  }

  lemma FingerprintsSnoc(sha: string -> string, articles: seq<Row>, i: nat)
    requires i < |articles|
    ensures Fingerprints(sha, articles[..i + 1])
         == Fingerprints(sha, articles[..i]) + {Fingerprint(sha, articles[i])}
  {
    var p := articles[..i + 1];
    assert p[..i] == articles[..i];
    assert p[i] == articles[i];
  }

  /** One more article extends the rows by at most that article, stamped. */
  lemma NewRowsSnoc(sha: string -> string, articles: seq<Row>, seen: set<string>,
                    clock: nat -> string, i: nat)
    requires i < |articles|
    ensures var before := NewRows(sha, articles[..i], seen, clock);
            var h := Fingerprint(sha, articles[i]);
            NewRows(sha, articles[..i + 1], seen, clock)
              == if h !in seen + Fingerprints(sha, articles[..i])
                 then before + [Stamp(articles[i], h, clock(|before|))]
                 else before
  {
    var p := articles[..i + 1];
    assert p[..i] == articles[..i];
  }

  /** One iteration of the pass, from the state after `articles[..i]` to the
      state after `articles[..i + 1]`. */
  lemma DeduplicateStep(sha: string -> string, articles: seq<Row>, seen: set<string>,
                        clock: nat -> string, i: nat, rows: seq<Row>, seenAfter: set<string>)
    requires i < |articles|
    requires seenAfter == seen + Fingerprints(sha, articles[..i])
    requires rows == NewRows(sha, articles[..i], seen, clock)
    ensures var h := Fingerprint(sha, articles[i]);
            && (h !in seenAfter ==>
                  && rows + [Stamp(articles[i], h, clock(|rows|))] == NewRows(sha, articles[..i + 1], seen, clock)
                  && seenAfter + {h} == seen + Fingerprints(sha, articles[..i + 1]))
            && (h in seenAfter ==>
                  && rows == NewRows(sha, articles[..i + 1], seen, clock)
                  && seenAfter == seen + Fingerprints(sha, articles[..i + 1]))
  {
    NewRowsSnoc(sha, articles, seen, clock, i);
    FingerprintsSnoc(sha, articles, i);
  }

  /** utils/dedup.py `deduplicate`: one forward pass that adds each new fingerprint
      to the seen set at once, so later duplicates in the batch are dropped too.
      `seenAfter` is the caller's set after the in-place additions. */
  method Deduplicate(articles: seq<Row>, seen: set<string>, sha: string -> string,
                     clock: nat -> string) returns (rows: seq<Row>, seenAfter: set<string>)
    ensures rows == NewRows(sha, articles, seen, clock)
    ensures seenAfter == seen + Fingerprints(sha, articles)
    ensures |rows| <= |articles|
  {
    rows := [];
    seenAfter := seen;
    var i := 0;
    while i < |articles|
      invariant 0 <= i <= |articles|
      invariant seenAfter == seen + Fingerprints(sha, articles[..i])
      invariant rows == NewRows(sha, articles[..i], seen, clock)
    {
      var h := Fingerprint(sha, articles[i]);
      DeduplicateStep(sha, articles, seen, clock, i, rows, seenAfter);
      if h !in seenAfter {
        rows := rows + [Stamp(articles[i], h, clock(|rows|))];
        seenAfter := seenAfter + {h};
      }
      i := i + 1;
    }
    assert articles[..i] == articles;
  }

  /** The kept articles' fingerprints are new to `seen` and pairwise distinct. */
  lemma KeptFingerprintsFreshAndDistinct(sha: string -> string, articles: seq<Row>,
                                         seen: set<string>)
    ensures var idx := Kept(sha, articles, seen);
            && (forall k :: 0 <= k < |idx| ==> Fingerprint(sha, articles[idx[k]]) !in seen)
            && (forall k, l :: 0 <= k < l < |idx| ==>
                  Fingerprint(sha, articles[idx[k]]) != Fingerprint(sha, articles[idx[l]]))
  {
    var idx := Kept(sha, articles, seen);
    forall k | 0 <= k < |idx|
      ensures Fingerprint(sha, articles[idx[k]]) !in seen
    {
      assert idx[k] in idx;
      KeptIffUnseen(sha, articles, seen, idx[k]);
    }
    forall k, l | 0 <= k < l < |idx|
      ensures Fingerprint(sha, articles[idx[k]]) != Fingerprint(sha, articles[idx[l]])
    {
      var i, j := idx[k], idx[l];
      assert j in idx;
      KeptIffUnseen(sha, articles, seen, j);
      assert articles[..j][i] == articles[i];
    }
  }

  /** Every returned row is its article plus `hash` and `date_added`, in input
      order; its hash is new to `seen`, and no two rows share a hash. */
  lemma NewRowsAreFreshAndDistinct(sha: string -> string, articles: seq<Row>,
                                   seen: set<string>, clock: nat -> string)
    ensures var rows := NewRows(sha, articles, seen, clock);
            var idx := Kept(sha, articles, seen);
            && |rows| == |idx| <= |articles|
            && (forall k :: 0 <= k < |rows| ==>
                  rows[k] == Stamp(articles[idx[k]], Fingerprint(sha, articles[idx[k]]), clock(k)))
            && (forall k :: 0 <= k < |rows| ==> rows[k][HASH] !in seen)
            && (forall k, l :: 0 <= k < l < |rows| ==> rows[k][HASH] != rows[l][HASH])
  {
    KeptFingerprintsFreshAndDistinct(sha, articles, seen);
  }

  /** Of two articles of one batch with the same fingerprint, the later one is
      never kept: only a first occurrence survives. */
  lemma LaterDuplicateDropped(sha: string -> string, articles: seq<Row>, seen: set<string>,
                              i: nat, j: nat)
    requires i < j < |articles|
    requires Fingerprint(sha, articles[i]) == Fingerprint(sha, articles[j])
    ensures j !in Kept(sha, articles, seen)
  {
    assert articles[..j][i] == articles[i];
    assert Fingerprint(sha, articles[i]) in Fingerprints(sha, articles[..j]);
  }

  /** A kept article is a first occurrence whose fingerprint was unseen, and
      every such article is kept. */
  lemma KeptIffFirstUnseen(sha: string -> string, articles: seq<Row>, seen: set<string>, i: nat)
    requires i < |articles|
    ensures i in Kept(sha, articles, seen) <==>
      (Fingerprint(sha, articles[i]) !in seen &&
       forall j :: 0 <= j < i ==> Fingerprint(sha, articles[j]) != Fingerprint(sha, articles[i]))
  {
    if exists j :: 0 <= j < i && Fingerprint(sha, articles[j]) == Fingerprint(sha, articles[i]) {
      var j :| 0 <= j < i && Fingerprint(sha, articles[j]) == Fingerprint(sha, articles[i]);
      LaterDuplicateDropped(sha, articles, seen, j, i);
    }
  }

  /** The fingerprint of any article of the batch is in `seen` or is the
      fingerprint of a kept article. */
  lemma {:induction false} FingerprintCovered(sha: string -> string, articles: seq<Row>,
                                              seen: set<string>, i: nat)
    requires i < |articles|
    ensures Fingerprint(sha, articles[i]) in seen + KeptFingerprints(sha, articles, seen)
    decreases i
  {
    var idx := Kept(sha, articles, seen);
    var h := Fingerprint(sha, articles[i]);
    KeptIffUnseen(sha, articles, seen, i);
    if i in idx {
      var k :| 0 <= k < |idx| && idx[k] == i;
      assert h in KeptFingerprints(sha, articles, seen);
    } else if h !in seen {
      assert h in Fingerprints(sha, articles[..i]);
      var j :| 0 <= j < i && Fingerprint(sha, articles[..i][j]) == h;
      assert articles[..i][j] == articles[j];
      FingerprintCovered(sha, articles, seen, j);
    }
  }

  /** The seen set after a run is the old one plus exactly the hashes of the
      returned rows. */
  lemma SeenGrowsByKeptHashes(sha: string -> string, articles: seq<Row>, seen: set<string>)
    ensures seen + Fingerprints(sha, articles) == seen + KeptFingerprints(sha, articles, seen)
  {
    forall x | x in Fingerprints(sha, articles)
      ensures x in seen + KeptFingerprints(sha, articles, seen)
    {
      var i :| 0 <= i < |articles| && Fingerprint(sha, articles[i]) == x;
      FingerprintCovered(sha, articles, seen, i);
    }
  }

  /** Nothing is kept from a batch whose fingerprints have all been seen. */
  lemma {:induction false} NothingKeptWhenAllSeen(sha: string -> string, articles: seq<Row>,
                                                  seen: set<string>)
    requires Fingerprints(sha, articles) <= seen
    ensures Kept(sha, articles, seen) == []
  {
    var idx := Kept(sha, articles, seen);
    if |idx| > 0 {
      var i := idx[0];
      KeptIffUnseen(sha, articles, seen, i);
    }
  }

  /** Re-running on the same batch with the returned seen set returns nothing. */
  lemma RerunReturnsNothing(sha: string -> string, articles: seq<Row>, seen: set<string>,
                            clock: nat -> string)
    ensures NewRows(sha, articles, seen + Fingerprints(sha, articles), clock) == []
  {
    NothingKeptWhenAllSeen(sha, articles, seen + Fingerprints(sha, articles));
  }

  /** The fingerprint reads nothing but the headline followed by lastModified:
      articles that agree on that text share a fingerprint whatever their other
      fields, and for an injective digest only such articles do. */
  lemma FingerprintDependsOnlyOnText(sha: string -> string, a: Row, b: Row)
    ensures Get(a, HEADLINE) + Get(a, LAST_MODIFIED) == Get(b, HEADLINE) + Get(b, LAST_MODIFIED)
            ==> Fingerprint(sha, a) == Fingerprint(sha, b)
    ensures (forall x, y :: sha(x) == sha(y) ==> x == y) ==>
              (Fingerprint(sha, a) == Fingerprint(sha, b) <==>
               Get(a, HEADLINE) + Get(a, LAST_MODIFIED) == Get(b, HEADLINE) + Get(b, LAST_MODIFIED))
  {
  }

  /** With no delimiter, ("ab", "c") and ("a", "bc") share a fingerprint, and a
      missing field reads as "". */
  lemma FingerprintIgnoresFieldBoundary(sha: string -> string)
    ensures Fingerprint(sha, map[HEADLINE := "ab", LAST_MODIFIED := "c"])
         == Fingerprint(sha, map[HEADLINE := "a", LAST_MODIFIED := "bc"])
    ensures Fingerprint(sha, map[HEADLINE := "abc"]) == Fingerprint(sha, map[LAST_MODIFIED := "abc"])
  {
    assert "ab" + "c" == "a" + "bc";
    assert "abc" + "" == "" + "abc";
  }
}
