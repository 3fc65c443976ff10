/** A stable descending sort by an integer key: what Python's
    `list.sort(key=key, reverse=True)` produces. Elements with equal keys keep
    their relative order. */
module StableSort {

  ghost predicate Descending<T>(key: T -> int, s: seq<T>) {
    forall i, j :: 0 <= i < j < |s| ==> key(s[i]) >= key(s[j])
  }

  /** The elements of `s` whose key is `k`, in their order in `s`. */
  function WithKey<T>(key: T -> int, s: seq<T>, k: int): seq<T> {
    if |s| == 0 then []
    else (if key(s[0]) == k then [s[0]] else []) + WithKey(key, s[1..], k)
  }

  /** Places `x` before the first element whose key is not greater than its own. */
  function Insert<T>(key: T -> int, x: T, s: seq<T>): seq<T> {
    if |s| == 0 || key(x) >= key(s[0]) then [x] + s
    else [s[0]] + Insert(key, x, s[1..])
  }

  function SortDesc<T>(key: T -> int, s: seq<T>): seq<T> {
    if |s| == 0 then [] else Insert(key, s[0], SortDesc(key, s[1..]))
  }

  lemma {:induction false} InsertPermutes<T>(key: T -> int, x: T, s: seq<T>)
    ensures multiset(Insert(key, x, s)) == multiset(s) + multiset{x}
  {
    if |s| > 0 && key(x) < key(s[0]) {
      InsertPermutes(key, x, s[1..]);
      assert s == [s[0]] + s[1..];
    }
  }

  lemma {:induction false} InsertKeepsDescending<T>(key: T -> int, x: T, s: seq<T>)
    requires Descending(key, s)
    ensures Descending(key, Insert(key, x, s))
  {
    if |s| > 0 && key(x) < key(s[0]) {
      var rest := Insert(key, x, s[1..]);
      InsertKeepsDescending(key, x, s[1..]);
      InsertPermutes(key, x, s[1..]);
      forall j | 0 <= j < |rest|
        ensures key(s[0]) >= key(rest[j])
      {
        assert rest[j] in multiset(rest);
        assert rest[j] == x || rest[j] in multiset(s[1..]);
      }
    }
  }

  lemma {:induction false} InsertWithKey<T>(key: T -> int, x: T, s: seq<T>, k: int)
    ensures WithKey(key, Insert(key, x, s), k)
         == (if key(x) == k then [x] else []) + WithKey(key, s, k)
  {
    if |s| == 0 || key(x) >= key(s[0]) {
      assert ([x] + s)[1..] == s;
    } else {
      var rest := Insert(key, x, s[1..]);
      InsertWithKey(key, x, s[1..], k);
      assert ([s[0]] + rest)[1..] == rest;
      var sx := if key(x) == k then [x] else [];
      var s0 := if key(s[0]) == k then [s[0]] else [];
      assert sx == [] || s0 == [];
      calc {
        WithKey(key, Insert(key, x, s), k);
        s0 + WithKey(key, rest, k);
        s0 + (sx + WithKey(key, s[1..], k));
        { assert s0 + sx == sx + s0; }
        sx + (s0 + WithKey(key, s[1..], k));
      }
    }
  }

  /** The sort returns a permutation of its input, in descending key order, and
      keeps the elements of each key in their input order. */
  lemma {:induction false} SortDescCorrect<T>(key: T -> int, s: seq<T>)
    ensures multiset(SortDesc(key, s)) == multiset(s)
    ensures |SortDesc(key, s)| == |s|
    ensures Descending(key, SortDesc(key, s))
    ensures forall k :: WithKey(key, SortDesc(key, s), k) == WithKey(key, s, k)
  {
    if |s| > 0 {
      var rest := SortDesc(key, s[1..]);
      SortDescCorrect(key, s[1..]);
      InsertPermutes(key, s[0], rest);
      InsertKeepsDescending(key, s[0], rest);
      assert s == [s[0]] + s[1..];
      forall k ensures WithKey(key, SortDesc(key, s), k) == WithKey(key, s, k) {
        InsertWithKey(key, s[0], rest, k);
      }
      calc {
        |SortDesc(key, s)|;
        |multiset(SortDesc(key, s))|;
        |multiset(s)|;
        |s|;
      }
    }
  }
}
