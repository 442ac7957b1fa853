/**
 * `slice::sort_by(|a, b| key(a).cmp(&key(b)))`: a stable sort by an integer
 * key, written as insertion sort. The catalog uses it twice: the batch
 * insert sorts its brands by sequence, and `ORDER BY sequence, id` over a
 * table kept in id order is the same stable sort by sequence.
 */
module SortBy {

  /** Keys never decrease along `s`. */
  predicate SortedBy<T>(s: seq<T>, key: T -> int) {
    forall i, j :: 0 <= i < j < |s| ==> key(s[i]) <= key(s[j])
  }

  /** `f` strictly increases along `s`. */
  predicate StrictlyIncreasing<T>(s: seq<T>, f: T -> int) {
    forall i, j :: 0 <= i < j < |s| ==> f(s[i]) < f(s[j])
  }

  /** A sequence with a head strictly increases exactly when its tail does and the head is below every later element. */
  lemma StrictlyIncreasingCons<T>(x: T, s: seq<T>, f: T -> int)
    ensures StrictlyIncreasing([x] + s, f) <==> (StrictlyIncreasing(s, f) && forall y :: y in s ==> f(x) < f(y))
  {
    var all := [x] + s;
    if StrictlyIncreasing(all, f) {
      forall i, j | 0 <= i < j < |s| ensures f(s[i]) < f(s[j]) {
        assert all[i + 1] == s[i] && all[j + 1] == s[j];
      }
      forall y | y in s ensures f(x) < f(y) {
        var j :| 0 <= j < |s| && s[j] == y;
        assert all[0] == x && all[j + 1] == y;
        assert f(all[0]) < f(all[j + 1]);
      }
    }
    if StrictlyIncreasing(s, f) && forall y :: y in s ==> f(x) < f(y) {
      forall i, j | 0 <= i < j < |all| ensures f(all[i]) < f(all[j]) {
        assert all[j] == s[j - 1];
        if i == 0 {
          assert all[0] == x && s[j - 1] in s;
        } else {
          assert all[i] == s[i - 1];
        }
      }
    }
  }

  /** Ordered by `key`, ties broken by a strictly increasing `tie` (SQL `ORDER BY key, tie`). */
  predicate LexSorted<T>(s: seq<T>, key: T -> int, tie: T -> int) {
    forall i, j :: 0 <= i < j < |s| ==>
      key(s[i]) < key(s[j]) || (key(s[i]) == key(s[j]) && tie(s[i]) < tie(s[j]))
  }

  /** Puts `x` in front of the first element whose key is not smaller. */
  function Insert<T>(x: T, s: seq<T>, key: T -> int): (r: seq<T>)
    ensures multiset(r) == multiset(s) + multiset{x}
    ensures |r| == |s| + 1
  {
    if s == [] || key(x) <= key(s[0]) then
      [x] + s
    else
      assert s == [s[0]] + s[1..];
      [s[0]] + Insert(x, s[1..], key)
  }

  /** Insertion sort: each element goes in front of the equal keys that followed it, so the sort is stable. */
  function Sort<T>(s: seq<T>, key: T -> int): (r: seq<T>)
    ensures multiset(r) == multiset(s)
    ensures |r| == |s|
  {
    if s == [] then
      []
    else
      assert s == [s[0]] + s[1..];
      Insert(s[0], Sort(s[1..], key), key)
  }

  lemma {:induction false} InsertSorted<T>(x: T, s: seq<T>, key: T -> int)
    requires SortedBy(s, key)
    ensures SortedBy(Insert(x, s, key), key)
  {
    if s != [] && key(x) > key(s[0]) {
      var rest := Insert(x, s[1..], key);
      InsertSorted(x, s[1..], key);
      forall j | 0 <= j < |rest| ensures key(s[0]) <= key(rest[j]) {
        assert rest[j] in multiset(rest);
        if rest[j] != x {
          assert rest[j] in multiset(s[1..]);
          var k :| 0 <= k < |s[1..]| && s[1..][k] == rest[j];
          assert s[k + 1] == rest[j];
        }
      }
    }
  }

  /** The sort orders by key and keeps exactly the input's elements. */
  lemma {:induction false} SortSorted<T>(s: seq<T>, key: T -> int)
    ensures SortedBy(Sort(s, key), key)
    ensures multiset(Sort(s, key)) == multiset(s)
  {
    if s != [] {
      SortSorted(s[1..], key);
      InsertSorted(s[0], Sort(s[1..], key), key);
    }
  }

  /** Sorting a sequence already in key order changes nothing. */
  lemma {:induction false} SortOfSorted<T>(s: seq<T>, key: T -> int)
    requires SortedBy(s, key)
    ensures Sort(s, key) == s
  {
    if s != [] {
      SortOfSorted(s[1..], key);
      assert s == [s[0]] + s[1..];
    }
  }

  /** The elements of `Insert(x, s, key)` are `x` and those of `s`. */
  lemma InsertElements<T>(x: T, s: seq<T>, key: T -> int)
    ensures forall j :: 0 <= j < |Insert(x, s, key)| ==> Insert(x, s, key)[j] == x || Insert(x, s, key)[j] in s
  {
    var r := Insert(x, s, key);
    forall j | 0 <= j < |r| ensures r[j] == x || r[j] in s {
      assert r[j] in multiset(r);
    }
  }

  lemma {:induction false} InsertStable<T>(x: T, s: seq<T>, key: T -> int, tie: T -> int)
    requires LexSorted(s, key, tie)
    requires forall y :: y in s ==> tie(x) < tie(y)
    ensures LexSorted(Insert(x, s, key), key, tie)
  {
    if s != [] && key(x) > key(s[0]) {
      var rest := Insert(x, s[1..], key);
      InsertStable(x, s[1..], key, tie);
      InsertElements(x, s[1..], key);
      forall j | 0 <= j < |rest|
        ensures key(s[0]) < key(rest[j]) || (key(s[0]) == key(rest[j]) && tie(s[0]) < tie(rest[j]))
      {
        assert rest[j] in rest;
        if rest[j] != x {
          assert rest[j] in s[1..];
          var k :| 0 <= k < |s[1..]| && s[1..][k] == rest[j];
          assert s[k + 1] == rest[j];
        }
      }
    } else if s != [] {
      forall j | 0 <= j < |s|
        ensures key(x) < key(s[j]) || (key(x) == key(s[j]) && tie(x) < tie(s[j]))
      {
        assert s[j] in s;
        if j > 0 {
          assert key(s[0]) <= key(s[j]);
        }
      }
    }
  }

  /**
   * Stability: when the input is in strictly increasing `tie` order, the
   * output is ordered by `key` and, among equal keys, by `tie`.
   */
  lemma {:induction false} SortIsStable<T>(s: seq<T>, key: T -> int, tie: T -> int)
    requires StrictlyIncreasing(s, tie)
    ensures LexSorted(Sort(s, key), key, tie)
  {
    if s != [] {
      var rest := Sort(s[1..], key);
      SortIsStable(s[1..], key, tie);
      forall y | y in rest ensures tie(s[0]) < tie(y) {
        assert y in multiset(rest);
        assert y in multiset(s[1..]);
        var k :| 0 <= k < |s[1..]| && s[1..][k] == y;
        assert s[k + 1] == y;
      }
      InsertStable(s[0], rest, key, tie);
    }
  }
}
