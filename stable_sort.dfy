/**
  The contract of Python's `list.sort(key=key, reverse=True)`: a stable sort,
  descending by an integer key. The result is given by an insertion sort on
  sequences; Python's own algorithm is not modelled, only what it yields.
 */
module StableSort {

  /** Every key of `s` is at least every key after it. */
  ghost predicate Descending<T>(s: seq<T>, key: T -> int) {
    forall i, j :: 0 <= i < j < |s| ==> key(s[i]) >= key(s[j])
  }

  /** The entries of `s` whose key is `k`, in their order in `s`. */
  function WithKey<T>(s: seq<T>, key: T -> int, k: int): seq<T> {
    if s == [] then []
    else (if key(s[0]) == k then [s[0]] else []) + WithKey(s[1..], key, k)
  }

  /** Put `x` in front of the first entry of `s` whose key is not greater than its own. */
  function Insert<T>(x: T, s: seq<T>, key: T -> int): (r: seq<T>)
    ensures multiset(r) == multiset{x} + multiset(s)
  {
    if s == [] || key(s[0]) <= key(x) then [x] + s
    else
      assert s == [s[0]] + s[1..];
      [s[0]] + Insert(x, s[1..], key)
  }

  /** The list sorted descending by `key`: a permutation of it, and descending. */
  function SortDescending<T>(s: seq<T>, key: T -> int): (r: seq<T>)
    ensures multiset(r) == multiset(s)
    ensures Descending(r, key)
  {
    if s == [] then []
    else
      assert s == [s[0]] + s[1..];
      var sorted := SortDescending(s[1..], key);
      InsertKeepsDescending(s[0], sorted, key);
      Insert(s[0], sorted, key)
  }

  lemma {:induction false} InsertKeepsDescending<T>(x: T, s: seq<T>, key: T -> int)
    requires Descending(s, key)
    ensures Descending(Insert(x, s, key), key)
  {
    var r := Insert(x, s, key);
    if s != [] && key(s[0]) > key(x) {
      var tail := Insert(x, s[1..], key);
      InsertKeepsDescending(x, s[1..], key);
      assert r == [s[0]] + tail;
      forall j | 0 < j < |r|
        ensures key(r[0]) >= key(r[j])
      {
        assert r[j] == tail[j - 1];
        assert r[j] in multiset(tail);
        if r[j] != x {
          assert r[j] in multiset(s[1..]);
          var m :| 0 <= m < |s[1..]| && s[1..][m] == r[j];
          assert s[m + 1] == r[j];
        }
      }
    }
  }

  /** Inserting `x` keeps, for every key, the order of the entries with that key, `x` first. */
  lemma {:induction false} InsertKeepsKeyOrder<T>(x: T, s: seq<T>, key: T -> int, k: int)
    ensures WithKey(Insert(x, s, key), key, k) == WithKey([x] + s, key, k)
  {
    if s != [] && key(s[0]) > key(x) {
      InsertKeepsKeyOrder(x, s[1..], key, k);
      var tail := Insert(x, s[1..], key);
      assert ([s[0]] + tail)[1..] == tail;
      assert ([x] + s[1..])[1..] == s[1..];
      assert ([x] + s)[1..] == s;
    }
  }

  /** The sort is stable: the entries with any one key keep their original order. */
  lemma {:induction false} SortIsStable<T>(s: seq<T>, key: T -> int, k: int)
    ensures WithKey(SortDescending(s, key), key, k) == WithKey(s, key, k)
  {
    if s != [] {
      var sorted := SortDescending(s[1..], key);
      SortIsStable(s[1..], key, k);
      InsertKeepsKeyOrder(s[0], sorted, key, k);
      assert ([s[0]] + sorted)[1..] == sorted;
    }
  }

  /** The first entry with key `k` is at index `j`, and no entry before it has that key. */
  lemma {:induction false} FirstWithKey<T>(s: seq<T>, key: T -> int, k: int) returns (j: nat)
    requires WithKey(s, key, k) != []
    ensures j < |s| && s[j] == WithKey(s, key, k)[0] && key(s[j]) == k
    ensures forall i :: 0 <= i < j ==> key(s[i]) != k
  {
    if key(s[0]) == k {
      j := 0;
    } else {
      var j' := FirstWithKey(s[1..], key, k);
      j := j' + 1;
      forall i | 0 < i < j
        ensures key(s[i]) != k
      {
        assert s[i] == s[1..][i - 1];
      }
    }
  }

  /** `s[j]` has the greatest key of `s` and is the first entry that has it. */
  ghost predicate IsFirstGreatest<T>(s: seq<T>, key: T -> int, j: int) {
    && 0 <= j < |s|
    && (forall i :: 0 <= i < |s| ==> key(s[i]) <= key(s[j]))
    && (forall i :: 0 <= i < j ==> key(s[i]) < key(s[j]))
  }

  /** The first entry of a descending permutation of `s` has the greatest key of `s`. */
  lemma {:induction false} HeadIsGreatest<T>(t: seq<T>, s: seq<T>, key: T -> int)
    requires |t| > 0 && multiset(t) == multiset(s) && Descending(t, key)
    ensures forall i :: 0 <= i < |s| ==> key(s[i]) <= key(t[0])
  {
    forall i | 0 <= i < |s|
      ensures key(s[i]) <= key(t[0])
    {
      assert s[i] in multiset(t);
      var m :| 0 <= m < |t| && t[m] == s[i];
    }
  }

  /** The head of the sorted list is the first entry, in the original order, with the greatest key. */
  lemma SortedHeadIsFirstGreatest<T>(s: seq<T>, key: T -> int)
    requires |s| > 0
    ensures exists j :: IsFirstGreatest(s, key, j) && s[j] == SortDescending(s, key)[0]
  {
    var t := SortDescending(s, key);
    assert |t| == |multiset(s)| == |s|;
    var k := key(t[0]);
    assert WithKey(t, key, k) == [t[0]] + WithKey(t[1..], key, k);
    SortIsStable(s, key, k);
    var j := FirstWithKey(s, key, k);
    HeadIsGreatest(t, s, key);
    assert IsFirstGreatest(s, key, j);
  }
}
