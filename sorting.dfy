/**
 * Python's `sorted(xs, key=k)`: a stable sort by an integer key. Insertion
 * puts each new element after every element whose key is not larger, which
 * is what keeps equal keys in their input order.
 */
module Sorting {

  ghost predicate SortedBy<T>(s: seq<T>, key: T -> int) {
    forall i, j :: 0 <= i < j < |s| ==> key(s[i]) <= key(s[j])
  }

  /** Inserts `x` into the sorted `s` after the elements whose key is at most `key(x)`. */
  function InsertBy<T>(x: T, s: seq<T>, key: T -> int): (r: seq<T>)
    ensures multiset(r) == multiset(s) + multiset{x}
    ensures |r| == |s| + 1
  {
    if s == [] then [x]
    else if key(x) < key(s[0]) then [x] + s
    else
      assert s == [s[0]] + s[1..];
      [s[0]] + InsertBy(x, s[1..], key)
  }

  lemma {:induction false} InsertBySorted<T>(x: T, s: seq<T>, key: T -> int)
    requires SortedBy(s, key)
    ensures SortedBy(InsertBy(x, s, key), key)
  {
    if s != [] && key(x) >= key(s[0]) {
      var tail := s[1..];
      SortedTail(s, key);
      InsertBySorted(x, tail, key);
      var r := InsertBy(x, tail, key);
      forall y | y in r ensures key(s[0]) <= key(y) {
        assert y in multiset(r);
        if y != x {
          assert y in multiset(tail);
          var k :| 0 <= k < |tail| && tail[k] == y;
          assert s[k + 1] == y;
        }
      }
      SortedCons(s[0], r, key);
    }
  }

  lemma SortedTail<T>(s: seq<T>, key: T -> int)
    requires s != [] && SortedBy(s, key)
    ensures SortedBy(s[1..], key)
  {
    var tail := s[1..];
    forall i, j | 0 <= i < j < |tail| ensures key(tail[i]) <= key(tail[j]) {
      assert tail[i] == s[i + 1] && tail[j] == s[j + 1];
    }
  }

  lemma SortedCons<T>(h: T, r: seq<T>, key: T -> int)
    requires SortedBy(r, key)
    requires forall y :: y in r ==> key(h) <= key(y)
    ensures SortedBy([h] + r, key)
  {
    var t := [h] + r;
    forall i, j | 0 <= i < j < |t| ensures key(t[i]) <= key(t[j]) {
      if i == 0 { assert t[j] == r[j - 1]; } else { assert t[i] == r[i - 1] && t[j] == r[j - 1]; }
    }
  }

  /** The elements of `s` ordered by `key`, equal keys in input order. */
  function SortBy<T>(s: seq<T>, key: T -> int): (r: seq<T>)
    ensures multiset(r) == multiset(s)
    ensures |r| == |s|
  {
    if s == [] then []
    else
      assert s == s[..|s| - 1] + [s[|s| - 1]];
      InsertBy(s[|s| - 1], SortBy(s[..|s| - 1], key), key)
  }

  /** Sorting yields an ordered permutation of its input. */
  lemma {:induction false} SortBySorted<T>(s: seq<T>, key: T -> int)
    ensures SortedBy(SortBy(s, key), key)
  {
    if s != [] {
      SortBySorted(s[..|s| - 1], key);
      InsertBySorted(s[|s| - 1], SortBy(s[..|s| - 1], key), key);
    }
  }

  /** The sorted sequence holds exactly the elements of its input. */
  lemma SortBySameElements<T>(s: seq<T>, key: T -> int)
    ensures multiset(SortBy(s, key)) == multiset(s)
    ensures forall x :: x in SortBy(s, key) <==> x in s
  {
    var r := SortBy(s, key);
    forall x ensures x in r <==> x in s {
      assert x in r <==> x in multiset(r);
      assert x in s <==> x in multiset(s);
    }
  }

  /** The elements of `s` whose key is `k`, in their order in `s`. */
  function WithKey<T>(s: seq<T>, key: T -> int, k: int): seq<T> {
    if s == [] then []
    else if key(s[0]) == k then [s[0]] + WithKey(s[1..], key, k)
    else WithKey(s[1..], key, k)
  }

  lemma {:induction false} WithKeyAppend<T>(a: seq<T>, b: seq<T>, key: T -> int, k: int)
    ensures WithKey(a + b, key, k) == WithKey(a, key, k) + WithKey(b, key, k)
  {
    if a == [] {
      assert a + b == b;
    } else {
      assert (a + b)[0] == a[0] && (a + b)[1..] == a[1..] + b;
      WithKeyAppend(a[1..], b, key, k);
      if key(a[0]) == k {
        assert WithKey(a + b, key, k) == [a[0]] + WithKey(a[1..] + b, key, k);
      }
    }
  }

  lemma {:induction false} WithKeyAbove<T>(s: seq<T>, key: T -> int, k: int)
    requires forall y :: y in s ==> k < key(y)
    ensures WithKey(s, key, k) == []
  {
    if s != [] {
      assert s[0] in s;
      assert forall y :: y in s[1..] ==> y in s;
      WithKeyAbove(s[1..], key, k);
    }
  }

  /** Inserting `x` into a sorted sequence puts it after every element with its key. */
  lemma {:induction false} InsertByWithKey<T>(x: T, s: seq<T>, key: T -> int, k: int)
    requires SortedBy(s, key)
    ensures key(x) == k ==> WithKey(InsertBy(x, s, key), key, k) == WithKey(s, key, k) + [x]
    ensures key(x) != k ==> WithKey(InsertBy(x, s, key), key, k) == WithKey(s, key, k)
  {
    var r := InsertBy(x, s, key);
    if s == [] {
      assert r[1..] == [];
    } else if key(x) < key(s[0]) {
      assert r[0] == x && r[1..] == s;
      if key(x) == k {
        forall y | y in s ensures k < key(y) {
          var j :| 0 <= j < |s| && s[j] == y;
          if j > 0 { assert key(s[0]) <= key(s[j]); }
        }
        WithKeyAbove(s, key, k);
      }
    } else {
      SortedTail(s, key);
      InsertByWithKey(x, s[1..], key, k);
      assert r[0] == s[0] && r[1..] == InsertBy(x, s[1..], key);
    }
  }

  lemma WithKeySnoc<T>(s: seq<T>, key: T -> int, k: int)
    requires s != []
    ensures key(s[|s| - 1]) == k ==> WithKey(s, key, k) == WithKey(s[..|s| - 1], key, k) + [s[|s| - 1]]
    ensures key(s[|s| - 1]) != k ==> WithKey(s, key, k) == WithKey(s[..|s| - 1], key, k)
  {
    var init, last := s[..|s| - 1], s[|s| - 1];
    assert s == init + [last];
    WithKeyAppend(init, [last], key, k);
    assert [last][1..] == [];
  }

  /** Sorting is stable: the elements with any one key keep their relative order. */
  lemma {:induction false} SortByStable<T>(s: seq<T>, key: T -> int, k: int)
    ensures WithKey(SortBy(s, key), key, k) == WithKey(s, key, k)
  {
    if s != [] {
      var init, last := s[..|s| - 1], s[|s| - 1];
      var sorted := SortBy(init, key);
      assert SortBy(s, key) == InsertBy(last, sorted, key);
      SortBySorted(init, key);
      InsertByWithKey(last, sorted, key, k);
      SortByStable(init, key, k);
      WithKeySnoc(s, key, k);
    }
  }

  /** No element occurs twice. */
  ghost predicate Distinct<T>(s: seq<T>) {
    forall i, j :: 0 <= i < j < |s| ==> s[i] != s[j]
  }

  lemma {:induction false} DistinctCount<T>(s: seq<T>, x: T)
    requires Distinct(s)
    ensures multiset(s)[x] <= 1
  {
    if s != [] {
      var init := s[..|s| - 1];
      assert s == init + [s[|s| - 1]];
      DistinctCount(init, x);
      if x == s[|s| - 1] && x in init {
        assert false;
      }
    }
  }

  lemma {:induction false} CountsDistinct<T>(r: seq<T>)
    requires forall x :: multiset(r)[x] <= 1
    ensures Distinct(r)
  {
    forall i, j | 0 <= i < j < |r| ensures r[i] != r[j] {
      if r[i] == r[j] {
        RepeatCount(r, i, j);
        assert false;
      }
    }
  }

  lemma {:induction false} RepeatCount<T>(r: seq<T>, i: nat, j: nat)
    requires i < j < |r| && r[i] == r[j]
    ensures multiset(r)[r[i]] >= 2
  {
    var x := r[i];
    assert r == r[..j] + r[j..];
    assert x in r[..j] && x in r[j..];
    assert multiset(r)[x] == multiset(r[..j])[x] + multiset(r[j..])[x];
  }

  /** Sorting a sequence without repetitions gives one without repetitions. */
  lemma {:induction false} SortByKeepsDistinct<T>(s: seq<T>, key: T -> int)
    requires Distinct(s)
    ensures Distinct(SortBy(s, key))
  {
    forall x ensures multiset(SortBy(s, key))[x] <= 1 {
      DistinctCount(s, x);
    }
    CountsDistinct(SortBy(s, key));
  }

  /** The first element of a sorted sequence has the least key. */
  lemma {:induction false} SortByFirstIsLeast<T>(s: seq<T>, key: T -> int)
    requires s != []
    ensures SortBy(s, key) != [] && forall x :: x in s ==> key(SortBy(s, key)[0]) <= key(x)
  {
    var r := SortBy(s, key);
    SortBySorted(s, key);
    SortBySameElements(s, key);
    forall x | x in s ensures key(r[0]) <= key(x) {
      var k :| 0 <= k < |r| && r[k] == x;
      if k > 0 {
        assert key(r[0]) <= key(r[k]);
      }
    }
  }

  lemma {:induction false} InsertByKeyAgree<T>(x: T, s: seq<T>, k1: T -> int, k2: T -> int)
    requires k1(x) == k2(x) && forall y :: y in s ==> k1(y) == k2(y)
    ensures InsertBy(x, s, k1) == InsertBy(x, s, k2)
  {
    if s != [] {
      assert forall y :: y in s[1..] ==> y in s;
      InsertByKeyAgree(x, s[1..], k1, k2);
    }
  }

  /** Sorting depends on the key only through its values on the elements. */
  lemma {:induction false} SortByKeyAgree<T>(s: seq<T>, k1: T -> int, k2: T -> int)
    requires forall y :: y in s ==> k1(y) == k2(y)
    ensures SortBy(s, k1) == SortBy(s, k2)
  {
    if s != [] {
      var init := s[..|s| - 1];
      assert forall y :: y in init ==> y in s;
      SortByKeyAgree(init, k1, k2);
      SortBySameElements(init, k1);
      var r := SortBy(init, k1);
      assert SortBy(s, k1) == InsertBy(s[|s| - 1], r, k1);
      assert SortBy(s, k2) == InsertBy(s[|s| - 1], r, k2);
      forall y | y in r ensures k1(y) == k2(y) {
        assert y in init;
      }
      InsertByKeyAgree(s[|s| - 1], r, k1, k2);
    }
  }
}
