/**
 * `Array.prototype.sort((a, b) => key(b) - key(a))`: the engine's stable sort
 * in descending key order. The comparator never yields NaN, so the order is a
 * total preorder and the result is the unique stable arrangement: keys do not
 * increase, and elements with equal keys keep their original relative order.
 */
module StableSort {

  /** Keys never increase from left to right. */
  ghost predicate SortedDesc<T>(s: seq<T>, key: T -> real) {
    forall i, j :: 0 <= i < j < |s| ==> key(s[i]) >= key(s[j])
  }

  /** The elements of `s` whose key is `v`, in order. */
  function KeyFilter<T>(s: seq<T>, key: T -> real, v: real): seq<T> {
    if s == [] then []
    else (if key(s[0]) == v then [s[0]] else []) + KeyFilter(s[1..], key, v)
  }

  /** Places `x` before the first element whose key is not above its own. */
  function Insert<T>(x: T, s: seq<T>, key: T -> real): seq<T> {
    if s == [] || key(x) >= key(s[0]) then [x] + s
    else [s[0]] + Insert(x, s[1..], key)
  }

  /** The stable descending sort, as an insertion sort. */
  function SortDesc<T>(s: seq<T>, key: T -> real): (r: seq<T>)
    ensures |r| == |s|
    ensures multiset(r) == multiset(s)
    ensures SortedDesc(r, key)
  {
    if s == [] then []
    else
      var rest := SortDesc(s[1..], key);
      InsertSorted(s[0], rest, key);
      assert s == [s[0]] + s[1..];
      Insert(s[0], rest, key)
  }

  /** Inserting adds exactly the one element. */
  lemma {:induction false} InsertPermutes<T>(x: T, s: seq<T>, key: T -> real)
    ensures |Insert(x, s, key)| == |s| + 1
    ensures multiset(Insert(x, s, key)) == multiset([x] + s)
  {
    if s != [] && key(x) < key(s[0]) {
      InsertPermutes(x, s[1..], key);
      assert s == [s[0]] + s[1..];
    }
  }

  /** A bound on every key survives an insertion that respects it. */
  lemma InsertKeepsBound<T>(x: T, s: seq<T>, key: T -> real, v: real)
    requires key(x) <= v && forall i :: 0 <= i < |s| ==> key(s[i]) <= v
    ensures forall i :: 0 <= i < |Insert(x, s, key)| ==> key(Insert(x, s, key)[i]) <= v
  {
    var r := Insert(x, s, key);
    InsertPermutes(x, s, key);
    forall i | 0 <= i < |r| ensures key(r[i]) <= v {
      assert r[i] in multiset([x] + s);
      if r[i] != x {
        assert r[i] in s;
      }
    }
  }

  /** A sorted sequence behind an element with a key at least as large stays sorted. */
  lemma ConsSorted<T>(y: T, s: seq<T>, key: T -> real)
    requires SortedDesc(s, key) && forall i :: 0 <= i < |s| ==> key(s[i]) <= key(y)
    ensures SortedDesc([y] + s, key)
  {
    var r := [y] + s;
    forall i, j | 0 <= i < j < |r| ensures key(r[i]) >= key(r[j]) {
      assert r[j] == s[j - 1];
      if i > 0 {
        assert r[i] == s[i - 1];
      }
    }
  }

  lemma {:induction false} InsertSorted<T>(x: T, s: seq<T>, key: T -> real)
    requires SortedDesc(s, key)
    ensures |Insert(x, s, key)| == |s| + 1
    ensures multiset(Insert(x, s, key)) == multiset([x] + s)
    ensures SortedDesc(Insert(x, s, key), key)
  {
    InsertPermutes(x, s, key);
    if s == [] || key(x) >= key(s[0]) {
      forall i | 0 <= i < |s| ensures key(s[i]) <= key(x) {
        if i > 0 {
          assert key(s[0]) >= key(s[i]);
        }
      }
      ConsSorted(x, s, key);
    } else {
      var tail := s[1..];
      assert SortedDesc(tail, key);
      InsertSorted(x, tail, key);
      forall i | 0 <= i < |tail| ensures key(tail[i]) <= key(s[0]) {
        assert tail[i] == s[i + 1];
      }
      InsertKeepsBound(x, tail, key, key(s[0]));
      ConsSorted(s[0], Insert(x, tail, key), key);
    }
  }

  lemma {:induction false} KeyFilterInsert<T>(x: T, s: seq<T>, key: T -> real, v: real)
    requires SortedDesc(s, key)
    ensures KeyFilter(Insert(x, s, key), key, v) == KeyFilter([x] + s, key, v)
  {
    if s != [] && key(x) < key(s[0]) {
      KeyFilterInsert(x, s[1..], key, v);
      var r := Insert(x, s, key);
      assert r[1..] == Insert(x, s[1..], key);
      assert ([x] + s)[1..] == s;
      assert ([x] + s[1..])[1..] == s[1..];
    }
  }

  /** Stability: for every key, the elements with that key keep their relative order. */
  lemma {:induction false} SortStable<T>(s: seq<T>, key: T -> real, v: real)
    ensures KeyFilter(SortDesc(s, key), key, v) == KeyFilter(s, key, v)
  {
    if s != [] {
      SortStable(s[1..], key, v);
      KeyFilterInsert(s[0], SortDesc(s[1..], key), key, v);
      assert ([s[0]] + SortDesc(s[1..], key))[1..] == SortDesc(s[1..], key);
    }
  }

  /** Sorting what is already sorted changes nothing. */
  lemma {:induction false} SortOfSorted<T>(s: seq<T>, key: T -> real)
    requires SortedDesc(s, key)
    ensures SortDesc(s, key) == s
  {
    if s != [] {
      assert SortedDesc(s[1..], key);
      SortOfSorted(s[1..], key);
      assert s == [s[0]] + s[1..];
    }
  }

  lemma SortIdempotent<T>(s: seq<T>, key: T -> real)
    ensures SortDesc(SortDesc(s, key), key) == SortDesc(s, key)
  {
    SortOfSorted(SortDesc(s, key), key);
  }

  /** The first element of a non-empty sorted sequence carries the maximum key. */
  lemma HeadIsMax<T>(s: seq<T>, key: T -> real)
    requires SortedDesc(s, key) && s != []
    ensures forall x :: x in s ==> key(x) <= key(s[0])
  {
    forall x | x in s ensures key(x) <= key(s[0]) {
      var i :| 0 <= i < |s| && s[i] == x;
      if i > 0 { assert key(s[0]) >= key(s[i]); }
    }
  }

  /** No element occurs twice. */
  ghost predicate Distinct<T>(s: seq<T>) {
    forall i, j :: 0 <= i < j < |s| ==> s[i] != s[j]
  }

  lemma {:induction false} DistinctCount<T>(s: seq<T>, x: T)
    requires Distinct(s)
    ensures multiset(s)[x] <= 1
  {
    if s != [] {
      assert s == [s[0]] + s[1..];
      assert Distinct(s[1..]);
      DistinctCount(s[1..], x);
      if s[0] == x {
        assert x !in s[1..];
      }
    }
  }

  /** A permutation of a sequence without repetitions has none either. */
  lemma DistinctPermutation<T>(a: seq<T>, b: seq<T>)
    requires multiset(a) == multiset(b) && Distinct(b)
    ensures Distinct(a)
  {
    forall i, j | 0 <= i < j < |a| ensures a[i] != a[j] {
      if a[i] == a[j] {
        var x := a[i];
        assert a == a[..j] + a[j..];
        assert x in a[..j] && x in a[j..];
        assert multiset(a)[x] == multiset(a[..j])[x] + multiset(a[j..])[x];
        DistinctCount(b, x);
        assert false;
      }
    }
  }
}
