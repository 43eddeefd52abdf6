/** Python's sorted(xs, key=key, reverse=desc) as a stable insertion sort.
    Python keeps equal keys in their original order also when reverse=True,
    and so does this sort: it is ordered by key, a permutation of its input,
    and the elements sharing any one key come out in input order. */
module StableSort {

  /** a may come before b in the sorted output. */
  predicate InOrder(a: real, b: real, desc: bool) {
    if desc then a >= b else a <= b
  }

  predicate Sorted<T>(s: seq<T>, key: T -> real, desc: bool) {
    forall i, j :: 0 <= i < j < |s| ==> InOrder(key(s[i]), key(s[j]), desc)
  }

  /** The elements of s whose key is v, in order. */
  function WithKey<T>(s: seq<T>, key: T -> real, v: real): (r: seq<T>)
    ensures |r| <= |s|
  {
    if s == [] then []
    else (if key(s[0]) == v then [s[0]] else []) + WithKey(s[1..], key, v)
  }

  /** Inserts x after every element that may precede it. */
  function Insert<T>(x: T, s: seq<T>, key: T -> real, desc: bool): seq<T> {
    if s == [] then [x]
    else if InOrder(key(s[0]), key(x), desc) then [s[0]] + Insert(x, s[1..], key, desc)
    else [x] + s
  }

  function SortBy<T>(s: seq<T>, key: T -> real, desc: bool): seq<T> {
    if s == [] then []
    else Insert(s[|s| - 1], SortBy(s[..|s| - 1], key, desc), key, desc)
  }

  lemma {:induction false} WithKeyAppend<T>(a: seq<T>, b: seq<T>, key: T -> real, v: real)
    ensures WithKey(a + b, key, v) == WithKey(a, key, v) + WithKey(b, key, v)
  {
    if a == [] {
      assert a + b == b;
    } else {
      var t := a[1..];
      var h := if key(a[0]) == v then [a[0]] else [];
      assert (a + b)[0] == a[0] && (a + b)[1..] == t + b;
      WithKeyAppend(t, b, key, v);
      assert WithKey(a + b, key, v) == h + WithKey(t + b, key, v);
      assert WithKey(a, key, v) == h + WithKey(t, key, v);
    }
  }

  lemma {:induction false} WithKeyNone<T>(s: seq<T>, key: T -> real, v: real)
    requires forall i :: 0 <= i < |s| ==> key(s[i]) != v
    ensures WithKey(s, key, v) == []
  {
    if s != [] {
      WithKeyNone(s[1..], key, v);
    }
  }

  lemma {:induction false} InsertPermutes<T>(x: T, s: seq<T>, key: T -> real, desc: bool)
    ensures multiset(Insert(x, s, key, desc)) == multiset(s) + multiset{x}
  {
    if s != [] && InOrder(key(s[0]), key(x), desc) {
      InsertPermutes(x, s[1..], key, desc);
      assert s == [s[0]] + s[1..];
    }
  }

  /** When x goes first, every key of a sorted s comes strictly after key(x). */
  lemma StrictlyAfter<T>(x: T, s: seq<T>, key: T -> real, desc: bool)
    requires Sorted(s, key, desc)
    requires s != [] && !InOrder(key(s[0]), key(x), desc)
    ensures forall i :: 0 <= i < |s| ==> InOrder(key(x), key(s[i]), desc) && key(s[i]) != key(x)
  {
    forall i | 0 <= i < |s| ensures InOrder(key(x), key(s[i]), desc) && key(s[i]) != key(x) {
      if i > 0 {
        assert InOrder(key(s[0]), key(s[i]), desc);
      }
    }
  }

  lemma {:induction false} InsertSorted<T>(x: T, s: seq<T>, key: T -> real, desc: bool)
    requires Sorted(s, key, desc)
    ensures Sorted(Insert(x, s, key, desc), key, desc)
  {
    if s == [] {
    } else if InOrder(key(s[0]), key(x), desc) {
      var tail := Insert(x, s[1..], key, desc);
      SortedTail(s, key, desc);
      InsertSorted(x, s[1..], key, desc);
      HeadBeforeInserted(x, s, key, desc);
      ConsSorted(s[0], tail, key, desc);
      assert Insert(x, s, key, desc) == [s[0]] + tail;
    } else {
      StrictlyAfter(x, s, key, desc);
      ConsSorted(x, s, key, desc);
    }
  }

  /** Every element of the insertion into the tail may follow the head. */
  lemma HeadBeforeInserted<T>(x: T, s: seq<T>, key: T -> real, desc: bool)
    requires Sorted(s, key, desc) && s != [] && InOrder(key(s[0]), key(x), desc)
    ensures forall i :: 0 <= i < |Insert(x, s[1..], key, desc)| ==>
              InOrder(key(s[0]), key(Insert(x, s[1..], key, desc)[i]), desc)
  {
    var tail := Insert(x, s[1..], key, desc);
    InsertPermutes(x, s[1..], key, desc);
    forall i | 0 <= i < |tail| ensures InOrder(key(s[0]), key(tail[i]), desc) {
      var y := tail[i];
      assert y in multiset(tail);
      if y != x {
        assert y in multiset(s[1..]);
        var j :| 0 <= j < |s[1..]| && s[1..][j] == y;
        assert s[1 + j] == y;
      }
    }
  }

  /** A head that may precede every element of a sorted list keeps it sorted. */
  lemma ConsSorted<T>(h: T, t: seq<T>, key: T -> real, desc: bool)
    requires Sorted(t, key, desc)
    requires forall i :: 0 <= i < |t| ==> InOrder(key(h), key(t[i]), desc)
    ensures Sorted([h] + t, key, desc)
  {
    var r := [h] + t;
    forall i, j | 0 <= i < j < |r| ensures InOrder(key(r[i]), key(r[j]), desc) {
      assert r[j] == t[j - 1];
      if i > 0 {
        assert r[i] == t[i - 1];
      }
    }
  }

  lemma SortedTail<T>(s: seq<T>, key: T -> real, desc: bool)
    requires s != [] && Sorted(s, key, desc)
    ensures Sorted(s[1..], key, desc)
  {
    forall i, j | 0 <= i < j < |s| - 1 ensures InOrder(key(s[1..][i]), key(s[1..][j]), desc) {
      assert s[1..][i] == s[i + 1] && s[1..][j] == s[j + 1];
    }
  }

  lemma {:induction false} InsertWithKey<T>(x: T, s: seq<T>, key: T -> real, desc: bool, v: real)
    requires Sorted(s, key, desc)
    ensures WithKey(Insert(x, s, key, desc), key, v) == WithKey(s, key, v) + (if key(x) == v then [x] else [])
  {
    var r := Insert(x, s, key, desc);
    var own := if key(x) == v then [x] else [];
    if s == [] {
      assert r == [x] && r[1..] == [];
      assert WithKey(r, key, v) == own + WithKey([], key, v);
    } else if InOrder(key(s[0]), key(x), desc) {
      var tail := Insert(x, s[1..], key, desc);
      var head := if key(s[0]) == v then [s[0]] else [];
      SortedTail(s, key, desc);
      InsertWithKey(x, s[1..], key, desc, v);
      assert r == [s[0]] + tail && r[0] == s[0] && r[1..] == tail;
      calc {
        WithKey(r, key, v);
        head + WithKey(tail, key, v);
        head + (WithKey(s[1..], key, v) + own);
        (head + WithKey(s[1..], key, v)) + own;
        WithKey(s, key, v) + own;
      }
    } else {
      assert r == [x] + s && r[0] == x && r[1..] == s;
      assert WithKey(r, key, v) == own + WithKey(s, key, v);
      if key(x) == v {
        StrictlyAfter(x, s, key, desc);
        WithKeyNone(s, key, v);
      }
    }
  }

  /** The sort's three promises: ordered by key, a permutation, and stable
      (the elements of each key keep their input order). */
  lemma {:induction false} SortByCorrect<T>(s: seq<T>, key: T -> real, desc: bool)
    ensures Sorted(SortBy(s, key, desc), key, desc)
    ensures multiset(SortBy(s, key, desc)) == multiset(s)
    ensures forall v :: WithKey(SortBy(s, key, desc), key, v) == WithKey(s, key, v)
  {
    if s != [] {
      var init, last := s[..|s| - 1], s[|s| - 1];
      SortByCorrect(init, key, desc);
      InsertPermutes(last, SortBy(init, key, desc), key, desc);
      InsertSorted(last, SortBy(init, key, desc), key, desc);
      assert s == init + [last];
      forall v ensures WithKey(SortBy(s, key, desc), key, v) == WithKey(s, key, v) {
        InsertWithKey(last, SortBy(init, key, desc), key, desc, v);
        WithKeyAppend(init, [last], key, v);
        assert [last][1..] == [];
      }
    }
  }

  /** Sorting preserves length and membership. */
  lemma SortByMembers<T>(s: seq<T>, key: T -> real, desc: bool)
    ensures |SortBy(s, key, desc)| == |s|
    ensures forall y :: y in SortBy(s, key, desc) <==> y in s
  {
    SortByCorrect(s, key, desc);
    var r := SortBy(s, key, desc);
    assert |multiset(r)| == |r| && |multiset(s)| == |s|;
    forall y ensures y in r <==> y in s {
      assert y in r <==> y in multiset(r);
      assert y in s <==> y in multiset(s);
    }
  }
}
