/**
 * `sorted(xs, key=k)`: Python's sort is stable, so the result is ordered by key and
 * elements with equal keys keep the order they had in `xs`. Any stable sort gives
 * the same result; it is written here as insertion sort.
 */
module StableSort {
  import opened Common

  predicate SortedBy<T>(s: seq<T>, key: T -> int)
  {
    forall i, j :: 0 <= i < j < |s| ==> key(s[i]) <= key(s[j])
  }

  /** The elements of `s` whose key is `v`, in their order in `s`. */
  function WithKey<T>(s: seq<T>, key: T -> int, v: int): seq<T>
  {
    if s == [] then [] else (if key(s[0]) == v then [s[0]] else []) + WithKey(s[1..], key, v)
  }

  /** `x` occurs somewhere before an occurrence of `y` in `s`. */
  predicate Before<T(==)>(s: seq<T>, x: T, y: T)
  {
    s != [] && ((s[0] == x && y in s[1..]) || Before(s[1..], x, y))
  }

  lemma {:induction false} WithKeyAppend<T>(a: seq<T>, b: seq<T>, key: T -> int, v: int)
    ensures WithKey(a + b, key, v) == WithKey(a, key, v) + WithKey(b, key, v)
    decreases |a|
  {
    if a == [] {
      assert a + b == b;
    } else {
      var h := if key(a[0]) == v then [a[0]] else [];
      assert (a + b)[0] == a[0];
      assert (a + b)[1..] == a[1..] + b;
      WithKeyAppend(a[1..], b, key, v);
      calc {
        WithKey(a + b, key, v);
        h + WithKey(a[1..] + b, key, v);
        h + (WithKey(a[1..], key, v) + WithKey(b, key, v));
        (h + WithKey(a[1..], key, v)) + WithKey(b, key, v);
      }
    }
  }

  lemma {:induction false} WithKeyMembers<T>(s: seq<T>, key: T -> int, v: int, e: T)
    ensures e in WithKey(s, key, v) <==> e in s && key(e) == v
    decreases |s|
  {
    if s != [] {
      WithKeyMembers(s[1..], key, v, e);
      assert s == [s[0]] + s[1..];
    }
  }

  /** Inserts `x` into sorted `s` after every element whose key is not greater. */
  function Insert<T>(x: T, s: seq<T>, key: T -> int): (r: seq<T>)
    requires SortedBy(s, key)
    ensures |r| == |s| + 1 && (r[0] == x || (s != [] && r[0] == s[0]))
    ensures SortedBy(r, key)
  {
    if s == [] then [x]
    else if key(x) < key(s[0]) then [x] + s
    else
      var rest := Insert(x, s[1..], key);
      assert s == [s[0]] + s[1..];
      assert key(s[0]) <= key(rest[0]);
      [s[0]] + rest
  }

  /** Insertion adds exactly `x`. */
  lemma {:induction false} InsertAdds<T>(x: T, s: seq<T>, key: T -> int)
    requires SortedBy(s, key)
    ensures multiset(Insert(x, s, key)) == multiset(s) + multiset{x}
    decreases |s|
  {
    if s == [] {
      assert Insert(x, s, key) == [x];
    } else if key(x) < key(s[0]) {
      assert Insert(x, s, key) == [x] + s;
    } else {
      var rest := Insert(x, s[1..], key);
      InsertAdds(x, s[1..], key);
      assert Insert(x, s, key) == [s[0]] + rest;
      assert s == [s[0]] + s[1..];
      assert multiset([s[0]] + rest) == multiset([s[0]]) + multiset(rest);
      assert multiset(s) == multiset([s[0]]) + multiset(s[1..]);
    }
  }

  /** Inserting `x` appends it to the elements of its key and leaves the other keys alone. */
  lemma {:induction false} InsertWithKey<T>(x: T, s: seq<T>, key: T -> int, v: int)
    requires SortedBy(s, key)
    ensures WithKey(Insert(x, s, key), key, v) == WithKey(s, key, v) + (if key(x) == v then [x] else [])
    decreases |s|
  {
    var r := Insert(x, s, key);
    var tail := if key(x) == v then [x] else [];
    if s == [] {
      assert r == [x];
      assert WithKey(r, key, v) == tail + WithKey([], key, v);
    } else if key(x) < key(s[0]) {
      assert r == [x] + s;
      assert r[1..] == s;
      assert WithKey(r, key, v) == tail + WithKey(s, key, v);
      if key(x) == v {
        WithKeyLess(s, key, v);
      }
    } else {
      var rest := Insert(x, s[1..], key);
      var h := if key(s[0]) == v then [s[0]] else [];
      assert r == [s[0]] + rest;
      assert r[1..] == rest;
      InsertWithKey(x, s[1..], key, v);
      calc {
        WithKey(r, key, v);
        h + WithKey(rest, key, v);
        h + (WithKey(s[1..], key, v) + tail);
        (h + WithKey(s[1..], key, v)) + tail;
        WithKey(s, key, v) + tail;
      }
    }
  }

  /** A sorted sequence whose first key exceeds `v` has no element of key `v`. */
  lemma {:induction false} WithKeyLess<T>(s: seq<T>, key: T -> int, v: int)
    requires SortedBy(s, key)
    requires s != [] && v < key(s[0])
    ensures WithKey(s, key, v) == []
    decreases |s|
  {
    if |s| > 1 {
      assert key(s[0]) <= key(s[1]) && s[1..][0] == s[1];
      WithKeyLess(s[1..], key, v);
    }
  }

  /** `sorted(xs, key=key)` */
  function SortByKey<T>(xs: seq<T>, key: T -> int): (r: seq<T>)
    ensures SortedBy(r, key)
    ensures multiset(r) == multiset(xs)
  {
    if xs == [] then []
    else
      var init, x := xs[..|xs| - 1], xs[|xs| - 1];
      assert xs == init + [x];
      var sortedInit := SortByKey(init, key);
      InsertAdds(x, sortedInit, key);
      Insert(x, sortedInit, key)
  }

  /** Insertion of a new element into a sequence without repeats creates none. */
  lemma {:induction false} InsertDistinct<T>(x: T, s: seq<T>, key: T -> int)
    requires SortedBy(s, key) && Distinct(s) && x !in s
    ensures Distinct(Insert(x, s, key))
    decreases |s|
  {
    if s != [] && key(x) >= key(s[0]) {
      var rest := Insert(x, s[1..], key);
      assert Distinct(s[1..]);
      InsertDistinct(x, s[1..], key);
      InsertAdds(x, s[1..], key);
      assert s[0] !in multiset(rest);
    }
  }

  /** Sorting a sequence without repeats creates none. */
  lemma {:induction false} SortDistinct<T>(xs: seq<T>, key: T -> int)
    requires Distinct(xs)
    ensures Distinct(SortByKey(xs, key))
    decreases |xs|
  {
    if xs != [] {
      var init, x := xs[..|xs| - 1], xs[|xs| - 1];
      assert Distinct(init);
      SortDistinct(init, key);
      assert x !in multiset(SortByKey(init, key));
      InsertDistinct(x, SortByKey(init, key), key);
    }
  }

  /** Stability: the elements of each key appear in the sorted result in their original order. */
  lemma {:induction false} SortWithKey<T>(xs: seq<T>, key: T -> int, v: int)
    ensures WithKey(SortByKey(xs, key), key, v) == WithKey(xs, key, v)
    decreases |xs|
  {
    if xs != [] {
      var init, x := xs[..|xs| - 1], xs[|xs| - 1];
      assert xs == init + [x];
      SortWithKey(init, key, v);
      InsertWithKey(x, SortByKey(init, key), key, v);
      WithKeyAppend(init, [x], key, v);
    }
  }

  /** For two elements with the same key, their order is their order among the elements of that key. */
  lemma {:induction false} BeforeWithKey<T>(s: seq<T>, key: T -> int, x: T, y: T)
    requires key(x) == key(y)
    ensures Before(s, x, y) <==> Before(WithKey(s, key, key(x)), x, y)
    decreases |s|
  {
    var v := key(x);
    if s != [] {
      BeforeWithKey(s[1..], key, x, y);
      WithKeyMembers(s[1..], key, v, y);
      var w := WithKey(s, key, v);
      var w' := WithKey(s[1..], key, v);
      if key(s[0]) == v {
        assert w == [s[0]] + w';
        assert w[0] == s[0] && w[1..] == w';
        assert Before(w, x, y) <==> (s[0] == x && y in w') || Before(w', x, y);
      } else {
        assert w == w';
        assert s[0] != x;
      }
    }
  }

  /** A stable sort keeps the relative order of two elements with equal keys. */
  lemma SortKeepsTies<T>(xs: seq<T>, key: T -> int, x: T, y: T)
    requires key(x) == key(y)
    ensures Before(SortByKey(xs, key), x, y) <==> Before(xs, x, y)
  {
    BeforeWithKey(xs, key, x, y);
    BeforeWithKey(SortByKey(xs, key), key, x, y);
    SortWithKey(xs, key, key(x));
  }

  /** In a sequence without repeats, `Before` is the order of positions. */
  lemma {:induction false} BeforeIndex<T>(s: seq<T>, i: nat, j: nat)
    requires i < |s| && j < |s|
    requires Distinct(s)
    ensures Before(s, s[i], s[j]) <==> i < j
    decreases |s|
  {
    if i > 0 && j > 0 {
      assert Distinct(s[1..]);
      BeforeIndex(s[1..], i - 1, j - 1);
    } else if j == 0 {
      BeforeNotFirst(s, s[i]);
    } else {
      assert s[j] == s[1..][j - 1];
    }
  }

  /** In a sequence without repeats, nothing comes before the first element. */
  lemma {:induction false} BeforeNotFirst<T>(s: seq<T>, x: T)
    requires s != []
    requires Distinct(s)
    ensures !Before(s, x, s[0])
  {
    assert s[0] !in s[1..];
    BeforeRequiresMember(s[1..], x, s[0]);
  }

  lemma {:induction false} BeforeRequiresMember<T>(s: seq<T>, x: T, y: T)
    ensures Before(s, x, y) ==> y in s
    decreases |s|
  {
    if s != [] {
      BeforeRequiresMember(s[1..], x, y);
    }
  }

  lemma {:induction false} BeforeRequiresFirst<T>(s: seq<T>, x: T, y: T)
    ensures Before(s, x, y) ==> x in s
    decreases |s|
  {
    if s != [] {
      BeforeRequiresFirst(s[1..], x, y);
    }
  }

  /** Appending `z`: `x` comes before `z` exactly when `x` was already there. */
  lemma {:induction false} BeforeAppend<T>(s: seq<T>, z: T, x: T, y: T)
    ensures Before(s + [z], x, y) <==> Before(s, x, y) || (x in s && y == z)
    decreases |s|
  {
    if s != [] {
      assert (s + [z])[1..] == s[1..] + [z];
      BeforeAppend(s[1..], z, x, y);
      assert x in s <==> x == s[0] || x in s[1..];
    }
  }

  /** Sorting keeps the length and the elements. */
  lemma SortKeepsElements<T>(xs: seq<T>, key: T -> int)
    ensures |SortByKey(xs, key)| == |xs|
    ensures forall x :: x in SortByKey(xs, key) <==> x in xs
  {
    var r := SortByKey(xs, key);
    assert |multiset(r)| == |multiset(xs)|;
    forall x ensures x in r <==> x in xs {
      assert x in r <==> x in multiset(r);
      assert x in xs <==> x in multiset(xs);
    }
  }

  /** Each position of the sorted sequence holds an element of the input. */
  lemma SortedElement<T>(xs: seq<T>, key: T -> int, m: nat)
    requires m < |xs|
    ensures |SortByKey(xs, key)| == |xs| && SortByKey(xs, key)[m] in xs
  {
    var r := SortByKey(xs, key);
    assert |multiset(r)| == |multiset(xs)|;
    var x := r[m];
    assert x in multiset(r);
  }

  /** In a sorted sequence, a strictly smaller key sits strictly earlier. */
  lemma SortedIndexOrder<T>(s: seq<T>, key: T -> int, i: nat, j: nat)
    requires SortedBy(s, key) && i < |s| && j < |s|
    requires key(s[i]) < key(s[j])
    ensures i < j
  {
  }
}
