/** Small shared vocabulary: optional values, duplicate-free sequences and filtering. */
module Common {

  /** Either a value or nothing, used wherever the script yields something or skips. */
  datatype Option<+T> = None | Some(value: T)

  /** No element occurs twice, as in a directory listing. */
  predicate Distinct<T(==)>(s: seq<T>)
  {
    forall i, j :: 0 <= i < j < |s| ==> s[i] != s[j]
  }

  /** The first place `x` occurs in `s`. */
  function Position<T(==)>(s: seq<T>, x: T): (i: nat)
    requires x in s
    ensures i < |s| && s[i] == x
    ensures forall j :: 0 <= j < i ==> s[j] != x
  {
    if s[0] == x then 0 else 1 + Position(s[1..], x)
  }

  /** The first element of `s` that fails `ok`, if any. */
  function FirstFailing<T(==)>(s: seq<T>, ok: T -> bool): (r: Option<T>)
    ensures r.None? <==> forall x :: x in s ==> ok(x)
    ensures r.Some? ==> r.value in s && !ok(r.value) && forall j :: 0 <= j < Position(s, r.value) ==> ok(s[j])
  {
    if s == [] then None
    else if !ok(s[0]) then Some(s[0])
    else
      var r := FirstFailing(s[1..], ok);
      assert forall x :: x in s ==> x == s[0] || x in s[1..];
      assert r.Some? ==> r.value != s[0] && Position(s, r.value) == 1 + Position(s[1..], r.value);
      assert forall j :: 1 <= j < |s| ==> s[j] == s[1..][j - 1];
      r
  }

  /** A loop that visits `xs` in order, skips where `f` yields nothing and keeps the rest. */
  function FilterMap<A, B>(xs: seq<A>, f: A -> Option<B>): (r: seq<B>)
    ensures |r| <= |xs|
    ensures forall k :: 0 <= k < |r| ==> exists i :: 0 <= i < |xs| && f(xs[i]) == Some(r[k])
  {
    if xs == [] then []
    else
      var rest := FilterMap(xs[1..], f);
      assert forall k :: 0 <= k < |rest| ==> exists i :: 1 <= i < |xs| && f(xs[i]) == Some(rest[k]) by {
        forall k | 0 <= k < |rest| ensures exists i :: 1 <= i < |xs| && f(xs[i]) == Some(rest[k]) {
          var i :| 0 <= i < |xs[1..]| && f(xs[1..][i]) == Some(rest[k]);
          assert f(xs[i + 1]) == Some(rest[k]);
        }
      }
      match f(xs[0])
      case None => rest
      case Some(y) =>
        assert forall k :: 1 <= k < |[y] + rest| ==> ([y] + rest)[k] == rest[k - 1];
        [y] + rest
  }

  /** Nothing `f` yields on an element is lost. */
  lemma {:induction false} FilterMapKeeps<A, B>(xs: seq<A>, f: A -> Option<B>, x: A)
    requires x in xs && f(x).Some?
    ensures f(x).value in FilterMap(xs, f)
    decreases |xs|
  {
    if x != xs[0] {
      FilterMapKeeps(xs[1..], f, x);
    }
  }

  /**
   * When distinct elements never yield results that agree on `key`, the results
   * kept are pairwise different on `key`.
   */
  lemma {:induction false} FilterMapKeysDiffer<A, B, K>(xs: seq<A>, f: A -> Option<B>, key: B -> K)
    requires Distinct(xs)
    requires forall a, b :: a in xs && b in xs && a != b && f(a).Some? && f(b).Some? ==> key(f(a).value) != key(f(b).value)
    ensures forall k, l :: 0 <= k < l < |FilterMap(xs, f)| ==> key(FilterMap(xs, f)[k]) != key(FilterMap(xs, f)[l])
    decreases |xs|
  {
    if xs != [] {
      var r, rest := FilterMap(xs, f), FilterMap(xs[1..], f);
      assert Distinct(xs[1..]);
      assert forall a :: a in xs[1..] ==> a in xs;
      FilterMapKeysDiffer(xs[1..], f, key);
      if f(xs[0]).None? {
        assert r == rest;
      } else {
        assert r == [f(xs[0]).value] + rest;
        forall k, l | 0 <= k < l < |r| ensures key(r[k]) != key(r[l]) {
          if k == 0 {
            FirstKeptDiffers(xs, f, key, l);
          } else {
            TailKeysDiffer(f(xs[0]).value, rest, key, k, l);
          }
        }
      }
    }
  }

  /** Two positions past the head of `[y] + rest` differ on `key` when those of `rest` all do. */
  lemma TailKeysDiffer<B, K>(y: B, rest: seq<B>, key: B -> K, k: nat, l: nat)
    requires 0 < k < l < |rest| + 1
    requires forall i, j :: 0 <= i < j < |rest| ==> key(rest[i]) != key(rest[j])
    ensures key(([y] + rest)[k]) != key(([y] + rest)[l])
  {
    assert ([y] + rest)[k] == rest[k - 1] && ([y] + rest)[l] == rest[l - 1];
  }

  /** The result kept for the first element differs on `key` from every later one. */
  lemma FirstKeptDiffers<A, B, K>(xs: seq<A>, f: A -> Option<B>, key: B -> K, l: nat)
    requires xs != [] && Distinct(xs) && f(xs[0]).Some?
    requires forall a, b :: a in xs && b in xs && a != b && f(a).Some? && f(b).Some? ==> key(f(a).value) != key(f(b).value)
    requires 0 < l < |FilterMap(xs, f)|
    ensures key(FilterMap(xs, f)[0]) != key(FilterMap(xs, f)[l])
  {
    var rest := FilterMap(xs[1..], f);
    assert FilterMap(xs, f) == [f(xs[0]).value] + rest;
    var i :| 0 <= i < |xs[1..]| && f(xs[1..][i]) == Some(rest[l - 1]);
    var b := xs[1..][i];
    assert b == xs[i + 1] && b in xs && b != xs[0];
  }

  /*
   * Small facts about slices and concatenation, stated once so that longer
   * proofs can use them without unfolding sequence equality in their own context.
   */

  lemma TakeAll<T>(s: seq<T>, i: nat)
    requires i == |s|
    ensures s[..i] == s
  {
  }

  lemma TakeOneMore<T>(s: seq<T>, i: nat)
    requires i < |s|
    ensures s[..i + 1] == s[..i] + [s[i]]
  {
  }

  lemma AppendAssociates<T>(a: seq<T>, b: seq<T>, c: seq<T>)
    ensures a + (b + c) == a + b + c
  {
  }

  lemma TakeDrop<T>(s: seq<T>, k: nat)
    requires k <= |s|
    ensures s[..k] + s[k..] == s
  {
  }

  lemma DropFirst<T>(s: seq<T>)
    requires s != []
    ensures s == [s[0]] + s[1..]
  {
  }

  lemma DropOneMore<T>(s: seq<T>, k: nat)
    requires k < |s|
    ensures s[k..][0] == s[k] && s[k..][1..] == s[k + 1..]
  {
  }
}
