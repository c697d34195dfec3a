/**
 * The numbers the renumbering pass hands out: each target file gets the position
 * of its prefix among the prefixes sorted by integer value, so the numbers are
 * dense from 0, follow the integer order, are shared by a group, and break ties
 * between equal values by listing order.
 */
module RenumberOrder {
  import opened Common
  import opened Text
  import opened StableSort
  import opened Renumber

  /** The new number of target file `f`: the position of its prefix in sorted order. */
  function IndexOf(ts: seq<string>, f: string): (i: nat)
    requires f in ts
    ensures i < |SortedPrefixes(ts)| && SortedPrefixes(ts)[i] == PrefixOf(f)
  {
    SortKeepsElements(Prefixes(ts), KeyOf);
    Position(SortedPrefixes(ts), PrefixOf(f))
  }

  /** Every rename of the plan moves a target file to its own new number, and every target file is moved once. */
  lemma PlanUsesIndexOf(ts: seq<string>)
    requires Distinct(ts)
    ensures forall k :: 0 <= k < |Plan(ts)| ==>
              Plan(ts)[k].source in ts && Plan(ts)[k].index == IndexOf(ts, Plan(ts)[k].source)
    ensures forall f :: f in ts ==> f in Sources(Plan(ts))
    ensures Distinct(Sources(Plan(ts)))
  {
    var sorted := SortedPrefixes(ts);
    SortDistinct(Prefixes(ts), KeyOf);
    SortKeepsElements(Prefixes(ts), KeyOf);
    PlanFromShape(sorted, ts);
  }

  /** Every number used is below `k`, the number of distinct prefixes. */
  lemma IndicesBelow(ts: seq<string>)
    ensures forall f :: f in ts ==> IndexOf(ts, f) < |Prefixes(ts)|
  {
    SortedPrefixesLength(ts);
  }

  /** There are as many numbers as distinct prefixes. */
  lemma SortedPrefixesLength(ts: seq<string>)
    ensures |SortedPrefixes(ts)| == |Prefixes(ts)|
  {
    SortKeepsElements(Prefixes(ts), KeyOf);
  }

  /** Every number below the number of distinct prefixes is used: a target file whose number is `n`. */
  lemma FileAtIndex(ts: seq<string>, n: nat) returns (f: string)
    requires n < |SortedPrefixes(ts)|
    ensures f in ts && PrefixOf(f) == SortedPrefixes(ts)[n] && IndexOf(ts, f) == n
  {
    var sorted := SortedPrefixes(ts);
    SortDistinct(Prefixes(ts), KeyOf);
    SortKeepsElements(Prefixes(ts), KeyOf);
    assert sorted[n] in Prefixes(ts);
    f :| f in ts && PrefixOf(f) == sorted[n];
  }

  /** Two target files get the same number exactly when they share a prefix. */
  lemma SameIndexIffSamePrefix(ts: seq<string>, f: string, g: string)
    requires f in ts && g in ts
    ensures IndexOf(ts, f) == IndexOf(ts, g) <==> PrefixOf(f) == PrefixOf(g)
  {
    SortDistinct(Prefixes(ts), KeyOf);
  }

  /** A smaller integer value gets a smaller number. */
  lemma IndexFollowsValue(ts: seq<string>, f: string, g: string)
    requires f in ts && g in ts
    requires PyInt(PrefixOf(f)).Some? && PyInt(PrefixOf(g)).Some?
    requires PyInt(PrefixOf(f)).value < PyInt(PrefixOf(g)).value
    ensures IndexOf(ts, f) < IndexOf(ts, g)
  {
    var sorted := SortedPrefixes(ts);
    var i, j := IndexOf(ts, f), IndexOf(ts, g);
    assert KeyOf(sorted[i]) == PyInt(PrefixOf(f)).value;
    assert KeyOf(sorted[j]) == PyInt(PrefixOf(g)).value;
    SortedIndexOrder(sorted, KeyOf, i, j);
  }

  /** `f` is the first listed target file with its prefix: where its prefix entered the dictionary. */
  predicate FirstOfPrefix(ts: seq<string>, f: string)
  {
    f in ts && forall h :: h in ts && PrefixOf(h) == PrefixOf(f) && h != f ==> !Before(ts, h, f)
  }

  /** Dictionary order: prefixes are ordered by where their first files are listed. */
  lemma {:induction false} PrefixesOrder(ts: seq<string>, f: string, g: string)
    requires Distinct(ts)
    requires FirstOfPrefix(ts, f) && FirstOfPrefix(ts, g) && PrefixOf(f) != PrefixOf(g)
    ensures Before(Prefixes(ts), PrefixOf(f), PrefixOf(g)) <==> Before(ts, f, g)
    decreases |ts|
  {
    var init, z := ts[..|ts| - 1], ts[|ts| - 1];
    assert ts == init + [z];
    if z == g {
      OrderWhenSecondIsLast(init, f, g);
    } else if z == f {
      OrderWhenFirstIsLast(init, f, g);
    } else {
      FirstOfPrefixEarlier(init, z, f);
      FirstOfPrefixEarlier(init, z, g);
      PrefixesOrder(init, f, g);
      OrderKeptByLast(init, z, f, g);
    }
  }

  /** The last listed file is `g`: its prefix enters the keys last, after that of `f`. */
  lemma OrderWhenSecondIsLast(init: seq<string>, f: string, g: string)
    requires Distinct(init + [g])
    requires FirstOfPrefix(init + [g], f) && FirstOfPrefix(init + [g], g) && PrefixOf(f) != PrefixOf(g)
    ensures Before(Prefixes(init + [g]), PrefixOf(f), PrefixOf(g)) <==> Before(init + [g], f, g)
  {
    PrefixesSnoc(init, g);
    BeforeAppend(init, g, f, g);
    BeforeAppend(Prefixes(init), PrefixOf(g), PrefixOf(f), PrefixOf(g));
    NewPrefixOfFirst(init, g);
  }

  /** The last listed file is `f`: its prefix enters the keys last, so nothing follows it. */
  lemma OrderWhenFirstIsLast(init: seq<string>, f: string, g: string)
    requires Distinct(init + [f])
    requires FirstOfPrefix(init + [f], f) && FirstOfPrefix(init + [f], g) && PrefixOf(f) != PrefixOf(g)
    ensures !Before(Prefixes(init + [f]), PrefixOf(f), PrefixOf(g)) && !Before(init + [f], f, g)
  {
    var pf, pg := PrefixOf(f), PrefixOf(g);
    PrefixesSnoc(init, f);
    BeforeAppend(init, f, f, g);
    BeforeAppend(Prefixes(init), pf, pf, pg);
    NewPrefixOfFirst(init, f);
    BeforeRequiresFirst(Prefixes(init), pf, pg);
    BeforeRequiresFirst(init, f, g);
  }

  /** A file listed before the last one that is first of its prefix is so already without the last. */
  lemma FirstOfPrefixEarlier(init: seq<string>, z: string, f: string)
    requires FirstOfPrefix(init + [z], f) && f != z
    ensures FirstOfPrefix(init, f)
  {
    forall h | h in init && PrefixOf(h) == PrefixOf(f) && h != f ensures !Before(init, h, f) {
      BeforeAppend(init, z, h, f);
    }
  }

  /** Listing a last file that is neither `f` nor `g` changes neither order. */
  lemma OrderKeptByLast(init: seq<string>, z: string, f: string, g: string)
    requires f in init && g in init && z != g
    ensures Before(Prefixes(init + [z]), PrefixOf(f), PrefixOf(g)) <==> Before(Prefixes(init), PrefixOf(f), PrefixOf(g))
    ensures Before(init + [z], f, g) <==> Before(init, f, g)
  {
    PrefixesSnoc(init, z);
    BeforeAppend(init, z, f, g);
    BeforeAppend(Prefixes(init), PrefixOf(z), PrefixOf(f), PrefixOf(g));
    assert PrefixOf(g) in Prefixes(init);
  }

  /** The last listed file, if it is the first of its prefix, brings a new prefix. */
  lemma NewPrefixOfFirst(init: seq<string>, z: string)
    requires Distinct(init + [z]) && FirstOfPrefix(init + [z], z)
    ensures PrefixOf(z) !in Prefixes(init)
  {
    LastNotIn(init, z);
    if PrefixOf(z) in Prefixes(init) {
      var h :| h in init && PrefixOf(h) == PrefixOf(z);
      BeforeAppend(init, z, h, z);
    }
  }

  /**
   * Stability: of two prefixes with the same integer value (such as `7` and `07`),
   * the one whose first file is listed first gets the smaller number.
   */
  lemma IndexTies(ts: seq<string>, f: string, g: string)
    requires Distinct(ts)
    requires FirstOfPrefix(ts, f) && FirstOfPrefix(ts, g) && PrefixOf(f) != PrefixOf(g)
    requires PyInt(PrefixOf(f)).Some? && PyInt(PrefixOf(f)) == PyInt(PrefixOf(g))
    ensures IndexOf(ts, f) < IndexOf(ts, g) <==> Before(ts, f, g)
  {
    var sorted := SortedPrefixes(ts);
    SortDistinct(Prefixes(ts), KeyOf);
    BeforeIndex(sorted, IndexOf(ts, f), IndexOf(ts, g));
    SortKeepsTies(Prefixes(ts), KeyOf, PrefixOf(f), PrefixOf(g));
    PrefixesOrder(ts, f, g);
  }

  /** The target filter keeps the listing order. */
  lemma {:induction false} TargetFilesOrder(files: seq<string>, f: string, g: string)
    requires IsTarget(f) && IsTarget(g)
    ensures Before(TargetFiles(files), f, g) <==> Before(files, f, g)
    decreases |files|
  {
    if files != [] {
      var init, z := files[..|files| - 1], files[|files| - 1];
      assert files == init + [z];
      TargetFilesOrder(init, f, g);
      BeforeAppend(init, z, f, g);
      if IsTarget(z) {
        BeforeAppend(TargetFiles(init), z, f, g);
      }
    }
  }
}
