/**
 * The renumbering pass of `renumber_files`, for one directory of the output tree:
 * which files it renames, in which order, to which names, and what the directory
 * holds afterwards.
 */
module Renumber {
  import opened Common
  import opened Text
  import opened Classifier
  import opened StableSort

  // ---------------------------------------------------------------------------
  // Selecting and grouping

  /** The renumbering filter: the name ends in one of the three sample endings. */
  predicate IsTarget(name: string)
  {
    EndsWith(name, Suffix(Image)) || EndsWith(name, Suffix(Depth)) || EndsWith(name, Suffix(Mask))
  }

  /** The target files of a listing, in listing order. */
  function TargetFiles(files: seq<string>): (r: seq<string>)
    ensures forall f :: f in r <==> f in files && IsTarget(f)
    ensures Distinct(files) ==> Distinct(r)
  {
    if files == [] then []
    else
      var init, f := files[..|files| - 1], files[|files| - 1];
      assert files == init + [f];
      var r0 := TargetFiles(init);
      assert Distinct(files) ==> Distinct(init) && f !in r0;
      if IsTarget(f) then r0 + [f] else r0
  }

  /** `f.split('_')[0]` */
  function PrefixOf(name: string): string
  {
    Split(name, '_')[0]
  }

  /** The keys of `file_groups` in insertion order: each prefix where its first file is listed. */
  function Prefixes(ts: seq<string>): (r: seq<string>)
    ensures Distinct(r)
    ensures forall p :: p in r <==> exists f :: f in ts && PrefixOf(f) == p
  {
    if ts == [] then []
    else
      var init, f := ts[..|ts| - 1], ts[|ts| - 1];
      assert ts == init + [f];
      var r0 := Prefixes(init);
      if PrefixOf(f) in r0 then r0 else r0 + [PrefixOf(f)]
  }

  /** `file_groups[p]`: the target files with prefix `p`, in listing order. */
  function Group(ts: seq<string>, p: string): (r: seq<string>)
    ensures forall f :: f in r <==> f in ts && PrefixOf(f) == p
    ensures Distinct(ts) ==> Distinct(r)
  {
    if ts == [] then []
    else
      var init, f := ts[..|ts| - 1], ts[|ts| - 1];
      assert ts == init + [f];
      var r0 := Group(init, p);
      assert Distinct(ts) ==> Distinct(init) && f !in r0;
      if PrefixOf(f) == p then r0 + [f] else r0
  }

  /** A group keeps the listing order of its files. */
  lemma {:induction false} GroupOrder(ts: seq<string>, p: string, f: string, g: string)
    requires PrefixOf(f) == p && PrefixOf(g) == p
    ensures Before(Group(ts, p), f, g) <==> Before(ts, f, g)
    decreases |ts|
  {
    if ts != [] {
      var init, z := ts[..|ts| - 1], ts[|ts| - 1];
      assert ts == init + [z];
      GroupOrder(init, p, f, g);
      BeforeAppend(init, z, f, g);
      if PrefixOf(z) == p {
        assert Group(ts, p) == Group(init, p) + [z];
        BeforeAppend(Group(init, p), z, f, g);
      } else {
        assert Group(ts, p) == Group(init, p);
      }
    }
  }

  /** The last element of a group is its last listed file: every other file with that prefix is listed before it. */
  lemma GroupLastListed(ts: seq<string>, p: string)
    requires Group(ts, p) != []
    ensures var g := Group(ts, p);
            forall f :: f in ts && PrefixOf(f) == p && f != g[|g| - 1] ==> Before(ts, f, g[|g| - 1])
  {
    var g := Group(ts, p);
    var last := g[|g| - 1];
    assert last in g;
    assert g == g[..|g| - 1] + [last];
    forall f | f in ts && PrefixOf(f) == p && f != last ensures Before(ts, f, last) {
      assert f in g;
      BeforeAppend(g[..|g| - 1], last, f, last);
      GroupOrder(ts, p, f, last);
    }
  }

  /**
   * The grouping loop: the dictionary is the map `groups` together with `order`,
   * its keys in insertion order.
   */
  method GroupByPrefix(ts: seq<string>) returns (order: seq<string>, groups: map<string, seq<string>>)
    ensures order == Prefixes(ts)
    ensures forall p :: p in groups <==> p in order
    ensures forall p :: p in groups ==> groups[p] == Group(ts, p)
  {
    order, groups := [], map[];
    var i := 0;
    ghost var seen: seq<string> := [];
    while i < |ts|
      invariant 0 <= i <= |ts| && seen == ts[..i]
      invariant Grouped(seen, order, groups)
    {
      var f := ts[i];
      var prefix := PrefixOf(f);
      ghost var order0, groups0 := order, groups;
      if prefix !in groups {
        groups := groups[prefix := []];
        order := order + [prefix];
      }
      ghost var groups1 := groups;
      groups := groups[prefix := groups[prefix] + [f]];
      GroupStep(seen, f, order0, groups0, groups1, order, groups);
      TakeOneMore(ts, i);
      seen, i := seen + [f], i + 1;
    }
    TakeAll(ts, i);
  }

  /** The dictionary built from the files `seen` so far: its keys in insertion order and each key's list. */
  ghost predicate Grouped(seen: seq<string>, order: seq<string>, groups: map<string, seq<string>>)
  {
    && order == Prefixes(seen)
    && (forall p :: p in groups <==> p in order)
    && (forall p :: p in groups ==> groups[p] == Group(seen, p))
  }

  /**
   * One turn of the grouping loop on file `f`: a new prefix gets an empty list
   * and joins the keys, then `f` is appended to its prefix's list.
   */
  lemma GroupStep(seen: seq<string>, f: string, order: seq<string>, groups: map<string, seq<string>>,
                  groups1: map<string, seq<string>>, order': seq<string>, groups': map<string, seq<string>>)
    requires Grouped(seen, order, groups)
    requires groups1 == if PrefixOf(f) in groups then groups else groups[PrefixOf(f) := []]
    requires order' == if PrefixOf(f) in groups then order else order + [PrefixOf(f)]
    requires groups' == groups1[PrefixOf(f) := groups1[PrefixOf(f)] + [f]]
    ensures Grouped(seen + [f], order', groups')
  {
    PrefixesSnoc(seen, f);
    GroupStepKeys(order, groups, groups1, order', groups', PrefixOf(f), f);
    GroupStepLists(seen, f, order, groups, groups1, groups');
  }

  /** Adding key `k` to the map and, when new, to the key list keeps the two in step. */
  lemma GroupStepKeys(order: seq<string>, groups: map<string, seq<string>>, groups1: map<string, seq<string>>,
                      order': seq<string>, groups': map<string, seq<string>>, k: string, f: string)
    requires forall p :: p in groups <==> p in order
    requires groups1 == if k in groups then groups else groups[k := []]
    requires order' == if k in groups then order else order + [k]
    requires groups' == groups1[k := groups1[k] + [f]]
    ensures forall p :: p in groups' <==> p in order'
  {
    forall p
      ensures p in groups' <==> p in order'
    {
      assert p in groups' <==> p in groups || p == k;
      assert p in order' <==> p in order || p == k;
    }
  }

  lemma GroupStepLists(seen: seq<string>, f: string, order: seq<string>, groups: map<string, seq<string>>,
                       groups1: map<string, seq<string>>, groups': map<string, seq<string>>)
    requires Grouped(seen, order, groups)
    requires groups1 == if PrefixOf(f) in groups then groups else groups[PrefixOf(f) := []]
    requires groups' == groups1[PrefixOf(f) := groups1[PrefixOf(f)] + [f]]
    ensures forall p :: p in groups' ==> groups'[p] == Group(seen + [f], p)
  {
    GroupSnoc(seen, f);
    forall p | p in groups' ensures groups'[p] == Group(seen + [f], p) {
      GroupStepList(seen, f, order, groups, groups1, groups', p);
    }
  }

  /** One turn of the grouping loop leaves the list of key `p` equal to `p`'s group among the files seen so far. */
  lemma GroupStepList(seen: seq<string>, f: string, order: seq<string>, groups: map<string, seq<string>>,
                      groups1: map<string, seq<string>>, groups': map<string, seq<string>>, p: string)
    requires Grouped(seen, order, groups)
    requires groups1 == if PrefixOf(f) in groups then groups else groups[PrefixOf(f) := []]
    requires groups' == groups1[PrefixOf(f) := groups1[PrefixOf(f)] + [f]]
    requires Group(seen + [f], p) == Group(seen, p) + (if PrefixOf(f) == p then [f] else [])
    requires p in groups'
    ensures groups'[p] == Group(seen + [f], p)
  {
    var prefix := PrefixOf(f);
    if p == prefix {
      if prefix !in groups {
        GroupOfNewPrefix(seen, prefix);
      }
      assert groups1[prefix] == Group(seen, prefix);
    } else {
      assert groups'[p] == groups[p];
    }
  }

  /** Listing one more file adds its prefix to the keys if it is new. */
  lemma PrefixesSnoc(ts: seq<string>, f: string)
    ensures Prefixes(ts + [f]) == if PrefixOf(f) in Prefixes(ts) then Prefixes(ts) else Prefixes(ts) + [PrefixOf(f)]
  {
    assert (ts + [f])[..|ts|] == ts;
  }

  /** Listing one more file appends it to its own group and to no other. */
  lemma GroupSnoc(ts: seq<string>, f: string)
    ensures forall p :: Group(ts + [f], p) == Group(ts, p) + (if PrefixOf(f) == p then [f] else [])
  {
    assert (ts + [f])[..|ts|] == ts;
  }

  /** A prefix not yet among the keys has no files so far. */
  lemma GroupOfNewPrefix(ts: seq<string>, p: string)
    requires p !in Prefixes(ts)
    ensures Group(ts, p) == []
  {
  }

  // ---------------------------------------------------------------------------
  // Sorting the prefixes

  /** `int(p)` succeeds. */
  predicate Parses(p: string)
  {
    PyInt(p).Some?
  }

  /**
   * The first prefix in dictionary order that `int()` rejects: `sorted` computes
   * every key in list order before comparing, so it raises on this one.
   */
  function FirstUnparsable(order: seq<string>): (r: Option<string>)
    ensures r.None? <==> forall p :: p in order ==> Parses(p)
    ensures r.Some? ==> r.value in order && !Parses(r.value) &&
                        forall j :: 0 <= j < Position(order, r.value) ==> Parses(order[j])
  {
    FirstFailing(order, Parses)
  }

  /** The sort key `int(x)`; only used once every prefix is known to parse. */
  function KeyOf(p: string): int
  {
    match PyInt(p)
    case Some(v) => v
    case None => 0
  }

  /** `sorted(file_groups.keys(), key=lambda x: int(x))` */
  function SortedPrefixes(ts: seq<string>): seq<string>
  {
    SortByKey(Prefixes(ts), KeyOf)
  }

  /** What happens in one directory. */
  datatype Outcome =
    | Skipped                      // no files, or no target files: `continue`
    | NotAnInteger(prefix: string) // `int(prefix)` raised ValueError before any rename
    | Renumbered

  function OutcomeOf(files: seq<string>): Outcome
  {
    if files == [] || TargetFiles(files) == [] then Skipped
    else
      match FirstUnparsable(Prefixes(TargetFiles(files)))
      case Some(p) => NotAnInteger(p)
      case None => Renumbered
  }

  // ---------------------------------------------------------------------------
  // New names

  /** `f"{new_num:03d}.png"` */
  function NewName(n: nat): string
  {
    Format03d(n) + ".png"
  }

  /** Each index has its own name, and the name reads back as the index. */
  lemma NewNameParses(n: nat)
    ensures var digits := NewName(n)[..|NewName(n)| - 4];
            |digits| >= 3 && NewName(n) == digits + ".png" && PyInt(digits) == Some(n)
  {
    var digits := NewName(n)[..|NewName(n)| - 4];
    assert digits == Format03d(n);
    NumeralParses(digits);
  }

  lemma NewNameInjective(m: nat, n: nat)
    requires NewName(m) == NewName(n)
    ensures m == n
  {
    NewNameParses(m);
    NewNameParses(n);
  }

  /** A new name has no `_` and so is never a target file: it cannot be a pending original. */
  lemma NewNameNotTarget(n: nat)
    ensures '_' !in NewName(n) && !IsTarget(NewName(n))
  {
    var name := NewName(n);
    var digits := Format03d(n);
    assert forall i :: 0 <= i < |name| ==> name[i] != '_' by {
      forall i | 0 <= i < |name| ensures name[i] != '_' {
        if i < |digits| { assert IsDigit(digits[i]); } else { assert name[i] == ".png"[i - |digits|]; }
      }
    }
    NoUnderscoreNotTarget(name);
  }

  /** Every target name contains `_`, since every ending starts with one. */
  lemma NoUnderscoreNotTarget(name: string)
    requires '_' !in name
    ensures !IsTarget(name)
  {
    forall m | |Suffix(m)| <= |name| ensures name[|name| - |Suffix(m)|..] != Suffix(m) {
      assert Suffix(m)[0] == '_';
      assert name[|name| - |Suffix(m)|] in name;
    }
  }

  // ---------------------------------------------------------------------------
  // The renames

  /** One `os.rename`: the file `source` becomes `NewName(index)`. */
  datatype Step = Step(source: string, index: nat)

  /** The renames of one group, all to the same new name. */
  function GroupSteps(group: seq<string>, n: nat): (r: seq<Step>)
    ensures |r| == |group|
    ensures forall k :: 0 <= k < |r| ==> r[k] == Step(group[k], n)
  {
    seq(|group|, k requires 0 <= k < |group| => Step(group[k], n))
  }

  /** The nested loops of the renaming pass over the first `|sorted|` sorted prefixes. */
  function PlanFrom(sorted: seq<string>, ts: seq<string>): seq<Step>
  {
    if sorted == [] then []
    else PlanFrom(sorted[..|sorted| - 1], ts) + GroupSteps(Group(ts, sorted[|sorted| - 1]), |sorted| - 1)
  }

  /** Every rename the pass performs on the target files `ts`, in order. */
  function Plan(ts: seq<string>): seq<Step>
  {
    PlanFrom(SortedPrefixes(ts), ts)
  }

  type Content = seq<bv8>

  /**
   * `os.rename(from, to)` on POSIX: the destination, if present, is replaced.
   * `os.rename` raises when `from` is missing; the pass never reaches that case
   * (the renaming loop keeps every pending source present), so the else-branch
   * only makes the function total.
   */
  function Moved(d: map<string, Content>, from: string, to: string): map<string, Content>
  {
    if from in d then (d - {from})[to := d[from]] else d
  }

  /**
   * The renames of `plan` one after the other, step `k` moving its source to
   * `name(plan[k].index)`; the pass itself names positions with `NewName`.
   */
  function ApplyPlan(d: map<string, Content>, plan: seq<Step>, name: nat -> string): map<string, Content>
  {
    if plan == [] then d
    else
      var last := plan[|plan| - 1];
      Moved(ApplyPlan(d, plan[..|plan| - 1], name), last.source, name(last.index))
  }

  function Sources(plan: seq<Step>): (r: seq<string>)
    ensures |r| == |plan| && forall k :: 0 <= k < |r| ==> r[k] == plan[k].source
  {
    seq(|plan|, k requires 0 <= k < |plan| => plan[k].source)
  }

  /**
   * The source of the last rename in `plan` that writes `x`. The body is the
   * meaning: a later rename overwrites an earlier one, so the last writer wins.
   * `ApplyPlanResult` and `LastWriterGroup` say what that means for the directory.
   */
  function LastWriter(plan: seq<Step>, x: string, name: nat -> string): (r: Option<string>)
    ensures r.Some? ==> r.value in Sources(plan)
  {
    if plan == [] then None
    else
      var last := plan[|plan| - 1];
      if name(last.index) == x then Some(last.source)
      else
        var r := LastWriter(plan[..|plan| - 1], x, name);
        assert Sources(plan[..|plan| - 1]) == Sources(plan)[..|plan| - 1];
        r
  }

  // ---------------------------------------------------------------------------
  // Shape of the plan

  /**
   * Over distinct sorted prefixes, the plan renames every target file whose prefix
   * is among them exactly once, to the position of that prefix.
   */
  lemma {:induction false} PlanFromShape(sorted: seq<string>, ts: seq<string>)
    requires Distinct(sorted) && Distinct(ts)
    ensures forall k :: 0 <= k < |PlanFrom(sorted, ts)| ==>
              PlanFrom(sorted, ts)[k].index < |sorted| &&
              sorted[PlanFrom(sorted, ts)[k].index] == PrefixOf(PlanFrom(sorted, ts)[k].source) &&
              PlanFrom(sorted, ts)[k].source in ts
    ensures Distinct(Sources(PlanFrom(sorted, ts)))
    ensures forall f :: f in ts && PrefixOf(f) in sorted ==> f in Sources(PlanFrom(sorted, ts))
    decreases |sorted|
  {
    if sorted != [] {
      var n := |sorted| - 1;
      var init, z := sorted[..n], sorted[n];
      assert sorted == init + [z];
      assert Distinct(init);
      PlanFromShape(init, ts);
      var p0 := PlanFrom(init, ts);
      assert PlanFrom(sorted, ts) == p0 + GroupSteps(Group(ts, z), n);
      ShapeStepPlaced(init, z, ts, p0);
      ShapeStepDistinct(init, z, ts, p0);
      ShapeStepCovers(init, z, ts, p0);
    }
  }

  /** Every rename of `plan` is of a target file to the position of its prefix in `sorted`. */
  ghost predicate Placed(plan: seq<Step>, sorted: seq<string>, ts: seq<string>)
  {
    forall k :: 0 <= k < |plan| ==>
      plan[k].index < |sorted| && sorted[plan[k].index] == PrefixOf(plan[k].source) && plan[k].source in ts
  }

  lemma ShapeStepPlaced(init: seq<string>, z: string, ts: seq<string>, p0: seq<Step>)
    requires Placed(p0, init, ts)
    ensures Placed(p0 + GroupSteps(Group(ts, z), |init|), init + [z], ts)
  {
    var group := Group(ts, z);
    var g := GroupSteps(group, |init|);
    var plan, sorted := p0 + g, init + [z];
    forall k | 0 <= k < |plan|
      ensures plan[k].index < |sorted| && sorted[plan[k].index] == PrefixOf(plan[k].source) && plan[k].source in ts
    {
      if k < |p0| {
        assert plan[k] == p0[k];
        assert sorted[p0[k].index] == init[p0[k].index];
      } else {
        assert plan[k] == g[k - |p0|];
        assert plan[k].source in group;
      }
    }
  }

  lemma ShapeStepDistinct(init: seq<string>, z: string, ts: seq<string>, p0: seq<Step>)
    requires Distinct(init + [z]) && Distinct(ts)
    requires Placed(p0, init, ts) && Distinct(Sources(p0))
    ensures Distinct(Sources(p0 + GroupSteps(Group(ts, z), |init|)))
  {
    var group := Group(ts, z);
    var g := GroupSteps(group, |init|);
    var plan := p0 + g;
    LastNotIn(init, z);
    forall a, b | 0 <= a < b < |plan| ensures plan[a].source != plan[b].source {
      if b < |p0| {
        assert Sources(p0)[a] == p0[a].source && Sources(p0)[b] == p0[b].source;
      } else if a >= |p0| {
        assert plan[a].source == group[a - |p0|] && plan[b].source == group[b - |p0|];
      } else {
        assert plan[a] == p0[a];
        assert PrefixOf(plan[a].source) in init;
        assert plan[b].source in group;
      }
    }
  }

  lemma ShapeStepCovers(init: seq<string>, z: string, ts: seq<string>, p0: seq<Step>)
    requires forall f :: f in ts && PrefixOf(f) in init ==> f in Sources(p0)
    ensures forall f :: f in ts && PrefixOf(f) in init + [z] ==> f in Sources(p0 + GroupSteps(Group(ts, z), |init|))
  {
    var group := Group(ts, z);
    var plan := p0 + GroupSteps(group, |init|);
    forall f | f in ts && PrefixOf(f) in init + [z] ensures f in Sources(plan) {
      if PrefixOf(f) == z {
        var j :| 0 <= j < |group| && group[j] == f;
        assert Sources(plan)[|p0| + j] == f;
      } else {
        assert PrefixOf(f) in init;
        var j :| 0 <= j < |p0| && Sources(p0)[j] == f;
        assert Sources(plan)[j] == f;
      }
    }
  }

  /** The last element of a sequence without repetitions does not occur before it. */
  lemma LastNotIn<T>(init: seq<T>, z: T)
    requires Distinct(init + [z])
    ensures z !in init
  {
    forall i | 0 <= i < |init| ensures init[i] != z {
      assert (init + [z])[i] == init[i] && (init + [z])[|init|] == z;
    }
  }

  ghost predicate Injective(name: nat -> string)
  {
    forall a, b :: name(a) == name(b) ==> a == b
  }

  lemma {:induction false} LastWriterAppend(a: seq<Step>, b: seq<Step>, x: string, name: nat -> string)
    ensures LastWriter(a + b, x, name) == if LastWriter(b, x, name).Some? then LastWriter(b, x, name) else LastWriter(a, x, name)
    decreases |b|
  {
    if b == [] {
      assert a + b == a;
    } else {
      assert (a + b)[..|a + b| - 1] == a + b[..|b| - 1];
      LastWriterAppend(a, b[..|b| - 1], x, name);
    }
  }

  /** Within one group, the name of the group's index is written last by the group's last file. */
  lemma {:induction false} LastWriterGroup(group: seq<string>, n: nat, x: string, name: nat -> string)
    ensures LastWriter(GroupSteps(group, n), x, name) == if group != [] && x == name(n) then Some(group[|group| - 1]) else None
    decreases |group|
  {
    if group != [] {
      var g := GroupSteps(group, n);
      assert g[..|g| - 1] == GroupSteps(group[..|group| - 1], n);
      LastWriterGroup(group[..|group| - 1], n, x, name);
    }
  }

  /** The last group of the plan overrides what the earlier groups wrote. */
  lemma PlanFromStep(sorted: seq<string>, ts: seq<string>, x: string, name: nat -> string)
    requires sorted != []
    ensures var n := |sorted| - 1;
            var group := Group(ts, sorted[n]);
            LastWriter(PlanFrom(sorted, ts), x, name)
            == if group != [] && x == name(n) then Some(group[|group| - 1]) else LastWriter(PlanFrom(sorted[..n], ts), x, name)
  {
    var n := |sorted| - 1;
    LastWriterAppend(PlanFrom(sorted[..n], ts), GroupSteps(Group(ts, sorted[n]), n), x, name);
    LastWriterGroup(Group(ts, sorted[n]), n, x, name);
  }

  /** A name other than that of the last position keeps the writer it had before the last group. */
  lemma PlanFromStepOther(sorted: seq<string>, ts: seq<string>, x: string, name: nat -> string)
    requires sorted != [] && x != name(|sorted| - 1)
    ensures LastWriter(PlanFrom(sorted, ts), x, name) == LastWriter(PlanFrom(sorted[..|sorted| - 1], ts), x, name)
  {
    PlanFromStep(sorted, ts, x, name);
  }

  /** The name of the last position is last written by the last listed file of its group `g`. */
  lemma PlanFromStepLast(sorted: seq<string>, ts: seq<string>, g: seq<string>, name: nat -> string)
    requires sorted != [] && g == Group(ts, sorted[|sorted| - 1]) && g != []
    ensures LastWriter(PlanFrom(sorted, ts), name(|sorted| - 1), name) == Some(g[|g| - 1])
  {
    var n := |sorted| - 1;
    var x := name(n);
    PlanFromStep(sorted, ts, x, name);
    assert Group(ts, sorted[n]) == g && x == name(n);
  }

  /**
   * With distinct names per position, the name of position `m` is last written
   * by the last listed file of `g`, the group of the `m`-th prefix.
   */
  lemma {:induction false} PlanFromWriterOf(sorted: seq<string>, ts: seq<string>, m: nat, g: seq<string>, name: nat -> string)
    requires Injective(name)
    requires m < |sorted| && g == Group(ts, sorted[m]) && g != []
    ensures LastWriter(PlanFrom(sorted, ts), name(m), name) == Some(g[|g| - 1])
    decreases |sorted|
  {
    var n := |sorted| - 1;
    if m == n {
      PlanFromStepLast(sorted, ts, g, name);
    } else {
      assert name(m) != name(n);
      PlanFromStepOther(sorted, ts, name(m), name);
      assert sorted[..n][m] == sorted[m];
      PlanFromWriterOf(sorted[..n], ts, m, g, name);
    }
  }

  /** Only the names of the positions `0 .. |sorted| - 1` are written. */
  lemma {:induction false} PlanFromWritten(sorted: seq<string>, ts: seq<string>, x: string, name: nat -> string) returns (m: nat)
    requires LastWriter(PlanFrom(sorted, ts), x, name).Some?
    ensures m < |sorted| && x == name(m)
    decreases |sorted|
  {
    var n := |sorted| - 1;
    PlanFromStep(sorted, ts, x, name);
    if x == name(n) {
      m := n;
    } else {
      m := PlanFromWritten(sorted[..n], ts, x, name);
    }
  }

  // ---------------------------------------------------------------------------
  // Applying renames

  /**
   * The result of a sequence of renames whose sources are distinct, present and
   * never a new name: the sources are gone, every written name holds the content
   * of its last writer, and every other file is as it was.
   */
  lemma {:induction false} ApplyPlanResult(d: map<string, Content>, plan: seq<Step>, name: nat -> string)
    requires Distinct(Sources(plan))
    requires forall s :: s in Sources(plan) ==> s in d && IsTarget(s)
    requires forall k :: !IsTarget(name(k))
    ensures forall x :: x in ApplyPlan(d, plan, name) <==> (x in d && x !in Sources(plan)) || LastWriter(plan, x, name).Some?
    ensures forall x :: x in ApplyPlan(d, plan, name) ==>
              ApplyPlan(d, plan, name)[x] == if LastWriter(plan, x, name).Some? then d[LastWriter(plan, x, name).value] else d[x]
    decreases |plan|
  {
    if plan != [] {
      var init, t := plan[..|plan| - 1], plan[|plan| - 1];
      assert Sources(init) == Sources(plan)[..|plan| - 1];
      assert Sources(plan) == Sources(init) + [t.source];
      assert Distinct(Sources(init));
      ApplyPlanResult(d, init, name);
      var a0, a := ApplyPlan(d, init, name), ApplyPlan(d, plan, name);
      var to := name(t.index);
      LastWriterNotTarget(init, t.source, name);
      assert t.source !in Sources(init);
      assert t.source in a0 && a0[t.source] == d[t.source];
      assert a == (a0 - {t.source})[to := d[t.source]];
      forall x
        ensures x in a <==> (x in d && x !in Sources(plan)) || LastWriter(plan, x, name).Some?
        ensures x in a ==> a[x] == if LastWriter(plan, x, name).Some? then d[LastWriter(plan, x, name).value] else d[x]
      {
        assert LastWriter(plan, x, name) == if to == x then Some(t.source) else LastWriter(init, x, name);
        if x == t.source {
          LastWriterNotTarget(init, x, name);
        }
      }
    }
  }

  /** When no name is a target, a target file never has a writer. */
  lemma {:induction false} LastWriterNotTarget(plan: seq<Step>, x: string, name: nat -> string)
    requires IsTarget(x)
    requires forall k :: !IsTarget(name(k))
    ensures LastWriter(plan, x, name).None?
    decreases |plan|
  {
    if plan != [] {
      LastWriterNotTarget(plan[..|plan| - 1], x, name);
    }
  }

  /** The pass's naming gives distinct names that are never targets. */
  lemma NewNameScheme()
    ensures Injective(NewName)
    ensures forall k :: !IsTarget(NewName(k))
  {
    forall a, b | NewName(a) == NewName(b) ensures a == b {
      NewNameInjective(a, b);
    }
    forall k ensures !IsTarget(NewName(k)) {
      NewNameNotTarget(k);
    }
  }

  /** Every prefix in the sorted order has at least one file. */
  lemma SortedPrefixHasFiles(ts: seq<string>, m: nat)
    requires m < |Prefixes(ts)|
    ensures |SortedPrefixes(ts)| == |Prefixes(ts)|
    ensures Group(ts, SortedPrefixes(ts)[m]) != []
  {
    SortedElement(Prefixes(ts), KeyOf, m);
    PrefixHasFiles(ts, SortedPrefixes(ts)[m]);
  }

  /** Every dictionary key has a non-empty list. */
  lemma PrefixHasFiles(ts: seq<string>, p: string)
    requires p in Prefixes(ts)
    ensures Group(ts, p) != []
  {
    var f :| f in ts && PrefixOf(f) == p;
    assert f in Group(ts, p);
  }

  /** The facts about one directory's plan that the lemmas below share. */
  lemma PlanApplies(d: map<string, Content>, ts: seq<string>)
    requires Distinct(ts)
    requires forall f :: f in ts <==> f in d && IsTarget(f)
    ensures |SortedPrefixes(ts)| == |Prefixes(ts)| && Distinct(SortedPrefixes(ts))
    ensures forall f :: f in ts ==> f in Sources(Plan(ts))
    ensures forall s :: s in Sources(Plan(ts)) ==> s in d && IsTarget(s)
    ensures Injective(NewName) && forall k :: !IsTarget(NewName(k))
    ensures forall x :: x in ApplyPlan(d, Plan(ts), NewName) <==>
              (x in d && x !in Sources(Plan(ts))) || LastWriter(Plan(ts), x, NewName).Some?
    ensures forall x :: x in ApplyPlan(d, Plan(ts), NewName) ==>
              ApplyPlan(d, Plan(ts), NewName)[x] ==
              if LastWriter(Plan(ts), x, NewName).Some? then d[LastWriter(Plan(ts), x, NewName).value] else d[x]
  {
    PlanSources(d, ts);
    NewNameScheme();
    ApplyPlanResult(d, Plan(ts), NewName);
  }

  /** The renames of a directory's plan move distinct target files that are present, and every target file. */
  lemma PlanSources(d: map<string, Content>, ts: seq<string>)
    requires Distinct(ts)
    requires forall f :: f in ts <==> f in d && IsTarget(f)
    ensures |SortedPrefixes(ts)| == |Prefixes(ts)| && Distinct(SortedPrefixes(ts))
    ensures forall f :: f in ts ==> f in Sources(Plan(ts))
    ensures Distinct(Sources(Plan(ts)))
    ensures forall s :: s in Sources(Plan(ts)) ==> s in d && IsTarget(s)
  {
    var sorted, plan := SortedPrefixes(ts), Plan(ts);
    SortDistinct(Prefixes(ts), KeyOf);
    SortKeepsElements(Prefixes(ts), KeyOf);
    PlanFromShape(sorted, ts);
    forall s | s in Sources(plan) ensures s in d && IsTarget(s) {
      var k :| 0 <= k < |plan| && Sources(plan)[k] == s;
    }
  }

  /** After the pass no target file is left in the directory. */
  lemma RenumberRemovesTargets(d: map<string, Content>, ts: seq<string>)
    requires Distinct(ts)
    requires forall f :: f in ts <==> f in d && IsTarget(f)
    ensures forall f :: f in d && IsTarget(f) ==> f !in ApplyPlan(d, Plan(ts), NewName)
  {
    PlanApplies(d, ts);
    forall f | f in d && IsTarget(f) ensures f !in ApplyPlan(d, Plan(ts), NewName) {
      LastWriterNotTarget(Plan(ts), f, NewName);
    }
  }

  /** A file that is neither a target nor one of the new names is untouched. */
  lemma RenumberKeepsOthers(d: map<string, Content>, ts: seq<string>)
    requires Distinct(ts)
    requires forall f :: f in ts <==> f in d && IsTarget(f)
    ensures forall x :: x in d && !IsTarget(x) && (forall m :: 0 <= m < |Prefixes(ts)| ==> x != NewName(m)) ==>
              x in ApplyPlan(d, Plan(ts), NewName) && ApplyPlan(d, Plan(ts), NewName)[x] == d[x]
  {
    PlanApplies(d, ts);
    forall x | x in d && !IsTarget(x) && (forall m :: 0 <= m < |Prefixes(ts)| ==> x != NewName(m))
      ensures x in ApplyPlan(d, Plan(ts), NewName) && ApplyPlan(d, Plan(ts), NewName)[x] == d[x]
    {
      if LastWriter(Plan(ts), x, NewName).Some? {
        var m := PlanFromWritten(SortedPrefixes(ts), ts, x, NewName);
      }
    }
  }

  /**
   * The new name of position `m` holds the content of the last listed file of the
   * `m`-th prefix in sorted order (every earlier file of that group was overwritten).
   */
  lemma RenumberFillsNewNames(d: map<string, Content>, ts: seq<string>, m: nat)
    requires Distinct(ts)
    requires forall f :: f in ts <==> f in d && IsTarget(f)
    requires m < |Prefixes(ts)|
    ensures |SortedPrefixes(ts)| == |Prefixes(ts)|
    ensures var g := Group(ts, SortedPrefixes(ts)[m]);
            g != [] && g[|g| - 1] in d && NewName(m) in ApplyPlan(d, Plan(ts), NewName) &&
            ApplyPlan(d, Plan(ts), NewName)[NewName(m)] == d[g[|g| - 1]]
    ensures var p := SortedPrefixes(ts)[m]; var g := Group(ts, p);
            forall f :: f in ts && PrefixOf(f) == p && f != g[|g| - 1] ==> Before(ts, f, g[|g| - 1])
  {
    WriterOfPosition(ts, m);
    var g := Group(ts, SortedPrefixes(ts)[m]);
    assert g[|g| - 1] in g;
    PlanSources(d, ts);
    NewNameScheme();
    ApplyPlanWritten(d, Plan(ts), NewName, NewName(m));
  }

  /**
   * In the plan of the pass, the `m`-th new name is last written by the last
   * element of the `m`-th group, which is the last listed file with that prefix.
   */
  lemma WriterOfPosition(ts: seq<string>, m: nat)
    requires m < |Prefixes(ts)|
    ensures |SortedPrefixes(ts)| == |Prefixes(ts)|
    ensures var g := Group(ts, SortedPrefixes(ts)[m]);
            g != [] && LastWriter(Plan(ts), NewName(m), NewName) == Some(g[|g| - 1])
    ensures var p := SortedPrefixes(ts)[m]; var g := Group(ts, p);
            forall f :: f in ts && PrefixOf(f) == p && f != g[|g| - 1] ==> Before(ts, f, g[|g| - 1])
  {
    var sorted := SortedPrefixes(ts);
    SortedPrefixHasFiles(ts, m);
    NewNameScheme();
    PlanFromWriterOf(sorted, ts, m, Group(ts, sorted[m]), NewName);
    GroupLastListed(ts, sorted[m]);
  }

  /** A name some rename writes is present afterwards, with the content of its last writer. */
  lemma ApplyPlanWritten(d: map<string, Content>, plan: seq<Step>, name: nat -> string, x: string)
    requires Distinct(Sources(plan))
    requires forall s :: s in Sources(plan) ==> s in d && IsTarget(s)
    requires forall k :: !IsTarget(name(k))
    requires LastWriter(plan, x, name).Some?
    ensures x in ApplyPlan(d, plan, name) && ApplyPlan(d, plan, name)[x] == d[LastWriter(plan, x, name).value]
  {
    ApplyPlanResult(d, plan, name);
  }

  /** Nothing appears but the new names of the positions `0 .. k - 1`, `k` the number of prefixes. */
  lemma RenumberAddsOnlyNewNames(d: map<string, Content>, ts: seq<string>)
    requires Distinct(ts)
    requires forall f :: f in ts <==> f in d && IsTarget(f)
    ensures forall x :: x in ApplyPlan(d, Plan(ts), NewName) ==>
              x in d || exists m :: 0 <= m < |Prefixes(ts)| && x == NewName(m)
  {
    PlanApplies(d, ts);
    forall x | x in ApplyPlan(d, Plan(ts), NewName) ensures x in d || exists m :: 0 <= m < |Prefixes(ts)| && x == NewName(m) {
      if x !in d {
        var m := PlanFromWritten(SortedPrefixes(ts), ts, x, NewName);
      }
    }
  }
}
