/**
 * One directory of the output tree as the renumbering pass sees it: a mutable
 * table from file name to file content, changed one `os.rename` at a time.
 */
module Directories {
  import opened Common
  import opened StableSort
  import opened Renumber

  /** `files` is a listing of `d`: every file once, in some order. */
  ghost predicate Lists(files: seq<string>, d: map<string, Content>)
  {
    Distinct(files) && forall f :: f in files <==> f in d
  }

  class Directory {
    /** The regular files of the directory and what each holds. */
    var entries: map<string, Content>

    constructor (initial: map<string, Content>)
      ensures entries == initial
    {
      entries := initial;
    }

    /** `os.rename(from, to)`: the file must exist; an existing `to` is replaced. */
    method Rename(from: string, to: string)
      requires from in entries
      modifies this
      ensures entries == Moved(old(entries), from, to)
    {
      entries := (entries - {from})[to := entries[from]];
    }

    /**
     * The body of `renumber_files` for one directory whose listing is `files`:
     * skip an empty listing or one without target files, group the target files
     * by prefix, sort the prefixes by integer value (raising on the first prefix
     * `int()` rejects, before any rename), then rename every file of the `n`-th
     * group to `NewName(n)`.
     */
    method Renumber(files: seq<string>) returns (outcome: Outcome)
      requires Lists(files, entries)
      modifies this
      ensures outcome == OutcomeOf(files)
      ensures entries == AfterPass(old(entries), files)
    {
      if files == [] {
        return Skipped;
      }
      var ts := TargetFiles(files);
      if ts == [] {
        return Skipped;
      }
      var order, groups := GroupByPrefix(ts);
      var bad := FirstUnparsable(order);
      if bad.Some? {
        AfterPassUnchanged(old(entries), files);
        return NotAnInteger(bad.value);
      }
      var sorted := SortByKey(order, KeyOf);
      SortDistinct(order, KeyOf);
      SortKeepsElements(order, KeyOf);
      RenameGroups(ts, sorted, groups);
      outcome := Renumbered;
    }

    /**
     * The two nested loops of the pass: for the `n`-th prefix of `sorted`, rename
     * every file of its group, in group order, to `NewName(n)`.
     */
    method RenameGroups(ts: seq<string>, sorted: seq<string>, groups: map<string, seq<string>>)
      requires Distinct(ts) && Distinct(sorted)
      requires forall p :: p in sorted ==> p in groups && groups[p] == Group(ts, p)
      requires forall f :: f in ts ==> f in entries && IsTarget(f)
      modifies this
      ensures entries == ApplyPlan(old(entries), PlanFrom(sorted, ts), NewName)
    {
      NewNameScheme();
      var i := 0;
      while i < |sorted|
        invariant i <= |sorted|
        invariant entries == ApplyPlan(old(entries), PlanFrom(sorted[..i], ts), NewName)
        invariant forall f :: f in ts && PrefixOf(f) !in sorted[..i] ==> f in entries
      {
        var group := groups[sorted[i]];
        var done := PlanFrom(sorted[..i], ts);
        var j := 0;
        assert done + GroupSteps(group, i)[..j] == done;
        while j < |group|
          invariant j <= |group|
          invariant entries == ApplyPlan(old(entries), done + GroupSteps(group, i)[..j], NewName)
          invariant forall f :: f in ts && PrefixOf(f) !in sorted[..i] && f !in group[..j] ==> f in entries
        {
          RenameStillPending(ts, sorted, i, group, j);
          ApplyPlanSnoc(old(entries), done, GroupSteps(group, i), j, NewName);
          ghost var before := entries;
          Rename(group[j], NewName(i));
          PendingAfterRename(before, entries, ts, sorted[..i], group, j, NewName(i));
          j := j + 1;
        }
        assert GroupSteps(group, i)[..j] == GroupSteps(group, i);
        PlanFromSnoc(sorted, ts, i);
        assert done + GroupSteps(group, i)[..j] == PlanFrom(sorted[..i + 1], ts);
        PendingAfterGroup(entries, ts, sorted, i, group);
        i := i + 1;
      }
      assert sorted[..i] == sorted;
    }
  }

  /** What a directory with contents `d` and listing `files` holds after the pass over it. */
  function AfterPass(d: map<string, Content>, files: seq<string>): map<string, Content>
  {
    if OutcomeOf(files).Renumbered? then ApplyPlan(d, Plan(TargetFiles(files)), NewName) else d
  }

  /** A pass that does not renumber leaves the directory as it was. */
  lemma AfterPassUnchanged(d: map<string, Content>, files: seq<string>)
    requires !OutcomeOf(files).Renumbered?
    ensures AfterPass(d, files) == d
  {
  }

  /** A second pass over a renumbered directory finds no target file and changes nothing. */
  lemma SecondPassSkips(d: map<string, Content>, files: seq<string>, again: seq<string>)
    requires Lists(files, d) && OutcomeOf(files).Renumbered?
    requires Lists(again, AfterPass(d, files))
    ensures OutcomeOf(again) == Skipped
    ensures AfterPass(AfterPass(d, files), again) == AfterPass(d, files)
  {
    var ts := TargetFiles(files);
    var d' := AfterPass(d, files);
    RenumberRemovesTargets(d, ts);
    RenumberAddsOnlyNewNames(d, ts);
    NewNameScheme();
    forall x | x in again ensures !IsTarget(x) {
      assert x in d';
    }
    NoTargetsLeft(again);
  }

  /** A listing without target files has an empty target list. */
  lemma NoTargetsLeft(files: seq<string>)
    requires forall f :: f in files ==> !IsTarget(f)
    ensures TargetFiles(files) == []
  {
    if TargetFiles(files) != [] {
      assert TargetFiles(files)[0] in TargetFiles(files);
    }
  }

  /** What the walk over the directories does: the error it raises, if any, and the contents afterwards. */
  datatype WalkResult<M> = WalkResult(error: Option<string>, after: seq<M>)

  /**
   * The walk over directories with contents `ds` and listings `ls`, in order: each
   * directory is renumbered in turn until one raises, which ends the walk and
   * leaves that directory and the later ones as they were. The pass over one
   * directory is given by its `outcome` and its effect `pass`; the script's are
   * `OutcomeOf` and `AfterPass`.
   */
  function Walk<M>(ds: seq<M>, ls: seq<seq<string>>, outcome: seq<string> -> Outcome, pass: (M, seq<string>) -> M): (r: WalkResult<M>)
    requires |ds| == |ls|
    ensures |r.after| == |ds|
    decreases |ds|
  {
    if ds == [] then WalkResult(None, [])
    else match outcome(ls[0])
      case NotAnInteger(p) => WalkResult(Some(p), ds)
      case _ =>
        var rest := Walk(ds[1..], ls[1..], outcome, pass);
        WalkResult(rest.error, [pass(ds[0], ls[0])] + rest.after)
  }

  /** The position of the first listing whose pass raises, or the number of listings. */
  function FirstRaise(ls: seq<seq<string>>, outcome: seq<string> -> Outcome): (stop: nat)
    ensures stop <= |ls|
  {
    if ls == [] || outcome(ls[0]).NotAnInteger? then 0 else 1 + FirstRaise(ls[1..], outcome)
  }

  /**
   * What the walk means: every directory before the first raising one is renumbered
   * and raises nothing, the raising one names the error, and it and every later
   * directory keep their contents; without a raising directory there is no error.
   */
  lemma {:induction false} WalkMeaning<M>(ds: seq<M>, ls: seq<seq<string>>, outcome: seq<string> -> Outcome, pass: (M, seq<string>) -> M)
    requires |ds| == |ls|
    ensures Walk(ds, ls, outcome, pass).error.None? <==> FirstRaise(ls, outcome) == |ls|
    ensures FirstRaise(ls, outcome) < |ls| ==>
              outcome(ls[FirstRaise(ls, outcome)]) == NotAnInteger(Walk(ds, ls, outcome, pass).error.value)
    ensures forall k :: 0 <= k < FirstRaise(ls, outcome) ==>
              !outcome(ls[k]).NotAnInteger? && Walk(ds, ls, outcome, pass).after[k] == pass(ds[k], ls[k])
    ensures forall k :: FirstRaise(ls, outcome) <= k < |ds| ==> Walk(ds, ls, outcome, pass).after[k] == ds[k]
    decreases |ds|
  {
    if ds != [] && !outcome(ls[0]).NotAnInteger? {
      var w, rest := Walk(ds, ls, outcome, pass), Walk(ds[1..], ls[1..], outcome, pass);
      WalkMeaning(ds[1..], ls[1..], outcome, pass);
      forall k | 1 <= k < |ds| ensures w.after[k] == rest.after[k - 1] && ls[k] == ls[1..][k - 1] && ds[k] == ds[1..][k - 1] {
      }
    }
  }

  /** The walk so far: the first `|done|` directories are renumbered to `done`, the rest is still to come. */
  ghost predicate WalkedUpTo<M>(ds: seq<M>, ls: seq<seq<string>>, outcome: seq<string> -> Outcome, pass: (M, seq<string>) -> M, done: seq<M>)
    requires |ds| == |ls| && |done| <= |ds|
  {
    var rest := Walk(ds[|done|..], ls[|done|..], outcome, pass);
    Walk(ds, ls, outcome, pass) == WalkResult(rest.error, done + rest.after)
  }

  /** Nothing renumbered yet: the whole walk is still to come. */
  lemma WalkStarts<M>(ds: seq<M>, ls: seq<seq<string>>, outcome: seq<string> -> Outcome, pass: (M, seq<string>) -> M)
    requires |ds| == |ls|
    ensures WalkedUpTo(ds, ls, outcome, pass, [])
  {
    assert ds[0..] == ds && ls[0..] == ls;
    assert [] + Walk(ds, ls, outcome, pass).after == Walk(ds, ls, outcome, pass).after;
  }

  /** One more directory renumbered without raising. */
  lemma WalkAdvance<M>(ds: seq<M>, ls: seq<seq<string>>, outcome: seq<string> -> Outcome, pass: (M, seq<string>) -> M, done: seq<M>, next: M)
    requires |ds| == |ls| && |done| < |ds| && WalkedUpTo(ds, ls, outcome, pass, done)
    requires !outcome(ls[|done|]).NotAnInteger? && next == pass(ds[|done|], ls[|done|])
    ensures WalkedUpTo(ds, ls, outcome, pass, done + [next])
  {
    var k := |done|;
    DropOneMore(ds, k);
    DropOneMore(ls, k);
    WalkRenumbersFirst(ds[k..], ls[k..], outcome, pass);
    var rest := Walk(ds[k + 1..], ls[k + 1..], outcome, pass);
    AppendAssociates(done, [next], rest.after);
  }

  /** A first directory that does not raise is renumbered ahead of the rest of the walk. */
  lemma WalkRenumbersFirst<M>(ds: seq<M>, ls: seq<seq<string>>, outcome: seq<string> -> Outcome, pass: (M, seq<string>) -> M)
    requires |ds| == |ls| && ds != [] && !outcome(ls[0]).NotAnInteger?
    ensures var rest := Walk(ds[1..], ls[1..], outcome, pass);
      Walk(ds, ls, outcome, pass) == WalkResult(rest.error, [pass(ds[0], ls[0])] + rest.after)
  {
  }

  /** The directory at `|done|` raises: the walk ends with it and every later directory untouched. */
  lemma WalkStops<M>(ds: seq<M>, ls: seq<seq<string>>, outcome: seq<string> -> Outcome, pass: (M, seq<string>) -> M, done: seq<M>, p: string)
    requires |ds| == |ls| && |done| < |ds| && WalkedUpTo(ds, ls, outcome, pass, done)
    requires outcome(ls[|done|]) == NotAnInteger(p)
    ensures Walk(ds, ls, outcome, pass) == WalkResult(Some(p), done + ds[|done|..])
  {
    var k := |done|;
    assert ds[k..][0] == ds[k] && ls[k..][0] == ls[k];
  }

  /** Every directory renumbered: the walk raises nothing. */
  lemma WalkEnds<M>(ds: seq<M>, ls: seq<seq<string>>, outcome: seq<string> -> Outcome, pass: (M, seq<string>) -> M, done: seq<M>)
    requires |ds| == |ls| && |done| == |ds| && WalkedUpTo(ds, ls, outcome, pass, done)
    ensures Walk(ds, ls, outcome, pass) == WalkResult(None, done)
  {
    assert ds[|done|..] == [] && ls[|done|..] == [];
    assert done + [] == done;
  }

  /**
   * `renumber_files`: the directories of the walk in the order `os.walk` yields
   * them, with contents `contents` and listings `listings`, each renumbered in
   * turn by its own pass; the first prefix `int()` rejects raises out of the walk
   * as `error`, and `after` is what every directory then holds.
   */
  method RenumberTree(contents: seq<map<string, Content>>, listings: seq<seq<string>>)
    returns (error: Option<string>, after: seq<map<string, Content>>)
    requires |contents| == |listings|
    requires forall k :: 0 <= k < |contents| ==> Lists(listings[k], contents[k])
    ensures Walk(contents, listings, OutcomeOf, AfterPass) == WalkResult(error, after)
  {
    WalkStarts(contents, listings, OutcomeOf, AfterPass);
    after := [];
    var k := 0;
    while k < |contents|
      invariant k <= |contents| && |after| == k
      invariant WalkedUpTo(contents, listings, OutcomeOf, AfterPass, after)
    {
      var dir := new Directory(contents[k]);
      var outcome := dir.Renumber(listings[k]);
      if outcome.NotAnInteger? {
        WalkStops(contents, listings, OutcomeOf, AfterPass, after, outcome.prefix);
        return Some(outcome.prefix), after + contents[k..];
      }
      WalkAdvance(contents, listings, OutcomeOf, AfterPass, after, dir.entries);
      after := after + [dir.entries];
      k := k + 1;
    }
    WalkEnds(contents, listings, OutcomeOf, AfterPass, after);
    return None, after;
  }

  /** The file renamed next is a target file of the current group that is still present. */
  lemma RenameStillPending(ts: seq<string>, sorted: seq<string>, i: nat, group: seq<string>, j: nat)
    requires Distinct(sorted) && Distinct(group)
    requires i < |sorted| && j < |group|
    requires group == Group(ts, sorted[i])
    ensures group[j] in ts && PrefixOf(group[j]) !in sorted[..i] && group[j] !in group[..j]
  {
    assert group[j] in group;
    forall k | 0 <= k < i ensures sorted[..i][k] != sorted[i] {
    }
  }

  /** Renaming the `j`-th file of the group to a non-target name keeps every other pending file. */
  lemma PendingAfterRename(d: map<string, Content>, d': map<string, Content>, ts: seq<string>,
                           done: seq<string>, group: seq<string>, j: nat, to: string)
    requires j < |group| && group[j] in d
    requires forall f :: f in ts ==> IsTarget(f)
    requires !IsTarget(to)
    requires d' == Moved(d, group[j], to)
    requires forall f :: f in ts && PrefixOf(f) !in done && f !in group[..j] ==> f in d
    ensures forall f :: f in ts && PrefixOf(f) !in done && f !in group[..j + 1] ==> f in d'
  {
    assert group[..j + 1] == group[..j] + [group[j]];
  }

  /** Once a whole group is renamed, the files still pending are those of the later groups. */
  lemma PendingAfterGroup(d: map<string, Content>, ts: seq<string>, sorted: seq<string>, i: nat, group: seq<string>)
    requires i < |sorted|
    requires group == Group(ts, sorted[i])
    requires forall f :: f in ts && PrefixOf(f) !in sorted[..i] && f !in group[..|group|] ==> f in d
    ensures forall f :: f in ts && PrefixOf(f) !in sorted[..i + 1] ==> f in d
  {
    assert group[..|group|] == group;
    assert sorted[..i + 1] == sorted[..i] + [sorted[i]];
  }

  /** One more rename of a group: the plan grows by that step. */
  lemma ApplyPlanSnoc(d: map<string, Content>, done: seq<Step>, steps: seq<Step>, j: nat, name: nat -> string)
    requires j < |steps|
    ensures ApplyPlan(d, done + steps[..j + 1], name)
            == Moved(ApplyPlan(d, done + steps[..j], name), steps[j].source, name(steps[j].index))
  {
    var plan := done + steps[..j + 1];
    assert plan[..|plan| - 1] == done + steps[..j];
  }

  /** The renames of the first `i + 1` groups are those of the first `i`, then the `i`-th group's. */
  lemma PlanFromSnoc(sorted: seq<string>, ts: seq<string>, i: nat)
    requires i < |sorted|
    ensures PlanFrom(sorted[..i + 1], ts) == PlanFrom(sorted[..i], ts) + GroupSteps(Group(ts, sorted[i]), i)
  {
    assert sorted[..i + 1][..i] == sorted[..i];
  }
}
