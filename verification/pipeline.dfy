/**
 * How the two passes of the script fit together: the copy pass only ever puts
 * sample files into the output tree, so the renumbering pass over a directory it
 * filled selects every file there and never meets a prefix `int()` rejects.
 */
module Pipeline {
  import opened Common
  import opened Text
  import opened Classifier
  import opened Renumber

  /** A file the copy pass accepts is a target of the renumbering pass, with the same prefix. */
  lemma SampleIsTarget(name: string)
    requires Classify(name).Some?
    ensures IsTarget(name)
    ensures PrefixOf(name) == Classify(name).value.prefix
    ensures PyInt(PrefixOf(name)) == Some(DigitsValue(Classify(name).value.prefix))
  {
    var c := Classify(name).value;
    assert name[|name| - |Suffix(c.kind)|..] == Suffix(c.kind);
    NumeralParses(c.prefix);
  }

  /**
   * A directory holding only files the copy pass put there is renumbered, and
   * each prefix sorts by the value of its digits.
   */
  lemma CopiedDirectoryRenumbers(files: seq<string>)
    requires files != []
    requires forall f :: f in files ==> Classify(f).Some?
    ensures TargetFiles(files) == files
    ensures OutcomeOf(files) == Renumbered
    ensures forall f :: f in files ==> KeyOf(PrefixOf(f)) == DigitsValue(Classify(f).value.prefix)
  {
    forall f | f in files ensures IsTarget(f) && KeyOf(PrefixOf(f)) == DigitsValue(Classify(f).value.prefix) {
      SampleIsTarget(f);
    }
    AllTargetsKept(files);
    var ts := TargetFiles(files);
    forall p | p in Prefixes(ts) ensures PyInt(p).Some? {
      var f :| f in ts && PrefixOf(f) == p;
      SampleIsTarget(f);
    }
  }

  /** The target filter keeps a listing of target files whole. */
  lemma {:induction false} AllTargetsKept(files: seq<string>)
    requires forall f :: f in files ==> IsTarget(f)
    ensures TargetFiles(files) == files
    decreases |files|
  {
    if files != [] {
      var init := files[..|files| - 1];
      assert files == init + [files[|files| - 1]];
      AllTargetsKept(init);
    }
  }
}
