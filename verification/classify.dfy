/**
 * The filename classifier of `process_split_dir`: a data file is taken only when
 * its whole name is a run of digits followed by one of three fixed endings, which
 * also say which modality the file holds.
 */
module Classifier {
  import opened Common
  import opened Text

  /** The three kinds of file a sample may have. */
  datatype Modality = Image | Depth | Mask

  /** The fixed ending that marks each modality. */
  function Suffix(m: Modality): string
  {
    match m
    case Image => "_image_5.png"
    case Depth => "_depth.png"
    case Mask => "_mask.png"
  }

  /**
   * The part of a match that follows the first digit: `\d*` then the literal
   * ending, then end of string; the disjunction is the engine's backtracking
   * between taking one more digit and trying the literal.
   */
  predicate MatchRest(s: string, ending: string)
    decreases |s|
  {
    (s != [] && IsDigit(s[0]) && MatchRest(s[1..], ending)) || s == ending
  }

  /** `re.compile(r'^\d+' + ending + '$').match(s)`, with `$` read as end of string. */
  predicate Matches(s: string, ending: string)
  {
    s != [] && IsDigit(s[0]) && MatchRest(s[1..], ending)
  }

  /** The declarative reading of the pattern: a non-empty digit run, then exactly the ending. */
  predicate IsSampleName(name: string, m: Modality)
  {
    |name| > |Suffix(m)| && EndsWith(name, Suffix(m)) && IsDigits(name[..|name| - |Suffix(m)|])
  }

  /** The backtracking matcher accepts exactly "digits, then the ending" when the ending starts with a non-digit. */
  lemma {:induction false} MatchRestIff(s: string, ending: string)
    requires ending != [] && !IsDigit(ending[0])
    ensures MatchRest(s, ending) <==> EndsWith(s, ending) && IsDigits(s[..|s| - |ending|])
    decreases |s|
  {
    if s != [] {
      MatchRestIff(s[1..], ending);
      if EndsWith(s, ending) && IsDigits(s[..|s| - |ending|]) && s != ending {
        assert |s| > |ending|;
        assert s[1..][|s| - 1 - |ending|..] == s[|s| - |ending|..];
        assert s[1..][..|s| - 1 - |ending|] == s[1..|s| - |ending|];
        assert IsDigit(s[..|s| - |ending|][0]);
      }
      if IsDigit(s[0]) && MatchRest(s[1..], ending) {
        assert s[1..][|s| - 1 - |ending|..] == s[|s| - |ending|..];
        assert s[..|s| - |ending|] == [s[0]] + s[1..][..|s| - 1 - |ending|];
      }
    }
  }

  /** The regex for modality `m` matches exactly the names of the declarative shape. */
  lemma MatchesIff(name: string, m: Modality)
    ensures Matches(name, Suffix(m)) <==> IsSampleName(name, m)
  {
    var e := Suffix(m);
    if name != [] {
      MatchRestIff(name[1..], e);
      if IsSampleName(name, m) {
        assert IsDigit(name[..|name| - |e|][0]);
        assert name[1..][|name| - 1 - |e|..] == name[|name| - |e|..];
        assert name[1..][..|name| - 1 - |e|] == name[1..|name| - |e|];
      }
      if Matches(name, e) {
        assert name[1..][|name| - 1 - |e|..] == name[|name| - |e|..];
        assert name[..|name| - |e|] == [name[0]] + name[1..][..|name| - 1 - |e|];
      }
    }
  }

  /** For a sample name, `split('_')[0]` is the leading digit run, and the ending follows it. */
  lemma PrefixIsDigitRun(name: string, m: Modality)
    requires IsSampleName(name, m)
    ensures IsNumeral(Split(name, '_')[0])
    ensures name == Split(name, '_')[0] + Suffix(m)
  {
    var e := Suffix(m);
    assert e[0] == '_';
    DigitsBeforeEnding(name, e);
  }

  /** A digit run followed by an ending that starts with `_` is the first `_`-field. */
  lemma DigitsBeforeEnding(name: string, e: string)
    requires e != [] && e[0] == '_'
    requires |name| > |e| && EndsWith(name, e) && IsDigits(name[..|name| - |e|])
    ensures IsNumeral(Split(name, '_')[0])
    ensures name == Split(name, '_')[0] + e
  {
    var d := name[..|name| - |e|];
    assert '_' !in d by {
      forall i | 0 <= i < |d| ensures d[i] != '_' { assert IsDigit(d[i]); }
    }
    TakeDrop(name, |name| - |e|);
    DropFirst(e);
    AppendAssociates(d, ['_'], e[1..]);
    SplitFirstField(d, '_', e[1..]);
  }

  /** The fifth-last character of each ending, which tells the three apart. */
  function Tag(m: Modality): char
  {
    match m
    case Image => '5'
    case Depth => 'h'
    case Mask => 'k'
  }

  lemma TagOfName(name: string, m: Modality)
    requires IsSampleName(name, m)
    ensures name[|name| - 5] == Tag(m)
  {
    var e := Suffix(m);
    assert name[|name| - |e|..] == e;
    assert name[|name| - 5] == e[|e| - 5];
  }

  /** At most one pattern fits a name. */
  lemma PatternsExclusive(name: string, m: Modality)
    requires IsSampleName(name, m)
    ensures forall m' :: IsSampleName(name, m') ==> m' == m
  {
    TagOfName(name, m);
    forall m' | IsSampleName(name, m') ensures m' == m {
      TagOfName(name, m');
    }
  }

  /** A data file that was accepted, with its modality and numeric prefix. */
  datatype Classified = Classified(kind: Modality, prefix: string)

  /**
   * The if/elif chain of the file loop: try the image, depth and mask patterns in
   * that order; on a match the prefix is `filename.split('_')[0]`; otherwise skip.
   */
  function Classify(name: string): (r: Option<Classified>)
    ensures r.Some? <==> exists m :: IsSampleName(name, m)
    ensures r.Some? ==> IsNumeral(r.value.prefix) && name == r.value.prefix + Suffix(r.value.kind)
    ensures r.Some? ==> forall m :: IsSampleName(name, m) ==> m == r.value.kind
  {
    MatchesIff(name, Image);
    MatchesIff(name, Depth);
    MatchesIff(name, Mask);
    if Matches(name, Suffix(Image)) then
      PrefixIsDigitRun(name, Image);
      PatternsExclusive(name, Image);
      Some(Classified(Image, Split(name, '_')[0]))
    else if Matches(name, Suffix(Depth)) then
      PrefixIsDigitRun(name, Depth);
      PatternsExclusive(name, Depth);
      Some(Classified(Depth, Split(name, '_')[0]))
    else if Matches(name, Suffix(Mask)) then
      PrefixIsDigitRun(name, Mask);
      PatternsExclusive(name, Mask);
      Some(Classified(Mask, Split(name, '_')[0]))
    else
      None
  }

  /** Every digit run followed by one of the endings is accepted, with that modality and prefix. */
  lemma ClassifyAccepts(prefix: string, m: Modality)
    requires IsNumeral(prefix)
    ensures Classify(prefix + Suffix(m)) == Some(Classified(m, prefix))
  {
    var name := prefix + Suffix(m);
    assert name[..|name| - |Suffix(m)|] == prefix;
    assert name[|name| - |Suffix(m)|..] == Suffix(m);
    assert IsSampleName(name, m);
  }
}
