/**
 * The copy decisions of `process_split_dir`: for each regular file of one
 * `<category>/<split>/data` directory, whether it is copied and to which path in
 * the output tree. The copying itself is I/O and is represented by the plan.
 */
module Reorganize {
  import opened Common
  import opened Text
  import opened Classifier
  import opened Quality
  import opened Paths

  /** The output folder of each modality. */
  function Folder(m: Modality): string
  {
    match m
    case Image => "rgb"
    case Depth => "xyz"
    case Mask => "gt"
  }

  /** `os.path.join(target_dir, category, split_type, quality, <folder>)` */
  function DestinationDir(target: string, category: string, split: string, q: Label, m: Modality): string
  {
    Join(target, [category, split, LabelName(q), Folder(m)])
  }

  /** One `shutil.copy2` the loop performs: which file, from where, to where. */
  datatype Copy = Copy(name: string, source: string, destination: string)

  /**
   * The body of the file loop for one file name: metadata files are not listed,
   * names that match no pattern are skipped, every other file is copied under its
   * own name into the folder chosen by its split, quality and modality.
   */
  function Route(sourceDir: string, split: string, target: string, category: string,
                 sidecars: map<string, Loaded>, filename: string): (r: Option<Copy>)
    ensures r.Some? <==> Classify(filename).Some?
    ensures r.Some? ==> r.value.name == filename
  {
    if EndsWith(filename, ".yaml") then
      NoSampleIsYaml();
      None
    else
      match Classify(filename)
      case None => None
      case Some(c) =>
        var dir := DestinationDir(target, category, split, QualityOf(split, c.prefix, sidecars), c.kind);
        Some(Copy(filename, Join(sourceDir, [filename]), Join(dir, [filename])))
  }

  /** Every sample name ends in `.png`, so the `.yaml` filter never removes one. */
  lemma NoSampleIsYaml()
    ensures forall name, m :: IsSampleName(name, m) ==> !EndsWith(name, ".yaml")
  {
    forall name, m | IsSampleName(name, m) ensures !EndsWith(name, ".yaml") {
      var e := Suffix(m);
      assert name[|name| - |e|..] == e;
      assert name[|name| - 1] == e[|e| - 1] == 'g';
    }
  }

  /** A sample file is copied under its own name into the folder for its split, quality and modality. */
  lemma RouteOfSample(sourceDir: string, split: string, target: string, category: string,
                      sidecars: map<string, Loaded>, prefix: string, m: Modality)
    requires IsNumeral(prefix)
    ensures var name := prefix + Suffix(m);
            var dir := DestinationDir(target, category, split, QualityOf(split, prefix, sidecars), m);
            Route(sourceDir, split, target, category, sidecars, name) == Some(Copy(name, Join(sourceDir, [name]), Join(dir, [name])))
  {
    ClassifyAccepts(prefix, m);
    NoSampleIsYaml();
  }

  /**
   * Split on `/`, a destination file path is the target root followed by exactly
   * category, split, quality, modality folder and the file's own name.
   */
  lemma {:induction false} DestinationLayout(target: string, category: string, split: string, q: Label, m: Modality, name: string)
    requires IsBaseDir(target)
    requires IsSegment(category) && IsSegment(split) && IsSegment(name)
    ensures Split(Join(DestinationDir(target, category, split, q, m), [name]), '/')
            == Split(target, '/') + [category, split, LabelName(q), Folder(m), name]
  {
    var parts := [category, split, LabelName(q), Folder(m)];
    LabelIsSegment(q);
    FolderIsSegment(m);
    JoinSegments(target, parts);
    var dir := Join(target, parts);
    JoinSegments(dir, [name]);
    assert Split(target, '/') + parts + [name] == Split(target, '/') + [category, split, LabelName(q), Folder(m), name];
  }

  lemma LabelIsSegment(q: Label)
    ensures IsSegment(LabelName(q))
  {
    assert LabelName(q) == "good" || LabelName(q) == "bad";
  }

  lemma FolderIsSegment(m: Modality)
    ensures IsSegment(Folder(m))
  {
  }

  /** A sample file name is a plain path component. */
  lemma SampleNameIsSegment(prefix: string, m: Modality)
    requires IsNumeral(prefix)
    ensures IsSegment(prefix + Suffix(m))
  {
    var name := prefix + Suffix(m);
    forall i | 0 <= i < |name| ensures name[i] != '/' {
      if i < |prefix| { assert IsDigit(prefix[i]); } else { assert name[i] == Suffix(m)[i - |prefix|]; }
    }
  }

  /** The loop body of one split directory as a function of the file name. */
  function Router(sourceDir: string, split: string, target: string, category: string,
                  sidecars: map<string, Loaded>): string -> Option<Copy>
  {
    filename => Route(sourceDir, split, target, category, sidecars, filename)
  }

  /** The copies the file loop makes for one split directory, in listing order. */
  function CopyPlan(sourceDir: string, split: string, target: string, category: string,
                    sidecars: map<string, Loaded>, files: seq<string>): seq<Copy>
  {
    FilterMap(files, Router(sourceDir, split, target, category, sidecars))
  }

  /**
   * The plan copies exactly the sample files of the listing: each copy is the
   * decision for some listed file, and every listed sample file is copied.
   */
  lemma CopyPlanExact(sourceDir: string, split: string, target: string, category: string,
                      sidecars: map<string, Loaded>, files: seq<string>)
    ensures forall c :: c in CopyPlan(sourceDir, split, target, category, sidecars, files) ==>
              c.name in files && Classify(c.name).Some? &&
              Route(sourceDir, split, target, category, sidecars, c.name) == Some(c)
    ensures forall f :: f in files && Classify(f).Some? ==>
              Route(sourceDir, split, target, category, sidecars, f).Some? &&
              Route(sourceDir, split, target, category, sidecars, f).value in CopyPlan(sourceDir, split, target, category, sidecars, files)
  {
    var router := Router(sourceDir, split, target, category, sidecars);
    var plan := CopyPlan(sourceDir, split, target, category, sidecars, files);
    forall c | c in plan
      ensures c.name in files && Classify(c.name).Some? && Route(sourceDir, split, target, category, sidecars, c.name) == Some(c)
    {
      var k :| 0 <= k < |plan| && plan[k] == c;
      var i :| 0 <= i < |files| && router(files[i]) == Some(plan[k]);
      assert router(files[i]) == Route(sourceDir, split, target, category, sidecars, files[i]);
    }
    forall f | f in files && Classify(f).Some?
      ensures Route(sourceDir, split, target, category, sidecars, f).Some?
      ensures Route(sourceDir, split, target, category, sidecars, f).value in plan
    {
      assert router(f) == Route(sourceDir, split, target, category, sidecars, f);
      FilterMapKeeps(files, router, f);
    }
  }

  /**
   * Within one split directory, no two copies write the same destination, so
   * every sample file arrives in the output tree once and no copy overwrites another.
   */
  lemma CopiesDoNotCollide(sourceDir: string, split: string, target: string, category: string,
                           sidecars: map<string, Loaded>, files: seq<string>)
    requires IsBaseDir(target)
    requires IsSegment(category) && IsSegment(split)
    requires Distinct(files)
    ensures forall k, l :: 0 <= k < l < |CopyPlan(sourceDir, split, target, category, sidecars, files)| ==>
              CopyPlan(sourceDir, split, target, category, sidecars, files)[k].destination
              != CopyPlan(sourceDir, split, target, category, sidecars, files)[l].destination
  {
    var router := Router(sourceDir, split, target, category, sidecars);
    var dest := (c: Copy) => c.destination;
    forall a, b | a in files && b in files && a != b && router(a).Some? && router(b).Some?
      ensures dest(router(a).value) != dest(router(b).value)
    {
      DestinationsDiffer(sourceDir, split, target, category, sidecars, a, b);
    }
    FilterMapKeysDiffer(files, router, dest);
  }

  /** Two different sample files get two different destination paths. */
  lemma DestinationsDiffer(sourceDir: string, split: string, target: string, category: string,
                           sidecars: map<string, Loaded>, a: string, b: string)
    requires IsBaseDir(target)
    requires IsSegment(category) && IsSegment(split)
    requires a != b
    requires Router(sourceDir, split, target, category, sidecars)(a).Some?
    requires Router(sourceDir, split, target, category, sidecars)(b).Some?
    ensures Router(sourceDir, split, target, category, sidecars)(a).value.destination
            != Router(sourceDir, split, target, category, sidecars)(b).value.destination
  {
    var router := Router(sourceDir, split, target, category, sidecars);
    assert router(a) == Route(sourceDir, split, target, category, sidecars, a);
    assert router(b) == Route(sourceDir, split, target, category, sidecars, b);
    RoutesDiffer(sourceDir, split, target, category, sidecars, a, b);
  }

  /** Different sample files are routed to different destination paths. */
  lemma RoutesDiffer(sourceDir: string, split: string, target: string, category: string,
                     sidecars: map<string, Loaded>, a: string, b: string)
    requires IsBaseDir(target)
    requires IsSegment(category) && IsSegment(split)
    requires a != b
    requires Route(sourceDir, split, target, category, sidecars, a).Some?
    requires Route(sourceDir, split, target, category, sidecars, b).Some?
    ensures Route(sourceDir, split, target, category, sidecars, a).value.destination
            != Route(sourceDir, split, target, category, sidecars, b).value.destination
  {
    LastComponent(sourceDir, split, target, category, sidecars, a);
    LastComponent(sourceDir, split, target, category, sidecars, b);
  }

  /** The last `/`-separated component of a path. */
  function LastPart(path: string): string
  {
    var parts := Split(path, '/');
    parts[|parts| - 1]
  }

  /** The last `/`-component of a routed file's destination is the file's name. */
  lemma LastComponent(sourceDir: string, split: string, target: string, category: string,
                      sidecars: map<string, Loaded>, name: string)
    requires IsBaseDir(target)
    requires IsSegment(category) && IsSegment(split)
    requires Route(sourceDir, split, target, category, sidecars, name).Some?
    ensures LastPart(Route(sourceDir, split, target, category, sidecars, name).value.destination) == name
  {
    var c := Classify(name).value;
    RouteOfSample(sourceDir, split, target, category, sidecars, c.prefix, c.kind);
    SampleNameIsSegment(c.prefix, c.kind);
    DestinationLayout(target, category, split, QualityOf(split, c.prefix, sidecars), c.kind, name);
  }
}
