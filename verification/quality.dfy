/**
 * The quality-label rule of `process_split_dir`. Outside the labelled evaluation
 * split every sample is `good`; inside it a sample is `bad` only when its YAML
 * sidecar loads to a mapping whose `anomalous` entry equals 1. Every failure on
 * the way (no sidecar, an unreadable or unparsable one, a document that is not a
 * mapping) is swallowed and leaves the default `good`.
 */
module Quality {
  import opened Common

  datatype Label = Good | Bad

  /** The folder name each label gets in the output tree. */
  function LabelName(q: Label): string
  {
    match q
    case Good => "good"
    case Bad => "bad"
  }

  /** The one split whose samples carry metadata. */
  const TEST_SPLIT := "test_public"

  /** The scalar a YAML document may hold under `anomalous`; floats are read as reals. */
  datatype Scalar = IntValue(i: int) | BoolValue(b: bool) | FloatValue(x: real) | OtherValue

  /**
   * What `yaml.safe_load` on an existing sidecar gives: an error while opening or
   * parsing, a document that is not a mapping (an empty document loads to None),
   * or a mapping with or without an `anomalous` key.
   */
  datatype Loaded = LoadError | NotAMapping | Mapping(anomalous: Option<Scalar>)

  /** The sidecar file name for a sample: `f"{prefix}_metadata.yaml"`. */
  function MetadataName(prefix: string): string
  {
    prefix + "_metadata.yaml"
  }

  /** Python's `v == 1`: true for the integer 1, for True and for the float 1.0. */
  predicate EqualsOne(v: Scalar)
  {
    match v
    case IntValue(i) => i == 1
    case BoolValue(b) => b
    case FloatValue(x) => x == 1.0
    case OtherValue => false
  }

  /** The sidecar of `prefix` exists, loads to a mapping and records `anomalous` equal to 1. */
  ghost predicate MarkedAnomalous(sidecars: map<string, Loaded>, prefix: string)
  {
    MetadataName(prefix) in sidecars &&
    exists v :: sidecars[MetadataName(prefix)] == Mapping(Some(v)) && EqualsOne(v)
  }

  /**
   * The label of a sample. `sidecars` maps the names of the sidecar files present
   * in the split directory to what loading each yields; a name not in it does not
   * exist on disk.
   */
  function QualityOf(split: string, prefix: string, sidecars: map<string, Loaded>): (q: Label)
    ensures split != TEST_SPLIT ==> q == Good
    ensures q == Bad <==> split == TEST_SPLIT && MarkedAnomalous(sidecars, prefix)
  {
    if split == TEST_SPLIT then
      var file := MetadataName(prefix);
      if file in sidecars then
        match sidecars[file]
        case Mapping(entry) =>
          var v := if entry.Some? then entry.value else IntValue(0);
          if EqualsOne(v) then Bad else Good
        case _ => Good
      else Good
    else Good
  }
}
