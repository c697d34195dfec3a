# Eyecandies dataset reorganizer — a Dafny model

`rearange_eyecandies.py` rebuilds the Eyecandies anomaly-detection dataset into
a flat `category/split/quality/modality` tree. It has two passes:

1. **Copy pass** (`process_split_dir`). Each regular file of a
   `<category>/<split>/data` directory is classified by its name:
   - `<digits>_image_5.png` is an `rgb` file;
   - `<digits>_depth.png` is an `xyz` file;
   - `<digits>_mask.png` is a `gt` file;
   - anything else is skipped.

   An accepted file is labelled `good` or `bad`. Only in the `test_public` split
   can it be `bad`: its `<prefix>_metadata.yaml` sidecar must load to a mapping
   whose `anomalous` entry equals 1. The file is then copied under its own name
   to `target/category/split/quality/folder/`.
2. **Renumbering pass** (`renumber_files`). Every directory of the output tree
   is visited in walk order.
   - The files ending in one of the three sample endings are grouped by the text
     before their first `_`.
   - The groups are sorted stably by the integer value of that text.
   - Every file of the `n`-th group is renamed to `n` written with at least
     three digits, plus `.png`.
   - A prefix that `int()` rejects raises out of the whole walk.

The model keeps the decisions and the in-place renaming. The file system becomes
values:
- a directory listing is a `seq<string>` in listing order;
- a directory's files are a `map<string, Content>` owned by a `Directory` object;
- each sidecar is the outcome of loading it.

Modules:
- `Common`: `Option`, duplicate-free sequences, the filter-and-transform loop shape,
  and a few small facts about slices and concatenation.
- `Text`: ASCII digit runs, `endswith`, `split`, the `:03d` format and `int(s)`.
- `Classifier`: the three regular expressions and the if/elif chain.
- `Quality`: the metadata rule.
- `Paths`: POSIX `os.path.join`.
- `Reorganize`: the destination folder and the copy decisions of one split directory.
- `StableSort`: `sorted(..., key=...)` as a stable insertion sort.
- `Renumber`: what the renumbering pass does to one directory.
  - The target filter.
  - The grouping loop, a method over a `map`.
  - The prefix order and the names.
  - The plan of renames and the directory it leaves behind.
- `RenumberOrder`: the numbers handed out. They are dense, follow the integer
  order, are shared within a group, and ties keep listing order.
- `Directories`: the `Directory` class.
  - `Rename` is `os.rename`.
  - `Renumber` is the pass over one directory, as nested loops of renames.
  - `RenumberTree` is the walk, specified by the function `Walk`.
- `Pipeline`: how the copy pass's output meets the renumbering pass.

Verify all the files together, from this directory, with Dafny 4.11:

    dafny verify *.dfy

With `--resource-limit 2000000`, the proofs verify on solver seeds 0 to 19
(`--boogie /randomSeed:N`), both with and without
`--warn-contradictory-assumptions`. No single proof needs more than about a
third of that limit:

    dafny verify --resource-limit 2000000 --verification-time-limit 0 --warn-contradictory-assumptions *.dfy

## Model

| member | source | states |
|---|---|---|
| Classifier.Classify | rearange_eyecandies.py:31-47 | A name is accepted exactly when it is a non-empty run of ASCII digits followed by one of the three endings. The modality returned is the only one whose pattern fits. The prefix is a digit run, and prefix plus ending gives back the name. |
| Classifier.MatchesIff | rearange_eyecandies.py:31-33 | The anchored pattern `^\d+<ending>$`, matched with backtracking, accepts exactly the names of the form digits-then-ending. |
| Classifier.MatchRestIff | rearange_eyecandies.py:31-33 | After the first digit, the matcher's choice between one more digit and the literal ending accepts exactly "digits, then the ending". |
| Classifier.PatternsExclusive | rearange_eyecandies.py:37-47 | At most one of the three patterns fits a name, so the order of the if/elif chain never matters. |
| Classifier.PrefixIsDigitRun | rearange_eyecandies.py:38 | For a sample name, `split('_')[0]` is the leading digit run, and the ending follows it directly. |
| Classifier.ClassifyAccepts | rearange_eyecandies.py:37-45 | Every digit run followed by an ending is accepted, with that modality and that prefix. |
| Quality.QualityOf | rearange_eyecandies.py:50-62 | Outside `test_public` the label is always `good`. It is `bad` exactly when the split is `test_public` and the prefix's sidecar exists, loads to a mapping and has `anomalous` equal to 1. Every load failure and every missing key gives `good`. |
| Reorganize.Route | rearange_eyecandies.py:25-27 | The loop body for one file decides on a copy exactly when the classifier accepts the name. The copy keeps the file's own name. |
| Reorganize.RouteOfSample | rearange_eyecandies.py:35-76 | A sample file is copied from the split directory to `join(target, category, split, quality, folder, name)`. The folder is `rgb`, `xyz` or `gt` by modality. |
| Reorganize.NoSampleIsYaml | rearange_eyecandies.py:25-27 | The `.yaml` exclusion never removes a sample file. |
| Reorganize.DestinationLayout | rearange_eyecandies.py:64-70 | Split on `/`, a destination path is the target root, then exactly category, split, quality, modality folder and file name. |
| Reorganize.LastComponent | rearange_eyecandies.py:64-76 | The last component of a routed file's destination is the file's name. |
| Reorganize.SampleNameIsSegment | rearange_eyecandies.py:76 | A sample name contains no `/`, so joining it adds exactly one path component. |
| Reorganize.CopyPlanExact | rearange_eyecandies.py:35-76 | The copies made for a split directory are exactly those of its listed sample files, each with that file's own route. |
| Reorganize.CopiesDoNotCollide | rearange_eyecandies.py:74-76 | Within one split directory no two copies write the same destination. |
| Reorganize.DestinationsDiffer | rearange_eyecandies.py:74-76 | Two different sample names get two different destinations. |
| Paths.JoinSegments | rearange_eyecandies.py:66-70 | Joining plain components onto a directory path appends exactly those components, as seen by splitting on `/`. |
| Text.Format03d | rearange_eyecandies.py:104 | `{n:03d}` is a digit run whose value is `n`. It has at least three characters, more only when `n` itself needs more, and then no leading zero. |
| Text.Decimal | rearange_eyecandies.py:104 | The decimal digits of `n` read back as `n` and have no leading zero. |
| Text.LeadingZeros | rearange_eyecandies.py:104 | Padding a digit run with zeros keeps its value. |
| Text.NumeralParses | rearange_eyecandies.py:100 | `int()` of an ASCII digit run is its base-10 value. |
| Text.PyIntOfStr | rearange_eyecandies.py:100 | `int()` reads back `str(n)` as `n` for every integer, with any ASCII white space around it. This includes a sign for negative `n`. |
| Text.SeparatorNotStripped | rearange_eyecandies.py:100 | `int()` rejects every prefix that starts with character 28 (file separator), whatever follows it, because that character is not white space to `int()`. |
| Text.SplitRoundTrip | rearange_eyecandies.py:38 | Joining the fields of `split(sep)` with `sep` gives back the string. |
| Text.SplitFirstField | rearange_eyecandies.py:38 | The first field of `split('_')` is the text before the first `_`. |
| Text.SplitAppendField | rearange_eyecandies.py:66-70 | Appending a separator and a separator-free field to a string appends exactly one field to its split. |
| StableSort.SortByKey | rearange_eyecandies.py:100 | The result of `sorted` is ordered by key and is a permutation of the input. |
| StableSort.SortWithKey | rearange_eyecandies.py:100 | Stability: the elements of each key appear in the result in their input order. |
| StableSort.SortKeepsTies | rearange_eyecandies.py:100 | Of two elements with equal keys, the first in the input is first in the result. |
| StableSort.SortDistinct | rearange_eyecandies.py:100 | Sorting distinct keys of a dictionary yields distinct elements. |
| StableSort.SortKeepsElements | rearange_eyecandies.py:100 | Sorting keeps the length and the set of elements. |
| StableSort.Insert | rearange_eyecandies.py:100 | Inserting into a sorted sequence keeps it sorted and adds one element. |
| StableSort.InsertWithKey | rearange_eyecandies.py:100 | Insertion appends the new element after all elements of its key and leaves other keys alone. |
| StableSort.BeforeIndex | rearange_eyecandies.py:101 | In a duplicate-free sequence, "occurs before" is the order of positions. |
| Renumber.TargetFiles | rearange_eyecandies.py:86-87 | The target files are exactly the listed names ending in one of the three endings, in listing order, without repeats. |
| Renumber.Prefixes | rearange_eyecandies.py:92-97 | The dictionary keys are distinct and are exactly the prefixes of the target files. |
| Renumber.Group | rearange_eyecandies.py:92-97 | A group holds exactly the target files with that prefix, in listing order, without repeats. |
| Renumber.GroupOrder | rearange_eyecandies.py:92-97 | Two files with the prefix are in the same order in its group as in the listing, in both directions. |
| Renumber.GroupLastListed | rearange_eyecandies.py:92-97 | The last element of a group is the last listed file with that prefix: every other such file is listed before it. |
| Renumber.GroupByPrefix | rearange_eyecandies.py:92-97 | The grouping loop builds a dictionary whose insertion order is the order of first appearance. Each key's list is that prefix's group. |
| Renumber.FirstUnparsable | rearange_eyecandies.py:100 | `sorted` raises exactly when some prefix fails `int()`. The prefix reported is the first such in dictionary order, and every earlier one parses. |
| Renumber.NewNameParses | rearange_eyecandies.py:104 | A new name is at least three digits plus `.png`, and its digits read back under `int()` as the index. |
| Renumber.NewNameInjective | rearange_eyecandies.py:104 | Different indices give different names. |
| Renumber.NewNameNotTarget | rearange_eyecandies.py:104 | A new name contains no `_`, so it is never a target file and never collides with a pending original. |
| Renumber.NoUnderscoreNotTarget | rearange_eyecandies.py:86-87 | Every target name contains `_`. |
| Renumber.PlanFromShape | rearange_eyecandies.py:101-108 | Each rename moves a target file to the position of its own prefix. No file is renamed twice, and every file of a visited prefix is renamed. |
| Renumber.LastWriter | rearange_eyecandies.py:106-108 | The source of the last rename in the plan that writes a name, and that source is one of the plan's sources. The function itself is the meaning: the last writer wins. `ApplyPlanResult` and `LastWriterGroup` state what it means for the directory. |
| Renumber.LastWriterGroup | rearange_eyecandies.py:102-108 | Within one group, the name of its index is last written by the group's last file. |
| Renumber.PlanFromWriterOf | rearange_eyecandies.py:101-108 | When the naming is injective, the name of index `m` is last written by the last file of `g`, the `m`-th group. |
| Renumber.PlanFromWritten | rearange_eyecandies.py:101-108 | Only the names of indices below the number of groups are written. |
| Renumber.ApplyPlanResult | rearange_eyecandies.py:108 | After a sequence of overwriting renames with distinct sources, a name is present exactly when it was present and never moved, or some rename wrote it. Its content is that of the last rename's source. |
| Renumber.LastWriterNotTarget | rearange_eyecandies.py:104-108 | No rename writes a target name. |
| Renumber.NewNameScheme | rearange_eyecandies.py:104 | The naming is injective, and no new name is a target. |
| Renumber.PlanSources | rearange_eyecandies.py:81-108 | The pass renames every target file and no file twice, and each renamed file is a target present in the directory. |
| Renumber.WriterOfPosition | rearange_eyecandies.py:101-108 | In the pass's renames, the `m`-th new name is last written by the last element of the `m`-th group. Every other file with that prefix is listed before that element. |
| Renumber.RenumberRemovesTargets | rearange_eyecandies.py:86-108 | After the pass, no target file is left. |
| Renumber.RenumberKeepsOthers | rearange_eyecandies.py:86-108 | A file that is not a target, and whose name is not one of the new names, is kept with its content. |
| Renumber.RenumberFillsNewNames | rearange_eyecandies.py:101-108 | The `m`-th new name holds the content of the last listed file with the `m`-th sorted prefix. An existing file of that name is replaced. |
| Renumber.RenumberAddsOnlyNewNames | rearange_eyecandies.py:101-108 | Every file after the pass was there before or is one of the new names. |
| RenumberOrder.IndexOf | rearange_eyecandies.py:100-101 | A target file's number is a position among the sorted prefixes, and that position holds its own prefix. |
| RenumberOrder.PlanUsesIndexOf | rearange_eyecandies.py:101-108 | Every rename sends its file to that file's number, and every target file is renamed exactly once. |
| RenumberOrder.IndicesBelow | rearange_eyecandies.py:100-101 | Every number handed out is below k, the number of distinct prefixes. |
| RenumberOrder.FileAtIndex | rearange_eyecandies.py:101-103 | Every number below k is used: some target file with the `n`-th sorted prefix gets number `n`. Together with IndicesBelow, the numbers are exactly 0 to k-1. |
| RenumberOrder.SameIndexIffSamePrefix | rearange_eyecandies.py:92-103 | Two target files get the same number exactly when they share a prefix. |
| RenumberOrder.IndexFollowsValue | rearange_eyecandies.py:100-101 | A prefix with a smaller integer value gets a smaller number. |
| RenumberOrder.IndexTies | rearange_eyecandies.py:92-101 | Of two prefixes with the same integer value (such as `7` and `07`), the one whose first file is listed first gets the smaller number, and only that one. |
| RenumberOrder.PrefixesOrder | rearange_eyecandies.py:92-97 | Dictionary keys are ordered by where their first files are listed. |
| RenumberOrder.NewPrefixOfFirst | rearange_eyecandies.py:94-96 | The first listed file of a prefix is where that prefix enters the dictionary. |
| RenumberOrder.TargetFilesOrder | rearange_eyecandies.py:86-87 | The target filter keeps listing order. |
| Directories.Directory.constructor | rearange_eyecandies.py:81 | A directory starts with the given files. |
| Directories.Directory.Rename | rearange_eyecandies.py:106-108 | `os.rename` removes the source and puts its content under the new name, replacing an existing file. |
| Directories.Directory.Renumber | rearange_eyecandies.py:81-108 | The pass over one directory reports one outcome. Skipped means no files or no target files. NotAnInteger means a prefix fails `int()`, and nothing is renamed. Renumbered means the files are exactly the renames of the plan applied in order. |
| Directories.Directory.RenameGroups | rearange_eyecandies.py:101-108 | The nested `enumerate` loops leave the directory exactly as the plan of renames prescribes. |
| Directories.RenumberTree | rearange_eyecandies.py:78-108 | The loop over the walk, each directory renumbered through its own `Directory.Renumber`, returns exactly the error and the contents that `Walk` prescribes. |
| Directories.WalkMeaning | rearange_eyecandies.py:78-108 | The walk raises exactly when some listing's pass raises, and then names the prefix of the first such listing. Every earlier directory is renumbered by its pass without raising. That directory and every later one keep their contents. |
| Directories.SecondPassSkips | rearange_eyecandies.py:86-108 | Renumbering an already renumbered directory finds no target file and changes nothing. |
| Pipeline.SampleIsTarget | rearange_eyecandies.py:37-45 | A file the copy pass accepts is a renumbering target. Its renumbering prefix is its classifier prefix, and `int()` reads that prefix as its digits' value. |
| Pipeline.CopiedDirectoryRenumbers | rearange_eyecandies.py:76-108 | A non-empty directory holding only copied sample files is renumbered without error. Each prefix sorts by the value of its digits. |

Proof steps that state no promise of the script by themselves have no row. Each supports the member named after it:
- `TagOfName`: `Classify`.
- `DigitsBeforeEnding`: `PrefixIsDigitRun`.
- `UnsplitEmptyFirst` and `UnsplitPrepend`: `SplitRoundTrip`.
- `JoinSegment`: `JoinSegments`.
- `SortedIndexOrder`: `IndexFollowsValue`.
- `SortedPrefixesLength`: `IndicesBelow`.
- `Grouped`, `GroupStep`, `GroupStepKeys`, `GroupStepLists` and `GroupStepList`: one turn of the grouping loop, for `GroupByPrefix`.
- `ShapeStepPlaced`, `ShapeStepDistinct` and `ShapeStepCovers`: the inductive steps of `PlanFromShape`.
- `PlanFromStep`, `PlanFromStepOther`, `PlanFromStepLast` and `LastWriterAppend`: the steps of `PlanFromWriterOf` and `PlanFromWritten`.
- `PlanApplies`, `ApplyPlanWritten` and `SortedPrefixHasFiles`: the final-state lemmas.
- `RoutesDiffer`: `DestinationsDiffer`.
- `AfterPassUnchanged`: the raising return of `Directory.Renumber`.
- `WalkedUpTo`, `WalkStarts`, `WalkAdvance`, `WalkRenumbersFirst`, `WalkStops` and `WalkEnds`: the loop invariant of `RenumberTree`.
- `SortedElement` and `PrefixHasFiles`: `SortedPrefixHasFiles`.
- `StrParses`, `StripAround` and the strip lemmas: `PyIntOfStr`.

## Left out

- The file system itself is not modelled. This covers:
  - `os.listdir` and `os.walk` and the order in which they list;
  - `os.path.isdir`, `isfile` and `exists`;
  - `os.makedirs`, `shutil.copy2` and `shutil.rmtree`.

  Listings are parameters in a given order. A directory's files are a map. A
  copy is a planned `Copy` record, and the copying itself is not modelled.
- `process_directory` (the loop over categories and the three split names) and
  `main` (hard-coded paths, clearing and creating the target) only call into the
  modelled code. They are not modelled.
- `tqdm` progress bars and `print` output are not modelled.
- `yaml.safe_load` is not modelled. Each sidecar is the outcome of loading it:
  - a load error;
  - a document that is not a mapping;
  - a mapping with or without `anomalous`.

  A YAML float is a real number.
- Classifier.Classify: accepts ASCII digits only and reads `$` as the end of the
  name. Python's `re` treats `\d` as any Unicode decimal digit, and its `$` also
  matches before a final newline.
- Text.PyInt: models `int()` on ASCII only:
  - ASCII white space (space, and tab through carriage return);
  - an optional sign;
  - ASCII digits.

  It does not model Unicode digits, Unicode white space (such as U+00A0), or `_` between digits. On those inputs the model rejects what `int()` accepts.
  Nor does it model the limit on integer-string conversion in CPython 3.11 and later: `int()` and `str()` raise `ValueError` on more than 4300 decimal digits. So `Text.PyIntOfStr` holds for every integer only without that limit. A file name has at most 255 bytes, so no prefix reaches it.
- Paths.Join is POSIX `os.path.join`. Windows paths are not modelled.
- A directory is modelled as a map from file names to contents, and its subdirectories are not in it. So the model does not capture `os.rename` raising `IsADirectoryError` when a new name such as `000.png` is an existing subdirectory.
- The never-reached `else: continue` of the destination chain is not modelled.
  Neither is the unused `parts` variable of the renaming loop.
- Not a gap but worth knowing: `:03d` is a minimum width, so index 1000 becomes
  `1000.png`. Names have exactly three digits only below 1000. The model follows
  the code, and the comment on that line is not modelled.
- Directories.RenumberTree: the `ValueError` raised by `int()` leaves the walk. It
  is modelled as a returned error. A directory renamed before the error stays renamed.
  The walk takes each directory's contents and listing as values, in `os.walk`
  order, and returns the contents afterwards. Each directory is renamed in place
  through a `Directory` object of its own. The directories are taken to be
  distinct, so sharing between them is not modelled.
