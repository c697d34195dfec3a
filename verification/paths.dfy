/**
 * Path construction as `os.path.join` does it on POSIX, and what the joined path
 * looks like when split on `/`.
 */
module Paths {
  import opened Common
  import opened Text

  /** `posixpath.join(a, b)`: an absolute `b` replaces `a`; otherwise a `/` is inserted when needed. */
  function JoinTwo(a: string, b: string): string
  {
    if b != [] && b[0] == '/' then b
    else if a == [] || a[|a| - 1] == '/' then a + b
    else a + "/" + b
  }

  /** `os.path.join(a, *parts)`: the components are joined on one at a time, left to right. */
  function Join(a: string, parts: seq<string>): string
    decreases |parts|
  {
    if parts == [] then a else JoinTwo(Join(a, parts[..|parts| - 1]), parts[|parts| - 1])
  }

  /** One path component: a non-empty name without `/`, as a directory listing yields. */
  predicate IsSegment(s: string)
  {
    s != [] && '/' !in s
  }

  /** A directory path to build on: non-empty and without a trailing `/`. */
  predicate IsBaseDir(t: string)
  {
    t != [] && t[|t| - 1] != '/'
  }

  /** Joining plain components onto a base directory appends exactly those components. */
  lemma {:induction false} JoinSegments(a: string, parts: seq<string>)
    requires IsBaseDir(a)
    requires forall i :: 0 <= i < |parts| ==> IsSegment(parts[i])
    ensures IsBaseDir(Join(a, parts))
    ensures Split(Join(a, parts), '/') == Split(a, '/') + parts
    decreases |parts|
  {
    if parts != [] {
      var init, p := parts[..|parts| - 1], parts[|parts| - 1];
      JoinSegments(a, init);
      JoinSegment(Join(a, init), p);
      assert parts == init + [p];
      AppendAssociates(Split(a, '/'), init, [p]);
    }
  }

  /** Joining one plain component onto a base directory inserts a `/` and adds one field. */
  lemma JoinSegment(b: string, p: string)
    requires IsBaseDir(b) && IsSegment(p)
    ensures JoinTwo(b, p) == b + ['/'] + p
    ensures IsBaseDir(JoinTwo(b, p))
    ensures Split(JoinTwo(b, p), '/') == Split(b, '/') + [p]
  {
    assert JoinTwo(b, p) == b + ['/'] + p;
    SplitAppendField(b, '/', p);
    assert p[|p| - 1] in p;
  }
}
