/** Normalised absolute POSIX paths as sequences of segments, `[]` being the root directory,
    together with the parts of Node's `path` module that the import-graph code calls. */
module Paths {
  type Path = seq<string>

  /** A path as `path.resolve` returns it: no empty, `.` or `..` segment is left. */
  predicate Normal(p: Path) {
    forall i | 0 <= i < |p| :: p[i] != "" && p[i] != "." && p[i] != ".."
  }

  function Split(s: string, sep: char): (parts: seq<string>)
    ensures |parts| > 0
  {
    if s == "" then [""]
    else
      var rest := Split(s[1..], sep);
      if s[0] == sep then [""] + rest else [[s[0]] + rest[0]] + rest[1..]
  }

  lemma {:induction false} SplitLast(s: string, sep: char)
    requires sep !in s
    ensures Split(s, sep) == [s]
  {
    if s != "" {
      assert s == [s[0]] + s[1..];
      SplitLast(s[1..], sep);
    }
  }

  lemma {:induction false} SplitStep(head: string, sep: char, rest: string)
    requires sep !in head
    ensures Split(head + [sep] + rest, sep) == [head] + Split(rest, sep)
  {
    var s := head + [sep] + rest;
    if head == "" {
      assert s[1..] == rest;
    } else {
      assert head == [head[0]] + head[1..];
      assert s[1..] == head[1..] + [sep] + rest;
      SplitStep(head[1..], sep, rest);
    }
  }

  lemma SplitThree(a: string, b: string, c: string, sep: char)
    requires sep !in a && sep !in b && sep !in c
    ensures Split(a + [sep] + (b + [sep] + c), sep) == [a, b, c]
  {
    SplitStep(a, sep, b + [sep] + c);
    SplitStep(b, sep, c);
    SplitLast(c, sep);
  }

  function Dirname(p: Path): (d: Path)
    ensures d <= p
  {
    if p == [] then [] else p[..|p| - 1]
  }

  /** One segment of `path.resolve`: `..` at the root stays at the root. */
  function Enter(p: Path, segment: string): Path {
    if segment == "" || segment == "." then p
    else if segment == ".." then Dirname(p)
    else p + [segment]
  }

  function Walk(p: Path, segments: seq<string>): Path
    decreases |segments|
  {
    if segments == [] then p else Walk(Enter(p, segments[0]), segments[1..])
  }

  lemma {:induction false} WalkKeepsNormal(p: Path, segments: seq<string>)
    requires Normal(p)
    ensures Normal(Walk(p, segments))
    decreases |segments|
  {
    if segments != [] {
      WalkKeepsNormal(Enter(p, segments[0]), segments[1..]);
    }
  }

  /** Walking from `d` never steps above the place `d` is measured from. */
  predicate StaysInside(d: Path, segments: seq<string>)
    decreases |segments|
  {
    segments == [] ||
    ((segments[0] == ".." ==> d != []) && StaysInside(Enter(d, segments[0]), segments[1..]))
  }

  lemma {:induction false} WalkInside(root: Path, d: Path, segments: seq<string>)
    requires StaysInside(d, segments)
    ensures Walk(root + d, segments) == root + Walk(d, segments)
    decreases |segments|
  {
    if segments != [] {
      assert Enter(root + d, segments[0]) == root + Enter(d, segments[0]);
      WalkInside(root, Enter(d, segments[0]), segments[1..]);
    }
  }

  /** Once outside `root`, a walk can only come back by naming the last segment of `root`. */
  lemma {:induction false} WalkStaysOutside(root: Path, w: Path, segments: seq<string>)
    requires root != [] && !(root <= w)
    requires root[|root| - 1] !in segments
    ensures !(root <= Walk(w, segments))
    decreases |segments|
  {
    if segments != [] {
      var next := Enter(w, segments[0]);
      assert segments[0] in segments;
      if |next| == |w| + 1 { assert next[|w|] == segments[0] && next[..|w|] == w; }
      WalkStaysOutside(root, next, segments[1..]);
    }
  }

  lemma {:induction false} WalkEscapes(root: Path, d: Path, segments: seq<string>)
    requires root != [] && !StaysInside(d, segments)
    requires root[|root| - 1] !in segments
    ensures !(root <= Walk(root + d, segments))
    decreases |segments|
  {
    if segments[0] == ".." && d == [] {
      assert root + d == root;
      WalkStaysOutside(root, Dirname(root), segments[1..]);
    } else {
      assert Enter(root + d, segments[0]) == root + Enter(d, segments[0]);
      WalkEscapes(root, Enter(d, segments[0]), segments[1..]);
    }
  }

  /** Index of the last dot, or -1. */
  function LastDot(s: string): (i: int)
    ensures -1 <= i < |s|
    ensures i >= 0 ==> s[i] == '.'
    ensures forall j | i < j < |s| :: s[j] != '.'
  {
    if s == "" then -1
    else if s[|s| - 1] == '.' then |s| - 1
    else LastDot(s[..|s| - 1])
  }

  /** `path.extname` of one segment: a leading dot starts a name, not an extension. */
  function NameExtension(name: string): (e: string)
    ensures |e| < |name| || e == ""
    ensures e != "" ==> e == name[|name| - |e|..]
  {
    var dot := LastDot(name);
    if dot <= 0 || name == ".." then "" else name[dot..]
  }

  function Extension(p: Path): string {
    if p == [] then "" else NameExtension(p[|p| - 1])
  }
}
