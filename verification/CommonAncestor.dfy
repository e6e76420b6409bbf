/** `resolveCommonAncestor`: walking up from the first path until no later path lies outside. */
module CommonAncestor {
  import opened Wrappers
  import opened Paths

  function Shared(a: Path, b: Path): (p: Path)
    ensures p <= a && p <= b
  {
    if a == [] || b == [] || a[0] != b[0] then [] else [a[0]] + Shared(a[1..], b[1..])
  }

  lemma {:induction false} SharedIsLongest(a: Path, b: Path, n: nat)
    requires n <= |a|
    ensures a[..n] <= b <==> n <= |Shared(a, b)|
  {
    assert Shared(a, b) == a[..|Shared(a, b)|];
    if n > 0 && b != [] && a[0] == b[0] {
      SharedIsLongest(a[1..], b[1..], n - 1);
      assert a[..n] == [a[0]] + a[1..][..n - 1] && b == [b[0]] + b[1..];
    }
  }

  /** `path.relative`: up to the shared directory, then down. */
  function Relative(from: Path, to: Path): seq<string> {
    var shared := Shared(from, to);
    seq(|from| - |shared|, _ => "..") + to[|shared|..]
  }

  /** The text of the relative path starts with "../": it has a first segment ".." and a second one. */
  predicate StartsUpward(relative: seq<string>) {
    |relative| >= 2 && relative[0] == ".."
  }

  predicate ProperPrefix(a: Path, b: Path) {
    a <= b && |a| < |b|
  }

  /** The loop guard fails on "..": it climbs exactly while the candidate is neither below the
      ancestor nor the ancestor's immediate parent. */
  lemma ClimbsWhen(ancestor: Path, candidate: Path)
    requires Normal(candidate)
    ensures StartsUpward(Relative(ancestor, candidate)) <==>
            !(ancestor <= candidate) && !(ancestor != [] && candidate == Dirname(ancestor))
  {
    var shared := Shared(ancestor, candidate);
    SharedIsLongest(ancestor, candidate, |ancestor|);
    assert ancestor[..|ancestor|] == ancestor;
    assert shared == ancestor[..|shared|] && shared == candidate[..|shared|];
    if ancestor != [] {
      SharedIsLongest(ancestor, candidate, |ancestor| - 1);
    }
  }

  /** How far down `first` the walk may stay because of `candidate`. */
  function Depth(first: Path, candidate: Path): nat {
    if ProperPrefix(candidate, first) then |candidate| + 1 else |Shared(first, candidate)|
  }

  function MinDepth(first: Path, rest: seq<Path>): (n: nat)
    ensures n <= |first|
    ensures forall c | c in rest :: n <= Depth(first, c)
    ensures n == |first| || exists c :: c in rest && n == Depth(first, c)
  {
    if rest == [] then |first|
    else
      var init, c := rest[..|rest| - 1], rest[|rest| - 1];
      var n := MinDepth(first, init);
      assert forall d | d in rest :: d in init || d == c;
      if Depth(first, c) < n then Depth(first, c) else n
  }

  /** One candidate: stop at the depth it allows, or stay where the walk already is. */
  method ClimbFor(ghost first: Path, ancestor: Path, candidate: Path) returns (r: Path)
    requires Normal(candidate) && ancestor <= first
    ensures r == first[..if |ancestor| < Depth(first, candidate) then |ancestor| else Depth(first, candidate)]
  {
    r := ancestor;
    while StartsUpward(Relative(r, candidate))
      invariant r == first[..|r|] && |r| <= |ancestor|
      invariant |r| < |ancestor| ==> Depth(first, candidate) <= |r|
      decreases |r|
    {
      ClimbStep(first, r, candidate);
      var parent := Dirname(r);
      if parent == r {
        return;
      }
      r := parent;
    }
    ClimbStep(first, r, candidate);
  }

  lemma ClimbStep(first: Path, r: Path, candidate: Path)
    requires r <= first && Normal(candidate)
    ensures StartsUpward(Relative(r, candidate)) <==> Depth(first, candidate) < |r|
  {
    ClimbsWhen(r, candidate);
    SharedIsLongest(first, candidate, |r|);
    SharedIsPrefix(first, candidate);
  }

  lemma SharedIsPrefix(first: Path, candidate: Path)
    ensures candidate <= first <==> |Shared(first, candidate)| == |candidate|
    ensures candidate <= first <==> Shared(first, candidate) == candidate
  {
    if |candidate| <= |first| {
      SharedIsLongest(first, candidate, |candidate|);
      assert candidate <= first <==> first[..|candidate|] == candidate;
    }
  }

  /** Paths come in resolved; an empty list is the only error. */
  method ResolveCommonAncestor(paths: seq<Path>) returns (r: Option<Path>)
    requires forall p | p in paths :: Normal(p)
    ensures r.None? <==> paths == []
    ensures paths != [] ==> r == Some(paths[0][..MinDepth(paths[0], paths[1..])])
  {
    if paths == [] {
      return None;
    }
    var first, rest := paths[0], paths[1..];
    var ancestor := first;
    var k := 0;
    while k < |rest|
      invariant 0 <= k <= |rest|
      invariant ancestor == first[..MinDepth(first, rest[..k])]
    {
      assert rest[k] in paths;
      assert rest[..k + 1][..k] == rest[..k];
      ancestor := ClimbFor(first, ancestor, rest[k]);
      k := k + 1;
    }
    assert rest[..k] == rest;
    r := Some(ancestor);
  }

  // ---- what the depth means --------------------------------------------------------------------

  ghost predicate CommonPrefix(paths: seq<Path>, a: Path) {
    forall p | p in paths :: a <= p
  }

  ghost predicate LongestCommonPrefix(paths: seq<Path>, a: Path) {
    CommonPrefix(paths, a) && forall b: Path | CommonPrefix(paths, b) :: b <= a
  }

  function MinShared(first: Path, rest: seq<Path>): (n: nat)
    ensures n <= |first|
    ensures forall c | c in rest :: n <= |Shared(first, c)|
    ensures n == |first| || exists c :: c in rest && n == |Shared(first, c)|
  {
    if rest == [] then |first|
    else
      var init, c := rest[..|rest| - 1], rest[|rest| - 1];
      var n := MinShared(first, init);
      assert forall d :: d in rest <==> d in init || d == c;
      if |Shared(first, c)| < n then |Shared(first, c)| else n
  }

  lemma MinSharedIsLongest(first: Path, rest: seq<Path>)
    ensures LongestCommonPrefix([first] + rest, first[..MinShared(first, rest)])
  {
    var all, m := [first] + rest, MinShared(first, rest);
    assert first in all;
    forall p | p in all ensures first[..m] <= p {
      SharedIsLongest(first, p, m);
    }
    forall b: Path | CommonPrefix(all, b) ensures b <= first[..m] {
      assert b == first[..|b|];
      forall c | c in rest ensures |b| <= |Shared(first, c)| {
        assert c in all;
        SharedIsLongest(first, c, |b|);
      }
    }
  }

  lemma LongestIsUnique(first: Path, rest: seq<Path>, a: Path)
    requires LongestCommonPrefix([first] + rest, a)
    ensures a == first[..MinShared(first, rest)]
  {
    MinSharedIsLongest(first, rest);
    var b := first[..MinShared(first, rest)];
    assert a <= b && b <= a;
  }

  /** The later paths that are not proper directory prefixes of the first. */
  function Others(first: Path, rest: seq<Path>): (s: seq<Path>)
    ensures forall c :: c in s <==> c in rest && !ProperPrefix(c, first)
  {
    if rest == [] then []
    else
      var s, c := Others(first, rest[..|rest| - 1]), rest[|rest| - 1];
      assert rest == rest[..|rest| - 1] + [c];
      if ProperPrefix(c, first) then s else s + [c]
  }

  lemma DepthVersusShared(first: Path, rest: seq<Path>)
    ensures MinShared(first, rest) <= MinDepth(first, rest) <= MinShared(first, Others(first, rest))
    ensures MinDepth(first, rest) == MinShared(first, rest) <==>
            forall c | c in rest && ProperPrefix(c, first) :: MinShared(first, Others(first, rest)) <= |c|
  {
    forall c ensures ProperPrefix(c, first) ==> |Shared(first, c)| == |c| { SharedIsPrefix(first, c); }
  }

  /** The result is the longest common directory prefix of all paths exactly when every later path
      that is a proper directory prefix of the first is at or below the common prefix of the rest. */
  lemma CommonAncestorExact(first: Path, rest: seq<Path>, shared: Path)
    requires LongestCommonPrefix([first] + Others(first, rest), shared)
    ensures LongestCommonPrefix([first] + rest, first[..MinDepth(first, rest)]) <==>
            forall c | c in rest && ProperPrefix(c, first) :: shared <= c
  {
    var n := MinDepth(first, rest);
    DepthVersusShared(first, rest);
    MinSharedIsLongest(first, rest);
    LongestIsUnique(first, Others(first, rest), shared);
    forall c | c in rest && ProperPrefix(c, first) ensures shared <= c <==> |shared| <= |c| {
      assert c == first[..|c|];
    }
    if LongestCommonPrefix([first] + rest, first[..n]) {
      LongestIsUnique(first, rest, first[..n]);
    }
  }

  /** On a path given together with its own directory the walk is too deep: from /a/b it stops at /a/b
      although the directory /a is listed too. */
  lemma AncestorTooDeep()
    ensures MinDepth(["a", "b"], [["a"]]) == 2
    ensures !LongestCommonPrefix([["a", "b"], ["a"]], ["a", "b"])
  {
    var first, c: Path := ["a", "b"], ["a"];
    assert ProperPrefix(c, first);
    assert [c][..0] == [] && MinDepth(first, []) == 2;
    assert c in [first, c] && !(first <= c);
  }
}
