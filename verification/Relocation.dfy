/** Copying an import graph under a fresh root, and when the copy means the same as the original. */
module Relocation {
  import opened Wrappers
  import opened Paths
  import opened ImportGraph
  import opened CommonAncestor

  /** Paths are normalised, the root is a directory, and no file is used as a directory. */
  ghost predicate WellFormed(fs: FileSystem) {
    (forall p | p in fs :: Normal(p) && p != []) &&
    forall p, q | p in fs && q in fs :: !ProperPrefix(p, q)
  }

  /** A directory just made by mkdtemp: nothing is at, below or in the way of it. */
  ghost predicate Fresh(fs: FileSystem, iso: Path) {
    iso != [] && Normal(iso) && forall p | p in fs :: !(iso <= p) && !(p <= iso)
  }

  // ---- the package root ------------------------------------------------------------------------

  function Manifest(dir: Path): Path {
    dir + ["package.json"]
  }

  /** The nearest directory at or above the module's own that holds a manifest. */
  ghost predicate IsPackageRoot(fs: FileSystem, modulePath: Path, dir: Path) {
    dir <= Dirname(modulePath) && Manifest(dir) in fs &&
    forall d: Path | dir <= d <= Dirname(modulePath) && d != dir :: Manifest(d) !in fs
  }

  method ResolvePackageRoot(fs: FileSystem, modulePath: Path) returns (r: Option<Path>)
    ensures r.Some? ==> IsPackageRoot(fs, modulePath, r.value)
    ensures r.None? ==> forall d: Path | d <= Dirname(modulePath) :: Manifest(d) !in fs
  {
    var cursor := Dirname(modulePath);
    while true
      invariant cursor <= Dirname(modulePath)
      invariant forall d: Path | cursor <= d <= Dirname(modulePath) && d != cursor :: Manifest(d) !in fs
      decreases |cursor|
    {
      if Manifest(cursor) in fs {
        return Some(cursor);
      }
      var parent := Dirname(cursor);
      if parent == cursor {
        return None;
      }
      forall d: Path | parent <= d <= Dirname(modulePath) && d != parent ensures Manifest(d) !in fs {
        assert d == Dirname(modulePath)[..|d|] && cursor == Dirname(modulePath)[..|cursor|];
      }
      cursor := parent;
    }
    r := None;
  }

  lemma FilesAreNotAbove(fs: FileSystem, dir: Path)
    requires WellFormed(fs) && Manifest(dir) in fs
    ensures forall f | f in fs :: !(f <= dir)
  {
    forall f | f in fs ensures !(f <= dir) {
      assert f <= dir ==> ProperPrefix(f, Manifest(dir));
    }
  }

  // ---- the copy --------------------------------------------------------------------------------

  function Rebase(root: Path, iso: Path, p: Path): Path
    requires root <= p
  {
    iso + p[|root|..]
  }

  function RebaseResult(root: Path, iso: Path, r: Option<Path>): Option<Path>
    requires r.Some? ==> root <= r.value
  {
    if r.None? then None else Some(Rebase(root, iso, r.value))
  }

  /** Below `iso`, `tree` has exactly the copies of `files`, each with its original text. */
  ghost predicate HoldsCopies(fs: FileSystem, tree: FileSystem, files: set<Path>, root: Path, iso: Path) {
    (forall f | f in files :: f in fs && ProperPrefix(root, f)) &&
    (forall f | f in files :: Rebase(root, iso, f) in tree && tree[Rebase(root, iso, f)] == fs[f]) &&
    forall p | p in tree && iso <= p :: root + p[|iso|..] in files
  }

  lemma RelativeBelow(root: Path, p: Path)
    requires root <= p
    ensures Relative(root, p) == p[|root|..]
  {
    SharedIsLongest(root, p, |root|);
    assert root[..|root|] == root;
  }

  lemma RebaseInjective(root: Path, iso: Path, p: Path, q: Path)
    requires root <= p && root <= q && Rebase(root, iso, p) == Rebase(root, iso, q)
    ensures p == q
  {
    assert p == root + Rebase(root, iso, p)[|iso|..];
    assert q == root + Rebase(root, iso, q)[|iso|..];
  }

  lemma CopyStep(fs: FileSystem, tree: FileSystem, files: set<Path>, root: Path, iso: Path, f: Path)
    requires HoldsCopies(fs, tree, files, root, iso) && f in fs && ProperPrefix(root, f)
    ensures HoldsCopies(fs, tree[Rebase(root, iso, f) := fs[f]], files + {f}, root, iso)
  {
    var target := Rebase(root, iso, f);
    forall g | g in files && Rebase(root, iso, g) == target ensures g == f { RebaseInjective(root, iso, g, f); }
    assert root + target[|iso|..] == f;
  }

  method CopyFiles(fs: FileSystem, files: set<Path>, root: Path, iso: Path) returns (tree: FileSystem)
    requires Fresh(fs, iso) && forall f | f in files :: f in fs && ProperPrefix(root, f)
    ensures HoldsCopies(fs, tree, files, root, iso)
    ensures forall p | !(iso <= p) :: (p in tree <==> p in fs) && (p in fs ==> tree[p] == fs[p])
  {
    tree := fs;
    var remaining := files;
    while remaining != {}
      invariant remaining <= files
      invariant HoldsCopies(fs, tree, files - remaining, root, iso)
      invariant forall p | !(iso <= p) :: (p in tree <==> p in fs) && (p in fs ==> tree[p] == fs[p])
      decreases remaining
    {
      var f :| f in remaining;
      RelativeBelow(root, f);
      var target := iso + Relative(root, f);
      CopyStep(fs, tree, files - remaining, root, iso, f);
      assert files - (remaining - {f}) == files - remaining + {f};
      tree := tree[target := tree[f]];
      remaining := remaining - {f};
    }
    assert files - remaining == files;
  }

  /** The whole operation: every discovered file ends up below `iso`, nothing else changes, and the
      recorded entry is the copy of the module. */
  method CopyModuleImportGraph(fs: FileSystem, modulePath: Path, iso: Path)
    returns (found: bool, tree: FileSystem, copied: Path, root: Path, files: set<Path>)
    requires WellFormed(fs) && Fresh(fs, iso)
    ensures found <==> modulePath in fs && exists d :: d <= Dirname(modulePath) && Manifest(d) in fs
    ensures !found ==> tree == fs
    ensures found ==> forall f :: f in files <==> Reaches(fs, modulePath, f)
    ensures found ==> exists dir :: IsPackageRoot(fs, modulePath, dir) && LongestShared(dir, files, root)
    ensures found ==> HoldsCopies(fs, tree, files, root, iso) && modulePath in files
    ensures found ==> copied == Rebase(root, iso, modulePath)
    ensures found ==> forall p | !(iso <= p) :: (p in tree <==> p in fs) && (p in fs ==> tree[p] == fs[p])
  {
    found, tree, copied, root, files := false, fs, [], [], {};
    var packageRoot := ResolvePackageRoot(fs, modulePath);
    var graph := CollectRelativeImportGraph(fs, modulePath);
    if packageRoot.None? || graph.None? {
      return;
    }
    files := graph.value;
    forall f | f in files ensures f in fs { ReachedIsFile(fs, modulePath, f); }
    FilesAreNotAbove(fs, packageRoot.value);
    root := SharedRoot(fs, packageRoot.value, files);
    ReachesSelf(fs, modulePath);
    RelativeBelow(root, modulePath);
    tree := CopyFiles(fs, files, root, iso);
    copied := iso + Relative(root, modulePath);
    found := true;
  }

  lemma NormalManifestDir(dir: Path)
    requires Normal(Manifest(dir))
    ensures Normal(dir)
  {
    forall i | 0 <= i < |dir| ensures dir[i] == Manifest(dir)[i] {}
  }

  method Listed(files: set<Path>) returns (s: seq<Path>)
    ensures forall f :: f in s <==> f in files
  {
    s := [];
    var remaining := files;
    while remaining != {}
      invariant remaining <= files
      invariant forall f :: f in files <==> f in s || f in remaining
      decreases remaining
    {
      var f :| f in remaining;
      s := s + [f];
      remaining := remaining - {f};
    }
  }

  /** `root` is the longest directory prefix that the package root and all the files share. */
  ghost predicate LongestShared(packageRoot: Path, files: set<Path>, root: Path) {
    SharedBy(packageRoot, files, root) && forall b: Path | SharedBy(packageRoot, files, b) :: b <= root
  }

  ghost predicate SharedBy(packageRoot: Path, files: set<Path>, b: Path) {
    b <= packageRoot && forall f | f in files :: b <= f
  }

  /** The files come out of the discovered set in some order; the ancestor does not depend on it. */
  method SharedRoot(fs: FileSystem, packageRoot: Path, files: set<Path>) returns (root: Path)
    requires WellFormed(fs) && Manifest(packageRoot) in fs
    requires files <= fs.Keys && forall f | f in files :: !(f <= packageRoot)
    ensures LongestShared(packageRoot, files, root) && forall f | f in files :: ProperPrefix(root, f)
  {
    NormalManifestDir(packageRoot);
    var rest := Listed(files);
    assert forall p | p in [packageRoot] + rest :: Normal(p);
    var r := ResolveCommonAncestor([packageRoot] + rest);
    root := r.value;
    assert ([packageRoot] + rest)[1..] == rest;
    RootIsShared(packageRoot, rest);
    LongestOfListed(packageRoot, rest, files, root);
  }

  lemma LongestOfListed(packageRoot: Path, rest: seq<Path>, files: set<Path>, root: Path)
    requires LongestCommonPrefix([packageRoot] + rest, root) && forall f :: f in rest <==> f in files
    ensures LongestShared(packageRoot, files, root)
  {
    var all := [packageRoot] + rest;
    assert packageRoot in all && forall f | f in files :: f in all;
    forall b: Path | SharedBy(packageRoot, files, b) ensures b <= root {
      assert CommonPrefix(all, b);
    }
  }

  /** The package root is a directory, so no file can be in the way of the climb. */
  lemma RootIsShared(packageRoot: Path, rest: seq<Path>)
    requires forall f | f in rest :: !(f <= packageRoot)
    ensures forall f | f in rest :: ProperPrefix(packageRoot[..MinDepth(packageRoot, rest)], f)
    ensures LongestCommonPrefix([packageRoot] + rest, packageRoot[..MinDepth(packageRoot, rest)])
  {
    var root := packageRoot[..MinDepth(packageRoot, rest)];
    DepthVersusShared(packageRoot, rest);
    MinSharedIsLongest(packageRoot, rest);
    forall f | f in rest ensures ProperPrefix(root, f) {
      SharedIsLongest(packageRoot, f, MinDepth(packageRoot, rest));
    }
  }

  // ---- resolution in the copy ------------------------------------------------------------------

  function Shift(root: Path, s: seq<Path>): (r: seq<Path>)
    ensures |r| == |s| && forall i | 0 <= i < |s| :: r[i] == root + s[i]
  {
    if s == [] then [] else [root + s[0]] + Shift(root, s[1..])
  }

  lemma ShiftAppend(root: Path, s: seq<Path>, t: seq<Path>)
    ensures Shift(root, s + t) == Shift(root, s) + Shift(root, t)
  {
  }

  lemma RenameBelow(root: Path, p: Path, name: string)
    requires p != []
    ensures (root + p)[|root + p| - 1] == p[|p| - 1]
    ensures (root + p)[..|root + p| - 1] + [name] == root + (p[..|p| - 1] + [name])
  {
    assert (root + p)[..|root + p| - 1] == root + p[..|p| - 1];
  }

  lemma GlueBelow(root: Path, p: Path, suffix: string)
    requires p != []
    ensures Glue(root + p, suffix) == root + Glue(p, suffix)
    ensures Extension(root + p) == Extension(p) && Stem(root + p) == root + Stem(p)
  {
    var name := p[|p| - 1];
    RenameBelow(root, p, name + suffix);
    RenameBelow(root, p, name[..|name| - |NameExtension(name)|]);
  }

  lemma {:induction false} TriedBelow(root: Path, p: Path, extensions: seq<string>)
    requires p != []
    ensures Tried(root + p, extensions) == Shift(root, Tried(p, extensions))
    ensures forall q | q in Tried(p, extensions) :: q != []
    decreases |extensions|
  {
    if extensions != [] {
      var init, e := extensions[..|extensions| - 1], extensions[|extensions| - 1];
      TriedBelow(root, p, init);
      GlueBelow(root, p, "");
      if Extension(p) != "" {
        StemTriedBelow(root, p, Tried(p, init), e);
      } else {
        IndexTriedBelow(root, p, Tried(p, init), e);
      }
    }
  }

  lemma StemTriedBelow(root: Path, p: Path, tried: seq<Path>, e: string)
    requires p != []
    ensures Shift(root, tried) + [Glue(Stem(root + p), e)] == Shift(root, tried + [Glue(Stem(p), e)])
  {
    GlueBelow(root, p, e);
    GlueBelow(root, Stem(p), e);
    ShiftAppend(root, tried, [Glue(Stem(p), e)]);
  }

  lemma IndexTriedBelow(root: Path, p: Path, tried: seq<Path>, e: string)
    requires p != []
    ensures Shift(root, tried) + [Glue(root + p, e), root + p + ["index" + e]]
            == Shift(root, tried + [Glue(p, e), p + ["index" + e]])
  {
    GlueBelow(root, p, e);
    assert root + p + ["index" + e] == root + (p + ["index" + e]);
    ShiftAppend(root, tried, [Glue(p, e), p + ["index" + e]]);
  }

  /** Shrinking the file set to one that keeps the winner keeps the answer. */
  lemma {:induction false} FirstFileSubset(files: set<Path>, fewer: set<Path>, s: seq<Path>)
    requires fewer <= files
    requires FirstFile(files, s).Some? ==> FirstFile(files, s).value in fewer
    ensures FirstFile(fewer, s) == FirstFile(files, s)
  {
    if s != [] && s[0] !in files {
      FirstFileSubset(files, fewer, s[1..]);
    }
  }

  lemma {:induction false} FirstFileShift(
      fs: FileSystem, tree: FileSystem, files: set<Path>, root: Path, iso: Path, s: seq<Path>)
    requires HoldsCopies(fs, tree, files, root, iso)
    ensures FirstFile(files, Shift(root, s)).Some? ==> root <= FirstFile(files, Shift(root, s)).value
    ensures FirstFile(tree.Keys, Shift(iso, s)) == RebaseResult(root, iso, FirstFile(files, Shift(root, s)))
  {
    if s != [] {
      var p := s[0];
      assert Rebase(root, iso, root + p) == iso + p;
      assert root + (iso + p)[|iso|..] == root + p;
      FirstFileShift(fs, tree, files, root, iso, s[1..]);
    }
  }

  /** A discovered file, one of its relative specifiers, and a copy that holds every import. */
  ghost predicate Relocated(fs: FileSystem, tree: FileSystem, files: set<Path>, root: Path, iso: Path,
                            from: Path, specifier: string) {
    HoldsCopies(fs, tree, files, root, iso) && ClosedUnderImports(fs, files) &&
    from in files && specifier in fs[from] && IsRelative(specifier)
  }

  /** The importing directory, measured from the copied root. */
  function Below(root: Path, from: Path): Path
    requires ProperPrefix(root, from)
  {
    Dirname(from)[|root|..]
  }

  lemma ResolvedIsCopied(fs: FileSystem, files: set<Path>, from: Path, specifier: string)
    requires ClosedUnderImports(fs, files) && from in files && from in fs && specifier in fs[from] && IsRelative(specifier)
    ensures Resolve(fs.Keys, from, specifier).Some? ==> Resolve(fs.Keys, from, specifier).value in files
  {
    var r := Resolve(fs.Keys, from, specifier);
    var i :| 0 <= i < |fs[from]| && fs[from][i] == specifier;
    assert r == ImportAt(fs, from, i);
    if r.Some? { assert Imports(fs, from, r.value); }
  }

  lemma RebasedDirname(root: Path, iso: Path, from: Path)
    requires ProperPrefix(root, from)
    ensures Dirname(from) == root + Below(root, from)
    ensures Dirname(Rebase(root, iso, from)) == iso + Below(root, from)
  {
  }

  lemma ResolvesAmongCopied(fs: FileSystem, tree: FileSystem, files: set<Path>, root: Path, iso: Path,
                            from: Path, specifier: string)
    requires Relocated(fs, tree, files, root, iso, from, specifier)
    ensures Resolve(fs.Keys, from, specifier) == Resolve(files, from, specifier)
    ensures Resolve(fs.Keys, from, specifier).Some? ==>
              Resolve(fs.Keys, from, specifier).value in files && ProperPrefix(root, Resolve(fs.Keys, from, specifier).value)
    ensures Dirname(from) == root + Below(root, from)
    ensures Dirname(Rebase(root, iso, from)) == iso + Below(root, from)
  {
    ResolvedIsCopied(fs, files, from, specifier);
    RebasedDirname(root, iso, from);
    FirstFileSubset(fs.Keys, files, AllTried(Target(from, specifier)));
  }

  /** A specifier that never climbs above the copied root and ends strictly below it resolves in the
      copy to the copy of its original target, or to nothing when it resolved to nothing. */
  lemma InsidePreserved(fs: FileSystem, tree: FileSystem, files: set<Path>, root: Path, iso: Path,
                        from: Path, specifier: string)
    requires Relocated(fs, tree, files, root, iso, from, specifier)
    requires StaysInside(Below(root, from), Split(specifier, '/'))
    requires Walk(Below(root, from), Split(specifier, '/')) != []
    ensures Resolve(fs.Keys, from, specifier).Some? ==> root <= Resolve(fs.Keys, from, specifier).value
    ensures Resolve(tree.Keys, Rebase(root, iso, from), specifier)
            == RebaseResult(root, iso, Resolve(fs.Keys, from, specifier))
  {
    var segments := Split(specifier, '/');
    var p := Walk(Below(root, from), segments);
    ResolvesAmongCopied(fs, tree, files, root, iso, from, specifier);
    WalkInside(root, Below(root, from), segments);
    WalkInside(iso, Below(root, from), segments);
    TriedBelow(root, p, SOURCE_FILE_EXTENSIONS);
    TriedBelow(iso, p, SOURCE_FILE_EXTENSIONS);
    FirstFileShift(fs, tree, files, root, iso, AllTried(p));
  }

  // ---- a specifier that names the copied root itself -------------------------------------------

  function Indexes(extensions: seq<string>): seq<Path> {
    if extensions == [] then []
    else Indexes(extensions[..|extensions| - 1]) + [["index" + extensions[|extensions| - 1]]]
  }

  /** When only things strictly below `dir` exist, resolving `dir` itself can only find an index file,
      and only if its name has no extension. */
  lemma {:induction false} OnlyIndexes(files: set<Path>, dir: Path, extensions: seq<string>)
    requires dir != [] && forall p | p in files :: ProperPrefix(dir, p)
    ensures FirstFile(files, Tried(dir, extensions)) ==
            if Extension(dir) == "" then FirstFile(files, Shift(dir, Indexes(extensions))) else None
    decreases |extensions|
  {
    if extensions != [] {
      var init, e := extensions[..|extensions| - 1], extensions[|extensions| - 1];
      OnlyIndexes(files, dir, init);
      if Extension(dir) != "" {
        FirstFileAppend(files, Tried(dir, init), Glue(Stem(dir), e));
      } else {
        var tried, index := Tried(dir, init), ["index" + e];
        FirstFileAppend(files, tried, Glue(dir, e));
        FirstFileAppend(files, tried + [Glue(dir, e)], dir + index);
        assert tried + [Glue(dir, e)] + [dir + index] == tried + [Glue(dir, e), dir + index];
        ShiftAppend(dir, Indexes(init), [index]);
        assert Shift(dir, [index]) == [dir + index];
        FirstFileAppend(files, Shift(dir, Indexes(init)), dir + index);
      }
    }
  }

  /** The index file of the copied root that the loader would pick. */
  function RootIndex(files: set<Path>, root: Path): Option<Path> {
    FirstFile(files, Shift(root, Indexes(SOURCE_FILE_EXTENSIONS)))
  }

  lemma IsolatedIndexes(fs: FileSystem, tree: FileSystem, files: set<Path>, root: Path, iso: Path)
    requires HoldsCopies(fs, tree, files, root, iso) && iso != []
    requires forall p | p in tree :: iso <= p
    ensures FirstFile(tree.Keys, AllTried(iso)) ==
            if Extension(iso) == "" then FirstFile(tree.Keys, Shift(iso, Indexes(SOURCE_FILE_EXTENSIONS))) else None
  {
    forall p | p in tree ensures ProperPrefix(iso, p) {
      assert p == iso + p[|iso|..];
      assert root + p[|iso|..] in files;
    }
    OnlyIndexes(tree.Keys, iso, SOURCE_FILE_EXTENSIONS);
  }

  /** A specifier that ends exactly on the copied root is preserved by the isolated tree exactly when
      the original answer is the root's index file or nothing, as the name of the new root has no
      extension or has one; below a named root: when both names agree on having an extension, or no
      index file of the root was copied. */
  lemma OnRootExact(fs: FileSystem, tree: FileSystem, files: set<Path>, root: Path, iso: Path,
                    from: Path, specifier: string)
    requires Relocated(fs, tree, files, root, iso, from, specifier)
    requires iso != [] && forall p | p in tree :: iso <= p
    requires StaysInside(Below(root, from), Split(specifier, '/'))
    requires Walk(Below(root, from), Split(specifier, '/')) == []
    ensures Resolve(fs.Keys, from, specifier).Some? ==> root <= Resolve(fs.Keys, from, specifier).value
    ensures Resolve(tree.Keys, Rebase(root, iso, from), specifier)
            == RebaseResult(root, iso, Resolve(fs.Keys, from, specifier))
            <==> Resolve(fs.Keys, from, specifier) == if Extension(iso) == "" then RootIndex(files, root) else None
    ensures root != [] ==>
              (Resolve(tree.Keys, Rebase(root, iso, from), specifier)
               == RebaseResult(root, iso, Resolve(fs.Keys, from, specifier))
               <==> (Extension(root) == "" <==> Extension(iso) == "") || RootIndex(files, root).None?)
  {
    var segments, indexes := Split(specifier, '/'), Indexes(SOURCE_FILE_EXTENSIONS);
    var r := Resolve(fs.Keys, from, specifier);
    ResolvesAmongCopied(fs, tree, files, root, iso, from, specifier);
    WalkInside(root, Below(root, from), segments);
    WalkInside(iso, Below(root, from), segments);
    assert root + [] == root && iso + [] == iso;
    IsolatedIndexes(fs, tree, files, root, iso);
    FirstFileShift(fs, tree, files, root, iso, indexes);
    var index := RootIndex(files, root);
    if r.Some? && index.Some? && Rebase(root, iso, r.value) == Rebase(root, iso, index.value) {
      RebaseInjective(root, iso, r.value, index.value);
    }
    if root != [] { OnlyIndexes(files, root, SOURCE_FILE_EXTENSIONS); }
  }

  // ---- a specifier that climbs above the copied root -------------------------------------------

  lemma SiblingOutside(iso: Path, w: Path, q: Path)
    requires !(iso <= w) && |q| > 0 && q[..|q| - 1] <= w
    ensures !ProperPrefix(iso, q)
  {
    if |iso| < |q| {
      assert q[..|q| - 1][..|iso|] == q[..|iso|] && q[..|q| - 1][..|iso|] == w[..|iso|];
    }
  }

  lemma GlueOutside(iso: Path, w: Path, suffix: string)
    requires iso != [] && !(iso <= w)
    ensures !ProperPrefix(iso, Glue(w, suffix)) && !ProperPrefix(iso, w + ["index" + suffix])
    ensures w != [] ==> !ProperPrefix(iso, Glue(Stem(w), suffix))
  {
    SiblingOutside(iso, w, Glue(w, suffix));
    SiblingOutside(iso, w, w + ["index" + suffix]);
    if w != [] { SiblingOutside(iso, w, Glue(Stem(w), suffix)); }
  }

  lemma {:induction false} TriedOutside(iso: Path, w: Path, extensions: seq<string>)
    requires iso != [] && !(iso <= w)
    ensures forall q | q in Tried(w, extensions) :: !ProperPrefix(iso, q)
    decreases |extensions|
  {
    if extensions != [] {
      var init, e := extensions[..|extensions| - 1], extensions[|extensions| - 1];
      TriedOutside(iso, w, init);
      GlueOutside(iso, w, e);
    }
  }

  /** A target outside `iso` finds nothing when everything lies strictly below `iso`. */
  lemma TargetMiss(tree: set<Path>, iso: Path, from: Path, specifier: string)
    requires iso != [] && forall p | p in tree :: ProperPrefix(iso, p)
    requires !(iso <= Target(from, specifier))
    ensures Resolve(tree, from, specifier) == None
  {
    TriedOutside(iso, Target(from, specifier), SOURCE_FILE_EXTENSIONS);
    FirstFileIsFirst(tree, AllTried(Target(from, specifier)));
  }

  /** A specifier that climbs above the copied root finds nothing in the isolated tree (mkdtemp's name
      being unknown to the author), so it is preserved exactly when it resolved to nothing. */
  lemma ClimbingExact(fs: FileSystem, tree: FileSystem, files: set<Path>, root: Path, iso: Path,
                      from: Path, specifier: string)
    requires Relocated(fs, tree, files, root, iso, from, specifier)
    requires iso != [] && forall p | p in tree :: iso <= p
    requires iso[|iso| - 1] !in Split(specifier, '/')
    requires !StaysInside(Below(root, from), Split(specifier, '/'))
    ensures Resolve(fs.Keys, from, specifier).Some? ==> root <= Resolve(fs.Keys, from, specifier).value
    ensures Resolve(tree.Keys, Rebase(root, iso, from), specifier)
            == RebaseResult(root, iso, Resolve(fs.Keys, from, specifier))
            <==> Resolve(fs.Keys, from, specifier).None?
  {
    var segments := Split(specifier, '/');
    ResolvesAmongCopied(fs, tree, files, root, iso, from, specifier);
    WalkEscapes(iso, Below(root, from), segments);
    forall p | p in tree ensures ProperPrefix(iso, p) {
      assert p == iso + p[|iso|..];
      assert root + p[|iso|..] in files;
    }
    TargetMiss(tree.Keys, iso, Rebase(root, iso, from), specifier);
  }

  /** A module that imports its neighbour through the name of their own directory. */
  ghost predicate Detour(fs: FileSystem, tree: FileSystem, home: Path, iso: Path, specifier: string) {
    home == ["p"] && iso == ["t", "x"] && specifier == "../p/b.ts" &&
    fs == map[home + ["a.ts"] := [specifier], home + ["b.ts"] := [], Manifest(home) := []] &&
    tree == map[iso + ["a.ts"] := [specifier], iso + ["b.ts"] := []]
  }

  /** The promise that a copied import still finds its file fails: /p/a.ts importing "../p/b.ts" finds
      /p/b.ts, but its copy /t/x/a.ts finds nothing, since the new root is not called p. */
  lemma ClimbingImportLost(fs: FileSystem, tree: FileSystem, home: Path, iso: Path, specifier: string)
    requires Detour(fs, tree, home, iso, specifier)
    ensures IsPackageRoot(fs, home + ["a.ts"], home) && LongestShared(home, {home + ["a.ts"], home + ["b.ts"]}, home)
    ensures Relocated(fs, tree, {home + ["a.ts"], home + ["b.ts"]}, home, iso, home + ["a.ts"], specifier)
    ensures forall f :: f in {home + ["a.ts"], home + ["b.ts"]} <==> Reaches(fs, home + ["a.ts"], f)
    ensures Resolve(fs.Keys, home + ["a.ts"], specifier) == Some(home + ["b.ts"])
    ensures Resolve(tree.Keys, Rebase(home, iso, home + ["a.ts"]), specifier) == None
  {
    DetourFound(fs, tree, home, iso, specifier);
    DetourCopies(fs, tree, home, iso, specifier);
    assert Dirname(home + ["a.ts"]) == home;
    DetourTargets(home, iso, specifier);
    assert Rebase(home, iso, home + ["a.ts"]) == iso + ["a.ts"];
    TargetMiss(tree.Keys, iso, iso + ["a.ts"], specifier);
  }

  lemma DetourFound(fs: FileSystem, tree: FileSystem, home: Path, iso: Path, specifier: string)
    requires Detour(fs, tree, home, iso, specifier)
    ensures var a, b := home + ["a.ts"], home + ["b.ts"];
            Resolve(fs.Keys, a, specifier) == Some(b) && ClosedUnderImports(fs, {a, b}) &&
            forall f :: f in {a, b} <==> Reaches(fs, a, f)
  {
    var a, b := home + ["a.ts"], home + ["b.ts"];
    DetourTargets(home, iso, specifier);
    TargetHit(fs.Keys, a, specifier);
    DetourFiles(fs, tree, home, iso, specifier);
    OnlyImport(fs, a, b, specifier);
    OnlyImportCloses(fs, {a, b}, a, b);
    DetourGraph(fs, {a, b}, a, b);
  }

  lemma DetourFiles(fs: FileSystem, tree: FileSystem, home: Path, iso: Path, specifier: string)
    requires Detour(fs, tree, home, iso, specifier)
    ensures home + ["a.ts"] in fs && fs[home + ["a.ts"]] == [specifier]
    ensures home + ["b.ts"] in fs && fs[home + ["b.ts"]] == []
  {
    assert "a.ts"[0] != "b.ts"[0] && "package.json"[0] == 'p';
    assert (home + ["a.ts"])[1] != (home + ["b.ts"])[1];
    assert (home + ["a.ts"])[1] != Manifest(home)[1] && (home + ["b.ts"])[1] != Manifest(home)[1];
  }

  lemma DetourTargets(home: Path, iso: Path, specifier: string)
    requires home == ["p"] && iso == ["t", "x"] && specifier == "../p/b.ts"
    ensures IsRelative(specifier) && Target(home + ["a.ts"], specifier) == home + ["b.ts"]
    ensures !(iso <= Target(iso + ["a.ts"], specifier))
  {
    ClimbingSegments(specifier);
    WalkThree(home, Split(specifier, '/'));
    WalkThree(iso, Split(specifier, '/'));
    assert Dirname(home + ["a.ts"]) == home && Dirname(iso + ["a.ts"]) == iso;
    assert "p"[0] != "x"[0];
    assert Target(iso + ["a.ts"], specifier)[1] == "p";
  }

  lemma DetourCopies(fs: FileSystem, tree: FileSystem, home: Path, iso: Path, specifier: string)
    requires Detour(fs, tree, home, iso, specifier)
    ensures HoldsCopies(fs, tree, {home + ["a.ts"], home + ["b.ts"]}, home, iso)
    ensures forall p | p in tree :: ProperPrefix(iso, p)
  {
    DetourFiles(fs, tree, home, iso, specifier);
    forall name: string ensures Rebase(home, iso, home + [name]) == iso + [name] && (iso + [name])[|iso|..] == [name] {}
    assert "a.ts"[0] != "b.ts"[0];
  }

  lemma ReachesOnly(fs: FileSystem, files: set<Path>, a: Path, f: Path)
    requires ClosedUnderImports(fs, files) && a in files && Reaches(fs, a, f)
    ensures f in files
  {
    var chain :| Connects(fs, chain, a, f);
    ChainStaysInside(fs, files, chain);
  }

  lemma DetourGraph(fs: FileSystem, files: set<Path>, a: Path, b: Path)
    requires files == {a, b} && Imports(fs, a, b) && ClosedUnderImports(fs, files)
    ensures forall f :: f in files <==> Reaches(fs, a, f)
  {
    ReachesSelf(fs, a);
    ReachesStep(fs, a, a, b);
    forall f | Reaches(fs, a, f) ensures f in files { ReachesOnly(fs, files, a, f); }
  }

  lemma OnlyImportCloses(fs: FileSystem, files: set<Path>, a: Path, b: Path)
    requires files == {a, b} && b in fs && fs[b] == [] && forall y | Imports(fs, a, y) :: y == b
    ensures ClosedUnderImports(fs, files)
  {
  }

  lemma OnlyImport(fs: FileSystem, a: Path, b: Path, specifier: string)
    requires a in fs && fs[a] == [specifier] && IsRelative(specifier) && Resolve(fs.Keys, a, specifier) == Some(b)
    ensures Imports(fs, a, b) && forall y | Imports(fs, a, y) :: y == b
  {
    assert ImportAt(fs, a, 0) == Some(b);
  }

  lemma ClimbingSegments(specifier: string)
    requires specifier == "../p/b.ts"
    ensures Split(specifier, '/') == ["..", "p", "b.ts"]
  {
    SplitThree("..", "p", "b.ts", '/');
    assert specifier == ".." + ['/'] + ("p" + ['/'] + "b.ts");
  }

  lemma WalkThree(p: Path, segments: seq<string>)
    requires |segments| == 3
    ensures Walk(p, segments) == Enter(Enter(Enter(p, segments[0]), segments[1]), segments[2])
  {
    var one, two := Enter(p, segments[0]), Enter(Enter(p, segments[0]), segments[1]);
    var tail, last := segments[1..], segments[2..];
    assert tail[0] == segments[1] && tail[1..] == last && last[0] == segments[2];
    assert Walk(p, segments) == Walk(one, tail) == Walk(two, last);
    assert Walk(two, last) == Walk(Enter(two, last[0]), last[1..]);
  }

  lemma {:induction false} FirstTried(base: Path, extensions: seq<string>)
    ensures |Tried(base, extensions)| > 0 && Tried(base, extensions)[0] == base
    decreases |extensions|
  {
    if extensions != [] { FirstTried(base, extensions[..|extensions| - 1]); }
  }

  /** A target that is itself a file always wins. */
  lemma TargetHit(files: set<Path>, from: Path, specifier: string)
    requires Target(from, specifier) in files
    ensures Resolve(files, from, specifier) == Some(Target(from, specifier))
  {
    FirstTried(Target(from, specifier), SOURCE_FILE_EXTENSIONS);
  }

  // ---- the graph of the copy -------------------------------------------------------------------

  /** Every relative specifier of a discovered file stays inside and ends below the root. */
  ghost predicate SelfContained(fs: FileSystem, files: set<Path>, root: Path)
    requires forall f | f in files :: f in fs && ProperPrefix(root, f)
  {
    forall f, s | f in files && s in fs[f] && IsRelative(s) ::
      StaysInside(Below(root, f), Split(s, '/')) && Walk(Below(root, f), Split(s, '/')) != []
  }

  lemma ImportsCorrespond(fs: FileSystem, tree: FileSystem, files: set<Path>, root: Path, iso: Path, a: Path)
    requires HoldsCopies(fs, tree, files, root, iso) && ClosedUnderImports(fs, files)
    requires SelfContained(fs, files, root) && a in files
    ensures forall b | Imports(fs, a, b) :: b in files && Imports(tree, Rebase(root, iso, a), Rebase(root, iso, b))
    ensures forall c | Imports(tree, Rebase(root, iso, a), c) ::
              exists b :: b in files && Imports(fs, a, b) && c == Rebase(root, iso, b)
  {
    var copy := Rebase(root, iso, a);
    forall i | 0 <= i < |fs[a]|
      ensures ImportAt(fs, a, i).Some? ==> root <= ImportAt(fs, a, i).value
      ensures ImportAt(tree, copy, i) == RebaseResult(root, iso, ImportAt(fs, a, i))
    {
      assert fs[a][i] in fs[a];
      if IsRelative(fs[a][i]) {
        InsidePreserved(fs, tree, files, root, iso, a, fs[a][i]);
      }
    }
    forall c | Imports(tree, copy, c)
      ensures exists b :: b in files && Imports(fs, a, b) && c == Rebase(root, iso, b)
    {
      var i :| 0 <= i < |tree[copy]| && ImportAt(tree, copy, i) == Some(c);
      assert Imports(fs, a, ImportAt(fs, a, i).value);
    }
    forall b | Imports(fs, a, b) ensures b in files && Imports(tree, copy, Rebase(root, iso, b)) {
      var i :| 0 <= i < |fs[a]| && ImportAt(fs, a, i) == Some(b);
      assert ImportAt(tree, copy, i) == Some(Rebase(root, iso, b));
    }
  }

  /** Collecting the graph of the copied module gives exactly the copies of the original graph. */
  lemma CopiedGraph(fs: FileSystem, tree: FileSystem, files: set<Path>, root: Path, iso: Path, entry: Path)
    requires HoldsCopies(fs, tree, files, root, iso) && SelfContained(fs, files, root)
    requires entry in files && forall f :: f in files <==> Reaches(fs, entry, f)
    ensures forall p :: Reaches(tree, Rebase(root, iso, entry), p) <==>
                        exists f :: f in files && p == Rebase(root, iso, f)
  {
    var copyEntry := Rebase(root, iso, entry);
    forall a, b | a in files && Imports(fs, a, b) ensures b in files { ReachesStep(fs, entry, a, b); }
    forall p | Reaches(tree, copyEntry, p) ensures exists f :: f in files && p == Rebase(root, iso, f) {
      var copies := set f | f in files :: Rebase(root, iso, f);
      forall a, c | a in copies && Imports(tree, a, c) ensures c in copies {
        var f :| f in files && a == Rebase(root, iso, f);
        ImportsCorrespond(fs, tree, files, root, iso, f);
      }
      var chain :| Connects(tree, chain, copyEntry, p);
      ChainStaysInside(tree, copies, chain);
    }
    var back := set f | f in files && Reaches(tree, copyEntry, Rebase(root, iso, f));
    ReachesSelf(tree, copyEntry);
    forall a, b | a in back && Imports(fs, a, b) ensures b in back {
      ImportsCorrespond(fs, tree, files, root, iso, a);
      ReachesStep(tree, copyEntry, Rebase(root, iso, a), Rebase(root, iso, b));
    }
    forall f | f in files ensures Reaches(tree, copyEntry, Rebase(root, iso, f)) {
      var chain :| Connects(fs, chain, entry, f);
      ChainStaysInside(fs, back, chain);
    }
  }
}
