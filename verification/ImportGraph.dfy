/** The relative-import graph of a module: candidate resolution and the worklist that collects
    everything an entry file reaches. */
module ImportGraph {
  import opened Wrappers
  import opened Paths

  /** The regular files, each with the import specifiers its text contains, in textual order. */
  type FileSystem = map<Path, seq<string>>

  const SOURCE_FILE_EXTENSIONS := [".ts", ".tsx", ".mts", ".cts", ".js", ".jsx", ".mjs", ".cjs"]

  // ---- candidates ------------------------------------------------------------------------------

  /** The path spelled `p` with `suffix` glued to its text; at the root that names a dot file. */
  function Glue(p: Path, suffix: string): Path {
    if p == [] then [suffix] else p[..|p| - 1] + [p[|p| - 1] + suffix]
  }

  function Stem(p: Path): Path
    requires p != []
  {
    var name := p[|p| - 1];
    p[..|p| - 1] + [name[..|name| - |NameExtension(name)|]]
  }

  /** Stem and extension together are the path again. */
  lemma StemReassembles(p: Path)
    requires p != []
    ensures Glue(Stem(p), Extension(p)) == p
  {
    var name := p[|p| - 1];
    var e := NameExtension(name);
    assert name[..|name| - |e|] + e == name;
  }

  /** The base itself, then what each source extension contributes, in the order they are tried. */
  function Tried(base: Path, extensions: seq<string>): seq<Path>
    decreases |extensions|
  {
    if extensions == [] then [base]
    else
      var init, e := extensions[..|extensions| - 1], extensions[|extensions| - 1];
      if Extension(base) != "" then Tried(base, init) + [Glue(Stem(base), e)]
      else Tried(base, init) + [Glue(base, e), base + ["index" + e]]
  }

  function AllTried(base: Path): seq<Path> {
    Tried(base, SOURCE_FILE_EXTENSIONS)
  }

  /** Insertion order without repeats, as a JavaScript Set keeps it. */
  function Distinct(s: seq<Path>): seq<Path> {
    if s == [] then [] else Insert(Distinct(s[..|s| - 1]), s[|s| - 1])
  }

  function Insert(s: seq<Path>, p: Path): seq<Path> {
    if p in s then s else s + [p]
  }

  lemma DistinctAppend(s: seq<Path>, p: Path)
    ensures Distinct(s + [p]) == Insert(Distinct(s), p)
  {
    assert (s + [p])[..|s|] == s;
  }

  /** What one more extension adds to the distinct candidates. */
  lemma TriedStep(base: Path, k: nat)
    requires k < |SOURCE_FILE_EXTENSIONS|
    ensures var done, e := Distinct(Tried(base, SOURCE_FILE_EXTENSIONS[..k])), SOURCE_FILE_EXTENSIONS[k];
            Distinct(Tried(base, SOURCE_FILE_EXTENSIONS[..k + 1])) ==
            if Extension(base) != "" then Insert(done, Glue(Stem(base), e))
            else Insert(Insert(done, Glue(base, e)), base + ["index" + e])
  {
    var tried, e := Tried(base, SOURCE_FILE_EXTENSIONS[..k]), SOURCE_FILE_EXTENSIONS[k];
    assert SOURCE_FILE_EXTENSIONS[..k + 1][..k] == SOURCE_FILE_EXTENSIONS[..k];
    if Extension(base) != "" {
      DistinctAppend(tried, Glue(Stem(base), e));
    } else {
      DistinctAppend(tried, Glue(base, e));
      DistinctAppend(tried + [Glue(base, e)], base + ["index" + e]);
      assert tried + [Glue(base, e)] + [base + ["index" + e]] == tried + [Glue(base, e), base + ["index" + e]];
    }
  }

  method ResolveImportCandidates(base: Path) returns (candidates: seq<Path>)
    ensures candidates == Distinct(AllTried(base))
  {
    var extension := Extension(base);
    candidates := [base];
    assert Distinct([base]) == [base] by { DistinctAppend([], base); assert [] + [base] == [base]; }
    var k := 0;
    while k < |SOURCE_FILE_EXTENSIONS|
      invariant 0 <= k <= |SOURCE_FILE_EXTENSIONS|
      invariant candidates == Distinct(Tried(base, SOURCE_FILE_EXTENSIONS[..k]))
    {
      var e := SOURCE_FILE_EXTENSIONS[k];
      TriedStep(base, k);
      if extension != "" {
        candidates := Insert(candidates, Glue(Stem(base), e));
      } else {
        candidates := Insert(candidates, Glue(base, e));
        candidates := Insert(candidates, base + ["index" + e]);
      }
      k := k + 1;
    }
    assert SOURCE_FILE_EXTENSIONS[..k] == SOURCE_FILE_EXTENSIONS;
  }

  // ---- resolution ------------------------------------------------------------------------------

  function FirstFile(files: set<Path>, candidates: seq<Path>): Option<Path> {
    if candidates == [] then None
    else if candidates[0] in files then Some(candidates[0])
    else FirstFile(files, candidates[1..])
  }

  lemma {:induction false} FirstFileAppend(files: set<Path>, s: seq<Path>, p: Path)
    ensures FirstFile(files, s + [p]) ==
            if FirstFile(files, s).Some? then FirstFile(files, s) else if p in files then Some(p) else None
  {
    if s == [] {
      assert s + [p] == [p];
    } else {
      assert (s + [p])[1..] == s[1..] + [p];
      FirstFileAppend(files, s[1..], p);
    }
  }

  /** The first hit is a file, is one of the candidates, and comes before every other hit. */
  lemma {:induction false} FirstFileIsFirst(files: set<Path>, s: seq<Path>)
    ensures FirstFile(files, s).None? <==> forall p | p in s :: p !in files
    ensures FirstFile(files, s).Some? ==>
              exists i :: 0 <= i < |s| && s[i] in files && FirstFile(files, s) == Some(s[i]) &&
                          forall j | 0 <= j < i :: s[j] !in files
  {
    if s != [] {
      FirstFileIsFirst(files, s[1..]);
      if s[0] in files {
        assert FirstFile(files, s) == Some(s[0]);
      } else if FirstFile(files, s[1..]).Some? {
        var i :| 0 <= i < |s[1..]| && s[1..][i] in files && FirstFile(files, s[1..]) == Some(s[1..][i]) &&
                 forall j | 0 <= j < i :: s[1..][j] !in files;
        assert s[i + 1] == s[1..][i];
        forall j | 0 <= j < i + 1 ensures s[j] !in files {
          if j > 0 { assert s[j] == s[1..][j - 1]; }
        }
      }
    }
  }

  /** Dropping repeats, as the Set does, never changes which candidate wins. */
  lemma {:induction false} DistinctKeepsFirst(files: set<Path>, s: seq<Path>)
    ensures FirstFile(files, Distinct(s)) == FirstFile(files, s)
    ensures forall p :: p in Distinct(s) <==> p in s
    ensures forall i, j | 0 <= i < j < |Distinct(s)| :: Distinct(s)[i] != Distinct(s)[j]
  {
    if s != [] {
      var init, last := s[..|s| - 1], s[|s| - 1];
      assert s == init + [last];
      DistinctKeepsFirst(files, init);
      FirstFileAppend(files, init, last);
      FirstFileAppend(files, Distinct(init), last);
      FirstFileIsFirst(files, init);
    }
  }

  predicate IsRelative(specifier: string) {
    specifier != "" && specifier[0] == '.'
  }

  /** Where `specifier`, written in file `from`, points before any extension is tried. */
  function Target(from: Path, specifier: string): Path {
    Walk(Dirname(from), Split(specifier, '/'))
  }

  function Resolve(files: set<Path>, from: Path, specifier: string): Option<Path> {
    FirstFile(files, AllTried(Target(from, specifier)))
  }

  lemma ResolveGivesFile(files: set<Path>, from: Path, specifier: string)
    ensures Resolve(files, from, specifier).Some? ==> Resolve(files, from, specifier).value in files
  {
    FirstFileIsFirst(files, AllTried(Target(from, specifier)));
  }

  method ResolveRelativeImportPath(fs: FileSystem, from: Path, specifier: string) returns (r: Option<Path>)
    ensures r == Resolve(fs.Keys, from, specifier)
  {
    var candidates := ResolveImportCandidates(Target(from, specifier));
    DistinctKeepsFirst(fs.Keys, AllTried(Target(from, specifier)));
    var i := 0;
    while i < |candidates|
      invariant 0 <= i <= |candidates|
      invariant FirstFile(fs.Keys, candidates) == FirstFile(fs.Keys, candidates[i..])
    {
      if candidates[i] in fs {
        return Some(candidates[i]);
      }
      i := i + 1;
    }
    r := None;
  }

  // ---- reachability ----------------------------------------------------------------------------

  /** What the i-th specifier of `a` contributes to the graph. */
  function ImportAt(fs: FileSystem, a: Path, i: nat): Option<Path>
    requires a in fs && i < |fs[a]|
  {
    if IsRelative(fs[a][i]) then Resolve(fs.Keys, a, fs[a][i]) else None
  }

  ghost predicate Imports(fs: FileSystem, a: Path, b: Path) {
    a in fs && exists i :: 0 <= i < |fs[a]| && ImportAt(fs, a, i) == Some(b)
  }

  ghost predicate IsChain(fs: FileSystem, chain: seq<Path>) {
    |chain| > 0 && chain[0] in fs && forall i | 0 <= i < |chain| - 1 :: Imports(fs, chain[i], chain[i + 1])
  }

  ghost predicate Connects(fs: FileSystem, chain: seq<Path>, from: Path, to: Path) {
    IsChain(fs, chain) && chain[0] == from && chain[|chain| - 1] == to
  }

  /** `file` is in the reflexive-transitive closure of the import relation from `entry`. */
  ghost predicate Reaches(fs: FileSystem, entry: Path, file: Path) {
    exists chain :: Connects(fs, chain, entry, file)
  }

  lemma ReachesSelf(fs: FileSystem, entry: Path)
    requires entry in fs
    ensures Reaches(fs, entry, entry)
  {
    assert Connects(fs, [entry], entry, entry);
  }

  lemma ReachesStep(fs: FileSystem, entry: Path, a: Path, b: Path)
    requires Reaches(fs, entry, a) && Imports(fs, a, b)
    ensures Reaches(fs, entry, b)
  {
    var chain :| Connects(fs, chain, entry, a);
    var longer := chain + [b];
    forall i | 0 <= i < |longer| - 1 ensures Imports(fs, longer[i], longer[i + 1]) {
      if i < |chain| - 1 { assert Imports(fs, chain[i], chain[i + 1]); }
    }
    assert Connects(fs, longer, entry, b);
  }

  ghost predicate ClosedUnderImports(fs: FileSystem, files: set<Path>) {
    forall a, b | a in files && Imports(fs, a, b) :: b in files
  }

  /** A closed set holding the entry holds everything reachable from it. */
  lemma {:induction false} ChainStaysInside(fs: FileSystem, files: set<Path>, chain: seq<Path>)
    requires ClosedUnderImports(fs, files) && IsChain(fs, chain) && chain[0] in files
    ensures chain[|chain| - 1] in files
    decreases |chain|
  {
    if |chain| > 1 {
      assert Imports(fs, chain[0], chain[1]);
      var rest := chain[1..];
      forall i | 0 <= i < |rest| - 1 ensures Imports(fs, rest[i], rest[i + 1]) {
        assert Imports(fs, chain[i + 1], chain[i + 2]);
      }
      assert chain[1] in fs by { ImportTargetIsFile(fs, chain[0], chain[1]); }
      ChainStaysInside(fs, files, rest);
    }
  }

  lemma ImportTargetIsFile(fs: FileSystem, a: Path, b: Path)
    requires Imports(fs, a, b)
    ensures b in fs
  {
    var i :| 0 <= i < |fs[a]| && ImportAt(fs, a, i) == Some(b);
    ResolveGivesFile(fs.Keys, a, fs[a][i]);
  }

  lemma {:induction false} ReachedIsFile(fs: FileSystem, entry: Path, file: Path)
    requires Reaches(fs, entry, file)
    ensures file in fs
  {
    var chain :| Connects(fs, chain, entry, file);
    if |chain| > 1 {
      assert Imports(fs, chain[|chain| - 2], chain[|chain| - 2 + 1]);
      ImportTargetIsFile(fs, chain[|chain| - 2], file);
    }
  }

  /** The files the first `k` specifiers of `a` resolve to, in textual order. */
  function Targets(fs: FileSystem, a: Path, k: nat): seq<Path>
    requires a in fs && k <= |fs[a]|
  {
    Values(seq(k, i requires 0 <= i < k => ImportAt(fs, a, i)))
  }

  function Values(s: seq<Option<Path>>): seq<Path> {
    if s == [] then []
    else
      var init, last := Values(s[..|s| - 1]), s[|s| - 1];
      if last.Some? then init + [last.value] else init
  }

  lemma {:induction false} ValuesAre(s: seq<Option<Path>>, b: Path)
    ensures b in Values(s) <==> Some(b) in s
  {
    if s != [] {
      assert s == s[..|s| - 1] + [s[|s| - 1]];
      ValuesAre(s[..|s| - 1], b);
    }
  }

  lemma TargetsAreImports(fs: FileSystem, a: Path, b: Path)
    requires a in fs
    ensures b in Targets(fs, a, |fs[a]|) <==> Imports(fs, a, b)
  {
    var k := |fs[a]|;
    var s := seq(k, i requires 0 <= i < k => ImportAt(fs, a, i));
    ValuesAre(s, b);
    assert forall i | 0 <= i < k :: s[i] == ImportAt(fs, a, i);
  }

  lemma TargetsStep(fs: FileSystem, a: Path, k: nat, queue: seq<Path>)
    requires a in fs && k < |fs[a]|
    ensures queue + Targets(fs, a, k + 1) ==
            if ImportAt(fs, a, k).Some? then queue + Targets(fs, a, k) + [ImportAt(fs, a, k).value]
            else queue + Targets(fs, a, k)
  {
    var s := seq(k + 1, i requires 0 <= i < k + 1 => ImportAt(fs, a, i));
    assert s[..k] == seq(k, i requires 0 <= i < k => ImportAt(fs, a, i));
  }

  /** The body of the worklist loop: every relative import that resolves is pushed. */
  method PushImports(fs: FileSystem, current: Path, queue: seq<Path>) returns (pushed: seq<Path>)
    requires current in fs
    ensures pushed == queue + Targets(fs, current, |fs[current]|)
  {
    pushed := queue;
    var k := 0;
    while k < |fs[current]|
      invariant 0 <= k <= |fs[current]|
      invariant pushed == queue + Targets(fs, current, k)
    {
      var specifier := fs[current][k];
      TargetsStep(fs, current, k, queue);
      if IsRelative(specifier) {
        var resolved := ResolveRelativeImportPath(fs, current, specifier);
        if resolved.Some? {
          pushed := pushed + [resolved.value];
        }
      }
      k := k + 1;
    }
  }

  /** Reading a missing entry fails; otherwise the result is exactly the closure. */
  method CollectRelativeImportGraph(fs: FileSystem, entry: Path) returns (r: Option<set<Path>>)
    ensures r.None? <==> entry !in fs
    ensures r.Some? ==> forall f :: f in r.value <==> Reaches(fs, entry, f)
  {
    var discovered: set<Path> := {};
    var queue := [entry];
    if entry in fs { ReachesSelf(fs, entry); }
    while queue != []
      invariant discovered <= fs.Keys
      invariant entry in discovered || entry in queue
      invariant entry !in fs ==> discovered == {} && queue == [entry]
      invariant forall f | f in discovered || (f in queue && entry in fs) :: Reaches(fs, entry, f)
      invariant forall a, b | a in discovered && Imports(fs, a, b) :: b in discovered || b in queue
      decreases fs.Keys - discovered, |queue|
    {
      var current := queue[|queue| - 1];
      ghost var before := queue;
      queue := queue[..|queue| - 1];
      assert before == queue + [current];
      if current in discovered {
        continue;
      }
      if current !in fs {
        if entry in fs { ReachedIsFile(fs, entry, current); }
        return None;
      }
      discovered := discovered + {current};
      queue := PushImports(fs, current, queue);
      forall f ensures f in Targets(fs, current, |fs[current]|) <==> Imports(fs, current, f) {
        TargetsAreImports(fs, current, f);
      }
      forall f | Imports(fs, current, f) ensures Reaches(fs, entry, f) {
        ReachesStep(fs, entry, current, f);
      }
    }
    r := Some(discovered);
    forall f | Reaches(fs, entry, f) ensures f in discovered {
      var chain :| Connects(fs, chain, entry, f);
      ChainStaysInside(fs, discovered, chain);
    }
  }
}
