/** Turning a list of agents with manager slugs into a forest. Managers may be missing, unknown or form
    cycles; slugs are directory names, hence unique. */
module OrgTree {
  import opened Wrappers

  datatype Agent = Agent(slug: string, name: string, role: string, reportsTo: Option<string>)
  datatype OrgNode = OrgNode(id: string, name: string, role: string, status: string, reports: seq<OrgNode>)

  const ROLE_LABELS := map[
    "ceo" := "Chief Executive", "cto" := "Technology", "cmo" := "Marketing", "cfo" := "Finance",
    "coo" := "Operations", "vp" := "VP", "manager" := "Manager", "engineer" := "Engineer", "agent" := "Agent"]

  function Label(role: string): string {
    if role in ROLE_LABELS then ROLE_LABELS[role] else role
  }

  predicate UniqueSlugs(agents: seq<Agent>) {
    forall i, j | 0 <= i < j < |agents| :: agents[i].slug != agents[j].slug
  }

  predicate Known(agents: seq<Agent>, slug: string) {
    exists i :: 0 <= i < |agents| && agents[i].slug == slug
  }

  /** An agent nobody in the list manages. */
  predicate IsTop(agents: seq<Agent>, a: Agent) {
    a.reportsTo.None? || !Known(agents, a.reportsTo.value)
  }

  function Children(agents: seq<Agent>, key: Option<string>): (r: seq<Agent>)
    ensures forall a :: a in r <==> a in agents && a.reportsTo == key
  {
    if agents == [] then []
    else
      var earlier, a := Children(agents[..|agents| - 1], key), agents[|agents| - 1];
      assert agents == agents[..|agents| - 1] + [a];
      if a.reportsTo == key then earlier + [a] else earlier
  }

  lemma {:induction false} ChildrenUnique(agents: seq<Agent>, key: Option<string>)
    requires UniqueSlugs(agents)
    ensures UniqueSlugs(Children(agents, key))
  {
    if agents != [] {
      var init := agents[..|agents| - 1];
      ChildrenUnique(init, key);
      forall a | a in Children(init, key) ensures a.slug != agents[|agents| - 1].slug {
        assert a in init;
      }
    }
  }

  // ---- manager chains --------------------------------------------------------------------------

  /** The chain of managers from a top agent down to the one with slug `key`; empty for no key. */
  ghost predicate IsChain(agents: seq<Agent>, chain: seq<Agent>, key: Option<string>)
    decreases |chain|
  {
    if key.None? then chain == []
    else
      chain != [] &&
      var last := chain[|chain| - 1];
      last in agents && last.slug == key.value &&
      if IsTop(agents, last) then |chain| == 1 else IsChain(agents, chain[..|chain| - 1], last.reportsTo)
  }

  ghost predicate Rooted(agents: seq<Agent>, key: Option<string>) {
    exists chain :: IsChain(agents, chain, key)
  }

  lemma SameSlugSameAgent(agents: seq<Agent>, a: Agent, b: Agent)
    requires UniqueSlugs(agents) && a in agents && b in agents && a.slug == b.slug
    ensures a == b
  {
  }

  lemma {:induction false} ChainUnique(agents: seq<Agent>, c: seq<Agent>, d: seq<Agent>, key: Option<string>)
    requires UniqueSlugs(agents) && IsChain(agents, c, key) && IsChain(agents, d, key)
    ensures c == d
    decreases |c|
  {
    if key.Some? {
      var a, b := c[|c| - 1], d[|d| - 1];
      SameSlugSameAgent(agents, a, b);
      if !IsTop(agents, a) {
        ChainUnique(agents, c[..|c| - 1], d[..|d| - 1], a.reportsTo);
      }
      assert c == c[..|c| - 1] + [a] && d == d[..|d| - 1] + [b];
    }
  }

  lemma {:induction false} ChainPrefix(agents: seq<Agent>, chain: seq<Agent>, key: Option<string>, i: nat)
    requires IsChain(agents, chain, key) && i < |chain|
    ensures IsChain(agents, chain[..i + 1], Some(chain[i].slug))
    decreases |chain|
  {
    if i + 1 == |chain| {
      assert chain[..i + 1] == chain;
    } else {
      ChainPrefix(agents, chain[..|chain| - 1], chain[|chain| - 1].reportsTo, i);
      assert chain[..|chain| - 1][..i + 1] == chain[..i + 1];
    }
  }

  ghost function ChainTo(agents: seq<Agent>, key: Option<string>): (chain: seq<Agent>)
    requires Rooted(agents, key)
    ensures IsChain(agents, chain, key)
  {
    var chain :| IsChain(agents, chain, key);
    chain
  }

  ghost function Slugs(agents: seq<Agent>): set<string> {
    set i | 0 <= i < |agents| :: agents[i].slug
  }

  /** The slugs not on the chain to `key`: what bounds the recursion. */
  ghost function Unused(agents: seq<Agent>, key: Option<string>): set<string>
    requires Rooted(agents, key)
  {
    Slugs(agents) - Slugs(ChainTo(agents, key))
  }

  /** The link from a rooted key, or from nothing, to one of its direct reports. */
  lemma ChildIsRooted(agents: seq<Agent>, key: Option<string>, m: Agent)
    requires UniqueSlugs(agents) && Rooted(agents, key) && m in agents && m.reportsTo == key
    ensures Rooted(agents, Some(m.slug))
    ensures ChainTo(agents, Some(m.slug)) == ChainTo(agents, key) + [m]
    ensures Unused(agents, Some(m.slug)) < Unused(agents, key)
  {
    var chain := ChainTo(agents, key);
    var longer := chain + [m];
    assert longer[..|chain|] == chain;
    if key.Some? { assert Known(agents, key.value); }
    assert IsChain(agents, longer, Some(m.slug));
    ChainUnique(agents, longer, ChainTo(agents, Some(m.slug)), Some(m.slug));
    assert longer[|chain|] == m;
    forall i | 0 <= i < |chain| ensures chain[i].slug != m.slug && longer[i] == chain[i] {
      ChainPrefix(agents, chain, key, i);
      if chain[i].slug == m.slug { ChainUnique(agents, chain[..i + 1], longer, Some(m.slug)); }
    }
    assert Slugs(longer) == Slugs(chain) + {m.slug};
    assert m.slug in Slugs(agents) && m.slug !in Slugs(chain);
  }

  // ---- the tree --------------------------------------------------------------------------------

  function NodeOf(m: Agent, reports: seq<OrgNode>): OrgNode {
    OrgNode(m.slug, m.name, Label(m.role), "active", reports)
  }

  function Build(agents: seq<Agent>, key: Option<string>): seq<OrgNode>
    requires UniqueSlugs(agents) && Rooted(agents, key)
    decreases Unused(agents, key)
  {
    BuildAll(agents, key, Children(agents, key))
  }

  function BuildAll(agents: seq<Agent>, key: Option<string>, members: seq<Agent>): seq<OrgNode>
    requires UniqueSlugs(agents) && Rooted(agents, key)
    requires forall m | m in members :: m in agents && m.reportsTo == key
    decreases Unused(agents, key), |members|
  {
    if members == [] then []
    else
      var init, m := members[..|members| - 1], members[|members| - 1];
      ChildIsRooted(agents, key, m);
      BuildAll(agents, key, init) + [NodeOf(m, Build(agents, Some(m.slug)))]
  }

  lemma NoKeyIsRooted(agents: seq<Agent>)
    ensures Rooted(agents, None)
  {
    assert IsChain(agents, [], None);
  }

  lemma TopIsRooted(agents: seq<Agent>, a: Agent)
    requires a in agents && IsTop(agents, a)
    ensures Rooted(agents, Some(a.slug))
  {
    assert IsChain(agents, [a], Some(a.slug));
  }

  /** The second loop pushes a root whose manager is named, non-empty and unknown. */
  predicate Orphan(agents: seq<Agent>, a: Agent) {
    a.reportsTo.Some? && a.reportsTo.value != "" && !Known(agents, a.reportsTo.value)
  }

  function Orphans(agents: seq<Agent>, candidates: seq<Agent>): seq<OrgNode>
    requires UniqueSlugs(agents) && forall a | a in candidates :: a in agents
  {
    if candidates == [] then []
    else
      var earlier, a := Orphans(agents, candidates[..|candidates| - 1]), candidates[|candidates| - 1];
      if Orphan(agents, a) then
        TopIsRooted(agents, a);
        earlier + [NodeOf(a, Build(agents, Some(a.slug)))]
      else earlier
  }

  function Tree(agents: seq<Agent>): seq<OrgNode>
    requires UniqueSlugs(agents)
  {
    NoKeyIsRooted(agents);
    Build(agents, None) + Orphans(agents, agents)
  }

  function Lookup(childrenOf: map<Option<string>, seq<Agent>>, key: Option<string>): seq<Agent> {
    if key in childrenOf then childrenOf[key] else []
  }

  ghost predicate Indexes(agents: seq<Agent>, childrenOf: map<Option<string>, seq<Agent>>) {
    forall key :: Lookup(childrenOf, key) == Children(agents, key)
  }

  lemma BuildAllStep(agents: seq<Agent>, key: Option<string>, members: seq<Agent>, i: nat)
    requires UniqueSlugs(agents) && Rooted(agents, key) && i < |members|
    requires forall m | m in members :: m in agents && m.reportsTo == key
    ensures Rooted(agents, Some(members[i].slug)) && Unused(agents, Some(members[i].slug)) < Unused(agents, key)
    ensures BuildAll(agents, key, members[..i + 1])
            == BuildAll(agents, key, members[..i]) + [NodeOf(members[i], Build(agents, Some(members[i].slug)))]
  {
    assert members[..i + 1][..i] == members[..i] && members[..i + 1][i] == members[i];
    ChildIsRooted(agents, key, members[i]);
  }

  method BuildNodes(ghost agents: seq<Agent>, childrenOf: map<Option<string>, seq<Agent>>, parent: Option<string>)
    returns (nodes: seq<OrgNode>)
    requires UniqueSlugs(agents) && Indexes(agents, childrenOf) && Rooted(agents, parent)
    ensures nodes == Build(agents, parent)
    decreases Unused(agents, parent)
  {
    var members := if parent in childrenOf then childrenOf[parent] else [];
    assert members == Lookup(childrenOf, parent);
    nodes := [];
    var i := 0;
    while i < |members|
      invariant 0 <= i <= |members|
      invariant nodes == BuildAll(agents, parent, members[..i])
    {
      var m := members[i];
      BuildAllStep(agents, parent, members, i);
      var reports := BuildNodes(agents, childrenOf, Some(m.slug));
      nodes := nodes + [NodeOf(m, reports)];
      i := i + 1;
    }
    assert members[..i] == members;
  }

  /** The first loop: the known slugs and the reports of each manager, in list order. */
  method IndexByManager(agents: seq<Agent>) returns (bySlug: set<string>, childrenOf: map<Option<string>, seq<Agent>>)
    ensures forall s :: s in bySlug <==> Known(agents, s)
    ensures Indexes(agents, childrenOf)
  {
    bySlug, childrenOf := {}, map[];
    var i := 0;
    while i < |agents|
      invariant 0 <= i <= |agents|
      invariant bySlug == set k | 0 <= k < i :: agents[k].slug
      invariant Indexes(agents[..i], childrenOf)
    {
      var a := agents[i];
      assert agents[..i + 1][..i] == agents[..i];
      bySlug := bySlug + {a.slug};
      var list := if a.reportsTo in childrenOf then childrenOf[a.reportsTo] else [];
      assert list == Lookup(childrenOf, a.reportsTo);
      childrenOf := childrenOf[a.reportsTo := list + [a]];
      i := i + 1;
    }
    assert agents[..i] == agents;
  }

  lemma OrphansStep(agents: seq<Agent>, i: nat)
    requires UniqueSlugs(agents) && i < |agents|
    ensures Orphan(agents, agents[i]) ==> Rooted(agents, Some(agents[i].slug))
    ensures Orphans(agents, agents[..i + 1]) ==
            if Orphan(agents, agents[i]) then Orphans(agents, agents[..i]) + [NodeOf(agents[i], Build(agents, Some(agents[i].slug)))]
            else Orphans(agents, agents[..i])
  {
    assert agents[..i + 1][..i] == agents[..i] && agents[..i + 1][i] == agents[i];
    if Orphan(agents, agents[i]) { TopIsRooted(agents, agents[i]); }
  }

  /** The second loop. */
  method PushOrphans(agents: seq<Agent>, bySlug: set<string>, childrenOf: map<Option<string>, seq<Agent>>,
                     tree: seq<OrgNode>)
    returns (pushed: seq<OrgNode>)
    requires UniqueSlugs(agents) && Indexes(agents, childrenOf)
    requires forall s :: s in bySlug <==> Known(agents, s)
    ensures pushed == tree + Orphans(agents, agents)
  {
    pushed := tree;
    var i := 0;
    while i < |agents|
      invariant 0 <= i <= |agents|
      invariant pushed == tree + Orphans(agents, agents[..i])
    {
      var root := agents[i];
      OrphansStep(agents, i);
      if root.reportsTo.Some? && root.reportsTo.value != "" && root.reportsTo.value !in bySlug {
        var reports := BuildNodes(agents, childrenOf, Some(root.slug));
        var node := NodeOf(root, reports);
        assert pushed + [node] == tree + (Orphans(agents, agents[..i]) + [node]);
        pushed := pushed + [node];
      }
      i := i + 1;
    }
    assert agents[..i] == agents;
  }

  method BuildOrgTree(agents: seq<Agent>) returns (tree: seq<OrgNode>)
    requires UniqueSlugs(agents)
    ensures tree == Tree(agents)
  {
    var bySlug, childrenOf := IndexByManager(agents);
    NoKeyIsRooted(agents);
    tree := BuildNodes(agents, childrenOf, None);
    tree := PushOrphans(agents, bySlug, childrenOf, tree);
  }

  // ---- who appears, and how often --------------------------------------------------------------

  function Count(slug: string, nodes: seq<OrgNode>): nat
    decreases nodes
  {
    if nodes == [] then 0
    else
      Count(slug, nodes[..|nodes| - 1]) +
      (if nodes[|nodes| - 1].id == slug then 1 else 0) + Count(slug, nodes[|nodes| - 1].reports)
  }

  lemma {:induction false} CountAppend(slug: string, a: seq<OrgNode>, b: seq<OrgNode>)
    ensures Count(slug, a + b) == Count(slug, a) + Count(slug, b)
    decreases |b|
  {
    if b == [] {
      assert a + b == a;
    } else {
      CountAppend(slug, a, b[..|b| - 1]);
      assert (a + b)[..|a + b| - 1] == a + b[..|b| - 1];
    }
  }

  lemma CountPush(slug: string, nodes: seq<OrgNode>, node: OrgNode)
    ensures Count(slug, nodes + [node]) == Count(slug, nodes) + One(node.id == slug) + Count(slug, node.reports)
  {
    assert (nodes + [node])[..|nodes|] == nodes;
  }

  /** How often the manager of `s` appears, if the list has one. */
  function ManagerCount(agents: seq<Agent>, s: Agent, nodes: seq<OrgNode>): nat {
    if IsTop(agents, s) then 0 else Count(s.reportsTo.value, nodes)
  }

  function One(b: bool): nat { if b then 1 else 0 }

  lemma NodeCount(agents: seq<Agent>, s: Agent, m: Agent, nodes: seq<OrgNode>, below: seq<OrgNode>)
    requires UniqueSlugs(agents) && s in agents && m in agents
    requires Count(s.slug, below) == One(s.reportsTo == Some(m.slug)) + ManagerCount(agents, s, below)
    ensures var all := nodes + [NodeOf(m, below)];
            Count(s.slug, all) - ManagerCount(agents, s, all)
            == Count(s.slug, nodes) - ManagerCount(agents, s, nodes) + One(s == m)
  {
    CountPush(s.slug, nodes, NodeOf(m, below));
    if s.slug == m.slug { SameSlugSameAgent(agents, s, m); }
    assert Known(agents, m.slug);
    if !IsTop(agents, s) { CountPush(s.reportsTo.value, nodes, NodeOf(m, below)); }
  }

  /** In a built list every agent appears once per appearance of its manager, plus once if it is itself
      a member of the list. */
  lemma {:induction false} CountFollowsManager(agents: seq<Agent>, key: Option<string>, members: seq<Agent>, s: Agent)
    requires UniqueSlugs(agents) && Rooted(agents, key) && s in agents
    requires UniqueSlugs(members) && forall m | m in members :: m in agents && m.reportsTo == key
    ensures var nodes := BuildAll(agents, key, members);
            Count(s.slug, nodes) == One(s in members) + ManagerCount(agents, s, nodes)
    decreases Unused(agents, key), |members|
  {
    if members != [] {
      var init, m := members[..|members| - 1], members[|members| - 1];
      ChildIsRooted(agents, key, m);
      CountFollowsManager(agents, key, init, s);
      var reports := Children(agents, Some(m.slug));
      ChildrenUnique(agents, Some(m.slug));
      CountFollowsManager(agents, Some(m.slug), reports, s);
      NodeCount(agents, s, m, BuildAll(agents, key, init), Build(agents, Some(m.slug)));
      LastIsNew(members, s);
    }
  }

  lemma LastIsNew(members: seq<Agent>, s: Agent)
    requires members != [] && UniqueSlugs(members)
    ensures One(s in members) == One(s in members[..|members| - 1]) + One(s == members[|members| - 1])
  {
    assert members == members[..|members| - 1] + [members[|members| - 1]];
  }

  /** Nobody appears below a key without a manager chain of their own. */
  lemma {:induction false} AppearsOnlyRooted(agents: seq<Agent>, key: Option<string>, members: seq<Agent>, slug: string)
    requires UniqueSlugs(agents) && Rooted(agents, key)
    requires forall m | m in members :: m in agents && m.reportsTo == key
    ensures Count(slug, BuildAll(agents, key, members)) > 0 ==> Rooted(agents, Some(slug))
    decreases Unused(agents, key), |members|
  {
    if members != [] {
      var init, m := members[..|members| - 1], members[|members| - 1];
      ChildIsRooted(agents, key, m);
      AppearsOnlyRooted(agents, key, init, slug);
      AppearsOnlyRooted(agents, Some(m.slug), Children(agents, Some(m.slug)), slug);
      CountPush(slug, BuildAll(agents, key, init), NodeOf(m, Build(agents, Some(m.slug))));
    }
  }

  lemma {:induction false} OrphanCounts(agents: seq<Agent>, candidates: seq<Agent>, s: Agent)
    requires UniqueSlugs(agents) && UniqueSlugs(candidates) && s in agents
    requires forall a | a in candidates :: a in agents
    ensures var nodes := Orphans(agents, candidates);
            Count(s.slug, nodes) == One(s in candidates && Orphan(agents, s)) + ManagerCount(agents, s, nodes)
  {
    if candidates != [] {
      var init, a := candidates[..|candidates| - 1], candidates[|candidates| - 1];
      OrphanCounts(agents, init, s);
      LastIsNew(candidates, s);
      if Orphan(agents, a) {
        TopIsRooted(agents, a);
        ChildrenUnique(agents, Some(a.slug));
        CountFollowsManager(agents, Some(a.slug), Children(agents, Some(a.slug)), s);
        NodeCount(agents, s, a, Orphans(agents, init), Build(agents, Some(a.slug)));
      }
    }
  }

  lemma {:induction false} OrphansRooted(agents: seq<Agent>, candidates: seq<Agent>, slug: string)
    requires UniqueSlugs(agents) && forall a | a in candidates :: a in agents
    ensures Count(slug, Orphans(agents, candidates)) > 0 ==> Rooted(agents, Some(slug))
  {
    if candidates != [] {
      var init, a := candidates[..|candidates| - 1], candidates[|candidates| - 1];
      OrphansRooted(agents, init, slug);
      if Orphan(agents, a) {
        TopIsRooted(agents, a);
        AppearsOnlyRooted(agents, Some(a.slug), Children(agents, Some(a.slug)), slug);
      }
    }
  }

  lemma TreeCount(agents: seq<Agent>, s: Agent)
    requires UniqueSlugs(agents) && s in agents
    ensures Count(s.slug, Tree(agents)) ==
            One(s.reportsTo.None? || Orphan(agents, s)) + ManagerCount(agents, s, Tree(agents))
  {
    NoKeyIsRooted(agents);
    ChildrenUnique(agents, None);
    CountFollowsManager(agents, None, Children(agents, None), s);
    OrphanCounts(agents, agents, s);
    CountAppend(s.slug, Build(agents, None), Orphans(agents, agents));
    if !IsTop(agents, s) { CountAppend(s.reportsTo.value, Build(agents, None), Orphans(agents, agents)); }
  }

  /** The chain of managers ends at an agent with no manager, or with a named one that is unknown. */
  ghost predicate Placed(agents: seq<Agent>, slug: string) {
    Rooted(agents, Some(slug)) && ChainTo(agents, Some(slug))[0].reportsTo != Some("")
  }

  lemma {:induction false} ChainCount(agents: seq<Agent>, chain: seq<Agent>, slug: string)
    requires UniqueSlugs(agents) && IsChain(agents, chain, Some(slug))
    ensures Count(slug, Tree(agents)) == One(chain[0].reportsTo != Some(""))
    decreases |chain|
  {
    var s := chain[|chain| - 1];
    TreeCount(agents, s);
    if !IsTop(agents, s) {
      ChainCount(agents, chain[..|chain| - 1], s.reportsTo.value);
    }
  }

  /** Every agent appears exactly once or not at all: once exactly when its manager chain ends at an
      agent with no manager or with a non-empty unknown one; no other identifier ever appears. */
  lemma AppearsExactlyOnce(agents: seq<Agent>, slug: string)
    requires UniqueSlugs(agents)
    ensures Count(slug, Tree(agents)) == One(Placed(agents, slug))
  {
    if Rooted(agents, Some(slug)) {
      ChainCount(agents, ChainTo(agents, Some(slug)), slug);
    } else {
      NoKeyIsRooted(agents);
      AppearsOnlyRooted(agents, None, Children(agents, None), slug);
      OrphansRooted(agents, agents, slug);
      CountAppend(slug, Build(agents, None), Orphans(agents, agents));
    }
  }

  /** The package parser turns an empty manager slug into none. Then every agent whose manager chain ends
      appears exactly once, and no other ever. */
  lemma ParsedAgentsAppearOnce(agents: seq<Agent>, slug: string)
    requires UniqueSlugs(agents) && forall a | a in agents :: a.reportsTo != Some("")
    ensures Count(slug, Tree(agents)) == One(Rooted(agents, Some(slug)))
  {
    AppearsExactlyOnce(agents, slug);
    if Rooted(agents, Some(slug)) {
      var chain := ChainTo(agents, Some(slug));
      ChainInside(agents, chain, Some(slug), 0);
    }
  }

  lemma {:induction false} ChainInside(agents: seq<Agent>, chain: seq<Agent>, key: Option<string>, i: nat)
    requires IsChain(agents, chain, key) && i < |chain|
    ensures chain[i] in agents
    decreases |chain|
  {
    if i + 1 < |chain| { ChainInside(agents, chain[..|chain| - 1], chain[|chain| - 1].reportsTo, i); }
  }

  /** Agents whose managers all lie among themselves, a cycle for instance, never appear. */
  lemma {:induction false} ClosedGroupVanishes(agents: seq<Agent>, group: set<string>, chain: seq<Agent>, slug: string)
    requires UniqueSlugs(agents) && slug in group
    requires forall a | a in agents && a.slug in group ::
               a.reportsTo.Some? && a.reportsTo.value in group && Known(agents, a.reportsTo.value)
    ensures !IsChain(agents, chain, Some(slug))
    decreases |chain|
  {
    if chain != [] && chain[|chain| - 1] in agents && chain[|chain| - 1].slug == slug {
      ClosedGroupVanishes(agents, group, chain[..|chain| - 1], chain[|chain| - 1].reportsTo.value);
    }
  }

  /** Given an empty manager slug after all, the function drops the agent, where every other unknown
      manager makes it a root. */
  lemma EmptyManagerDrops(slug: string, name: string, role: string)
    requires slug != ""
    ensures Count(slug, Tree([Agent(slug, name, role, Some(""))])) == 0
    ensures Count(slug, Tree([Agent(slug, name, role, Some("nobody" + slug))])) == 1
  {
    var lost, kept := Agent(slug, name, role, Some("")), Agent(slug, name, role, Some("nobody" + slug));
    assert IsChain([lost], [lost], Some(slug));
    ChainCount([lost], [lost], slug);
    assert |"nobody" + slug| != |slug|;
    assert IsChain([kept], [kept], Some(slug));
    ChainCount([kept], [kept], slug);
  }

  /** Below each agent stand exactly its direct reports, in list order. */
  lemma {:induction false} ReportsInOrder(agents: seq<Agent>, key: Option<string>, members: seq<Agent>, i: nat)
    requires UniqueSlugs(agents) && Rooted(agents, key) && i < |members|
    requires forall m | m in members :: m in agents && m.reportsTo == key
    ensures |BuildAll(agents, key, members)| == |members| && Rooted(agents, Some(members[i].slug))
    ensures BuildAll(agents, key, members)[i] == NodeOf(members[i], Build(agents, Some(members[i].slug)))
    decreases |members|
  {
    var n := |members| - 1;
    BuiltLength(agents, key, members);
    BuildAllStep(agents, key, members, n);
    assert members[..n + 1] == members;
    BuiltLength(agents, key, members[..n]);
    if i < n { ReportsInOrder(agents, key, members[..n], i); }
  }

  lemma {:induction false} BuiltLength(agents: seq<Agent>, key: Option<string>, members: seq<Agent>)
    requires UniqueSlugs(agents) && Rooted(agents, key)
    requires forall m | m in members :: m in agents && m.reportsTo == key
    ensures |BuildAll(agents, key, members)| == |members|
    decreases |members|
  {
    if members != [] { BuiltLength(agents, key, members[..|members| - 1]); }
  }
}
