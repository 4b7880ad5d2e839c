/**
 * The in-memory topology: nodes that are either leaves (single services) or graphs of
 * child nodes joined by metric-weighted edges, the builder that turns configuration
 * records into nodes, and the registry (`World`) of root regions.
 *
 * A petgraph `Graph<Node, Metrics>` is modelled as the sequence of its nodes in
 * insertion order (a node's index is its position) and the sequence of its edges in
 * insertion order, each edge holding the indices of its two endpoints.
 */
module Model {
  import opened Wrappers
  import opened Strings
  import Config

  /** The entry point a graph gets when its record does not declare one. */
  const DefaultEntryPoint: string := "INTERNET"

  /** Traffic thresholds of one edge. They are only ever copied, never computed on. */
  datatype Metrics = Metrics(normal: real, warning: real, danger: real)

  /** `Metrics::empty`: the thresholds every edge gets (100, 10, 1). */
  function EmptyMetrics(): (m: Metrics)
    ensures m.normal == 100.0 && m.warning == 10.0 && m.danger == 1.0
  {
    Metrics(100.0, 10.0, 1.0)
  }

  /** A directed edge between the children at positions `source` and `target`. */
  datatype Edge = Edge(source: nat, target: nat, weight: Metrics)

  datatype Node =
    | Leaf(name: string, displayName: Option<string>)
    | Graph(graph: ObsGraph)
  {
    /** The node's own name, whichever variant it is. */
    function Name(): (r: string)
      ensures Leaf? ==> r == name
      ensures Graph? ==> r == graph.name
    {
      match this
      case Leaf(name, _) => name
      case Graph(g) => g.name
    }

    /** The display name the node's record declared, if any. */
    function DeclaredDisplayName(): Option<string> {
      match this
      case Leaf(_, displayName) => displayName
      case Graph(g) => g.displayName
    }

    /** The display name when one is set, and otherwise the name. */
    function DisplayName(): (r: string)
      ensures DeclaredDisplayName().Some? ==> r == DeclaredDisplayName().value
      ensures DeclaredDisplayName().None? ==> r == Name()
    {
      match this
      case Leaf(name, displayName) => displayName.GetOr(name)
      case Graph(g) => g.DisplayName()
    }
  }

  datatype ObsGraph = ObsGraph(
    name: string,
    displayName: Option<string>,
    entryPoint: string,
    nodes: seq<Node>,
    edges: seq<Edge>,
    root: bool)
  {
    /** `ObsGraph::new`: an empty, non-root graph without a display name. */
    static function New(name: string, entryPoint: string): (g: ObsGraph)
      ensures g.name == name && g.entryPoint == entryPoint
      ensures g.displayName.None? && g.nodes == [] && g.edges == [] && !g.root
    {
      ObsGraph(name, None, entryPoint, [], [], false)
    }

    /** `ObsGraph::root`: as `New`, but flagged as a root. */
    static function Root(name: string, entryPoint: string): (g: ObsGraph)
      ensures g.name == name && g.entryPoint == entryPoint
      ensures g.displayName.None? && g.nodes == [] && g.edges == [] && g.root
    {
      ObsGraph(name, None, entryPoint, [], [], true)
    }

    /** Whether the graph was built directly from the region list. */
    function IsRoot(): (r: bool)
      ensures r <==> root
    {
      root
    }

    /** The display name when one is set, and otherwise the name. */
    function DisplayName(): (r: string)
      ensures displayName.Some? ==> r == displayName.value
      ensures displayName.None? ==> r == name
    {
      displayName.GetOr(name)
    }

    /** The graph with its display name set to `d` and nothing else changed. */
    function SetDisplayName(d: string): (g: ObsGraph)
      ensures g.displayName == Some(d) && g.DisplayName() == d
      ensures g.(displayName := displayName) == this
    {
      this.(displayName := Some(d))
    }

    /** Every edge joins two existing children (petgraph's own invariant). */
    predicate EdgesInRange() {
      forall k :: 0 <= k < |edges| ==> edges[k].source < |nodes| && edges[k].target < |nodes|
    }

    /** `add_node`: appends `n` and returns the graph and the new node's index. */
    function AddNode(n: Node): (r: (ObsGraph, nat))
      ensures r.1 == |nodes| && r.0.nodes == nodes + [n] && r.0.nodes[r.1] == n
      ensures r.0.(nodes := nodes) == this
      ensures EdgesInRange() ==> r.0.EdgesInRange()
    {
      (this.(nodes := nodes + [n]), |nodes|)
    }

    /** `find_node_by_name`: the first child, in index order, called `name`. */
    function FindNodeByName(name: string): (r: Option<(nat, Node)>)
      ensures r.Some? ==> r.value.0 < |nodes| && r.value.1 == nodes[r.value.0]
      ensures r.Some? ==> r.value.1.Name() == name
      ensures r.Some? ==> forall j :: 0 <= j < r.value.0 ==> nodes[j].Name() != name
      ensures r.None? <==> forall j :: 0 <= j < |nodes| ==> nodes[j].Name() != name
    {
      match IndexOf(nodes, name)
      case Some(i) => Some((i, nodes[i]))
      case None => None
    }

    /**
     * `add_edge`: appends one edge and returns its index. petgraph panics on an
     * endpoint that does not exist; here that is excluded by the precondition.
     */
    function AddEdge(src: nat, tgt: nat, m: Metrics): (r: (ObsGraph, nat))
      requires src < |nodes| && tgt < |nodes|
      ensures r.1 == |edges| && r.0.edges == edges + [Edge(src, tgt, m)]
      ensures r.0.(edges := edges) == this
      ensures EdgesInRange() ==> r.0.EdgesInRange()
    {
      (this.(edges := edges + [Edge(src, tgt, m)]), |edges|)
    }

    /**
     * `add_edge_by_name`: resolves both names among the graph's own children; when
     * both resolve it adds exactly one edge, otherwise nothing changes.
     */
    function AddEdgeByName(src: string, tgt: string, m: Metrics): (r: (ObsGraph, Option<nat>))
      ensures r.1.None? <==> IndexOf(nodes, src).None? || IndexOf(nodes, tgt).None?
      ensures r.1.None? ==> r.0 == this
      ensures r.1.Some? ==>
        r.1.value == |edges| && r.0.nodes == nodes &&
        r.0.edges == edges + [Edge(IndexOf(nodes, src).value, IndexOf(nodes, tgt).value, m)] &&
        r.0.(edges := edges) == this
      ensures EdgesInRange() ==> r.0.EdgesInRange()
    {
      match FindNodeByName(src)
      case None => (this, None)
      case Some((srcIdx, _)) =>
        match FindNodeByName(tgt)
        case None => (this, None)
        case Some((tgtIdx, _)) =>
          var (g, e) := AddEdge(srcIdx, tgtIdx, m);
          (g, Some(e))
    }
  }

  /** The first position at or after `from` whose node is called `name`. */
  function FindFrom(nodes: seq<Node>, name: string, from: nat): (r: Option<nat>)
    requires from <= |nodes|
    ensures r.Some? ==> from <= r.value < |nodes| && nodes[r.value].Name() == name
    ensures r.Some? ==> forall j :: from <= j < r.value ==> nodes[j].Name() != name
    ensures r.None? <==> forall j :: from <= j < |nodes| ==> nodes[j].Name() != name
    decreases |nodes| - from
  {
    if from == |nodes| then None
    else if nodes[from].Name() == name then Some(from)
    else FindFrom(nodes, name, from + 1)
  }

  /** The first position whose node is called `name` (a first-match linear scan). */
  function IndexOf(nodes: seq<Node>, name: string): Option<nat> {
    FindFrom(nodes, name, 0)
  }

  /** Every graph in the tree keeps its edges within its own children. */
  predicate WellFormed(n: Node)
    decreases n
  {
    match n
    case Leaf(_, _) => true
    case Graph(g) => g.EdgesInRange() && forall i :: 0 <= i < |g.nodes| ==> WellFormed(g.nodes[i])
  }

  /** `graph_name`: a name qualified by its parent's, joined with '/'. */
  function GraphName(name: string, parent: Option<string>): (r: string)
    ensures parent.None? ==> r == name
    ensures parent.Some? ==>
      |r| == |parent.value| + 1 + |name| && r[..|parent.value|] == parent.value &&
      r[|parent.value|] == '/' && r[|parent.value| + 1..] == name
  {
    match parent
    case Some(p) => p + "/" + name
    case None => name
  }

  // ---------------------------------------------------------------------------
  // Edges declared by connections
  // ---------------------------------------------------------------------------

  /** The edge one `(source, target)` pair yields: one when both names resolve, else none. */
  function PairEdges(nodes: seq<Node>, src: string, tgt: string): seq<Edge> {
    match (IndexOf(nodes, src), IndexOf(nodes, tgt))
    case (Some(i), Some(j)) => [Edge(i, j, EmptyMetrics())]
    case _ => []
  }

  /** The edges of one connection, in target order. */
  function TargetEdges(nodes: seq<Node>, src: string, tgts: seq<string>): seq<Edge>
    decreases |tgts|
  {
    if tgts == [] then []
    else TargetEdges(nodes, src, tgts[..|tgts| - 1]) + PairEdges(nodes, src, tgts[|tgts| - 1])
  }

  /** The edges of a connection list, in connection order and then target order. */
  function ConnectionEdges(nodes: seq<Node>, conns: seq<Config.Connection>): seq<Edge>
    decreases |conns|
  {
    if conns == [] then []
    else
      var last := conns[|conns| - 1];
      ConnectionEdges(nodes, conns[..|conns| - 1]) + TargetEdges(nodes, last.source, last.targets)
  }

  /** The edges a pair of names resolves to when both are children. */
  ghost predicate Resolves(nodes: seq<Node>, src: string, tgt: string, e: Edge) {
    IndexOf(nodes, src) == Some(e.source) && IndexOf(nodes, tgt) == Some(e.target) &&
    e.weight == EmptyMetrics()
  }

  lemma {:induction false} TargetEdgesInRange(nodes: seq<Node>, src: string, tgts: seq<string>)
    ensures forall e :: e in TargetEdges(nodes, src, tgts) ==>
      e.source < |nodes| && e.target < |nodes| && e.weight == EmptyMetrics()
    decreases |tgts|
  {
    if tgts != [] {
      TargetEdgesInRange(nodes, src, tgts[..|tgts| - 1]);
    }
  }

  /** Every edge a connection list yields joins two children and carries `EmptyMetrics`. */
  lemma {:induction false} ConnectionEdgesInRange(nodes: seq<Node>, conns: seq<Config.Connection>)
    ensures forall e :: e in ConnectionEdges(nodes, conns) ==>
      e.source < |nodes| && e.target < |nodes| && e.weight == EmptyMetrics()
    decreases |conns|
  {
    if conns != [] {
      var last := conns[|conns| - 1];
      ConnectionEdgesInRange(nodes, conns[..|conns| - 1]);
      TargetEdgesInRange(nodes, last.source, last.targets);
    }
  }

  lemma {:induction false} TargetEdgesSound(nodes: seq<Node>, src: string, tgts: seq<string>, e: Edge)
    requires e in TargetEdges(nodes, src, tgts)
    ensures exists k :: 0 <= k < |tgts| && Resolves(nodes, src, tgts[k], e)
    decreases |tgts|
  {
    var init := tgts[..|tgts| - 1];
    if e in TargetEdges(nodes, src, init) {
      TargetEdgesSound(nodes, src, init, e);
      var k :| 0 <= k < |init| && Resolves(nodes, src, init[k], e);
      assert tgts[k] == init[k];
    } else {
      assert Resolves(nodes, src, tgts[|tgts| - 1], e);
    }
  }

  /**
   * Soundness of resolution: every edge comes from a declared pair whose two names
   * both name children of this graph.
   */
  lemma {:induction false} ConnectionEdgesSound(nodes: seq<Node>, conns: seq<Config.Connection>, e: Edge)
    requires e in ConnectionEdges(nodes, conns)
    ensures exists i, k ::
      (0 <= i < |conns| && 0 <= k < |conns[i].targets| &&
       Resolves(nodes, conns[i].source, conns[i].targets[k], e))
    decreases |conns|
  {
    var init := conns[..|conns| - 1];
    var last := conns[|conns| - 1];
    if e in ConnectionEdges(nodes, init) {
      ConnectionEdgesSound(nodes, init, e);
      var i, k :| 0 <= i < |init| && 0 <= k < |init[i].targets| &&
        Resolves(nodes, init[i].source, init[i].targets[k], e);
      assert conns[i] == init[i];
    } else {
      TargetEdgesSound(nodes, last.source, last.targets, e);
      var k :| 0 <= k < |last.targets| && Resolves(nodes, last.source, last.targets[k], e);
      assert conns[|conns| - 1].targets[k] == last.targets[k];
    }
  }

  lemma {:induction false} TargetEdgesComplete(nodes: seq<Node>, src: string, tgts: seq<string>, k: nat)
    requires k < |tgts|
    requires IndexOf(nodes, src).Some? && IndexOf(nodes, tgts[k]).Some?
    ensures Edge(IndexOf(nodes, src).value, IndexOf(nodes, tgts[k]).value, EmptyMetrics())
      in TargetEdges(nodes, src, tgts)
    decreases |tgts|
  {
    var init := tgts[..|tgts| - 1];
    if k < |tgts| - 1 {
      assert init[k] == tgts[k];
      TargetEdgesComplete(nodes, src, init, k);
    }
  }

  /**
   * Completeness of resolution: a pair whose names both resolve yields its edge, no
   * matter how many other pairs of the list failed to resolve.
   */
  lemma {:induction false} ConnectionEdgesComplete(nodes: seq<Node>, conns: seq<Config.Connection>, i: nat, k: nat)
    requires i < |conns| && k < |conns[i].targets|
    requires IndexOf(nodes, conns[i].source).Some? && IndexOf(nodes, conns[i].targets[k]).Some?
    ensures Edge(IndexOf(nodes, conns[i].source).value, IndexOf(nodes, conns[i].targets[k]).value, EmptyMetrics())
      in ConnectionEdges(nodes, conns)
    decreases |conns|
  {
    var init := conns[..|conns| - 1];
    if i < |conns| - 1 {
      assert init[i] == conns[i];
      ConnectionEdgesComplete(nodes, init, i, k);
    } else {
      TargetEdgesComplete(nodes, conns[i].source, conns[i].targets, k);
    }
  }

  /** Edges follow declaration order: a longer list only appends to a shorter one's edges. */
  lemma {:induction false} ConnectionEdgesAppend(nodes: seq<Node>, c1: seq<Config.Connection>, c2: seq<Config.Connection>)
    ensures ConnectionEdges(nodes, c1 + c2) == ConnectionEdges(nodes, c1) + ConnectionEdges(nodes, c2)
    decreases |c2|
  {
    if c2 != [] {
      var init := c2[..|c2| - 1];
      assert (c1 + c2)[..|c1 + c2| - 1] == c1 + init;
      ConnectionEdgesAppend(nodes, c1, init);
    } else {
      assert c1 + c2 == c1;
    }
  }

  /** What `add_edge_by_name` with `EmptyMetrics` appends is exactly `PairEdges`. */
  lemma AddEdgeByNameAppends(g: ObsGraph, src: string, tgt: string)
    ensures g.AddEdgeByName(src, tgt, EmptyMetrics()).0 == g.(edges := g.edges + PairEdges(g.nodes, src, tgt))
  {
  }

  /** A resolved edge's endpoints are children carrying exactly the declared names. */
  lemma ResolvedEndpointsNamed(nodes: seq<Node>, src: string, tgt: string, e: Edge)
    requires Resolves(nodes, src, tgt, e)
    ensures e.source < |nodes| && nodes[e.source].Name() == src
    ensures e.target < |nodes| && nodes[e.target].Name() == tgt
  {
  }

  // ---------------------------------------------------------------------------
  // Graph construction
  // ---------------------------------------------------------------------------

  /**
   * What `from_config_node` builds from record `c`: a graph when the record has a
   * non-empty child list, otherwise a leaf.
   */
  function BuildNode(c: Config.ConfigNode, root: bool): (n: Node)
    ensures n.Name() == c.name && n.DeclaredDisplayName() == c.displayName
    ensures n.Leaf? <==> !c.HasChildren()
    ensures n.Graph? ==>
      n.graph.root == root &&
      n.graph.entryPoint == c.entryPoint.GetOr(DefaultEntryPoint) &&
      |n.graph.nodes| == |c.nodes.items|
    ensures n.Graph? ==> forall i :: 0 <= i < |n.graph.nodes| ==>
      n.graph.nodes[i].Name() == c.nodes.items[i].name &&
      (n.graph.nodes[i].Graph? ==> !n.graph.nodes[i].graph.root)
    ensures WellFormed(n)
    decreases c
  {
    if c.HasChildren() then
      var cs := c.nodes.items;
      var children := seq(|cs|, i requires 0 <= i < |cs| => BuildNode(cs[i], false));
      var conns := c.connections.GetOr([]);
      ConnectionEdgesInRange(children, conns);
      Graph(ObsGraph(c.name, c.displayName, c.entryPoint.GetOr(DefaultEntryPoint),
                     children, ConnectionEdges(children, conns), root))
    else
      Leaf(c.name, c.displayName)
  }

  /**
   * A built graph's children are its child records built in declaration order, all
   * with the root flag off, and its edges are those its connection list yields
   * against exactly those children.
   */
  lemma BuildNodeGraph(c: Config.ConfigNode, root: bool)
    requires c.HasChildren()
    ensures var n := BuildNode(c, root);
      n.Graph? &&
      (forall i :: 0 <= i < |c.nodes.items| ==> n.graph.nodes[i] == BuildNode(c.nodes.items[i], false)) &&
      n.graph.edges == ConnectionEdges(n.graph.nodes, c.connections.GetOr([]))
  {
  }

  /**
   * `from_config_node`: builds the graph step by step as the source does, first
   * adding every child and then one edge per resolvable connection pair.
   */
  method FromConfigNode(c: Config.ConfigNode, root: bool) returns (n: Node)
    ensures n == BuildNode(c, root)
    decreases c
  {
    if c.nodes.Present? && |c.nodes.items| > 0 {
      var children := c.nodes.items;
      var entry := if c.entryPoint.Some? then c.entryPoint.value else DefaultEntryPoint;
      var g := if root then ObsGraph.Root(c.name, entry) else ObsGraph.New(c.name, entry);
      if c.displayName.Some? {
        g := g.SetDisplayName(c.displayName.value);
      }
      ghost var built := seq(|children|, k requires 0 <= k < |children| => BuildNode(children[k], false));
      var i := 0;
      while i < |children|
        invariant 0 <= i <= |children|
        invariant g == ObsGraph(c.name, c.displayName, entry, built[..i], [], root)
      {
        var child := FromConfigNode(children[i], false);
        var added := g.AddNode(child);
        g := added.0;
        assert built[..i + 1] == built[..i] + [child];
        i := i + 1;
      }
      assert built[..i] == built;
      if c.connections.Some? {
        g := AddConnections(g, c.connections.value);
      }
      assert g.edges == ConnectionEdges(built, c.connections.GetOr([]));
      n := Graph(g);
    } else {
      n := Leaf(c.name, c.displayName);
    }
  }

  /** The connection loop of `from_config_node`: every connection, in order. */
  method AddConnections(g0: ObsGraph, conns: seq<Config.Connection>) returns (g: ObsGraph)
    ensures g == g0.(edges := g0.edges + ConnectionEdges(g0.nodes, conns))
  {
    g := g0;
    var ci := 0;
    while ci < |conns|
      invariant 0 <= ci <= |conns|
      invariant g.nodes == g0.nodes
      invariant g == g0.(edges := g0.edges + ConnectionEdges(g0.nodes, conns[..ci]))
    {
      ghost var before := ConnectionEdges(g0.nodes, conns[..ci]);
      assert conns[..ci + 1][..ci] == conns[..ci];
      assert ConnectionEdges(g0.nodes, conns[..ci + 1]) ==
        before + TargetEdges(g0.nodes, conns[ci].source, conns[ci].targets);
      g := AddTargets(g, conns[ci].source, conns[ci].targets);
      ci := ci + 1;
    }
    assert conns[..ci] == conns;
  }

  /**
   * The target loop of `from_config_node`: one `add_edge_by_name` per target; a
   * target that does not resolve is skipped and the loop goes on.
   */
  method AddTargets(g0: ObsGraph, src: string, tgts: seq<string>) returns (g: ObsGraph)
    ensures g == g0.(edges := g0.edges + TargetEdges(g0.nodes, src, tgts))
  {
    g := g0;
    var ti := 0;
    while ti < |tgts|
      invariant 0 <= ti <= |tgts|
      invariant g.nodes == g0.nodes
      invariant g == g0.(edges := g0.edges + TargetEdges(g0.nodes, src, tgts[..ti]))
    {
      var res := g.AddEdgeByName(src, tgts[ti], EmptyMetrics());
      AddEdgeByNameAppends(g, src, tgts[ti]);
      ghost var before := TargetEdges(g0.nodes, src, tgts[..ti]);
      assert tgts[..ti + 1][..ti] == tgts[..ti];
      assert TargetEdges(g0.nodes, src, tgts[..ti + 1]) == before + PairEdges(g0.nodes, src, tgts[ti]);
      g := res.0;
      ti := ti + 1;
    }
    assert tgts[..ti] == tgts;
  }

  // ---------------------------------------------------------------------------
  // The registry of root regions
  // ---------------------------------------------------------------------------

  /**
   * The registry after `extend_from_config` has gone through `regions` in order: a
   * region whose name is already registered is skipped, any other is built as a
   * root and registered under its own name.
   */
  function Extended(m: map<string, Node>, regions: seq<Config.ConfigNode>): map<string, Node>
    decreases |regions|
  {
    if regions == [] then m
    else
      var prev := Extended(m, regions[..|regions| - 1]);
      var last := regions[|regions| - 1];
      if last.name in prev then prev else prev[last.name := BuildNode(last, true)]
  }

  /** The names of a region list. */
  ghost function RegionNames(regions: seq<Config.ConfigNode>): set<string> {
    set i | 0 <= i < |regions| :: regions[i].name
  }

  /** A value the registry may hold: a leaf, or a graph flagged as root. */
  predicate IsRegion(n: Node) {
    n.Graph? ==> n.graph.root
  }

  /** Registering only ever adds the listed names to the keys already present. */
  lemma {:induction false} ExtendedKeys(m: map<string, Node>, regions: seq<Config.ConfigNode>)
    ensures Extended(m, regions).Keys == m.Keys + RegionNames(regions)
    decreases |regions|
  {
    if regions != [] {
      var init := regions[..|regions| - 1];
      ExtendedKeys(m, init);
      assert RegionNames(regions) == RegionNames(init) + {regions[|regions| - 1].name} by {
        forall x | x in RegionNames(regions) ensures x in RegionNames(init) + {regions[|regions| - 1].name} {
          var i :| 0 <= i < |regions| && regions[i].name == x;
          if i < |regions| - 1 {
            assert init[i] == regions[i];
          }
        }
        forall x | x in RegionNames(init) ensures x in RegionNames(regions) {
          var i :| 0 <= i < |init| && init[i].name == x;
          assert regions[i] == init[i];
        }
      }
    }
  }

  /** An entry registered before is never overwritten. */
  lemma {:induction false} ExtendedKeepsExisting(m: map<string, Node>, regions: seq<Config.ConfigNode>, k: string)
    requires k in m
    ensures k in Extended(m, regions) && Extended(m, regions)[k] == m[k]
    decreases |regions|
  {
    if regions != [] {
      ExtendedKeepsExisting(m, regions[..|regions| - 1], k);
    }
  }

  /**
   * First write wins: a name not registered before gets the root node built from
   * the first region in the list that carries it; later regions of that name are
   * ignored.
   */
  lemma {:induction false} ExtendedFirstWins(m: map<string, Node>, regions: seq<Config.ConfigNode>, i: nat)
    requires i < |regions| && regions[i].name !in m
    requires forall j :: 0 <= j < i ==> regions[j].name != regions[i].name
    ensures regions[i].name in Extended(m, regions)
    ensures Extended(m, regions)[regions[i].name] == BuildNode(regions[i], true)
    decreases |regions|
  {
    var init := regions[..|regions| - 1];
    var name := regions[i].name;
    if i == |regions| - 1 {
      ExtendedKeys(m, init);
    } else {
      assert init[i] == regions[i];
      assert forall j :: 0 <= j < i ==> init[j] == regions[j];
      ExtendedFirstWins(m, init, i);
    }
  }

  /** Registering keeps every value a region: a leaf or a root graph. */
  lemma {:induction false} ExtendedRegions(m: map<string, Node>, regions: seq<Config.ConfigNode>)
    requires forall k :: k in m ==> IsRegion(m[k])
    ensures forall k :: k in Extended(m, regions) ==> IsRegion(Extended(m, regions)[k])
    decreases |regions|
  {
    if regions != [] {
      ExtendedRegions(m, regions[..|regions| - 1]);
    }
  }

  /** Regions with distinct names each add one entry to an empty registry. */
  lemma {:induction false} LoadDistinctCount(regions: seq<Config.ConfigNode>)
    requires forall i, j :: 0 <= i < j < |regions| ==> regions[i].name != regions[j].name
    ensures |Extended(map[], regions)| == |regions|
    decreases |regions|
  {
    if regions != [] {
      var init := regions[..|regions| - 1];
      var last := regions[|regions| - 1];
      assert forall i, j :: 0 <= i < j < |init| ==> init[i].name != init[j].name;
      LoadDistinctCount(init);
      ExtendedKeys(map[], init);
      assert last.name !in RegionNames(init) by {
        forall x | x in RegionNames(init) ensures x != last.name {
          var i :| 0 <= i < |init| && init[i].name == x;
          assert init[i] == regions[i];
        }
      }
    }
  }

  /** Registering keeps every value well formed, so every value can be translated. */
  lemma {:induction false} ExtendedWellFormed(m: map<string, Node>, regions: seq<Config.ConfigNode>)
    requires forall k :: k in m ==> WellFormed(m[k])
    ensures forall k :: k in Extended(m, regions) ==> WellFormed(Extended(m, regions)[k])
    decreases |regions|
  {
    if regions != [] {
      ExtendedWellFormed(m, regions[..|regions| - 1]);
    }
  }

  /**
   * Loading regions with distinct names into an empty registry registers every one
   * of them, each under its own name, as the root built from it.
   */
  lemma LoadDistinctRegions(regions: seq<Config.ConfigNode>)
    requires forall i, j :: 0 <= i < j < |regions| ==> regions[i].name != regions[j].name
    ensures |Extended(map[], regions)| == |regions|
    ensures forall i :: 0 <= i < |regions| ==>
      regions[i].name in Extended(map[], regions) &&
      Extended(map[], regions)[regions[i].name] == BuildNode(regions[i], true)
  {
    LoadDistinctCount(regions);
    forall i | 0 <= i < |regions|
      ensures regions[i].name in Extended(map[], regions)
      ensures Extended(map[], regions)[regions[i].name] == BuildNode(regions[i], true)
    {
      ExtendedFirstWins(map[], regions, i);
    }
  }

  /** `World`: the registry of root regions, keyed by region name. */
  class World {
    var graphs: map<string, Node>

    /** `World::new`: an empty registry. */
    constructor ()
      ensures graphs == map[]
    {
      graphs := map[];
    }

    /** `extend_from_config`: registers the document's regions, first write winning. */
    method ExtendFromConfig(config: Config.FileConfig)
      modifies this
      ensures graphs == Extended(old(graphs), config.regions)
    {
      var regions := config.regions;
      var i := 0;
      while i < |regions|
        invariant 0 <= i <= |regions|
        invariant graphs == Extended(old(graphs), regions[..i])
      {
        var region := regions[i];
        if region.name !in graphs {
          var n := FromConfigNode(region, true);
          graphs := graphs[region.name := n];
        }
        assert regions[..i + 1][..i] == regions[..i];
        i := i + 1;
      }
      assert regions[..i] == regions;
    }

    /** `graph`: the node registered under `name`, if any; an unknown name is not an error. */
    function Graph(name: string): (r: Option<Node>)
      reads this
      ensures r.Some? <==> name in graphs
      ensures r.Some? ==> r.value == graphs[name]
    {
      if name in graphs then Some(graphs[name]) else None
    }

    /**
     * `graph_names`: the registered names, sorted ascending. The keys are taken one
     * at a time and inserted into the sorted prefix (the sort of the source is a
     * library call; this is one way of performing it).
     */
    method GraphNames() returns (names: seq<string>)
      ensures StrictlySorted(names)
      ensures forall k :: k in names <==> k in graphs
      ensures |names| == |graphs|
    {
      var rest := graphs.Keys;
      names := [];
      while rest != {}
        invariant rest <= graphs.Keys
        invariant StrictlySorted(names)
        invariant forall k :: k in names <==> k in graphs && k !in rest
        invariant |names| + |rest| == |graphs|
        decreases |rest|
      {
        var k :| k in rest;
        names := Insert(names, k);
        rest := rest - {k};
      }
    }
  }
}
