/**
 * The wire structure consumed by the Vizceral dashboard, and the pure translation of
 * a topology node into it. The serde renames (`global`, `focusedChild`, camelCase
 * field names) are serialisation details and are not part of this model; the wire
 * field `class` is called `className` here because `class` is a Dafny keyword.
 */
module Vizceral {
  import opened Wrappers
  import Model
  import Config

  datatype VizceralRenderer = Global | Region | FocusedChild

  datatype VizceralSeverity = Info | Warning | Error

  datatype VizceralNotice = VizceralNotice(title: string, link: Option<string>, severity: Option<VizceralSeverity>)

  datatype VizceralMetric = VizceralMetric(normal: Option<real>, danger: Option<real>, warning: Option<real>)

  datatype VizceralConnection = VizceralConnection(
    source: string,
    target: string,
    metrics: Option<VizceralMetric>,
    notices: Option<seq<VizceralNotice>>,
    className: Option<string>)

  datatype VizceralNode = VizceralNode(
    renderer: VizceralRenderer,
    name: string,
    displayName: Option<string>,
    entryNode: Option<string>,
    updated: Option<int>,
    maxVolume: Option<int>,
    className: Option<string>,
    nodes: Option<seq<VizceralNode>>,
    connections: Option<seq<VizceralConnection>>,
    notices: Option<seq<VizceralNotice>>)

  /** `From<&Metrics> for VizceralMetric`: every threshold is carried over. */
  function FromMetrics(m: Model.Metrics): (r: VizceralMetric)
    ensures r.normal == Some(m.normal) && r.warning == Some(m.warning) && r.danger == Some(m.danger)
  {
    VizceralMetric(Some(m.normal), Some(m.danger), Some(m.warning))
  }

  /** The metric translation loses nothing: distinct thresholds stay distinct. */
  lemma FromMetricsInjective(a: Model.Metrics, b: Model.Metrics)
    requires FromMetrics(a) == FromMetrics(b)
    ensures a == b
  {
  }

  /** The connection an edge of `g` becomes: named by its two endpoint children. */
  function FromEdge(g: Model.ObsGraph, e: Model.Edge): (r: VizceralConnection)
    requires e.source < |g.nodes| && e.target < |g.nodes|
    ensures r.source == g.nodes[e.source].Name() && r.target == g.nodes[e.target].Name()
    ensures r.metrics == Some(FromMetrics(e.weight))
    ensures r.notices.None? && r.className.None?
  {
    VizceralConnection(g.nodes[e.source].Name(), g.nodes[e.target].Name(),
                       Some(FromMetrics(e.weight)), None, None)
  }

  /**
   * `From<&Node> for VizceralNode`. A leaf becomes a `FocusedChild` without entry
   * node, children or connections; a graph becomes `Global` when it is a root and
   * `Region` otherwise, with its children translated in order and one connection per
   * edge in edge order.
   */
  function FromNode(n: Model.Node): (r: VizceralNode)
    requires Model.WellFormed(n)
    ensures r.name == n.Name() && r.displayName == Some(n.DisplayName())
    ensures r.renderer == FocusedChild <==> n.Leaf?
    ensures r.renderer == Global <==> n.Graph? && n.graph.IsRoot()
    ensures r.renderer == Region <==> n.Graph? && !n.graph.IsRoot()
    ensures r.updated.None? && r.maxVolume.None? && r.className.None? && r.notices.None?
    ensures n.Leaf? ==> r.entryNode.None? && r.nodes.None? && r.connections.None?
    ensures n.Graph? ==>
      r.entryNode == Some(n.graph.entryPoint) &&
      r.nodes.Some? && |r.nodes.value| == |n.graph.nodes| &&
      r.connections.Some? && |r.connections.value| == |n.graph.edges|
    ensures n.Graph? ==> forall i :: 0 <= i < |n.graph.nodes| ==>
      r.nodes.value[i].name == n.graph.nodes[i].Name()
    decreases n
  {
    match n
    case Leaf(name, _) =>
      VizceralNode(FocusedChild, name, Some(n.DisplayName()), None, None, None, None, None, None, None)
    case Graph(g) =>
      var nodes := seq(|g.nodes|, i requires 0 <= i < |g.nodes| => FromNode(g.nodes[i]));
      var connections := seq(|g.edges|, j requires 0 <= j < |g.edges| => FromEdge(g, g.edges[j]));
      var renderer := if g.IsRoot() then Global else Region;
      VizceralNode(renderer, g.name, Some(g.DisplayName()), Some(g.entryPoint), None, None, None,
                   Some(nodes), Some(connections), None)
  }

  /** A translated graph lists its children's translations in child order. */
  lemma TranslatedChildren(g: Model.ObsGraph)
    requires Model.WellFormed(Model.Graph(g))
    ensures forall i :: 0 <= i < |g.nodes| ==>
      FromNode(Model.Graph(g)).nodes.value[i] == FromNode(g.nodes[i])
  {
  }

  /** A translated graph lists one connection per edge, in edge order. */
  lemma TranslatedConnections(g: Model.ObsGraph)
    requires Model.WellFormed(Model.Graph(g))
    ensures forall j :: 0 <= j < |g.edges| ==>
      FromNode(Model.Graph(g)).connections.value[j] == FromEdge(g, g.edges[j])
  {
  }

  /**
   * Every connection of a translated graph names, at both ends, a node that is
   * present in the same translated node list.
   */
  lemma ConnectionsReferenceNodes(n: Model.Node)
    requires Model.WellFormed(n) && n.Graph?
    ensures var r := FromNode(n);
      forall c :: c in r.connections.value ==>
        (exists i :: 0 <= i < |r.nodes.value| && r.nodes.value[i].name == c.source) &&
        (exists i :: 0 <= i < |r.nodes.value| && r.nodes.value[i].name == c.target)
  {
  }

  /** The fields the translation fills only from live data are absent at this level. */
  predicate NoLiveFieldsHere(v: VizceralNode) {
    v.updated.None? && v.maxVolume.None? && v.className.None? && v.notices.None? &&
    (v.connections.Some? ==> forall c :: c in v.connections.value ==> c.notices.None? && c.className.None?)
  }

  /**
   * No live-data field is set anywhere in the translation of `n`: at its root and,
   * recursively, in the translation of every descendant.
   */
  predicate NoLiveFields(n: Model.Node)
    requires Model.WellFormed(n)
    decreases n
  {
    NoLiveFieldsHere(FromNode(n)) &&
    (n.Graph? ==> forall i :: 0 <= i < |n.graph.nodes| ==> NoLiveFields(n.graph.nodes[i]))
  }

  /** The translation never sets `updated`, `maxVolume`, `class` or notices, at any depth. */
  lemma {:induction false} TranslationHasNoLiveFields(n: Model.Node)
    requires Model.WellFormed(n)
    ensures NoLiveFields(n)
    decreases n
  {
    match n
    case Leaf(_, _) =>
    case Graph(g) =>
      forall i | 0 <= i < |g.nodes|
        ensures NoLiveFields(g.nodes[i])
      {
        TranslationHasNoLiveFields(g.nodes[i]);
      }
      TranslatedConnections(g);
  }

  /**
   * From record to wire: the renderer depends only on whether the record has
   * children and on the root flag, and a graph's entry node defaults to INTERNET.
   */
  lemma TranslateBuilt(c: Config.ConfigNode, root: bool)
    ensures Model.WellFormed(Model.BuildNode(c, root))
    ensures var r := FromNode(Model.BuildNode(c, root));
      r.name == c.name &&
      r.displayName == Some(c.displayName.GetOr(c.name)) &&
      r.renderer == (if !c.HasChildren() then FocusedChild else if root then Global else Region) &&
      r.entryNode == (if c.HasChildren() then Some(c.entryPoint.GetOr(Model.DefaultEntryPoint)) else None)
  {
  }
}
