/**
 * Two concrete documents and what the model proves about them: a single region
 * with two services and one connection, and a record whose connections partly
 * fail to resolve.
 */
module Scenarios {
  import opened Wrappers
  import Config
  import Model
  import opened Vizceral

  /** A record without children: it builds a leaf. */
  function LeafRecord(name: string): (c: Config.ConfigNode)
    ensures c.name == name && !c.HasChildren()
  {
    Config.ConfigNode(name, None, None, Config.Absent, None)
  }

  /** Region "us-east" with leaves A and B and the connection A -> [B]. */
  function UsEast(): Config.ConfigNode {
    Config.ConfigNode("us-east", None, Some("INTERNET"),
      Config.Present([LeafRecord("A"), LeafRecord("B")]),
      Some([Config.Connection("A", ["B"])]))
  }

  /**
   * The region is registered under its name, and its translation is a global
   * view on INTERNET with two focused children A and B and one A -> B connection
   * carrying the default thresholds.
   */
  lemma UsEastTranslation()
    ensures Model.Extended(map[], [UsEast()]).Keys == {"us-east"}
    ensures Model.WellFormed(Model.BuildNode(UsEast(), true))
    ensures var v := FromNode(Model.BuildNode(UsEast(), true));
      v.renderer == Global && v.name == "us-east" && v.entryNode == Some("INTERNET") &&
      v.nodes.Some? && |v.nodes.value| == 2 &&
      v.nodes.value[0].renderer == FocusedChild && v.nodes.value[0].name == "A" &&
      v.nodes.value[1].renderer == FocusedChild && v.nodes.value[1].name == "B" &&
      v.connections == Some([VizceralConnection("A", "B",
        Some(VizceralMetric(Some(100.0), Some(1.0), Some(10.0))), None, None)])
  {
    var n := Model.BuildNode(UsEast(), true);
    Model.BuildNodeGraph(UsEast(), true);
    var children := n.graph.nodes;
    assert children[0].Name() == "A" && children[1].Name() == "B";
    assert Model.IndexOf(children, "A") == Some(0);
    assert Model.IndexOf(children, "B") == Some(1);
    var conns := [Config.Connection("A", ["B"])];
    assert conns[..0] == [] && ["B"][..0] == [];
    assert Model.TargetEdges(children, "A", ["B"]) == [Model.Edge(0, 1, Model.EmptyMetrics())];
    assert n.graph.edges == [Model.Edge(0, 1, Model.EmptyMetrics())];
    TranslatedConnections(n.graph);
    var v := FromNode(n);
    var expected := VizceralConnection("A", "B",
      Some(VizceralMetric(Some(100.0), Some(1.0), Some(10.0))), None, None);
    assert v.connections.value[0] == FromEdge(n.graph, n.graph.edges[0]) == expected;
    assert v.connections.value == [expected];
    Model.ExtendedKeys(map[], [UsEast()]);
    assert Model.RegionNames([UsEast()]) == {"us-east"} by {
      assert [UsEast()][0].name == "us-east";
    }
  }

  /**
   * Region with one child A and two connections, X -> [Y] and A -> [Y, A]: the two
   * (source, target) pairs naming a non-child are skipped and the last pair, A -> A,
   * still becomes an edge.
   */
  function Partial(): Config.ConfigNode {
    Config.ConfigNode("r", None, None, Config.Present([LeafRecord("A")]),
      Some([Config.Connection("X", ["Y"]), Config.Connection("A", ["Y", "A"])]))
  }

  lemma PartialResolution()
    ensures var n := Model.BuildNode(Partial(), true);
      n.Graph? && n.graph.entryPoint == "INTERNET" &&
      n.graph.edges == [Model.Edge(0, 0, Model.EmptyMetrics())]
  {
    var n := Model.BuildNode(Partial(), true);
    Model.BuildNodeGraph(Partial(), true);
    var children := n.graph.nodes;
    assert children[0].Name() == "A";
    assert Model.IndexOf(children, "A") == Some(0);
    assert Model.IndexOf(children, "X") == None;
    assert Model.IndexOf(children, "Y") == None;
    var c1 := Config.Connection("X", ["Y"]);
    var c2 := Config.Connection("A", ["Y", "A"]);
    assert [c1, c2][..1] == [c1] && [c1][..0] == [];
    assert ["Y"][..0] == [] && ["Y", "A"][..1] == ["Y"];
    assert Model.TargetEdges(children, "X", ["Y"]) == [];
    assert Model.TargetEdges(children, "A", ["Y"]) == [];
    assert Model.TargetEdges(children, "A", ["Y", "A"]) == [Model.Edge(0, 0, Model.EmptyMetrics())];
    assert Model.ConnectionEdges(children, [c1]) == [];
  }
}
