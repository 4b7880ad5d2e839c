/**
 * The configuration records handed over by the YAML loader: a list of regions, each
 * a recursively nested record with optional children and optional connection lists.
 */
module Config {
  import opened Wrappers

  /** One declared connection: a source name and the names it sends traffic to. */
  datatype Connection = Connection(source: string, targets: seq<string>)

  /**
   * The optional child list of a record (`Option<Vec<Node>>`). It is spelled out
   * instead of using `Option<seq<ConfigNode>>` so that Dafny's structural ordering
   * sees that a child record is smaller than its parent.
   */
  datatype NodeList = Absent | Present(items: seq<ConfigNode>)

  /** One record of the source document (a region, a service or a sub-region). */
  datatype ConfigNode = ConfigNode(
    name: string,
    displayName: Option<string>,
    entryPoint: Option<string>,
    nodes: NodeList,
    connections: Option<seq<Connection>>)
  {
    /** True when the record has a child list that is present and non-empty. */
    predicate HasChildren() {
      nodes.Present? && |nodes.items| > 0
    }
  }

  /** The whole document: the top-level region list. */
  datatype FileConfig = FileConfig(regions: seq<ConfigNode>)
}
