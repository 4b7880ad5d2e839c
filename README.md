# Observatory topology core in Dafny

Observatory serves a network topology to a Vizceral dashboard. A configuration
document lists regions. Each region is a record with a name, an optional display
name, an optional entry point, optional child records and optional connections
(`source` -> `targets`). This project models the in-memory topology built from such a
document and its translation into the Vizceral wire tree:

- `Config` (config.dfy): the configuration records as the YAML loader delivers them.
- `Model` (model.dfy): `Metrics`, the `Node` tree (a `Leaf`, or a `Graph` holding an
  `ObsGraph`), the builder `from_config_node`, and the `World` registry of root regions.
  A petgraph graph is modelled as its children in insertion order plus its edges in
  insertion order, each edge holding the positions of its endpoints.
- `Vizceral` (vizceral.dfy): the wire datatypes and the pure translation
  `From<&Node> for VizceralNode` / `From<&Metrics> for VizceralMetric`.
- `Strings` (strings.dfy): the lexicographic order `Vec<String>::sort` uses, and
  insertion into a sorted name list.
- `Scenarios` (scenarios.dfy): two concrete documents and what the model proves about them.
- `Wrappers` (wrappers.dfy): `Option`.

The builder is imperative in the source: it creates a mutable graph, adds the children
one by one and then adds edges in a loop over connections and targets.
`Model.FromConfigNode` does the same with `while` loops. It is proved equal to the
specification function `Model.BuildNode`, and the lemmas state the properties about
`BuildNode`. `World` is a class whose map field `ExtendFromConfig` updates in place.
`ExtendFromConfig` is proved equal to the specification function `Model.Extended`.

The code and the design documentation differ on one point. The documentation says
every registered value is a root graph. The code registers a `Leaf` for a region
without children, or with an empty child list. The model follows the code:
`Model.ExtendedRegions` keeps "a leaf, or a graph flagged as root".
`Metrics::new` is the `Model.Metrics` datatype constructor.

## Model

| member | source | states |
|---|---|---|
| `Model.EmptyMetrics` | src/model/mod.rs:239-245 | the default edge thresholds are normal 100, warning 10, danger 1 |
| `Model.Node.Name` | src/model/mod.rs:213-221 | a leaf's name is its own `name` field; a graph's name is its graph's name |
| `Model.ObsGraph.IsRoot` | src/model/mod.rs:43-45 | true exactly when the graph carries the root flag |
| `Model.Node.DisplayName` | src/model/mod.rs:223-228 | a node's display name is the declared one when set, otherwise its name, for leaves and graphs alike |
| `Model.ObsGraph.New` | src/model/mod.rs:19-27 | a new graph has the given name and entry point, no display name, no children, no edges, and is not a root |
| `Model.ObsGraph.Root` | src/model/mod.rs:29-37 | as `New`, except that the graph is flagged as root |
| `Model.ObsGraph.DisplayName` | src/model/mod.rs:47-49 | the graph's display name when set, otherwise its name |
| `Model.ObsGraph.SetDisplayName` | src/model/mod.rs:55-57 | afterwards the stored display name is `Some(d)`, so `DisplayName()` is `d`; nothing else changes |
| `Model.ObsGraph.AddNode` | src/model/mod.rs:59-61 | appends the node at index = old child count; edges and other fields unchanged; edge indices stay in range |
| `Model.FindFrom` | src/model/mod.rs:63-67 | first-match scan: the index returned names a child called `name` and no earlier child has that name; `None` exactly when no child has it |
| `Model.ObsGraph.FindNodeByName` | src/model/mod.rs:63-67 | returns the index and the node of the first child with the name, `None` exactly when no child has it |
| `Model.ObsGraph.AddEdge` | src/model/mod.rs:86-93 | appends exactly one edge and returns its index; nothing else changes; edge indices stay in range |
| `Model.ObsGraph.AddEdgeByName` | src/model/mod.rs:69-84 | `None` with the graph unchanged iff either name is not a direct child; otherwise exactly one edge between the first children with those names, children unchanged, edge indices in range |
| `Model.AddEdgeByNameAppends` | src/model/mod.rs:69-84 | with default metrics, `add_edge_by_name` appends exactly the edges `PairEdges` gives for that pair |
| `Model.ResolvedEndpointsNamed` | src/model/mod.rs:63-84 | a resolved edge's endpoints are children whose names are the requested source and target |
| `Model.GraphName` | src/model/mod.rs:143-147 | with a parent `p` the result is `p`, then `/`, then the name; without one it is the name |
| `Model.ConnectionEdgesInRange` | src/model/mod.rs:179-192 | every edge a connection list yields joins two existing children and carries the default metrics |
| `Model.ConnectionEdgesSound` | src/model/mod.rs:179-192 | every edge comes from a declared (source, target) pair whose names both resolve among the graph's own children |
| `Model.ConnectionEdgesComplete` | src/model/mod.rs:179-192 | every pair whose names both resolve yields its edge, whatever other pairs failed to resolve |
| `Model.ConnectionEdgesAppend` | src/model/mod.rs:179-192 | edges follow connection order: the edges of `c1 + c2` are those of `c1` followed by those of `c2` |
| `Model.BuildNode` | src/model/mod.rs:149-201 | leaf iff the child list is absent or empty; same name and declared display name; a graph has the given root flag, the declared entry point or INTERNET, one child per child record in order, each named as its record and never a root; the result is well formed |
| `Model.BuildNodeGraph` | src/model/mod.rs:172-192 | a built graph's children are the child records built with root off, in order, and its edges are those its connections yield against those children |
| `Model.FromConfigNode` | src/model/mod.rs:149-201 | the step-by-step construction (children loop, then connection and target loops) yields exactly `BuildNode(c, root)` |
| `Model.AddConnections` | src/model/mod.rs:179-192 | the connection loop appends exactly `ConnectionEdges` of the graph's children |
| `Model.AddTargets` | src/model/mod.rs:182-190 | the target loop appends exactly `TargetEdges`; an unresolvable target is skipped and the loop continues |
| `Model.ExtendedKeys` | src/model/mod.rs:114-126 | after registering, the keys are the old keys plus the names of the listed regions |
| `Model.ExtendedKeepsExisting` | src/model/mod.rs:116-120 | an entry registered before is neither removed nor overwritten |
| `Model.ExtendedFirstWins` | src/model/mod.rs:114-126 | a new name maps to the root node built from the first region in the list that carries it |
| `Model.ExtendedRegions` | src/model/mod.rs:122-123 | registering keeps every value a leaf or a graph flagged as root |
| `Model.ExtendedWellFormed` | src/model/mod.rs:122-123 | registering keeps every value well formed (every edge within its own graph's children), so every looked-up value can be translated |
| `Model.LoadDistinctRegions` | src/model/mod.rs:114-126 | N regions with distinct names in an empty registry give N entries, each region's root node under its own name |
| `Model.World.constructor` | src/model/mod.rs:107-112 | a new registry is empty |
| `Model.World.ExtendFromConfig` | src/model/mod.rs:114-126 | the new map is `Extended(old map, regions)`: first write wins, new entries built as roots |
| `Model.World.Graph` | src/model/mod.rs:128-130 | `Some` of the registered node iff the name is a key, otherwise `None` |
| `Model.World.GraphNames` | src/model/mod.rs:132-140 | exactly the keys, strictly ascending (sorted, no duplicates); as many names as keys |
| `Strings.Insert` | src/model/mod.rs:138 | inserting a new name keeps the list strictly sorted and adds exactly that name |
| `Strings.LessIrreflexive` | src/model/mod.rs:138 | no name sorts before itself |
| `Strings.LessTransitive` | src/model/mod.rs:138 | the sort order is transitive |
| `Strings.LessTotal` | src/model/mod.rs:138 | any two distinct names are ordered one way or the other |
| `Vizceral.FromMetrics` | src/vizceral/types.rs:124-131 | normal, warning and danger are each `Some` of the edge's value |
| `Vizceral.FromMetricsInjective` | src/vizceral/types.rs:124-131 | the metric translation is lossless: equal translations come from equal metrics |
| `Vizceral.FromEdge` | src/vizceral/types.rs:89-98 | a connection's source and target are the names of the edge's endpoint children; metrics are the translated weights; notices and class are absent |
| `Vizceral.FromNode` | src/vizceral/types.rs:61-122 | same name, display name = display-or-name; renderer FocusedChild iff leaf, Global iff root graph, Region iff non-root graph; a leaf has no entry node, nodes or connections; a graph has its entry point, one wire node per child (named as the child) and one connection per edge; updated, maxVolume, class and notices are absent |
| `Vizceral.TranslatedChildren` | src/vizceral/types.rs:81-85 | a graph's wire nodes are its children's translations, in child order |
| `Vizceral.TranslatedConnections` | src/vizceral/types.rs:86-100 | a graph's connections are its edges' translations, in edge order |
| `Vizceral.ConnectionsReferenceNodes` | src/vizceral/types.rs:89-94 | every connection's source and target equal the name of some node in the same translated node list |
| `Vizceral.TranslationHasNoLiveFields` | src/vizceral/types.rs:72-117 | at every depth of the translation, updated, maxVolume, class and notices are absent, and connections carry no notices or class |
| `Vizceral.TranslateBuilt` | src/vizceral/types.rs:101-111 | a record's translation is FocusedChild without entry node when it has no children, else Global or Region by the root flag with the declared entry point or INTERNET |
| `Scenarios.UsEastTranslation` | src/vizceral/types.rs:61-122 | region us-east with leaves A, B and A -> [B] registers as "us-east" and translates to a global view with two focused children and one A -> B connection with thresholds 100/10/1 |
| `Scenarios.PartialResolution` | src/model/mod.rs:179-192 | with one child A and connections X -> [Y], A -> [Y, A], only A -> A becomes an edge; construction still succeeds |

## Left out

- Logging: the `Logger` field of `World` and the `warn!`/`debug!`/`trace!` calls carry no behaviour and are not modelled.
- YAML deserialisation of the configuration and JSON serialisation of the wire tree (serde renames, camelCase, `Serialize_repr` of severities) are library calls; the renderer is a three-case datatype.
- HTTP routing, the 404 message and the `Arc<RwLock<World>>` sharing in src/api.rs and src/main.rs are not part of this model, nor is the web front end.
- Floating point: metric values are `real`s that are only copied, never computed on.
- In-place mutation of `ObsGraph`: `add_node`, `add_edge`, `add_edge_by_name` and `set_display_name` take `&mut self` on a uniquely owned value; they are modelled as functions that return the updated graph (no aliasing exists to lose).
- `Model.ObsGraph.AddEdge`: petgraph panics when an endpoint index does not exist; the model excludes that by a precondition, and the only caller passes indices found by name.
- `Model.World.GraphNames`: the source sorts with the standard library; the model sorts by inserting the keys one at a time, and proves the result sorted and equal to the key set rather than modelling the library's algorithm.
- `Config.NodeList`: the optional child list `Option<Vec<Node>>` is a dedicated two-case datatype (`Absent`/`Present`) instead of `Option<seq<ConfigNode>>`, so that Dafny's structural ordering proves termination; absent and present-but-empty remain distinct.
- petgraph's `NodeIndex<u32>`/`EdgeIndex<u32>` make `add_node` and `add_edge` panic once the 32-bit index space is used up; the model's indices are unbounded `nat`s, so that panic is not modelled.
- petgraph internals (node and edge index types, adjacency lists) are replaced by the two insertion-ordered sequences.
- Determinism and freedom from side effects of the translation hold by construction: `FromNode` is a Dafny function.
