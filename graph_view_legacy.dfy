/** The older graph view, components/curriculum-graph.tsx: electives are never shown, the
    unreduced connections light the nodes around a selection and go to the arrow layer as they
    are. Its double click and its column headers are those of the newer view. */
module GraphViewLegacy {
  import opened Wrappers
  import opened Types
  import opened GraphEdges
  import opened Connections
  import opened GraphView

  /** Electives never; the ingress course (numeric Year 0) only when toggled on (lines 35-46). */
  predicate LegacyVisible(n: Node, showIngress: bool) {
    !n.isElective && (showIngress || n.Year() != Num(0))
  }

  function LegacyCoreNodes(nodes: seq<Node>, showIngress: bool): (r: seq<Node>)
    ensures |r| <= |nodes|
  {
    if nodes == [] then []
    else
      var n := nodes[|nodes| - 1];
      LegacyCoreNodes(nodes[..|nodes| - 1], showIngress) + (if LegacyVisible(n, showIngress) then [n] else [])
  }

  /** The older filter is the newer one with electives toggled off. */
  lemma {:induction false} LegacyCoreNodesSpec(nodes: seq<Node>, showIngress: bool)
    ensures LegacyCoreNodes(nodes, showIngress) == CoreNodes(nodes, showIngress, false)
  {
    if nodes != [] {
      LegacyCoreNodesSpec(nodes[..|nodes| - 1], showIngress);
    }
  }

  /** The older view lights along every connection of `getConnections` (lines 118-128). */
  function LegacyConnectedIds(selected: Option<string>, core: seq<Node>): set<string> {
    ConnectedIds(selected, GraphEdges.Connections(core))
  }

  /** With electives hidden, the newer view lights a subset of what the older one lights: only
      the direct arrows that survive the reduction still count. */
  lemma NewerLightsLess(selected: Option<string>, nodes: seq<Node>, showIngress: bool)
    ensures ConnectedIds(selected, Reduced(Unique(GraphEdges.Connections(CoreNodes(nodes, showIngress, false))))) <=
      LegacyConnectedIds(selected, LegacyCoreNodes(nodes, showIngress))
  {
    LegacyCoreNodesSpec(nodes, showIngress);
    ReducedLightsLess(selected, CoreNodes(nodes, showIngress, false));
  }

  /** Both views draw the same arrows: the older one hands the arrow layer all connections,
      which it de-duplicates and reduces (line 215); the newer one hands its own arrow layer an
      already reduced list (line 346). That layer, components/curriculum/connection/connections.tsx,
      is not part of this model and is taken to de-duplicate and reduce as the older one does,
      which gives the same list again. */
  lemma SameArrowsDrawn(nodes: seq<Node>, showIngress: bool)
    ensures var legacy := GraphEdges.Connections(LegacyCoreNodes(nodes, showIngress));
      var newer := Reduced(Unique(GraphEdges.Connections(CoreNodes(nodes, showIngress, false))));
      Reduced(Unique(newer)) == Reduced(Unique(legacy))
  {
    LegacyCoreNodesSpec(nodes, showIngress);
    DisplayOfReduced(GraphEdges.Connections(CoreNodes(nodes, showIngress, false)));
  }
}
