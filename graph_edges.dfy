/** `getConnections` (lib/curriculum-parser.ts:240-261): one arrow for every "prerequisite for"
    entry of every node whose target ID names a node of the plan. */
module GraphEdges {
  import opened Wrappers
  import opened Types

  /** The arrow for entry `p` of node `n`: from `n`, to the entry's ID, with the entry's condition
      and `n`'s current status. */
  function Arrow(n: Node, p: Prereq): Connection {
    Connection(n.ID(), p.id, p.condition, n.status)
  }

  /** The arrows of node `n` for the entries `ps`, in entry order, skipping unknown targets. */
  function Arrows(n: Node, ps: seq<Prereq>, nodes: seq<Node>): (r: seq<Connection>)
    ensures |r| <= |ps|
  {
    if ps == [] then []
    else
      var p := ps[|ps| - 1];
      Arrows(n, ps[..|ps| - 1], nodes) + (if Find(nodes, p.id).Some? then [Arrow(n, p)] else [])
  }

  /** The arrows of the nodes `from`, node by node. */
  function ConnectionsOf(from: seq<Node>, nodes: seq<Node>): seq<Connection>
  {
    if from == [] then []
    else
      var n := from[|from| - 1];
      ConnectionsOf(from[..|from| - 1], nodes) + Arrows(n, n.prerequisiteFor, nodes)
  }

  /** What `getConnections(nodes)` returns. */
  function Connections(nodes: seq<Node>): seq<Connection> {
    ConnectionsOf(nodes, nodes)
  }

  /** The source's two nested loops, pushing one connection per entry whose target is found. */
  method GetConnections(nodes: seq<Node>) returns (connections: seq<Connection>)
    ensures connections == Connections(nodes)
  {
    connections := [];
    for i := 0 to |nodes|
      invariant connections == ConnectionsOf(nodes[..i], nodes)
    {
      var node := nodes[i];
      ghost var before := connections;
      for j := 0 to |node.prerequisiteFor|
        invariant connections == before + Arrows(node, node.prerequisiteFor[..j], nodes)
      {
        var prereqFor := node.prerequisiteFor[j];
        assert node.prerequisiteFor[..j + 1][..j] == node.prerequisiteFor[..j];
        assert node.prerequisiteFor[..j + 1][j] == prereqFor;
        var targetNode := Find(nodes, prereqFor.id);
        if targetNode.Some? {
          connections := connections + [Arrow(node, prereqFor)];
        }
      }
      assert node.prerequisiteFor[..|node.prerequisiteFor|] == node.prerequisiteFor;
      assert nodes[..i + 1][..i] == nodes[..i];
      assert nodes[..i + 1][i] == node;
    }
    assert nodes[..|nodes|] == nodes;
  }

  // ---------------------------------------------------------------------------------------------
  // Properties

  /** `c` is the arrow of one of the entries `ps` of node `n` whose target ID names a node. */
  predicate EntryArrow(n: Node, ps: seq<Prereq>, nodes: seq<Node>, c: Connection) {
    exists j :: 0 <= j < |ps| && HasID(nodes, ps[j].id) && c == Arrow(n, ps[j])
  }

  lemma {:induction false} ArrowsMembers(n: Node, ps: seq<Prereq>, nodes: seq<Node>, c: Connection)
    ensures c in Arrows(n, ps, nodes) <==> EntryArrow(n, ps, nodes, c)
  {
    if ps != [] {
      var init := ps[..|ps| - 1];
      var p := ps[|ps| - 1];
      ArrowsMembers(n, init, nodes, c);
      FindFound(nodes, p.id);
      if EntryArrow(n, ps, nodes, c) {
        var j :| 0 <= j < |ps| && HasID(nodes, ps[j].id) && c == Arrow(n, ps[j]);
        if j < |init| {
          assert init[j] == ps[j];
        }
      }
      if EntryArrow(n, init, nodes, c) {
        var j :| 0 <= j < |init| && HasID(nodes, init[j].id) && c == Arrow(n, init[j]);
        assert ps[j] == init[j];
      }
    }
  }

  /** A connection is produced exactly when some node has an entry whose target ID names a node,
      and it then goes from that node, with the entry's ID and condition and the node's status. */
  lemma {:induction false} ConnectionsMembers(from: seq<Node>, nodes: seq<Node>, c: Connection)
    ensures c in ConnectionsOf(from, nodes) <==>
      exists i :: 0 <= i < |from| && EntryArrow(from[i], from[i].prerequisiteFor, nodes, c)
  {
    if from != [] {
      var init := from[..|from| - 1];
      var n := from[|from| - 1];
      ConnectionsMembers(init, nodes, c);
      ArrowsMembers(n, n.prerequisiteFor, nodes, c);
      if exists i :: 0 <= i < |from| && EntryArrow(from[i], from[i].prerequisiteFor, nodes, c) {
        var i :| 0 <= i < |from| && EntryArrow(from[i], from[i].prerequisiteFor, nodes, c);
        if i < |init| {
          assert init[i] == from[i];
        }
      }
      if exists i :: 0 <= i < |init| && EntryArrow(init[i], init[i].prerequisiteFor, nodes, c) {
        var i :| 0 <= i < |init| && EntryArrow(init[i], init[i].prerequisiteFor, nodes, c);
        assert from[i] == init[i];
      }
    }
  }

  /** Order: the arrows of a list of nodes are those of its first part followed by those of the
      rest, so every arrow of an earlier node comes before every arrow of a later one. */
  lemma {:induction false} ConnectionsOfAppend(a: seq<Node>, b: seq<Node>, nodes: seq<Node>)
    ensures ConnectionsOf(a + b, nodes) == ConnectionsOf(a, nodes) + ConnectionsOf(b, nodes)
    decreases |b|
  {
    if b == [] {
      assert a + b == a;
    } else {
      var init := b[..|b| - 1];
      var n := b[|b| - 1];
      var arrows := Arrows(n, n.prerequisiteFor, nodes);
      assert (a + b)[..|a + b| - 1] == a + init;
      assert (a + b)[|a + b| - 1] == n;
      assert ConnectionsOf(a + b, nodes) == ConnectionsOf(a + init, nodes) + arrows;
      assert ConnectionsOf(b, nodes) == ConnectionsOf(init, nodes) + arrows;
      ConnectionsOfAppend(a, init, nodes);
      AppendAssoc(ConnectionsOf(a, nodes), ConnectionsOf(init, nodes), arrows);
    }
  }

  lemma AppendAssoc(x: seq<Connection>, y: seq<Connection>, z: seq<Connection>)
    ensures (x + y) + z == x + (y + z)
  {
  }

  /** Every entry of a node in `from`. */
  function EntryCount(from: seq<Node>): nat {
    if from == [] then 0 else EntryCount(from[..|from| - 1]) + |from[|from| - 1].prerequisiteFor|
  }

  /** No de-duplication: there are never more arrows than entries. */
  lemma {:induction false} ConnectionsBound(from: seq<Node>, nodes: seq<Node>)
    ensures |ConnectionsOf(from, nodes)| <= EntryCount(from)
  {
    if from != [] {
      ConnectionsBound(from[..|from| - 1], nodes);
    }
  }

  lemma {:induction false} ArrowsAllFound(n: Node, ps: seq<Prereq>, nodes: seq<Node>)
    requires forall j :: 0 <= j < |ps| ==> HasID(nodes, ps[j].id)
    ensures Arrows(n, ps, nodes) == seq(|ps|, j requires 0 <= j < |ps| => Arrow(n, ps[j]))
  {
    if ps != [] {
      var init := ps[..|ps| - 1];
      assert forall j :: 0 <= j < |init| ==> init[j] == ps[j];
      ArrowsAllFound(n, init, nodes);
      FindFound(nodes, ps[|ps| - 1].id);
    }
  }

  /** When every entry of every node names a node of the plan, there is exactly one arrow per
      entry, repeated entries included. */
  lemma {:induction false} ConnectionsAllFound(from: seq<Node>, nodes: seq<Node>)
    requires forall i, j :: 0 <= i < |from| && 0 <= j < |from[i].prerequisiteFor| ==>
      HasID(nodes, from[i].prerequisiteFor[j].id)
    ensures |ConnectionsOf(from, nodes)| == EntryCount(from)
  {
    if from != [] {
      var init := from[..|from| - 1];
      var n := from[|from| - 1];
      assert forall i :: 0 <= i < |init| ==> init[i] == from[i];
      ConnectionsAllFound(init, nodes);
      ArrowsAllFound(n, n.prerequisiteFor, nodes);
    }
  }
}
