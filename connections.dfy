/** The arrow layer of components/connections.tsx: de-duplication of connections, the
    transitive reduction (an adjacency map and an explicit-stack depth-first search), arrow
    colours and markers, node centres and the drawing bounds. */
module Connections {
  import opened Wrappers
  import opened Types
  import opened Seqs
  import StatusEngine

  // ---------------------------------------------------------------------------------------------
  // De-duplication (components/connections.tsx:20-28)

  /** The key `${from}-${to}` under which connections are considered equal. */
  function Key(c: Connection): string {
    c.from + "-" + c.to
  }

  function KeysOf(cs: seq<Connection>): set<string> {
    set i | 0 <= i < |cs| :: Key(cs[i])
  }

  /** No two connections share a key. */
  predicate DistinctKeys(cs: seq<Connection>) {
    forall i, j :: 0 <= i < j < |cs| ==> Key(cs[i]) != Key(cs[j])
  }

  /** `connections.filter` with a `seen` set: a connection is kept when no earlier one had its key. */
  function Unique(cs: seq<Connection>): seq<Connection>
  {
    if cs == [] then []
    else
      var init := cs[..|cs| - 1];
      var last := cs[|cs| - 1];
      Unique(init) + (if Key(last) in KeysOf(init) then [] else [last])
  }

  lemma KeysOfSnoc(cs: seq<Connection>, c: Connection)
    ensures KeysOf(cs + [c]) == KeysOf(cs) + {Key(c)}
  {
    var s := cs + [c];
    forall k | k in KeysOf(s) ensures k in KeysOf(cs) + {Key(c)} {
      var i :| 0 <= i < |s| && Key(s[i]) == k;
      if i < |cs| {
        assert s[i] == cs[i];
      }
    }
    forall k | k in KeysOf(cs) ensures k in KeysOf(s) {
      var i :| 0 <= i < |cs| && Key(cs[i]) == k;
      assert s[i] == cs[i];
    }
    assert s[|cs|] == c;
  }

  /** De-duplication keeps an order-preserving subsequence with the same set of keys. */
  lemma {:induction false} UniqueSubseq(cs: seq<Connection>)
    ensures Subseq(Unique(cs), cs)
    ensures KeysOf(Unique(cs)) == KeysOf(cs)
  {
    if cs != [] {
      var init := cs[..|cs| - 1];
      var last := cs[|cs| - 1];
      assert cs == init + [last];
      UniqueSubseq(init);
      var u := Unique(init);
      KeysOfSnoc(init, last);
      if Key(last) in KeysOf(init) {
        assert Unique(cs) == u;
        SubseqRight(u, init, last);
      } else {
        assert Unique(cs) == u + [last];
        SubseqBoth(u, init, last);
        KeysOfSnoc(u, last);
      }
    }
  }

  /** De-duplication leaves one connection per key. */
  lemma {:induction false} UniqueDistinct(cs: seq<Connection>)
    ensures DistinctKeys(Unique(cs))
  {
    if cs != [] {
      var init := cs[..|cs| - 1];
      var last := cs[|cs| - 1];
      UniqueDistinct(init);
      UniqueSubseq(init);
      var u := Unique(init);
      if Key(last) !in KeysOf(init) {
        var r := u + [last];
        assert Unique(cs) == r;
        forall i, j | 0 <= i < j < |r| ensures Key(r[i]) != Key(r[j]) {
          if j == |u| {
            assert r[i] == u[i];
            assert Key(u[i]) in KeysOf(u);
          } else {
            assert r[i] == u[i] && r[j] == u[j];
          }
        }
      }
    }
  }

  /** `c` occurs in `cs` at a position where no earlier connection has its key. */
  predicate FirstOfKey(cs: seq<Connection>, c: Connection) {
    exists i :: 0 <= i < |cs| && c == cs[i] && Key(c) !in KeysOf(cs[..i])
  }

  /** Each kept connection is the first one of its key. */
  lemma {:induction false} UniqueKeepsFirst(cs: seq<Connection>)
    ensures forall k :: 0 <= k < |Unique(cs)| ==> FirstOfKey(cs, Unique(cs)[k])
  {
    if cs != [] {
      var init := cs[..|cs| - 1];
      var last := cs[|cs| - 1];
      UniqueKeepsFirst(init);
      var u := Unique(init);
      var r := Unique(cs);
      assert r == u + (if Key(last) in KeysOf(init) then [] else [last]);
      forall k | 0 <= k < |r| ensures FirstOfKey(cs, r[k]) {
        if k < |u| {
          assert r[k] == u[k];
          assert FirstOfKey(init, u[k]);
          var i :| 0 <= i < |init| && u[k] == init[i] && Key(u[k]) !in KeysOf(init[..i]);
          assert cs[..i] == init[..i];
          assert cs[i] == init[i];
        } else {
          var i := |cs| - 1;
          assert cs[..i] == init && cs[i] == last;
          assert Key(last) !in KeysOf(init);
          assert r[k] == cs[i];
        }
      }
    }
  }

  /** The key is a plain '-' join: ("a-b" → "c") and ("a" → "b-c") share a key, so de-duplication
      drops the second although it is a different edge. */
  lemma KeyCollision(s: Status)
    ensures Key(Connection("a-b", "c", "Aprobada", s)) == Key(Connection("a", "b-c", "Aprobada", s))
    ensures Unique([Connection("a-b", "c", "Aprobada", s), Connection("a", "b-c", "Aprobada", s)])
         == [Connection("a-b", "c", "Aprobada", s)]
  {
    var c1 := Connection("a-b", "c", "Aprobada", s);
    var c2 := Connection("a", "b-c", "Aprobada", s);
    assert Key(c1) == "a-b-c" == Key(c2);
    assert [c1, c2][..1] == [c1];
    assert [c1][..0] == [];
    assert [c1][0] == c1;
    assert Key(c1) in KeysOf([c1]);
    assert Unique([c1]) == [c1];
  }

  /** The source's loop over `connections` with the `seen` set. */
  method Deduplicate(connections: seq<Connection>) returns (unique: seq<Connection>)
    ensures unique == Unique(connections)
  {
    var seen: set<string> := {};
    unique := [];
    for i := 0 to |connections|
      invariant seen == KeysOf(connections[..i])
      invariant unique == Unique(connections[..i])
    {
      var conn := connections[i];
      var key := conn.from + "-" + conn.to;
      assert connections[..i + 1][..i] == connections[..i];
      assert connections[..i + 1][i] == conn;
      KeysOfSnoc(connections[..i], conn);
      assert connections[..i + 1] == connections[..i] + [conn];
      if key !in seen {
        seen := seen + {key};
        unique := unique + [conn];
      }
    }
    assert connections[..|connections|] == connections;
  }

  // ---------------------------------------------------------------------------------------------
  // The graph of a connection list

  /** Some connection goes from `a` to `b`. */
  predicate HasEdge(es: seq<Connection>, a: string, b: string) {
    exists i :: 0 <= i < |es| && es[i].from == a && es[i].to == b
  }

  /** A walk: consecutive nodes are joined by connections. */
  ghost predicate Walk(es: seq<Connection>, p: seq<string>) {
    |p| >= 1 && forall i :: 0 <= i < |p| - 1 ==> HasEdge(es, p[i], p[i + 1])
  }

  /** A walk that never uses the edge from `u` to `v`. */
  ghost predicate Avoids(p: seq<string>, u: string, v: string) {
    forall i :: 0 <= i < |p| - 1 ==> !(p[i] == u && p[i + 1] == v)
  }

  /** `b` is reachable from `a` by a walk of at least one connection. */
  ghost predicate Reach(es: seq<Connection>, a: string, b: string) {
    exists p :: Walk(es, p) && |p| >= 2 && p[0] == a && p[|p| - 1] == b
  }

  /** The edge from `u` to `v` is implied by the others: `v` is reachable from `u` by a walk of
      at least one connection that does not use it. */
  ghost predicate Redundant(es: seq<Connection>, u: string, v: string) {
    exists p :: Walk(es, p) && Avoids(p, u, v) && |p| >= 2 && p[0] == u && p[|p| - 1] == v
  }

  /** The transitive reduction as the source computes it: every connection of `cs` that is not
      redundant in the whole graph `es`, in order. */
  ghost function ReducedBy(es: seq<Connection>, cs: seq<Connection>): seq<Connection>
  {
    if cs == [] then []
    else
      var last := cs[|cs| - 1];
      ReducedBy(es, cs[..|cs| - 1]) + (if Redundant(es, last.from, last.to) then [] else [last])
  }

  ghost function Reduced(es: seq<Connection>): seq<Connection> {
    ReducedBy(es, es)
  }

  // ---------------------------------------------------------------------------------------------
  // The adjacency map (components/connections.tsx:32-37)

  /** The map the source builds: each source node to the targets of its connections, in order. */
  function AdjOf(es: seq<Connection>): map<string, seq<string>>
  {
    if es == [] then map[]
    else
      var m := AdjOf(es[..|es| - 1]);
      var c := es[|es| - 1];
      m[c.from := (if c.from in m then m[c.from] else []) + [c.to]]
  }

  predicate MEdge(adj: map<string, seq<string>>, a: string, b: string) {
    a in adj && b in adj[a]
  }

  /** The map has exactly the connections as its edges. */
  lemma {:induction false} AdjOfEdges(es: seq<Connection>)
    ensures forall a, b :: MEdge(AdjOf(es), a, b) <==> HasEdge(es, a, b)
    ensures forall a :: a in AdjOf(es) <==> exists i :: 0 <= i < |es| && es[i].from == a
  {
    if es != [] {
      var init := es[..|es| - 1];
      var c := es[|es| - 1];
      AdjOfEdges(init);
      forall a, b ensures MEdge(AdjOf(es), a, b) <==> HasEdge(es, a, b) {
        if HasEdge(es, a, b) {
          var i :| 0 <= i < |es| && es[i].from == a && es[i].to == b;
          if i < |init| {
            assert init[i] == es[i];
            assert HasEdge(init, a, b);
          }
        }
        if HasEdge(init, a, b) {
          var i :| 0 <= i < |init| && init[i].from == a && init[i].to == b;
          assert es[i] == init[i];
        }
      }
      forall a ensures a in AdjOf(es) <==> exists i :: 0 <= i < |es| && es[i].from == a {
        if a in AdjOf(init) {
          var i :| 0 <= i < |init| && init[i].from == a;
          assert es[i] == init[i];
        }
        if exists i :: 0 <= i < |es| && es[i].from == a {
          var i :| 0 <= i < |es| && es[i].from == a;
          if i < |init| {
            assert init[i] == es[i];
          }
        }
      }
    }
  }

  /** The loop at components/connections.tsx:33-37. */
  method BuildAdjacency(es: seq<Connection>) returns (adj: map<string, seq<string>>)
    ensures adj == AdjOf(es)
  {
    adj := map[];
    for i := 0 to |es|
      invariant adj == AdjOf(es[..i])
    {
      var c := es[i];
      assert es[..i + 1][..i] == es[..i];
      assert es[..i + 1][i] == c;
      if c.from !in adj {
        adj := adj[c.from := []];
      }
      adj := adj[c.from := adj[c.from] + [c.to]];
    }
    assert es[..|es|] == es;
  }

  /** `neighbors.filter(n => n !== to)`. */
  function RemoveAll(s: seq<string>, v: string): (r: seq<string>)
    ensures |r| <= |s|
  {
    if s == [] then []
    else (if s[0] == v then [] else [s[0]]) + RemoveAll(s[1..], v)
  }

  /** `RemoveAll` drops exactly the occurrences of `v`. */
  lemma {:induction false} RemoveAllMembers(s: seq<string>, v: string)
    ensures forall x :: x in RemoveAll(s, v) <==> x in s && x != v
  {
    if s != [] {
      RemoveAllMembers(s[1..], v);
      assert s == [s[0]] + s[1..];
    }
  }

  /** The map during the test of the edge from `u` to `v`: `u`'s list without `v`. */
  function Without(adj: map<string, seq<string>>, u: string, v: string): map<string, seq<string>>
  {
    if u in adj then adj[u := RemoveAll(adj[u], v)] else adj
  }

  lemma WithoutEdges(es: seq<Connection>, u: string, v: string)
    ensures forall a, b :: MEdge(Without(AdjOf(es), u, v), a, b) <==> HasEdge(es, a, b) && !(a == u && b == v)
  {
    AdjOfEdges(es);
    if u in AdjOf(es) {
      RemoveAllMembers(AdjOf(es)[u], v);
    }
  }

  // ---------------------------------------------------------------------------------------------
  // The depth-first search (components/connections.tsx:46-61)

  ghost predicate MWalk(adj: map<string, seq<string>>, p: seq<string>) {
    |p| >= 1 && forall i :: 0 <= i < |p| - 1 ==> MEdge(adj, p[i], p[i + 1])
  }

  /** `t` is reachable, by a walk of zero or more edges, from one of `roots`. */
  ghost predicate ReachableFrom(adj: map<string, seq<string>>, roots: seq<string>, t: string) {
    exists p :: MWalk(adj, p) && p[0] in roots && p[|p| - 1] == t
  }

  lemma ReachRoot(adj: map<string, seq<string>>, roots: seq<string>, r: string)
    requires r in roots
    ensures ReachableFrom(adj, roots, r)
  {
    assert MWalk(adj, [r]);
  }

  lemma ReachExtend(adj: map<string, seq<string>>, roots: seq<string>, x: string, y: string)
    requires ReachableFrom(adj, roots, x) && MEdge(adj, x, y)
    ensures ReachableFrom(adj, roots, y)
  {
    var p :| MWalk(adj, p) && p[0] in roots && p[|p| - 1] == x;
    var q := p + [y];
    assert forall i :: 0 <= i < |p| ==> q[i] == p[i];
    assert MWalk(adj, q);
  }

  /** A set that holds the roots, is closed under edges and misses `t` shows `t` unreachable. */
  lemma ClosedSetBlocks(adj: map<string, seq<string>>, roots: seq<string>, t: string, s: set<string>)
    requires forall r :: r in roots ==> r in s
    requires forall x, y :: x in s && MEdge(adj, x, y) ==> y in s
    requires t !in s
    ensures !ReachableFrom(adj, roots, t)
  {
    forall p | MWalk(adj, p) && p[0] in roots ensures p[|p| - 1] in s {
      var k := 0;
      while k < |p| - 1
        invariant 0 <= k <= |p| - 1 && p[k] in s
      {
        assert MEdge(adj, p[k], p[k + 1]);
        k := k + 1;
      }
    }
  }

  lemma {:induction false} RemoveOneUnvisited(u: set<string>, visited: set<string>, x: string)
    requires x in u && x !in visited
    ensures |u - (visited + {x})| < |u - visited|
  {
    assert u - visited == (u - (visited + {x})) + {x};
  }

  /** The elements of `s` that are not in `visited`, in order. */
  function Unvisited(s: seq<string>, visited: set<string>): (r: seq<string>)
    ensures |r| <= |s|
  {
    if s == [] then []
    else (if s[0] in visited then [] else [s[0]]) + Unvisited(s[1..], visited)
  }

  /** `Unvisited` keeps exactly the elements outside `visited`. */
  lemma {:induction false} UnvisitedMembers(s: seq<string>, visited: set<string>)
    ensures forall x :: x in Unvisited(s, visited) <==> x in s && x !in visited
  {
    if s != [] {
      UnvisitedMembers(s[1..], visited);
      assert s == [s[0]] + s[1..];
    }
  }

  /** `(adjMap.get(current) || []).forEach(n => { if (!visited.has(n)) stack.push(n); })` */
  method PushUnvisited(stack: seq<string>, succ: seq<string>, visited: set<string>) returns (s: seq<string>)
    ensures s == stack + Unvisited(succ, visited)
  {
    s := stack;
    var j := 0;
    while j < |succ|
      invariant 0 <= j <= |succ|
      invariant s + Unvisited(succ[j..], visited) == stack + Unvisited(succ, visited)
    {
      assert succ[j..][1..] == succ[j + 1..];
      if succ[j] !in visited {
        s := s + [succ[j]];
      }
      j := j + 1;
    }
  }

  /** Every successor of a visited node is visited or still on the stack. */
  ghost predicate Closed(adj: map<string, seq<string>>, visited: set<string>, stack: seq<string>) {
    forall x, y :: x in visited && MEdge(adj, x, y) ==> y in visited || y in stack
  }

  /** Every root is visited or still on the stack. */
  ghost predicate Covered(roots: seq<string>, visited: set<string>, stack: seq<string>) {
    forall r :: r in roots ==> r in visited || r in stack
  }

  /** Every node on the stack is one of `nodes` and reachable from the roots. */
  ghost predicate Frontier(adj: map<string, seq<string>>, roots: seq<string>, nodes: set<string>, stack: seq<string>) {
    forall x :: x in stack ==> x in nodes && ReachableFrom(adj, roots, x)
  }

  /** The state of an unfinished search: everything seen is reachable, the target has not been
      expanded, and every root and every successor of an expanded node is expanded or pending. */
  ghost predicate Searching(adj: map<string, seq<string>>, roots: seq<string>, nodes: set<string>, target: string,
                            visited: set<string>, stack: seq<string>) {
    && Frontier(adj, roots, nodes, stack)
    && visited <= nodes
    && target !in visited
    && Closed(adj, visited, stack)
    && Covered(roots, visited, stack)
    && (forall x :: x in visited ==> ReachableFrom(adj, roots, x))
  }

  lemma SearchStart(adj: map<string, seq<string>>, roots: seq<string>, nodes: set<string>, target: string)
    requires forall r :: r in roots ==> r in nodes
    ensures Searching(adj, roots, nodes, target, {}, roots)
  {
    forall r | r in roots ensures ReachableFrom(adj, roots, r) {
      ReachRoot(adj, roots, r);
    }
  }

  /** Popping the target ends the search with a walk to it. */
  lemma SearchFound(adj: map<string, seq<string>>, roots: seq<string>, nodes: set<string>, target: string,
                    visited: set<string>, stack: seq<string>)
    requires Searching(adj, roots, nodes, target, visited, stack)
    requires stack != [] && stack[|stack| - 1] == target
    ensures ReachableFrom(adj, roots, target)
  {
    assert stack[|stack| - 1] in stack;
  }

  /** Popping another node, and expanding it when it was not yet visited, keeps the search state. */
  lemma SearchStep(adj: map<string, seq<string>>, roots: seq<string>, nodes: set<string>, target: string,
                   visited: set<string>, stack: seq<string>)
    requires Searching(adj, roots, nodes, target, visited, stack)
    requires forall x, y :: MEdge(adj, x, y) ==> y in nodes
    requires stack != [] && stack[|stack| - 1] != target
    ensures stack[|stack| - 1] in nodes
    ensures var current := stack[|stack| - 1];
      var rest := stack[..|stack| - 1];
      var succ := if current in adj then adj[current] else [];
      if current in visited then Searching(adj, roots, nodes, target, visited, rest)
      else Searching(adj, roots, nodes, target, visited + {current}, rest + Unvisited(succ, visited + {current}))
  {
    var current := stack[|stack| - 1];
    var rest := stack[..|stack| - 1];
    var succ := if current in adj then adj[current] else [];
    var visited' := visited + {current};
    assert current in stack;
    assert forall x :: x in stack ==> x in rest || x == current;
    UnvisitedMembers(succ, visited');
    if current !in visited {
      forall y | y in rest + Unvisited(succ, visited') ensures y in nodes && ReachableFrom(adj, roots, y) {
        if y !in rest {
          assert MEdge(adj, current, y);
          ReachExtend(adj, roots, current, y);
        }
      }
    }
  }

  /** The source's search: pop the last element; stop when it is the target; otherwise expand it
      once, pushing its successors that are not yet visited. `nodes` is a finite set holding every
      node the search can meet; it only bounds the number of expansions. */
  method Dfs(adj: map<string, seq<string>>, roots: seq<string>, target: string, ghost nodes: set<string>)
    returns (found: bool)
    requires forall r :: r in roots ==> r in nodes
    requires forall x, y :: MEdge(adj, x, y) ==> y in nodes
    ensures found <==> ReachableFrom(adj, roots, target)
  {
    var stack := roots;
    var visited: set<string> := {};
    found := false;
    SearchStart(adj, roots, nodes, target);
    while stack != [] && !found
      invariant visited <= nodes
      invariant !found ==> Searching(adj, roots, nodes, target, visited, stack)
      invariant found ==> ReachableFrom(adj, roots, target)
      decreases |nodes - visited|, |stack|
    {
      var current := stack[|stack| - 1];
      var rest := stack[..|stack| - 1];
      if current == target {
        SearchFound(adj, roots, nodes, target, visited, stack);
        found := true;
        stack := rest;
      } else {
        SearchStep(adj, roots, nodes, target, visited, stack);
        if current !in visited {
          RemoveOneUnvisited(nodes, visited, current);
          visited := visited + {current};
          var succ := if current in adj then adj[current] else [];
          stack := PushUnvisited(rest, succ, visited);
        } else {
          stack := rest;
        }
      }
    }
    if !found {
      ClosedSetBlocks(adj, roots, target, visited);
    }
  }

  // ---------------------------------------------------------------------------------------------
  // The reduction (components/connections.tsx:38-67)

  lemma RootsOfWithout(es: seq<Connection>, u: string, v: string)
    ensures forall x :: x in (if u in Without(AdjOf(es), u, v) then Without(AdjOf(es), u, v)[u] else [])
                       <==> HasEdge(es, u, x) && x != v
  {
    AdjOfEdges(es);
    WithoutEdges(es, u, v);
  }

  /** The search from the other successors of `u`, in the map without the edge, succeeds exactly
      when the edge is redundant. */
  lemma {:induction false} SearchDecidesRedundant(es: seq<Connection>, u: string, v: string)
    ensures var m := Without(AdjOf(es), u, v);
      ReachableFrom(m, if u in m then m[u] else [], v) <==> Redundant(es, u, v)
  {
    var m := Without(AdjOf(es), u, v);
    var roots := if u in m then m[u] else [];
    WithoutEdges(es, u, v);
    RootsOfWithout(es, u, v);
    if ReachableFrom(m, roots, v) {
      var q :| MWalk(m, q) && q[0] in roots && q[|q| - 1] == v;
      var p := [u] + q;
      forall i | 0 <= i < |p| - 1 ensures HasEdge(es, p[i], p[i + 1]) && !(p[i] == u && p[i + 1] == v) {
        if i > 0 {
          assert p[i] == q[i - 1] && p[i + 1] == q[i];
          assert MEdge(m, q[i - 1], q[i]);
        }
      }
      assert Walk(es, p) && Avoids(p, u, v);
    }
    if Redundant(es, u, v) {
      var p :| Walk(es, p) && Avoids(p, u, v) && |p| >= 2 && p[0] == u && p[|p| - 1] == v;
      var q := p[1..];
      assert HasEdge(es, p[0], p[1]) && !(p[0] == u && p[1] == v);
      forall i | 0 <= i < |q| - 1 ensures MEdge(m, q[i], q[i + 1]) {
        assert q[i] == p[i + 1] && q[i + 1] == p[i + 2];
        assert HasEdge(es, p[i + 1], p[i + 2]) && !(p[i + 1] == u && p[i + 2] == v);
      }
      assert MWalk(m, q);
    }
  }

  function NodesOf(es: seq<Connection>): set<string> {
    (set i | 0 <= i < |es| :: es[i].from) + (set i | 0 <= i < |es| :: es[i].to)
  }

  /** Putting a list back restores the map. */
  lemma RestoreMap(m: map<string, seq<string>>, k: string, x: seq<string>)
    requires k in m
    ensures m[k := x][k := m[k]] == m
  {
  }

  /** The map with the `i`th connection's edge removed, as the loop builds it, and the bounds its
      search needs. */
  lemma RemovedEdge(es: seq<Connection>, i: nat)
    requires i < |es|
    ensures es[i].from in AdjOf(es)
    ensures forall x, y :: MEdge(Without(AdjOf(es), es[i].from, es[i].to), x, y) ==> y in NodesOf(es)
    ensures forall r :: r in RemoveAll(AdjOf(es)[es[i].from], es[i].to) ==> r in NodesOf(es)
  {
    var u, v := es[i].from, es[i].to;
    AdjOfEdges(es);
    WithoutEdges(es, u, v);
    assert HasEdge(es, u, v);
    forall x, y | MEdge(Without(AdjOf(es), u, v), x, y) ensures y in NodesOf(es) {
      var k :| 0 <= k < |es| && es[k].from == x && es[k].to == y;
    }
    forall r | r in RemoveAll(AdjOf(es)[u], v) ensures r in NodesOf(es) {
      assert MEdge(Without(AdjOf(es), u, v), u, r);
    }
  }

  /** One turn of the loop: the `i`th connection is appended exactly when it is not redundant. */
  lemma ReduceStep(es: seq<Connection>, i: nat)
    requires i < |es|
    ensures ReducedBy(es, es[..i + 1])
         == ReducedBy(es, es[..i]) + (if Redundant(es, es[i].from, es[i].to) then [] else [es[i]])
  {
    var cs := es[..i + 1];
    assert cs[..|cs| - 1] == es[..i];
    assert cs[|cs| - 1] == es[i];
  }

  /** The source's reduction loop: for each connection, remove its edge from the map, search for
      another way from its source to its target, put the edge back, keep it when none exists. */
  method ReduceConnections(unique: seq<Connection>) returns (result: seq<Connection>)
    ensures result == Reduced(unique)
  {
    var adjMap := BuildAdjacency(unique);
    result := [];
    for i := 0 to |unique|
      invariant adjMap == AdjOf(unique)
      invariant result == ReducedBy(unique, unique[..i])
    {
      var conn := unique[i];
      var from, to := conn.from, conn.to;
      RemovedEdge(unique, i);
      var neighbors := if from in adjMap then adjMap[from] else [];
      var filtered := RemoveAll(neighbors, to);
      adjMap := adjMap[from := filtered];
      assert adjMap == Without(AdjOf(unique), from, to);
      var found := Dfs(adjMap, filtered, to, NodesOf(unique));
      SearchDecidesRedundant(unique, from, to);
      RestoreMap(AdjOf(unique), from, filtered);
      adjMap := adjMap[from := neighbors];
      ReduceStep(unique, i);
      if !found {
        result := result + [conn];
      }
    }
    assert unique[..|unique|] == unique;
  }

  // ---------------------------------------------------------------------------------------------
  // Properties of the reduction

  lemma {:induction false} ReducedByMembers(es: seq<Connection>, cs: seq<Connection>)
    ensures Subseq(ReducedBy(es, cs), cs)
    ensures forall c :: c in ReducedBy(es, cs) <==> c in cs && !Redundant(es, c.from, c.to)
  {
    if cs != [] {
      var init := cs[..|cs| - 1];
      var last := cs[|cs| - 1];
      assert cs == init + [last];
      ReducedByMembers(es, init);
      if Redundant(es, last.from, last.to) {
        assert ReducedBy(es, cs) == ReducedBy(es, init);
        SubseqRight(ReducedBy(es, init), init, last);
      } else {
        SubseqBoth(ReducedBy(es, init), init, last);
      }
    }
  }

  /** The reduction is an order-preserving subsequence, and a connection is kept exactly when
      the rest of the graph gives no other way from its source to its target. */
  lemma ReducedSpec(es: seq<Connection>)
    ensures Subseq(Reduced(es), es)
    ensures forall c :: c in Reduced(es) <==> c in es && !Redundant(es, c.from, c.to)
  {
    ReducedByMembers(es, es);
  }

  lemma WalkInSuper(sub: seq<Connection>, es: seq<Connection>, p: seq<string>)
    requires forall c :: c in sub ==> c in es
    requires Walk(sub, p)
    ensures Walk(es, p)
  {
    forall i | 0 <= i < |p| - 1 ensures HasEdge(es, p[i], p[i + 1]) {
      assert HasEdge(sub, p[i], p[i + 1]);
      var k :| 0 <= k < |sub| && sub[k].from == p[i] && sub[k].to == p[i + 1];
      assert sub[k] in es;
      var j :| 0 <= j < |es| && es[j] == sub[k];
    }
  }

  lemma {:induction false} ReducedByAll(es: seq<Connection>, cs: seq<Connection>)
    requires forall c :: c in cs ==> !Redundant(es, c.from, c.to)
    ensures ReducedBy(es, cs) == cs
  {
    if cs != [] {
      var init := cs[..|cs| - 1];
      assert cs == init + [cs[|cs| - 1]];
      ReducedByAll(es, init);
    }
  }

  /** Reducing a reduced list removes nothing, for every graph (cyclic ones included): a walk in
      the smaller graph is a walk in the larger one. The newer graph view reduces the
      connections and passes the result to the arrow layer, which reduces again. */
  lemma ReducedIdempotent(es: seq<Connection>)
    ensures Reduced(Reduced(es)) == Reduced(es)
  {
    var r := Reduced(es);
    ReducedSpec(es);
    SubseqMembers(r, es);
    forall p | Walk(r, p) ensures Walk(es, p) {
      WalkInSuper(r, es, p);
    }
    ReducedByAll(r, r);
  }

  /** A strictly decreasing rank along every connection: the graph is acyclic. */
  predicate RankedBy(es: seq<Connection>, rank: string -> nat) {
    forall i :: 0 <= i < |es| ==> rank(es[i].from) > rank(es[i].to)
  }

  lemma {:induction false} WalkRanks(es: seq<Connection>, rank: string -> nat, p: seq<string>, i: nat, j: nat)
    requires RankedBy(es, rank) && Walk(es, p) && i < j < |p|
    ensures rank(p[i]) > rank(p[j])
    decreases j - i
  {
    assert HasEdge(es, p[i], p[i + 1]);
    var k :| 0 <= k < |es| && es[k].from == p[i] && es[k].to == p[i + 1];
    if i + 1 < j {
      WalkRanks(es, rank, p, i + 1, j);
    }
  }

  /** Each step of a walk of three or more nodes spans less rank than the whole walk. */
  lemma WalkStepShorter(es: seq<Connection>, rank: string -> nat, p: seq<string>, i: nat)
    requires RankedBy(es, rank) && Walk(es, p) && |p| >= 3 && i < |p| - 1
    ensures HasEdge(es, p[i], p[i + 1])
    ensures rank(p[i]) - rank(p[i + 1]) < rank(p[0]) - rank(p[|p| - 1])
  {
    assert HasEdge(es, p[i], p[i + 1]);
    if i > 0 {
      WalkRanks(es, rank, p, 0, i);
    }
    if i + 1 < |p| - 1 {
      WalkRanks(es, rank, p, i + 1, |p| - 1);
    }
  }

  lemma ReachEdge(es: seq<Connection>, a: string, b: string)
    requires HasEdge(es, a, b)
    ensures Reach(es, a, b)
  {
    assert Walk(es, [a, b]);
  }

  lemma ReachJoin(es: seq<Connection>, a: string, b: string, c: string)
    requires Reach(es, a, b) && Reach(es, b, c)
    ensures Reach(es, a, c)
  {
    var p :| Walk(es, p) && |p| >= 2 && p[0] == a && p[|p| - 1] == b;
    var q :| Walk(es, q) && |q| >= 2 && q[0] == b && q[|q| - 1] == c;
    var w := p + q[1..];
    forall i | 0 <= i < |w| - 1 ensures HasEdge(es, w[i], w[i + 1]) {
      if i < |p| - 1 {
        assert w[i] == p[i] && w[i + 1] == p[i + 1];
      } else {
        assert w[i] == q[i - |p| + 1] && w[i + 1] == q[i - |p| + 2];
      }
    }
    assert Walk(es, w);
  }

  /** A walk whose every step is reachable in `es` has its end reachable from its start. */
  lemma {:induction false} ReachAlong(es: seq<Connection>, p: seq<string>)
    requires |p| >= 2
    requires forall i :: 0 <= i < |p| - 1 ==> Reach(es, p[i], p[i + 1])
    ensures Reach(es, p[0], p[|p| - 1])
  {
    if |p| > 2 {
      ReachAlong(es, p[1..]);
      assert p[1..][0] == p[1] && p[1..][|p| - 2] == p[|p| - 1];
      ReachJoin(es, p[0], p[1], p[|p| - 1]);
    }
  }

  /** In an acyclic graph every connection stays implied by the reduction. */
  lemma {:induction false} EdgeSurvivesReduction(es: seq<Connection>, rank: string -> nat, a: string, b: string)
    requires RankedBy(es, rank) && HasEdge(es, a, b)
    ensures Reach(Reduced(es), a, b)
    decreases rank(a) - rank(b)
  {
    var k :| 0 <= k < |es| && es[k].from == a && es[k].to == b;
    ReducedSpec(es);
    if !Redundant(es, a, b) {
      assert es[k] in Reduced(es);
      var r := Reduced(es);
      var j :| 0 <= j < |r| && r[j] == es[k];
      ReachEdge(r, a, b);
    } else {
      var p :| Walk(es, p) && Avoids(p, a, b) && |p| >= 2 && p[0] == a && p[|p| - 1] == b;
      assert |p| >= 3 by {
        assert !(p[0] == a && p[1] == b);
      }
      forall i | 0 <= i < |p| - 1 ensures Reach(Reduced(es), p[i], p[i + 1]) {
        WalkStepShorter(es, rank, p, i);
        EdgeSurvivesReduction(es, rank, p[i], p[i + 1]);
      }
      ReachAlong(Reduced(es), p);
    }
  }

  /** For an acyclic graph, the reduction preserves reachability in both directions. */
  lemma ReductionPreservesReach(es: seq<Connection>, rank: string -> nat, a: string, b: string)
    requires RankedBy(es, rank)
    ensures Reach(Reduced(es), a, b) <==> Reach(es, a, b)
  {
    ReducedSpec(es);
    SubseqMembers(Reduced(es), es);
    if Reach(es, a, b) {
      var p :| Walk(es, p) && |p| >= 2 && p[0] == a && p[|p| - 1] == b;
      forall i | 0 <= i < |p| - 1 ensures Reach(Reduced(es), p[i], p[i + 1]) {
        EdgeSurvivesReduction(es, rank, p[i], p[i + 1]);
      }
      ReachAlong(Reduced(es), p);
    }
    if Reach(Reduced(es), a, b) {
      var p :| Walk(Reduced(es), p) && |p| >= 2 && p[0] == a && p[|p| - 1] == b;
      WalkInSuper(Reduced(es), es, p);
    }
  }

  /** A set closed under the connections other than `u`→`v` that holds the start of a walk avoiding
      that edge holds all of the walk. */
  lemma ClosedAvoiding(es: seq<Connection>, u: string, v: string, s: set<string>)
    requires forall i :: 0 <= i < |es| && es[i].from in s && !(es[i].from == u && es[i].to == v) ==> es[i].to in s
    requires u in s && v !in s
    ensures !Redundant(es, u, v)
  {
    forall p | Walk(es, p) && Avoids(p, u, v) && |p| >= 2 && p[0] == u ensures p[|p| - 1] in s {
      var k := 0;
      while k < |p| - 1
        invariant 0 <= k <= |p| - 1 && p[k] in s
      {
        assert HasEdge(es, p[k], p[k + 1]) && !(p[k] == u && p[k + 1] == v);
        var m :| 0 <= m < |es| && es[m].from == p[k] && es[m].to == p[k + 1];
        k := k + 1;
      }
    }
  }

  /** The graph A→B, B→C, A→C. */
  function Triangle(s: Status): seq<Connection> {
    [Connection("A", "B", "Aprobada", s), Connection("B", "C", "Aprobada", s), Connection("A", "C", "Aprobada", s)]
  }

  lemma TriangleEdges(s: Status)
    ensures !Redundant(Triangle(s), "A", "B")
    ensures !Redundant(Triangle(s), "B", "C")
    ensures Redundant(Triangle(s), "A", "C")
  {
    var es := Triangle(s);
    ClosedAvoiding(es, "A", "B", {"A", "C"});
    ClosedAvoiding(es, "B", "C", {"B"});
    assert es[0].from == "A" && es[0].to == "B" && es[1].from == "B" && es[1].to == "C";
    assert HasEdge(es, "A", "B") && HasEdge(es, "B", "C");
    assert Walk(es, ["A", "B", "C"]) && Avoids(["A", "B", "C"], "A", "C");
  }

  /** The reduction of `cs + [c]` adds `c` to that of `cs` exactly when `c` is not redundant. */
  lemma ReducedBySnoc(es: seq<Connection>, cs: seq<Connection>, c: Connection)
    ensures ReducedBy(es, cs + [c]) == ReducedBy(es, cs) + (if Redundant(es, c.from, c.to) then [] else [c])
  {
    assert (cs + [c])[..|cs|] == cs;
  }

  lemma ReducedThree(es: seq<Connection>)
    requires |es| == 3
    requires !Redundant(es, es[0].from, es[0].to) && !Redundant(es, es[1].from, es[1].to)
    requires Redundant(es, es[2].from, es[2].to)
    ensures Reduced(es) == es[..2]
  {
    assert es[..1] == [] + [es[0]];
    ReducedBySnoc(es, [], es[0]);
    assert es[..2] == es[..1] + [es[1]];
    ReducedBySnoc(es, es[..1], es[1]);
    assert es == es[..2] + [es[2]];
    ReducedBySnoc(es, es[..2], es[2]);
  }

  /** A→B, B→C, A→C: only the shortcut A→C is removed. */
  lemma TriangleReduction(s: Status)
    ensures Reduced(Triangle(s)) == Triangle(s)[..2]
  {
    TriangleEdges(s);
    ReducedThree(Triangle(s));
  }

  lemma {:induction false} ReducedByDistinct(es: seq<Connection>, cs: seq<Connection>)
    requires DistinctKeys(cs)
    ensures DistinctKeys(ReducedBy(es, cs))
    ensures KeysOf(ReducedBy(es, cs)) <= KeysOf(cs)
  {
    if cs != [] {
      var init := cs[..|cs| - 1];
      var last := cs[|cs| - 1];
      assert cs == init + [last];
      DistinctInit(cs);
      ReducedByDistinct(es, init);
      var u := ReducedBy(es, init);
      KeysOfSnoc(init, last);
      if !Redundant(es, last.from, last.to) {
        KeysOfSnoc(u, last);
        var r := u + [last];
        assert ReducedBy(es, cs) == r;
        forall i, j | 0 <= i < j < |r| ensures Key(r[i]) != Key(r[j]) {
          if j == |u| {
            assert r[i] == u[i];
            assert Key(u[i]) in KeysOf(u);
          } else {
            assert r[i] == u[i] && r[j] == u[j];
          }
        }
      } else {
        assert ReducedBy(es, cs) == u;
      }
    }
  }

  /** The arrow layer receives an already reduced list from the newer graph view and
      de-duplicates and reduces it again; the arrows drawn are that list. */
  lemma DisplayOfReduced(cs: seq<Connection>)
    ensures Reduced(Unique(Reduced(Unique(cs)))) == Reduced(Unique(cs))
  {
    var u := Unique(cs);
    UniqueDistinct(cs);
    ReducedByDistinct(u, u);
    var r := Reduced(u);
    UniqueOfDistinct(r);
    assert Unique(r) == r;
    ReducedIdempotent(u);
  }

  /** Dropping the last connection of a list with distinct keys keeps the keys distinct, and the
      dropped key is not among the rest. */
  lemma DistinctInit(cs: seq<Connection>)
    requires cs != [] && DistinctKeys(cs)
    ensures DistinctKeys(cs[..|cs| - 1])
    ensures Key(cs[|cs| - 1]) !in KeysOf(cs[..|cs| - 1])
  {
    var init := cs[..|cs| - 1];
    forall i, j | 0 <= i < j < |init| ensures Key(init[i]) != Key(init[j]) {
      assert init[i] == cs[i] && init[j] == cs[j];
    }
    forall k | 0 <= k < |init| ensures Key(init[k]) != Key(cs[|cs| - 1]) {
      assert init[k] == cs[k];
    }
  }

  /** A list whose keys are pairwise distinct is left alone by de-duplication. */
  lemma {:induction false} UniqueOfDistinct(cs: seq<Connection>)
    requires DistinctKeys(cs)
    ensures Unique(cs) == cs
  {
    if cs != [] {
      var init := cs[..|cs| - 1];
      DistinctInit(cs);
      UniqueOfDistinct(init);
      assert cs == init + [cs[|cs| - 1]];
    }
  }


  // ---------------------------------------------------------------------------------------------
  // Drawing (components/connections.tsx:7-8, 71-78, 95-122, 131-201)

  const NodeWidth := 180
  const NodeHeight := 60

  /** `getNodePosition`: the centre of the first node with the ID, or the origin. */
  function NodePosition(nodes: seq<Node>, id: string): (pos: (int, int))
    ensures HasID(nodes, id) ==>
      exists i :: 0 <= i < |nodes| && nodes[i].ID() == id && pos == (nodes[i].x + 90, nodes[i].y + 30) &&
        forall j :: 0 <= j < i ==> nodes[j].ID() != id
    ensures !HasID(nodes, id) ==> pos == (0, 0)
  {
    FindFound(nodes, id);
    FindIndexFirst(nodes, id);
    match Find(nodes, id)
    case None => (0, 0)
    case Some(n) => (n.x + NodeWidth / 2, n.y + NodeHeight / 2)
  }

  /** The five arrow colours. */
  datatype Colour = Green | Blue | Yellow | Red | Gray

  function Hex(c: Colour): string {
    match c
    case Green => "#16a34a"
    case Blue => "#3b82f6"
    case Yellow => "#eab308"
    case Red => "#dc2626"
    case Gray => "#6b7280"
  }

  /** `getConnectionColor`, as the hex text the source returns. */
  function ConnectionColor(fromStatus: Status): (hex: string)
    ensures fromStatus == Aprobada ==> hex == "#16a34a"
    ensures fromStatus == Cursando ==> hex == "#3b82f6"
    ensures fromStatus == EnFinal ==> hex == "#eab308"
    ensures fromStatus == Desaprobada ==> hex == "#dc2626"
    ensures !(fromStatus in {Aprobada, Cursando, EnFinal, Desaprobada}) ==> hex == "#6b7280"
  {
    match fromStatus
    case Aprobada => Hex(Green)
    case Cursando => Hex(Blue)
    case EnFinal => Hex(Yellow)
    case Desaprobada => Hex(Red)
    case _ => Hex(Gray)
  }

  /** The marker chosen by comparing the stroke colour with four hex texts. */
  function MarkerId(strokeColor: string): string {
    if strokeColor == "#16a34a" then "arrow-green"
    else if strokeColor == "#3b82f6" then "arrow-blue"
    else if strokeColor == "#eab308" then "arrow-yellow"
    else if strokeColor == "#dc2626" then "arrow-red"
    else "arrow-gray"
  }

  /** The fill of the arrow-head polygon inside each `<marker>` definition. */
  function MarkerFill(markerId: string): Option<string> {
    if markerId == "arrow-green" then Some("#16a34a")
    else if markerId == "arrow-blue" then Some("#3b82f6")
    else if markerId == "arrow-yellow" then Some("#eab308")
    else if markerId == "arrow-red" then Some("#dc2626")
    else if markerId == "arrow-gray" then Some("#6b7280")
    else None
  }

  /** Every arrow refers to a defined marker whose head has the colour of its line. */
  lemma MarkerMatchesColour(fromStatus: Status)
    ensures MarkerFill(MarkerId(ConnectionColor(fromStatus))) == Some(ConnectionColor(fromStatus))
  {
  }

  /** The five colours are distinct, so the marker tells the status groups apart. */
  lemma ColoursDistinct(a: Colour, b: Colour)
    ensures Hex(a) == Hex(b) <==> a == b
  {
  }

  /** The line is drawn wider (2.5 instead of 1.5) exactly for APROBADA, CURSANDO and EN_FINAL,
      which are the statuses that meet a "Regularizada" prerequisite: a wide arrow is one whose
      source subject already lets the target be taken under that condition. */
  function StrokeWidth(fromStatus: Status): (w: real)
    ensures w == 2.5 <==> fromStatus in {Aprobada, Cursando, EnFinal}
    ensures w == 1.5 <==> !(fromStatus in {Aprobada, Cursando, EnFinal})
    ensures w == 2.5 <==> StatusEngine.Meets(fromStatus, "Regularizada")
  {
    if fromStatus == Aprobada || fromStatus == Cursando || fromStatus == EnFinal then 2.5 else 1.5
  }

  /** A connection is drawn at full opacity (0.8 rather than 0.1) when nothing is selected or
      one of its ends is the selected subject. */
  function Opacity(c: Connection, selected: Option<string>): (o: real)
    ensures o == 0.8 <==> selected.None? || c.from == selected.value || c.to == selected.value
    ensures o == 0.8 || o == 0.1
  {
    if selected.None? || c.from == selected.value || c.to == selected.value then 0.8 else 0.1
  }

  function MaxX(nodes: seq<Node>): (m: int)
    requires nodes != []
    ensures forall i :: 0 <= i < |nodes| ==> nodes[i].x <= m
    ensures exists i :: 0 <= i < |nodes| && nodes[i].x == m
  {
    if |nodes| == 1 then nodes[0].x
    else
      var rest := MaxX(nodes[1..]);
      assert forall i :: 1 <= i < |nodes| ==> nodes[i] == nodes[1..][i - 1];
      if nodes[0].x >= rest then nodes[0].x else rest
  }

  function MaxY(nodes: seq<Node>): (m: int)
    requires nodes != []
    ensures forall i :: 0 <= i < |nodes| ==> nodes[i].y <= m
    ensures exists i :: 0 <= i < |nodes| && nodes[i].y == m
  {
    if |nodes| == 1 then nodes[0].y
    else
      var rest := MaxY(nodes[1..]);
      assert forall i :: 1 <= i < |nodes| ==> nodes[i] == nodes[1..][i - 1];
      if nodes[0].y >= rest then nodes[0].y else rest
  }

  /** The SVG size: the largest x plus 200 and the largest y plus 100, or zero with no nodes. */
  function SvgSize(nodes: seq<Node>): (size: (int, int))
  {
    if nodes == [] then (0, 0) else (MaxX(nodes) + 200, MaxY(nodes) + 100)
  }

  /** Every node box, and so every arrow end, lies inside the drawing; and the drawing is no
      larger than needed for the right-most and lowest node. */
  lemma SvgHoldsNodes(nodes: seq<Node>)
    ensures forall i :: 0 <= i < |nodes| ==>
      nodes[i].x + NodeWidth <= SvgSize(nodes).0 && nodes[i].y + NodeHeight <= SvgSize(nodes).1
    ensures nodes != [] ==> exists i :: 0 <= i < |nodes| && SvgSize(nodes).0 == nodes[i].x + 200
    ensures nodes == [] ==> SvgSize(nodes) == (0, 0)
  {
    if nodes != [] {
      var i :| 0 <= i < |nodes| && nodes[i].x == MaxX(nodes);
      assert SvgSize(nodes).0 == nodes[i].x + 200;
    }
  }
}
