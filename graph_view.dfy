/** The graph view of components/curriculum/curriculum-graph.tsx: which nodes are shown, the
    reduced arrows, which nodes stay bright around a selection, the double-click toggle and the
    column headers. */
module GraphView {
  import opened Wrappers
  import opened Types
  import opened Seqs
  import opened CurriculumLayout
  import opened GraphEdges
  import opened Connections
  import LayoutProperties
  import LayoutPositions

  // ---------------------------------------------------------------------------------------------
  // Shown nodes (lines 39-50)

  /** Electives only when they are toggled on; the ingress course (numeric Year 0) only when it
      is toggled on. */
  predicate Visible(n: Node, showIngress: bool, showElectives: bool) {
    (showElectives || !n.isElective) && (showIngress || n.Year() != Num(0))
  }

  /** `nodes.filter(...)` with the two toggles. */
  function CoreNodes(nodes: seq<Node>, showIngress: bool, showElectives: bool): (r: seq<Node>)
    ensures |r| <= |nodes|
  {
    if nodes == [] then []
    else
      var n := nodes[|nodes| - 1];
      CoreNodes(nodes[..|nodes| - 1], showIngress, showElectives) +
        (if Visible(n, showIngress, showElectives) then [n] else [])
  }

  /** The shown nodes keep their order, and a node is shown exactly when the toggles let it. */
  lemma {:induction false} CoreNodesSpec(nodes: seq<Node>, showIngress: bool, showElectives: bool)
    ensures Subseq(CoreNodes(nodes, showIngress, showElectives), nodes)
    ensures forall n :: n in CoreNodes(nodes, showIngress, showElectives) <==>
      n in nodes && Visible(n, showIngress, showElectives)
  {
    if nodes != [] {
      var init := nodes[..|nodes| - 1];
      var n := nodes[|nodes| - 1];
      assert nodes == init + [n];
      CoreNodesSpec(init, showIngress, showElectives);
      if Visible(n, showIngress, showElectives) {
        SubseqBoth(CoreNodes(init, showIngress, showElectives), init, n);
      } else {
        assert CoreNodes(nodes, showIngress, showElectives) == CoreNodes(init, showIngress, showElectives);
        SubseqRight(CoreNodes(init, showIngress, showElectives), init, n);
      }
    }
  }

  /** With both toggles on nothing is hidden. */
  lemma {:induction false} AllShown(nodes: seq<Node>)
    ensures CoreNodes(nodes, true, true) == nodes
  {
    if nodes != [] {
      AllShown(nodes[..|nodes| - 1]);
      assert nodes == nodes[..|nodes| - 1] + [nodes[|nodes| - 1]];
    }
  }

  // ---------------------------------------------------------------------------------------------
  // Arrows (lines 86-142)

  /** The view's connections: `getConnections` of the shown nodes, de-duplicated and reduced with
      the same loop as the arrow layer. */
  method ReducedConnections(core: seq<Node>) returns (reduced: seq<Connection>)
    ensures reduced == Reduced(Unique(GraphEdges.Connections(core)))
  {
    var connections := GetConnections(core);
    var unique := Deduplicate(connections);
    reduced := ReduceConnections(unique);
  }

  /** Every reduced arrow is one of `getConnections`' arrows, in the same order, and no two share
      their ends. */
  lemma ReducedConnectionsSpec(core: seq<Node>)
    ensures Subseq(Reduced(Unique(GraphEdges.Connections(core))), GraphEdges.Connections(core))
    ensures DistinctKeys(Reduced(Unique(GraphEdges.Connections(core))))
  {
    var cs := GraphEdges.Connections(core);
    var u := Unique(cs);
    UniqueSubseq(cs);
    UniqueDistinct(cs);
    ReducedSpec(u);
    SubseqTrans(Reduced(u), u, cs);
    ReducedByDistinct(u, u);
  }

  // ---------------------------------------------------------------------------------------------
  // Bright nodes around a selection (lines 232-242, 350)

  /** The IDs next to `id` along the connections `cs`, as the `forEach` collects them. */
  function Neighbours(id: string, cs: seq<Connection>): set<string> {
    if cs == [] then {}
    else
      var c := cs[|cs| - 1];
      Neighbours(id, cs[..|cs| - 1]) + (if c.from == id then {c.to} else {}) + (if c.to == id then {c.from} else {})
  }

  /** The set of IDs drawn bright: nothing without a selection; otherwise the selected ID and
      every ID joined to it by a connection in either direction. */
  function ConnectedIds(selected: Option<string>, cs: seq<Connection>): set<string> {
    match selected
    case None => {}
    case Some(id) => {id} + Neighbours(id, cs)
  }

  /** An arrow drawn at full opacity while a subject is selected joins two subjects that are both
      drawn bright: the arrows and the nodes highlight the same neighbourhood. */
  lemma OpacityWithinHighlight(c: Connection, selected: Option<string>, cs: seq<Connection>)
    requires c in cs
    requires selected.Some? && Opacity(c, selected) == 0.8
    ensures c.from in ConnectedIds(selected, cs) && c.to in ConnectedIds(selected, cs)
  {
    var i :| 0 <= i < |cs| && cs[i] == c;
    ConnectedIdsSpec(selected, cs, c.from);
    ConnectedIdsSpec(selected, cs, c.to);
  }

  /** `x` is the selected node or joined to it by some connection. */
  predicate Linked(id: string, cs: seq<Connection>, x: string) {
    x == id || exists i :: 0 <= i < |cs| && ((cs[i].from == id && cs[i].to == x) || (cs[i].to == id && cs[i].from == x))
  }

  lemma {:induction false} NeighboursSpec(id: string, cs: seq<Connection>, x: string)
    ensures x in Neighbours(id, cs) <==>
      exists i :: 0 <= i < |cs| && ((cs[i].from == id && cs[i].to == x) || (cs[i].to == id && cs[i].from == x))
  {
    if cs != [] {
      var init := cs[..|cs| - 1];
      NeighboursSpec(id, init, x);
      if exists i :: 0 <= i < |cs| && ((cs[i].from == id && cs[i].to == x) || (cs[i].to == id && cs[i].from == x)) {
        var i :| 0 <= i < |cs| && ((cs[i].from == id && cs[i].to == x) || (cs[i].to == id && cs[i].from == x));
        if i < |init| {
          assert init[i] == cs[i];
        }
      }
      if exists i :: 0 <= i < |init| && ((init[i].from == id && init[i].to == x) || (init[i].to == id && init[i].from == x)) {
        var i :| 0 <= i < |init| && ((init[i].from == id && init[i].to == x) || (init[i].to == id && init[i].from == x));
        assert cs[i] == init[i];
      }
    }
  }

  /** Without a selection the set is empty; with one, it holds exactly the selected ID and the
      IDs at the other end of its incoming and outgoing connections. */
  lemma ConnectedIdsSpec(selected: Option<string>, cs: seq<Connection>, x: string)
    ensures selected.None? ==> ConnectedIds(selected, cs) == {}
    ensures selected.Some? ==> (x in ConnectedIds(selected, cs) <==> Linked(selected.value, cs, x))
  {
    if selected.Some? {
      NeighboursSpec(selected.value, cs, x);
    }
  }

  /** Being joined is symmetric: if selecting `a` lights `b`, selecting `b` lights `a`. */
  lemma ConnectedSymmetric(cs: seq<Connection>, a: string, b: string)
    requires b in ConnectedIds(Some(a), cs)
    ensures a in ConnectedIds(Some(b), cs)
  {
    ConnectedIdsSpec(Some(a), cs, b);
    ConnectedIdsSpec(Some(b), cs, a);
    if a != b {
      var i :| 0 <= i < |cs| && ((cs[i].from == a && cs[i].to == b) || (cs[i].to == a && cs[i].from == b));
    }
  }

  /** Fewer connections light no more nodes. */
  lemma ConnectedMonotone(selected: Option<string>, cs: seq<Connection>, ds: seq<Connection>)
    requires forall c :: c in cs ==> c in ds
    ensures ConnectedIds(selected, cs) <= ConnectedIds(selected, ds)
  {
    if selected.Some? {
      var id := selected.value;
      forall x | x in ConnectedIds(selected, cs) ensures x in ConnectedIds(selected, ds) {
        ConnectedIdsSpec(selected, cs, x);
        ConnectedIdsSpec(selected, ds, x);
        if x != id {
          var i :| 0 <= i < |cs| && ((cs[i].from == id && cs[i].to == x) || (cs[i].to == id && cs[i].from == x));
          assert cs[i] in ds;
          var j :| 0 <= j < |ds| && ds[j] == cs[i];
        }
      }
    }
  }

  /** The `forEach` over the connections, adding both ends of each one that touches the
      selection. */
  method CollectConnectedIds(selected: Option<string>, cs: seq<Connection>) returns (ids: set<string>)
    ensures ids == ConnectedIds(selected, cs)
  {
    ids := {};
    if selected.Some? {
      var id := selected.value;
      ids := ids + {id};
      for i := 0 to |cs|
        invariant ids == {id} + Neighbours(id, cs[..i])
      {
        var conn := cs[i];
        assert cs[..i + 1][..i] == cs[..i];
        assert cs[..i + 1][i] == conn;
        if conn.from == id {
          ids := ids + {conn.to};
        }
        if conn.to == id {
          ids := ids + {conn.from};
        }
      }
      assert cs[..|cs|] == cs;
    }
  }

  /** A node is dimmed when something is selected and its ID is not lit. */
  predicate Dimmed(selected: Option<string>, cs: seq<Connection>, n: Node) {
    selected.Some? && n.ID() !in ConnectedIds(selected, cs)
  }

  /** Nothing is dimmed without a selection, and the selected node itself is never dimmed. */
  lemma DimmedSpec(selected: Option<string>, cs: seq<Connection>, n: Node)
    ensures selected.None? ==> !Dimmed(selected, cs, n)
    ensures selected == Some(n.ID()) ==> !Dimmed(selected, cs, n)
  {
  }

  /** Lighting only along reduced arrows lights no more than along all arrows: the newer view
      dims at least the nodes the unreduced list would dim. */
  lemma ReducedLightsLess(selected: Option<string>, core: seq<Node>)
    ensures ConnectedIds(selected, Reduced(Unique(GraphEdges.Connections(core)))) <= ConnectedIds(selected, GraphEdges.Connections(core))
  {
    ReducedConnectionsSpec(core);
    SubseqMembers(Reduced(Unique(GraphEdges.Connections(core))), GraphEdges.Connections(core));
    ConnectedMonotone(selected, Reduced(Unique(GraphEdges.Connections(core))), GraphEdges.Connections(core));
  }

  /** In the triangle A→B, B→C, A→C, selecting A lights A, B and C along all arrows but only A and
      B along the reduced ones: the implied arrow A→C is not drawn and does not light C. */
  lemma TriangleSelection(s: Status)
    ensures ConnectedIds(Some("A"), Triangle(s)) == {"A", "B", "C"}
    ensures ConnectedIds(Some("A"), Reduced(Unique(Triangle(s)))) == {"A", "B"}
  {
    var t := Triangle(s);
    assert DistinctKeys(t) by {
      assert Key(t[0]) == "A-B" && Key(t[1]) == "B-C" && Key(t[2]) == "A-C";
    }
    UniqueOfDistinct(t);
    TriangleReduction(s);
    var r := t[..2];
    assert Neighbours("A", t[..1]) == {"B"};
    assert Neighbours("A", t[..2]) == {"B"} by {
      assert t[..2][..1] == t[..1];
    }
    assert Neighbours("A", t) == {"B", "C"} by {
      assert t[..|t| - 1] == t[..2];
    }
  }

  // ---------------------------------------------------------------------------------------------
  // Double click (lines 227-229)

  /** The status a double click asks for: APROBADA turns DISPONIBLE, anything else APROBADA. */
  function DoubleClickStatus(s: Status): (r: Status)
    ensures r == Aprobada || r == Disponible
  {
    if s == Aprobada then Disponible else Aprobada
  }

  /** Two double clicks give the status back exactly when it was APROBADA or DISPONIBLE; from any
      other status they end at DISPONIBLE. */
  lemma DoubleClickTwice(s: Status)
    ensures DoubleClickStatus(DoubleClickStatus(s)) == s <==> (s == Aprobada || s == Disponible)
    ensures s != Aprobada ==> DoubleClickStatus(DoubleClickStatus(s)) == Disponible
  {
  }

  // ---------------------------------------------------------------------------------------------
  // Column headers (lines 245-255, 304-343)

  /** A shown node with a semester and a numeric year contributes the key `${Year}-${Semester}`;
      one with a text year gives a `TextKey` instead. */
  predicate HasSemesterKey(n: Node) {
    n.Semester().Some? && n.Year().Num?
  }

  function SemesterKey(n: Node): GroupKey
    requires HasSemesterKey(n)
  {
    GroupKey(n.Year().n, n.Semester().value)
  }

  /** The keys of the shown nodes, in node order, repeats included. */
  function SemesterKeysOf(nodes: seq<Node>): seq<GroupKey> {
    if nodes == [] then []
    else
      var n := nodes[|nodes| - 1];
      SemesterKeysOf(nodes[..|nodes| - 1]) + (if HasSemesterKey(n) then [SemesterKey(n)] else [])
  }

  /** `Array.from(new Set(keys)).sort(...)` on the numeric keys: the distinct keys by year, then
      semester. */
  function Semesters(core: seq<Node>): seq<GroupKey> {
    SortKeys(SemesterKeysOf(core))
  }

  lemma {:induction false} SemesterKeysMembers(nodes: seq<Node>, k: GroupKey)
    ensures k in SemesterKeysOf(nodes) <==> exists n :: n in nodes && HasSemesterKey(n) && SemesterKey(n) == k
  {
    if nodes != [] {
      var init := nodes[..|nodes| - 1];
      assert nodes == init + [nodes[|nodes| - 1]];
      SemesterKeysMembers(init, k);
    }
  }

  /** The headers' keys are strictly increasing — so each appears once — and are exactly the keys
      of the shown nodes that have a semester. */
  lemma SemestersSpec(core: seq<Node>, k: GroupKey)
    ensures KeysSorted(Semesters(core))
    ensures k in Semesters(core) <==> exists n :: n in core && HasSemesterKey(n) && SemesterKey(n) == k
  {
    SemesterKeysMembers(core, k);
  }

  /** A shown node with a semester and a text year (an elective's "Electives") also gives a key,
      `Electives-1`. `split('-').map(Number)` reads its year as NaN: the comparator returns NaN
      for it, its header is never skipped as year 0, is labelled `ordinals[NaN]` and stands at a
      NaN `left`, and it is one more entry of the array the electives header counts. */
  datatype TextKey = TextKey(year: string, semester: nat)

  predicate HasTextKey(n: Node) {
    n.Semester().Some? && n.Year().Text?
  }

  function TextKeysOf(nodes: seq<Node>): set<TextKey> {
    set n | n in nodes && HasTextKey(n) :: TextKey(n.Year().t, n.Semester().value)
  }

  /** Every shown node with a semester gives exactly one of the two kinds of key. */
  lemma KeyKinds(nodes: seq<Node>, n: Node)
    requires n in nodes && n.Semester().Some?
    ensures HasSemesterKey(n) <==> !HasTextKey(n)
    ensures HasSemesterKey(n) ==> SemesterKey(n) in Semesters(nodes)
    ensures HasTextKey(n) ==> TextKey(n.Year().t, n.Semester().value) in TextKeysOf(nodes)
  {
    if HasSemesterKey(n) {
      SemestersSpec(nodes, SemesterKey(n));
    }
  }

  const Ordinals: seq<string> := ["", "1er", "2do", "3er", "4to", "5to", "6to", "7mo", "8vo", "9no", "10mo"]

  /** `${ordinals[(year - 1) * 2 + sem]} Cuatrimestre`, where an index outside the list reads as
      `undefined`. */
  function CuatriLabel(k: GroupKey): string {
    var idx := (k.year - 1) * 2 + k.semester;
    (if 0 <= idx < |Ordinals| then Ordinals[idx] else "undefined") + " Cuatrimestre"
  }

  datatype Header = Header(title: string, x: int)

  function HeaderOf(k: GroupKey): Header {
    Header(CuatriLabel(k), StartX + ColumnIndex(k) * ColumnWidth)
  }

  /** One header per key, in key order, year 0 skipped. */
  function Headers(semesters: seq<GroupKey>): (r: seq<Header>)
    ensures |r| <= |semesters|
  {
    if semesters == [] then []
    else
      var k := semesters[|semesters| - 1];
      Headers(semesters[..|semesters| - 1]) + (if k.year == 0 then [] else [HeaderOf(k)])
  }

  /** The `i`th header is the one of a key of year other than 0, at position at least `i`. */
  lemma {:induction false} HeadersFrom(semesters: seq<GroupKey>, i: nat)
    requires i < |Headers(semesters)|
    ensures exists j :: i <= j < |semesters| && semesters[j].year != 0 && Headers(semesters)[i] == HeaderOf(semesters[j])
  {
    var init := semesters[..|semesters| - 1];
    var k := semesters[|semesters| - 1];
    if i < |Headers(init)| {
      HeadersFrom(init, i);
      var j :| i <= j < |init| && init[j].year != 0 && Headers(init)[i] == HeaderOf(init[j]);
      assert semesters[j] == init[j];
    } else {
      assert k.year != 0 && Headers(semesters) == Headers(init) + [HeaderOf(k)];
      assert Headers(semesters)[i] == HeaderOf(semesters[|semesters| - 1]);
    }
  }

  lemma {:induction false} HeadersMembers(semesters: seq<GroupKey>, k: GroupKey)
    requires k in semesters && k.year != 0
    ensures HeaderOf(k) in Headers(semesters)
  {
    var init := semesters[..|semesters| - 1];
    if k != semesters[|semesters| - 1] {
      assert semesters == init + [semesters[|semesters| - 1]];
      HeadersMembers(init, k);
    }
  }

  /** Each header's label is this: within the first five years, first semesters take the odd
      ordinals and second semesters the even ones; from the sixth year on the label reads
      "undefined Cuatrimestre". */
  lemma CuatriLabelSpec(k: GroupKey)
    ensures 1 <= k.year <= 5 && 1 <= k.semester <= 2 ==>
      CuatriLabel(k) == Ordinals[2 * k.year - 2 + k.semester] + " Cuatrimestre"
    ensures k.year >= 6 && k.semester >= 1 ==> CuatriLabel(k) == "undefined Cuatrimestre"
  {
  }

  lemma OrdinalsDistinct(i: nat, j: nat)
    requires i < j < |Ordinals|
    ensures Ordinals[i] != Ordinals[j]
  {
    if |Ordinals[i]| == |Ordinals[j]| {
      assert Ordinals[i][0] != Ordinals[j][0];
    }
  }

  lemma SuffixCancel(x: string, y: string, suffix: string)
    ensures x + suffix == y + suffix ==> x == y
  {
    if x + suffix == y + suffix {
      assert x == (x + suffix)[..|x|];
      assert y == (y + suffix)[..|y|];
    }
  }

  /** The first ten semesters carry ten different labels. */
  lemma LabelsDistinct(a: GroupKey, b: GroupKey)
    requires 1 <= a.year <= 5 && 1 <= a.semester <= 2
    requires 1 <= b.year <= 5 && 1 <= b.semester <= 2
    requires a != b
    ensures CuatriLabel(a) != CuatriLabel(b)
  {
    var i := 2 * a.year - 2 + a.semester;
    var j := 2 * b.year - 2 + b.semester;
    if i < j {
      OrdinalsDistinct(i, j);
    } else {
      OrdinalsDistinct(j, i);
    }
    SuffixCancel(Ordinals[i], Ordinals[j], " Cuatrimestre");
  }

  /** With semesters 1 and 2, the headers run strictly left to right. */
  lemma HeadersLeftToRight(semesters: seq<GroupKey>, i: nat, j: nat)
    requires KeysSorted(semesters)
    requires forall k :: k in semesters ==> 1 <= k.semester <= 2
    requires i < j < |Headers(semesters)|
    ensures Headers(semesters)[i].x < Headers(semesters)[j].x
  {
    HeadersOrder(semesters, i, j);
  }

  lemma {:induction false} HeadersOrder(semesters: seq<GroupKey>, i: nat, j: nat)
    requires KeysSorted(semesters)
    requires forall k :: k in semesters ==> 1 <= k.semester <= 2
    requires i < j < |Headers(semesters)|
    ensures Headers(semesters)[i].x < Headers(semesters)[j].x
  {
    var init := semesters[..|semesters| - 1];
    var k := semesters[|semesters| - 1];
    assert KeysSorted(init);
    if j < |Headers(init)| {
      HeadersOrder(init, i, j);
    } else {
      HeadersFrom(init, i);
      var p :| i <= p < |init| && init[p].year != 0 && Headers(init)[i] == HeaderOf(init[p]);
      assert KeyLess(semesters[p], k);
      assert init[p] in semesters;
    }
  }

  lemma HeaderForNode(core: seq<Node>, n: Node)
    requires n in core && IsCore(n.subject)
    ensures HeaderOf(KeyOf(n.subject)) in Headers(Semesters(core))
  {
    var k := SemesterKey(n);
    assert k == KeyOf(n.subject);
    SemestersSpec(core, k);
    HeadersMembers(Semesters(core), k);
  }

  lemma RegularShown(subjects: seq<Subject>, j: nat, showIngress: bool, showElectives: bool)
    requires j < |Layout(subjects)|
    requires IsCore(Layout(subjects)[j].subject)
    ensures Layout(subjects)[j] in CoreNodes(Layout(subjects), showIngress, showElectives)
  {
    var nodes := Layout(subjects);
    LayoutProperties.LayoutNodes(subjects, j);
    assert Visible(nodes[j], showIngress, showElectives);
    CoreNodesSpec(nodes, showIngress, showElectives);
    assert nodes[j] in nodes;
  }

  lemma RegularColumn(subjects: seq<Subject>, j: nat)
    requires j < |Layout(subjects)|
    requires IsCore(Layout(subjects)[j].subject)
    ensures Layout(subjects)[j].x == StartX + ColumnIndex(KeyOf(Layout(subjects)[j].subject)) * ColumnWidth
  {
    LayoutPositions.LayoutPositions(subjects, j);
  }

  /** Every regular node of the layout that is shown has a header over it, in its own column and
      labelled with its own year and semester. */
  lemma HeaderOverRegular(subjects: seq<Subject>, j: nat, showIngress: bool, showElectives: bool)
    requires j < |Layout(subjects)|
    requires IsCore(Layout(subjects)[j].subject)
    ensures var n := Layout(subjects)[j];
      var h := HeaderOf(KeyOf(n.subject));
      h in Headers(Semesters(CoreNodes(Layout(subjects), showIngress, showElectives))) &&
      h.x == n.x && h.title == CuatriLabel(KeyOf(n.subject))
  {
    RegularShown(subjects, j, showIngress, showElectives);
    RegularColumn(subjects, j);
    HeaderForNode(CoreNodes(Layout(subjects), showIngress, showElectives), Layout(subjects)[j]);
  }

  /** The electives header (line 332) is placed one column after as many columns as there are
      entries in the semester array, numeric and text keys alike; it stands over the electives'
      first column, `2 maxYear + 1`, exactly when there are twice as many entries as regular
      years. */
  function ElectivesHeaderX(core: seq<Node>): int {
    StartX + (|Semesters(core)| + |TextKeysOf(core)| + 1) * ColumnWidth
  }

  lemma ElectivesHeaderOverElectives(core: seq<Node>, maxYear: int)
    ensures ElectivesHeaderX(core) == StartX + (2 * maxYear + 1) * ColumnWidth <==>
      |Semesters(core)| + |TextKeysOf(core)| == 2 * maxYear
  {
  }

  /** A shown elective with a semester pushes the electives header at least one column to the right
      of the column after the numeric keys. */
  lemma TextKeyShiftsElectivesHeader(core: seq<Node>, n: Node)
    requires n in core && HasTextKey(n)
    ensures ElectivesHeaderX(core) >= StartX + (|Semesters(core)| + 2) * ColumnWidth
  {
    assert TextKey(n.Year().t, n.Semester().value) in TextKeysOf(core);
  }
}
