/** The edit handlers and progress counters of app/page.tsx: a status edit sets the chosen
    node's status and recomputes every other node once against the edited list; grade edits and
    drags touch one field of the matching nodes; the bottom bar counts approved subjects and
    averages the approved grades. */
module Page {
  import opened Wrappers
  import opened Types
  import opened StatusEngine
  import opened CurriculumLayout
  import LayoutProperties

  // ---------------------------------------------------------------------------------------------
  // Status edits (lines 58-71)

  /** The first `map`: every node with the ID gets the requested status. */
  function SetStatus(nodes: seq<Node>, id: string, status: Status): (r: seq<Node>)
    ensures |r| == |nodes|
  {
    seq(|nodes|, i requires 0 <= i < |nodes| => if nodes[i].ID() == id then nodes[i].(status := status) else nodes[i])
  }

  /** The second `map`: the edited nodes are kept, every other node gets `calculateSubjectStatus`
      against the list it is given. */
  function Repass(updated: seq<Node>, id: string): (r: seq<Node>)
    ensures |r| == |updated|
  {
    seq(|updated|, i requires 0 <= i < |updated| =>
      if updated[i].ID() == id then updated[i]
      else updated[i].(status := CalculateSubjectStatus(updated[i], updated)))
  }

  /** What `handleStatusChange(id, status)` stores. */
  function StatusChange(nodes: seq<Node>, id: string, status: Status): seq<Node> {
    Repass(SetStatus(nodes, id, status), id)
  }

  /** A status edit keeps the list's length, order and every field but `status`; the edited nodes
      take the requested status whatever their prerequisites say; every other node keeps a
      committed status and otherwise becomes DISPONIBLE exactly when its prerequisites are met in
      the list holding the edit and everyone else's old status. */
  lemma StatusChangeSpec(nodes: seq<Node>, id: string, status: Status, i: nat)
    requires i < |nodes|
    ensures var r := StatusChange(nodes, id, status);
      |r| == |nodes| && r[i] == nodes[i].(status := r[i].status) &&
      (nodes[i].ID() == id ==> r[i].status == status) &&
      (nodes[i].ID() != id && Committed(nodes[i].status) ==> r[i].status == nodes[i].status) &&
      (nodes[i].ID() != id && !Committed(nodes[i].status) ==>
        (r[i].status == Disponible <==> CanTake(nodes[i], SetStatus(nodes, id, status))) &&
        (r[i].status == Disponible || r[i].status == NoDisponible))
  {
  }

  /** The pass turns uncommitted statuses into uncommitted ones and leaves the rest. */
  lemma RepassStanding(u: seq<Node>, id: string)
    ensures SameStanding(u, Repass(u, id))
  {
  }

  /** One pass is already a fixed point: running it again changes nothing, because the statuses
      it derives never meet a condition. */
  lemma RepassIdempotent(u: seq<Node>, id: string)
    ensures Repass(Repass(u, id), id) == Repass(u, id)
  {
    var r := Repass(u, id);
    RepassStanding(u, id);
    SameStandingRaised(u, r);
    forall i | 0 <= i < |r| && r[i].ID() != id
      ensures CalculateSubjectStatus(r[i], r) == r[i].status
    {
      if !Committed(u[i].status) {
        assert CalculateAvailableStatus(r[i], r) == CalculateAvailableStatus(u[i], r);
        SameStandingSameStatus(u[i], u, r);
      }
    }
  }

  /** Repeating the same edit changes nothing. */
  lemma StatusChangeIdempotent(nodes: seq<Node>, id: string, status: Status)
    ensures StatusChange(StatusChange(nodes, id, status), id, status) == StatusChange(nodes, id, status)
  {
    var r := StatusChange(nodes, id, status);
    assert SetStatus(r, id, status) == r;
    RepassIdempotent(SetStatus(nodes, id, status), id);
  }

  /** The separately held selected node (lines 67-69): its status follows an edit of its own ID
      only. */
  function SelectedAfterStatus(selected: Option<Node>, id: string, status: Status): Option<Node> {
    if selected.Some? && selected.value.ID() == id then Some(selected.value.(status := status)) else selected
  }

  /** The selected copy of node `i` can only lag behind the list in a derived status: it agrees
      with the list on everything else, and where the status differs both are uncommitted. */
  lemma SelectedCopyCurrent(nodes: seq<Node>, id: string, status: Status, i: nat)
    requires i < |nodes|
    ensures var s := SelectedAfterStatus(Some(nodes[i]), id, status).value;
      var n := StatusChange(nodes, id, status)[i];
      s == n.(status := s.status) && (s.status == n.status || (!Committed(s.status) && !Committed(n.status)))
  {
    StatusChangeSpec(nodes, id, status, i);
  }

  // ---------------------------------------------------------------------------------------------
  // Grade edits and drags (lines 43-48, 73-75)

  function GradeChange(nodes: seq<Node>, id: string, grade: real): (r: seq<Node>)
    ensures |r| == |nodes|
  {
    seq(|nodes|, i requires 0 <= i < |nodes| => if nodes[i].ID() == id then nodes[i].(grade := Some(grade)) else nodes[i])
  }

  function Drag(nodes: seq<Node>, id: string, x: int, y: int): (r: seq<Node>)
    ensures |r| == |nodes|
  {
    seq(|nodes|, i requires 0 <= i < |nodes| => if nodes[i].ID() == id then nodes[i].(x := x, y := y) else nodes[i])
  }

  /** The later of two grade edits of a node wins, and so does the later of two drags. */
  lemma LastEditWins(nodes: seq<Node>, id: string, g1: real, g2: real, x1: int, y1: int, x2: int, y2: int)
    ensures GradeChange(GradeChange(nodes, id, g1), id, g2) == GradeChange(nodes, id, g2)
    ensures Drag(Drag(nodes, id, x1, y1), id, x2, y2) == Drag(nodes, id, x2, y2)
  {
  }

  /** A grade edit or a drag never changes what any subject may take: availability only reads
      IDs and statuses. */
  lemma EditsKeepAvailability(nodes: seq<Node>, node: Node, id: string, g: real, x: int, y: int)
    ensures CalculateSubjectStatus(node, GradeChange(nodes, id, g)) == CalculateSubjectStatus(node, nodes)
    ensures CalculateSubjectStatus(node, Drag(nodes, id, x, y)) == CalculateSubjectStatus(node, nodes)
  {
    var a := GradeChange(nodes, id, g);
    var b := Drag(nodes, id, x, y);
    assert SameStanding(nodes, a);
    assert SameStanding(nodes, b);
    SameStandingRaised(nodes, a);
    SameStandingRaised(nodes, b);
    SameStandingSameStatus(node, nodes, a);
    SameStandingSameStatus(node, nodes, b);
  }

  /** The selected copy's grade follows a grade edit of its own ID (lines 45-47). */
  function SelectedAfterGrade(selected: Option<Node>, id: string, grade: real): Option<Node> {
    if selected.Some? && selected.value.ID() == id then Some(selected.value.(grade := Some(grade))) else selected
  }

  lemma SelectedCopyGraded(nodes: seq<Node>, id: string, grade: real, i: nat)
    requires i < |nodes|
    ensures SelectedAfterGrade(Some(nodes[i]), id, grade) == Some(GradeChange(nodes, id, grade)[i])
  {
  }

  // ---------------------------------------------------------------------------------------------
  // Progress counters (lines 117-136)

  predicate IsIngressNode(n: Node) { n.Year() == Num(0) }
  predicate IsPlanNode(n: Node) { n.Year().Num? && n.Year().n > 0 && !n.isElective }
  predicate IsElectiveNode(n: Node) { n.isElective }
  predicate IsApproved(n: Node) { n.status == Aprobada }

  /** `nodes.filter(f)`. */
  function Select(nodes: seq<Node>, f: Node -> bool): (r: seq<Node>)
    ensures |r| <= |nodes|
  {
    if nodes == [] then []
    else Select(nodes[..|nodes| - 1], f) + (if f(nodes[|nodes| - 1]) then [nodes[|nodes| - 1]] else [])
  }

  lemma {:induction false} SelectMembers(nodes: seq<Node>, f: Node -> bool)
    ensures forall n :: n in Select(nodes, f) <==> n in nodes && f(n)
  {
    if nodes != [] {
      SelectMembers(nodes[..|nodes| - 1], f);
      assert nodes == nodes[..|nodes| - 1] + [nodes[|nodes| - 1]];
    }
  }

  /** Hours per elective subject, and the hours an elective track needs. */
  const HoursPerElective: nat := 32
  const ElectiveHoursNeeded: nat := 384

  datatype Progress = Progress(
    ingressApproved: nat, ingressTotal: nat,
    planApproved: nat, planTotal: nat,
    electiveApproved: nat, electiveHours: nat, electivesNeeded: nat,
    approvedCount: nat)

  function ProgressOf(nodes: seq<Node>): Progress {
    var ingress := Select(nodes, IsIngressNode);
    var plan := Select(nodes, IsPlanNode);
    var electives := Select(nodes, IsElectiveNode);
    var ia := |Select(ingress, IsApproved)|;
    var pa := |Select(plan, IsApproved)|;
    var ea := |Select(electives, IsApproved)|;
    Progress(ia, |ingress|, pa, |plan|, ea, ea * HoursPerElective, ElectiveHoursNeeded / HoursPerElective, pa + ia)
  }

  /** Each approved count is at most its total; elective hours are 32 per approved elective; the
      electives needed are 12; the approved count adds the ingress and plan counts. */
  lemma ProgressSpec(nodes: seq<Node>)
    ensures var p := ProgressOf(nodes);
      p.ingressApproved <= p.ingressTotal && p.planApproved <= p.planTotal &&
      p.electiveApproved <= |Select(nodes, IsElectiveNode)| &&
      p.electiveHours == 32 * p.electiveApproved && p.electivesNeeded == 12 &&
      p.approvedCount == p.ingressApproved + p.planApproved &&
      p.ingressTotal + p.planTotal + |Select(nodes, IsElectiveNode)| <= 3 * |nodes|
  {
  }

  /** Three predicates that hold for exactly one of `nodes` each split the list's length. */
  lemma {:induction false} SelectPartition(nodes: seq<Node>, f: Node -> bool, g: Node -> bool, h: Node -> bool)
    requires forall i :: 0 <= i < |nodes| ==>
      (if f(nodes[i]) then 1 else 0) + (if g(nodes[i]) then 1 else 0) + (if h(nodes[i]) then 1 else 0) == 1
    ensures |Select(nodes, f)| + |Select(nodes, g)| + |Select(nodes, h)| == |nodes|
  {
    if nodes != [] {
      var init := nodes[..|nodes| - 1];
      assert forall i :: 0 <= i < |init| ==> init[i] == nodes[i];
      SelectPartition(init, f, g, h);
    }
  }

  /** On a fresh layout every node is counted exactly once: ingress, plan and electives add up to
      all the nodes. */
  lemma LayoutCounted(subjects: seq<Subject>)
    ensures var nodes := Layout(subjects);
      |Select(nodes, IsIngressNode)| + |Select(nodes, IsPlanNode)| + |Select(nodes, IsElectiveNode)| == |nodes|
  {
    var nodes := Layout(subjects);
    forall i | 0 <= i < |nodes|
      ensures (if IsIngressNode(nodes[i]) then 1 else 0) + (if IsPlanNode(nodes[i]) then 1 else 0) +
              (if IsElectiveNode(nodes[i]) then 1 else 0) == 1
    {
      LayoutProperties.LayoutNodes(subjects, i);
    }
    SelectPartition(nodes, IsIngressNode, IsPlanNode, IsElectiveNode);
  }

  /** The approved ingress and plan nodes that carry a grade. */
  function Graded(nodes: seq<Node>): seq<Node> {
    Select(Select(nodes, IsIngressNode) + Select(nodes, IsPlanNode), n => IsApproved(n) && n.grade.Some?)
  }

  function GradeSum(xs: seq<Node>): real {
    if xs == [] then 0.0
    else GradeSum(xs[..|xs| - 1]) + (if xs[|xs| - 1].grade.Some? then xs[|xs| - 1].grade.value else 0.0)
  }

  /** `averageGrade`: the mean over the approved graded ingress and plan nodes, or none. */
  function AverageGrade(nodes: seq<Node>): Option<real> {
    var g := Graded(nodes);
    if |g| > 0 then Some(GradeSum(g) / (|g| as real)) else None
  }

  /** `x` added `n` times. */
  function Times(x: real, n: nat): real {
    if n == 0 then 0.0 else Times(x, n - 1) + x
  }

  lemma {:induction false} TimesIsProduct(x: real, n: nat)
    ensures Times(x, n) == x * (n as real)
  {
    if n > 0 {
      TimesIsProduct(x, n - 1);
      assert x * ((n - 1) as real) + x == x * (n as real);
    }
  }

  lemma {:induction false} GradeSumBounds(xs: seq<Node>, lo: real, hi: real)
    requires forall n :: n in xs ==> n.grade.Some? && lo <= n.grade.value <= hi
    ensures Times(lo, |xs|) <= GradeSum(xs) <= Times(hi, |xs|)
  {
    if xs != [] {
      var init := xs[..|xs| - 1];
      assert forall n :: n in init ==> n in xs;
      GradeSumBounds(init, lo, hi);
      assert xs[|xs| - 1] in xs;
    }
  }

  /** A total between `n` times `lo` and `n` times `hi`, shared out `n` ways, lies between `lo`
      and `hi`. */
  lemma MeanBounds(s: real, n: nat, lo: real, hi: real)
    requires n > 0 && Times(lo, n) <= s <= Times(hi, n)
    ensures lo <= s / (n as real) <= hi
  {
    TimesIsProduct(lo, n);
    TimesIsProduct(hi, n);
    var c := n as real;
    assert s / c * c == s;
  }

  lemma GradedMembers(nodes: seq<Node>)
    ensures forall n :: n in Graded(nodes) <==>
      n in nodes && (IsIngressNode(n) || IsPlanNode(n)) && IsApproved(n) && n.grade.Some?
  {
    var ing := Select(nodes, IsIngressNode);
    var plan := Select(nodes, IsPlanNode);
    SelectMembers(nodes, IsIngressNode);
    SelectMembers(nodes, IsPlanNode);
    SelectMembers(ing + plan, n => IsApproved(n) && n.grade.Some?);
  }

  /** There is an average exactly when some approved ingress or plan node has a grade. */
  lemma AverageExists(nodes: seq<Node>)
    ensures AverageGrade(nodes).Some? <==>
      exists n :: n in nodes && (IsIngressNode(n) || IsPlanNode(n)) && IsApproved(n) && n.grade.Some?
  {
    var g := Graded(nodes);
    GradedMembers(nodes);
    if exists n :: n in nodes && (IsIngressNode(n) || IsPlanNode(n)) && IsApproved(n) && n.grade.Some? {
      var n :| n in nodes && (IsIngressNode(n) || IsPlanNode(n)) && IsApproved(n) && n.grade.Some?;
      assert n in g;
    }
    if |g| > 0 {
      assert g[0] in g;
    }
  }

  /** The average lies between the smallest and largest grade any node carries. */
  lemma AverageBounds(nodes: seq<Node>, lo: real, hi: real)
    requires forall n :: n in nodes && n.grade.Some? ==> lo <= n.grade.value <= hi
    ensures AverageGrade(nodes).Some? ==> lo <= AverageGrade(nodes).value <= hi
  {
    var g := Graded(nodes);
    if |g| > 0 {
      GradedMembers(nodes);
      assert forall n :: n in g ==> n.grade.Some? && lo <= n.grade.value <= hi;
      GradeSumBounds(g, lo, hi);
      MeanBounds(GradeSum(g), |g|, lo, hi);
    }
  }
}
