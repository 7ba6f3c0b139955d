/** The availability rule of lib/curriculum-parser.ts: a prerequisite is met when its subject is
    not in the plan, when the condition is "Aprobada" and the subject is approved, or when the
    condition is "Regularizada" and the subject is being taken, awaiting its final, or approved. */
module StatusEngine {
  import opened Wrappers
  import opened Types

  /** Whether a prerequisite subject with status `s` meets the condition text `condition`. Only a
      committed status other than DESAPROBADA meets anything, only the two known condition texts
      can be met, and APROBADA meets both. */
  predicate Meets(s: Status, condition: string)
    ensures Meets(s, condition) ==> Committed(s) && s != Desaprobada
    ensures Meets(s, condition) ==> condition == "Aprobada" || condition == "Regularizada"
    ensures s == Aprobada && (condition == "Aprobada" || condition == "Regularizada") ==> Meets(s, condition)
  {
    if condition == "Aprobada" then s == Aprobada
    else if condition == "Regularizada" then s == Cursando || s == EnFinal || s == Aprobada
    else false
  }

  /** One prerequisite checked against the first node carrying its ID; an ID that is not in the
      plan counts as met. */
  predicate Satisfied(nodes: seq<Node>, p: Prereq) {
    match Find(nodes, p.id)
    case None => true
    case Some(n) => Meets(n.status, p.condition)
  }

  /** `k` is the index of the first node with ID `id`. */
  predicate FirstWithId(nodes: seq<Node>, k: int, id: string) {
    0 <= k < |nodes| && nodes[k].ID() == id && forall j :: 0 <= j < k ==> nodes[j].ID() != id
  }

  /** `subject.prerequisites.every(...)`. */
  predicate CanTake(node: Node, nodes: seq<Node>) {
    forall i :: 0 <= i < |node.prerequisites| ==> Satisfied(nodes, node.prerequisites[i])
  }

  /** `calculateAvailableStatus`: DISPONIBLE or NO_DISPONIBLE, whatever the node's status was. */
  function CalculateAvailableStatus(node: Node, nodes: seq<Node>): (s: Status)
    ensures s == Disponible || s == NoDisponible
    ensures s == Disponible <==>
      forall i, k :: 0 <= i < |node.prerequisites| && FirstWithId(nodes, k, node.prerequisites[i].id) ==>
        Meets(nodes[k].status, node.prerequisites[i].condition)
  {
    FirstDecides(node, nodes);
    if CanTake(node, nodes) then Disponible else NoDisponible
  }

  /** `calculateSubjectStatus`: the four committed statuses stay; anything else is derived. */
  function CalculateSubjectStatus(node: Node, nodes: seq<Node>): (s: Status)
    ensures Committed(node.status) ==> s == node.status
    ensures !Committed(node.status) ==> (s == Disponible <==> CanTake(node, nodes))
    ensures !Committed(node.status) ==> (s == NoDisponible <==> !CanTake(node, nodes))
  {
    if Committed(node.status) then node.status else CalculateAvailableStatus(node, nodes)
  }

  /** `CanTake` in terms of the first node with each prerequisite's ID. */
  lemma FirstDecides(node: Node, nodes: seq<Node>)
    ensures CanTake(node, nodes) <==>
      forall i, k :: 0 <= i < |node.prerequisites| && FirstWithId(nodes, k, node.prerequisites[i].id) ==>
        Meets(nodes[k].status, node.prerequisites[i].condition)
  {
    forall i | 0 <= i < |node.prerequisites|
      ensures Satisfied(nodes, node.prerequisites[i]) <==>
        forall k :: FirstWithId(nodes, k, node.prerequisites[i].id) ==>
          Meets(nodes[k].status, node.prerequisites[i].condition)
    {
      var id := node.prerequisites[i].id;
      FindIndexFirst(nodes, id);
      match FindIndex(nodes, id)
      case None =>
      case Some(m) =>
        forall k | FirstWithId(nodes, k, id)
          ensures k == m
        {
        }
    }
  }

  /** Derived statuses, and any raw text that is not one of the four committed ones, meet no
      condition: only CURSANDO, EN_FINAL and APROBADA ever satisfy a prerequisite. */
  lemma UncommittedMeetsNothing(s: Status, condition: string)
    requires !Committed(s)
    ensures !Meets(s, condition)
  {
  }

  /** A prerequisite whose subject is in the plan and whose condition is neither "Aprobada" nor
      "Regularizada" is never met, so the subject is NO_DISPONIBLE. */
  lemma UnknownConditionBlocks(node: Node, nodes: seq<Node>, i: nat)
    requires i < |node.prerequisites|
    requires HasID(nodes, node.prerequisites[i].id)
    requires node.prerequisites[i].condition != "Aprobada"
    requires node.prerequisites[i].condition != "Regularizada"
    ensures CalculateAvailableStatus(node, nodes) == NoDisponible
  {
    FindFound(nodes, node.prerequisites[i].id);
    assert !Satisfied(nodes, node.prerequisites[i]);
  }

  /** A subject without prerequisites is available. */
  lemma NoPrerequisitesAvailable(node: Node, nodes: seq<Node>)
    requires node.prerequisites == []
    ensures CalculateAvailableStatus(node, nodes) == Disponible
  {
  }

  /** Prerequisites whose IDs are all absent from the plan (such as "1", "2") are all met. */
  lemma UnknownIdsAreMet(node: Node, nodes: seq<Node>)
    requires forall i :: 0 <= i < |node.prerequisites| ==> !HasID(nodes, node.prerequisites[i].id)
    ensures CalculateAvailableStatus(node, nodes) == Disponible
  {
    forall i | 0 <= i < |node.prerequisites|
      ensures Satisfied(nodes, node.prerequisites[i])
    {
      FindFound(nodes, node.prerequisites[i].id);
    }
  }

  /** `b` meets every condition that `a` meets. */
  predicate AtLeast(b: Status, a: Status) {
    (a == Aprobada ==> b == Aprobada) &&
    ((a == Cursando || a == EnFinal || a == Aprobada) ==> (b == Cursando || b == EnFinal || b == Aprobada))
  }

  lemma AtLeastMeets(b: Status, a: Status, condition: string)
    requires AtLeast(b, a) && Meets(a, condition)
    ensures Meets(b, condition)
  {
  }

  /** Two node lists with the same IDs in the same places. */
  predicate SameIds(a: seq<Node>, b: seq<Node>) {
    |a| == |b| && forall k :: 0 <= k < |a| ==> a[k].ID() == b[k].ID()
  }

  /** `b`'s statuses are pointwise at least `a`'s. */
  predicate Raised(b: seq<Node>, a: seq<Node>) {
    SameIds(a, b) && forall k :: 0 <= k < |a| ==> AtLeast(b[k].status, a[k].status)
  }

  /** Lookup by ID only looks at IDs. */
  lemma {:induction false} FindIndexSameIds(a: seq<Node>, b: seq<Node>, id: string)
    requires SameIds(a, b)
    ensures FindIndex(a, id) == FindIndex(b, id)
    decreases |a|
  {
    if a != [] && a[0].ID() != id {
      assert SameIds(a[1..], b[1..]) by {
        forall k | 0 <= k < |a[1..]| ensures a[1..][k].ID() == b[1..][k].ID() {
          assert a[1..][k] == a[k + 1] && b[1..][k] == b[k + 1];
        }
      }
      FindIndexSameIds(a[1..], b[1..], id);
    }
  }

  /** Raising the status of some subjects (approving one, say) never makes another subject's
      prerequisites unmet. */
  lemma AvailabilityMonotone(node: Node, a: seq<Node>, b: seq<Node>)
    requires Raised(b, a)
    requires CanTake(node, a)
    ensures CanTake(node, b)
  {
    forall i | 0 <= i < |node.prerequisites|
      ensures Satisfied(b, node.prerequisites[i])
    {
      var p := node.prerequisites[i];
      assert Satisfied(a, p);
      FindIndexSameIds(a, b, p.id);
      match FindIndex(a, p.id)
      case None =>
      case Some(k) =>
        AtLeastMeets(b[k].status, a[k].status, p.condition);
    }
  }

  /** Lists that agree on IDs and meet the same conditions everywhere give every subject the same
      availability. */
  lemma SameStandingSameStatus(node: Node, a: seq<Node>, b: seq<Node>)
    requires Raised(b, a) && Raised(a, b)
    ensures CalculateAvailableStatus(node, a) == CalculateAvailableStatus(node, b)
  {
    if CanTake(node, a) {
      AvailabilityMonotone(node, a, b);
    }
    if CanTake(node, b) {
      AvailabilityMonotone(node, b, a);
    }
  }
}
