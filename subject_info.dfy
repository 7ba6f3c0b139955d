/** The status controls of the selected-subject panel, components/navigation/subject-info.tsx:
    which of the four status buttons are enabled, and the reason a disabled button shows. */
module SubjectInfo {
  import opened Wrappers
  import opened Types
  import opened Seqs
  import opened Strings
  import opened StatusEngine

  /** The Spanish label of a status (`getStatusText`, lines 47-63); any other text is shown as
      it is. */
  function StatusText(s: Status): (t: string)
    ensures s.Other? ==> t == s.raw
    ensures !s.Other? ==> LabelStatus(t) == Some(s)
  {
    match s
    case Cursando => "Cursando"
    case EnFinal => "En Final"
    case Desaprobada => "Desaprobada"
    case Aprobada => "Aprobada"
    case Disponible => "Disponible"
    case NoDisponible => "No Disponible"
    case Other(raw) => raw
  }

  /** Reads a label back: the partner of `StatusText` on the six named statuses. */
  function LabelStatus(t: string): Option<Status> {
    if t == "Cursando" then Some(Cursando)
    else if t == "En Final" then Some(EnFinal)
    else if t == "Desaprobada" then Some(Desaprobada)
    else if t == "Aprobada" then Some(Aprobada)
    else if t == "Disponible" then Some(Disponible)
    else if t == "No Disponible" then Some(NoDisponible)
    else None
  }

  /** The panel's test of one found prerequisite (lines 77-80): "Aprobada" needs APROBADA, any
      other condition needs EN_FINAL or APROBADA. */
  predicate PanelMeets(s: Status, condition: string) {
    if condition == "Aprobada" then s == Aprobada else s == EnFinal || s == Aprobada
  }

  /** One prerequisite for taking the subject; an ID missing from the plan counts as met. */
  predicate TakeSatisfied(nodes: seq<Node>, p: Prereq) {
    match Find(nodes, p.id)
    case None => true
    case Some(m) => PanelMeets(m.status, p.condition)
  }

  /** One prerequisite for approving the subject: approved whatever its condition, or missing. */
  predicate ApproveSatisfied(nodes: seq<Node>, p: Prereq) {
    match Find(nodes, p.id)
    case None => true
    case Some(m) => m.status == Aprobada
  }

  /** `canTakeSubject` (lines 70-82): false with nothing selected; otherwise every prerequisite
      whose ID is in the plan meets the panel's test, checked against the first node with it. */
  function CanTakeSubject(selected: Option<Node>, nodes: seq<Node>): (r: bool)
    ensures selected.None? ==> !r
    ensures selected.Some? ==> (r <==>
      forall i, k :: (0 <= i < |selected.value.prerequisites| &&
                      FirstWithId(nodes, k, selected.value.prerequisites[i].id)) ==>
        PanelMeets(nodes[k].status, selected.value.prerequisites[i].condition))
  {
    match selected
    case None => false
    case Some(n) =>
      TakeFirstDecides(n, nodes);
      forall i :: 0 <= i < |n.prerequisites| ==> TakeSatisfied(nodes, n.prerequisites[i])
  }

  lemma TakeFirstDecides(n: Node, nodes: seq<Node>)
    ensures (forall i :: 0 <= i < |n.prerequisites| ==> TakeSatisfied(nodes, n.prerequisites[i])) <==>
      forall i, k :: 0 <= i < |n.prerequisites| && FirstWithId(nodes, k, n.prerequisites[i].id) ==>
        PanelMeets(nodes[k].status, n.prerequisites[i].condition)
  {
    forall i | 0 <= i < |n.prerequisites|
      ensures TakeSatisfied(nodes, n.prerequisites[i]) <==>
        forall k :: FirstWithId(nodes, k, n.prerequisites[i].id) ==>
          PanelMeets(nodes[k].status, n.prerequisites[i].condition)
    {
      var id := n.prerequisites[i].id;
      FindIndexFirst(nodes, id);
      match FindIndex(nodes, id)
      case None =>
      case Some(m) =>
        forall k | FirstWithId(nodes, k, id)
          ensures k == m
        {
        }
    }
  }

  /** `canTakeFinal` (lines 85-97) repeats the test of `canTakeSubject` line for line. */
  function CanTakeFinal(selected: Option<Node>, nodes: seq<Node>): bool {
    CanTakeSubject(selected, nodes)
  }

  /** `canApprove` (lines 100-109): false with nothing selected; otherwise every prerequisite
      whose ID is in the plan is APROBADA, whatever its condition. */
  function CanApprove(selected: Option<Node>, nodes: seq<Node>): (r: bool)
    ensures selected.None? ==> !r
    ensures selected.Some? ==> (r <==>
      forall i, k :: (0 <= i < |selected.value.prerequisites| &&
                      FirstWithId(nodes, k, selected.value.prerequisites[i].id)) ==>
        nodes[k].status == Aprobada)
  {
    match selected
    case None => false
    case Some(n) =>
      ApproveFirstDecides(n, nodes);
      forall i :: 0 <= i < |n.prerequisites| ==> ApproveSatisfied(nodes, n.prerequisites[i])
  }

  lemma ApproveFirstDecides(n: Node, nodes: seq<Node>)
    ensures (forall i :: 0 <= i < |n.prerequisites| ==> ApproveSatisfied(nodes, n.prerequisites[i])) <==>
      forall i, k :: 0 <= i < |n.prerequisites| && FirstWithId(nodes, k, n.prerequisites[i].id) ==>
        nodes[k].status == Aprobada
  {
    forall i | 0 <= i < |n.prerequisites|
      ensures ApproveSatisfied(nodes, n.prerequisites[i]) <==>
        forall k :: FirstWithId(nodes, k, n.prerequisites[i].id) ==> nodes[k].status == Aprobada
    {
      var id := n.prerequisites[i].id;
      FindIndexFirst(nodes, id);
      match FindIndex(nodes, id)
      case None =>
      case Some(m) =>
        forall k | FirstWithId(nodes, k, id)
          ensures k == m
        {
        }
    }
  }

  /** Whatever may be approved may be taken. */
  lemma ApproveImpliesTake(selected: Option<Node>, nodes: seq<Node>)
    ensures CanApprove(selected, nodes) ==> CanTakeSubject(selected, nodes)
  {
  }

  /** Where every condition is "Aprobada" or "Regularizada", the panel is stricter than the
      availability rule of the layout: whatever the panel lets one take, the engine shows as
      available. */
  lemma PanelStricterThanEngine(n: Node, nodes: seq<Node>)
    requires forall i :: 0 <= i < |n.prerequisites| ==>
      n.prerequisites[i].condition == "Aprobada" || n.prerequisites[i].condition == "Regularizada"
    ensures CanTakeSubject(Some(n), nodes) ==> CanTake(n, nodes)
  {
    if CanTakeSubject(Some(n), nodes) {
      forall i | 0 <= i < |n.prerequisites|
        ensures Satisfied(nodes, n.prerequisites[i])
      {
        assert TakeSatisfied(nodes, n.prerequisites[i]);
      }
    }
  }

  /** The strictness is real: a "Regularizada" prerequisite being taken (CURSANDO) makes the
      subject available in the layout, yet the panel does not let one take it. */
  lemma CursandoNotEnough(n: Node, p: Node)
    requires n.prerequisites == [Prereq(p.ID(), "Regularizada")]
    requires p.status == Cursando
    ensures CanTake(n, [p])
    ensures !CanTakeSubject(Some(n), [p])
  {
    assert Find([p], p.ID()) == Some(p);
    assert !TakeSatisfied([p], n.prerequisites[0]);
  }

  /** The other way round for a condition text that is neither of the two: the layout never
      meets it, the panel accepts it once the prerequisite is EN_FINAL. */
  lemma UnknownConditionAccepted(n: Node, p: Node, condition: string)
    requires condition != "Aprobada" && condition != "Regularizada"
    requires n.prerequisites == [Prereq(p.ID(), condition)]
    requires p.status == EnFinal
    ensures !CanTake(n, [p])
    ensures CanTakeSubject(Some(n), [p])
  {
    assert Find([p], p.ID()) == Some(p);
    assert !Satisfied([p], n.prerequisites[0]);
  }

  // ---------------------------------------------------------------------------------------------
  // The status buttons (lines 67, 152-180)

  /** The statuses the panel offers; DISPONIBLE (and NO_DISPONIBLE) are left to the engine. */
  const PanelOptions: seq<Status> := [Cursando, EnFinal, Desaprobada, Aprobada]

  /** Whether the button for `status` is disabled. */
  predicate Disabled(status: Status, n: Node, nodes: seq<Node>) {
    match status
    case Cursando => !CanTakeSubject(Some(n), nodes)
    case EnFinal => !CanTakeFinal(Some(n), nodes)
    case Aprobada => !CanApprove(Some(n), nodes)
    case _ => false
  }

  /** A click on a button: the `(ID, status)` handed to the status-change handler, or nothing
      when the button is disabled. */
  function Click(status: Status, n: Node, nodes: seq<Node>): (r: Option<(string, Status)>)
    ensures r.Some? ==> r.value == (n.ID(), status)
    ensures status == Desaprobada ==> r.Some?
    ensures (status == Cursando || status == EnFinal) ==> (r.Some? <==> CanTakeSubject(Some(n), nodes))
    ensures status == Aprobada ==> (r.Some? <==> CanApprove(Some(n), nodes))
  {
    if Disabled(status, n, nodes) then None else Some((n.ID(), status))
  }

  /** Every offered status is one the engine keeps, so a status handed over by a click is the
      status the node ends with after the recomputation. */
  lemma ClickKept(status: Status, n: Node, nodes: seq<Node>)
    requires status in PanelOptions
    requires Click(status, n, nodes).Some?
    ensures CalculateSubjectStatus(n.(status := status), nodes) == status
  {
  }

  /** Once APROBADA is enabled, every button is. */
  lemma ApproveEnablesAll(status: Status, n: Node, nodes: seq<Node>)
    requires status in PanelOptions
    requires Click(Aprobada, n, nodes).Some?
    ensures Click(status, n, nodes).Some?
  {
    ApproveImpliesTake(Some(n), nodes);
  }

  // ---------------------------------------------------------------------------------------------
  // The reason shown on a disabled APROBADA button (lines 165-173)

  /** The prerequisites whose first node is in the plan and not APROBADA, in their order. */
  function FailedPrereqs(prs: seq<Prereq>, nodes: seq<Node>): (r: seq<Prereq>)
    ensures |r| <= |prs|
  {
    if prs == [] then []
    else
      var p := prs[|prs| - 1];
      FailedPrereqs(prs[..|prs| - 1], nodes) + (if !ApproveSatisfied(nodes, p) then [p] else [])
  }

  /** The failed list keeps the prerequisites' order and holds exactly the prerequisites in the
      plan that are not approved. */
  lemma {:induction false} FailedPrereqsSpec(prs: seq<Prereq>, nodes: seq<Node>)
    ensures Subseq(FailedPrereqs(prs, nodes), prs)
    ensures forall p :: p in FailedPrereqs(prs, nodes) <==>
      p in prs && Find(nodes, p.id).Some? && Find(nodes, p.id).value.status != Aprobada
  {
    if prs != [] {
      var init := prs[..|prs| - 1];
      var p := prs[|prs| - 1];
      FailedPrereqsSpec(init, nodes);
      assert prs == init + [p];
      if !ApproveSatisfied(nodes, p) {
        SubseqBoth(FailedPrereqs(init, nodes), init, p);
      } else {
        assert FailedPrereqs(prs, nodes) == FailedPrereqs(init, nodes);
        SubseqRight(FailedPrereqs(init, nodes), init, p);
      }
    }
  }

  /** Nothing is listed exactly when the subject may be approved. */
  lemma FailedPrereqsEmpty(n: Node, nodes: seq<Node>)
    ensures FailedPrereqs(n.prerequisites, nodes) == [] <==> CanApprove(Some(n), nodes)
  {
    FailedPrereqsSpec(n.prerequisites, nodes);
    if FailedPrereqs(n.prerequisites, nodes) == [] {
      forall i | 0 <= i < |n.prerequisites|
        ensures ApproveSatisfied(nodes, n.prerequisites[i])
      {
        assert n.prerequisites[i] !in FailedPrereqs(n.prerequisites, nodes);
        assert n.prerequisites[i] in n.prerequisites;
      }
    } else {
      var p := FailedPrereqs(n.prerequisites, nodes)[0];
      assert p in FailedPrereqs(n.prerequisites, nodes);
      var i :| 0 <= i < |n.prerequisites| && n.prerequisites[i] == p;
      assert !ApproveSatisfied(nodes, n.prerequisites[i]);
    }
  }

  /** One listed prerequisite: its ID and the status of its node as the enum text;
      `prereqNode?.status` of a missing node would print "undefined". */
  function FailedEntry(p: Prereq, nodes: seq<Node>): string {
    match Find(nodes, p.id)
    case None => p.id + " (undefined)"
    case Some(m) => p.id + " (" + StatusName(m.status) + ")"
  }

  function FailedEntries(failed: seq<Prereq>, nodes: seq<Node>): (r: seq<string>)
    ensures |r| == |failed|
    ensures forall i :: 0 <= i < |failed| ==> r[i] == FailedEntry(failed[i], nodes)
  {
    seq(|failed|, i requires 0 <= i < |failed| => FailedEntry(failed[i], nodes))
  }

  /** `Prerrequisitos no aprobados: ` followed by the listed prerequisites, comma-separated. */
  function ApprovalReason(n: Node, nodes: seq<Node>): string {
    "Prerrequisitos no aprobados: " + Join(FailedEntries(FailedPrereqs(n.prerequisites, nodes), nodes), ", ")
  }

  /** The title of a button: the reason when it is disabled, empty otherwise. */
  function Tooltip(status: Status, n: Node, nodes: seq<Node>): string {
    if !Disabled(status, n, nodes) then ""
    else if status == Cursando then "Prerrequisitos no cumplidos para cursar"
    else if status == EnFinal then "Prerrequisitos no cumplidos para rendir final"
    else ApprovalReason(n, nodes)
  }

  /** A disabled APROBADA button shows the list of failed prerequisites, and the list is not
      empty. */
  lemma ApproveTooltip(n: Node, nodes: seq<Node>)
    requires Click(Aprobada, n, nodes).None?
    ensures Tooltip(Aprobada, n, nodes) == ApprovalReason(n, nodes)
    ensures FailedPrereqs(n.prerequisites, nodes) != []
  {
    FailedPrereqsEmpty(n, nodes);
  }

  /** Every listed entry is a prerequisite of the subject whose node is in the plan with a status
      other than APROBADA, printed as its ID and the status's enum text. */
  lemma FailedEntriesSpec(n: Node, nodes: seq<Node>, i: nat)
    requires i < |FailedPrereqs(n.prerequisites, nodes)|
    ensures var p := FailedPrereqs(n.prerequisites, nodes)[i];
      var m := Find(nodes, p.id);
      p in n.prerequisites && m.Some? && m.value.status != Aprobada &&
      FailedEntries(FailedPrereqs(n.prerequisites, nodes), nodes)[i] == p.id + " (" + StatusName(m.value.status) + ")"
  {
    var failed := FailedPrereqs(n.prerequisites, nodes);
    FailedPrereqsSpec(n.prerequisites, nodes);
    assert failed[i] in failed;
  }
}
