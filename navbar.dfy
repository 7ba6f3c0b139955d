/** The status controls of the older top bar, components/navbar.tsx: its five status buttons,
    two of which are restricted until every prerequisite is in the plan and far enough along. */
module NavbarLegacy {
  import opened Wrappers
  import opened Types
  import opened StatusEngine
  import opened SubjectInfo

  /** The statuses the bar offers (line 73); NO_DISPONIBLE is never offered. */
  const NavbarOptions: seq<Status> := [Disponible, Cursando, EnFinal, Desaprobada, Aprobada]

  /** One prerequisite for the restricted buttons: its ID must be in the plan, and the first node
      with it must meet the panel's test (lines 78-85). */
  predicate ModifySatisfied(nodes: seq<Node>, p: Prereq) {
    match Find(nodes, p.id)
    case None => false
    case Some(m) => PanelMeets(m.status, p.condition)
  }

  /** `canModifyProgress` (lines 76-87): false with nothing selected, and false as soon as one
      prerequisite's ID is missing from the plan; otherwise the panel's test on every
      prerequisite, checked against the first node with its ID. */
  function CanModifyProgress(selected: Option<Node>, nodes: seq<Node>): (r: bool)
    ensures selected.None? ==> !r
    ensures selected.Some? ==> (r <==>
      forall i :: 0 <= i < |selected.value.prerequisites| ==>
        HasID(nodes, selected.value.prerequisites[i].id) &&
        forall k :: FirstWithId(nodes, k, selected.value.prerequisites[i].id) ==>
          PanelMeets(nodes[k].status, selected.value.prerequisites[i].condition))
  {
    match selected
    case None => false
    case Some(n) =>
      ModifyFirstDecides(n, nodes);
      forall i :: 0 <= i < |n.prerequisites| ==> ModifySatisfied(nodes, n.prerequisites[i])
  }

  lemma ModifyFirstDecides(n: Node, nodes: seq<Node>)
    ensures (forall i :: 0 <= i < |n.prerequisites| ==> ModifySatisfied(nodes, n.prerequisites[i])) <==>
      forall i :: 0 <= i < |n.prerequisites| ==>
        HasID(nodes, n.prerequisites[i].id) &&
        forall k :: FirstWithId(nodes, k, n.prerequisites[i].id) ==>
          PanelMeets(nodes[k].status, n.prerequisites[i].condition)
  {
    forall i | 0 <= i < |n.prerequisites|
      ensures ModifySatisfied(nodes, n.prerequisites[i]) <==>
        HasID(nodes, n.prerequisites[i].id) &&
        forall k :: FirstWithId(nodes, k, n.prerequisites[i].id) ==>
          PanelMeets(nodes[k].status, n.prerequisites[i].condition)
    {
      var id := n.prerequisites[i].id;
      FindIndexFirst(nodes, id);
      match FindIndex(nodes, id)
      case None =>
      case Some(m) =>
        forall k | FirstWithId(nodes, k, id)
          ensures k == m
        {
        }
    }
  }

  /** `isRestricted` (line 156): DISPONIBLE and CURSANDO wait for `canModifyProgress`. */
  predicate IsRestricted(status: Status, canModify: bool) {
    (status == Disponible || status == Cursando) && !canModify
  }

  /** A click on a button of the bar: the `(ID, status)` handed to the status-change handler, or
      nothing when the button is restricted (line 160). */
  function NavbarClick(status: Status, n: Node, nodes: seq<Node>): (r: Option<(string, Status)>)
    ensures r.Some? ==> r.value == (n.ID(), status)
    ensures (status == EnFinal || status == Desaprobada || status == Aprobada) ==> r.Some?
    ensures (status == Disponible || status == Cursando) ==> (r.Some? <==> CanModifyProgress(Some(n), nodes))
  {
    if IsRestricted(status, CanModifyProgress(Some(n), nodes)) then None else Some((n.ID(), status))
  }

  /** The bar's rule is the panel's rule with missing IDs counted as unmet: it never allows more,
      and allows the same once every prerequisite is in the plan. */
  lemma ModifyImpliesTake(selected: Option<Node>, nodes: seq<Node>)
    ensures CanModifyProgress(selected, nodes) ==> CanTakeSubject(selected, nodes)
  {
  }

  lemma ModifyIsTakeWhenKnown(n: Node, nodes: seq<Node>)
    requires forall i :: 0 <= i < |n.prerequisites| ==> HasID(nodes, n.prerequisites[i].id)
    ensures CanModifyProgress(Some(n), nodes) <==> CanTakeSubject(Some(n), nodes)
  {
    forall i | 0 <= i < |n.prerequisites| {
      FindFound(nodes, n.prerequisites[i].id);
    }
  }

  /** Prerequisites whose IDs are all missing from the plan (such as "1", "2") restrict the
      bar's CURSANDO button but let the panel's through. */
  lemma MissingIdsRestrict(n: Node, nodes: seq<Node>)
    requires n.prerequisites != []
    requires forall i :: 0 <= i < |n.prerequisites| ==> !HasID(nodes, n.prerequisites[i].id)
    ensures NavbarClick(Cursando, n, nodes).None?
    ensures Click(Cursando, n, nodes).Some?
  {
    forall i | 0 <= i < |n.prerequisites|
      ensures Find(nodes, n.prerequisites[i].id).None?
    {
      FindFound(nodes, n.prerequisites[i].id);
    }
    assert !ModifySatisfied(nodes, n.prerequisites[0]);
  }

  /** The bar offers DISPONIBLE, which is not a status the engine keeps: the recomputation after
      the click replaces it by the derived status. */
  lemma DisponibleIsRecomputed(n: Node, nodes: seq<Node>)
    ensures CalculateSubjectStatus(n.(status := Disponible), nodes) == (if CanTake(n, nodes) then Disponible else NoDisponible)
  {
  }

  /** The labels of the offered statuses are pairwise different, so every button reads
      differently. */
  lemma NavbarLabelsDistinct(i: nat, j: nat)
    requires i < j < |NavbarOptions|
    ensures StatusText(NavbarOptions[i]) != StatusText(NavbarOptions[j])
  {
    assert LabelStatus(StatusText(NavbarOptions[i])) == Some(NavbarOptions[i]);
    assert LabelStatus(StatusText(NavbarOptions[j])) == Some(NavbarOptions[j]);
  }
}
