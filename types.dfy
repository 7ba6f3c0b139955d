/** The records of types/curriculum.ts: subjects as loaded from a plan, the nodes the viewer
    holds, parsed prerequisites, statuses and display connections. */
module Types {
  import opened Wrappers

  /** A subject's status. The six named values are the viewer's `SubjectStatus`; `Other` holds any
      other text a raw record carries, since the layout casts the raw `status` without checking. */
  datatype Status =
    | NoDisponible | Disponible | Cursando | EnFinal | Desaprobada | Aprobada
    | Other(raw: string)

  /** The text of a status as the source spells it. */
  function StatusName(s: Status): string {
    match s
    case NoDisponible => "NO_DISPONIBLE"
    case Disponible => "DISPONIBLE"
    case Cursando => "CURSANDO"
    case EnFinal => "EN_FINAL"
    case Desaprobada => "DESAPROBADA"
    case Aprobada => "APROBADA"
    case Other(raw) => raw
  }

  /** Reads a status from its text; text that names none of the six values stays `Other`. */
  function StatusOf(raw: string): (s: Status)
    ensures StatusName(s) == raw
  {
    if raw == "NO_DISPONIBLE" then NoDisponible
    else if raw == "DISPONIBLE" then Disponible
    else if raw == "CURSANDO" then Cursando
    else if raw == "EN_FINAL" then EnFinal
    else if raw == "DESAPROBADA" then Desaprobada
    else if raw == "APROBADA" then Aprobada
    else Other(raw)
  }

  /** Reading back the name of any of the six statuses gives that status. */
  lemma StatusOfName(s: Status)
    requires !s.Other?
    ensures StatusOf(StatusName(s)) == s
  {
  }

  /** The four statuses a user asserts and the engine never overwrites. */
  predicate Committed(s: Status) {
    s == Cursando || s == EnFinal || s == Desaprobada || s == Aprobada
  }

  /** `Year` is `number | string`: a numeric year (0 is the ingress course) or a text such as
      "Electives". */
  datatype Year = Num(n: int) | Text(t: string)

  const ElectivesYear: Year := Text("Electives")

  /** One `(ID, Condition)` entry; the condition stays the raw text. */
  datatype Prereq = Prereq(id: string, condition: string)

  /** A subject record of a plan. `status` is the optional raw status ("" when absent) and
      `grade` the optional raw grade that an uploaded plan carries. */
  datatype Subject = Subject(
    course: string,
    id: string,
    year: Year,
    semester: Option<nat>,
    credits: Option<string>,
    prerequisitesToTake: Option<string>,
    prerequisitesToPass: Option<string>,
    prerequisiteToTakeFor: Option<string>,
    prerequisiteToPassFor: Option<string>,
    status: string,
    grade: Option<real>)

  /** A laid-out subject: the record with its position, live status, parsed prerequisites and
      grade (these override the record's own `status` and `grade`). */
  datatype Node = Node(
    subject: Subject,
    x: int,
    y: int,
    status: Status,
    isElective: bool,
    prerequisites: seq<Prereq>,
    prerequisiteFor: seq<Prereq>,
    grade: Option<real>)
  {
    function ID(): string { subject.id }
    function Year(): Year { subject.year }
    function Semester(): Option<nat> { subject.semester }
  }

  datatype Connection = Connection(from: string, to: string, condition: string, fromStatus: Status)

  /** Whether some node has the given ID. */
  predicate HasID(nodes: seq<Node>, id: string) {
    exists i :: 0 <= i < |nodes| && nodes[i].ID() == id
  }

  /** Index of the first node with the given ID (`nodes.find(n => n.ID === id)`). */
  function FindIndex(nodes: seq<Node>, id: string): (r: Option<nat>)
    ensures r.Some? ==> r.value < |nodes| && nodes[r.value].ID() == id
  {
    if nodes == [] then None
    else if nodes[0].ID() == id then Some(0)
    else match FindIndex(nodes[1..], id)
      case None => None
      case Some(k) => Some(k + 1)
  }

  /** The search finds the first node with the ID, and finds nothing only when there is none. */
  lemma {:induction false} FindIndexFirst(nodes: seq<Node>, id: string)
    ensures FindIndex(nodes, id).None? <==> !HasID(nodes, id)
    ensures FindIndex(nodes, id).Some? ==> forall j :: 0 <= j < FindIndex(nodes, id).value ==> nodes[j].ID() != id
  {
    if nodes != [] && nodes[0].ID() != id {
      FindIndexFirst(nodes[1..], id);
      assert forall j :: 1 <= j < |nodes| ==> nodes[j] == nodes[1..][j - 1];
      if HasID(nodes, id) {
        var i :| 0 <= i < |nodes| && nodes[i].ID() == id;
        assert nodes[1..][i - 1].ID() == id;
      }
    }
  }

  /** `nodes.find(n => n.ID === id)`. */
  function Find(nodes: seq<Node>, id: string): (r: Option<Node>)
    ensures r.Some? ==> r.value in nodes && r.value.ID() == id
  {
    match FindIndex(nodes, id)
    case None => None
    case Some(k) => Some(nodes[k])
  }

  /** `find` succeeds exactly when some node carries the ID. */
  lemma FindFound(nodes: seq<Node>, id: string)
    ensures Find(nodes, id).Some? <==> HasID(nodes, id)
  {
    FindIndexFirst(nodes, id);
  }
}
