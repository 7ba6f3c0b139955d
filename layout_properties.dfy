/** What `calculateLayout` guarantees about the nodes it returns: which subjects appear, where
    each one is drawn, in which order, and which status it starts with. */
module LayoutProperties {
  import opened Wrappers
  import opened Types
  import opened PrereqParser
  import opened StatusEngine
  import opened CurriculumLayout

  function SubjectsOf(nodes: seq<Node>): (r: seq<Subject>)
    ensures |r| == |nodes|
  {
    seq(|nodes|, i requires 0 <= i < |nodes| => nodes[i].subject)
  }

  lemma SubjectsOfAppend(a: seq<Node>, b: seq<Node>)
    ensures SubjectsOf(a + b) == SubjectsOf(a) + SubjectsOf(b)
  {
  }

  lemma SubjectsJoin(a: seq<Node>, b: seq<Node>, ga: seq<Subject>, gb: seq<Subject>)
    requires SubjectsOf(a) == ga && SubjectsOf(b) == gb
    ensures SubjectsOf(a + b) == ga + gb
  {
    SubjectsOfAppend(a, b);
  }

  // ---------------------------------------------------------------------------------------------
  // Every node is built by `Place` from a subject of its own category.

  lemma GroupSubjects(g: seq<Subject>, x: int, row0: int)
    ensures SubjectsOf(GroupNodes(g, x, row0)) == g
  {
  }

  lemma GroupPlaced(g: seq<Subject>, x: int, row0: int)
    ensures forall n :: n in GroupNodes(g, x, row0) ==> Placement(n, false) && n.subject in g
  {
    var r := GroupNodes(g, x, row0);
    forall n | n in r ensures Placement(n, false) && n.subject in g {
      var i :| 0 <= i < |r| && r[i] == n;
      assert n == Place(g[i], x, StartY + (row0 + i) * RowHeight, false);
    }
  }

  /** The subjects of `groups(k)` for the keys `k` of `keys`, one group after the other. */
  function ConcatGroups<K>(groups: K -> seq<Subject>, keys: seq<K>): seq<Subject> {
    if keys == [] then [] else ConcatGroups(groups, keys[..|keys| - 1]) + groups(keys[|keys| - 1])
  }

  /** Blocks holding the subjects of their groups, one after the other, hold the groups one
      after the other. */
  lemma {:induction false} ConcatSubjects<K>(block: K -> seq<Node>, groups: K -> seq<Subject>, keys: seq<K>)
    requires forall k :: k in keys ==> SubjectsOf(block(k)) == groups(k)
    ensures SubjectsOf(Concat(block, keys)) == ConcatGroups(groups, keys)
    decreases |keys|
  {
    if keys != [] {
      var init := keys[..|keys| - 1];
      var k := keys[|keys| - 1];
      assert forall j :: j in init ==> j in keys;
      ConcatSubjects(block, groups, init);
      SubjectsJoin(Concat(block, init), block(k), ConcatGroups(groups, init), groups(k));
    }
  }

  /** Every node of `b` is its subject's node, for a subject of `pool` whose key is `k`. */
  ghost predicate BlockPlaced<K>(b: seq<Node>, pool: seq<Subject>, key: Subject -> K, k: K) {
    forall n :: n in b ==> Placement(n, false) && n.subject in pool && key(n.subject) == k
  }

  /** Blocks placed for their own keys, one after the other, hold only nodes placed for keys of
      `keys`. */
  lemma {:induction false} ConcatPlaced<K>(block: K -> seq<Node>, keys: seq<K>, pool: seq<Subject>, key: Subject -> K)
    requires forall k :: k in keys ==> BlockPlaced(block(k), pool, key, k)
    ensures forall n :: n in Concat(block, keys) ==> Placement(n, false) && n.subject in pool && key(n.subject) in keys
    decreases |keys|
  {
    if keys != [] {
      var init := keys[..|keys| - 1];
      var k := keys[|keys| - 1];
      assert forall j :: j in init ==> j in keys;
      ConcatPlaced(block, init, pool, key);
      forall n | n in Concat(block, keys)
        ensures Placement(n, false) && n.subject in pool && key(n.subject) in keys
      {
        assert n in Concat(block, init) || n in block(k);
      }
    }
  }

  function GroupsOf(core: seq<Subject>): GroupKey -> seq<Subject> {
    k => GroupOf(core, k)
  }

  /** The regular block holds, group by group, exactly the subjects of the groups of `keys`. */
  function Groups(core: seq<Subject>, keys: seq<GroupKey>): seq<Subject> {
    ConcatGroups(GroupsOf(core), keys)
  }

  lemma RegularSubjects(core: seq<Subject>, keys: seq<GroupKey>)
    ensures SubjectsOf(RegularNodes(core, keys)) == Groups(core, keys)
  {
    forall k | k in keys ensures SubjectsOf(RegularBlock(core)(k)) == GroupsOf(core)(k) {
      GroupSubjects(GroupOf(core, k), StartX + ColumnIndex(k) * ColumnWidth, 0);
    }
    ConcatSubjects(RegularBlock(core), GroupsOf(core), keys);
  }

  lemma RegularPlaced(core: seq<Subject>, keys: seq<GroupKey>)
    ensures forall n :: n in RegularNodes(core, keys) ==>
      Placement(n, false) && n.subject in core && KeyOf(n.subject) in keys
  {
    forall k | k in keys ensures BlockPlaced(RegularBlock(core)(k), core, KeyOf, k) {
      GroupPlaced(GroupOf(core, k), StartX + ColumnIndex(k) * ColumnWidth, 0);
      forall n | n in RegularBlock(core)(k) ensures n.subject in core && KeyOf(n.subject) == k {
        GroupOfMembers(core, k, n.subject);
      }
    }
    ConcatPlaced(RegularBlock(core), keys, core, KeyOf);
  }

  function YearGroupsOf(annual: seq<Subject>): int -> seq<Subject> {
    y => YearGroup(annual, y)
  }

  function YearGroups(annual: seq<Subject>, years: seq<int>): seq<Subject> {
    ConcatGroups(YearGroupsOf(annual), years)
  }

  lemma AnnualSubjects(annual: seq<Subject>, core: seq<Subject>, years: seq<int>)
    ensures SubjectsOf(AnnualNodes(annual, core, years)) == YearGroups(annual, years)
  {
    forall y | y in years ensures SubjectsOf(AnnualBlock(annual, core)(y)) == YearGroupsOf(annual)(y) {
      GroupSubjects(YearGroup(annual, y), StartX + AnnualColumn(y) * ColumnWidth, AnnualRow(core, y));
    }
    ConcatSubjects(AnnualBlock(annual, core), YearGroupsOf(annual), years);
  }

  lemma AnnualPlaced(annual: seq<Subject>, core: seq<Subject>, years: seq<int>)
    ensures forall n :: n in AnnualNodes(annual, core, years) ==>
      Placement(n, false) && n.subject in annual && YearOf(n.subject) in years
  {
    forall y | y in years ensures BlockPlaced(AnnualBlock(annual, core)(y), annual, YearOf, y) {
      GroupPlaced(YearGroup(annual, y), StartX + AnnualColumn(y) * ColumnWidth, AnnualRow(core, y));
      forall n | n in AnnualBlock(annual, core)(y) ensures n.subject in annual && YearOf(n.subject) == y {
        YearGroupMembers(annual, y, n.subject);
      }
    }
    ConcatPlaced(AnnualBlock(annual, core), years, annual, YearOf);
  }

  lemma IngressBlock(ingress: seq<Subject>)
    ensures SubjectsOf(IngressNodes(ingress)) == ingress
    ensures forall n :: n in IngressNodes(ingress) ==> Placement(n, false) && n.subject in ingress
  {
    var r := IngressNodes(ingress);
    forall n | n in r ensures Placement(n, false) && n.subject in ingress {
      var i :| 0 <= i < |r| && r[i] == n;
    }
  }

  lemma ElectiveBlock(electives: seq<Subject>, maxYear: int)
    ensures SubjectsOf(ElectiveNodes(electives, maxYear)) == electives
    ensures forall n :: n in ElectiveNodes(electives, maxYear) ==> Placement(n, true) && n.subject in electives
  {
    var r := ElectiveNodes(electives, maxYear);
    forall n | n in r ensures Placement(n, true) && n.subject in electives {
      var i :| 0 <= i < |r| && r[i] == n;
    }
  }

  /** The nodes before the status pass: each is `Place` of an input subject that has a node at
      all, with `isElective` set exactly for electives. */
  lemma PlacedNodes(subjects: seq<Subject>)
    ensures forall n :: n in Placed(subjects) ==>
      Placement(n, IsElective(n.subject)) && n.subject in subjects && InLayout(n.subject)
  {
    var core := Filter(subjects, IsCore);
    var annual := Filter(subjects, IsAnnual);
    IngressBlock(Filter(subjects, IsIngress));
    RegularPlaced(core, SortKeys(KeysOf(core)));
    AnnualPlaced(annual, core, SortYears(YearsOf(annual)));
    ElectiveBlock(Filter(subjects, IsElective), MaxYear(core));
  }

  lemma RecomputeKeeps(nodes: seq<Node>, j: nat)
    requires j < |nodes|
    ensures RecomputeAll(nodes)[j] == nodes[j].(status := RecomputeAll(nodes)[j].status)
  {
  }

  /** Each returned node carries an input subject of one of the four categories; `isElective` is
      set exactly for Year "Electives"; its prerequisites are always the parse of the "to take"
      fields, the "to pass" fields never being consulted; a grade of 0 is dropped. */
  lemma LayoutNodes(subjects: seq<Subject>, j: nat)
    requires j < |Layout(subjects)|
    ensures var n := Layout(subjects)[j];
      n.subject in subjects && InLayout(n.subject) &&
      (n.isElective <==> n.subject.year == Text("Electives")) &&
      n.prerequisites == Parse(n.subject.prerequisitesToTake) &&
      n.prerequisiteFor == Parse(n.subject.prerequisiteToTakeFor) &&
      n.grade == (if n.subject.grade == Some(0.0) then None else n.subject.grade)
  {
    PlacedNodes(subjects);
    var p := Placed(subjects);
    assert p[j] in p;
    RecomputeKeeps(p, j);
  }

  /** A raw status naming one of the four committed statuses is kept. Every other node is
      DISPONIBLE exactly when its prerequisites are met in the returned list itself. */
  lemma LayoutStatus(subjects: seq<Subject>, j: nat)
    requires j < |Layout(subjects)|
    ensures var n := Layout(subjects)[j];
      var raw := if n.subject.status == "" then NoDisponible else StatusOf(n.subject.status);
      (Committed(raw) ==> n.status == raw) &&
      (!Committed(raw) ==> (n.status == Disponible || n.status == NoDisponible)) &&
      (!Committed(raw) ==> (n.status == Disponible <==> CanTake(n, Layout(subjects))))
  {
    PlacedNodes(subjects);
    var p := Placed(subjects);
    var l := Layout(subjects);
    assert p[j] in p;
    RecomputeKeeps(p, j);
    RecomputeAllStanding(p);
    SameStandingRaised(p, l);
    if !Committed(p[j].status) {
      assert CanTake(l[j], p) <==> CanTake(p[j], p);
      SameStandingSameStatus(l[j], p, l);
    }
  }

  // ---------------------------------------------------------------------------------------------
  // Which subjects appear.

  lemma {:induction false} FilterSplits(xs: seq<Subject>)
    ensures multiset(Filter(xs, InLayout)) ==
      multiset(Filter(xs, IsIngress)) + multiset(Filter(xs, IsCore)) +
      multiset(Filter(xs, IsAnnual)) + multiset(Filter(xs, IsElective))
  {
    if xs != [] {
      FilterSplits(xs[..|xs| - 1]);
    }
  }

  /** The last key of a sorted list does not occur before it. */
  lemma SortedLastFresh(keys: seq<GroupKey>)
    requires KeysSorted(keys) && keys != []
    ensures KeysSorted(keys[..|keys| - 1])
    ensures keys[|keys| - 1] !in keys[..|keys| - 1]
  {
    var init := keys[..|keys| - 1];
    forall i | 0 <= i < |init| ensures init[i] != keys[|keys| - 1] {
      assert KeyLess(keys[i], keys[|keys| - 1]);
    }
  }

  /** A group holds every subject of its key as often as the input does. */
  lemma {:induction false} GroupOfCount(xs: seq<Subject>, k: GroupKey, z: Subject)
    ensures multiset(GroupOf(xs, k))[z] == if KeyOf(z) == k then multiset(xs)[z] else 0
  {
    if xs != [] {
      var init := xs[..|xs| - 1];
      assert xs == init + [xs[|xs| - 1]];
      GroupOfCount(init, k, z);
    }
  }

  lemma {:induction false} GroupsCount(core: seq<Subject>, keys: seq<GroupKey>, z: Subject)
    requires KeysSorted(keys)
    ensures multiset(Groups(core, keys))[z] == if KeyOf(z) in keys then multiset(core)[z] else 0
    decreases |keys|
  {
    if keys != [] {
      var init := keys[..|keys| - 1];
      var k := keys[|keys| - 1];
      assert keys == init + [k];
      SortedLastFresh(keys);
      GroupsCount(core, init, z);
      GroupOfCount(core, k, z);
    }
  }

  /** With distinct keys covering every regular subject, the groups are a rearrangement of the
      regular subjects. */
  lemma GroupsCover(core: seq<Subject>, keys: seq<GroupKey>)
    requires KeysSorted(keys)
    requires forall x :: x in core ==> KeyOf(x) in keys
    ensures multiset(Groups(core, keys)) == multiset(core)
  {
    forall z ensures multiset(Groups(core, keys))[z] == multiset(core)[z] {
      GroupsCount(core, keys, z);
    }
  }

  lemma SortedLastFreshYear(years: seq<int>)
    requires YearsSorted(years) && years != []
    ensures YearsSorted(years[..|years| - 1])
    ensures years[|years| - 1] !in years[..|years| - 1]
  {
    var init := years[..|years| - 1];
    forall i | 0 <= i < |init| ensures init[i] != years[|years| - 1] {
      assert years[i] < years[|years| - 1];
    }
  }

  lemma {:induction false} YearGroupCount(xs: seq<Subject>, y: int, z: Subject)
    ensures multiset(YearGroup(xs, y))[z] == if YearOf(z) == y then multiset(xs)[z] else 0
  {
    if xs != [] {
      var init := xs[..|xs| - 1];
      assert xs == init + [xs[|xs| - 1]];
      YearGroupCount(init, y, z);
    }
  }

  lemma {:induction false} YearGroupsCount(annual: seq<Subject>, years: seq<int>, z: Subject)
    requires YearsSorted(years)
    ensures multiset(YearGroups(annual, years))[z] == if YearOf(z) in years then multiset(annual)[z] else 0
    decreases |years|
  {
    if years != [] {
      var init := years[..|years| - 1];
      var y := years[|years| - 1];
      assert years == init + [y];
      SortedLastFreshYear(years);
      YearGroupsCount(annual, init, z);
      YearGroupCount(annual, y, z);
    }
  }

  lemma YearGroupsCover(annual: seq<Subject>, years: seq<int>)
    requires YearsSorted(years)
    requires forall x :: x in annual ==> YearOf(x) in years
    ensures multiset(YearGroups(annual, years)) == multiset(annual)
  {
    forall z ensures multiset(YearGroups(annual, years))[z] == multiset(annual)[z] {
      YearGroupsCount(annual, years, z);
    }
  }

  /** The layout holds every subject of the four categories exactly as often as the input does,
      and no other subject. */
  lemma LayoutSubjects(subjects: seq<Subject>)
    ensures multiset(SubjectsOf(Layout(subjects))) == multiset(Filter(subjects, InLayout))
  {
    var core := Filter(subjects, IsCore);
    var annual := Filter(subjects, IsAnnual);
    var ingress := Filter(subjects, IsIngress);
    var electives := Filter(subjects, IsElective);
    var keys := SortKeys(KeysOf(core));
    var years := SortYears(YearsOf(annual));
    var ib := IngressNodes(ingress);
    var rb := RegularNodes(core, keys);
    var ab := AnnualNodes(annual, core, years);
    var eb := ElectiveNodes(electives, MaxYear(core));
    assert SubjectsOf(Layout(subjects)) == SubjectsOf(Placed(subjects));
    assert Placed(subjects) == ib + rb + ab + eb;
    SubjectsOfAppend(ib, rb);
    SubjectsOfAppend(ib + rb, ab);
    SubjectsOfAppend(ib + rb + ab, eb);
    IngressBlock(ingress);
    RegularSubjects(core, keys);
    AnnualSubjects(annual, core, years);
    ElectiveBlock(electives, MaxYear(core));
    GroupsCover(core, keys);
    YearGroupsCover(annual, years);
    FilterSplits(subjects);
  }
}
