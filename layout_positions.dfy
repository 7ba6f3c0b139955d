/** Where `calculateLayout` draws each node (lib/curriculum-parser.ts:94-225): the ingress
    course in one centred column, regular subjects in the column of their year and semester,
    annual subjects in their year's first column below both semester groups, electives in
    columns of six to the right of the last year. */
module LayoutPositions {
  import opened Wrappers
  import opened Types
  import opened CurriculumLayout
  import opened LayoutProperties

  /** The `i`th ingress subject sits in the centred first column, on row `i`. */
  ghost predicate IngressAt(n: Node, ingress: seq<Subject>) {
    n.x == IngressX &&
    exists i :: 0 <= i < |ingress| && ingress[i] == n.subject && n.y == StartY + i * RowHeight
  }

  /** A regular subject sits in column `1 + 2(year - 1) + (semester - 1)`, on its row within the
      group of its year and semester. */
  ghost predicate RegularAt(n: Node, core: seq<Subject>) {
    var g := GroupOf(core, KeyOf(n.subject));
    n.x == StartX + ColumnIndex(KeyOf(n.subject)) * ColumnWidth &&
    exists i :: 0 <= i < |g| && g[i] == n.subject && n.y == StartY + i * RowHeight
  }

  /** An annual subject sits in its year's first column, below the taller semester group. */
  ghost predicate AnnualAt(n: Node, annual: seq<Subject>, core: seq<Subject>) {
    var y := YearOf(n.subject);
    var g := YearGroup(annual, y);
    n.x == StartX + AnnualColumn(y) * ColumnWidth &&
    exists i :: 0 <= i < |g| && g[i] == n.subject && n.y == StartY + (AnnualRow(core, y) + i) * RowHeight
  }

  /** The `i`th elective sits in column `2 maxYear + 1 + i / 6`, row `i % 6`. */
  ghost predicate ElectiveAt(n: Node, electives: seq<Subject>, maxYear: int) {
    exists i :: 0 <= i < |electives| && electives[i] == n.subject &&
      n.x == StartX + (2 * maxYear + 1 + i / SlotsPerColumn) * ColumnWidth &&
      n.y == StartY + (i % SlotsPerColumn) * RowHeight
  }

  lemma IngressPositions(ingress: seq<Subject>)
    ensures forall n :: n in IngressNodes(ingress) ==> IngressAt(n, ingress)
  {
    var r := IngressNodes(ingress);
    forall n | n in r ensures IngressAt(n, ingress) {
      var i :| 0 <= i < |r| && r[i] == n;
    }
  }

  lemma ElectivePositions(electives: seq<Subject>, maxYear: int)
    ensures forall n :: n in ElectiveNodes(electives, maxYear) ==> ElectiveAt(n, electives, maxYear)
  {
    var r := ElectiveNodes(electives, maxYear);
    forall n | n in r ensures ElectiveAt(n, electives, maxYear) {
      var i :| 0 <= i < |r| && r[i] == n;
    }
  }

  /** A group block: column `x`, rows from `row0` on, one subject of `g` per node. */
  lemma GroupPositions(g: seq<Subject>, x: int, row0: int)
    ensures forall n :: n in GroupNodes(g, x, row0) ==>
      n.x == x && exists i :: 0 <= i < |g| && g[i] == n.subject && n.y == StartY + (row0 + i) * RowHeight
  {
    var r := GroupNodes(g, x, row0);
    forall n | n in r ensures n.x == x && exists i :: 0 <= i < |g| && g[i] == n.subject && n.y == StartY + (row0 + i) * RowHeight {
      var i :| 0 <= i < |r| && r[i] == n;
      assert g[i] == n.subject;
    }
  }

  /** Every node of `ns` satisfies `P`. */
  ghost predicate AllAt(ns: seq<Node>, P: Node -> bool) {
    forall n :: n in ns ==> P(n)
  }

  /** The predicate of a regular node's position. */
  ghost function RegularPlace(core: seq<Subject>): Node -> bool {
    n => RegularAt(n, core)
  }

  /** The predicate of an annual node's position. */
  ghost function AnnualPlace(annual: seq<Subject>, core: seq<Subject>): Node -> bool {
    n => AnnualAt(n, annual, core)
  }

  /** A property of every node of two blocks holds for their concatenation. */
  lemma JoinAt(a: seq<Node>, b: seq<Node>, P: Node -> bool)
    requires AllAt(a, P) && AllAt(b, P)
    ensures AllAt(a + b, P)
  {
  }

  lemma RegularGroupAt(core: seq<Subject>, k: GroupKey)
    ensures AllAt(GroupNodes(GroupOf(core, k), StartX + ColumnIndex(k) * ColumnWidth, 0), RegularPlace(core))
  {
    var g := GroupOf(core, k);
    var x := StartX + ColumnIndex(k) * ColumnWidth;
    GroupPositions(g, x, 0);
    forall n | n in GroupNodes(g, x, 0) ensures RegularAt(n, core) {
      var i :| 0 <= i < |g| && g[i] == n.subject && n.y == StartY + (0 + i) * RowHeight;
      GroupOfMembers(core, k, n.subject);
    }
  }

  /** A property of the nodes of every block holds for all the blocks one after the other. */
  lemma {:induction false} ConcatAt<K>(block: K -> seq<Node>, keys: seq<K>, P: Node -> bool)
    requires forall k :: k in keys ==> AllAt(block(k), P)
    ensures AllAt(Concat(block, keys), P)
    decreases |keys|
  {
    if keys != [] {
      var init := keys[..|keys| - 1];
      assert forall j :: j in init ==> j in keys;
      ConcatAt(block, init, P);
      JoinAt(Concat(block, init), block(keys[|keys| - 1]), P);
    }
  }

  lemma RegularPositions(core: seq<Subject>, keys: seq<GroupKey>)
    ensures AllAt(RegularNodes(core, keys), RegularPlace(core))
  {
    forall k | k in keys ensures AllAt(RegularBlock(core)(k), RegularPlace(core)) {
      RegularGroupAt(core, k);
    }
    ConcatAt(RegularBlock(core), keys, RegularPlace(core));
  }

  lemma AnnualGroupAt(annual: seq<Subject>, core: seq<Subject>, y: int)
    ensures AllAt(GroupNodes(YearGroup(annual, y), StartX + AnnualColumn(y) * ColumnWidth, AnnualRow(core, y)), AnnualPlace(annual, core))
  {
    var g := YearGroup(annual, y);
    var x := StartX + AnnualColumn(y) * ColumnWidth;
    GroupPositions(g, x, AnnualRow(core, y));
    forall n | n in GroupNodes(g, x, AnnualRow(core, y)) ensures AnnualAt(n, annual, core) {
      var i :| 0 <= i < |g| && g[i] == n.subject && n.y == StartY + (AnnualRow(core, y) + i) * RowHeight;
      YearGroupMembers(annual, y, n.subject);
    }
  }

  lemma AnnualPositions(annual: seq<Subject>, core: seq<Subject>, years: seq<int>)
    ensures AllAt(AnnualNodes(annual, core, years), AnnualPlace(annual, core))
  {
    forall y | y in years ensures AllAt(AnnualBlock(annual, core)(y), AnnualPlace(annual, core)) {
      AnnualGroupAt(annual, core, y);
    }
    ConcatAt(AnnualBlock(annual, core), years, AnnualPlace(annual, core));
  }

  /** The position of every node before the status pass, by the category of its subject. */
  ghost predicate Positioned(n: Node, subjects: seq<Subject>) {
    var core := Filter(subjects, IsCore);
    (IsIngress(n.subject) ==> IngressAt(n, Filter(subjects, IsIngress))) &&
    (IsCore(n.subject) ==> RegularAt(n, core)) &&
    (IsAnnual(n.subject) ==> AnnualAt(n, Filter(subjects, IsAnnual), core)) &&
    (IsElective(n.subject) ==> ElectiveAt(n, Filter(subjects, IsElective), MaxYear(core)))
  }

  lemma IngressPositioned(subjects: seq<Subject>)
    ensures forall n :: n in IngressNodes(Filter(subjects, IsIngress)) ==> Positioned(n, subjects)
  {
    IngressPositions(Filter(subjects, IsIngress));
    IngressBlock(Filter(subjects, IsIngress));
  }

  lemma RegularPositioned(subjects: seq<Subject>)
    ensures forall n :: n in RegularNodes(Filter(subjects, IsCore), SortKeys(KeysOf(Filter(subjects, IsCore)))) ==>
      Positioned(n, subjects)
  {
    var core := Filter(subjects, IsCore);
    RegularPositions(core, SortKeys(KeysOf(core)));
    RegularPlaced(core, SortKeys(KeysOf(core)));
  }

  lemma AnnualPositioned(subjects: seq<Subject>)
    ensures forall n :: n in AnnualNodes(Filter(subjects, IsAnnual), Filter(subjects, IsCore),
                                         SortYears(YearsOf(Filter(subjects, IsAnnual)))) ==>
      Positioned(n, subjects)
  {
    var core := Filter(subjects, IsCore);
    var annual := Filter(subjects, IsAnnual);
    AnnualPositions(annual, core, SortYears(YearsOf(annual)));
    AnnualPlaced(annual, core, SortYears(YearsOf(annual)));
  }

  lemma ElectivePositioned(subjects: seq<Subject>)
    ensures forall n :: n in ElectiveNodes(Filter(subjects, IsElective), MaxYear(Filter(subjects, IsCore))) ==>
      Positioned(n, subjects)
  {
    var core := Filter(subjects, IsCore);
    ElectivePositions(Filter(subjects, IsElective), MaxYear(core));
    ElectiveBlock(Filter(subjects, IsElective), MaxYear(core));
  }

  lemma PlacedPositions(subjects: seq<Subject>)
    ensures forall n :: n in Placed(subjects) ==> Positioned(n, subjects)
  {
    IngressPositioned(subjects);
    RegularPositioned(subjects);
    AnnualPositioned(subjects);
    ElectivePositioned(subjects);
  }

  /** Every returned node is drawn where its category's rule puts it: the ingress course at
      x = 135, regular subjects in the column of their year and semester, annual subjects below
      both semester groups of their year, electives in columns of six after the last year. */
  lemma LayoutPositions(subjects: seq<Subject>, j: nat)
    requires j < |Layout(subjects)|
    ensures Positioned(Layout(subjects)[j], subjects)
  {
    var p := Placed(subjects);
    PlacedPositions(subjects);
    assert p[j] in p;
    assert Layout(subjects)[j] == Recompute(p[j], p);
  }
}
