/** `calculateLayout` of lib/curriculum-parser.ts: subjects are split into the ingress course
    (Year 0), regular subjects (positive numeric Year and a numeric Semester), annual subjects
    (positive numeric Year, no Semester) and electives (Year "Electives"); each becomes a node on
    a grid of 250-wide columns and 120-high rows, and a last pass derives the status of every node
    whose status is not one of the four committed ones. */
module CurriculumLayout {
  import opened Wrappers
  import opened Types
  import opened PrereqParser
  import opened StatusEngine

  const ColumnWidth: int := 250
  const RowHeight: int := 120
  const StartX: int := 100
  const StartY: int := 100
  const NodeWidth: int := 180
  const SlotsPerColumn: int := 6

  predicate IsIngress(s: Subject) { s.year == Num(0) }
  predicate IsAnnual(s: Subject) { s.year.Num? && s.year.n > 0 && s.semester.None? }
  predicate IsCore(s: Subject) { s.year.Num? && s.year.n > 0 && s.semester.Some? }
  predicate IsElective(s: Subject) { s.year == ElectivesYear }

  /** The subjects that get a node at all. */
  predicate InLayout(s: Subject) { IsIngress(s) || IsCore(s) || IsAnnual(s) || IsElective(s) }

  /** `subjects.filter(f)`. */
  function Filter(xs: seq<Subject>, f: Subject -> bool): (r: seq<Subject>)
    ensures |r| <= |xs|
    ensures forall x :: x in r <==> x in xs && f(x)
  {
    if xs == [] then []
    else Filter(xs[..|xs| - 1], f) + (if f(xs[|xs| - 1]) then [xs[|xs| - 1]] else [])
  }

  // ---------------------------------------------------------------------------------------------
  // Node construction

  /** `(subject as any).status || 'NO_DISPONIBLE'`: an absent (empty) raw status becomes
      NO_DISPONIBLE, any other text is taken as it is. */
  function InitialStatus(s: Subject): Status {
    if s.status == "" then NoDisponible else StatusOf(s.status)
  }

  /** `(subject as any).grade || null`: a grade of 0 is falsy and becomes null. */
  function InitialGrade(s: Subject): Option<real> {
    if s.grade == Some(0.0) then None else s.grade
  }

  /** JavaScript's `a || b` when `a` is an array: every array, the empty one included, is truthy,
      so the right operand is never chosen. */
  function OrArray(a: seq<Prereq>, b: seq<Prereq>): seq<Prereq> {
    a
  }

  /** The node pushed for a subject at a position. */
  function Place(s: Subject, x: int, y: int, elective: bool): Node {
    Node(s, x, y, InitialStatus(s), elective,
      OrArray(Parse(s.prerequisitesToTake), OrArray(Parse(s.prerequisitesToPass), [])),
      OrArray(Parse(s.prerequisiteToTakeFor), OrArray(Parse(s.prerequisiteToPassFor), [])),
      InitialGrade(s))
  }

  /** A node built by `Place` from its own subject and position. */
  predicate Placement(n: Node, elective: bool) {
    n == Place(n.subject, n.x, n.y, elective)
  }

  // ---------------------------------------------------------------------------------------------
  // Ingress course: one column, centred in the first 250-wide column.

  const IngressX: int := StartX + (ColumnWidth - NodeWidth) / 2

  function IngressNodes(ingress: seq<Subject>): (r: seq<Node>)
    ensures |r| == |ingress|
  {
    seq(|ingress|, i requires 0 <= i < |ingress| => Place(ingress[i], IngressX, StartY + i * RowHeight, false))
  }

  method PlaceIngress(ingress: seq<Subject>) returns (block: seq<Node>)
    ensures block == IngressNodes(ingress)
  {
    block := [];
    for i := 0 to |ingress|
      invariant |block| == i
      invariant forall j :: 0 <= j < i ==> block[j] == Place(ingress[j], IngressX, StartY + j * RowHeight, false)
    {
      block := block + [Place(ingress[i], IngressX, StartY + i * RowHeight, false)];
    }
  }

  // ---------------------------------------------------------------------------------------------
  // Regular subjects, grouped by `${Year}-${Semester}`.

  /** The key of a regular subject's group. Year and Semester are read as numbers; the text key
      `${Year}-${Semester}` and its `split('-').map(Number)` give back the same pair. */
  datatype GroupKey = GroupKey(year: int, semester: int)

  function YearOf(s: Subject): int {
    if s.year.Num? then s.year.n else 0
  }

  function KeyOf(s: Subject): GroupKey {
    GroupKey(YearOf(s), if s.semester.Some? then s.semester.value else 0)
  }

  /** The subjects of `xs` in group `k`, in input order (`acc[key].push(subject)`). */
  function GroupOf(xs: seq<Subject>, k: GroupKey): (r: seq<Subject>)
    ensures |r| <= |xs|
  {
    if xs == [] then []
    else GroupOf(xs[..|xs| - 1], k) + (if KeyOf(xs[|xs| - 1]) == k then [xs[|xs| - 1]] else [])
  }

  /** A group holds the subjects of its key and no other. */
  lemma {:induction false} GroupOfMembers(xs: seq<Subject>, k: GroupKey, x: Subject)
    ensures x in GroupOf(xs, k) <==> x in xs && KeyOf(x) == k
  {
    if xs != [] {
      var init := xs[..|xs| - 1];
      assert xs == init + [xs[|xs| - 1]];
      GroupOfMembers(init, k, x);
    }
  }

  /** A key that no subject has gets an empty group. */
  lemma GroupOfNone(xs: seq<Subject>, k: GroupKey)
    requires forall x :: x in xs ==> KeyOf(x) != k
    ensures GroupOf(xs, k) == []
  {
    var g := GroupOf(xs, k);
    if g != [] {
      GroupOfMembers(xs, k, g[0]);
    }
  }

  /** The group keys in order of first appearance (`Object.keys(grouped)`). */
  function KeysOf(xs: seq<Subject>): (r: seq<GroupKey>)
    ensures forall k :: k in r <==> exists x :: x in xs && KeyOf(x) == k
  {
    if xs == [] then []
    else
      var init := KeysOf(xs[..|xs| - 1]);
      var last := xs[|xs| - 1];
      assert forall x :: x in xs <==> x in xs[..|xs| - 1] || x == last by {
        assert xs == xs[..|xs| - 1] + [last];
      }
      if KeyOf(last) in init then init else init + [KeyOf(last)]
  }

  /** The reduce at lines 72-77: a map from each key to its group, and the keys in insertion
      order. */
  method GroupCore(core: seq<Subject>) returns (keys: seq<GroupKey>, grouped: map<GroupKey, seq<Subject>>)
    ensures keys == KeysOf(core)
    ensures forall k :: k in grouped <==> k in keys
    ensures forall k :: k in grouped ==> grouped[k] == GroupOf(core, k)
  {
    keys := [];
    grouped := map[];
    for i := 0 to |core|
      invariant Grouping(keys, grouped, core[..i])
    {
      var s := core[i];
      assert core[..i + 1] == core[..i] + [s];
      GroupStep(keys, grouped, core[..i], s);
      var key := KeyOf(s);
      var group := if key in grouped then grouped[key] else [];
      keys := if key in grouped then keys else keys + [key];
      grouped := grouped[key := group + [s]];
    }
    assert core[..|core|] == core;
  }

  /** `keys` and `grouped` are what the reduce has built after reading `xs`. */
  ghost predicate Grouping(keys: seq<GroupKey>, grouped: map<GroupKey, seq<Subject>>, xs: seq<Subject>) {
    keys == KeysOf(xs) &&
    (forall k :: k in grouped <==> k in keys) &&
    (forall k :: k in grouped ==> grouped[k] == GroupOf(xs, k))
  }

  lemma GroupStep(keys: seq<GroupKey>, grouped: map<GroupKey, seq<Subject>>, xs: seq<Subject>, s: Subject)
    requires Grouping(keys, grouped, xs)
    ensures Grouping(if KeyOf(s) in grouped then keys else keys + [KeyOf(s)],
      grouped[KeyOf(s) := (if KeyOf(s) in grouped then grouped[KeyOf(s)] else []) + [s]], xs + [s])
  {
    assert (xs + [s])[..|xs|] == xs;
    if KeyOf(s) !in grouped {
      GroupOfNone(xs, KeyOf(s));
    }
    forall k ensures GroupOf(xs + [s], k) == GroupOf(xs, k) + (if KeyOf(s) == k then [s] else []) {
      GroupOfSnoc(xs, s, k);
    }
  }

  lemma GroupOfSnoc(xs: seq<Subject>, x: Subject, k: GroupKey)
    ensures GroupOf(xs + [x], k) == GroupOf(xs, k) + (if KeyOf(x) == k then [x] else [])
  {
    assert (xs + [x])[..|xs|] == xs;
  }

  ghost predicate YearGrouping(years: seq<int>, grouped: map<int, seq<Subject>>, xs: seq<Subject>) {
    years == YearsOf(xs) &&
    (forall y :: y in grouped <==> y in years) &&
    (forall y :: y in grouped ==> grouped[y] == YearGroup(xs, y))
  }

  lemma YearGroupStep(years: seq<int>, grouped: map<int, seq<Subject>>, xs: seq<Subject>, s: Subject)
    requires YearGrouping(years, grouped, xs)
    ensures YearGrouping(if YearOf(s) in grouped then years else years + [YearOf(s)],
      grouped[YearOf(s) := (if YearOf(s) in grouped then grouped[YearOf(s)] else []) + [s]], xs + [s])
  {
    var y0 := YearOf(s);
    var g := grouped[y0 := (if y0 in grouped then grouped[y0] else []) + [s]];
    var ys := if y0 in grouped then years else years + [y0];
    assert (xs + [s])[..|xs|] == xs;
    assert ys == YearsOf(xs + [s]);
    if y0 !in grouped {
      YearGroupNone(xs, y0);
    }
    forall y | y in g ensures g[y] == YearGroup(xs + [s], y) {
      YearGroupSnoc(xs, s, y);
    }
  }

  lemma YearGroupSnoc(xs: seq<Subject>, x: Subject, y: int)
    ensures YearGroup(xs + [x], y) == YearGroup(xs, y) + (if YearOf(x) == y then [x] else [])
  {
    assert (xs + [x])[..|xs|] == xs;
  }

  /** The comparator of lines 121-126: by year, then by semester. */
  predicate KeyLess(a: GroupKey, b: GroupKey) {
    a.year < b.year || (a.year == b.year && a.semester < b.semester)
  }

  predicate KeysSorted(ks: seq<GroupKey>) {
    forall i, j :: 0 <= i < j < |ks| ==> KeyLess(ks[i], ks[j])
  }

  function InsertKey(k: GroupKey, ks: seq<GroupKey>): (r: seq<GroupKey>)
    requires KeysSorted(ks)
    ensures KeysSorted(r)
    ensures forall x :: x in r <==> x == k || x in ks
  {
    if ks == [] then [k]
    else if k == ks[0] then ks
    else if KeyLess(k, ks[0]) then [k] + ks
    else
      var rest := InsertKey(k, ks[1..]);
      assert forall x :: x in ks <==> x == ks[0] || x in ks[1..] by {
        assert ks == [ks[0]] + ks[1..];
      }
      forall x | x in rest ensures KeyLess(ks[0], x) {
        if x != k {
          var j :| 0 <= j < |ks[1..]| && ks[1..][j] == x;
          assert ks[j + 1] == x;
        }
      }
      var r := [ks[0]] + rest;
      forall i, j | 0 <= i < j < |r| ensures KeyLess(r[i], r[j]) {
        assert r[j] == rest[j - 1] && r[j] in rest;
        if i > 0 {
          assert r[i] == rest[i - 1];
        }
      }
      r
  }

  /** `Object.keys(grouped).sort(...)`: the distinct keys in increasing order. */
  function SortKeys(ks: seq<GroupKey>): (r: seq<GroupKey>)
    ensures KeysSorted(r)
    ensures forall x :: x in r <==> x in ks
  {
    if ks == [] then []
    else
      assert forall x :: x in ks <==> x in ks[..|ks| - 1] || x == ks[|ks| - 1] by {
        assert ks == ks[..|ks| - 1] + [ks[|ks| - 1]];
      }
      InsertKey(ks[|ks| - 1], SortKeys(ks[..|ks| - 1]))
  }

  /** Any sort whose output is strictly increasing gives the same list: the output of
      `SortKeys` does not depend on the sorting algorithm. */
  lemma {:induction false} SortedKeysUnique(a: seq<GroupKey>, b: seq<GroupKey>)
    requires KeysSorted(a) && KeysSorted(b)
    requires forall x :: x in a <==> x in b
    ensures a == b
    decreases |a|
  {
    if a != [] {
      assert a[0] in b;
    }
    if b != [] {
      assert b[0] in a;
    }
    if a != [] && b != [] {
      SortedTail(a, b[0]);
      SortedTail(b, a[0]);
      SortedHeadLeast(a, b[0]);
      SortedHeadLeast(b, a[0]);
      forall x | x in a[1..] ensures x in b[1..] {
        SortedTail(a, x);
        SortedTail(b, x);
      }
      forall x | x in b[1..] ensures x in a[1..] {
        SortedTail(b, x);
        SortedTail(a, x);
      }
      SortedKeysUnique(a[1..], b[1..]);
      assert a == [a[0]] + a[1..] && b == [b[0]] + b[1..];
    }
  }

  /** The head of a sorted list is below every other element. */
  lemma SortedHeadLeast(a: seq<GroupKey>, x: GroupKey)
    requires KeysSorted(a) && a != [] && x in a
    ensures x == a[0] || KeyLess(a[0], x)
  {
    var i :| 0 <= i < |a| && a[i] == x;
  }

  /** In a sorted list, the tail holds exactly the elements other than the head. */
  lemma SortedTail(a: seq<GroupKey>, x: GroupKey)
    requires KeysSorted(a) && a != []
    ensures x in a[1..] <==> x in a && x != a[0]
  {
    assert a == [a[0]] + a[1..];
    if x in a[1..] {
      var i :| 0 <= i < |a[1..]| && a[1..][i] == x;
      assert KeyLess(a[0], a[i + 1]);
    }
  }

  /** The column of a regular group: one column for the ingress course, then two per year. */
  function ColumnIndex(k: GroupKey): int {
    1 + (k.year - 1) * 2 + (k.semester - 1)
  }

  /** A group's nodes, one per row starting at row `row0`, all in column x. */
  function GroupNodes(g: seq<Subject>, x: int, row0: int): (r: seq<Node>)
    ensures |r| == |g|
  {
    seq(|g|, i requires 0 <= i < |g| => Place(g[i], x, StartY + (row0 + i) * RowHeight, false))
  }

  method PlaceGroup(g: seq<Subject>, x: int, row0: int) returns (block: seq<Node>)
    ensures block == GroupNodes(g, x, row0)
  {
    block := [];
    for i := 0 to |g|
      invariant |block| == i
      invariant forall j :: 0 <= j < i ==> block[j] == Place(g[j], x, StartY + (row0 + j) * RowHeight, false)
    {
      block := block + [Place(g[i], x, StartY + (row0 + i) * RowHeight, false)];
    }
  }

  /** The blocks of `keys` one after the other, in the order of `keys`. */
  function Concat<K>(block: K -> seq<Node>, keys: seq<K>): seq<Node> {
    if keys == [] then [] else Concat(block, keys[..|keys| - 1]) + block(keys[|keys| - 1])
  }

  /** One more key adds its block at the end. */
  lemma ConcatStep<K>(block: K -> seq<Node>, keys: seq<K>, i: nat)
    requires i < |keys|
    ensures Concat(block, keys[..i + 1]) == Concat(block, keys[..i]) + block(keys[i])
  {
    assert keys[..i + 1][..i] == keys[..i];
  }

  /** The block of a regular group: its subjects in the column of its key, from the first row. */
  function RegularBlock(core: seq<Subject>): GroupKey -> seq<Node> {
    k => GroupNodes(GroupOf(core, k), StartX + ColumnIndex(k) * ColumnWidth, 0)
  }

  /** The regular nodes, group after group in the order of `keys`. */
  function RegularNodes(core: seq<Subject>, keys: seq<GroupKey>): seq<Node> {
    Concat(RegularBlock(core), keys)
  }

  method PlaceRegular(core: seq<Subject>, keys: seq<GroupKey>, grouped: map<GroupKey, seq<Subject>>)
    returns (block: seq<Node>)
    requires forall k :: k in keys ==> k in grouped && grouped[k] == GroupOf(core, k)
    ensures block == RegularNodes(core, keys)
  {
    block := [];
    for i := 0 to |keys|
      invariant block == RegularNodes(core, keys[..i])
    {
      var key := keys[i];
      var x := StartX + ColumnIndex(key) * ColumnWidth;
      var group := PlaceGroup(grouped[key], x, 0);
      ConcatStep(RegularBlock(core), keys, i);
      assert group == RegularBlock(core)(key);
      block := block + group;
    }
    assert keys[..|keys|] == keys;
  }

  // ---------------------------------------------------------------------------------------------
  // Annual subjects, grouped by `${Year}`, under the regular subjects of their year.

  function YearGroup(xs: seq<Subject>, y: int): (r: seq<Subject>)
    ensures |r| <= |xs|
  {
    if xs == [] then []
    else YearGroup(xs[..|xs| - 1], y) + (if YearOf(xs[|xs| - 1]) == y then [xs[|xs| - 1]] else [])
  }

  lemma {:induction false} YearGroupMembers(xs: seq<Subject>, y: int, x: Subject)
    ensures x in YearGroup(xs, y) <==> x in xs && YearOf(x) == y
  {
    if xs != [] {
      var init := xs[..|xs| - 1];
      assert xs == init + [xs[|xs| - 1]];
      YearGroupMembers(init, y, x);
    }
  }

  /** A year that no subject has gets an empty group. */
  lemma YearGroupNone(xs: seq<Subject>, y: int)
    requires forall x :: x in xs ==> YearOf(x) != y
    ensures YearGroup(xs, y) == []
  {
    var g := YearGroup(xs, y);
    if g != [] {
      YearGroupMembers(xs, y, g[0]);
    }
  }

  function YearsOf(xs: seq<Subject>): (r: seq<int>)
    ensures forall y :: y in r <==> exists x :: x in xs && YearOf(x) == y
  {
    if xs == [] then []
    else
      var init := YearsOf(xs[..|xs| - 1]);
      var last := xs[|xs| - 1];
      assert forall x :: x in xs <==> x in xs[..|xs| - 1] || x == last by {
        assert xs == xs[..|xs| - 1] + [last];
      }
      if YearOf(last) in init then init else init + [YearOf(last)]
  }

  /** The reduce at lines 80-85. */
  method GroupAnnual(annual: seq<Subject>) returns (years: seq<int>, grouped: map<int, seq<Subject>>)
    ensures years == YearsOf(annual)
    ensures forall y :: y in grouped <==> y in years
    ensures forall y :: y in grouped ==> grouped[y] == YearGroup(annual, y)
  {
    years := [];
    grouped := map[];
    for i := 0 to |annual|
      invariant YearGrouping(years, grouped, annual[..i])
    {
      var s := annual[i];
      assert annual[..i + 1] == annual[..i] + [s];
      YearGroupStep(years, grouped, annual[..i], s);
      var y := YearOf(s);
      var group := if y in grouped then grouped[y] else [];
      years := if y in grouped then years else years + [y];
      grouped := grouped[y := group + [s]];
    }
    assert annual[..|annual|] == annual;
  }

  predicate YearsSorted(ys: seq<int>) {
    forall i, j :: 0 <= i < j < |ys| ==> ys[i] < ys[j]
  }

  function InsertYear(y: int, ys: seq<int>): (r: seq<int>)
    requires YearsSorted(ys)
    ensures YearsSorted(r)
    ensures forall x :: x in r <==> x == y || x in ys
  {
    if ys == [] then [y]
    else if y == ys[0] then ys
    else if y < ys[0] then [y] + ys
    else
      var rest := InsertYear(y, ys[1..]);
      assert forall x :: x in ys <==> x == ys[0] || x in ys[1..] by {
        assert ys == [ys[0]] + ys[1..];
      }
      forall x | x in rest ensures ys[0] < x {
        if x != y {
          var j :| 0 <= j < |ys[1..]| && ys[1..][j] == x;
          assert ys[j + 1] == x;
        }
      }
      var r := [ys[0]] + rest;
      forall i, j | 0 <= i < j < |r| ensures r[i] < r[j] {
        assert r[j] == rest[j - 1] && r[j] in rest;
        if i > 0 {
          assert r[i] == rest[i - 1];
        }
      }
      r
  }

  /** `Object.keys(annualGrouped).sort((a, b) => Number(a) - Number(b))`. */
  function SortYears(ys: seq<int>): (r: seq<int>)
    ensures YearsSorted(r)
    ensures forall x :: x in r <==> x in ys
  {
    if ys == [] then []
    else
      assert forall x :: x in ys <==> x in ys[..|ys| - 1] || x == ys[|ys| - 1] by {
        assert ys == ys[..|ys| - 1] + [ys[|ys| - 1]];
      }
      InsertYear(ys[|ys| - 1], SortYears(ys[..|ys| - 1]))
  }

  function Max(a: int, b: int): int { if a < b then b else a }

  /** The first row of an annual year: below the taller of the year's two semester groups. */
  function AnnualRow(core: seq<Subject>, y: int): int {
    Max(|GroupOf(core, GroupKey(y, 1))|, |GroupOf(core, GroupKey(y, 2))|)
  }

  /** The annual column: the first semester column of the year. */
  function AnnualColumn(y: int): int {
    1 + (y - 1) * 2
  }

  /** The block of a year's annual subjects: in the annual column of the year, below both
      semester groups. */
  function AnnualBlock(annual: seq<Subject>, core: seq<Subject>): int -> seq<Node> {
    y => GroupNodes(YearGroup(annual, y), StartX + AnnualColumn(y) * ColumnWidth, AnnualRow(core, y))
  }

  /** The annual nodes, year after year in the order of `years`. */
  function AnnualNodes(annual: seq<Subject>, core: seq<Subject>, years: seq<int>): seq<Node> {
    Concat(AnnualBlock(annual, core), years)
  }

  /** Lines 165-167 read the sizes of the two semester groups from the map, 0 for a missing one. */
  lemma RowOfGrouped(core: seq<Subject>, grouped: map<GroupKey, seq<Subject>>, y: int)
    requires forall k :: k in grouped ==> grouped[k] == GroupOf(core, k)
    requires forall k :: k !in grouped ==> GroupOf(core, k) == []
    ensures AnnualRow(core, y) ==
      var first := if GroupKey(y, 1) in grouped then |grouped[GroupKey(y, 1)]| else 0;
      var second := if GroupKey(y, 2) in grouped then |grouped[GroupKey(y, 2)]| else 0;
      if first < second then second else first
  {
    assert |GroupOf(core, GroupKey(y, 1))| == if GroupKey(y, 1) in grouped then |grouped[GroupKey(y, 1)]| else 0;
    assert |GroupOf(core, GroupKey(y, 2))| == if GroupKey(y, 2) in grouped then |grouped[GroupKey(y, 2)]| else 0;
  }

  method PlaceAnnual(annual: seq<Subject>, core: seq<Subject>, years: seq<int>,
                     annualGrouped: map<int, seq<Subject>>, grouped: map<GroupKey, seq<Subject>>)
    returns (block: seq<Node>)
    requires forall y :: y in years ==> y in annualGrouped && annualGrouped[y] == YearGroup(annual, y)
    requires forall k :: k in grouped ==> grouped[k] == GroupOf(core, k)
    requires forall k :: k !in grouped ==> GroupOf(core, k) == []
    ensures block == AnnualNodes(annual, core, years)
  {
    block := [];
    for i := 0 to |years|
      invariant block == AnnualNodes(annual, core, years[..i])
    {
      var y := years[i];
      var first := if GroupKey(y, 1) in grouped then |grouped[GroupKey(y, 1)]| else 0;
      var second := if GroupKey(y, 2) in grouped then |grouped[GroupKey(y, 2)]| else 0;
      var row := if first < second then second else first;
      RowOfGrouped(core, grouped, y);
      var group := PlaceGroup(annualGrouped[y], StartX + AnnualColumn(y) * ColumnWidth, row);
      ConcatStep(AnnualBlock(annual, core), years, i);
      assert group == AnnualBlock(annual, core)(y);
      block := block + group;
    }
    assert years[..|years|] == years;
  }

  // ---------------------------------------------------------------------------------------------
  // Electives: columns of six to the right of the last semester.

  /** `Math.max(...coreSubjects.map(s => Number(s.Year)))`, or 0 with no regular subjects. */
  function MaxYear(core: seq<Subject>): (m: int)
    ensures core == [] ==> m == 0
    ensures forall x :: x in core ==> YearOf(x) <= m
    ensures core != [] ==> exists x :: x in core && YearOf(x) == m
  {
    if core == [] then 0
    else if |core| == 1 then YearOf(core[0])
    else
      var m := MaxYear(core[1..]);
      assert forall x :: x in core <==> x == core[0] || x in core[1..] by {
        assert core == [core[0]] + core[1..];
      }
      Max(YearOf(core[0]), m)
  }

  function ElectiveNodes(electives: seq<Subject>, maxYear: int): (r: seq<Node>)
    ensures |r| == |electives|
  {
    seq(|electives|, i requires 0 <= i < |electives| =>
      Place(electives[i], StartX + (2 * maxYear + 1 + i / SlotsPerColumn) * ColumnWidth,
        StartY + (i % SlotsPerColumn) * RowHeight, true))
  }

  method PlaceElectives(electives: seq<Subject>, maxYear: int) returns (block: seq<Node>)
    ensures block == ElectiveNodes(electives, maxYear)
  {
    block := [];
    if |electives| > 0 {
      var baseColumn := 2 * maxYear + 1;
      for i := 0 to |electives|
        invariant |block| == i
        invariant forall j :: 0 <= j < i ==> block[j] == ElectiveNodes(electives, maxYear)[j]
      {
        var column := baseColumn + i / SlotsPerColumn;
        var row := i % SlotsPerColumn;
        block := block + [Place(electives[i], StartX + column * ColumnWidth, StartY + row * RowHeight, true)];
      }
    }
  }

  // ---------------------------------------------------------------------------------------------
  // The status pass and the whole layout.

  /** One node after the last pass: committed statuses stay, the rest are derived against `nodes`. */
  function Recompute(n: Node, nodes: seq<Node>): Node {
    if Committed(n.status) then n else n.(status := CalculateAvailableStatus(n, nodes))
  }

  /** The last pass as if every node were checked against the list before the pass. */
  function RecomputeAll(nodes: seq<Node>): (r: seq<Node>)
    ensures |r| == |nodes|
  {
    seq(|nodes|, i requires 0 <= i < |nodes| => Recompute(nodes[i], nodes))
  }

  /** Statuses that agree, or are both uncommitted, meet the same conditions. */
  predicate SameStanding(a: seq<Node>, b: seq<Node>) {
    SameIds(a, b) &&
    forall k :: 0 <= k < |a| ==> a[k].status == b[k].status || (!Committed(a[k].status) && !Committed(b[k].status))
  }

  lemma SameStandingRaised(a: seq<Node>, b: seq<Node>)
    requires SameStanding(a, b)
    ensures Raised(a, b) && Raised(b, a)
  {
  }

  /** The pass only rewrites uncommitted statuses into uncommitted statuses. */
  lemma RecomputeAllStanding(nodes: seq<Node>)
    ensures SameStanding(nodes, RecomputeAll(nodes))
  {
  }

  /** The list during the in-place pass: the first `i` nodes are recomputed, the rest untouched. */
  ghost predicate PassedUpTo(cur: seq<Node>, placed: seq<Node>, i: nat) {
    && |cur| == |placed| && i <= |cur|
    && (forall k :: 0 <= k < i ==> cur[k] == Recompute(placed[k], placed))
    && (forall k :: i <= k < |cur| ==> cur[k] == placed[k])
  }

  /** Half way through the in-place pass, the list still meets the same conditions as before it,
      so recomputing the next node against it gives what the pass over the original list gives. */
  lemma PassStep(cur: seq<Node>, placed: seq<Node>, i: nat)
    requires PassedUpTo(cur, placed, i) && i < |cur|
    ensures PassedUpTo(cur[i := Recompute(cur[i], cur)], placed, i + 1)
  {
    assert SameStanding(cur, placed);
    SameStandingRaised(cur, placed);
    SameStandingSameStatus(cur[i], cur, placed);
  }

  lemma PassDone(cur: seq<Node>, placed: seq<Node>)
    requires PassedUpTo(cur, placed, |placed|)
    ensures cur == RecomputeAll(placed)
  {
  }

  /** Lines 230-235: `node.status = calculateAvailableStatus(node, nodes)` in place, so a node
      is checked against a list in which the nodes before it already carry derived statuses. The
      result is still the pass over the list as it was, since derived statuses meet nothing. */
  method FinalPass(placed: seq<Node>) returns (nodes: seq<Node>)
    ensures nodes == RecomputeAll(placed)
  {
    var a := new Node[|placed|](i requires 0 <= i < |placed| => placed[i]);
    assert a[..] == placed;
    for i := 0 to a.Length
      invariant a.Length == |placed|
      invariant PassedUpTo(a[..], placed, i)
    {
      ghost var cur := a[..];
      PassStep(cur, placed, i);
      if !Committed(a[i].status) {
        a[i] := a[i].(status := CalculateAvailableStatus(a[i], a[..]));
      }
      assert a[..] == cur[i := Recompute(cur[i], cur)];
    }
    nodes := a[..];
    PassDone(nodes, placed);
  }

  /** The nodes in push order, before the status pass. */
  function Placed(subjects: seq<Subject>): seq<Node> {
    var core := Filter(subjects, IsCore);
    var annual := Filter(subjects, IsAnnual);
    IngressNodes(Filter(subjects, IsIngress)) +
    RegularNodes(core, SortKeys(KeysOf(core))) +
    AnnualNodes(annual, core, SortYears(YearsOf(annual))) +
    ElectiveNodes(Filter(subjects, IsElective), MaxYear(core))
  }

  /** What `calculateLayout` returns. */
  function Layout(subjects: seq<Subject>): seq<Node> {
    RecomputeAll(Placed(subjects))
  }

  method CalculateLayout(subjects: seq<Subject>) returns (nodes: seq<Node>)
    ensures nodes == Layout(subjects)
  {
    var ingress := Filter(subjects, IsIngress);
    var annual := Filter(subjects, IsAnnual);
    var core := Filter(subjects, IsCore);
    var keys, grouped := GroupCore(core);
    var years, annualGrouped := GroupAnnual(annual);
    forall k | k !in grouped ensures GroupOf(core, k) == [] {
      GroupOfNone(core, k);
    }
    var ingressBlock := PlaceIngress(ingress);
    var regularBlock := PlaceRegular(core, SortKeys(keys), grouped);
    var annualBlock := PlaceAnnual(annual, core, SortYears(years), annualGrouped, grouped);
    var electives := Filter(subjects, IsElective);
    var electiveBlock := PlaceElectives(electives, MaxYear(core));
    nodes := FinalPass(ingressBlock + regularBlock + annualBlock + electiveBlock);
  }
}
