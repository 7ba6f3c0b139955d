/** The upload route, app/api/parse-plan/route.ts: it reads a student's Excel report row by row
    into courses (name, ID, year, semester, credits, status, grade) and merges them into the
    template plan of the chosen career, which keeps the prerequisites. */
module UploadRoute {
  import opened Wrappers
  import opened Types
  import opened Strings
  import opened CoursePattern

  // ---------------------------------------------------------------------------------------------
  // `detectStudentName` (lines 41-49)

  /** Index of the first cell containing `t`. */
  function FirstCellWith(row: seq<string>, t: string): (r: Option<nat>)
    ensures r.Some? ==> r.value < |row|
  {
    if row == [] then None
    else if Contains(row[0], t) then Some(0)
    else match FirstCellWith(row[1..], t)
      case None => None
      case Some(k) => Some(k + 1)
  }

  lemma {:induction false} FirstCellWithSpec(row: seq<string>, t: string)
    ensures FirstCellWith(row, t).None? ==> forall j :: 0 <= j < |row| ==> !Contains(row[j], t)
    ensures FirstCellWith(row, t).Some? ==>
      Contains(row[FirstCellWith(row, t).value], t) &&
      forall j :: 0 <= j < FirstCellWith(row, t).value ==> !Contains(row[j], t)
  {
    if row != [] && !Contains(row[0], t) {
      FirstCellWithSpec(row[1..], t);
      assert forall j :: 1 <= j < |row| ==> row[j] == row[1..][j - 1];
    }
  }

  /** `cell.split(':', 2)[1].trim()`: the text between the first and the second colon. */
  function BetweenColons(cell: string): string {
    match IndexOf(cell, ":")
    case None => ""
    case Some(_) => Trim(Split(cell, ":")[1])
  }

  /** The name in the first cell of the row that contains "Alumno:", or "" when there is none.
      It never holds a colon, and a non-empty name comes from a cell containing "Alumno:". */
  function DetectStudentName(row: seq<string>): (r: string)
    ensures NoChar(r, ':')
    ensures r != "" ==> exists j :: 0 <= j < |row| && Contains(row[j], "Alumno:")
  {
    match FirstCellWith(row, "Alumno:")
    case None => ""
    case Some(j) =>
      FirstCellWithSpec(row, "Alumno:");
      BetweenColonsNoColon(row[j]);
      BetweenColons(row[j])
  }

  lemma NoCharOfNotContains(s: string, c: char)
    requires !Contains(s, [c])
    ensures NoChar(s, c)
  {
    forall i | 0 <= i < |s| ensures s[i] != c {
      if s[i] == c {
        ContainsAt(s, [c], i);
      }
    }
  }

  /** Because of the split, the text read from a cell never contains a colon. */
  lemma BetweenColonsNoColon(cell: string)
    ensures NoChar(BetweenColons(cell), ':')
  {
    match IndexOf(cell, ":")
    case None =>
    case Some(_) =>
      SplitPiecesAvoidSeparator(cell, ":", 1);
      NoCharOfNotContains(Split(cell, ":")[1], ':');
      TrimNoChar(Split(cell, ":")[1], ':');
  }

  /** So a detected name never contains a colon: "Alumno: Pérez: Juan" gives "Pérez". */
  lemma StudentNameHasNoColon(row: seq<string>)
    ensures NoChar(DetectStudentName(row), ':')
  {
    match FirstCellWith(row, "Alumno:")
    case None =>
    case Some(j) => BetweenColonsNoColon(row[j]);
  }

  // ---------------------------------------------------------------------------------------------
  // `parseSubjectStatus` (lines 52-82)

  /** Index of the first decimal digit. */
  function FirstDigit(s: string): (r: Option<nat>)
    ensures r.Some? ==> r.value < |s| && IsDigit(s[r.value])
  {
    if s == [] then None
    else if IsDigit(s[0]) then Some(0)
    else match FirstDigit(s[1..])
      case None => None
      case Some(k) => Some(k + 1)
  }

  lemma {:induction false} FirstDigitSpec(s: string)
    ensures FirstDigit(s).None? ==> forall j :: 0 <= j < |s| ==> !IsDigit(s[j])
    ensures FirstDigit(s).Some? ==> forall j :: 0 <= j < FirstDigit(s).value ==> !IsDigit(s[j])
  {
    if s != [] && !IsDigit(s[0]) {
      FirstDigitSpec(s[1..]);
      assert forall j :: 1 <= j < |s| ==> s[j] == s[1..][j - 1];
    }
  }

/** A number `\d+(\.\d+)?` split at its point: the whole digits and the fraction digits, the
      latter empty when there is no point. */
  datatype Decimal = Decimal(whole: string, fraction: string)

  /** How the number is written. */
  function DecimalText(d: Decimal): string {
    if d.fraction == [] then d.whole else d.whole + "." + d.fraction
  }

  /** The first match of `(\d+(?:\.\d+)?)`: it starts at the leftmost digit. */
  function GradeToken(s: string): (r: Option<Decimal>)
    ensures r.Some? ==> r.value.whole != [] && AllDigits(r.value.whole) && AllDigits(r.value.fraction)
  {
    match FirstDigit(s)
    case None => None
    case Some(i) => Some(TokenAt(s[i..]))
  }

  /** The number at the start of `t`: as many digits as there are, and the fraction when a digit
      follows the point. */
  function TokenAt(t: string): (d: Decimal)
    requires t != [] && IsDigit(t[0])
    ensures d.whole != [] && AllDigits(d.whole) && AllDigits(d.fraction)
  {
    var k := LeadingDigits(t);
    if k + 1 < |t| && t[k] == '.' && IsDigit(t[k + 1]) then
      var u := t[k + 1..];
      Decimal(t[..k], u[..LeadingDigits(u)])
    else
      Decimal(t[..k], [])
  }

  /** The number is written at the start of the text and cannot be extended: no digit follows
      it, nor a point and a digit after a whole number. */
  lemma TokenAtSpec(t: string)
    requires t != [] && IsDigit(t[0])
    ensures IsPrefix(DecimalText(TokenAt(t)), t)
    ensures |DecimalText(TokenAt(t))| == |t| || !IsDigit(t[|DecimalText(TokenAt(t))|])
    ensures TokenAt(t).fraction == [] ==>
      var n := |DecimalText(TokenAt(t))|; !(n + 1 < |t| && t[n] == '.' && IsDigit(t[n + 1]))
  {
    var k := LeadingDigits(t);
    if k + 1 < |t| && t[k] == '.' && IsDigit(t[k + 1]) {
      var u := t[k + 1..];
      var f := LeadingDigits(u);
      FractionText(t, k, u);
      assert f != 0;
      assert TokenAt(t) == Decimal(t[..k], u[..f]);
      assert DecimalText(TokenAt(t)) == t[..k + 1 + f];
    } else {
      assert TokenAt(t) == Decimal(t[..k], []);
      assert DecimalText(TokenAt(t)) == t[..k];
    }
  }

  lemma FractionText(t: string, k: nat, u: string)
    requires k + 1 < |t| && t[k] == '.' && u == t[k + 1..]
    ensures var f := LeadingDigits(u);
      (t[..k] + "." + u[..f]) == t[..k + 1 + f] && (k + 1 + f == |t| || t[k + 1 + f] == u[f])
  {
    var f := LeadingDigits(u);
    var w := t[..k] + "." + u[..f];
    assert forall j :: 0 <= j < k + 1 + f ==> w[j] == t[j];
  }

  function Pow10(n: nat): (r: nat)
    ensures r >= 1
  {
    if n == 0 then 1 else 10 * Pow10(n - 1)
  }

  /** The exact value of a number. */
  function DecimalValue(d: Decimal): real
    requires AllDigits(d.whole) && AllDigits(d.fraction)
  {
    DigitsValue(d.whole) as real + DigitsValue(d.fraction) as real / Pow10(|d.fraction|) as real
  }

  /** The grade in a "nota" cell, when it holds a number. */
  function GradeOf(nota: string): Option<real> {
    match GradeToken(nota)
    case None => None
    case Some(t) => Some(DecimalValue(t))
  }

  /** A status with the grade read alongside it. */
  datatype Parsed = Parsed(status: Status, grade: Option<real>)

  /** The rules in order: "en curso" in the nota or the origin, then "regularidad" in the origin,
      then "aprobado" or "promocionado" in the nota, then "desaprobada" or "desaprobado"; all
      compared lower-cased after trimming. */
  function ParseSubjectStatus(notaStr: string, origenStr: string): (r: Parsed)
    ensures r.grade.Some? ==> r.status == Aprobada
    ensures r.status == Cursando || r.status == EnFinal || r.status == Aprobada ||
            r.status == Desaprobada || r.status == Disponible
  {
    var nota := Trim(notaStr);
    var origen := Trim(origenStr);
    var notaLower := ToLower(nota);
    var origenLower := ToLower(origen);
    if Contains(notaLower, "en curso") || Contains(origenLower, "en curso") then Parsed(Cursando, None)
    else if Contains(origenLower, "regularidad") then Parsed(EnFinal, None)
    else if Contains(notaLower, "aprobado") || Contains(notaLower, "promocionado") then Parsed(Aprobada, GradeOf(nota))
    else if Contains(notaLower, "desaprobada") || Contains(notaLower, "desaprobado") then Parsed(Desaprobada, None)
    else Parsed(Disponible, None)
  }

  /** "desaprobado" contains "aprobado". */
  lemma DesaprobadoContainsAprobado(s: string)
    requires Contains(s, "desaprobado")
    ensures Contains(s, "aprobado")
  {
    ContainsAt("desaprobado", "aprobado", 3);
    ContainsTrans(s, "desaprobado", "aprobado");
  }

  /** A failed mark spelled "Desaprobado" is read as approved: the "aprobado" test comes first. */
  lemma DesaprobadoReadsApproved(nota: string, origen: string)
    requires Contains(ToLower(Trim(nota)), "desaprobado")
    requires !Contains(ToLower(Trim(nota)), "en curso") && !Contains(ToLower(Trim(origen)), "en curso")
    requires !Contains(ToLower(Trim(origen)), "regularidad")
    ensures ParseSubjectStatus(nota, origen).status == Aprobada
  {
    DesaprobadoContainsAprobado(ToLower(Trim(nota)));
  }

  /** So DESAPROBADA comes only from the feminine spelling, with no "desaprobado" (nor
      "aprobado") anywhere in the nota. */
  lemma DesaprobadaNeedsFeminine(nota: string, origen: string)
    requires ParseSubjectStatus(nota, origen).status == Desaprobada
    ensures Contains(ToLower(Trim(nota)), "desaprobada")
    ensures !Contains(ToLower(Trim(nota)), "desaprobado")
  {
    if Contains(ToLower(Trim(nota)), "desaprobado") {
      DesaprobadoContainsAprobado(ToLower(Trim(nota)));
    }
  }

  /** A grade is read only for an approved subject, and then exactly when the nota holds a digit. */
  lemma GradeOnlyWhenApproved(nota: string, origen: string)
    requires ParseSubjectStatus(nota, origen).status == Aprobada
    ensures ParseSubjectStatus(nota, origen).grade.Some? <==> exists j :: 0 <= j < |Trim(nota)| && IsDigit(Trim(nota)[j])
  {
    FirstDigitSpec(Trim(nota));
  }

  /** The value read from a nota whose only number is the whole number `n`, such as
      "Aprobado (8)", is `n`. */
  lemma GradeOfWholeNumber(pre: string, n: nat, post: string)
    requires forall j :: 0 <= j < |pre| ==> !IsDigit(pre[j])
    requires post == [] || (!IsDigit(post[0]) && post[0] != '.')
    ensures GradeOf(pre + NatToString(n) + post) == Some(n as real)
  {
    var d := NatToString(n);
    var s := pre + d + post;
    FirstDigitOf(pre, d + post);
    assert s == pre + (d + post);
    assert s[|pre|..] == d + post;
    LeadingDigitsOf(d, post);
    assert (d + post)[..|d|] == d;
    assert TokenAt(s[|pre|..]) == Decimal(d, []);
    DigitsValueOfNatToString(n);
  }

  lemma {:induction false} FirstDigitOf(pre: string, rest: string)
    requires forall j :: 0 <= j < |pre| ==> !IsDigit(pre[j])
    requires rest != [] && IsDigit(rest[0])
    ensures FirstDigit(pre + rest) == Some(|pre|)
  {
    if pre != [] {
      assert (pre + rest)[1..] == pre[1..] + rest;
      FirstDigitOf(pre[1..], rest);
    } else {
      assert pre + rest == rest;
    }
  }

  lemma {:induction false} LeadingDigitsOf(d: string, post: string)
    requires forall j :: 0 <= j < |d| ==> IsDigit(d[j])
    requires post == [] || !IsDigit(post[0])
    ensures LeadingDigits(d + post) == |d|
  {
    if d != [] {
      assert (d + post)[1..] == d[1..] + post;
      LeadingDigitsOf(d[1..], post);
    } else {
      assert d + post == post;
    }
  }

  // ---------------------------------------------------------------------------------------------
  // `isCoreModule_` (lines 85-90) and `calculateSemester` (lines 93-100)

  const YearPatterns: seq<string> :=
    ["1ER. A\U{00D1}O", "2DO. A\U{00D1}O", "3ER. A\U{00D1}O", "4TO. A\U{00D1}O", "5TO. A\U{00D1}O"]

  /** A module header belongs to the core curriculum when, upper-cased, it names one of the five
      years. */
  function IsCoreModule(header: string): (r: bool)
    ensures header == "" ==> !r
  {
    header != "" && exists i :: 0 <= i < |YearPatterns| && Contains(ToUpper(header), YearPatterns[i])
  }

  lemma UpperOfLower(c: char)
    ensures UpperChar(LowerChar(c)) == UpperChar(c)
  {
  }

  /** The test ignores case: a header and its lower-cased form are classified alike. */
  lemma IsCoreModuleIgnoresCase(header: string)
    ensures IsCoreModule(ToLower(header)) == IsCoreModule(header)
  {
    forall i | 0 <= i < |header| ensures ToUpper(ToLower(header))[i] == ToUpper(header)[i] {
      UpperOfLower(header[i]);
    }
    assert ToUpper(ToLower(header)) == ToUpper(header);
  }

  /** A header naming, say, the third year in any case is core. */
  lemma YearHeaderIsCore(header: string, i: nat, y: nat)
    requires y < 5 && i + |YearPatterns[y]| <= |header|
    requires ToUpper(header[i..i + |YearPatterns[y]|]) == YearPatterns[y]
    ensures IsCoreModule(header)
  {
    var u := ToUpper(header);
    var p := YearPatterns[y];
    assert u[i..i + |p|] == ToUpper(header[i..i + |p|]);
    ContainsAt(u, p, i);
  }

  /** Empty or "ANUAL" (in any case) means an annual subject; otherwise "1C" gives semester 1,
      "2C" semester 2, and anything else semester 1. */
  function CalculateSemester(year: string, period: string): (r: Option<nat>)
    ensures r.None? <==> (period == "" || ToUpper(period) == "ANUAL")
    ensures r.Some? ==> (r.value == 2 <==> !Contains(period, "1C") && Contains(period, "2C"))
    ensures r.Some? ==> r.value == 1 || r.value == 2
  {
    if period == "" || ToUpper(period) == "ANUAL" then None
    else if Contains(period, "1C") then Some(1)
    else if Contains(period, "2C") then Some(2)
    else Some(1)
  }

  // ---------------------------------------------------------------------------------------------
  // `parseInt(year)` (line 169)

  predicate IsHexDigit(c: char) {
    IsDigit(c) || 'a' <= c <= 'f' || 'A' <= c <= 'F'
  }

  function HexDigitValue(c: char): nat
    requires IsHexDigit(c)
  {
    if IsDigit(c) then c as int - '0' as int
    else if 'a' <= c <= 'f' then c as int - 'a' as int + 10
    else c as int - 'A' as int + 10
  }

  function LeadingHexDigits(s: string): (k: nat)
    ensures k <= |s| && forall i :: 0 <= i < k ==> IsHexDigit(s[i])
  {
    if s != [] && IsHexDigit(s[0]) then 1 + LeadingHexDigits(s[1..]) else 0
  }

  function HexValue(s: string): nat
    requires forall i :: 0 <= i < |s| ==> IsHexDigit(s[i])
  {
    if s == [] then 0 else HexValue(s[..|s| - 1]) * 16 + HexDigitValue(s[|s| - 1])
  }

  /** The unsigned part of `parseInt`: hexadecimal digits after "0x" or "0X", else decimal
      digits, as many as there are; `None` when no digit follows. */
  function Magnitude(u: string): Option<nat> {
    if |u| >= 2 && u[0] == '0' && (u[1] == 'x' || u[1] == 'X') then
      var k := LeadingHexDigits(u[2..]);
      if k == 0 then None else Some(HexValue(u[2..][..k]))
    else
      var k := LeadingDigits(u);
      if k == 0 then None else Some(DigitsValue(u[..k]))
  }

  /** JavaScript's `parseInt` without a radix: leading white space, an optional sign, then the
      magnitude; `None` is NaN. */
  function JsParseInt(s: string): (r: Option<int>) {
    var t := TrimStart(s);
    var negative := t != [] && t[0] == '-';
    var u := if t != [] && (t[0] == '-' || t[0] == '+') then t[1..] else t;
    match Magnitude(u)
    case None => None
    case Some(m) => var v: int := m; Some(if negative then -v else v)
  }

  /** Text that starts with a digit is read without sign or white space. */
  lemma JsParseIntOfDigitFirst(s: string)
    requires s != [] && IsDigit(s[0])
    ensures JsParseInt(s) == match Magnitude(s) case None => None case Some(m) => Some(m as int)
  {
    TrimStartOfNonSpace(s);
  }

  /** Decimal text whose second character is a digit has no hexadecimal prefix. */
  lemma MagnitudeOfDecimal(d: string, post: string)
    requires d != [] && forall i :: 0 <= i < |d| ==> IsDigit(d[i])
    requires post == [] || !IsDigit(post[0])
    requires |d| >= 2 || post == [] || (post[0] != 'x' && post[0] != 'X') || d[0] != '0'
    ensures Magnitude(d + post) == Some(DigitsValue(d))
  {
    LeadingDigitsOf(d, post);
    assert (d + post)[..|d|] == d;
  }

  /** A plain run of decimal digits reads as its value. */
  lemma JsParseIntOfDigits(s: string)
    requires s != [] && forall i :: 0 <= i < |s| ==> IsDigit(s[i])
    ensures JsParseInt(s) == Some(DigitsValue(s))
  {
    assert s + [] == s;
    MagnitudeOfDecimal(s, []);
    JsParseIntOfDigitFirst(s);
  }

  /** Only the leading digits count: "2do" reads as 2. */
  lemma JsParseIntStopsAtLetter(d: string, post: string)
    requires d != [] && d[0] != '0' && forall i :: 0 <= i < |d| ==> IsDigit(d[i])
    requires post == [] || !IsDigit(post[0])
    ensures JsParseInt(d + post) == Some(DigitsValue(d))
  {
    MagnitudeOfDecimal(d, post);
    JsParseIntOfDigitFirst(d + post);
  }

  /** `year && !isNaN(parseInt(year)) ? parseInt(year) : 1`. */
  function YearValue(year: string): (y: int)
    ensures JsParseInt(year).None? ==> y == 1
  {
    if year != "" && JsParseInt(year).Some? then JsParseInt(year).value else 1
  }

  // ---------------------------------------------------------------------------------------------
  // The row loop (lines 103-177)

  /** What the route keeps of a course row. */
  datatype ExtractedCourse = ExtractedCourse(
    course: string,
    id: string,
    year: int,
    semester: Option<nat>,
    credits: string,
    status: Status,
    grade: Option<real>)

  /** `.trim()` for every cell. The rows are the texts `String(cell || '')` makes of the sheet's
      raw cells, so a blank cell, a numeric 0 and `false` all arrive here as the empty text. */
  function TrimCells(row: seq<string>): (r: seq<string>)
    ensures |r| == |row| && forall i :: 0 <= i < |row| ==> r[i] == Trim(row[i])
  {
    seq(|row|, i requires 0 <= i < |row| => Trim(row[i]))
  }

  /** `cells[i] || ''`. */
  function Cell(cells: seq<string>, i: nat): string {
    if i < |cells| then cells[i] else ""
  }

  /** The course of a row whose first cell reads `name (id)` (lines 133-174): columns 2 to 6
      hold the year, period, nota, origin and credits; credits default to "0.00". */
  function RowCourse(cells: seq<string>): (r: Option<ExtractedCourse>)
    ensures r.Some? ==> r.value.credits != "" && r.value.credits != "nan"
    ensures r.Some? ==> r.value.grade.Some? ==> r.value.status == Aprobada
  {
    var actividad := Cell(cells, 0);
    if actividad == "" || actividad == "nan" then None
    else match NameAndId(actividad, true, JavaScript)
      case None => None
      case Some((name, id)) =>
        var year := Cell(cells, 2);
        var parsed := ParseSubjectStatus(Cell(cells, 4), Cell(cells, 5));
        var credits := Cell(cells, 6);
        Some(ExtractedCourse(
          name, id, YearValue(year), CalculateSemester(year, Cell(cells, 3)),
          if credits != "" && credits != "nan" then credits else "0.00",
          parsed.status, parsed.grade))
  }

  /** The variables the loop carries. */
  datatype RouteState = RouteState(
    studentName: string, currentModule: Option<string>, isCore: bool, courses: seq<ExtractedCourse>)

  const Start: RouteState := RouteState("", None, false, [])

  const ModuleTag: string := "M\U{00D3}DULO:"

  /** A module header row: its first cell, upper-cased, contains "MÓDULO:". */
  predicate IsModuleHeader(cells: seq<string>) {
    |cells| > 0 && Contains(ToUpper(cells[0]), ModuleTag)
  }

  /** One turn of the loop. Until a name is found, a row naming the student sets it and is
      skipped; a module header sets the module; "Actividad" header rows and rows before any
      module are skipped; a course row of a core module is appended. */
  function Step(st: RouteState, row: seq<string>): RouteState {
    var cells := TrimCells(row);
    var found := DetectStudentName(row);
    if st.studentName == "" && found != "" then st.(studentName := found)
    else if IsModuleHeader(cells) then st.(currentModule := Some(cells[0]), isCore := IsCoreModule(cells[0]))
    else if |cells| > 0 && Contains(cells[0], "Actividad") then st
    else if st.currentModule.None? || st.currentModule.value == "" || |cells| == 0 then st
    else AddCourse(st, cells)
  }

  /** A row that reached the course test: its course is appended when it has one and the module
      is a core module. */
  function AddCourse(st: RouteState, cells: seq<string>): RouteState {
    match RowCourse(cells)
    case None => st
    case Some(c) => if st.isCore then st.(courses := st.courses + [c]) else st
  }

  /** The state after the rows, in order. */
  function Scan(rows: seq<seq<string>>): RouteState {
    if rows == [] then Start else Step(Scan(rows[..|rows| - 1]), rows[|rows| - 1])
  }

  /** The loop of the route. */
  method ExtractCourses(rows: seq<seq<string>>) returns (studentName: string, courses: seq<ExtractedCourse>)
    ensures studentName == Scan(rows).studentName
    ensures courses == Scan(rows).courses
  {
    studentName := "";
    courses := [];
    var currentModule: Option<string> := None;
    var isCoreModule := false;
    for i := 0 to |rows|
      invariant RouteState(studentName, currentModule, isCoreModule, courses) == Scan(rows[..i])
    {
      assert rows[..i + 1][..i] == rows[..i];
      var row := rows[i];
      ghost var st := RouteState(studentName, currentModule, isCoreModule, courses);
      assert Scan(rows[..i + 1]) == Step(st, row);
      var cells := TrimCells(row);
      if studentName == "" {
        var foundName := DetectStudentName(row);
        if foundName != "" {
          studentName := foundName;
          continue;
        }
      }
      if |cells| > 0 && Contains(ToUpper(cells[0]), ModuleTag) {
        currentModule := Some(cells[0]);
        isCoreModule := IsCoreModule(cells[0]);
        continue;
      }
      if |cells| > 0 && Contains(cells[0], "Actividad") {
        continue;
      }
      if currentModule.None? || currentModule.value == "" || |cells| == 0 {
        continue;
      }
      var course := RowCourse(cells);
      if course.None? {
        continue;
      }
      if !isCoreModule {
        continue;
      }
      courses := courses + [course.value];
    }
    assert rows[..|rows|] == rows;
  }

  /** At most one course per row. */
  lemma {:induction false} ScanCount(rows: seq<seq<string>>)
    ensures |Scan(rows).courses| <= |rows|
  {
    if rows != [] {
      ScanCount(rows[..|rows| - 1]);
    }
  }

  /** What one turn does to the name: it is set once, from the first row that yields one. */
  lemma StepName(st: RouteState, row: seq<string>)
    ensures Step(st, row).studentName ==
      if st.studentName == "" && DetectStudentName(row) != "" then DetectStudentName(row) else st.studentName
  {
  }

  /** The name of the first row that yields one, or "". */
  function FirstName(rows: seq<seq<string>>): string {
    if rows == [] then ""
    else if FirstName(rows[..|rows| - 1]) != "" then FirstName(rows[..|rows| - 1])
    else DetectStudentName(rows[|rows| - 1])
  }

  lemma {:induction false} ScanNameIsFirst(rows: seq<seq<string>>)
    ensures Scan(rows).studentName == FirstName(rows)
  {
    if rows != [] {
      var init := rows[..|rows| - 1];
      ScanNameIsFirst(init);
      StepName(Scan(init), rows[|rows| - 1]);
    }
  }

  /** The student name is "" exactly when no row yields one. */
  lemma {:induction false} FirstNameEmpty(rows: seq<seq<string>>)
    ensures FirstName(rows) == "" <==> forall j :: 0 <= j < |rows| ==> DetectStudentName(rows[j]) == ""
  {
    if rows != [] {
      var init := rows[..|rows| - 1];
      FirstNameEmpty(init);
      assert forall j :: 0 <= j < |init| ==> init[j] == rows[j];
    }
  }

  /** Otherwise it is the name of the first row that yields one. */
  lemma {:induction false} FirstNameFirst(rows: seq<seq<string>>)
    requires FirstName(rows) != ""
    ensures exists j :: 0 <= j < |rows| && DetectStudentName(rows[j]) == FirstName(rows) &&
                        forall i :: 0 <= i < j ==> DetectStudentName(rows[i]) == ""
  {
    var init := rows[..|rows| - 1];
    assert forall j :: 0 <= j < |init| ==> init[j] == rows[j];
    if FirstName(init) != "" {
      FirstNameFirst(init);
      var j :| 0 <= j < |init| && DetectStudentName(init[j]) == FirstName(init) &&
        forall i :: 0 <= i < j ==> DetectStudentName(init[i]) == "";
      assert DetectStudentName(rows[j]) == FirstName(rows);
    } else {
      FirstNameEmpty(init);
      assert DetectStudentName(rows[|rows| - 1]) == FirstName(rows);
    }
  }

  /** The route's student name: the first non-empty name a row yields, "" when none does. */
  lemma ScanName(rows: seq<seq<string>>)
    ensures Scan(rows).studentName == "" <==> forall j :: 0 <= j < |rows| ==> DetectStudentName(rows[j]) == ""
    ensures Scan(rows).studentName != "" ==>
      exists j :: 0 <= j < |rows| && DetectStudentName(rows[j]) == Scan(rows).studentName &&
                  forall i :: 0 <= i < j ==> DetectStudentName(rows[i]) == ""
  {
    ScanNameIsFirst(rows);
    FirstNameEmpty(rows);
    if FirstName(rows) != "" {
      FirstNameFirst(rows);
    }
  }

  /** Where the core flag comes from: it is set only by a module header whose text is core. */
  lemma {:induction false} ScanCore(rows: seq<seq<string>>)
    ensures Scan(rows).isCore ==>
      exists j :: 0 <= j < |rows| && IsModuleHeader(TrimCells(rows[j])) && IsCoreModule(TrimCells(rows[j])[0])
  {
    if rows != [] {
      var init := rows[..|rows| - 1];
      ScanCore(init);
      assert forall j :: 0 <= j < |init| ==> init[j] == rows[j];
    }
  }

  /** Every course is read from a row under a core module. */
  lemma {:induction false} ScanCourses(rows: seq<seq<string>>, c: ExtractedCourse)
    requires c in Scan(rows).courses
    ensures exists j :: 0 <= j < |rows| && Scan(rows[..j]).isCore && RowCourse(TrimCells(rows[j])) == Some(c)
  {
    var init := rows[..|rows| - 1];
    assert forall j :: 0 <= j < |init| ==> init[j] == rows[j] && init[..j] == rows[..j];
    assert rows[..|rows| - 1] == init;
    if c in Scan(init).courses {
      ScanCourses(init, c);
    } else {
      StepCourses(Scan(init), rows[|rows| - 1]);
      assert Scan(rows[..|rows| - 1]).isCore && RowCourse(TrimCells(rows[|rows| - 1])) == Some(c);
    }
  }

  /** A turn of the loop keeps the courses or appends the row's course under a core module. */
  lemma StepCourses(st: RouteState, row: seq<string>)
    ensures Step(st, row).courses == st.courses ||
      (st.isCore && RowCourse(TrimCells(row)).Some? && Step(st, row).courses == st.courses + [RowCourse(TrimCells(row)).value])
  {
  }

  /** Rows before the first module header add no course. */
  lemma {:induction false} NoModuleNoCourses(rows: seq<seq<string>>)
    requires forall j :: 0 <= j < |rows| ==> !IsModuleHeader(TrimCells(rows[j]))
    ensures Scan(rows).currentModule.None? && Scan(rows).courses == []
  {
    if rows != [] {
      NoModuleNoCourses(rows[..|rows| - 1]);
    }
  }

  // ---------------------------------------------------------------------------------------------
  // The template merge (lines 194-227) and the response (lines 228-241)

  /** `extractedCourses.find(c => c.ID === id)`. */
  function FindCourse(courses: seq<ExtractedCourse>, id: string): (r: Option<ExtractedCourse>)
    ensures r.Some? ==> r.value in courses && r.value.id == id
  {
    if courses == [] then None
    else if courses[0].id == id then Some(courses[0])
    else FindCourse(courses[1..], id)
  }

  /** `k` is the first course with ID `id`. */
  predicate FirstCourse(courses: seq<ExtractedCourse>, k: int, id: string) {
    0 <= k < |courses| && courses[k].id == id && forall j :: 0 <= j < k ==> courses[j].id != id
  }

  lemma {:induction false} FindCourseSpec(courses: seq<ExtractedCourse>, id: string)
    ensures FindCourse(courses, id).None? ==> forall k :: 0 <= k < |courses| ==> courses[k].id != id
    ensures FindCourse(courses, id).Some? ==> exists k :: FirstCourse(courses, k, id) && FindCourse(courses, id) == Some(courses[k])
  {
    if courses != [] && courses[0].id != id {
      FindCourseSpec(courses[1..], id);
      assert forall k :: 1 <= k < |courses| ==> courses[k] == courses[1..][k - 1];
      if FindCourse(courses, id).Some? {
        var k :| FirstCourse(courses[1..], k, id) && FindCourse(courses[1..], id) == Some(courses[1..][k]);
        assert FirstCourse(courses, k + 1, id);
      }
    } else if courses != [] {
      assert FirstCourse(courses, 0, id);
    }
  }

  /** One template course: electives as they are; a course of the report takes its status and
      grade; an ingress course missing from the report is approved with a 10; any other missing
      course becomes DISPONIBLE. */
  function MergeCourse(template: Subject, extracted: seq<ExtractedCourse>): Subject {
    if template.year == ElectivesYear then template
    else match FindCourse(extracted, template.id)
      case Some(c) => template.(status := StatusName(c.status), grade := c.grade)
      case None =>
        if template.year == Num(0) then template.(status := "APROBADA", grade := Some(10.0))
        else template.(status := "DISPONIBLE")
  }

  function Merge(template: seq<Subject>, extracted: seq<ExtractedCourse>): (r: seq<Subject>)
    ensures |r| == |template|
  {
    seq(|template|, i requires 0 <= i < |template| => MergeCourse(template[i], extracted))
  }

  /** Merging keeps every template record but its status and grade, and sets those by the
      template course's kind and the first report course with its ID. */
  lemma MergeSpec(template: seq<Subject>, extracted: seq<ExtractedCourse>, i: nat)
    requires i < |template|
    ensures var t := template[i];
      var m := Merge(template, extracted)[i];
      m == t.(status := m.status, grade := m.grade) &&
      (t.year == ElectivesYear ==> m == t) &&
      (t.year != ElectivesYear ==>
        (forall k :: FirstCourse(extracted, k, t.id) ==>
          m.status == StatusName(extracted[k].status) && m.grade == extracted[k].grade) &&
        ((forall k :: 0 <= k < |extracted| ==> extracted[k].id != t.id) ==>
          if t.year == Num(0) then m.status == "APROBADA" && m.grade == Some(10.0)
          else m.status == "DISPONIBLE" && m.grade == t.grade))
  {
    var t := template[i];
    FindCourseSpec(extracted, t.id);
    if FindCourse(extracted, t.id).Some? {
      var k :| FirstCourse(extracted, k, t.id) && FindCourse(extracted, t.id) == Some(extracted[k]);
      forall k' | FirstCourse(extracted, k', t.id) ensures k' == k {
      }
    }
  }

  /** Merging the same report again changes nothing. */
  lemma MergeIdempotent(template: seq<Subject>, extracted: seq<ExtractedCourse>)
    ensures Merge(Merge(template, extracted), extracted) == Merge(template, extracted)
  {
  }

  /** Every merged record other than an elective carries one of the six status names, which the
      layout reads back as a status, when the report's statuses are named ones (as all statuses
      the row loop reads are). */
  lemma MergedStatusNamed(template: seq<Subject>, extracted: seq<ExtractedCourse>, i: nat)
    requires i < |template| && template[i].year != ElectivesYear
    requires forall k :: 0 <= k < |extracted| ==> !extracted[k].status.Other?
    ensures !StatusOf(Merge(template, extracted)[i].status).Other?
  {
    match FindCourse(extracted, template[i].id)
    case Some(c) =>
      StatusOfName(c.status);
    case None =>
  }

  /** A report course as a plan record, when no template is available. */
  function AsSubject(c: ExtractedCourse): Subject {
    Subject(c.course, c.id, Num(c.year), c.semester, Some(c.credits), None, None, None, None,
            StatusName(c.status), c.grade)
  }

  /** The response: the student name (absent when empty) and the merged plan, or the report's
      own courses when there is no template. */
  function Respond(rows: seq<seq<string>>, template: seq<Subject>): (r: (Option<string>, seq<Subject>))
    ensures |template| > 0 ==> |r.1| == |template| && forall i :: 0 <= i < |template| ==> r.1[i].id == template[i].id
    ensures |template| == 0 ==> |r.1| == |Scan(rows).courses|
  {
    var st := Scan(rows);
    var name := if st.studentName == "" then None else Some(st.studentName);
    if |template| > 0 then
      (name, Merge(template, st.courses))
    else
      (name, seq(|st.courses|, i requires 0 <= i < |st.courses| => AsSubject(st.courses[i])))
  }
}
