/** The command-line reader parse_plan_estudios.py: the same Excel report as the upload route,
    read into a student name and core-curriculum courses. It shares the route's helpers for the
    semester and the core-module test, and differs from it in the name search, the "en curso"
    test, the year and the activity pattern, which it does not anchor at the end. */
module PlanParserPy {
  import opened Wrappers
  import opened Types
  import opened Strings
  import opened CoursePattern
  import opened UploadRoute

  // ---------------------------------------------------------------------------------------------
  // `detect_student_name` (lines 44-51)

  /** `cell.split(':', 1)[1].strip() if ':' in cell else ''`: everything after the first colon. */
  function AfterColon(cell: string): string {
    match IndexOf(cell, ":")
    case None => ""
    case Some(k) => Trim(cell[k + 1..])
  }

  /** The name in the first cell of the row that contains "Alumno:", if any cell does. */
  function RowName(row: seq<string>): Option<string> {
    match FirstCellWith(row, "Alumno:")
    case None => None
    case Some(j) => Some(AfterColon(row[j]))
  }

  /** The name of the first row, in order, with a cell containing "Alumno:". */
  function NameSearch(rows: seq<seq<string>>): Option<string> {
    if rows == [] then None
    else match NameSearch(rows[..|rows| - 1])
      case Some(n) => Some(n)
      case None => RowName(rows[|rows| - 1])
  }

  /** The student name: "" when no cell contains "Alumno:". A non-empty name is that of the first
      row with such a cell. */
  function StudentName(rows: seq<seq<string>>): (r: string)
    ensures r != "" ==> exists j :: 0 <= j < |rows| && RowName(rows[j]) == Some(r) &&
                                    forall i :: 0 <= i < j ==> RowName(rows[i]).None?
  {
    match NameSearch(rows)
    case None => ""
    case Some(n) =>
      NameSearchFirst(rows);
      n
  }

  lemma {:induction false} FirstCellWithAt(row: seq<string>, t: string, j: nat)
    requires j < |row| && Contains(row[j], t)
    requires forall k :: 0 <= k < j ==> !Contains(row[k], t)
    ensures FirstCellWith(row, t) == Some(j)
  {
    if j > 0 {
      assert forall k :: 0 <= k < j - 1 ==> row[1..][k] == row[k + 1];
      FirstCellWithAt(row[1..], t, j - 1);
    }
  }

  lemma {:induction false} FirstCellWithNone(row: seq<string>, t: string)
    requires forall k :: 0 <= k < |row| ==> !Contains(row[k], t)
    ensures FirstCellWith(row, t).None?
  {
    if row != [] {
      assert forall k :: 0 <= k < |row| - 1 ==> row[1..][k] == row[k + 1];
      FirstCellWithNone(row[1..], t);
    }
  }

  /** Rows after the first name row do not change the name. */
  lemma {:induction false} NameSearchKeeps(a: seq<seq<string>>, b: seq<seq<string>>)
    requires NameSearch(a).Some?
    ensures NameSearch(a + b) == NameSearch(a)
  {
    if b != [] {
      assert (a + b)[..|a + b| - 1] == a + b[..|b| - 1];
      NameSearchKeeps(a, b[..|b| - 1]);
    } else {
      assert a + b == a;
    }
  }

  /** The nested loops of `detect_student_name`: rows in order, cells in order, the first cell
      containing "Alumno:" decides. */
  method FindStudentName(rows: seq<seq<string>>) returns (name: string)
    ensures name == StudentName(rows)
  {
    for i := 0 to |rows|
      invariant NameSearch(rows[..i]).None?
    {
      assert rows[..i + 1][..i] == rows[..i];
      var row := rows[i];
      for j := 0 to |row|
        invariant forall k :: 0 <= k < j ==> !Contains(row[k], "Alumno:")
      {
        if Contains(row[j], "Alumno:") {
          name := AfterColon(row[j]);
          FirstCellWithAt(row, "Alumno:", j);
          NameSearchKeeps(rows[..i + 1], rows[i + 1..]);
          assert rows[..i + 1] + rows[i + 1..] == rows;
          return;
        }
      }
      FirstCellWithNone(row, "Alumno:");
    }
    assert rows[..|rows|] == rows;
    name := "";
  }

  /** No name exactly when no row has a cell containing "Alumno:". */
  lemma {:induction false} NameSearchNone(rows: seq<seq<string>>)
    ensures NameSearch(rows).None? <==> forall j :: 0 <= j < |rows| ==> RowName(rows[j]).None?
  {
    if rows != [] {
      var init := rows[..|rows| - 1];
      NameSearchNone(init);
      assert forall j :: 0 <= j < |init| ==> init[j] == rows[j];
    }
  }

  /** Otherwise the name is that of the first such row, even when it is empty. */
  lemma {:induction false} NameSearchFirst(rows: seq<seq<string>>)
    requires NameSearch(rows).Some?
    ensures exists j :: 0 <= j < |rows| && RowName(rows[j]) == NameSearch(rows) &&
                        forall i :: 0 <= i < j ==> RowName(rows[i]).None?
  {
    var init := rows[..|rows| - 1];
    assert forall j :: 0 <= j < |init| ==> init[j] == rows[j];
    if NameSearch(init).Some? {
      NameSearchFirst(init);
      var j :| 0 <= j < |init| && RowName(init[j]) == NameSearch(init) &&
        forall i :: 0 <= i < j ==> RowName(init[i]).None?;
      assert RowName(rows[j]) == NameSearch(rows);
    } else {
      NameSearchNone(init);
      assert RowName(rows[|rows| - 1]) == NameSearch(rows);
    }
  }

  /** The first colon of a cell whose text before it has none. */
  lemma FirstColon(a: string, rest: string)
    requires NoChar(a, ':')
    ensures IndexOf(a + ":" + rest, ":") == Some(|a|)
    ensures (a + ":" + rest)[|a| + 1..] == rest
  {
    var cell := a + ":" + rest;
    assert cell == a + (":" + rest);
    assert IndexOfChar(":" + rest, ':') == Some(0);
    IndexOfOneChar(cell, ':');
    IndexOfCharAppend(a, ":" + rest, ':');
  }

  /** With a single colon in the name cell, the split with at most one cut and the route's split
      read the same name. */
  lemma OneColonAgrees(a: string, b: string)
    requires NoChar(a, ':') && NoChar(b, ':')
    ensures AfterColon(a + ":" + b) == Trim(b)
    ensures BetweenColons(a + ":" + b) == Trim(b)
  {
    var cell := a + ":" + b;
    FirstColon(a, b);
    IndexOfOneChar(b, ':');
    IndexOfCharSpec(b, ':');
    assert Split(b, ":") == [b];
    assert cell[..|a|] == a;
    assert Split(cell, ":") == [a] + Split(b, ":");
  }

  /** With a second colon, as in "Alumno: Pérez: Juan", the Python reader keeps it ("Pérez:
      Juan") and the route stops at it ("Pérez"). */
  lemma SecondColonDiffers(a: string, b: string, c: string)
    requires NoChar(a, ':')
    ensures !NoChar(AfterColon(a + ":" + (b + ":" + c)), ':')
    ensures NoChar(BetweenColons(a + ":" + (b + ":" + c)), ':')
    ensures AfterColon(a + ":" + (b + ":" + c)) != BetweenColons(a + ":" + (b + ":" + c))
  {
    var rest := b + ":" + c;
    FirstColon(a, rest);
    assert rest[|b|] == ':';
    KeptByTrim(rest, |b|);
    BetweenColonsNoColon(a + ":" + rest);
  }

  /** When every name row yields a non-empty name read alike by both splits, the Python reader's
      separate pass finds the route's name. */
  lemma {:induction false} NamesAgree(rows: seq<seq<string>>)
    requires forall j :: 0 <= j < |rows| ==>
      RowName(rows[j]).Some? ==> RowName(rows[j]) == Some(DetectStudentName(rows[j])) && DetectStudentName(rows[j]) != ""
    ensures NameSearch(rows) == if FirstName(rows) == "" then None else Some(FirstName(rows))
    ensures StudentName(rows) == Scan(rows).studentName
  {
    ScanNameIsFirst(rows);
    if rows != [] {
      var init := rows[..|rows| - 1];
      var last := rows[|rows| - 1];
      assert forall j :: 0 <= j < |init| ==> init[j] == rows[j];
      NamesAgree(init);
      if NameSearch(init).None? && RowName(last).None? {
        assert DetectStudentName(last) == "";
      }
    }
  }

  // ---------------------------------------------------------------------------------------------
  // `parse_subject_status` (lines 54-94)

  /** `x.strip() if x and x != 'nan' else ''`: a missing cell and the text "nan" are empty. */
  function Clean(x: Option<string>): string {
    match x
    case None => ""
    case Some(s) => if s == "" || s == "nan" then "" else Trim(s)
  }

  /** The route's rules in the route's order, except that "en curso" is looked for in the nota as
      written, without lower-casing it. */
  function ParseStatus(notaStr: Option<string>, origenStr: Option<string>): (r: Parsed)
    ensures r.grade.Some? ==> r.status == Aprobada
    ensures r.status == Cursando || r.status == EnFinal || r.status == Aprobada ||
            r.status == Desaprobada || r.status == Disponible
  {
    var nota := Clean(notaStr);
    var origen := Clean(origenStr);
    var notaLower := ToLower(nota);
    var origenLower := ToLower(origen);
    if Contains(nota, "en curso") || Contains(origenLower, "en curso") then Parsed(Cursando, None)
    else if Contains(origenLower, "regularidad") then Parsed(EnFinal, None)
    else if Contains(notaLower, "aprobado") || Contains(notaLower, "promocionado") then Parsed(Aprobada, GradeOf(nota))
    else if Contains(notaLower, "desaprobada") || Contains(notaLower, "desaprobado") then Parsed(Desaprobada, None)
    else Parsed(Disponible, None)
  }

  /** A text shorter than a keyword does not contain it. */
  lemma ShortNotContains(s: string, t: string)
    requires |s| < |t|
    ensures !Contains(s, t)
  {
  }

  /** A text as long as a keyword contains it only by being it. */
  lemma SameLengthNotContains(s: string, t: string)
    requires |s| == |t| && s != t
    ensures !Contains(s, t)
  {
    forall i | 0 <= i <= |s| - |t| ensures !IsPrefix(t, s[i..]) {
      assert s[i..] == s;
    }
  }

  /** "nan", once lower-cased, holds none of the keywords, so reading it as empty changes
      nothing. */
  lemma NanHoldsNoKeyword(s: string)
    requires s == "nan"
    ensures Trim(s) == s
    ensures !Contains(s, "en curso") && !Contains(ToLower(s), "en curso")
    ensures !Contains(ToLower(s), "regularidad")
    ensures !Contains(ToLower(s), "aprobado") && !Contains(ToLower(s), "promocionado")
    ensures !Contains(ToLower(s), "desaprobada") && !Contains(ToLower(s), "desaprobado")
  {
    TrimOfTrimmed(s);
    ShortNotContains(s, "en curso");
    ShortNotContains(ToLower(s), "en curso");
    ShortNotContains(ToLower(s), "regularidad");
    ShortNotContains(ToLower(s), "aprobado");
    ShortNotContains(ToLower(s), "promocionado");
    ShortNotContains(ToLower(s), "desaprobada");
    ShortNotContains(ToLower(s), "desaprobado");
  }

  /** Wherever the two "en curso" tests agree on the nota, both readers give the same status and
      grade. */
  lemma StatusAgree(nota: string, origen: string)
    requires Contains(Trim(nota), "en curso") <==> Contains(ToLower(Trim(nota)), "en curso")
    ensures ParseStatus(Some(nota), Some(origen)) == ParseSubjectStatus(nota, origen)
  {
    if nota == "nan" {
      NanHoldsNoKeyword(nota);
      ShortNotContains("", "en curso");
      ShortNotContains("", "aprobado");
      ShortNotContains("", "promocionado");
      ShortNotContains("", "desaprobada");
      ShortNotContains("", "desaprobado");
    }
    if origen == "nan" {
      NanHoldsNoKeyword(origen);
      ShortNotContains("", "en curso");
      ShortNotContains("", "regularidad");
    }
  }

  /** A nota "En Curso" with no origin reads CURSANDO in the route and DISPONIBLE here. */
  lemma CapitalEnCursoMissed()
    ensures ParseSubjectStatus("En Curso", "").status == Cursando
    ensures ParseStatus(Some("En Curso"), Some("")).status == Disponible
  {
    var n := "En Curso";
    TrimOfTrimmed(n);
    assert ToLower(n) == "en curso";
    ContainsAt(ToLower(n), "en curso", 0);
    SameLengthNotContains(n, "en curso");
    SameLengthNotContains(ToLower(n), "aprobado");
    ShortNotContains(ToLower(n), "promocionado");
    ShortNotContains(ToLower(n), "desaprobada");
    ShortNotContains(ToLower(n), "desaprobado");
    ShortNotContains(ToLower(""), "en curso");
    ShortNotContains(ToLower(""), "regularidad");
  }

  // ---------------------------------------------------------------------------------------------
  // The year (line 192)

  /** `int(year) if year.isdigit() else 1`. */
  function YearOf(year: string): (y: int)
    ensures y >= 0
  {
    if year != [] && AllDigits(year) then DigitsValue(year) else 1
  }

  /** On a run of digits the two readers read the same year. */
  lemma YearsAgreeOnDigits(year: string)
    requires year != [] && AllDigits(year)
    ensures YearOf(year) == YearValue(year)
  {
    JsParseIntOfDigits(year);
  }

  /** On a text such as "2do" the route reads the leading number and this reader falls back
      to 1. */
  lemma OrdinalYearDiffers(d: string, post: string)
    requires d != [] && d[0] != '0' && AllDigits(d)
    requires post != [] && !IsDigit(post[0])
    ensures YearValue(d + post) == DigitsValue(d)
    ensures YearOf(d + post) == 1
  {
    JsParseIntStopsAtLetter(d, post);
    assert (d + post)[|d|] == post[0];
  }

  // ---------------------------------------------------------------------------------------------
  // The row loop of `parse_excel` (lines 142-208)

  /** `cells[i].strip() if len(cells) > i else ''`. */
  function Field(cells: seq<string>, i: nat): string {
    if i < |cells| then Trim(cells[i]) else ""
  }

  /** The course of a row of a module (lines 159-206): the trimmed first cell must match the
      unanchored pattern; credits default to "0.00" when the cell is missing, empty or "nan". */
  function CourseOfRow(cells: seq<string>): (r: Option<ExtractedCourse>)
    ensures r.Some? ==> r.value.credits != "" && r.value.credits != "nan"
    ensures r.Some? ==> r.value.grade.Some? ==> r.value.status == Aprobada
  {
    var actividad := Field(cells, 0);
    if actividad == "" || actividad == "nan" then None
    else match NameAndId(actividad, false, Python)
      case None => None
      case Some((name, id)) =>
        var year := Field(cells, 2);
        var credits := if |cells| > 6 then Trim(cells[6]) else "0.00";
        var parsed := ParseStatus(Some(Field(cells, 4)), Some(Field(cells, 5)));
        Some(ExtractedCourse(
          name, id, YearOf(year), CalculateSemester(year, Field(cells, 3)),
          if credits != "" && credits != "nan" then credits else "0.00",
          parsed.status, parsed.grade))
  }

  /** The variables the loop carries. */
  datatype ParserState = ParserState(currentModule: Option<string>, isCore: bool, courses: seq<ExtractedCourse>)

  const ParserStart: ParserState := ParserState(None, false, [])

  /** One turn of the loop: a module header (its first cell as written, upper-cased, contains
      "MÓDULO:") sets the module; "Actividad" rows and rows before any module are skipped; a
      course row of a core module is appended. Name rows get no special treatment. */
  function ParserStep(st: ParserState, cells: seq<string>): ParserState {
    if IsModuleHeader(cells) then st.(currentModule := Some(cells[0]), isCore := IsCoreModule(cells[0]))
    else if |cells| > 0 && Contains(cells[0], "Actividad") then st
    else if st.currentModule.None? || st.currentModule.value == "" || |cells| == 0 then st
    else AppendCourse(st, cells)
  }

  /** A row that reached the course test. */
  function AppendCourse(st: ParserState, cells: seq<string>): ParserState {
    match CourseOfRow(cells)
    case None => st
    case Some(c) => if st.isCore then st.(courses := st.courses + [c]) else st
  }

  /** The state after the rows, in order. */
  function ParserScan(rows: seq<seq<string>>): ParserState {
    if rows == [] then ParserStart else ParserStep(ParserScan(rows[..|rows| - 1]), rows[|rows| - 1])
  }

  /** The loop of `parse_excel`. */
  method ParseRows(rows: seq<seq<string>>) returns (courses: seq<ExtractedCourse>)
    ensures courses == ParserScan(rows).courses
  {
    courses := [];
    var currentModule: Option<string> := None;
    var isCoreModule := false;
    for i := 0 to |rows|
      invariant ParserState(currentModule, isCoreModule, courses) == ParserScan(rows[..i])
    {
      assert rows[..i + 1][..i] == rows[..i];
      var cells := rows[i];
      ghost var st := ParserState(currentModule, isCoreModule, courses);
      assert ParserScan(rows[..i + 1]) == ParserStep(st, cells);
      if |cells| > 0 && Contains(ToUpper(cells[0]), ModuleTag) {
        currentModule := Some(cells[0]);
        isCoreModule := IsCoreModule(currentModule.value);
        continue;
      }
      if |cells| > 0 && Contains(cells[0], "Actividad") {
        continue;
      }
      if currentModule.None? || currentModule.value == "" || |cells| == 0 {
        continue;
      }
      var course := CourseOfRow(cells);
      if course.None? {
        continue;
      }
      if !isCoreModule {
        continue;
      }
      courses := courses + [course.value];
    }
    assert rows[..|rows|] == rows;
  }

  /** `parse_excel`: the name from its own pass over the rows, then the courses. */
  method ParseExcel(rows: seq<seq<string>>) returns (studentName: string, courses: seq<ExtractedCourse>)
    ensures studentName == StudentName(rows)
    ensures courses == ParserScan(rows).courses
  {
    studentName := FindStudentName(rows);
    courses := ParseRows(rows);
  }

  /** A turn of the loop keeps the courses or appends the row's course under a core module. */
  lemma ParserStepCourses(st: ParserState, cells: seq<string>)
    ensures ParserStep(st, cells).courses == st.courses ||
      (st.isCore && CourseOfRow(cells).Some? && ParserStep(st, cells).courses == st.courses + [CourseOfRow(cells).value])
  {
  }

  /** Every course is read from a row under a core module. */
  lemma {:induction false} ParserScanCourses(rows: seq<seq<string>>, c: ExtractedCourse)
    requires c in ParserScan(rows).courses
    ensures exists j :: 0 <= j < |rows| && ParserScan(rows[..j]).isCore && CourseOfRow(rows[j]) == Some(c)
  {
    var init := rows[..|rows| - 1];
    assert forall j :: 0 <= j < |init| ==> init[j] == rows[j] && init[..j] == rows[..j];
    assert rows[..|rows| - 1] == init;
    if c in ParserScan(init).courses {
      ParserScanCourses(init, c);
    } else {
      ParserStepCourses(ParserScan(init), rows[|rows| - 1]);
      assert ParserScan(rows[..|rows| - 1]).isCore && CourseOfRow(rows[|rows| - 1]) == Some(c);
    }
  }

  /** The core flag comes from the last module header. */
  lemma {:induction false} ParserScanCore(rows: seq<seq<string>>)
    ensures ParserScan(rows).isCore ==>
      exists j :: 0 <= j < |rows| && IsModuleHeader(rows[j]) && IsCoreModule(rows[j][0])
  {
    if rows != [] {
      var init := rows[..|rows| - 1];
      ParserScanCore(init);
      assert forall j :: 0 <= j < |init| ==> init[j] == rows[j];
    }
  }

  /** Whatever activity the route reads as a course, this reader reads as one too. */
  lemma RouteActivityAccepted(actividad: string)
    requires NameAndId(actividad, true, JavaScript).Some?
    ensures NameAndId(actividad, false, Python).Some?
  {
    AnchoredThenUnanchored(actividad);
  }
}
