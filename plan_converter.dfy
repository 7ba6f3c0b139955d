/** The plan converter, scripts/convert_plan_excel_to_json.py: it reads one sheet of the plans
    workbook row by row (year and semester headers, subject rows with their correlatives) and
    writes the plan entries, with the prerequisite strings in the "(ID, Condition)" form that
    the viewer parses. */
module PlanConverter {
  import opened Wrappers
  import opened Types
  import opened Strings
  import opened Seqs
  import opened PrereqParser
  import UploadRoute

  // ---------------------------------------------------------------------------------------------
  // Cells

  /** A cell as pandas hands it over: missing (NaN), text, or a whole number. */
  datatype Value = Missing | Str(s: string) | Whole(n: nat)

  /** `str(v)`. */
  function PyStr(v: Value): string {
    match v
    case Missing => "nan"
    case Str(s) => s
    case Whole(n) => NatToString(n)
  }

  // ---------------------------------------------------------------------------------------------
  // `parse_ordinal_to_int` (lines 21-43)

  /** The ordinal words in the order the dictionary lists them, with their numbers. */
  const OrdinalWords: seq<(string, nat)> := [
    ("primer", 1), ("primero", 1), ("segundo", 2), ("tercer", 3), ("tercero", 3),
    ("cuarto", 4), ("quinto", 5), ("sexto", 6), ("s\U{00E9}ptimo", 7), ("septimo", 7),
    ("octavo", 8), ("noveno", 9), ("d\U{00E9}cimo", 10), ("decimo", 10)]

  /** The number of the first word of `words`, from position `i` on, that `low` contains. */
  function FirstWord(words: seq<(string, nat)>, low: string, i: nat): Option<nat>
    decreases |words| - i
  {
    if i >= |words| then None
    else if Contains(low, words[i].0) then Some(words[i].1)
    else FirstWord(words, low, i + 1)
  }

  /** The leading digits when there are some, else the first ordinal word in the lower-cased
      text, else nothing. */
  function ParseOrdinal(text: string): (r: Option<nat>)
    ensures LeadingDigits(text) > 0 ==> r.Some?
    ensures LeadingDigits(text) == 0 && r.Some? ==> 1 <= r.value <= 10
  {
    var k := LeadingDigits(text);
    if k > 0 then Some(DigitsValue(text[..k]))
    else
      FirstOrdinalInRange(ToLower(text));
      FirstWord(OrdinalWords, ToLower(text), 0)
  }

  /** A number read from an ordinal word lies between 1 and 10. */
  lemma FirstOrdinalInRange(low: string)
    ensures FirstWord(OrdinalWords, low, 0).Some? ==> 1 <= FirstWord(OrdinalWords, low, 0).value <= 10
  {
    if FirstWord(OrdinalWords, low, 0).Some? {
      FirstWordSome(OrdinalWords, low, 0);
      var j :| FirstFound(OrdinalWords, low, 0, j, FirstWord(OrdinalWords, low, 0).value);
      OrdinalWordRange(j);
    }
  }

  /** Leading digits are read as a number, whatever follows them: "2do Año" gives 2. */
  lemma OrdinalOfDigits(d: string, post: string)
    requires d != [] && AllDigits(d)
    requires post == [] || !IsDigit(post[0])
    ensures ParseOrdinal(d + post) == Some(DigitsValue(d))
  {
    UploadRoute.LeadingDigitsOf(d, post);
    assert (d + post)[..|d|] == d;
  }

  lemma {:induction false} FirstWordNone(words: seq<(string, nat)>, low: string, i: nat)
    ensures FirstWord(words, low, i).None? <==> forall j :: i <= j < |words| ==> !Contains(low, words[j].0)
    decreases |words| - i
  {
    if i < |words| && !Contains(low, words[i].0) {
      FirstWordNone(words, low, i + 1);
    }
  }

  /** The word found is one the text contains, and the text contains none listed before it. */
  ghost predicate FirstFound(words: seq<(string, nat)>, low: string, i: nat, j: nat, v: nat) {
    i <= j < |words| && Contains(low, words[j].0) && v == words[j].1 &&
    forall m :: i <= m < j ==> !Contains(low, words[m].0)
  }

  lemma {:induction false} FirstWordSome(words: seq<(string, nat)>, low: string, i: nat)
    requires FirstWord(words, low, i).Some?
    ensures exists j :: FirstFound(words, low, i, j, FirstWord(words, low, i).value)
    decreases |words| - i
  {
    if Contains(low, words[i].0) {
      assert FirstFound(words, low, i, i, FirstWord(words, low, i).value);
    } else {
      FirstWordSome(words, low, i + 1);
      var j :| FirstFound(words, low, i + 1, j, FirstWord(words, low, i + 1).value);
      assert FirstFound(words, low, i, j, FirstWord(words, low, i).value);
    }
  }

  /** Without leading digits the text is read by the first listed ordinal word it contains,
      lower-cased, and is nothing when it contains none. */
  lemma OrdinalOfWords(text: string)
    requires LeadingDigits(text) == 0
    ensures ParseOrdinal(text).None? <==> forall j :: 0 <= j < |OrdinalWords| ==> !Contains(ToLower(text), OrdinalWords[j].0)
    ensures ParseOrdinal(text).Some? ==> exists j :: FirstFound(OrdinalWords, ToLower(text), 0, j, ParseOrdinal(text).value)
  {
    FirstWordNone(OrdinalWords, ToLower(text), 0);
    if ParseOrdinal(text).Some? {
      FirstWordSome(OrdinalWords, ToLower(text), 0);
    }
  }

  /** The words stand for the numbers 1 to 10. */
  lemma OrdinalWordRange(j: nat)
    requires j < |OrdinalWords|
    ensures 1 <= OrdinalWords[j].1 <= 10
  {
  }

  // ---------------------------------------------------------------------------------------------
  // The correlatives (lines 99-102)

  /** `[p.strip() for p in parts if p.strip()]`. */
  function NonEmptyPieces(parts: seq<string>): (r: seq<string>)
    ensures |r| <= |parts|
  {
    if parts == [] then []
    else
      var last := Trim(parts[|parts| - 1]);
      NonEmptyPieces(parts[..|parts| - 1]) + (if last != "" then [last] else [])
  }

  /** A missing cell, "-" or a blank cell means no correlatives; otherwise the trimmed,
      non-empty pieces between the ";". */
  function Correlatives(v: Value): seq<string> {
    if v.Missing? || Trim(PyStr(v)) == "-" || Trim(PyStr(v)) == "" then []
    else NonEmptyPieces(Split(PyStr(v), ";"))
  }

  lemma {:induction false} NonEmptyPiecesSpec(parts: seq<string>)
    ensures forall x :: x in NonEmptyPieces(parts) <==> x != "" && exists i :: 0 <= i < |parts| && Trim(parts[i]) == x
    ensures forall i :: 0 <= i < |NonEmptyPieces(parts)| ==> Trimmed(NonEmptyPieces(parts)[i])
  {
    if parts != [] {
      var init := parts[..|parts| - 1];
      NonEmptyPiecesSpec(init);
      TrimIsTrimmed(parts[|parts| - 1]);
      assert forall i :: 0 <= i < |init| ==> init[i] == parts[i];
    }
  }

  lemma {:induction false} NonEmptyPiecesAvoid(parts: seq<string>, c: char)
    requires forall i :: 0 <= i < |parts| ==> NoChar(parts[i], c)
    ensures forall i :: 0 <= i < |NonEmptyPieces(parts)| ==> NoChar(NonEmptyPieces(parts)[i], c)
  {
    if parts != [] {
      NonEmptyPiecesAvoid(parts[..|parts| - 1], c);
      TrimNoChar(parts[|parts| - 1], c);
    }
  }

  /** The pieces of a text are non-empty, trimmed and free of ";". */
  lemma PiecesOfText(s: string)
    ensures forall i :: 0 <= i < |NonEmptyPieces(Split(s, ";"))| ==>
      NonEmptyPieces(Split(s, ";"))[i] != "" && Trimmed(NonEmptyPieces(Split(s, ";"))[i]) &&
      NoChar(NonEmptyPieces(Split(s, ";"))[i], ';')
  {
    var parts := Split(s, ";");
    NonEmptyPiecesSpec(parts);
    forall i | 0 <= i < |parts| ensures NoChar(parts[i], ';') {
      SplitPiecesAvoidSeparator(s, ";", i);
      UploadRoute.NoCharOfNotContains(parts[i], ';');
    }
    NonEmptyPiecesAvoid(parts, ';');
    forall i | 0 <= i < |NonEmptyPieces(parts)| ensures NonEmptyPieces(parts)[i] != "" {
      assert NonEmptyPieces(parts)[i] in NonEmptyPieces(parts);
    }
  }

  /** Every correlative is a non-empty trimmed text without ";", and the correlatives of a text
      are exactly its trimmed non-empty ";"-pieces. */
  lemma CorrelativesSpec(v: Value)
    ensures forall i :: 0 <= i < |Correlatives(v)| ==>
      Correlatives(v)[i] != "" && Trimmed(Correlatives(v)[i]) && NoChar(Correlatives(v)[i], ';')
    ensures !v.Missing? && Trim(PyStr(v)) != "-" && Trim(PyStr(v)) != "" ==>
      forall x :: x in Correlatives(v) <==> x != "" && exists i :: 0 <= i < |Split(PyStr(v), ";")| && Trim(Split(PyStr(v), ";")[i]) == x
  {
    if !(v.Missing? || Trim(PyStr(v)) == "-" || Trim(PyStr(v)) == "") {
      var parts := Split(PyStr(v), ";");
      PiecesOfText(PyStr(v));
      NonEmptyPiecesSpec(parts);
      assert Correlatives(v) == NonEmptyPieces(parts);
      forall x ensures x in Correlatives(v) <==> x != "" && exists i :: 0 <= i < |parts| && Trim(parts[i]) == x {
        assert x in NonEmptyPieces(parts) <==> x != "" && exists i :: 0 <= i < |parts| && Trim(parts[i]) == x;
      }
      assert !v.Missing? && Trim(PyStr(v)) != "-" && Trim(PyStr(v)) != "" ==>
      forall x :: x in Correlatives(v) <==> x != "" && exists i :: 0 <= i < |Split(PyStr(v), ";")| && Trim(Split(PyStr(v), ";")[i]) == x;
    }
  }

  // ---------------------------------------------------------------------------------------------
  // The row loop (lines 75-112)

  /** A sheet row: the code, course, correlatives, credits and semester columns. */
  datatype SheetRow = SheetRow(code: Value, course: Value, correlatives: Value, credits: Value, semester: Value)

  /** What is kept of a subject row: the year in force, the row's own semester cell, and (for
      the corrected reading of the semester) the semester header in force. */
  datatype SubjectRecord = SubjectRecord(
    course: Value, id: string, year: Option<nat>, rawSem: Value, credits: Value, sectionSemester: Option<nat>)

  /** `str(int(code))`: a whole number, or a text of digits around white space; nothing where
      `int` raises. */
  function CodeId(code: Value): (r: Option<string>)
    ensures r.Some? ==> r.value != [] && AllDigits(r.value)
  {
    match code
    case Missing => None
    case Whole(n) => Some(NatToString(n))
    case Str(s) => var t := Trim(s); if t != [] && AllDigits(t) then Some(NatToString(DigitsValue(t))) else None
  }

  /** The loop's variables; `keys` is the insertion order of the `prereq_map` dictionary. */
  datatype ReadState = ReadState(
    currentYear: Option<nat>, currentSemester: Option<nat>, subjects: seq<SubjectRecord>,
    keys: seq<string>, prereqs: map<string, seq<string>>)

  const ReadStart: ReadState := ReadState(None, None, [], [], map[])

  /** A header row: no course, and a text code containing `word` once lower-cased. */
  predicate IsHeader(row: SheetRow, word: string) {
    row.course.Missing? && row.code.Str? && Contains(ToLower(row.code.s), word)
  }

  /** Rows without code or course, and "total" rows. */
  predicate IsSkipped(row: SheetRow) {
    row.code.Missing? || row.course.Missing? || ToLower(Trim(PyStr(row.course))) == "total"
  }

  const YearWord: string := "a\U{00F1}o"

  /** A subject row: its record is appended and its correlatives stored under its ID, a repeated
      ID keeping its first place in the dictionary. */
  function AddSubject(st: ReadState, id: string, row: SheetRow): ReadState {
    st.(subjects := st.subjects + [SubjectRecord(row.course, id, st.currentYear, row.semester, row.credits, st.currentSemester)],
        keys := if id in st.prereqs then st.keys else st.keys + [id],
        prereqs := st.prereqs[id := Correlatives(row.correlatives)])
  }

  /** One turn of the loop; nothing when `int(code)` raises. */
  function ReadStep(st: ReadState, row: SheetRow): Option<ReadState> {
    if IsHeader(row, YearWord) then Some(st.(currentYear := ParseOrdinal(row.code.s)))
    else if IsHeader(row, "cuatrimestre") then Some(st.(currentSemester := ParseOrdinal(row.code.s)))
    else if IsSkipped(row) then Some(st)
    else match CodeId(row.code)
      case None => None
      case Some(id) => Some(AddSubject(st, id, row))
  }

  /** The state after the rows, in order. */
  function ReadRows(rows: seq<SheetRow>): Option<ReadState> {
    if rows == [] then Some(ReadStart)
    else match ReadRows(rows[..|rows| - 1])
      case None => None
      case Some(st) => ReadStep(st, rows[|rows| - 1])
  }

  /** The first loop. */
  method ReadSheet(rows: seq<SheetRow>) returns (r: Option<ReadState>)
    ensures r == ReadRows(rows)
  {
    var currentYear: Option<nat> := None;
    var currentSemester: Option<nat> := None;
    var subjects: seq<SubjectRecord> := [];
    var keys: seq<string> := [];
    var prereqMap: map<string, seq<string>> := map[];
    for i := 0 to |rows|
      invariant ReadRows(rows[..i]) == Some(ReadState(currentYear, currentSemester, subjects, keys, prereqMap))
    {
      assert rows[..i + 1][..i] == rows[..i];
      var row := rows[i];
      if row.course.Missing? && row.code.Str? && Contains(ToLower(row.code.s), YearWord) {
        currentYear := ParseOrdinal(row.code.s);
        continue;
      }
      if row.course.Missing? && row.code.Str? && Contains(ToLower(row.code.s), "cuatrimestre") {
        currentSemester := ParseOrdinal(row.code.s);
        continue;
      }
      if row.code.Missing? || row.course.Missing? || ToLower(Trim(PyStr(row.course))) == "total" {
        continue;
      }
      var id := CodeId(row.code);
      if id.None? {
        ReadFails(rows, i + 1);
        return None;
      }
      var idStr := id.value;
      subjects := subjects + [SubjectRecord(row.course, idStr, currentYear, row.semester, row.credits, currentSemester)];
      if idStr !in prereqMap {
        keys := keys + [idStr];
      }
      prereqMap := prereqMap[idStr := Correlatives(row.correlatives)];
    }
    assert rows[..|rows|] == rows;
    r := Some(ReadState(currentYear, currentSemester, subjects, keys, prereqMap));
  }

  /** Once a row raises, so does the whole sheet. */
  lemma {:induction false} ReadFails(rows: seq<SheetRow>, i: nat)
    requires i <= |rows| && ReadRows(rows[..i]).None?
    ensures ReadRows(rows).None?
    decreases |rows| - i
  {
    if i < |rows| {
      assert rows[..i + 1][..i] == rows[..i];
      ReadFails(rows, i + 1);
    } else {
      assert rows[..i] == rows;
    }
  }

  /** A sequence without repetitions. */
  predicate Distinct<T(==)>(s: seq<T>) {
    forall i, j :: 0 <= i < j < |s| ==> s[i] != s[j]
  }

  /** An ID as the converter writes it: a non-empty run of digits. */
  predicate IsId(s: string) {
    s != [] && AllDigits(s)
  }

  /** The dictionary's keys are listed once each, in `keys`, and all keys and subject IDs are
      IDs. */
  ghost predicate Consistent(st: ReadState) {
    (forall k :: k in st.keys <==> k in st.prereqs) && Distinct(st.keys) &&
    (forall i :: 0 <= i < |st.keys| ==> IsId(st.keys[i])) &&
    (forall i :: 0 <= i < |st.subjects| ==> st.subjects[i].id in st.prereqs)
  }

  lemma AddSubjectConsistent(st: ReadState, id: string, row: SheetRow)
    requires Consistent(st) && IsId(id)
    ensures Consistent(AddSubject(st, id, row))
  {
    var st' := AddSubject(st, id, row);
    forall i | 0 <= i < |st'.subjects| ensures st'.subjects[i].id in st'.prereqs {
      if i < |st.subjects| {
        assert st'.subjects[i] == st.subjects[i];
      }
    }
  }

  lemma {:induction false} ReadRowsConsistent(rows: seq<SheetRow>)
    requires ReadRows(rows).Some?
    ensures Consistent(ReadRows(rows).value)
  {
    if rows != [] {
      var init := rows[..|rows| - 1];
      ReadRowsConsistent(init);
      var st := ReadRows(init).value;
      var row := rows[|rows| - 1];
      if !IsHeader(row, YearWord) && !IsHeader(row, "cuatrimestre") && !IsSkipped(row) {
        AddSubjectConsistent(st, CodeId(row.code).value, row);
      }
    }
  }

  // ---------------------------------------------------------------------------------------------
  // The reverse map (lines 114-119)

  /** `sid` once for every occurrence of `q` in `ps`. */
  function Hits(ps: seq<string>, q: string, sid: string): seq<string> {
    if ps == [] then []
    else Hits(ps[..|ps| - 1], q, sid) + (if ps[|ps| - 1] == q then [sid] else [])
  }

  /** The subjects, in dictionary order, with `q` among their correlatives. */
  function Dependents(keys: seq<string>, pm: map<string, seq<string>>, q: string): seq<string> {
    if keys == [] then []
    else
      var sid := keys[|keys| - 1];
      Dependents(keys[..|keys| - 1], pm, q) + (if sid in pm then Hits(pm[sid], q, sid) else [])
  }

  /** The IDs of the subjects. */
  function SubjectIds(subjects: seq<SubjectRecord>): set<string> {
    set i | 0 <= i < |subjects| :: subjects[i].id
  }

  /** The inner loop of lines 117-119: `sid` is added to the list of each of its correlatives
      that is a subject. */
  method AddDependent(rev: map<string, seq<string>>, sid: string, prereqs: seq<string>)
    returns (rev': map<string, seq<string>>)
    ensures rev'.Keys == rev.Keys
    ensures forall q :: q in rev ==> rev'[q] == rev[q] + Hits(prereqs, q, sid)
  {
    rev' := rev;
    for j := 0 to |prereqs|
      invariant rev'.Keys == rev.Keys
      invariant forall q :: q in rev ==> rev'[q] == rev[q] + Hits(prereqs[..j], q, sid)
    {
      assert prereqs[..j + 1][..j] == prereqs[..j];
      var p := prereqs[j];
      if p in rev' {
        rev' := rev'[p := rev'[p] + [sid]];
      }
    }
    assert prereqs[..|prereqs|] == prereqs;
  }

  /** The nested loops of lines 115-119 over the dictionary in insertion order. */
  method ReverseMap(subjects: seq<SubjectRecord>, keys: seq<string>, pm: map<string, seq<string>>)
    returns (rev: map<string, seq<string>>)
    requires forall i :: 0 <= i < |keys| ==> keys[i] in pm
    ensures rev.Keys == SubjectIds(subjects)
    ensures forall q :: q in rev ==> rev[q] == Dependents(keys, pm, q)
  {
    rev := map q | q in SubjectIds(subjects) :: [];
    for i := 0 to |keys|
      invariant rev.Keys == SubjectIds(subjects)
      invariant forall q :: q in rev ==> rev[q] == Dependents(keys[..i], pm, q)
    {
      assert keys[..i + 1][..i] == keys[..i];
      rev := AddDependent(rev, keys[i], pm[keys[i]]);
    }
    assert keys[..|keys|] == keys;
  }

  lemma {:induction false} HitsSpec(ps: seq<string>, q: string, sid: string)
    ensures forall x :: x in Hits(ps, q, sid) <==> x == sid && q in ps
  {
    if ps != [] {
      var init := ps[..|ps| - 1];
      HitsSpec(init, q, sid);
      assert ps == init + [ps[|ps| - 1]];
    }
  }

  /** `reverse_map[q]` holds exactly the subjects with `q` among their correlatives. */
  lemma {:induction false} DependentsSpec(keys: seq<string>, pm: map<string, seq<string>>, q: string)
    ensures forall x :: x in Dependents(keys, pm, q) <==> x in keys && x in pm && q in pm[x]
  {
    if keys != [] {
      var init := keys[..|keys| - 1];
      var sid := keys[|keys| - 1];
      DependentsSpec(init, pm, q);
      if sid in pm {
        HitsSpec(pm[sid], q, sid);
      }
      assert keys == init + [sid];
    }
  }

  lemma {:induction false} HitsOnce(ps: seq<string>, q: string, sid: string)
    requires Distinct(ps)
    ensures Hits(ps, q, sid) == if q in ps then [sid] else []
  {
    if ps != [] {
      var init := ps[..|ps| - 1];
      assert Distinct(init);
      HitsOnce(init, q, sid);
      assert ps == init + [ps[|ps| - 1]];
    }
  }

  /** When no subject repeats a correlative, `reverse_map[q]` lists its dependents in the order
      of the dictionary. */
  lemma {:induction false} DependentsInOrder(keys: seq<string>, pm: map<string, seq<string>>, q: string)
    requires forall k :: k in pm ==> Distinct(pm[k])
    ensures Subseq(Dependents(keys, pm, q), keys)
  {
    if keys != [] {
      var init := keys[..|keys| - 1];
      var sid := keys[|keys| - 1];
      DependentsInOrder(init, pm, q);
      assert keys == init + [sid];
      var d := Dependents(init, pm, q);
      if sid in pm {
        HitsOnce(pm[sid], q, sid);
        if q in pm[sid] {
          SubseqBoth(d, init, sid);
        } else {
          assert d + [] == d;
          SubseqRight(d, init, sid);
        }
      } else {
        assert d + [] == d;
        SubseqRight(d, init, sid);
      }
    }
  }

  // ---------------------------------------------------------------------------------------------
  // The plan entries (lines 121-161)

  /** Children of the children, in order, with repetitions: the `extend` loop. */
  function Flatten(rev: map<string, seq<string>>, cs: seq<string>): seq<string> {
    if cs == [] then []
    else Flatten(rev, cs[..|cs| - 1]) + (var c := cs[|cs| - 1]; if c in rev then rev[c] else [])
  }

  /** Each element of `s` outside `excluded` once, in order of first appearance. */
  function Dedup(s: seq<string>, excluded: set<string>): seq<string> {
    if s == [] then []
    else
      var d := Dedup(s[..|s| - 1], excluded);
      var x := s[|s| - 1];
      if x in excluded || x in d then d else d + [x]
  }

  /** The grandchildren of a subject with the given children. */
  function GrandchildrenSet(rev: map<string, seq<string>>, children: seq<string>): set<string> {
    (set c, g | c in children && c in rev && g in rev[c] :: g) - (set c | c in children)
  }

  /** `list(set(grandchildren) - set(children))`. The order of a Python set is unspecified; the
      model lists the elements by first appearance. */
  function Grandchildren(rev: map<string, seq<string>>, children: seq<string>): seq<string> {
    Dedup(Flatten(rev, children), set c | c in children)
  }

  lemma {:induction false} FlattenSpec(rev: map<string, seq<string>>, cs: seq<string>)
    ensures forall g :: g in Flatten(rev, cs) <==> exists c :: c in cs && c in rev && g in rev[c]
  {
    if cs != [] {
      var init := cs[..|cs| - 1];
      FlattenSpec(rev, init);
      assert cs == init + [cs[|cs| - 1]];
    }
  }

  lemma {:induction false} DedupSpec(s: seq<string>, excluded: set<string>)
    ensures forall x :: x in Dedup(s, excluded) <==> x in s && x !in excluded
    ensures Distinct(Dedup(s, excluded))
  {
    if s != [] {
      var init := s[..|s| - 1];
      DedupSpec(init, excluded);
      assert s == init + [s[|s| - 1]];
    }
  }

  /** The grandchildren listed are the children of children that are not children themselves,
      each once. */
  lemma GrandchildrenSpec(rev: map<string, seq<string>>, children: seq<string>)
    ensures forall g :: g in Grandchildren(rev, children) <==> g in GrandchildrenSet(rev, children)
    ensures Distinct(Grandchildren(rev, children))
  {
    FlattenSpec(rev, children);
    DedupSpec(Flatten(rev, children), set c | c in children);
  }

  const RegularTag: string := "Regularizada"
  const ApprovedTag: string := "Aprobada"

  /** Every ID with the same condition. */
  function Tagged(ids: seq<string>, tag: string): (r: seq<Prereq>)
    ensures |r| == |ids| && forall i :: 0 <= i < |ids| ==> r[i] == Prereq(ids[i], tag)
  {
    seq(|ids|, i requires 0 <= i < |ids| => Prereq(ids[i], tag))
  }

  /** `None if not entries else ', '.join(entries)`. */
  function Joined(ps: seq<Prereq>): Option<string> {
    if ps == [] then None else Some(JoinEntries(ps))
  }

  /** One entry of the generated plan. */
  datatype PlanEntry = PlanEntry(
    course: Value, id: string, year: Option<nat>, semester: Option<nat>, credits: Value,
    take: Option<string>, pass: Option<string>, takeFor: Option<string>, passFor: Option<string>)

  /** The row's own semester cell when it is text, else `fallback`. */
  function RowSemester(rawSem: Value, fallback: Option<nat>): Option<nat> {
    if rawSem.Str? then ParseOrdinal(rawSem.s) else fallback
  }

  /** The entry of one subject, with `fallback` for its semester. */
  function Finalize(subj: SubjectRecord, pm: map<string, seq<string>>, rev: map<string, seq<string>>, fallback: Option<nat>)
    : PlanEntry
  {
    var take := if subj.id in pm then pm[subj.id] else [];
    var children := if subj.id in rev then rev[subj.id] else [];
    var grand := Grandchildren(rev, children);
    PlanEntry(
      subj.course, subj.id, subj.year, RowSemester(subj.rawSem, fallback), subj.credits,
      Joined(Tagged(take, RegularTag)), Joined(Tagged(take, ApprovedTag)),
      Joined(Tagged(children, RegularTag) + Tagged(grand, ApprovedTag)),
      Joined(Tagged(children, ApprovedTag) + Tagged(grand, ApprovedTag)))
  }

  /** The second loop: every subject in order, the semester falling back to `current_semester`
      as the first loop left it. */
  method BuildEntries(subjects: seq<SubjectRecord>, pm: map<string, seq<string>>, rev: map<string, seq<string>>,
                      currentSemester: Option<nat>)
    returns (entries: seq<PlanEntry>)
    ensures |entries| == |subjects|
    ensures forall i :: 0 <= i < |subjects| ==> entries[i] == Finalize(subjects[i], pm, rev, currentSemester)
  {
    entries := [];
    for i := 0 to |subjects|
      invariant |entries| == i
      invariant forall k :: 0 <= k < i ==> entries[k] == Finalize(subjects[k], pm, rev, currentSemester)
    {
      var subj := subjects[i];
      var children := if subj.id in rev then rev[subj.id] else [];
      var grand: seq<string> := [];
      for k := 0 to |children|
        invariant grand == Flatten(rev, children[..k])
      {
        assert children[..k + 1][..k] == children[..k];
        grand := grand + (if children[k] in rev then rev[children[k]] else []);
      }
      assert children[..|children|] == children;
      grand := Dedup(grand, set c | c in children);
      var take := if subj.id in pm then pm[subj.id] else [];
      entries := entries + [PlanEntry(
        subj.course, subj.id, subj.year, RowSemester(subj.rawSem, currentSemester), subj.credits,
        Joined(Tagged(take, RegularTag)), Joined(Tagged(take, ApprovedTag)),
        Joined(Tagged(children, RegularTag) + Tagged(grand, ApprovedTag)),
        Joined(Tagged(children, ApprovedTag) + Tagged(grand, ApprovedTag)))];
    }
  }

  /** The reverse map of a read sheet. */
  function ReverseOf(st: ReadState): map<string, seq<string>> {
    map q | q in SubjectIds(st.subjects) :: Dependents(st.keys, st.prereqs, q)
  }

  /** In a consistent state every subject's ID is a digit run. */
  lemma ConsistentSubjectIds(st: ReadState)
    requires Consistent(st)
    ensures forall i :: 0 <= i < |st.subjects| ==> IsId(st.subjects[i].id)
  {
    forall i | 0 <= i < |st.subjects| ensures IsId(st.subjects[i].id) {
      var k :| 0 <= k < |st.keys| && st.keys[k] == st.subjects[i].id;
    }
  }

  /** The entries of a sheet, as the script writes them; nothing when a code is not a number.
      Every entry's ID is a digit run, and its two prerequisite strings, like its two dependent
      strings, are null together. */
  function Convert(rows: seq<SheetRow>): (r: Option<seq<PlanEntry>>)
    ensures r.Some? ==> forall i :: 0 <= i < |r.value| ==>
      IsId(r.value[i].id) && (r.value[i].take.None? <==> r.value[i].pass.None?) &&
      (r.value[i].takeFor.None? <==> r.value[i].passFor.None?)
  {
    match ReadRows(rows)
    case None => None
    case Some(st) =>
      ReadRowsConsistent(rows);
      ConsistentSubjectIds(st);
      Some(seq(|st.subjects|, i requires 0 <= i < |st.subjects| =>
        Finalize(st.subjects[i], st.prereqs, ReverseOf(st), st.currentSemester)))
  }

  /** The body of the sheet loop of `main`. */
  method ConvertSheet(rows: seq<SheetRow>) returns (result: Option<seq<PlanEntry>>)
    ensures result == Convert(rows)
  {
    var st := ReadSheet(rows);
    if st.None? {
      return None;
    }
    var s := st.value;
    ReadRowsConsistent(rows);
    var rev := ReverseMap(s.subjects, s.keys, s.prereqs);
    assert rev == ReverseOf(s);
    var entries := BuildEntries(s.subjects, s.prereqs, rev, s.currentSemester);
    assert entries == Convert(rows).value;
    result := Some(entries);
  }

  // ---------------------------------------------------------------------------------------------
  // What the entries say

  /** Digit IDs are read back by the viewer's parser. */
  lemma IdsWellFormed(ids: seq<string>, tag: string)
    requires forall i :: 0 <= i < |ids| ==> IsId(ids[i])
    requires WellFormedTag(tag)
    ensures forall i :: 0 <= i < |ids| ==> WellFormedId(Tagged(ids, tag)[i].id) && WellFormedTag(Tagged(ids, tag)[i].condition)
  {
    forall i | 0 <= i < |ids| ensures WellFormedId(ids[i]) {
      var d := ids[i];
      assert !IsSpace(d[0]) && !IsSpace(d[|d| - 1]);
      assert NoChar(d, ',');
    }
  }

  /** A written list of entries is null exactly when it is empty, and is read back as itself. */
  lemma JoinedRoundTrip(ps: seq<Prereq>)
    requires forall i :: 0 <= i < |ps| ==> WellFormedId(ps[i].id) && WellFormedTag(ps[i].condition)
    ensures Joined(ps).None? <==> ps == []
    ensures Parse(Joined(ps)) == ps
  {
    if ps != [] {
      ParseJoinedEntries(ps);
      assert JoinEntries(ps) != "" by {
        if |ps| == 1 {
          assert JoinEntries(ps)[0] == '(';
        } else {
          assert JoinEntries(ps) == Entry(ps[0].id, ps[0].condition) + ", " + JoinEntries(ps[1..]);
          assert JoinEntries(ps)[0] == '(';
        }
      }
    }
  }

  /** "Prerequisites to Take" and "to Pass" list the same correlatives in the same order, the
      first as Regularizada and the second as Aprobada; both are null exactly when there are
      none; and the viewer reads them back when no correlative contains a ",". */
  lemma TakeAndPass(subj: SubjectRecord, pm: map<string, seq<string>>, rev: map<string, seq<string>>, fallback: Option<nat>, v: Value)
    requires subj.id in pm && pm[subj.id] == Correlatives(v)
    requires forall i :: 0 <= i < |Correlatives(v)| ==> NoChar(Correlatives(v)[i], ',')
    ensures var e := Finalize(subj, pm, rev, fallback);
      (e.take.None? <==> Correlatives(v) == []) && (e.pass.None? <==> Correlatives(v) == []) &&
      Parse(e.take) == Tagged(Correlatives(v), RegularTag) &&
      Parse(e.pass) == Tagged(Correlatives(v), ApprovedTag)
  {
    CorrelativesSpec(v);
    ExampleWellFormed();
    JoinedRoundTrip(Tagged(Correlatives(v), RegularTag));
    JoinedRoundTrip(Tagged(Correlatives(v), ApprovedTag));
  }

  /** Everything the reverse map lists is a subject ID of the dictionary. */
  lemma ReverseListsIds(st: ReadState, q: string)
    requires Consistent(st) && q in ReverseOf(st)
    ensures forall i :: 0 <= i < |ReverseOf(st)[q]| ==> IsId(ReverseOf(st)[q][i])
  {
    DependentsSpec(st.keys, st.prereqs, q);
    forall i | 0 <= i < |ReverseOf(st)[q]| ensures IsId(ReverseOf(st)[q][i]) {
      var x := ReverseOf(st)[q][i];
      assert x in st.keys;
      var k :| 0 <= k < |st.keys| && st.keys[k] == x;
    }
  }

  /** So are the grandchildren. */
  lemma GrandchildrenAreIds(st: ReadState, children: seq<string>)
    requires Consistent(st)
    ensures forall k :: 0 <= k < |Grandchildren(ReverseOf(st), children)| ==> IsId(Grandchildren(ReverseOf(st), children)[k])
  {
    var rev := ReverseOf(st);
    var grand := Grandchildren(rev, children);
    GrandchildrenSpec(rev, children);
    FlattenSpec(rev, children);
    DedupSpec(Flatten(rev, children), set c | c in children);
    forall k | 0 <= k < |grand| ensures IsId(grand[k]) {
      assert grand[k] in Flatten(rev, children);
      var c :| c in children && c in rev && grand[k] in rev[c];
      ReverseListsIds(st, c);
    }
  }

  /** The lists written for a subject whose children and grandchildren are `children` and
      `grand`. */
  lemma ForListsRoundTrip(children: seq<string>, grand: seq<string>)
    requires forall k :: 0 <= k < |children| ==> IsId(children[k])
    requires forall k :: 0 <= k < |grand| ==> IsId(grand[k])
    ensures var takeFor := Tagged(children, RegularTag) + Tagged(grand, ApprovedTag);
      var passFor := Tagged(children, ApprovedTag) + Tagged(grand, ApprovedTag);
      (Joined(takeFor).None? <==> children == [] && grand == []) &&
      (Joined(passFor).None? <==> children == [] && grand == []) &&
      Parse(Joined(takeFor)) == takeFor && Parse(Joined(passFor)) == passFor
  {
    ExampleWellFormed();
    IdsWellFormed(children, RegularTag);
    IdsWellFormed(children, ApprovedTag);
    IdsWellFormed(grand, ApprovedTag);
    var takeFor := Tagged(children, RegularTag) + Tagged(grand, ApprovedTag);
    var passFor := Tagged(children, ApprovedTag) + Tagged(grand, ApprovedTag);
    assert forall i :: 0 <= i < |takeFor| ==> WellFormedId(takeFor[i].id) && WellFormedTag(takeFor[i].condition);
    assert forall i :: 0 <= i < |passFor| ==> WellFormedId(passFor[i].id) && WellFormedTag(passFor[i].condition);
    JoinedRoundTrip(takeFor);
    JoinedRoundTrip(passFor);
  }

  /** "Prerequisite to Take for" lists the children as Regularizada and then the grandchildren
      as Aprobada, "to Pass for" all of them as Aprobada; both are null exactly when there are
      neither; and the viewer reads both back, since all of them are digit IDs. */
  lemma TakeForAndPassFor(rows: seq<SheetRow>, i: nat)
    requires ReadRows(rows).Some? && i < |ReadRows(rows).value.subjects|
    ensures var st := ReadRows(rows).value;
      var rev := ReverseOf(st);
      var children := rev[st.subjects[i].id];
      var grand := Grandchildren(rev, children);
      var e := Convert(rows).value[i];
      (e.takeFor.None? <==> children == [] && grand == []) &&
      (e.passFor.None? <==> children == [] && grand == []) &&
      Parse(e.takeFor) == Tagged(children, RegularTag) + Tagged(grand, ApprovedTag) &&
      Parse(e.passFor) == Tagged(children, ApprovedTag) + Tagged(grand, ApprovedTag)
  {
    var st := ReadRows(rows).value;
    ReadRowsConsistent(rows);
    var id := st.subjects[i].id;
    assert id in SubjectIds(st.subjects);
    var children := ReverseOf(st)[id];
    ReverseListsIds(st, id);
    GrandchildrenAreIds(st, children);
    ForListsRoundTrip(children, Grandchildren(ReverseOf(st), children));
  }

  // ---------------------------------------------------------------------------------------------
  // The semester of a subject without a semester cell (line 149)

  /** A semester header row. */
  predicate IsSemesterHeader(row: SheetRow) {
    !IsHeader(row, YearWord) && IsHeader(row, "cuatrimestre")
  }

  /** A subject row whose code `int` accepts. */
  predicate IsSubjectRow(row: SheetRow) {
    !IsHeader(row, YearWord) && !IsHeader(row, "cuatrimestre") && !IsSkipped(row) && CodeId(row.code).Some?
  }

  /** As written, a subject without a text semester cell takes the semester of the LAST
      semester header of the sheet, since `current_semester` is read after the first loop has
      finished: under "1er Cuatrimestre", a subject before a later "2do Cuatrimestre" header is
      given the second semester. */
  lemma SemesterFromLastHeader(h1: SheetRow, r: SheetRow, h2: SheetRow)
    requires IsSemesterHeader(h1) && IsSubjectRow(r) && IsSemesterHeader(h2) && !r.semester.Str?
    ensures Convert([h1, r, h2]).Some? && |Convert([h1, r, h2]).value| == 1
    ensures Convert([h1, r, h2]).value[0].semester == ParseOrdinal(h2.code.s)
    ensures ConvertIntended([h1, r, h2]).Some? && |ConvertIntended([h1, r, h2]).value| == 1
    ensures ConvertIntended([h1, r, h2]).value[0].semester == ParseOrdinal(h1.code.s)
  {
    var rows := [h1, r, h2];
    assert [h1][..0] == [];
    var s1 := ReadStart.(currentSemester := ParseOrdinal(h1.code.s));
    assert ReadRows([h1]) == Some(s1);
    assert [h1, r][..1] == [h1];
    var s2 := AddSubject(s1, CodeId(r.code).value, r);
    assert ReadRows([h1, r]) == Some(s2);
    assert rows[..2] == [h1, r];
    var s3 := s2.(currentSemester := ParseOrdinal(h2.code.s));
    assert ReadRows(rows) == Some(s3);
    assert |s3.subjects| == 1 && s3.subjects[0].rawSem == r.semester;
  }

  /** The semester in force where the subject's row stands. */
  function FinalizeIntended(subj: SubjectRecord, pm: map<string, seq<string>>, rev: map<string, seq<string>>): PlanEntry {
    Finalize(subj, pm, rev, subj.sectionSemester)
  }

  /** The entries of a sheet with the semester header in force at each subject's row. */
  function ConvertIntended(rows: seq<SheetRow>): Option<seq<PlanEntry>> {
    match ReadRows(rows)
    case None => None
    case Some(st) =>
      Some(seq(|st.subjects|, i requires 0 <= i < |st.subjects| => FinalizeIntended(st.subjects[i], st.prereqs, ReverseOf(st))))
  }

  /** Reading more rows keeps the subjects read so far, and a sheet that reads reads all the way. */
  lemma {:induction false} ReadRowsExtends(a: seq<SheetRow>, b: seq<SheetRow>)
    requires ReadRows(a + b).Some?
    ensures ReadRows(a).Some?
    ensures ReadRows(a).value.subjects <= ReadRows(a + b).value.subjects
  {
    if b == [] {
      assert a + b == a;
    } else {
      var init := b[..|b| - 1];
      assert (a + b)[..|a + b| - 1] == a + init;
      ReadRowsExtends(a, init);
    }
  }

  /** Corrected, a subject without a text semester cell takes the semester of the last header
      above its row, whatever follows. */
  lemma IntendedSemester(pre: seq<SheetRow>, r: SheetRow, post: seq<SheetRow>)
    requires IsSubjectRow(r) && ReadRows(pre + [r] + post).Some?
    ensures ReadRows(pre).Some?
    ensures var k := |ReadRows(pre).value.subjects|;
      k < |ConvertIntended(pre + [r] + post).value| &&
      ConvertIntended(pre + [r] + post).value[k].semester == RowSemester(r.semester, ReadRows(pre).value.currentSemester)
  {
    ReadRowsExtends(pre + [r], post);
    assert (pre + [r])[..|pre|] == pre;
    var st := ReadRows(pre).value;
    var mid := ReadRows(pre + [r]).value;
    assert mid.subjects == st.subjects + [mid.subjects[|st.subjects|]];
    assert mid.subjects[|st.subjects|].sectionSemester == st.currentSemester;
    assert mid.subjects[|st.subjects|].rawSem == r.semester;
  }

  /** "1 cuatrimestre", "2 cuatrimestre", ... are semester headers read as 1, 2, ...; with them
      in `SemesterFromLastHeader` the subject is given the second digit and intended the first. */
  lemma HeaderExample(d: char)
    requires IsDigit(d)
    ensures var h := SheetRow(Str([d] + " cuatrimestre"), Missing, Missing, Missing, Missing);
      IsSemesterHeader(h) && ParseOrdinal(h.code.s) == Some(DigitsValue([d]))
  {
    HeaderLower(d);
    HeaderWords(d);
    OrdinalOfDigits([d], " cuatrimestre");
  }

  lemma HeaderLower(d: char)
    requires IsDigit(d)
    ensures ToLower([d] + " cuatrimestre") == [d] + " cuatrimestre"
  {
    var t := [d] + " cuatrimestre";
    forall i | 0 <= i < |t| ensures ToLower(t)[i] == t[i] {
      if i > 0 {
        assert t[i] == " cuatrimestre"[i - 1];
      }
    }
  }

  lemma HeaderWords(d: char)
    requires IsDigit(d)
    ensures Contains([d] + " cuatrimestre", "cuatrimestre") && !Contains([d] + " cuatrimestre", YearWord)
  {
    var t := [d] + " cuatrimestre";
    assert t[2..] == "cuatrimestre";
    ContainsAt(t, "cuatrimestre", 2);
    forall i | 0 <= i < |t| ensures t[i] != '\U{00F1}' {
      if i > 0 {
        assert t[i] == " cuatrimestre"[i - 1];
      }
    }
    NoCharNotContains(t, YearWord, 1);
  }

  /** An instance: a subject row without semester cell between the headers "1 cuatrimestre"
      and "2 cuatrimestre" (any two different digits) is given the second semester, and the
      first when read as intended. */
  lemma SemesterExample(d1: char, d2: char, h1: SheetRow, r: SheetRow, h2: SheetRow)
    requires IsDigit(d1) && IsDigit(d2) && d1 != d2
    requires h1 == SheetRow(Str([d1] + " cuatrimestre"), Missing, Missing, Missing, Missing)
    requires h2 == SheetRow(Str([d2] + " cuatrimestre"), Missing, Missing, Missing, Missing)
    requires IsSubjectRow(r) && !r.semester.Str?
    ensures Convert([h1, r, h2]).Some? && |Convert([h1, r, h2]).value| == 1
    ensures ConvertIntended([h1, r, h2]).Some? && |ConvertIntended([h1, r, h2]).value| == 1
    ensures Convert([h1, r, h2]).value[0].semester == Some(DigitsValue([d2]))
    ensures ConvertIntended([h1, r, h2]).value[0].semester == Some(DigitsValue([d1]))
    ensures DigitsValue([d1]) != DigitsValue([d2])
  {
    HeaderExample(d1);
    HeaderExample(d2);
    SemesterFromLastHeader(h1, r, h2);
    DigitsDiffer(d1, d2);
  }

  lemma DigitsDiffer(d1: char, d2: char)
    requires IsDigit(d1) && IsDigit(d2) && d1 != d2
    ensures DigitsValue([d1]) != DigitsValue([d2])
  {
    assert [d1][..0] == [] && [d2][..0] == [];
  }
}
