/** `parsePrerequisites` (lib/curriculum-parser.ts:3-19): the global regular expression
    `\(([^,]+),\s*([^)]+)\)` run repeatedly over a prerequisite string, one `(ID, Condition)`
    entry per match, both parts trimmed. */
module PrereqParser {
  import opened Wrappers
  import opened Strings
  import opened Types

  /** The regular expression anchored at the start of `t`: an opening parenthesis, a non-empty run
      without ',' up to the first ',', then a non-empty run without ')' up to the first ')'.
      The `\s*` between the comma and the condition only moves white space that trimming removes
      anyway, so the condition is the trimmed text between the comma and the parenthesis. The
      result is the entry and the length of the matched text. */
  function MatchHere(t: string): (r: Option<(Prereq, nat)>)
    ensures r.Some? ==> 0 < r.value.1 <= |t|
  {
    if t == [] || t[0] != '(' then None
    else match IndexOfChar(t[1..], ',')
      case None => None
      case Some(a) =>
        if a == 0 then None
        else
          var c := 1 + a;
          match IndexOfChar(t[c + 1..], ')')
          case None => None
          case Some(b) =>
            if b == 0 then None
            else
              var e := c + 1 + b;
              Some((Prereq(Trim(t[1..c]), Trim(t[c + 1..e])), e + 1))
  }

  /** One `regex.exec` call on the text from `lastIndex` on: the leftmost match, as its start
      offset, its entry and its end offset. */
  function Exec(t: string): (r: Option<(nat, Prereq, nat)>)
    ensures r.Some? ==> r.value.0 < r.value.2 <= |t|
  {
    match MatchHere(t)
    case Some((e, n)) => Some((0, e, n))
    case None =>
      if t == [] then None
      else match Exec(t[1..])
        case None => None
        case Some((j, e, k)) => Some((j + 1, e, k + 1))
  }

  /** `Exec` skips exactly the positions at which the expression does not match. */
  lemma {:induction false} ExecIsLeftmost(t: string)
    ensures Exec(t).Some? ==> forall j :: 0 <= j < Exec(t).value.0 ==> MatchHere(t[j..]).None?
    ensures Exec(t).None? ==> forall j :: 0 <= j <= |t| ==> MatchHere(t[j..]).None?
  {
    if MatchHere(t).None? && t != [] {
      ExecIsLeftmost(t[1..]);
      var r := Exec(t[1..]);
      var bound := if r.Some? then r.value.0 + 1 else |t| + 1;
      forall j | 0 <= j < bound
        ensures MatchHere(t[j..]).None?
      {
        if j == 0 {
          assert t[0..] == t;
        } else {
          assert t[j..] == t[1..][j - 1..];
        }
      }
    }
  }

  /** All entries the global expression finds in `t`, in order. */
  function ParseRest(t: string): seq<Prereq>
  {
    match MatchHere(t)
    case Some((e, n)) => [e] + ParseRest(t[n..])
    case None => if t == [] then [] else ParseRest(t[1..])
  }

  /** The value of `parsePrerequisites`: no entries for a null or empty string. */
  function Parse(s: Option<string>): seq<Prereq> {
    if s.None? || s.value == "" then [] else ParseRest(s.value)
  }

  /** What one `exec` call contributes: nothing more when it fails, else its entry followed by
      the entries after its end. */
  lemma {:induction false} ExecStep(t: string)
    ensures Exec(t).None? ==> ParseRest(t) == []
    ensures Exec(t).Some? ==> ParseRest(t) == [Exec(t).value.1] + ParseRest(t[Exec(t).value.2..])
  {
    if MatchHere(t).None? && t != [] {
      ExecStep(t[1..]);
      match Exec(t[1..])
      case None =>
      case Some((j, e, k)) =>
        assert t[1..][k..] == t[k + 1..];
    }
  }

  /** The loop's invariant: the entries so far followed by those after `i` are all of them. */
  predicate Scanned(s: string, i: nat, prereqs: seq<Prereq>) {
    i <= |s| && prereqs + ParseRest(s[i..]) == ParseRest(s)
  }

  /** One turn of the source's loop keeps the invariant and moves forward. */
  lemma ExecAdvance(s: string, i: nat, prereqs: seq<Prereq>)
    requires Scanned(s, i, prereqs) && Exec(s[i..]).Some?
    ensures i < i + Exec(s[i..]).value.2 <= |s|
    ensures Scanned(s, i + Exec(s[i..]).value.2, prereqs + [Exec(s[i..]).value.1])
  {
    var rest := s[i..];
    var k := Exec(rest).value.2;
    ExecStep(rest);
    assert rest[k..] == s[i + k..];
  }

  /** When `exec` fails the entries so far are all of them. */
  lemma ExecDone(s: string, i: nat, prereqs: seq<Prereq>)
    requires Scanned(s, i, prereqs) && Exec(s[i..]).None?
    ensures prereqs == ParseRest(s)
  {
    ExecStep(s[i..]);
    assert prereqs + [] == prereqs;
  }

  /** The source's loop: `while ((match = regex.exec(s)) !== null) prerequisites.push(...)`. */
  method ParsePrerequisites(str: Option<string>) returns (prereqs: seq<Prereq>)
    ensures prereqs == Parse(str)
  {
    if str.None? || str.value == "" {
      return [];
    }
    var s := str.value;
    prereqs := [];
    var lastIndex := 0;
    assert s[lastIndex..] == s;
    var m := Exec(s[lastIndex..]);
    while m.Some?
      invariant Scanned(s, lastIndex, prereqs)
      invariant m == Exec(s[lastIndex..])
      decreases |s| - lastIndex
    {
      ExecAdvance(s, lastIndex, prereqs);
      prereqs := prereqs + [m.value.1];
      lastIndex := lastIndex + m.value.2;
      m := Exec(s[lastIndex..]);
    }
    ExecDone(s, lastIndex, prereqs);
  }

  /** Every entry has a trimmed ID without ',' and a trimmed condition without ')'. */
  lemma {:induction false} EntriesWellFormed(t: string)
    ensures forall k :: 0 <= k < |ParseRest(t)| ==>
      var p := ParseRest(t)[k];
      Trimmed(p.id) && Trimmed(p.condition) && NoChar(p.id, ',') && NoChar(p.condition, ')')
  {
    match MatchHere(t)
    case Some((e, n)) =>
      EntryWellFormed(t);
      EntriesWellFormed(t[n..]);
    case None =>
      if t != [] {
        EntriesWellFormed(t[1..]);
      }
  }

  lemma EntryWellFormed(t: string)
    requires MatchHere(t).Some?
    ensures var p := MatchHere(t).value.0;
      Trimmed(p.id) && Trimmed(p.condition) && NoChar(p.id, ',') && NoChar(p.condition, ')')
  {
    var a := IndexOfChar(t[1..], ',').value;
    var c := 1 + a;
    var b := IndexOfChar(t[c + 1..], ')').value;
    var e := c + 1 + b;
    PartWellFormed(t[1..], ',');
    PartWellFormed(t[c + 1..], ')');
    assert t[1..c] == t[1..][..a];
    assert t[c + 1..e] == t[c + 1..][..b];
  }

  /** The trimmed text before the first `ch` is trimmed and free of `ch`. */
  lemma PartWellFormed(u: string, ch: char)
    requires IndexOfChar(u, ch).Some?
    ensures Trimmed(Trim(u[..IndexOfChar(u, ch).value]))
    ensures NoChar(Trim(u[..IndexOfChar(u, ch).value]), ch)
  {
    var part := u[..IndexOfChar(u, ch).value];
    IndexOfCharSpec(u, ch);
    TrimNoChar(part, ch);
    TrimIsTrimmed(part);
  }

  /** Text without an opening parenthesis, such as "garbage text", yields no entries. */
  lemma {:induction false} NoParenNoEntries(t: string)
    requires NoChar(t, '(')
    ensures ParseRest(t) == []
  {
    if t != [] {
      assert MatchHere(t).None?;
      NoParenNoEntries(t[1..]);
    }
  }

  lemma GarbageText()
    ensures Parse(Some("garbage text")) == []
  {
    NoParenNoEntries("garbage text");
  }

  /** A separator ", " between entries is skipped. */
  lemma SkipSeparator(rest: string)
    ensures ParseRest(", " + rest) == ParseRest(rest)
  {
    var t := ", " + rest;
    assert t[0] == ',';
    assert MatchHere(t) == None;
    var u := t[1..];
    assert u == " " + rest;
    assert u[0] == ' ';
    assert MatchHere(u) == None;
    assert u[1..] == rest;
  }

  /** The text `(p, tag)` that the plan converter writes for one prerequisite. */
  function Entry(p: string, tag: string): string {
    "(" + p + ", " + tag + ")"
  }

  /** `', '.join(f"({p}, {tag})" ...)` over the converter's entries. */
  function JoinEntries(ps: seq<Prereq>): string {
    if ps == [] then ""
    else if |ps| == 1 then Entry(ps[0].id, ps[0].condition)
    else Entry(ps[0].id, ps[0].condition) + ", " + JoinEntries(ps[1..])
  }

  predicate WellFormedId(p: string) {
    p != [] && Trimmed(p) && NoChar(p, ',')
  }

  predicate WellFormedTag(tag: string) {
    Trimmed(tag) && NoChar(tag, ')')
  }

  /** The shape of a match: where the ID's comma and the condition's parenthesis are found. */
  lemma MatchHereAt(t: string, a: nat, b: nat, id: string, cond: string)
    requires t != [] && t[0] == '('
    requires IndexOfChar(t[1..], ',') == Some(a) && a > 0
    requires IndexOfChar(t[a + 2..], ')') == Some(b) && b > 0
    requires Trim(t[1..a + 1]) == id && Trim(t[a + 2..a + 2 + b]) == cond
    ensures MatchHere(t) == Some((Prereq(id, cond), a + b + 3))
  {
  }

  lemma EntryComma(p: string, tag: string, rest: string)
    requires WellFormedId(p)
    ensures IndexOfChar((Entry(p, tag) + rest)[1..], ',') == Some(|p|)
    ensures Trim((Entry(p, tag) + rest)[1..|p| + 1]) == p
  {
    var t := Entry(p, tag) + rest;
    var more := ", " + tag + ")" + rest;
    assert t[1..] == p + more;
    IndexOfCharAppend(p, more, ',');
    assert more[0] == ',';
    assert t[1..|p| + 1] == p;
    TrimOfTrimmed(p);
  }

  lemma EntryParen(p: string, tag: string, rest: string)
    requires WellFormedTag(tag)
    ensures IndexOfChar((Entry(p, tag) + rest)[|p| + 2..], ')') == Some(|tag| + 1)
    ensures Trim((Entry(p, tag) + rest)[|p| + 2..|p| + 2 + (|tag| + 1)]) == tag
  {
    var t := Entry(p, tag) + rest;
    var sp := " " + tag;
    var tail := ")" + rest;
    assert t[|p| + 2..] == sp + tail;
    assert NoChar(sp, ')');
    IndexOfCharAppend(sp, tail, ')');
    assert tail[0] == ')';
    assert t[|p| + 2..|p| + 2 + (|tag| + 1)] == sp;
    TrimSkipsLeadingSpace(" ", tag);
    TrimOfTrimmed(tag);
  }

  /** A single converter entry is matched entirely, giving back its ID and tag. */
  lemma MatchEntry(p: string, tag: string, rest: string)
    requires WellFormedId(p) && WellFormedTag(tag)
    ensures MatchHere(Entry(p, tag) + rest) == Some((Prereq(p, tag), |Entry(p, tag)|))
  {
    var t := Entry(p, tag) + rest;
    assert t[0] == '(';
    EntryComma(p, tag, rest);
    EntryParen(p, tag, rest);
    MatchHereAt(t, |p|, |tag| + 1, p, tag);
  }

  lemma ParseEntry(p: string, tag: string, rest: string)
    requires WellFormedId(p) && WellFormedTag(tag)
    ensures ParseRest(Entry(p, tag) + rest) == [Prereq(p, tag)] + ParseRest(rest)
  {
    MatchEntry(p, tag, rest);
    assert (Entry(p, tag) + rest)[|Entry(p, tag)|..] == rest;
  }

  /** Cross-file round trip: parsing what the converter writes gives back its entries, in
      order. */
  lemma {:induction false} ParseJoinedEntries(ps: seq<Prereq>)
    requires forall i :: 0 <= i < |ps| ==> WellFormedId(ps[i].id) && WellFormedTag(ps[i].condition)
    ensures ParseRest(JoinEntries(ps)) == ps
  {
    if ps == [] {
    } else if |ps| == 1 {
      ParseEntry(ps[0].id, ps[0].condition, "");
      assert Entry(ps[0].id, ps[0].condition) + "" == Entry(ps[0].id, ps[0].condition);
    } else {
      var e := Entry(ps[0].id, ps[0].condition);
      var rest := JoinEntries(ps[1..]);
      assert e + ", " + rest == e + (", " + rest);
      ParseEntry(ps[0].id, ps[0].condition, ", " + rest);
      SkipSeparator(rest);
      ParseJoinedEntries(ps[1..]);
      assert [ps[0]] + ps[1..] == ps;
    }
  }

  lemma ExampleText()
    ensures "(101, Aprobada), (102, Regularizada)"
         == Entry("101", "Aprobada") + (", " + Entry("102", "Regularizada"))
  {
  }

  /** Two converter entries separated by ", " parse to the two prerequisites. */
  lemma ParseTwo(p1: string, t1: string, p2: string, t2: string)
    requires WellFormedId(p1) && WellFormedTag(t1) && WellFormedId(p2) && WellFormedTag(t2)
    ensures ParseRest(Entry(p1, t1) + (", " + Entry(p2, t2))) == [Prereq(p1, t1), Prereq(p2, t2)]
  {
    var e2 := Entry(p2, t2);
    ParseEntry(p1, t1, ", " + e2);
    SkipSeparator(e2);
    ParseEntry(p2, t2, "");
    assert e2 + "" == e2;
  }

  lemma ExampleWellFormed()
    ensures WellFormedId("101") && WellFormedId("102")
    ensures WellFormedTag("Aprobada") && WellFormedTag("Regularizada")
  {
  }

  /** The example from the source's comment. */
  lemma TwoEntries()
    ensures Parse(Some("(101, Aprobada), (102, Regularizada)"))
         == [Prereq("101", "Aprobada"), Prereq("102", "Regularizada")]
  {
    ExampleText();
    ExampleWellFormed();
    ParseTwo("101", "Aprobada", "102", "Regularizada");
  }
}
