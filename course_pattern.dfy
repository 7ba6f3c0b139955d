/** The pattern `^(.+?)\s*\(([^)]+)\)` with which both Excel readers split an activity cell such
    as "Álgebra I (MA101)" into a course name and an ID. The upload route anchors it at the end
    with `$` (app/api/parse-plan/route.ts:139); the Python reader does not
    (parse_plan_estudios.py:164). */
module CoursePattern {
  import opened Wrappers
  import opened Strings

  /** The regular-expression dialect: what `.` refuses differs between the two. */
  datatype Dialect = JavaScript | Python

  /** JavaScript's `.` stops at any line terminator, Python's only at "\n". */
  predicate DotMatches(c: char, d: Dialect) {
    match d
    case JavaScript => !IsLineTerminator(c)
    case Python => c != '\n'
  }

  /** `\s*\(([^)]+)\)` at the start of `t`, and then the end of `t` when `anchored`; the captured
      ID text. `\s*` can only take all the leading white space, since `(` is not white space, and
      `[^)]+` only the text up to the next `)`. */
  function Tail(t: string, anchored: bool): Option<string> {
    var w := LeadingSpaces(t);
    if w < |t| && t[w] == '(' then
      var rest := t[w + 1..];
      match IndexOfChar(rest, ')')
      case None => None
      case Some(e) =>
        if e == 0 || (anchored && e + 1 != |rest|) then None else Some(rest[..e])
    else None
  }

  /** `t` spelled as the tail: white space, `(`, a non-empty ID free of `)`, `)`, then `more`. */
  ghost predicate TailShape(t: string, x: string, more: string) {
    exists w :: (forall i :: 0 <= i < |w| ==> IsSpace(w[i])) && t == w + "(" + x + ")" + more
  }

  /** White space up to `w`, "(" at `w` and ")" at `j` give the shape with the text between. */
  lemma ShapeAt(t: string, w: nat, j: nat)
    requires w < j < |t| && t[w] == '(' && t[j] == ')'
    requires forall i :: 0 <= i < w ==> IsSpace(t[i])
    ensures TailShape(t, t[w + 1..j], t[j + 1..])
  {
    var ws := t[..w];
    var u := ws + "(" + t[w + 1..j] + ")" + t[j + 1..];
    assert |u| == |t|;
    forall i | 0 <= i < |t| ensures u[i] == t[i] {
      if i < w {
      } else if i == w {
      } else if i < j {
        assert u[i] == t[w + 1..j][i - w - 1];
      } else if i == j {
      } else {
        assert u[i] == t[j + 1..][i - j - 1];
      }
    }
    assert u == t;
    assert forall i :: 0 <= i < |ws| ==> IsSpace(ws[i]);
  }

  /** What the tail captures is a non-empty ID without `)`, written between parentheses after
      some white space; anchored, nothing follows. */
  lemma TailSound(t: string, anchored: bool)
    requires Tail(t, anchored).Some?
    ensures var x := Tail(t, anchored).value;
      x != [] && NoChar(x, ')') &&
      exists more :: TailShape(t, x, more) && (anchored ==> more == [])
  {
    var w := LeadingSpaces(t);
    var rest := t[w + 1..];
    var e := IndexOfChar(rest, ')').value;
    IndexOfCharSpec(rest, ')');
    var j := w + 1 + e;
    assert rest[..e] == t[w + 1..j];
    assert rest[e + 1..] == t[j + 1..];
    ShapeAt(t, w, j);
  }

  /** Conversely every text of that shape is matched, with that ID. */
  lemma TailComplete(t: string, w: string, x: string, more: string, anchored: bool)
    requires forall i :: 0 <= i < |w| ==> IsSpace(w[i])
    requires x != [] && NoChar(x, ')')
    requires t == w + "(" + x + ")" + more
    requires anchored ==> more == []
    ensures Tail(t, anchored) == Some(x)
  {
    var k := LeadingSpaces(t);
    assert forall i :: 0 <= i < |w| ==> t[i] == w[i];
    assert t[|w|] == '(';
    assert k == |w|;
    var rest := t[|w| + 1..];
    assert rest == x + ")" + more;
    assert rest[..|x|] == x;
    IndexOfCharAt(rest, ')', |x|);
  }

  /** The lazy `(.+?)`: the shortest name `s[..k]` from `k` on after which the tail matches;
      the name grows one `.`-matching character at a time. */
  function LazyMatch(s: string, k: nat, anchored: bool, d: Dialect): (r: Option<(nat, string)>)
    requires 1 <= k
    ensures r.Some? ==> k <= r.value.0 <= |s|
    decreases |s| - k
  {
    if k > |s| then None
    else if !DotMatches(s[k - 1], d) then None
    else match Tail(s[k..], anchored)
      case Some(x) => Some((k, x))
      case None => LazyMatch(s, k + 1, anchored, d)
  }

  /** `activity.match(...)` / `re.search(...)`: the length of the name and the captured ID. */
  function Match(s: string, anchored: bool, d: Dialect): Option<(nat, string)> {
    LazyMatch(s, 1, anchored, d)
  }

  /** `s[..k]` is a name the pattern can capture and the tail matches after it with ID `x`. */
  ghost predicate IsMatch(s: string, k: nat, x: string, anchored: bool, d: Dialect) {
    1 <= k <= |s| && (forall i :: 0 <= i < k ==> DotMatches(s[i], d)) && Tail(s[k..], anchored) == Some(x)
  }

  lemma {:induction false} LazyMatchFound(s: string, k: nat, anchored: bool, d: Dialect)
    requires 1 <= k
    requires forall i :: 0 <= i < k - 1 && i < |s| ==> DotMatches(s[i], d)
    requires LazyMatch(s, k, anchored, d).Some?
    ensures IsMatch(s, LazyMatch(s, k, anchored, d).value.0, LazyMatch(s, k, anchored, d).value.1, anchored, d)
    ensures forall j :: k <= j < LazyMatch(s, k, anchored, d).value.0 ==> Tail(s[j..], anchored).None?
    decreases |s| - k
  {
    assert k <= |s| && DotMatches(s[k - 1], d);
    var t := Tail(s[k..], anchored);
    if t.Some? {
      assert LazyMatch(s, k, anchored, d) == Some((k, t.value));
    } else {
      assert LazyMatch(s, k, anchored, d) == LazyMatch(s, k + 1, anchored, d);
      LazyMatchFound(s, k + 1, anchored, d);
    }
  }

  /** When the search from `k` finds nothing, no name of length `j >= k` matches. */
  lemma {:induction false} LazyMatchNone(s: string, k: nat, anchored: bool, d: Dialect, j: nat, x: string)
    requires 1 <= k <= j
    requires LazyMatch(s, k, anchored, d).None?
    ensures !IsMatch(s, j, x, anchored, d)
    decreases j - k
  {
    if k <= |s| && DotMatches(s[k - 1], d) {
      if j == k {
        assert Tail(s[k..], anchored).None?;
      } else {
        assert LazyMatch(s, k + 1, anchored, d).None?;
        LazyMatchNone(s, k + 1, anchored, d, j, x);
      }
    } else if j <= |s| {
      assert !DotMatches(s[k - 1], d);
    }
  }

  /** The match is the shortest matching name, and there is none when nothing is returned. */
  lemma MatchSpec(s: string, anchored: bool, d: Dialect)
    ensures Match(s, anchored, d).Some? ==>
      var (k, x) := Match(s, anchored, d).value;
      IsMatch(s, k, x, anchored, d) && forall j :: 1 <= j < k ==> Tail(s[j..], anchored).None?
    ensures Match(s, anchored, d).None? ==> forall j, x :: !IsMatch(s, j, x, anchored, d)
  {
    if Match(s, anchored, d).Some? {
      LazyMatchFound(s, 1, anchored, d);
    } else {
      forall j, x ensures !IsMatch(s, j, x, anchored, d) {
        if 1 <= j {
          LazyMatchNone(s, 1, anchored, d, j, x);
        }
      }
    }
  }

  /** The course name and ID of an activity cell, both trimmed. */
  function NameAndId(s: string, anchored: bool, d: Dialect): Option<(string, string)> {
    match Match(s, anchored, d)
    case None => None
    case Some((k, x)) => if k <= |s| then Some((Trim(s[..k]), Trim(x))) else None
  }

  /** Whatever the route's anchored pattern accepts, the Python reader accepts too, with a name
      no longer than the route's. */
  lemma AnchoredThenUnanchored(s: string)
    requires Match(s, true, JavaScript).Some?
    ensures Match(s, false, Python).Some?
    ensures Match(s, false, Python).value.0 <= Match(s, true, JavaScript).value.0
  {
    MatchSpec(s, true, JavaScript);
    MatchSpec(s, false, Python);
    var (k, x) := Match(s, true, JavaScript).value;
    assert IsMatch(s, k, x, false, Python);
  }

  /** The anchored pattern only accepts text ending in `)`. */
  lemma AnchoredEndsWithParen(s: string, k: nat, y: string, d: Dialect)
    requires IsMatch(s, k, y, true, d)
    ensures |s| > 0 && s[|s| - 1] == ')'
  {
    TailSound(s[k..], true);
    var w :| (forall i :: 0 <= i < |w| ==> IsSpace(w[i])) && s[k..] == w + "(" + y + ")" + [];
    assert s[k..][|s[k..]| - 1] == ')';
  }

  /** A cell with text after its parenthesised ID (such as "Álgebra (MA101) - Recursada") is a
      course for the Python reader, whose pattern stops at the `)`. */
  lemma TrailingTextPython(n: string, x: string, more: string)
    requires n != [] && forall i :: 0 <= i < |n| ==> n[i] != '\n'
    requires x != [] && NoChar(x, ')')
    ensures NameAndId(n + "(" + x + ")" + more, false, Python).Some?
  {
    var s := n + "(" + x + ")" + more;
    MatchSpec(s, false, Python);
    var t := s[|n|..];
    assert t == [] + "(" + x + ")" + more;
    TailComplete(t, [], x, more, false);
    assert forall i :: 0 <= i < |n| ==> s[i] == n[i];
    assert IsMatch(s, |n|, x, false, Python);
  }

  /** The route's pattern must end at the `)`: a cell ending otherwise, such as
      "Álgebra (MA101) - Recursada", is no course for it. */
  lemma TrailingTextRoute(s: string)
    requires s == [] || s[|s| - 1] != ')'
    ensures NameAndId(s, true, JavaScript).None?
  {
    MatchSpec(s, true, JavaScript);
    forall k, y | IsMatch(s, k, y, true, JavaScript)
      ensures false
    {
      AnchoredEndsWithParen(s, k, y, JavaScript);
    }
  }
}
