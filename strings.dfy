/** Character classes and string operations shared by the TypeScript, JavaScript and Python code:
    trimming, case mapping, substring search, splitting and joining. */
module Strings {
  import opened Wrappers

  /** The white space and line terminators that `String.prototype.trim` and the regular-expression
      class `\s` recognise in JavaScript. */
  predicate IsSpace(c: char) {
    || c == ' ' || c == '\t' || c == '\n' || c == '\r' || c == '\U{000B}' || c == '\U{000C}'
    || c == '\U{00A0}' || c == '\U{1680}' || ('\U{2000}' <= c <= '\U{200A}')
    || c == '\U{2028}' || c == '\U{2029}' || c == '\U{202F}' || c == '\U{205F}'
    || c == '\U{3000}' || c == '\U{FEFF}'
  }

  /** The characters a JavaScript `.` does not match and at which a multiline `^`/`$` anchors. */
  predicate IsLineTerminator(c: char) {
    c == '\n' || c == '\r' || c == '\U{2028}' || c == '\U{2029}'
  }

  predicate IsDigit(c: char) {
    '0' <= c <= '9'
  }

  predicate AllDigits(s: string) {
    forall i :: 0 <= i < |s| ==> IsDigit(s[i])
  }

  predicate NoChar(s: string, c: char) {
    forall i :: 0 <= i < |s| ==> s[i] != c
  }

  /** Removes leading white space. */
  function TrimStart(s: string): (r: string)
    ensures |r| <= |s|
  {
    if s != [] && IsSpace(s[0]) then TrimStart(s[1..]) else s
  }

  /** `TrimStart` drops exactly the leading white space. */
  lemma {:induction false} TrimStartSpec(s: string)
    ensures TrimStart(s) == s[|s| - |TrimStart(s)|..]
    ensures TrimStart(s) == [] || !IsSpace(TrimStart(s)[0])
    ensures forall i :: 0 <= i < |s| - |TrimStart(s)| ==> IsSpace(s[i])
  {
    if s != [] && IsSpace(s[0]) {
      TrimStartSpec(s[1..]);
      forall i | 1 <= i < |s| - |TrimStart(s)| ensures IsSpace(s[i]) {
        assert s[i] == s[1..][i - 1];
      }
      assert s[1..][|s[1..]| - |TrimStart(s)|..] == s[|s| - |TrimStart(s)|..];
    }
  }

  /** Removes trailing white space. */
  function TrimEnd(s: string): (r: string)
    ensures |r| <= |s|
  {
    if s != [] && IsSpace(s[|s| - 1]) then TrimEnd(s[..|s| - 1]) else s
  }

  /** `TrimEnd` drops exactly the trailing white space. */
  lemma {:induction false} TrimEndSpec(s: string)
    ensures TrimEnd(s) == s[..|TrimEnd(s)|]
    ensures TrimEnd(s) == [] || !IsSpace(TrimEnd(s)[|TrimEnd(s)| - 1])
    ensures forall i :: |TrimEnd(s)| <= i < |s| ==> IsSpace(s[i])
  {
    if s != [] && IsSpace(s[|s| - 1]) {
      var u := s[..|s| - 1];
      TrimEndSpec(u);
      forall i | |TrimEnd(s)| <= i < |s| - 1 ensures IsSpace(s[i]) {
        assert s[i] == u[i];
      }
      assert u[..|TrimEnd(s)|] == s[..|TrimEnd(s)|];
    }
  }

  /** `String.prototype.trim` (and Python's `strip()` over the same character class). */
  function Trim(s: string): (r: string)
  {
    TrimEnd(TrimStart(s))
  }

  /** A string that starts and ends with a non-space character, or is empty. */
  predicate Trimmed(s: string) {
    s == [] || (!IsSpace(s[0]) && !IsSpace(s[|s| - 1]))
  }

  lemma TrimStartOfNonSpace(s: string)
    requires s == [] || !IsSpace(s[0])
    ensures TrimStart(s) == s
  {
  }

  lemma TrimEndKeepsStart(s: string)
    requires s != [] && !IsSpace(s[0])
    ensures TrimEnd(s) != [] && TrimEnd(s)[0] == s[0]
  {
    TrimEndSpec(s);
  }

  /** Trimming yields a trimmed string, which trimming leaves alone. */
  lemma TrimIsTrimmed(s: string)
    ensures Trimmed(Trim(s))
    ensures Trim(Trim(s)) == Trim(s)
  {
    var t := TrimStart(s);
    TrimStartSpec(s);
    TrimEndSpec(t);
    if t != [] {
      TrimEndKeepsStart(t);
    }
    TrimOfTrimmed(Trim(s));
  }

  lemma {:induction false} TrimOfTrimmed(s: string)
    requires Trimmed(s)
    ensures Trim(s) == s
  {
    TrimStartOfNonSpace(s);
  }

  /** Trimming only removes characters, so a character absent from `s` is absent from `Trim(s)`. */
  lemma TrimNoChar(s: string, c: char)
    requires NoChar(s, c)
    ensures NoChar(Trim(s), c)
  {
    var t := TrimStart(s);
    TrimStartSpec(s);
    TrimEndSpec(t);
    assert NoChar(t, c) by {
      forall i | 0 <= i < |t| ensures t[i] != c {
        assert t[i] == s[|s| - |t| + i];
      }
    }
    var r := TrimEnd(t);
    forall i | 0 <= i < |r| ensures r[i] != c {
      assert r[i] == t[i];
    }
  }

  /** Leading white space does not change the trimmed text. */
  lemma {:induction false} TrimSkipsLeadingSpace(w: string, s: string)
    requires forall i :: 0 <= i < |w| ==> IsSpace(w[i])
    ensures Trim(w + s) == Trim(s)
  {
    if w != [] {
      assert (w + s)[1..] == w[1..] + s;
      TrimSkipsLeadingSpace(w[1..], s);
    } else {
      assert w + s == s;
    }
  }

  predicate IsPrefix(p: string, s: string) {
    |p| <= |s| && s[..|p|] == p
  }

  /** `s.includes(t)` in JavaScript, `t in s` in Python. */
  predicate Contains(s: string, t: string) {
    exists i :: 0 <= i <= |s| - |t| && IsPrefix(t, s[i..])
  }

  lemma ContainsAt(s: string, t: string, i: nat)
    requires i + |t| <= |s| && s[i..i + |t|] == t
    ensures Contains(s, t)
  {
    assert IsPrefix(t, s[i..]);
  }

  /** A string that lacks one of the characters of `t` does not contain `t`. */
  lemma NoCharNotContains(s: string, t: string, k: nat)
    requires k < |t| && NoChar(s, t[k])
    ensures !Contains(s, t)
  {
    forall i | 0 <= i <= |s| - |t| ensures !IsPrefix(t, s[i..]) {
      assert s[i..][k] == s[i + k];
    }
  }

  /** A string contains every string it starts with. */
  lemma ContainsPrefix(s: string, t: string)
    requires IsPrefix(t, s)
    ensures Contains(s, t)
  {
    assert s[0..] == s;
  }

  /** A string contains what any of its parts contains. */
  lemma ContainsInPart(a: string, b: string, c: string, t: string)
    requires Contains(b, t)
    ensures Contains(a + b + c, t)
  {
    var i :| 0 <= i <= |b| - |t| && IsPrefix(t, b[i..]);
    var s := a + b + c;
    assert s[|a| + i..][..|t|] == b[i..][..|t|];
    assert IsPrefix(t, s[|a| + i..]);
  }

  /** Index of the first occurrence of character `c`. */
  function IndexOfChar(s: string, c: char): (r: Option<nat>)
    ensures r.Some? ==> r.value < |s|
  {
    if s == [] then None
    else if s[0] == c then Some(0)
    else match IndexOfChar(s[1..], c)
      case None => None
      case Some(k) => Some(k + 1)
  }

  /** `IndexOfChar` finds the first occurrence, and nothing only when there is none. */
  lemma {:induction false} IndexOfCharSpec(s: string, c: char)
    ensures IndexOfChar(s, c).None? <==> NoChar(s, c)
    ensures IndexOfChar(s, c).Some? ==>
      s[IndexOfChar(s, c).value] == c && NoChar(s[..IndexOfChar(s, c).value], c)
  {
    if s != [] && s[0] != c {
      IndexOfCharSpec(s[1..], c);
      match IndexOfChar(s[1..], c)
      case None =>
        assert forall i :: 1 <= i < |s| ==> s[i] == s[1..][i - 1];
      case Some(k) =>
        assert s[1..][..k] == s[1..k + 1];
        assert forall i :: 1 <= i < k + 1 ==> s[i] == s[1..][i - 1];
    }
  }

  lemma {:induction false} IndexOfCharAppend(a: string, b: string, c: char)
    requires NoChar(a, c)
    ensures IndexOfChar(a + b, c) == match IndexOfChar(b, c)
                                     case None => None
                                     case Some(k) => Some(|a| + k)
  {
    if a == [] {
      assert a + b == b;
    } else {
      assert (a + b)[1..] == a[1..] + b;
      assert (a + b)[0] == a[0];
      IndexOfCharAppend(a[1..], b, c);
    }
  }

  /** Index of the first occurrence of a non-empty `sep`. */
  function IndexOf(s: string, sep: string): (r: Option<nat>)
    requires sep != []
    ensures r.Some? ==> r.value + |sep| <= |s| && IsPrefix(sep, s[r.value..])
    decreases |s|
  {
    if |s| < |sep| then None
    else if IsPrefix(sep, s) then Some(0)
    else
      match IndexOf(s[1..], sep)
      case None => None
      case Some(k) => Some(k + 1)
  }

  /** `IndexOf` finds the first occurrence, and finds nothing only when there is none. */
  lemma {:induction false} IndexOfFirst(s: string, sep: string)
    requires sep != []
    ensures IndexOf(s, sep).Some? ==> forall j :: 0 <= j < IndexOf(s, sep).value ==> !IsPrefix(sep, s[j..])
    ensures IndexOf(s, sep).None? ==> forall j :: 0 <= j <= |s| ==> !IsPrefix(sep, s[j..])
    decreases |s|
  {
    if |s| >= |sep| && !IsPrefix(sep, s) {
      IndexOfFirst(s[1..], sep);
      assert forall j :: 1 <= j <= |s| ==> s[j..] == s[1..][j - 1..];
    }
  }

  /** `s.split(sep)` for a non-empty string separator (JavaScript and Python agree on this case). */
  function Split(s: string, sep: string): (parts: seq<string>)
    requires sep != []
    ensures |parts| >= 1
    decreases |s|
  {
    match IndexOf(s, sep)
    case None => [s]
    case Some(k) => [s[..k]] + Split(s[k + |sep|..], sep)
  }

  /** `parts.join(sep)`. */
  function Join(parts: seq<string>, sep: string): string {
    if parts == [] then ""
    else if |parts| == 1 then parts[0]
    else parts[0] + sep + Join(parts[1..], sep)
  }

  /** Joining the pieces of a split gives back the original text. */
  lemma {:induction false} JoinSplit(s: string, sep: string)
    requires sep != []
    ensures Join(Split(s, sep), sep) == s
    decreases |s|
  {
    match IndexOf(s, sep)
    case None =>
    case Some(k) =>
      var rest := s[k + |sep|..];
      var parts := Split(rest, sep);
      assert Split(s, sep) == [s[..k]] + parts;
      JoinCons(s[..k], parts, sep);
      JoinSplit(rest, sep);
      Around(s, k, sep);
  }

  /** Text with `sep` at `k` is what comes before it, `sep`, and what comes after. */
  lemma Around(s: string, k: nat, sep: string)
    requires k + |sep| <= |s| && IsPrefix(sep, s[k..])
    ensures s == s[..k] + sep + s[k + |sep|..]
  {
    assert s[k..k + |sep|] == sep;
  }

  lemma JoinCons(x: string, parts: seq<string>, sep: string)
    requires parts != []
    ensures Join([x] + parts, sep) == x + sep + Join(parts, sep)
  {
    assert ([x] + parts)[1..] == parts;
  }

  /** Text with no occurrence of `sep` does not contain it. */
  lemma NotFoundNotContained(s: string, sep: string)
    requires sep != [] && IndexOf(s, sep).None?
    ensures !Contains(s, sep)
  {
    IndexOfFirst(s, sep);
  }

  /** The text before the first occurrence of `sep` does not contain it. */
  lemma BeforeFirstNotContained(s: string, sep: string, k: nat)
    requires sep != [] && IndexOf(s, sep) == Some(k)
    ensures !Contains(s[..k], sep)
  {
    var p := s[..k];
    IndexOfFirst(s, sep);
    forall j | 0 <= j <= |p| - |sep| ensures !IsPrefix(sep, p[j..]) {
      assert s[j..][..|sep|] == p[j..][..|sep|];
      assert !IsPrefix(sep, s[j..]);
    }
  }

  /** No piece produced by a split contains the separator. */
  lemma {:induction false} SplitPiecesAvoidSeparator(s: string, sep: string, i: nat)
    requires sep != []
    requires i < |Split(s, sep)|
    ensures !Contains(Split(s, sep)[i], sep)
    decreases |s|
  {
    match IndexOf(s, sep)
    case None =>
      NotFoundNotContained(s, sep);
    case Some(k) =>
      var rest := s[k + |sep|..];
      assert Split(s, sep) == [s[..k]] + Split(rest, sep);
      if i == 0 {
        BeforeFirstNotContained(s, sep, k);
      } else {
        SplitPiecesAvoidSeparator(rest, sep, i - 1);
        assert Split(s, sep)[i] == Split(rest, sep)[i - 1];
      }
  }

  /** Case mapping of ASCII letters and of the accented letters of Spanish. */
  function LowerChar(c: char): char {
    if 'A' <= c <= 'Z' then (c as int + 32) as char
    else if c == '\U{00C1}' then '\U{00E1}'
    else if c == '\U{00C9}' then '\U{00E9}'
    else if c == '\U{00CD}' then '\U{00ED}'
    else if c == '\U{00D3}' then '\U{00F3}'
    else if c == '\U{00DA}' then '\U{00FA}'
    else if c == '\U{00D1}' then '\U{00F1}'
    else if c == '\U{00DC}' then '\U{00FC}'
    else c
  }

  function UpperChar(c: char): char {
    if 'a' <= c <= 'z' then (c as int - 32) as char
    else if c == '\U{00E1}' then '\U{00C1}'
    else if c == '\U{00E9}' then '\U{00C9}'
    else if c == '\U{00ED}' then '\U{00CD}'
    else if c == '\U{00F3}' then '\U{00D3}'
    else if c == '\U{00FA}' then '\U{00DA}'
    else if c == '\U{00F1}' then '\U{00D1}'
    else if c == '\U{00FC}' then '\U{00DC}'
    else c
  }

  function ToLower(s: string): (r: string)
    ensures |r| == |s| && forall i :: 0 <= i < |s| ==> r[i] == LowerChar(s[i])
  {
    seq(|s|, i requires 0 <= i < |s| => LowerChar(s[i]))
  }

  function ToUpper(s: string): (r: string)
    ensures |r| == |s| && forall i :: 0 <= i < |s| ==> r[i] == UpperChar(s[i])
  {
    seq(|s|, i requires 0 <= i < |s| => UpperChar(s[i]))
  }

  /** `s.replace(/c/g, r)` for a single character `c`. */
  function ReplaceChar(s: string, c: char, r: string): (t: string)
    ensures NoChar(s, c) ==> t == s
  {
    if s == [] then ""
    else (if s[0] == c then r else [s[0]]) + ReplaceChar(s[1..], c, r)
  }

  /** Decimal text of a natural number, as `String(n)` and `str(n)` print it. */
  function NatToString(n: nat): (s: string)
    ensures s != [] && forall i :: 0 <= i < |s| ==> IsDigit(s[i])
  {
    if n < 10 then [('0' as int + n) as char]
    else NatToString(n / 10) + [('0' as int + n % 10) as char]
  }

  /** Value of a non-empty run of decimal digits. */
  function DigitsValue(s: string): nat
    requires forall i :: 0 <= i < |s| ==> IsDigit(s[i])
  {
    if s == [] then 0
    else
      assert IsDigit(s[|s| - 1]);
      DigitsValue(s[..|s| - 1]) * 10 + (s[|s| - 1] as int - '0' as int)
  }

  /** Reading back the printed digits of a number gives the number. */
  lemma {:induction false} DigitsValueOfNatToString(n: nat)
    ensures DigitsValue(NatToString(n)) == n
  {
    if n >= 10 {
      var s := NatToString(n);
      DigitsValueOfNatToString(n / 10);
      assert s[..|s| - 1] == NatToString(n / 10);
    }
  }

  /** Length of the longest prefix made of decimal digits. */
  function LeadingDigits(s: string): (k: nat)
    ensures k <= |s| && (forall i :: 0 <= i < k ==> IsDigit(s[i])) && (k == |s| || !IsDigit(s[k]))
  {
    if s != [] && IsDigit(s[0]) then 1 + LeadingDigits(s[1..]) else 0
  }

  /** Length of the longest prefix made of white space. */
  function LeadingSpaces(s: string): (k: nat)
    ensures k <= |s| && (forall i :: 0 <= i < k ==> IsSpace(s[i])) && (k == |s| || !IsSpace(s[k]))
  {
    if s != [] && IsSpace(s[0]) then 1 + LeadingSpaces(s[1..]) else 0
  }

  /** Containment is transitive. */
  lemma ContainsTrans(s: string, t: string, u: string)
    requires Contains(s, t) && Contains(t, u)
    ensures Contains(s, u)
  {
    var i :| 0 <= i <= |s| - |t| && IsPrefix(t, s[i..]);
    var j :| 0 <= j <= |t| - |u| && IsPrefix(u, t[j..]);
    assert t == s[i..i + |t|];
    assert u == t[j..j + |u|];
    assert t[j..j + |u|] == s[i + j..i + j + |u|];
    assert s[i + j..][..|u|] == s[i + j..i + j + |u|];
  }

  /** A string contains no longer string, and of its own length only itself. */
  lemma ContainsLength(s: string, t: string)
    requires Contains(s, t)
    ensures |t| <= |s|
    ensures |t| == |s| ==> s == t
  {
    var i :| 0 <= i <= |s| - |t| && IsPrefix(t, s[i..]);
  }

  /** Lower-casing keeps every occurrence of a lower-case string. */
  lemma ContainsLower(s: string, t: string)
    requires ToLower(t) == t && Contains(s, t)
    ensures Contains(ToLower(s), t)
  {
    var i :| 0 <= i <= |s| - |t| && IsPrefix(t, s[i..]);
    forall m | 0 <= m < |t| ensures ToLower(s)[i + m] == t[m] {
      assert s[i + m] == t[m];
      assert ToLower(t)[m] == LowerChar(t[m]);
    }
    assert ToLower(s)[i..][..|t|] == t;
  }

  /** The first occurrence of `c`, named by its position. */
  lemma IndexOfCharAt(s: string, c: char, j: nat)
    requires j < |s| && s[j] == c && NoChar(s[..j], c)
    ensures IndexOfChar(s, c) == Some(j)
  {
    IndexOfCharSpec(s, c);
    assert !NoChar(s, c);
    var v := IndexOfChar(s, c).value;
    assert forall i :: 0 <= i < j ==> s[..j][i] == s[i];
    assert forall i :: 0 <= i < v ==> s[..v][i] == s[i];
  }

  /** A character that is not white space survives trimming. */
  lemma KeptByTrim(s: string, j: nat)
    requires j < |s| && !IsSpace(s[j])
    ensures !NoChar(Trim(s), s[j])
  {
    var t := TrimStart(s);
    TrimStartSpec(s);
    var d := |s| - |t|;
    assert j >= d;
    assert t[j - d] == s[j];
    TrimEndSpec(t);
    var r := TrimEnd(t);
    assert j - d < |r|;
    assert r[j - d] == s[j];
  }

  /** Searching for a one-character string is searching for the character. */
  lemma {:induction false} IndexOfOneChar(s: string, c: char)
    ensures IndexOf(s, [c]) == IndexOfChar(s, c)
  {
    if s != [] && s[0] != c {
      IndexOfOneChar(s[1..], c);
    }
  }
}
