/** The README markdown-to-HTML pass, written out identically in app/api/readme/route.ts:11-45
    and scripts/generate-static-content.js:17-51: three heading rules, bold, links, images and two
    list rules as regular-expression replacements, then a split into paragraphs on blank lines,
    each classified and wrapped. JavaScript's `^`, `$` and `.` treat "\n", "\r", U+2028 and
    U+2029 as line terminators. */
module Markdown {
  import opened Wrappers
  import opened Strings

  // ---------------------------------------------------------------------------------------------
  // The HTML written

  // The elements written, without their `class` attributes (Tailwind styling, which none of the
  // later passes can match: it holds no "*", "[", line terminator or tag name).
  const H3Open: string := "<h3>"
  const H2Open: string := "<h2>"
  const H1Open: string := "<h1>"
  const StrongOpen: string := "<strong>"
  const StrongClose: string := "</strong>"
  const LiOpen: string := "<li>"
  const LiClose: string := "</li>"
  const UlOpen: string := "<ul>"
  const DivOpen: string := "<div>"
  const POpen: string := "<p>"
  const LinkTarget: string := "\" target=\"_blank\" rel=\"noopener noreferrer\">"

  /** `<a href="$2" target="_blank" rel="noopener noreferrer">$1</a>`. */
  function LinkHtml(text: string, href: string): string {
    "<a href=\"" + href + LinkTarget + text + "</a>"
  }

  /** `<img src="$2" alt="$1" />`. */
  function ImgHtml(alt: string, src: string): string {
    "<img src=\"" + src + "\" alt=\"" + alt + "\" />"
  }

  // ---------------------------------------------------------------------------------------------
  // The line rules (`/^...(.*$)/gm`)

  /** A text within one line. */
  predicate NoTerminator(s: string) {
    forall i :: 0 <= i < |s| ==> !IsLineTerminator(s[i])
  }

  /** The end of the first line. */
  function LineEnd(s: string): (k: nat)
    ensures k <= |s|
  {
    if s == [] || IsLineTerminator(s[0]) then 0 else 1 + LineEnd(s[1..])
  }

  lemma {:induction false} LineEndSpec(s: string)
    ensures NoTerminator(s[..LineEnd(s)])
    ensures LineEnd(s) < |s| ==> IsLineTerminator(s[LineEnd(s)])
    ensures NoTerminator(s) ==> LineEnd(s) == |s|
  {
    if s != [] && !IsLineTerminator(s[0]) {
      LineEndSpec(s[1..]);
      assert s[..LineEnd(s)] == [s[0]] + s[1..][..LineEnd(s[1..])];
      if NoTerminator(s) {
        assert NoTerminator(s[1..]) by {
          forall i | 0 <= i < |s[1..]| ensures !IsLineTerminator(s[1..][i]) {
            assert s[1..][i] == s[i + 1];
          }
        }
      }
    }
  }

  /** The five anchored rules, each rewriting a whole line that starts with its marker. */
  datatype LineRule = H3 | H2 | H1 | Bullet | Numbered

  /** One rule on one line: `### `, `## ` and `# ` headings; `- ` items, written with a bullet;
      `n. ` items, which keep their number. */
  function ApplyRule(r: LineRule, line: string): string {
    match r
    case H3 => if IsPrefix("### ", line) then H3Open + line[4..] + "</h3>" else line
    case H2 => if IsPrefix("## ", line) then H2Open + line[3..] + "</h2>" else line
    case H1 => if IsPrefix("# ", line) then H1Open + line[2..] + "</h1>" else line
    case Bullet => if IsPrefix("- ", line) then LiOpen + "\U{2022} " + line[2..] + LiClose else line
    case Numbered =>
      var k := LeadingDigits(line);
      if k > 0 && IsPrefix(". ", line[k..]) then LiOpen + line[..k] + ". " + line[k + 2..] + LiClose else line
  }

  /** `text.replace(/^...(.*$)/gm, ...)`: the rule applied to every line, the line terminators
      kept. */
  function MapLines(s: string, r: LineRule): string
    decreases |s|
  {
    var k := LineEnd(s);
    if k == |s| then ApplyRule(r, s) else ApplyRule(r, s[..k]) + [s[k]] + MapLines(s[k + 1..], r)
  }

  /** A single line is rewritten by the rule. */
  lemma MapLinesLine(line: string, r: LineRule)
    requires NoTerminator(line)
    ensures MapLines(line, r) == ApplyRule(r, line)
  {
    LineEndSpec(line);
  }

  /** The lines of a text are rewritten one by one. */
  lemma MapLinesAppend(a: string, t: char, b: string, r: LineRule)
    requires NoTerminator(a) && IsLineTerminator(t)
    ensures MapLines(a + [t] + b, r) == ApplyRule(r, a) + [t] + MapLines(b, r)
  {
    var s := a + [t] + b;
    assert s[..|a|] == a;
    assert forall i :: 0 <= i < |a| ==> s[i] == a[i];
    LineEndSpec(s);
    LineEndAt(s, |a|);
    assert s[|a| + 1..] == b;
  }

  lemma {:induction false} LineEndAt(s: string, k: nat)
    requires k < |s| && IsLineTerminator(s[k]) && NoTerminator(s[..k])
    ensures LineEnd(s) == k
  {
    if k > 0 {
      assert s[0] == s[..k][0];
      assert s[1..][..k - 1] == s[..k][1..];
      LineEndAt(s[1..], k - 1);
    }
  }

  /** The three heading passes, in order. */
  function Headings(s: string): string {
    MapLines(MapLines(MapLines(s, H3), H2), H1)
  }

  /** The two list passes, in order. */
  function Lists(s: string): string {
    MapLines(MapLines(s, Bullet), Numbered)
  }

  /** A rewritten line starts with "<", which no rule's marker does. */
  lemma TagLineUnchanged(line: string, r: LineRule)
    requires line != [] && line[0] == '<'
    ensures ApplyRule(r, line) == line
  {
    if r == Numbered {
      assert LeadingDigits(line) == 0;
    }
  }

  lemma NoTerminatorAppend(a: string, b: string)
    requires NoTerminator(a) && NoTerminator(b)
    ensures NoTerminator(a + b)
  {
    forall i | 0 <= i < |a + b| ensures !IsLineTerminator((a + b)[i]) {
      if i >= |a| {
        assert (a + b)[i] == b[i - |a|];
      }
    }
  }

  lemma NoTerminatorSlice(s: string, i: nat, j: nat)
    requires NoTerminator(s) && i <= j <= |s|
    ensures NoTerminator(s[i..j])
  {
    forall k | 0 <= k < j - i ensures !IsLineTerminator(s[i..j][k]) {
      assert s[i..j][k] == s[i + k];
    }
  }

  /** The text an element wraps around a line stays within that line. */
  lemma WrapKeepsLine(open: string, x: string, close: string)
    requires NoTerminator(open) && NoTerminator(x) && NoTerminator(close)
    ensures NoTerminator(open + x + close)
  {
    NoTerminatorAppend(open, x);
    NoTerminatorAppend(open + x, close);
  }

  /** Rewritten lines stay within one line. */
  lemma RuleKeepsLine(r: LineRule, line: string)
    requires NoTerminator(line)
    ensures NoTerminator(ApplyRule(r, line))
  {
    match r
    case H3 =>
      if IsPrefix("### ", line) {
        NoTerminatorSlice(line, 4, |line|);
        WrapKeepsLine(H3Open, line[4..], "</h3>");
      }
    case H2 =>
      if IsPrefix("## ", line) {
        NoTerminatorSlice(line, 3, |line|);
        WrapKeepsLine(H2Open, line[3..], "</h2>");
      }
    case H1 =>
      if IsPrefix("# ", line) {
        NoTerminatorSlice(line, 2, |line|);
        WrapKeepsLine(H1Open, line[2..], "</h1>");
      }
    case Bullet =>
      if IsPrefix("- ", line) {
        NoTerminatorSlice(line, 2, |line|);
        WrapKeepsLine(LiOpen + "\U{2022} ", line[2..], LiClose);
      }
    case Numbered =>
      var k := LeadingDigits(line);
      if k > 0 && IsPrefix(". ", line[k..]) {
        NoTerminatorSlice(line, 0, k);
        NoTerminatorSlice(line, k + 2, |line|);
        NoTerminatorAppend(line[..k], ". ");
        NoTerminatorAppend(line[..k] + ". ", line[k + 2..]);
        WrapKeepsLine(LiOpen, line[..k] + ". " + line[k + 2..], LiClose);
        assert LiOpen + line[..k] + ". " + line[k + 2..] + LiClose
          == LiOpen + (line[..k] + ". " + line[k + 2..]) + LiClose;
      }
  }

  /** A marker is not a prefix of a line that differs from it at some position. */
  lemma NotPrefixAt(p: string, s: string, i: nat)
    requires i < |p| && i < |s| && s[i] != p[i]
    ensures !IsPrefix(p, s)
  {
    if |p| <= |s| {
      assert s[..|p|][i] != p[i];
    }
  }

  lemma PrefixAt(p: string, s: string, i: nat)
    requires IsPrefix(p, s) && i < |p|
    ensures s[i] == p[i]
  {
    assert s[..|p|][i] == s[i];
  }

  /** A line becomes the heading its marker calls for; a line without a heading marker is left
      alone. */
  lemma HeadingLine(line: string)
    requires NoTerminator(line)
    ensures IsPrefix("### ", line) ==> Headings(line) == H3Open + line[4..] + "</h3>"
    ensures IsPrefix("## ", line) ==> Headings(line) == H2Open + line[3..] + "</h2>"
    ensures IsPrefix("# ", line) ==> Headings(line) == H1Open + line[2..] + "</h1>"
    ensures !IsPrefix("### ", line) && !IsPrefix("## ", line) && !IsPrefix("# ", line) ==> Headings(line) == line
  {
    MapLinesLine(line, H3);
    var l3 := ApplyRule(H3, line);
    RuleKeepsLine(H3, line);
    MapLinesLine(l3, H2);
    var l2 := ApplyRule(H2, l3);
    RuleKeepsLine(H2, l3);
    MapLinesLine(l2, H1);
    assert Headings(line) == ApplyRule(H1, l2);
    if IsPrefix("### ", line) {
      PrefixAt("### ", line, 1);
      PrefixAt("### ", line, 2);
      NotPrefixAt("## ", line, 2);
      NotPrefixAt("# ", line, 1);
      TagLineUnchanged(l3, H2);
      TagLineUnchanged(l3, H1);
    } else if IsPrefix("## ", line) {
      PrefixAt("## ", line, 1);
      NotPrefixAt("# ", line, 1);
      assert l3 == line;
      TagLineUnchanged(l2, H1);
    } else {
      assert l2 == line;
    }
  }

  /** A "- " line becomes a bulleted item, an "n. " line a numbered one, and other lines are
      left alone. */
  lemma ListLine(line: string)
    requires NoTerminator(line)
    ensures IsPrefix("- ", line) ==> Lists(line) == LiOpen + "\U{2022} " + line[2..] + LiClose
    ensures var k := LeadingDigits(line);
      k > 0 && IsPrefix(". ", line[k..]) ==> Lists(line) == LiOpen + line[..k] + ". " + line[k + 2..] + LiClose
    ensures var k := LeadingDigits(line);
      !IsPrefix("- ", line) && !(k > 0 && IsPrefix(". ", line[k..])) ==> Lists(line) == line
  {
    MapLinesLine(line, Bullet);
    var l1 := ApplyRule(Bullet, line);
    RuleKeepsLine(Bullet, line);
    MapLinesLine(l1, Numbered);
    assert Lists(line) == ApplyRule(Numbered, l1);
    var k := LeadingDigits(line);
    if IsPrefix("- ", line) {
      PrefixAt("- ", line, 0);
      assert k == 0;
      TagLineUnchanged(l1, Numbered);
    } else {
      assert l1 == line;
      if k > 0 {
        assert IsDigit(line[0]);
        NotPrefixAt("- ", line, 0);
      }
    }
  }

  // ---------------------------------------------------------------------------------------------
  // Bold (`/\*\*(.*?)\*\*/g`)

  /** The lazy `(.*?)\*\*` on `t`: the first "**", provided no line terminator comes before it. */
  function CloseAt(t: string): (r: Option<nat>)
    ensures r.Some? ==> r.value + 2 <= |t|
  {
    if |t| < 2 then None
    else if t[0] == '*' && t[1] == '*' then Some(0)
    else if IsLineTerminator(t[0]) then None
    else match CloseAt(t[1..])
      case None => None
      case Some(j) => Some(j + 1)
  }

  /** The bold pass, scanning from the left and resuming after each match. */
  function Bold(s: string): string
    decreases |s|
  {
    if |s| < 2 then s
    else if s[0] == '*' && s[1] == '*' && CloseAt(s[2..]).Some? then
      var j := CloseAt(s[2..]).value;
      StrongOpen + s[2..2 + j] + StrongClose + Bold(s[4 + j..])
    else [s[0]] + Bold(s[1..])
  }

  lemma {:induction false} CloseAtOf(x: string, rest: string)
    requires NoTerminator(x) && NoChar(x, '*')
    ensures CloseAt(x + "**" + rest) == Some(|x|)
  {
    if x != [] {
      assert (x + "**" + rest)[1..] == x[1..] + "**" + rest;
      CloseAtOf(x[1..], rest);
    }
  }

  /** "**x**" becomes a strong element around x, when x is a piece of one line without "*". */
  lemma BoldMatch(x: string, rest: string)
    requires NoTerminator(x) && NoChar(x, '*')
    ensures Bold("**" + x + "**" + rest) == StrongOpen + x + StrongClose + Bold(rest)
  {
    var s := "**" + x + "**" + rest;
    assert s[2..] == x + "**" + rest;
    CloseAtOf(x, rest);
    assert s[2..2 + |x|] == x;
    assert s[4 + |x|..] == rest;
  }

  /** Text without "*" is left alone. */
  lemma {:induction false} BoldNone(s: string)
    requires NoChar(s, '*')
    ensures Bold(s) == s
  {
    if |s| >= 2 {
      BoldNone(s[1..]);
    }
  }

  // ---------------------------------------------------------------------------------------------
  // Links (`/\[([^\]]+)\]\(([^)]+)\)/g`) and images (`/!\[([^\]]*)\]\(([^)]+)\)/g`)

  /** A link at the start of `s`: the text up to the first "]", which must be non-empty and be
      followed by "(", and the target up to the next ")", also non-empty; with the length
      matched. */
  function LinkAt(s: string): (r: Option<(string, string, nat)>)
    ensures r.Some? ==> 0 < r.value.2 <= |s|
  {
    if s == [] || s[0] != '[' then None
    else
      var t := s[1..];
      match IndexOfChar(t, ']')
      case None => None
      case Some(k) =>
        if k == 0 || k + 1 >= |t| || t[k + 1] != '(' then None
        else
          var v := t[k + 2..];
          match IndexOfChar(v, ')')
          case None => None
          case Some(e) => if e == 0 then None else Some((t[..k], v[..e], k + e + 4))
  }

  /** The link pass. */
  function Links(s: string): string
    decreases |s|
  {
    if s == [] then []
    else match LinkAt(s)
      case Some((text, href, n)) => LinkHtml(text, href) + Links(s[n..])
      case None => [s[0]] + Links(s[1..])
  }

  /** An image at the start of `s`; unlike a link's text, the alt text may be empty. */
  function ImageAt(s: string): (r: Option<(string, string, nat)>)
    ensures r.Some? ==> 0 < r.value.2 <= |s|
  {
    if |s| < 2 || s[0] != '!' || s[1] != '[' then None
    else
      var t := s[2..];
      match IndexOfChar(t, ']')
      case None => None
      case Some(k) =>
        if k + 1 >= |t| || t[k + 1] != '(' then None
        else
          var v := t[k + 2..];
          match IndexOfChar(v, ')')
          case None => None
          case Some(e) => if e == 0 then None else Some((t[..k], v[..e], k + e + 5))
  }

  /** The image pass. */
  function Images(s: string): string
    decreases |s|
  {
    if s == [] then []
    else match ImageAt(s)
      case Some((alt, src, n)) => ImgHtml(alt, src) + Images(s[n..])
      case None => [s[0]] + Images(s[1..])
  }

  /** Text without "[" has neither links nor images. */
  lemma {:induction false} NoBracketUnchanged(s: string)
    requires NoChar(s, '[')
    ensures Links(s) == s && Images(s) == s
  {
    if s != [] {
      if |s| >= 2 {
        assert s[1] != '[';
      }
      NoBracketUnchanged(s[1..]);
    }
  }

  /** "[text](href)" at the start of a text is a link of that text and target. */
  lemma LinkAtMatch(text: string, href: string, rest: string)
    requires text != [] && NoChar(text, ']') && href != [] && NoChar(href, ')')
    ensures LinkAt("[" + text + "](" + href + ")" + rest) == Some((text, href, |text| + |href| + 4))
  {
    var s := "[" + text + "](" + href + ")" + rest;
    var t := s[1..];
    assert t == text + ("](" + href + ")" + rest);
    IndexOfCharAppend(text, "](" + href + ")" + rest, ']');
    assert IndexOfChar("](" + href + ")" + rest, ']') == Some(0);
    var v := t[|text| + 2..];
    assert v == href + (")" + rest);
    IndexOfCharAppend(href, ")" + rest, ')');
    assert IndexOfChar(")" + rest, ')') == Some(0);
    assert t[..|text|] == text && v[..|href|] == href;
  }

  /** "[text](href)" becomes a link when the text is non-empty without "]" and the target is
      non-empty without ")". */
  lemma LinkMatch(text: string, href: string, rest: string)
    requires text != [] && NoChar(text, ']') && href != [] && NoChar(href, ')')
    ensures Links("[" + text + "](" + href + ")" + rest) == LinkHtml(text, href) + Links(rest)
  {
    var s := "[" + text + "](" + href + ")" + rest;
    LinkAtMatch(text, href, rest);
    assert s[|text| + |href| + 4..] == rest;
  }

  lemma NoCharAppend(a: string, b: string, c: char)
    requires NoChar(a, c) && NoChar(b, c)
    ensures NoChar(a + b, c)
  {
    forall i | 0 <= i < |a + b| ensures (a + b)[i] != c {
      if i >= |a| {
        assert (a + b)[i] == b[i - |a|];
      }
    }
  }

  /** A link element adds no "[" of its own. */
  lemma LinkHtmlNoBracket(text: string, href: string)
    requires NoChar(text, '[') && NoChar(href, '[')
    ensures NoChar(LinkHtml(text, href), '[')
  {
    assert NoChar(LinkTarget, '[');
    NoCharAppend("<a href=\"", href, '[');
    NoCharAppend("<a href=\"" + href, LinkTarget, '[');
    NoCharAppend("<a href=\"" + href + LinkTarget, text, '[');
    NoCharAppend("<a href=\"" + href + LinkTarget + text, "</a>", '[');
  }

  /** The link pass runs first, so an image with a non-empty alt text, "![alt](src)", becomes "!"
      followed by a link, and the image pass finds nothing left to do. */
  lemma ImageBecomesLink(alt: string, src: string)
    requires alt != [] && NoChar(alt, ']') && NoChar(alt, '[')
    requires src != [] && NoChar(src, ')') && NoChar(src, '[')
    ensures Images(Links("![" + alt + "](" + src + ")")) == "!" + LinkHtml(alt, src)
  {
    var link := "[" + alt + "](" + src + ")";
    var s := "![" + alt + "](" + src + ")";
    assert s == ['!'] + link;
    assert LinkAt(s).None?;
    assert s[1..] == link + "";
    LinkMatch(alt, src, "");
    assert Links(s) == "!" + LinkHtml(alt, src);
    LinkHtmlNoBracket(alt, src);
    NoCharAppend("!", LinkHtml(alt, src), '[');
    NoBracketUnchanged("!" + LinkHtml(alt, src));
  }

  /** Where no link starts, the link pass keeps the first character. */
  lemma LinksSkip(c: char, rest: string)
    requires LinkAt([c] + rest).None?
    ensures Links([c] + rest) == [c] + Links(rest)
  {
    assert ([c] + rest)[1..] == rest;
  }

  /** The link pass leaves "![](src)" alone: its "[]" has no text. */
  lemma EmptyAltNoLink(src: string)
    requires NoChar(src, '[')
    ensures Links("![](" + src + ")") == "![](" + src + ")"
  {
    var r := "](" + src + ")";
    NoCharAppend("](", src, '[');
    NoCharAppend("](" + src, ")", '[');
    NoBracketUnchanged(r);
    var s1 := ['['] + r;
    assert s1[1..] == r;
    assert IndexOfChar(r, ']') == Some(0);
    assert LinkAt(s1).None?;
    LinksSkip('[', r);
    assert LinkAt(['!'] + s1).None?;
    LinksSkip('!', s1);
    assert "![](" + src + ")" == ['!'] + s1;
  }

  /** The image pass turns "![](src)" into an img element. */
  lemma EmptyAltImageMatch(src: string)
    requires src != [] && NoChar(src, ')')
    ensures Images("![](" + src + ")") == ImgHtml("", src)
  {
    var s := "![](" + src + ")";
    var t := s[2..];
    assert t == "](" + src + ")";
    assert IndexOfChar(t, ']') == Some(0);
    var v := t[2..];
    assert v == src + ")";
    IndexOfCharAppend(src, ")", ')');
    assert IndexOfChar(")", ')') == Some(0);
    assert v[..|src|] == src;
    assert ImageAt(s) == Some(("", src, |src| + 5));
    assert s[|src| + 5..] == [];
  }

  /** Only an image with an empty alt text, "![](src)", becomes an img element. */
  lemma EmptyAltImage(src: string)
    requires src != [] && NoChar(src, ')') && NoChar(src, '[')
    ensures Images(Links("![](" + src + ")")) == ImgHtml("", src)
  {
    EmptyAltNoLink(src);
    EmptyAltImageMatch(src);
  }

  /** An image is "!" followed by what would be a link. */
  lemma ImageAtOfLink(s: string)
    requires |s| >= 2 && s[0] == '!' && LinkAt(s[1..]).Some?
    ensures ImageAt(s) == Some((LinkAt(s[1..]).value.0, LinkAt(s[1..]).value.1, LinkAt(s[1..]).value.2 + 1))
  {
    assert s[1..][1..] == s[2..];
  }

  /** An img element adds no "[" of its own. */
  lemma ImgHtmlNoBracket(alt: string, src: string)
    requires NoChar(alt, '[') && NoChar(src, '[')
    ensures NoChar(ImgHtml(alt, src), '[')
  {
    NoCharAppend("<img src=\"", src, '[');
    NoCharAppend("<img src=\"" + src, "\" alt=\"", '[');
    NoCharAppend("<img src=\"" + src + "\" alt=\"", alt, '[');
    NoCharAppend("<img src=\"" + src + "\" alt=\"" + alt, "\" />", '[');
  }

  /** The conversion with the image pass moved before the link pass. */
  function ToHtmlImagesFirst(markdown: string): string {
    Paragraphs(Lists(Links(Images(Bold(Headings(markdown))))))
  }

  /** With the image pass first, an image "![alt](src)" becomes an img element. */
  lemma ImagesFirst(alt: string, src: string)
    requires alt != [] && NoChar(alt, ']') && NoChar(alt, '[')
    requires src != [] && NoChar(src, ')') && NoChar(src, '[')
    ensures Links(Images("![" + alt + "](" + src + ")")) == ImgHtml(alt, src)
  {
    var link := "[" + alt + "](" + src + ")";
    var s := "![" + alt + "](" + src + ")";
    assert s == ['!'] + link && s[1..] == link + "";
    LinkAtMatch(alt, src, "");
    ImageAtOfLink(s);
    assert s[|alt| + |src| + 5..] == [];
    assert Images(s) == ImgHtml(alt, src);
    ImgHtmlNoBracket(alt, src);
    NoBracketUnchanged(ImgHtml(alt, src));
  }

  // ---------------------------------------------------------------------------------------------
  // Paragraphs

  /** The wrapping of one paragraph: blank ones vanish, headings stay as they are, list items are
      wrapped in a list, images in a div, and anything else becomes a paragraph whose line
      breaks are `<br/>`. */
  function Block(p: string): string {
    if Trim(p) == "" then ""
    else if Contains(p, "<h1") || Contains(p, "<h2") || Contains(p, "<h3") then p
    else if Contains(p, "<li") then UlOpen + p + "</ul>"
    else if Contains(p, "<img") then DivOpen + p + "</div>"
    else POpen + ReplaceChar(p, '\n', "<br/>") + "</p>"
  }

  /** `map` over the paragraphs. */
  function Blocks(ps: seq<string>): (r: seq<string>)
    ensures |r| == |ps| && forall i :: 0 <= i < |ps| ==> r[i] == Block(ps[i])
  {
    seq(|ps|, i requires 0 <= i < |ps| => Block(ps[i]))
  }

  /** `.split('\n\n').map(...).join('\n')`. */
  function Paragraphs(s: string): string {
    Join(Blocks(Split(s, "\n\n")), "\n")
  }

  /** The whole conversion. An empty document converts to an empty page. */
  function ToHtml(markdown: string): (r: string)
    ensures markdown == "" ==> r == ""
  {
    Paragraphs(Lists(Images(Links(Bold(Headings(markdown))))))
  }

  /** A plain paragraph (no "<", not blank) becomes a p element with no line break left in it. */
  lemma PlainBlock(p: string)
    requires Trim(p) != "" && NoChar(p, '<')
    ensures Block(p) == POpen + ReplaceChar(p, '\n', "<br/>") + "</p>"
    ensures NoChar(Block(p), '\n')
  {
    NoCharNotContains(p, "<h1", 0);
    NoCharNotContains(p, "<h2", 0);
    NoCharNotContains(p, "<h3", 0);
    NoCharNotContains(p, "<li", 0);
    NoCharNotContains(p, "<img", 0);
    ReplaceCharRemoves(p, '\n', "<br/>");
  }

  lemma {:induction false} ReplaceCharRemoves(s: string, c: char, r: string)
    requires NoChar(r, c)
    ensures NoChar(ReplaceChar(s, c, r), c)
  {
    if s != [] {
      ReplaceCharRemoves(s[1..], c, r);
    }
  }

  /** A paragraph holding a list item is wrapped in a list, unless it also holds a heading. */
  lemma ListBlock(p: string)
    requires Contains(p, "<li") && !Contains(p, "<h1") && !Contains(p, "<h2") && !Contains(p, "<h3")
    ensures Block(p) == UlOpen + p + "</ul>"
  {
    assert Trim(p) != "" by {
      var i :| 0 <= i <= |p| - 3 && IsPrefix("<li", p[i..]);
      assert p[i] == '<';
      KeptByTrim(p, i);
    }
  }

  /** The first occurrence of `sep` is at `k` when it occurs there and nowhere before. */
  lemma {:induction false} IndexOfAt(s: string, sep: string, k: nat)
    requires sep != [] && k + |sep| <= |s| && IsPrefix(sep, s[k..])
    requires forall j :: 0 <= j < k ==> !IsPrefix(sep, s[j..])
    ensures IndexOf(s, sep) == Some(k)
  {
    if k > 0 {
      assert !IsPrefix(sep, s[0..]) by {
        assert s[0..] == s;
      }
      forall j | 0 <= j < k - 1 ensures !IsPrefix(sep, s[1..][j..]) {
        assert s[1..][j..] == s[j + 1..];
      }
      assert s[1..][k - 1..] == s[k..];
      IndexOfAt(s[1..], sep, k - 1);
    } else {
      assert s[0..] == s;
    }
  }

  /** The first blank line of `p + "\n\n" + q` is the one after `p`. */
  lemma FirstBlankLine(p: string, q: string)
    requires !Contains(p, "\n\n") && (p == [] || p[|p| - 1] != '\n')
    ensures IndexOf(p + "\n\n" + q, "\n\n") == Some(|p|)
  {
    var s := p + "\n\n" + q;
    forall j | 0 <= j < |p| ensures !IsPrefix("\n\n", s[j..]) {
      if j + 2 <= |p| {
        assert s[j..][..2] == p[j..][..2];
        assert !IsPrefix("\n\n", p[j..]);
      } else {
        assert s[j] == p[|p| - 1];
      }
    }
    assert s[|p|..][..2] == "\n\n";
    IndexOfAt(s, "\n\n", |p|);
  }

  /** Each blank-line-separated paragraph gives exactly one piece, in order: the first
      paragraph, which has no blank line in it and does not end with a line break, is wrapped
      and the rest follows after a "\n". */
  lemma ParagraphsStep(p: string, q: string)
    requires !Contains(p, "\n\n") && (p == [] || p[|p| - 1] != '\n')
    ensures Paragraphs(p + "\n\n" + q) == Block(p) + "\n" + Paragraphs(q)
  {
    var s := p + "\n\n" + q;
    FirstBlankLine(p, q);
    assert s[..|p|] == p && s[|p| + 2..] == q;
    var rest := Split(q, "\n\n");
    assert Split(s, "\n\n") == [p] + rest;
    BlocksCons(p, rest);
  }

  lemma BlocksCons(p: string, rest: seq<string>)
    requires |rest| >= 1
    ensures Join(Blocks([p] + rest), "\n") == Block(p) + "\n" + Join(Blocks(rest), "\n")
  {
    var bs := Blocks([p] + rest);
    assert bs[0] == Block(p);
    assert bs[1..] == Blocks(rest);
  }

  /** A paragraph with no blank line in it is a single piece. */
  lemma ParagraphsOne(p: string)
    requires !Contains(p, "\n\n")
    ensures Paragraphs(p) == Block(p)
  {
    IndexOfFirst(p, "\n\n");
    if IndexOf(p, "\n\n").Some? {
      ContainsAt(p, "\n\n", IndexOf(p, "\n\n").value);
    }
  }

  /** The passes after the headings leave alone a single line that starts with a tag and has
      neither "*" nor "[". */
  lemma TagLineUntouched(h: string)
    requires h != [] && h[0] == '<' && NoTerminator(h) && NoChar(h, '*') && NoChar(h, '[')
    ensures Lists(Images(Links(Bold(h)))) == h
  {
    BoldNone(h);
    NoBracketUnchanged(h);
    ListLine(h);
    NotPrefixAt("- ", h, 0);
    assert LeadingDigits(h) == 0;
  }

  lemma H1Plain(t: string)
    requires NoTerminator(t) && NoChar(t, '*') && NoChar(t, '[')
    ensures var h := H1Open + t + "</h1>";
      h[0] == '<' && NoTerminator(h) && NoChar(h, '*') && NoChar(h, '[')
  {
    NoCharAppend(H1Open, t, '*');
    NoCharAppend(H1Open + t, "</h1>", '*');
    NoCharAppend(H1Open, t, '[');
    NoCharAppend(H1Open + t, "</h1>", '[');
    WrapKeepsLine(H1Open, t, "</h1>");
  }

  /** An h1 element without a blank line is a paragraph of its own, kept as it is. */
  lemma H1Block(t: string)
    requires NoChar(t, '\n')
    ensures Paragraphs(H1Open + t + "</h1>") == H1Open + t + "</h1>"
  {
    var h := H1Open + t + "</h1>";
    NoCharAppend(H1Open, t, '\n');
    NoCharAppend(H1Open + t, "</h1>", '\n');
    NoCharNotContains(h, "\n\n", 0);
    ParagraphsOne(h);
    assert h[..3] == "<h1";
    ContainsAt(h, "<h1", 0);
    KeptByTrim(h, 0);
  }

  /** End to end: a document that is one heading line "# t", with plain text t, becomes that h1
      element. */
  lemma HeadingDocument(t: string)
    requires NoTerminator(t) && NoChar(t, '*') && NoChar(t, '[') && NoChar(t, '\n')
    ensures ToHtml("# " + t) == H1Open + t + "</h1>"
  {
    var line := "# " + t;
    NoTerminatorAppend("# ", t);
    HeadingLine(line);
    assert line[2..] == t;
    PrefixAtOwn(line);
    H1Plain(t);
    TagLineUntouched(H1Open + t + "</h1>");
    H1Block(t);
  }

  lemma PrefixAtOwn(line: string)
    requires |line| >= 2 && line[0] == '#' && line[1] == ' '
    ensures IsPrefix("# ", line) && !IsPrefix("## ", line) && !IsPrefix("### ", line)
  {
    assert line[..2] == "# ";
    NotPrefixAt("## ", line, 1);
    NotPrefixAt("### ", line, 1);
  }
}
