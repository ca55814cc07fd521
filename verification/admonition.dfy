/** The admonition block processor: a Python-Markdown block processor that
    turns
        !!! note "Heads up"
            indented body
    into a Bulma "message" box: an outer `div` of class `message note`, an
    optional title paragraph of class `message-header`, and an inner `div` of
    class `message-body` that the rest of the block is parsed into.

    The host library's `detab` and `parseChunk` are not part of this model;
    they are handed in as the functions of a `Host`. */
module Admonition {
  import opened Wrappers
  import opened Strings

  const ClassName: string := "message"
  const ClassNameTitle: string := "message-header"
  const ClassNameBody: string := "message-body"

  /** An ElementTree element: tag, attributes, text and child elements. */
  datatype Element = Element(tag: string, attrs: map<string, string>, text: Option<string>, children: seq<Element>)

  /** `element.get("class", "")` */
  function ClassOf(e: Element): string {
    if "class" in e.attrs then e.attrs["class"] else ""
  }

  /** The host block parser's pieces this processor calls: the indent width,
      `detab(text)` (the leading indented lines with one indent removed, and
      the text from the first line that is not indented),
      `parseChunk(target, text)` (the target with the text parsed into it),
      and `parseBlocks(parent, text)`, used only by the corrected `Run`. */
  datatype Host = Host(
    tabLength: nat,
    detab: string -> (string, string),
    parseChunk: (Element, string) -> Element,
    parseBlocks: (Element, string) -> Element)

  /** What the processor relies on from `parseChunk`: parsing text into an
      element adds to its content but keeps its tag and attributes. */
  ghost predicate ValidHost(host: Host) {
    forall e: Element, text: string ::
      host.parseChunk(e, text).tag == e.tag && host.parseChunk(e, text).attrs == e.attrs
  }

  // ---------------------------------------------------------------------
  // The directive line: `!!! ?([\w\-]+(?: +[\w\-]+)*)(?: +"(.*?)")? *`
  // ---------------------------------------------------------------------

  /** `\w` over ASCII. */
  predicate IsWordChar(c: char) {
    'a' <= c <= 'z' || 'A' <= c <= 'Z' || '0' <= c <= '9' || c == '_'
  }

  /** `[\w\-]` */
  predicate IsNameChar(c: char) {
    IsWordChar(c) || c == '-'
  }

  predicate InNameSpan(c: char) {
    IsNameChar(c) || c == ' '
  }

  /** `[\w\-]+(?: +[\w\-]+)*`: name characters and spaces, beginning and
      ending with a name character. */
  predicate IsNameList(s: string) {
    && |s| > 0
    && IsNameChar(s[0])
    && IsNameChar(s[|s| - 1])
    && forall i :: 0 <= i < |s| ==> InNameSpan(s[i])
  }

  /** The two groups of a directive match: the class names and the quoted
      title, if one was given. */
  datatype Directive = Directive(names: string, title: Option<string>)

  /** A directive line put together from its parts: `!!!`, an optional
      space, the names, the title in quotes after at least one space (when
      there is one), and trailing spaces. */
  function DirectiveText(lead: string, d: Directive, gap: string, trail: string): string {
    "!!!" + lead + d.names + (if d.title.Some? then gap + "\"" + d.title.value + "\"" else "") + trail
  }

  ghost predicate WellShaped(lead: string, d: Directive, gap: string, trail: string) {
    && (lead == "" || lead == " ")
    && IsNameList(d.names)
    && AllSpaces(trail)
    && (d.title.Some? ==> |gap| > 0 && AllSpaces(gap) && '\n' !in d.title.value)
  }

  /** The reference meaning of the directive pattern on one line: the line
      is some well-shaped directive text with groups `d`. */
  ghost predicate IsDirectiveLine(line: string, d: Directive) {
    exists lead, gap, trail :: WellShaped(lead, d, gap, trail) && line == DirectiveText(lead, d, gap, trail)
  }

  /** Length of the longest prefix of name characters and spaces. */
  function SpanLen(s: string): (n: nat)
    ensures n <= |s|
    ensures forall i :: 0 <= i < n ==> InNameSpan(s[i])
    ensures n < |s| ==> !InNameSpan(s[n])
  {
    if |s| == 0 || !InNameSpan(s[0]) then 0 else 1 + SpanLen(s[1..])
  }

  /** `s` without its trailing spaces. */
  function TrimRightSpaces(s: string): (r: string)
    ensures |r| <= |s| && r == s[..|r|]
    ensures AllSpaces(s[|r|..])
    ensures |r| > 0 ==> r[|r| - 1] != ' '
  {
    if |s| > 0 && s[|s| - 1] == ' ' then
      var t := s[..|s| - 1];
      var r := TrimRightSpaces(t);
      assert t[..|r|] == s[..|r|];
      assert s[|r|..] == t[|r|..] + [' '];
      r
    else s
  }

  /** Number of leading spaces of `s`. */
  function LeadingSpaces(s: string): (n: nat)
    ensures n <= |s|
    ensures AllSpaces(s[..n])
    ensures n < |s| ==> s[n] != ' '
  {
    if |s| > 0 && s[0] == ' ' then 1 + LeadingSpaces(s[1..]) else 0
  }

  /** What follows the names: `(?: +"(.*?)")? *` up to the end of the line.
      `None` when it does not match; otherwise the title group. The lazy
      title ends at the last quote, since only spaces may follow it. */
  function ParseTitle(r: string): Option<Option<string>> {
    if AllSpaces(r) then Some(None)
    else
      var k := LeadingSpaces(r);
      var q := TrimRightSpaces(r[k..]);
      if 0 < k && 2 <= |q| && q[0] == '"' && q[|q| - 1] == '"' && '\n' !in q[1..|q| - 1]
      then Some(Some(q[1..|q| - 1]))
      else None
  }

  /** The line after `!!!` and the optional single space. */
  function AfterBang(line: string): string
    requires StartsWith(line, "!!!")
  {
    var rest := line[3..];
    if |rest| > 0 && rest[0] == ' ' then rest[1..] else rest
  }

  /** The greedy name group, and the text after it. */
  function SplitNames(s: string): (string, string) {
    var names := TrimRightSpaces(s[..SpanLen(s)]);
    (names, s[|names|..])
  }

  /** The directive pattern applied to one whole line. */
  function ParseDirective(line: string): Option<Directive> {
    if !StartsWith(line, "!!!") then None
    else
      var s := AfterBang(line);
      if |s| == 0 || !IsNameChar(s[0]) then None
      else
        var (names, r) := SplitNames(s);
        match ParseTitle(r)
        case None => None
        case Some(title) => Some(Directive(names, title))
  }

  lemma {:induction false} SpanLenAppend(a: string, b: string)
    requires forall i :: 0 <= i < |a| ==> InNameSpan(a[i])
    ensures SpanLen(a + b) == |a| + SpanLen(b)
    decreases |a|
  {
    if |a| > 0 {
      assert (a + b)[1..] == a[1..] + b;
      SpanLenAppend(a[1..], b);
    } else {
      assert a + b == b;
    }
  }

  lemma {:induction false} TrimRightSpacesAppend(a: string, sp: string)
    requires |a| > 0 && a[|a| - 1] != ' '
    requires AllSpaces(sp)
    ensures TrimRightSpaces(a + sp) == a
    decreases |sp|
  {
    if |sp| > 0 {
      assert (a + sp)[..|a + sp| - 1] == a + sp[..|sp| - 1];
      TrimRightSpacesAppend(a, sp[..|sp| - 1]);
    } else {
      assert a + sp == a;
    }
  }

  lemma {:induction false} LeadingSpacesAppend(sp: string, b: string)
    requires AllSpaces(sp)
    requires |b| > 0 && b[0] != ' '
    ensures LeadingSpaces(sp + b) == |sp|
    decreases |sp|
  {
    if |sp| > 0 {
      assert (sp + b)[1..] == sp[1..] + b;
      LeadingSpacesAppend(sp[1..], b);
    } else {
      assert sp + b == b;
    }
  }

  lemma AfterBangOf(lead: string, body: string)
    requires lead == "" || lead == " "
    requires |body| > 0 && body[0] != ' '
    ensures StartsWith("!!!" + lead + body, "!!!")
    ensures AfterBang("!!!" + lead + body) == body
  {
    var line := "!!!" + lead + body;
    assert line[..3] == "!!!";
    assert line[3..] == lead + body;
    if lead == " " {
      assert (lead + body)[1..] == body;
    }
  }

  /** Names followed by spaces and then something that is neither a name
      character nor a space split back into the names and that tail. */
  lemma SplitNamesOf(names: string, sp: string, u: string)
    requires IsNameList(names)
    requires AllSpaces(sp)
    requires u == "" || !InNameSpan(u[0])
    ensures SplitNames(names + sp + u) == (names, sp + u)
  {
    var s := names + sp + u;
    assert s == names + (sp + u);
    SpanLenAppend(names, sp + u);
    SpanLenAppend(sp, u);
    assert SpanLen(u) == 0;
    assert s[..SpanLen(s)] == names + sp;
    TrimRightSpacesAppend(names, sp);
    assert s[|names|..] == sp + u;
  }

  lemma ParseTitleOfQuoted(gap: string, t: string, trail: string)
    requires |gap| > 0 && AllSpaces(gap) && AllSpaces(trail) && '\n' !in t
    ensures ParseTitle(gap + ("\"" + t + "\"") + trail) == Some(Some(t))
  {
    var q := "\"" + t + "\"";
    var r := gap + q + trail;
    assert r == gap + (q + trail);
    assert r[|gap|] == '"';
    LeadingSpacesAppend(gap, q + trail);
    assert r[|gap|..] == q + trail;
    TrimRightSpacesAppend(q, trail);
    assert q[1..|q| - 1] == t;
  }

  /** How the parser takes a line apart: `!!!`, the optional space, the
      names, and the title part. */
  lemma ParseDirectiveSteps(line: string, lead: string, body: string, names: string, r: string)
    requires lead == "" || lead == " "
    requires line == "!!!" + lead + body
    requires |body| > 0 && IsNameChar(body[0])
    requires SplitNames(body) == (names, r)
    ensures ParseDirective(line) == if ParseTitle(r).Some? then Some(Directive(names, ParseTitle(r).value)) else None
  {
    AfterBangOf(lead, body);
  }

  lemma ParseCompleteNoTitle(lead: string, d: Directive, trail: string)
    requires WellShaped(lead, d, "", trail) && d.title.None?
    ensures ParseDirective(DirectiveText(lead, d, "", trail)) == Some(d)
  {
    var body := d.names + trail;
    assert DirectiveText(lead, d, "", trail) == "!!!" + lead + body;
    SplitNamesOf(d.names, trail, "");
    assert body == d.names + trail + "";
    assert ParseTitle(trail) == Some(None);
    ParseDirectiveSteps(DirectiveText(lead, d, "", trail), lead, body, d.names, trail);
  }

  lemma ParseCompleteTitle(lead: string, d: Directive, gap: string, trail: string)
    requires WellShaped(lead, d, gap, trail) && d.title.Some?
    ensures ParseDirective(DirectiveText(lead, d, gap, trail)) == Some(d)
  {
    var t := d.title.value;
    var q := "\"" + t + "\"";
    var body := d.names + gap + (q + trail);
    assert DirectiveText(lead, d, gap, trail) == "!!!" + lead + body;
    SplitNamesOf(d.names, gap, q + trail);
    ParseTitleOfQuoted(gap, t, trail);
    assert gap + (q + trail) == gap + q + trail;
    ParseDirectiveSteps(DirectiveText(lead, d, gap, trail), lead, body, d.names, gap + (q + trail));
  }

  /** Every well-shaped directive text parses back to its groups. */
  lemma ParseComplete(lead: string, d: Directive, gap: string, trail: string)
    requires WellShaped(lead, d, gap, trail)
    ensures ParseDirective(DirectiveText(lead, d, gap, trail)) == Some(d)
  {
    if d.title.None? {
      assert DirectiveText(lead, d, gap, trail) == DirectiveText(lead, d, "", trail);
      ParseCompleteNoTitle(lead, d, trail);
    } else {
      ParseCompleteTitle(lead, d, gap, trail);
    }
  }

  lemma ParseTitleNoneSound(r: string)
    requires ParseTitle(r) == Some(None)
    ensures AllSpaces(r)
  {
  }

  /** A parsed title comes from a quoted string after at least one space,
      followed only by spaces. */
  lemma ParseTitleSomeSound(r: string, t: string) returns (gap: string, trail: string)
    requires ParseTitle(r) == Some(Some(t))
    ensures |gap| > 0 && AllSpaces(gap) && AllSpaces(trail) && '\n' !in t
    ensures r == gap + ("\"" + t + "\"") + trail
  {
    var k := LeadingSpaces(r);
    var q := TrimRightSpaces(r[k..]);
    assert q == "\"" + t + "\"";
    gap := r[..k];
    trail := r[k..][|q|..];
    assert r[k..] == q + trail;
    assert r == gap + r[k..];
  }

  lemma SplitNamesSound(s: string)
    requires |s| > 0 && IsNameChar(s[0])
    ensures IsNameList(SplitNames(s).0)
    ensures s == SplitNames(s).0 + SplitNames(s).1
  {
    var names := TrimRightSpaces(s[..SpanLen(s)]);
    assert names == s[..|names|];
    assert names[0] == s[0];
  }

  lemma AfterBangSound(line: string) returns (lead: string)
    requires StartsWith(line, "!!!")
    ensures lead == "" || lead == " "
    ensures line == "!!!" + lead + AfterBang(line)
  {
    var rest := line[3..];
    lead := if |rest| > 0 && rest[0] == ' ' then " " else "";
    assert line == line[..3] + rest;
    assert rest == lead + AfterBang(line);
  }

  lemma DirectiveLineOf(line: string, lead: string, d: Directive, gap: string, trail: string)
    requires WellShaped(lead, d, gap, trail)
    requires line == DirectiveText(lead, d, gap, trail)
    ensures IsDirectiveLine(line, d)
  {
  }

  /** Whatever parses is a well-shaped directive text with the parsed groups. */
  lemma ParseSound(line: string)
    requires ParseDirective(line).Some?
    ensures IsDirectiveLine(line, ParseDirective(line).value)
  {
    var lead := AfterBangSound(line);
    var s := AfterBang(line);
    SplitNamesSound(s);
    var names := SplitNames(s).0;
    var r := SplitNames(s).1;
    ParseDirectiveSteps(line, lead, s, names, r);
    ParseSoundParts(line, lead, names, r);
  }

  lemma ParseSoundParts(line: string, lead: string, names: string, r: string)
    requires lead == "" || lead == " "
    requires IsNameList(names)
    requires line == "!!!" + lead + (names + r)
    requires ParseTitle(r).Some?
    ensures IsDirectiveLine(line, Directive(names, ParseTitle(r).value))
  {
    var title := ParseTitle(r).value;
    if title.None? {
      ParseTitleNoneSound(r);
      ParseSoundNoTitle(line, lead, names, r);
    } else {
      var gap, trail := ParseTitleSomeSound(r, title.value);
      ParseSoundTitle(line, lead, names, title.value, gap, trail);
    }
  }

  lemma ParseSoundNoTitle(line: string, lead: string, names: string, r: string)
    requires lead == "" || lead == " "
    requires IsNameList(names) && AllSpaces(r)
    requires line == "!!!" + lead + (names + r)
    ensures IsDirectiveLine(line, Directive(names, None))
  {
    var d := Directive(names, None);
    assert line == DirectiveText(lead, d, "", r);
    DirectiveLineOf(line, lead, d, "", r);
  }

  lemma ParseSoundTitle(line: string, lead: string, names: string, t: string, gap: string, trail: string)
    requires lead == "" || lead == " "
    requires IsNameList(names)
    requires |gap| > 0 && AllSpaces(gap) && AllSpaces(trail) && '\n' !in t
    requires line == "!!!" + lead + (names + (gap + ("\"" + t + "\"") + trail))
    ensures IsDirectiveLine(line, Directive(names, Some(t)))
  {
    var d := Directive(names, Some(t));
    assert line == DirectiveText(lead, d, gap, trail);
    DirectiveLineOf(line, lead, d, gap, trail);
  }

  /** The parser decides the directive pattern exactly: it returns `d` if and
      only if the line is a well-shaped directive text with groups `d`. */
  lemma ParseDirectiveIsDirectiveLine(line: string, d: Directive)
    ensures ParseDirective(line) == Some(d) <==> IsDirectiveLine(line, d)
  {
    if ParseDirective(line) == Some(d) {
      ParseSound(line);
    }
    if IsDirectiveLine(line, d) {
      var lead, gap, trail :| WellShaped(lead, d, gap, trail) && line == DirectiveText(lead, d, gap, trail);
      ParseComplete(lead, d, gap, trail);
    }
  }

  // ---------------------------------------------------------------------
  // `RE.search(block)`
  // ---------------------------------------------------------------------

  /** The lines of a block. The pattern starts at the beginning of the block
      or just after a newline and ends at a newline or the end of the block,
      and none of its parts matches a newline, so a match covers exactly one
      line. */
  function Lines(block: string): (lines: seq<string>)
    ensures |lines| > 0
    ensures forall i :: 0 <= i < |lines| ==> '\n' !in lines[i]
  {
    Split(block, '\n')
  }

  /** A match in a block: the index of the matched line, the groups, the text
      before the match (`block[:m.start()]`) and the text after it
      (`block[m.end():]`). */
  datatype Match = Match(line: nat, directive: Directive, before: string, rest: string)

  /** The first present entry at or after `from`, with its index. */
  function FirstSome<T>(xs: seq<Option<T>>, from: nat): (r: Option<(nat, T)>)
    requires from <= |xs|
    ensures r.Some? ==> from <= r.value.0 < |xs| && xs[r.value.0] == Some(r.value.1)
    ensures r.Some? ==> forall i :: from <= i < r.value.0 ==> xs[i].None?
    ensures r.None? ==> forall i :: from <= i < |xs| ==> xs[i].None?
    decreases |xs| - from
  {
    if from == |xs| then None
    else
      match xs[from]
      case Some(v) => Some((from, v))
      case None => FirstSome(xs, from + 1)
  }

  /** The search for the first line a line recognizer accepts, with the
      text before and after that line. */
  function SearchWith(parse: string -> Option<Directive>, block: string): (m: Option<Match>)
    ensures m.Some? ==> m.value.line < |Lines(block)|
  {
    var lines := Lines(block);
    match FirstSome(seq(|lines|, i requires 0 <= i < |lines| => parse(lines[i])), 0)
    case None => None
    case Some((j, d)) => Some(Match(j, d, Join(lines[..j], '\n'), Join(lines[j + 1..], '\n')))
  }

  /** `RE.search(block)`: the leftmost match is the one on the first line
      that matches, since a match starts at the beginning of its line or at
      the newline just before it. */
  function Search(block: string): (m: Option<Match>)
    ensures m.Some? ==> m.value.line < |Lines(block)|
  {
    SearchWith(ParseDirective, block)
  }

  lemma SearchWithFirst(parse: string -> Option<Directive>, block: string)
    ensures SearchWith(parse, block).Some? ==>
      var m := SearchWith(parse, block).value;
      && parse(Lines(block)[m.line]) == Some(m.directive)
      && forall i :: 0 <= i < m.line ==> parse(Lines(block)[i]).None?
    ensures SearchWith(parse, block).None? ==> forall i :: 0 <= i < |Lines(block)| ==> parse(Lines(block)[i]).None?
  {
    var lines := Lines(block);
    var xs := seq(|lines|, i requires 0 <= i < |lines| => parse(lines[i]));
    assert forall i :: 0 <= i < |lines| ==> xs[i] == parse(lines[i]);
  }

  /** The match is on the first line the parser accepts. */
  lemma SearchFirst(block: string)
    ensures Search(block).Some? ==>
      var m := Search(block).value;
      && ParseDirective(Lines(block)[m.line]) == Some(m.directive)
      && forall i :: 0 <= i < m.line ==> ParseDirective(Lines(block)[i]).None?
    ensures Search(block).None? ==> forall i :: 0 <= i < |Lines(block)| ==> ParseDirective(Lines(block)[i]).None?
  {
    SearchWithFirst(ParseDirective, block);
  }

  /** A block matches if and only if one of its lines is a directive line;
      the match is on the first such line, with that line's groups. */
  lemma SearchSpec(block: string)
    ensures Search(block).Some? <==> exists j, d :: 0 <= j < |Lines(block)| && IsDirectiveLine(Lines(block)[j], d)
    ensures Search(block).Some? ==>
      var m := Search(block).value;
      && IsDirectiveLine(Lines(block)[m.line], m.directive)
      && forall i, d :: 0 <= i < m.line ==> !IsDirectiveLine(Lines(block)[i], d)
  {
    var lines := Lines(block);
    var m := Search(block);
    SearchFirst(block);
    if m.Some? {
      ParseDirectiveIsDirectiveLine(lines[m.value.line], m.value.directive);
      forall i, d | 0 <= i < m.value.line
        ensures !IsDirectiveLine(lines[i], d)
      {
        ParseDirectiveIsDirectiveLine(lines[i], d);
      }
    } else {
      forall j, d | 0 <= j < |lines|
        ensures !IsDirectiveLine(lines[j], d)
      {
        ParseDirectiveIsDirectiveLine(lines[j], d);
      }
    }
  }

  /** The text before the match, the matched line and the text after the
      match put the block back together: `rest` is everything after the
      newline that ends the matched line. */
  lemma {:induction false} SearchSplitsBlock(block: string)
    requires Search(block).Some?
    ensures
      var m := Search(block).value;
      var lines := Lines(block);
      && block == m.before + (if m.line > 0 then "\n" else "") + lines[m.line]
                  + (if m.line + 1 < |lines| then "\n" + m.rest else "")
      && (m.line + 1 == |lines| ==> m.rest == "")
  {
    var m := Search(block).value;
    var lines := Lines(block);
    assert m.before == Join(lines[..m.line], '\n') && m.rest == Join(lines[m.line + 1..], '\n');
    JoinSplit(block, '\n');
    JoinAround(lines, m.line);
  }

  /** A line of a joined text sits between the join of the lines before it
      and the join of the lines after it. */
  lemma {:induction false} JoinAround(lines: seq<string>, j: nat)
    requires j < |lines|
    ensures Join(lines, '\n') == Join(lines[..j], '\n') + (if j > 0 then "\n" else "") + lines[j]
                  + (if j + 1 < |lines| then "\n" + Join(lines[j + 1..], '\n') else "")
    ensures j + 1 == |lines| ==> Join(lines[j + 1..], '\n') == ""
  {
    var tail := [lines[j]] + lines[j + 1..];
    if j + 1 < |lines| {
      JoinAppend([lines[j]], lines[j + 1..], '\n');
    } else {
      assert tail == [lines[j]];
    }
    assert Join(tail, '\n') == lines[j] + (if j + 1 < |lines| then "\n" + Join(lines[j + 1..], '\n') else "");
    if j > 0 {
      assert lines == lines[..j] + tail;
      JoinAppend(lines[..j], tail, '\n');
    } else {
      assert lines == tail;
    }
  }

  // ---------------------------------------------------------------------
  // `test`
  // ---------------------------------------------------------------------

  /** `self.lastChild(parent)` */
  function LastChild(parent: Element): (r: Option<Element>)
    ensures r.Some? <==> |parent.children| > 0
    ensures r.Some? ==> r.value == parent.children[|parent.children| - 1]
  {
    if |parent.children| == 0 then None else Some(parent.children[|parent.children| - 1])
  }

  /** The second way `test` claims a block: an indented block right after a
      message box continues it. */
  predicate ContinuesMessage(host: Host, parent: Element, block: string) {
    && StartsWith(block, Repeat(' ', host.tabLength))
    && LastChild(parent).Some?
    && Contains(ClassOf(LastChild(parent).value), ClassName)
  }

  /** `test(parent, block)`, as a truth value. */
  predicate Test(host: Host, parent: Element, block: string) {
    Search(block).Some? || ContinuesMessage(host, parent, block)
  }

  /** The processor claims a block if and only if some line of it is a
      directive line, or the block is indented by a full tab and the
      parent's last child has a class containing "message". */
  lemma TestSpec(host: Host, parent: Element, block: string)
    ensures Test(host, parent, block) <==>
      || (exists j, d :: 0 <= j < |Lines(block)| && IsDirectiveLine(Lines(block)[j], d))
      || (&& |block| >= host.tabLength
          && (forall i :: 0 <= i < host.tabLength ==> block[i] == ' ')
          && |parent.children| > 0
          && Contains(ClassOf(parent.children[|parent.children| - 1]), "message"))
  {
    SearchSpec(block);
    var ind := Repeat(' ', host.tabLength);
    if |block| >= host.tabLength && (forall i :: 0 <= i < host.tabLength ==> block[i] == ' ') {
      assert block[..host.tabLength] == ind;
    }
  }

  // ---------------------------------------------------------------------
  // `get_class_and_title`
  // ---------------------------------------------------------------------

  predicate NoDoubleSpace(s: string) {
    forall i :: 0 <= i < |s| - 1 ==> s[i] != ' ' || s[i + 1] != ' '
  }

  /** The characters of `s` other than spaces, in order. */
  function NonSpaces(s: string): string {
    if |s| == 0 then ""
    else (if s[0] == ' ' then "" else [s[0]]) + NonSpaces(s[1..])
  }

  /** `RE_SPACES.sub(" ", s)`: every run of two or more spaces becomes one.
      The result has no two spaces in a row, keeps every other character in
      order, begins as `s` does, and is `s` itself when `s` has no run to
      collapse; `CollapseSpacesWords` adds that the words are kept. */
  function CollapseSpaces(s: string): (r: string)
    ensures NoDoubleSpace(r)
    ensures NonSpaces(r) == NonSpaces(s)
    ensures |s| > 0 ==> |r| > 0 && r[0] == s[0]
    ensures NoUpper(s) ==> NoUpper(r)
    ensures NoDoubleSpace(s) ==> r == s
  {
    if |s| < 2 then s
    else if s[0] == ' ' && s[1] == ' ' then CollapseSpaces(s[1..])
    else
      var t := CollapseSpaces(s[1..]);
      assert s == [s[0]] + s[1..];
      assert NonSpaces([s[0]] + t) == (if s[0] == ' ' then "" else [s[0]]) + NonSpaces(t) by {
        assert ([s[0]] + t)[1..] == t;
      }
      [s[0]] + t
  }

  function Last(s: string): char
    requires |s| > 0
  {
    s[|s| - 1]
  }

  /** Collapsing keeps the words, and the text before the first space.
      With `NoDoubleSpace` and the first and last characters this fixes the
      result: one space between consecutive words, and one before the first
      or after the last exactly when `s` has spaces there. */
  lemma {:induction false} CollapseSpacesWords(s: string)
    ensures Words(CollapseSpaces(s)) == Words(s)
    ensures Split(CollapseSpaces(s), ' ')[0] == Split(s, ' ')[0]
    ensures |s| > 0 ==> Last(CollapseSpaces(s)) == Last(s)
    decreases |s|
  {
    if |s| >= 2 {
      var t := CollapseSpaces(s[1..]);
      CollapseSpacesWords(s[1..]);
      assert Last(s) == Last(s[1..]);
      assert s == [s[0]] + s[1..];
      if s[0] == ' ' && s[1] == ' ' {
        WordsSpace(s[1..]);
        assert Split(s[1..], ' ')[0] == "" by {
          assert s[1..] == [' '] + s[2..];
          WordsSpace(s[2..]);
        }
      } else if s[0] == ' ' {
        WordsSpace(t);
        WordsSpace(s[1..]);
      } else {
        WordsNonSpace(s[0], t);
        WordsNonSpace(s[0], s[1..]);
        WordsTail(t);
        WordsTail(s[1..]);
        var pre := if Split(t, ' ')[0] == "" then [] else [Split(t, ' ')[0]];
        assert NonEmpty(Split(t, ' ')[1..]) == Words(t)[|pre|..];
        assert NonEmpty(Split(s[1..], ' ')[1..]) == Words(s[1..])[|pre|..];
      }
    }
  }

  /** A leading space starts an empty first part and adds no word. */
  lemma WordsSpace(t: string)
    ensures Split([' '] + t, ' ') == [""] + Split(t, ' ')
    ensures Words([' '] + t) == Words(t)
  {
    assert ([' '] + t)[1..] == t;
    assert ([""] + Split(t, ' '))[1..] == Split(t, ' ');
  }

  /** Any other first character joins the first part. */
  lemma WordsNonSpace(c: char, t: string)
    requires c != ' '
    ensures Split([c] + t, ' ')[0] == [c] + Split(t, ' ')[0]
    ensures Words([c] + t) == [[c] + Split(t, ' ')[0]] + NonEmpty(Split(t, ' ')[1..])
  {
    assert ([c] + t)[1..] == t;
    var parts := Split([c] + t, ' ');
    assert parts[1..] == Split(t, ' ')[1..];
  }

  /** The words: the first part when it is not empty, then the words of
      the other parts. */
  lemma WordsTail(t: string)
    ensures Words(t) == (if Split(t, ' ')[0] == "" then [] else [Split(t, ' ')[0]]) + NonEmpty(Split(t, ' ')[1..])
  {
  }

  /** `s.split(" ", 1)[0]`: the text before the first space. */
  function FirstWord(s: string): (w: string)
    ensures |w| <= |s| && w == s[..|w|]
    ensures ' ' !in w
    ensures |w| < |s| ==> s[|w|] == ' '
  {
    if |s| == 0 || s[0] == ' ' then "" else [s[0]] + FirstWord(s[1..])
  }

  /** The default title: the first space-separated word of the class,
      with its first letter made upper case. */
  predicate IsDefaultTitle(klass: string, t: string) {
    && |t| <= |klass|
    && ' ' !in klass[..|t|]
    && (|t| < |klass| ==> klass[|t|] == ' ')
    && (|t| > 0 ==> t == [ToUpper(klass[0])] + klass[1..|t|])
  }

  lemma {:induction false} LowerNoUpper(s: string)
    requires NoUpper(s)
    ensures Lower(s) == s
  {
    assert forall i :: 0 <= i < |s| ==> Lower(s)[i] == s[i];
  }

  lemma {:induction false} NoUpperLower(s: string)
    ensures NoUpper(Lower(s))
  {
    forall i | 0 <= i < |s|
      ensures !IsUpper(Lower(s)[i])
    {
      assert Lower(s)[i] == ToLower(s[i]);
    }
  }

  /** In a class with no upper-case letters, capitalising the first word
      changes only its first letter. */
  lemma DefaultTitleOf(klass: string)
    requires NoUpper(klass)
    ensures IsDefaultTitle(klass, Capitalize(FirstWord(klass)))
  {
    var w := FirstWord(klass);
    if |w| > 0 {
      assert NoUpper(w[1..]) by {
        assert forall i :: 0 <= i < |w| ==> w[i] == klass[i];
      }
      LowerNoUpper(w[1..]);
      assert w[1..] == klass[1..|w|];
    }
  }

  /** `get_class_and_title(match)`: the class is the lower-cased names with
      runs of spaces collapsed; the title is the quoted one when it is
      non-empty, none when it is `""`, and the capitalised first class name
      when no title was given. */
  function ClassAndTitle(d: Directive): (r: (string, Option<string>))
    ensures NoUpper(r.0) && NoDoubleSpace(r.0)
    ensures NonSpaces(r.0) == NonSpaces(Lower(d.names))
    ensures Words(r.0) == Words(Lower(d.names))
    ensures d.title == Some("") ==> r.1.None?
    ensures d.title.Some? && d.title.value != "" ==> r.1 == d.title
    ensures d.title.None? ==> r.1.Some? && IsDefaultTitle(r.0, r.1.value)
    ensures IsNameList(d.names) ==> (r.1.Some? <==> d.title != Some("")) && (r.1.Some? ==> r.1.value != "")
  {
    NoUpperLower(d.names);
    CollapseSpacesWords(Lower(d.names));
    var klass := CollapseSpaces(Lower(d.names));
    if d.title.None? then
      DefaultTitleOf(klass);
      assert |d.names| > 0 ==> klass[0] == ToLower(d.names[0]);
      (klass, Some(Capitalize(FirstWord(klass))))
    else if d.title.value == "" then (klass, None)
    else (klass, d.title)
  }

  // ---------------------------------------------------------------------
  // `run`
  // ---------------------------------------------------------------------

  /** The empty `div` of class `message-body` that the body is parsed into. */
  function BodyDiv(): Element {
    Element("div", map["class" := ClassNameBody], None, [])
  }

  /** The `p` of class `message-header` holding the title. */
  function Header(title: string): Element {
    Element("p", map["class" := ClassNameTitle], Some(title), [])
  }

  /** The box `run` builds: a `div` of class `message <klass>` holding the
      header when the title is truthy, then the parsed body. */
  function MessageBox(klass: string, title: Option<string>, body: Element): Element {
    var header := if title.Some? && title.value != "" then [Header(title.value)] else [];
    Element("div", map["class" := ClassName + " " + klass], None, header + [body])
  }

  /** What a message box is, stated by its parts. */
  predicate IsMessageBox(e: Element, klass: string, title: Option<string>, body: Element) {
    && e.tag == "div"
    && ClassOf(e) == "message " + klass
    && |e.children| > 0
    && e.children[|e.children| - 1] == body
    && (if title.Some? && title.value != "" then
          && |e.children| == 2
          && e.children[0].tag == "p"
          && e.children[0].text == Some(title.value)
          && ClassOf(e.children[0]) == "message-header"
        else |e.children| == 1)
  }

  function AddChild(parent: Element, child: Element): Element {
    parent.(children := parent.children + [child])
  }

  function ReplaceLast(parent: Element, child: Element): Element
    requires |parent.children| > 0
  {
    parent.(children := parent.children[..|parent.children| - 1] + [child])
  }

  /** `blocks.insert(0, theRest)` when the detab leftover is truthy. */
  function Requeue(theRest: string, blocks: seq<string>): seq<string> {
    if theRest != "" then [theRest] + blocks else blocks
  }

  /** `run(parent, blocks)` as the source writes it. When the directive line
      is not the block's first line, the lines before it are dropped: only
      `block[m.end():]` is used afterwards. */
  function RunAsWritten(host: Host, parent: Element, blocks: seq<string>): (r: (Element, seq<string>))
    requires |blocks| > 0 && Test(host, parent, blocks[0])
    ensures r.1 == Requeue(host.detab(if Search(blocks[0]).Some? then Search(blocks[0]).value.rest else blocks[0]).1, blocks[1..])
  {
    var block := blocks[0];
    var m := Search(block);
    var (body, theRest) := host.detab(if m.Some? then m.value.rest else block);
    var parent' :=
      if m.Some? then
        var (klass, title) := ClassAndTitle(m.value.directive);
        AddChild(parent, MessageBox(klass, title, host.parseChunk(BodyDiv(), body)))
      else
        ReplaceLast(parent, host.parseChunk(LastChild(parent).value, body));
    (parent', Requeue(theRest, blocks[1..]))
  }

  /** `run(parent, blocks)` with the text before the directive line handed
      to the block parser first (`parseBlocks(parent, [block[:m.start()]])`),
      as later versions of the upstream admonition extension do. */
  function Run(host: Host, parent: Element, blocks: seq<string>): (r: (Element, seq<string>))
    requires |blocks| > 0 && Test(host, parent, blocks[0])
    ensures r.1 == Requeue(host.detab(if Search(blocks[0]).Some? then Search(blocks[0]).value.rest else blocks[0]).1, blocks[1..])
  {
    var block := blocks[0];
    var m := Search(block);
    var (body, theRest) := host.detab(if m.Some? then m.value.rest else block);
    var parent' :=
      if m.Some? then
        var p := if m.value.before != "" then host.parseBlocks(parent, m.value.before) else parent;
        var (klass, title) := ClassAndTitle(m.value.directive);
        AddChild(p, MessageBox(klass, title, host.parseChunk(BodyDiv(), body)))
      else
        ReplaceLast(parent, host.parseChunk(LastChild(parent).value, body));
    (parent', Requeue(theRest, blocks[1..]))
  }

  /** The two runs differ only in the text before a directive line: when
      the directive line is the block's first line, or there is none, `run`
      as written does what the corrected `run` does, so every property of
      `Run` holds of it. */
  lemma RunAsWrittenAgrees(host: Host, parent: Element, blocks: seq<string>)
    requires |blocks| > 0 && Test(host, parent, blocks[0])
    requires Search(blocks[0]).None? || Search(blocks[0]).value.before == ""
    ensures RunAsWritten(host, parent, blocks) == Run(host, parent, blocks)
  {
  }

  /** The text `run` hands to `detab`: the block after the match, or the
      whole block when nothing matched. */
  function DetabInput(block: string): string {
    if Search(block).Some? then Search(block).value.rest else block
  }

  /** `run` consumes exactly the first block; the detab leftover goes to
      the front of the queue when it is non-empty, and the remaining blocks
      keep their order. */
  lemma RunQueue(host: Host, parent: Element, blocks: seq<string>)
    requires |blocks| > 0 && Test(host, parent, blocks[0])
    ensures
      var theRest := host.detab(DetabInput(blocks[0])).1;
      var queue := Run(host, parent, blocks).1;
      && (theRest == "" ==> queue == blocks[1..])
      && (theRest != "" ==> |queue| == |blocks| && queue[0] == theRest && queue[1..] == blocks[1..])
  {
  }

  /** With a directive, `run` appends exactly one message box after the
      parent's children (after those parsed from the text before the match)
      and leaves them untouched; the box's body is the detabbed text after
      the match parsed into an empty `message-body` div. */
  lemma RunDirective(host: Host, parent: Element, blocks: seq<string>)
    requires |blocks| > 0 && Search(blocks[0]).Some?
    ensures
      var m := Search(blocks[0]).value;
      var p := if m.before != "" then host.parseBlocks(parent, m.before) else parent;
      var (klass, title) := ClassAndTitle(m.directive);
      var body := host.detab(m.rest).0;
      var r := Run(host, parent, blocks).0;
      && r.tag == p.tag && r.attrs == p.attrs && r.text == p.text
      && |r.children| == |p.children| + 1
      && r.children[..|p.children|] == p.children
      && IsMessageBox(r.children[|p.children|], klass, title, host.parseChunk(BodyDiv(), body))
  {
    var m := Search(blocks[0]).value;
    var p := if m.before != "" then host.parseBlocks(parent, m.before) else parent;
    var (klass, title) := ClassAndTitle(m.directive);
    var box := MessageBox(klass, title, host.parseChunk(BodyDiv(), host.detab(m.rest).0));
    assert Run(host, parent, blocks).0 == AddChild(p, box);
    MessageBoxIs(klass, title, host.parseChunk(BodyDiv(), host.detab(m.rest).0));
    assert AddChild(p, box).children[..|p.children|] == p.children;
  }

  lemma MessageBoxIs(klass: string, title: Option<string>, body: Element)
    ensures IsMessageBox(MessageBox(klass, title, body), klass, title, body)
  {
  }

  /** Without a directive (an indented block after a message box), `run`
      creates no element: it parses the detabbed block into the parent's
      last child and leaves the other children untouched. */
  lemma RunContinuation(host: Host, parent: Element, blocks: seq<string>)
    requires |blocks| > 0 && Test(host, parent, blocks[0]) && Search(blocks[0]).None?
    ensures
      var body := host.detab(blocks[0]).0;
      var r := Run(host, parent, blocks).0;
      var n := |parent.children|;
      && r.tag == parent.tag && r.attrs == parent.attrs && r.text == parent.text
      && |r.children| == n > 0
      && r.children[..n - 1] == parent.children[..n - 1]
      && r.children[n - 1] == host.parseChunk(parent.children[n - 1], body)
  {
  }

  /** An explicit blank title `""` produces a box with no header. */
  lemma RunBlankTitle(host: Host, parent: Element, blocks: seq<string>)
    requires |blocks| > 0 && Search(blocks[0]).Some?
    requires Search(blocks[0]).value.directive.title == Some("")
    ensures
      var r := Run(host, parent, blocks).0;
      |r.children[|r.children| - 1].children| == 1
  {
    RunDirective(host, parent, blocks);
  }

  /** After a directive, the next indented block is claimed as the box's
      continuation. */
  lemma RunThenContinues(host: Host, parent: Element, blocks: seq<string>, next: string)
    requires |blocks| > 0 && Search(blocks[0]).Some?
    requires StartsWith(next, Repeat(' ', host.tabLength))
    ensures Test(host, Run(host, parent, blocks).0, next)
  {
    RunDirective(host, parent, blocks);
    var r := Run(host, parent, blocks).0;
    var box := r.children[|r.children| - 1];
    assert StartsWith(ClassOf(box), ClassName);
  }

  /** With a host whose parser keeps the target element, the box body is
      still the `message-body` div after the body text is parsed into it. */
  lemma RunDirectiveBody(host: Host, parent: Element, blocks: seq<string>)
    requires ValidHost(host)
    requires |blocks| > 0 && Search(blocks[0]).Some?
    ensures
      var r := Run(host, parent, blocks).0;
      var box := r.children[|r.children| - 1];
      && box.children[|box.children| - 1].tag == "div"
      && ClassOf(box.children[|box.children| - 1]) == ClassNameBody
  {
    RunDirective(host, parent, blocks);
  }

  /** With such a host a continuation keeps the box's class, so every
      further indented block is claimed too. */
  lemma RunContinuationContinues(host: Host, parent: Element, blocks: seq<string>, next: string)
    requires ValidHost(host)
    requires |blocks| > 0 && Test(host, parent, blocks[0]) && Search(blocks[0]).None?
    requires StartsWith(next, Repeat(' ', host.tabLength))
    ensures Test(host, Run(host, parent, blocks).0, next)
  {
    RunContinuation(host, parent, blocks);
    var n := |parent.children|;
    var r := Run(host, parent, blocks).0;
    assert r.children[n - 1].attrs == parent.children[n - 1].attrs;
  }

  lemma {:induction false} FirstSomeShift<T>(xs: seq<Option<T>>, from: nat)
    requires from <= |xs|
    ensures FirstSome([None] + xs, from + 1) ==
      match FirstSome(xs, from)
      case None => None
      case Some((j, v)) => Some((j + 1, v))
    decreases |xs| - from
  {
    if from < |xs| {
      assert ([None] + xs)[from + 1] == xs[from];
      FirstSomeShift(xs, from + 1);
    }
  }

  /** A line that is not a directive line, put in front of a block, moves
      the match one line down and changes neither its groups nor the text
      after it; when the block starts with the directive, the new line is
      exactly the text before the match. */
  lemma {:induction false} SearchAfterLine(pre: string, block: string)
    requires '\n' !in pre && ParseDirective(pre).None?
    requires Search(block).Some?
    ensures Search(pre + "\n" + block).Some?
    ensures Search(pre + "\n" + block).value.directive == Search(block).value.directive
    ensures Search(pre + "\n" + block).value.rest == Search(block).value.rest
    ensures Search(block).value.line == 0 ==> Search(pre + "\n" + block).value.before == pre
  {
    SearchWithAfterLine(ParseDirective, pre, block);
  }

  lemma {:induction false} SearchWithAfterLine(parse: string -> Option<Directive>, pre: string, block: string)
    requires '\n' !in pre && parse(pre).None?
    requires SearchWith(parse, block).Some?
    ensures SearchWith(parse, pre + "\n" + block).Some?
    ensures SearchWith(parse, pre + "\n" + block).value.directive == SearchWith(parse, block).value.directive
    ensures SearchWith(parse, pre + "\n" + block).value.rest == SearchWith(parse, block).value.rest
    ensures SearchWith(parse, block).value.line == 0 ==> SearchWith(parse, pre + "\n" + block).value.before == pre
  {
    var lines := Lines(block);
    SplitPrefix(pre, block, '\n');
    var all := Lines(pre + "\n" + block);
    var xs := seq(|lines|, i requires 0 <= i < |lines| => parse(lines[i]));
    var ys := seq(|all|, i requires 0 <= i < |all| => parse(all[i]));
    ParsedLinesCons(parse, pre, lines, xs, ys);
    FirstSomeShift(xs, 0);
    var j := SearchWith(parse, block).value.line;
    assert FirstSome(ys, 0) == Some((j + 1, SearchWith(parse, block).value.directive));
    ShiftedSlices(pre, lines, j);
  }

  /** The parse results of a block with one more line in front. */
  lemma ParsedLinesCons(parse: string -> Option<Directive>, pre: string, lines: seq<string>,
                        xs: seq<Option<Directive>>, ys: seq<Option<Directive>>)
    requires parse(pre).None?
    requires xs == seq(|lines|, i requires 0 <= i < |lines| => parse(lines[i]))
    requires ys == seq(|[pre] + lines|, i requires 0 <= i < |[pre] + lines| => parse(([pre] + lines)[i]))
    ensures ys == [None] + xs
    ensures FirstSome(ys, 0) == FirstSome(ys, 1)
  {
    assert ys == [None] + xs;
  }

  /** The lines around line `j + 1` of a block with one more line in front. */
  lemma ShiftedSlices(pre: string, lines: seq<string>, j: nat)
    requires j < |lines|
    ensures ([pre] + lines)[j + 2..] == lines[j + 1..]
    ensures Join(([pre] + lines)[..1], '\n') == pre
  {
    assert ([pre] + lines)[..1] == [pre];
  }

  /** As written, `run` gives the same tree and queue whether or not a
      paragraph line precedes the directive line in the block: that line is
      lost. */
  lemma RunAsWrittenDropsLeadingText(host: Host, parent: Element, pre: string, block: string, blocks: seq<string>)
    requires '\n' !in pre && ParseDirective(pre).None?
    requires Search(block).Some?
    ensures Search(pre + "\n" + block).Some?
    ensures RunAsWritten(host, parent, [pre + "\n" + block] + blocks) == RunAsWritten(host, parent, [block] + blocks)
  {
    SearchAfterLine(pre, block);
    assert ([pre + "\n" + block] + blocks)[1..] == blocks;
    assert ([block] + blocks)[1..] == blocks;
  }

  /** The corrected `run` hands such a line to the block parser before it
      appends the message box. */
  lemma RunKeepsLeadingText(host: Host, parent: Element, pre: string, block: string, blocks: seq<string>)
    requires pre != "" && '\n' !in pre && ParseDirective(pre).None?
    requires Search(block).Some? && Search(block).value.line == 0
    ensures Search(pre + "\n" + block).Some?
    ensures
      var p := host.parseBlocks(parent, pre);
      var r := Run(host, parent, [pre + "\n" + block] + blocks).0;
      |r.children| == |p.children| + 1 && r.children[..|p.children|] == p.children
  {
    SearchAfterLine(pre, block);
    RunDirective(host, parent, [pre + "\n" + block] + blocks);
  }
}
