/** The front-matter preprocessor: when a document's first line begins with
    `---`, the lines up to the next line beginning with `---` or `...` are
    TOML front matter. They are parsed into the document's `Meta` map and
    removed, together with both marker lines, from the lines handed on.

    The TOML parser is not part of this model; it is handed in as `loads`. */
module Meta {
  import opened Wrappers
  import opened Strings
  import opened Toml

  /** `BEGIN_RE.match(line)`: `^-{3}(\s.*)?` only needs its first three
      characters, since the group is optional. */
  predicate IsBegin(line: string) {
    StartsWith(line, "---")
  }

  /** `END_RE.match(line)`: `^(-{3}|\.{3})(\s.*)?` */
  predicate IsEnd(line: string) {
    StartsWith(line, "---") || StartsWith(line, "...")
  }

  /** `\s` */
  predicate IsSpaceChar(c: char) {
    c == ' ' || c == '\t' || c == '\n' || c == '\r' || c == 11 as char || c == 12 as char
  }

  /** `p` is matched in full by `<marker>(\s.*)?`, where `.` is any
      character but a newline. */
  ghost predicate MarkerMatch(p: string, marker: string) {
    || p == marker
    || (&& |p| > |marker| && p[..|marker|] == marker && IsSpaceChar(p[|marker|])
        && forall i :: |marker| < i < |p| ==> p[i] != '\n')
  }

  /** `BEGIN_RE.match` succeeds exactly when some prefix of the line is
      matched by the pattern, which is when the line starts with `---`. */
  lemma IsBeginSpec(line: string)
    ensures IsBegin(line) <==> exists k :: 0 <= k <= |line| && MarkerMatch(line[..k], "---")
  {
    if IsBegin(line) {
      assert MarkerMatch(line[..3], "---");
    }
  }

  /** `END_RE.match` succeeds exactly when some prefix of the line is
      matched by one of its two alternatives: the line starts with `---` or
      with `...`. */
  lemma IsEndSpec(line: string)
    ensures IsEnd(line) <==> exists k :: 0 <= k <= |line| && (MarkerMatch(line[..k], "---") || MarkerMatch(line[..k], "..."))
  {
    if IsEnd(line) {
      assert MarkerMatch(line[..3], line[..3]);
    }
  }

  /** `MetaExtension.reset()`: the metadata of a fresh document. */
  function Reset(): (meta: Table)
    ensures |meta| == 0
  {
    map[]
  }

  /** The loop of `run`: the lines before the first end marker, the end
      marker itself when there is one, and the lines after it. The front
      matter is the longest prefix without an end marker, and without an end
      marker nothing is left over. */
  function SplitFront(lines: seq<string>): (r: (seq<string>, Option<string>, seq<string>))
    ensures lines == r.0 + (if r.1.Some? then [r.1.value] else []) + r.2
    ensures forall i :: 0 <= i < |r.0| ==> !IsEnd(r.0[i])
    ensures r.1.Some? ==> IsEnd(r.1.value)
    ensures r.1.None? ==> r.2 == []
  {
    if |lines| == 0 then ([], None, [])
    else if IsEnd(lines[0]) then ([], Some(lines[0]), lines[1..])
    else
      var (front, closing, body) := SplitFront(lines[1..]);
      assert lines == [lines[0]] + lines[1..];
      ([lines[0]] + front, closing, body)
  }

  /** The front-matter text: every front-matter line followed by a newline. */
  function Accumulate(front: seq<string>): (text: string)
    ensures |text| >= |front|
  {
    if |front| == 0 then "" else front[0] + "\n" + Accumulate(front[1..])
  }

  /** `MetaPreprocessor.run(lines)`: the new `Meta` and the lines handed on.
      Without an opening marker the lines pass through and `Meta` keeps its
      value; a TOML error propagates. */
  function Run(loads: string -> Result<Table>, meta: Table, lines: seq<string>): (r: Result<(Table, seq<string>)>)
    ensures |lines| == 0 || !IsBegin(lines[0]) ==> r == Ok((meta, lines))
    ensures |lines| > 0 && IsBegin(lines[0]) ==>
      var (front, closing, body) := SplitFront(lines[1..]);
      && (loads(Accumulate(front)).Err? ==> r == Err(loads(Accumulate(front)).error))
      && (loads(Accumulate(front)).Ok? ==> r == Ok((loads(Accumulate(front)).value, body)))
  {
    if |lines| == 0 || !IsBegin(lines[0]) then Ok((meta, lines))
    else
      var (front, closing, body) := SplitFront(lines[1..]);
      var parsed :- loads(Accumulate(front));
      Ok((parsed, body))
  }

  /** The opening line, the front matter, the closing line (if any) and the
      lines handed on put the input back together, and the lines handed on
      are a suffix of the input. */
  lemma RunRoundTrip(loads: string -> Result<Table>, meta: Table, lines: seq<string>)
    requires |lines| > 0 && IsBegin(lines[0])
    requires Run(loads, meta, lines).Ok?
    ensures
      var (front, closing, _) := SplitFront(lines[1..]);
      var body := Run(loads, meta, lines).value.1;
      && lines == [lines[0]] + front + (if closing.Some? then [closing.value] else []) + body
      && body == lines[|lines| - |body|..]
  {
    assert lines == [lines[0]] + lines[1..];
  }

  /** The split is at the first end marker. */
  lemma {:induction false} SplitFrontAt(lines: seq<string>, k: nat)
    requires k < |lines| && IsEnd(lines[k])
    requires forall i :: 0 <= i < k ==> !IsEnd(lines[i])
    ensures SplitFront(lines) == (lines[..k], Some(lines[k]), lines[k + 1..])
  {
    if k > 0 {
      SplitFrontAt(lines[1..], k - 1);
      assert lines[1..][..k - 1] == lines[1..k];
      assert [lines[0]] + lines[1..k] == lines[..k];
      assert lines[1..][k - 1 + 1..] == lines[k + 1..];
    }
  }

  /** Without an end marker, everything is front matter. */
  lemma {:induction false} SplitFrontNone(lines: seq<string>)
    requires forall i :: 0 <= i < |lines| ==> !IsEnd(lines[i])
    ensures SplitFront(lines) == (lines, None, [])
  {
    if |lines| > 0 {
      SplitFrontNone(lines[1..]);
      assert [lines[0]] + lines[1..] == lines;
    }
  }

  /** The closing marker is the first line after the opening one that
      begins with `---` or `...`; the front matter is the lines between
      them and the lines handed on are exactly those after it. */
  lemma RunBodyAfterFirstEnd(loads: string -> Result<Table>, meta: Table, lines: seq<string>, k: nat)
    requires 1 <= k < |lines| && IsBegin(lines[0]) && IsEnd(lines[k])
    requires forall i :: 1 <= i < k ==> !IsEnd(lines[i])
    requires Run(loads, meta, lines).Ok?
    ensures SplitFront(lines[1..]).0 == lines[1..k]
    ensures Run(loads, meta, lines).value.1 == lines[k + 1..]
  {
    SplitFrontAt(lines[1..], k - 1);
    assert lines[1..][..k - 1] == lines[1..k];
    assert lines[1..][k..] == lines[k + 1..];
  }

  /** Without a closing marker every remaining line is front matter and
      nothing is handed on. */
  lemma RunWithoutEnd(loads: string -> Result<Table>, meta: Table, lines: seq<string>)
    requires |lines| > 0 && IsBegin(lines[0])
    requires forall i :: 1 <= i < |lines| ==> !IsEnd(lines[i])
    requires Run(loads, meta, lines).Ok?
    ensures SplitFront(lines[1..]).0 == lines[1..]
    ensures Run(loads, meta, lines).value.1 == []
  {
    SplitFrontNone(lines[1..]);
  }

  /** The accumulated text splits back into the front-matter lines, with
      an empty piece after the last newline. */
  lemma {:induction false} AccumulateSplits(front: seq<string>)
    requires forall i :: 0 <= i < |front| ==> '\n' !in front[i]
    ensures Split(Accumulate(front), '\n') == front + [""]
    decreases |front|
  {
    if |front| > 0 {
      AccumulateSplits(front[1..]);
      assert Accumulate(front) == front[0] + ['\n'] + Accumulate(front[1..]);
      SplitPrefix(front[0], Accumulate(front[1..]), '\n');
      assert front == [front[0]] + front[1..];
    }
  }
}
