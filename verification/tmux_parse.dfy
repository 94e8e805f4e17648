/** The parser for the tables tmux prints for `list-sessions -F` and
    `list-panes -F` (internal/tmux/parse.go), with the format strings of
    internal/tmux/formats.go as the inverse it must undo. */
module TmuxParse {
  import opened Wrappers
  import opened Text

  /** The unit separator that delimits fields in the format strings. */
  const DelimChar: char := '\U{001F}'
  const Delim: string := [DelimChar]

  /** The same separator as tmux prints it when it escapes non-printable
      bytes: a backslash followed by the octal digits 037. */
  const EscapedDelim: string := "\\037"

  datatype RawSession = RawSession(name: string, path: string, created: string, attached: string)

  datatype RawPane = RawPane(
    id: string,
    index: string,
    title: string,
    currentCommand: string,
    currentPath: string,
    pid: string)

  /** The fields of one non-empty line: the escaped separator is used
      whenever the line contains it, the raw one otherwise. */
  function SplitRow(line: string): (r: seq<string>)
    ensures |r| >= 1
  {
    if Contains(line, EscapedDelim) then Split(line, EscapedDelim) else Split(line, Delim)
  }

  /** One turn of the loop of `parseTable`, given the line's fields: an
      empty line or one with fewer than `expected` fields is skipped, any
      other adds its fields as a row. */
  function Step(rows: seq<seq<string>>, line: string, fields: seq<string>, expected: nat): (r: seq<seq<string>>)
    ensures r == rows || r == rows + [fields]
    ensures r == rows + [fields] <==> line != "" && |fields| >= expected
  {
    if line == "" || |fields| < expected then rows else rows + [fields]
  }

  /** The loop of `parseTable` over already separated lines, for any way
      `split` of cutting a line into fields. */
  function Gather(lines: seq<string>, expected: nat, split: string -> seq<string>): (rows: seq<seq<string>>)
    ensures |rows| <= |lines|
    ensures forall k :: 0 <= k < |rows| ==> |rows[k]| >= expected
    decreases |lines|
  {
    if |lines| == 0 then []
    else
      var last := lines[|lines| - 1];
      Step(Gather(lines[..|lines| - 1], expected, split), last, split(last), expected)
  }

  /** The loop of `parseTable` with its own way of splitting lines. */
  function Rows(lines: seq<string>, expected: nat): (rows: seq<seq<string>>)
    ensures |rows| <= |lines|
    ensures forall k :: 0 <= k < |rows| ==> |rows[k]| >= expected
  {
    Gather(lines, expected, SplitRow)
  }

  /** `parseTable`: split the output into lines (a `\r\n` counts as one
      line end), then keep the rows with enough fields. */
  function ParseTable(output: string, expected: nat): seq<seq<string>> {
    Rows(Lines(output), expected)
  }

  /** Rows are gathered line by line: the rows of two blocks of lines are
      the rows of the first followed by those of the second. */
  lemma RowsAppend(a: seq<string>, b: seq<string>, expected: nat)
    ensures Rows(a + b, expected) == Rows(a, expected) + Rows(b, expected)
  {
    GatherAppend(a, b, expected, SplitRow);
  }

  lemma {:induction false} GatherAppend(a: seq<string>, b: seq<string>, expected: nat, split: string -> seq<string>)
    ensures Gather(a + b, expected, split) == Gather(a, expected, split) + Gather(b, expected, split)
    decreases |b|
  {
    if |b| == 0 {
      assert a + b == a;
    } else {
      var n := |b| - 1;
      var ab := a + b;
      assert ab[..|ab| - 1] == a + b[..n];
      assert ab[|ab| - 1] == b[n];
      GatherAppend(a, b[..n], expected, split);
      StepAppend(Gather(a, expected, split), Gather(b[..n], expected, split), b[n], split(b[n]), expected);
    }
  }

  /** A step on rows gathered after others only touches the later ones. */
  lemma StepAppend(x: seq<seq<string>>, y: seq<seq<string>>, line: string, fields: seq<string>, expected: nat)
    ensures Step(x + y, line, fields, expected) == x + Step(y, line, fields, expected)
  {
    if line != "" && |fields| >= expected {
      assert (x + y) + [fields] == x + (y + [fields]);
    }
  }

  /** A single line yields a row exactly when it is non-empty and has
      enough fields. */
  lemma RowsSingle(line: string, expected: nat)
    ensures Rows([line], expected) ==
      (if line != "" && |SplitRow(line)| >= expected then [SplitRow(line)] else [])
  {
    assert [line][..0] == [];
  }

  /** `ParseSessions`: fields 0 to 3 of every row with at least four fields,
      positionally. The Go function never reports an error. */
  function ParseSessions(output: string): (r: seq<RawSession>)
    ensures |r| == |ParseTable(output, 4)|
    ensures forall k :: 0 <= k < |r| ==>
      var row := ParseTable(output, 4)[k];
      r[k] == RawSession(row[0], row[1], row[2], row[3])
  {
    var rows := ParseTable(output, 4);
    seq(|rows|, k requires 0 <= k < |rows| => RawSession(rows[k][0], rows[k][1], rows[k][2], rows[k][3]))
  }

  /** `ParsePanes`: fields 0 to 5 of every row with at least six fields. */
  function ParsePanes(output: string): (r: seq<RawPane>)
    ensures |r| == |ParseTable(output, 6)|
    ensures forall k :: 0 <= k < |r| ==>
      var row := ParseTable(output, 6)[k];
      r[k] == RawPane(row[0], row[1], row[2], row[3], row[4], row[5])
  {
    var rows := ParseTable(output, 6);
    seq(|rows|, k requires 0 <= k < |rows| =>
      RawPane(rows[k][0], rows[k][1], rows[k][2], rows[k][3], rows[k][4], rows[k][5]))
  }

  /** `parseInt`: a blank string is an error of its own; otherwise the
      trimmed text is parsed as `strconv.Atoi` does. */
  function ParseIntField(s: string): (r: Result<int>)
    ensures IsBlank(s) ==> r.Err?
    ensures r.Ok? ==> MinInt64 <= r.value <= MaxInt64 && ParseInt(TrimSpace(s)) == Parsed(r.value, NoError)
    ensures !IsBlank(s) && ParseInt(TrimSpace(s)).err == NoError ==> r == Ok(ParseInt(TrimSpace(s)).value)
  {
    var t := TrimSpace(s);
    TrimSpaceEmptyIffBlank(s);
    if t == "" then Err("empty int")
    else
      var p := ParseInt(t);
      if p.err == NoError then Ok(p.value) else Err("invalid int: " + t)
  }

  /** A 64-bit integer printed in decimal, with blanks around it, parses
      back. */
  lemma ParseIntFieldDecimal(n: int)
    requires MinInt64 <= n <= MaxInt64
    ensures ParseIntField(Decimal(n)) == Ok(n)
  {
    ParseIntDecimal(n);
    DecimalUnpadded(n);
    TrimSpaceUnchanged(Decimal(n));
  }

  // ---------------------------------------------------------------------
  // The printing side: the format strings of internal/tmux/formats.go put
  // the separator between the fields, and tmux ends every row with a line
  // feed.

  /** A field tmux can print back unambiguously: no separator (raw or
      escaped) and no line break inside. */
  predicate CleanField(f: string) {
    DelimChar !in f && '\n' !in f && '\r' !in f && !Contains(f, EscapedDelim)
  }

  /** The fields the session format prints, in order. */
  function SessionFields(s: RawSession): (r: seq<string>)
    ensures |r| == 4
  {
    [s.name, s.path, s.created, s.attached]
  }

  /** The fields the pane format prints, in order. */
  function PaneFields(p: RawPane): (r: seq<string>)
    ensures |r| == 6
  {
    [p.id, p.index, p.title, p.currentCommand, p.currentPath, p.pid]
  }

  /** Every line followed by a line feed. */
  function Render(lines: seq<string>): string
    decreases |lines|
  {
    if |lines| == 0 then "" else lines[0] + "\n" + Render(lines[1..])
  }

  lemma {:induction false} RenderIsJoin(lines: seq<string>)
    ensures Render(lines) == Join(lines + [""], "\n")
    decreases |lines|
  {
    if |lines| > 0 {
      RenderIsJoin(lines[1..]);
      assert (lines + [""])[1..] == lines[1..] + [""];
    }
  }

  lemma {:induction false} RenderNoCR(lines: seq<string>)
    requires forall i :: 0 <= i < |lines| ==> '\r' !in lines[i]
    ensures '\r' !in Render(lines)
    decreases |lines|
  {
    if |lines| > 0 {
      RenderNoCR(lines[1..]);
    }
  }

  /** The lines of rendered text are the rendered lines, plus the empty
      piece after the final line feed. */
  lemma LinesOfRender(lines: seq<string>)
    requires forall i :: 0 <= i < |lines| ==> '\n' !in lines[i] && '\r' !in lines[i]
    ensures Lines(Render(lines)) == lines + [""]
  {
    RenderNoCR(lines);
    NormalizeNewlinesNoCR(Render(lines));
    RenderIsJoin(lines);
    var parts := lines + [""];
    assert forall k :: 0 <= k < |parts| ==> '\n' !in parts[k];
    SplitCleanJoin(parts);
  }

  /** Pieces without line feeds, joined by line feeds, split back apart. */
  lemma SplitCleanJoin(parts: seq<string>)
    requires |parts| > 0
    requires forall k :: 0 <= k < |parts| ==> '\n' !in parts[k]
    ensures Split(Join(parts, "\n"), "\n") == parts
  {
    forall k | 0 <= k < |parts| ensures !Contains(parts[k], "\n") {
      AbsentRune(parts[k], '\n');
    }
    SplitJoin(parts, "\n");
  }

  /** A line joined from clean fields splits back into those fields. */
  lemma SplitRowOfJoin(fields: seq<string>)
    requires |fields| >= 2
    requires forall i :: 0 <= i < |fields| ==> CleanField(fields[i])
    ensures Join(fields, Delim) != ""
    ensures SplitRow(Join(fields, Delim)) == fields
  {
    assert Join(fields, Delim) == fields[0] + Delim + Join(fields[1..], Delim);
    JoinContainsNothingNew(fields, DelimChar, EscapedDelim);
    forall k | 0 <= k < |fields| ensures !Contains(fields[k], Delim) {
      AbsentRune(fields[k], DelimChar);
    }
    SplitJoin(fields, Delim);
  }

  lemma JoinKeepsLineBreaksOut(fields: seq<string>, sep: string)
    requires '\n' !in sep && '\r' !in sep
    requires forall i :: 0 <= i < |fields| ==> '\n' !in fields[i] && '\r' !in fields[i]
    ensures '\n' !in Join(fields, sep) && '\r' !in Join(fields, sep)
    decreases |fields|
  {
    if |fields| > 1 {
      JoinKeepsLineBreaksOut(fields[1..], sep);
    }
  }

  /** Every field of every row is clean. */
  predicate CleanRows(rows: seq<seq<string>>) {
    forall i, k :: 0 <= i < |rows| && 0 <= k < |rows[i]| ==> CleanField(rows[i][k])
  }

  /** Each row printed on a line of its own. */
  function JoinedLines(rows: seq<seq<string>>): (r: seq<string>)
    ensures |r| == |rows| && forall i :: 0 <= i < |rows| ==> r[i] == Join(rows[i], Delim)
    decreases |rows|
  {
    if |rows| == 0 then [] else JoinedLines(rows[..|rows| - 1]) + [Join(rows[|rows| - 1], Delim)]
  }

  /** Lines that each split into the matching row, with enough fields,
      are read back as those rows. */
  lemma {:induction false} GatherOfLines(lines: seq<string>, rows: seq<seq<string>>, expected: nat,
                                         split: string -> seq<string>)
    requires |lines| == |rows|
    requires forall i :: 0 <= i < |lines| ==> lines[i] != "" && split(lines[i]) == rows[i] && |rows[i]| >= expected
    ensures Gather(lines, expected, split) == rows
    decreases |lines|
  {
    if |lines| > 0 {
      var n := |lines| - 1;
      assert forall i :: 0 <= i < n ==> lines[..n][i] == lines[i] && rows[..n][i] == rows[i];
      GatherOfLines(lines[..n], rows[..n], expected, split);
      assert rows[..n] + [rows[n]] == rows;
    }
  }

  /** Printed rows with at least two and at least `expected` clean fields
      are read back as they were. */
  lemma RowsOfJoined(rows: seq<seq<string>>, expected: nat)
    requires CleanRows(rows)
    requires forall i :: 0 <= i < |rows| ==> |rows[i]| >= 2 && |rows[i]| >= expected
    ensures Rows(JoinedLines(rows), expected) == rows
  {
    var lines := JoinedLines(rows);
    forall i | 0 <= i < |lines| ensures lines[i] != "" && SplitRow(lines[i]) == rows[i] {
      assert forall k :: 0 <= k < |rows[i]| ==> CleanField(rows[i][k]);
      SplitRowOfJoin(rows[i]);
    }
    GatherOfLines(lines, rows, expected, SplitRow);
  }

  /** Printing rows and parsing the text gives the rows back. */
  lemma ParseTableRoundTrip(rows: seq<seq<string>>, expected: nat)
    requires CleanRows(rows)
    requires forall i :: 0 <= i < |rows| ==> |rows[i]| >= 2 && |rows[i]| >= expected
    ensures ParseTable(Render(JoinedLines(rows)), expected) == rows
  {
    var lines := JoinedLines(rows);
    forall i | 0 <= i < |lines| ensures '\n' !in lines[i] && '\r' !in lines[i] {
      JoinKeepsLineBreaksOut(rows[i], Delim);
    }
    LinesOfRender(lines);
    RowsAppend(lines, [""], expected);
    RowsSingle("", expected);
    RowsOfJoined(rows, expected);
  }

  predicate CleanSession(s: RawSession) {
    forall k :: 0 <= k < 4 ==> CleanField(SessionFields(s)[k])
  }

  predicate CleanPane(p: RawPane) {
    forall k :: 0 <= k < 6 ==> CleanField(PaneFields(p)[k])
  }

  /** The session format applied to every session, one per line. */
  function SessionsText(ss: seq<RawSession>): string {
    Render(JoinedLines(seq(|ss|, i requires 0 <= i < |ss| => SessionFields(ss[i]))))
  }

  /** The pane format applied to every pane, one per line. */
  function PanesText(ps: seq<RawPane>): string {
    Render(JoinedLines(seq(|ps|, i requires 0 <= i < |ps| => PaneFields(ps[i]))))
  }

  /** Printing sessions with the session format and parsing the output
      gives the sessions back, as long as no field holds a separator or a
      line break. */
  lemma ParseSessionsRoundTrip(ss: seq<RawSession>)
    requires forall i :: 0 <= i < |ss| ==> CleanSession(ss[i])
    ensures ParseSessions(SessionsText(ss)) == ss
  {
    var rows := seq(|ss|, i requires 0 <= i < |ss| => SessionFields(ss[i]));
    ParseTableRoundTrip(rows, 4);
  }

  /** The same for panes and the pane format. */
  lemma ParsePanesRoundTrip(ps: seq<RawPane>)
    requires forall i :: 0 <= i < |ps| ==> CleanPane(ps[i])
    ensures ParsePanes(PanesText(ps)) == ps
  {
    var rows := seq(|ps|, i requires 0 <= i < |ps| => PaneFields(ps[i]));
    ParseTableRoundTrip(rows, 6);
  }

  /** A field tmux prints with the escaped separator: no backslash and no
      line break inside. */
  predicate PlainField(f: string) {
    '\\' !in f && '\n' !in f && '\r' !in f
  }

  lemma EscapedDelimFacts()
    ensures |EscapedDelim| == 4 && EscapedDelim[0] == '\\'
    ensures '\n' !in EscapedDelim && '\r' !in EscapedDelim
    ensures Unbordered(EscapedDelim)
  {
    var e := EscapedDelim;
    assert e[1..] != e[..3] by { assert e[1] != e[0]; }
    assert e[2..] != e[..2] by { assert e[2] != e[0]; }
    assert e[3..] != e[..1] by { assert e[3] != e[0]; }
  }

  /** A line whose fields are separated by the escaped separator is split
      on it. */
  lemma SplitEscapedRow(fields: seq<string>)
    requires |fields| >= 2
    requires forall i :: 0 <= i < |fields| ==> PlainField(fields[i])
    ensures Join(fields, EscapedDelim) != ""
    ensures SplitRow(Join(fields, EscapedDelim)) == fields
  {
    EscapedDelimFacts();
    var line := Join(fields, EscapedDelim);
    assert line == fields[0] + EscapedDelim + Join(fields[1..], EscapedDelim);
    assert OccursAt(line, EscapedDelim, |fields[0]|);
    forall k | 0 <= k < |fields| ensures !Contains(fields[k], EscapedDelim) {
      AbsentHead(fields[k], EscapedDelim);
    }
    SplitJoin(fields, EscapedDelim);
  }

  /** A text of one line: the line is the only candidate row. */
  lemma OneLineTable(line: string, expected: nat)
    requires '\n' !in line && '\r' !in line
    ensures ParseTable(line + "\n", expected) == Rows([line], expected)
  {
    assert Render([line]) == line + "\n";
    LinesOfRender([line]);
    RowsAppend([line], [""], expected);
    RowsSingle("", expected);
  }

  /** Such a line yields that row when it has enough fields. */
  lemma EscapedRowParses(fields: seq<string>, expected: nat)
    requires |fields| >= 2
    requires forall i :: 0 <= i < |fields| ==> PlainField(fields[i])
    ensures ParseTable(Join(fields, EscapedDelim) + "\n", expected) ==
      (if |fields| >= expected then [fields] else [])
  {
    var line := Join(fields, EscapedDelim);
    EscapedDelimFacts();
    JoinKeepsLineBreaksOut(fields, EscapedDelim);
    OneLineTable(line, expected);
    RowsSingle(line, expected);
    SplitEscapedRow(fields);
  }

  /** The case of internal/tmux/parse_test.go:5-17: a pane row printed with
      escaped separators. */
  lemma ParsePanesEscapedExample()
    ensures var panes := ParsePanes("%0" + EscapedDelim + "0" + EscapedDelim + "codex-1" + EscapedDelim
                                    + "zsh" + EscapedDelim + "/Users/test" + EscapedDelim + "123" + "\n");
      |panes| == 1 && panes[0].id == "%0" && panes[0].title == "codex-1"
  {
    var fields := ["%0", "0", "codex-1", "zsh", "/Users/test", "123"];
    PanesExampleJoin(fields);
    PanesExampleRow(fields);
  }

  /** The example's fields joined by the escaped separator. */
  lemma PanesExampleJoin(fields: seq<string>)
    requires fields == ["%0", "0", "codex-1", "zsh", "/Users/test", "123"]
    ensures Join(fields, EscapedDelim) == "%0" + EscapedDelim + "0" + EscapedDelim + "codex-1" + EscapedDelim
                                          + "zsh" + EscapedDelim + "/Users/test" + EscapedDelim + "123"
  {
    JoinSix(fields, EscapedDelim);
  }

  /** Six fields joined by a separator. */
  lemma JoinSix(f: seq<string>, e: string)
    requires |f| == 6
    ensures Join(f, e) == f[0] + e + f[1] + e + f[2] + e + f[3] + e + f[4] + e + f[5]
  {
    assert Join(f[5..], e) == f[5];
    assert f[4..][1..] == f[5..];
    var j4 := f[4] + e + f[5];
    assert Join(f[4..], e) == j4;
    assert f[3..][1..] == f[4..];
    var j3 := f[3] + e + j4;
    assert Join(f[3..], e) == j3;
    assert f[2..][1..] == f[3..];
    var j2 := f[2] + e + j3;
    assert Join(f[2..], e) == j2;
    assert f[1..][1..] == f[2..];
    var j1 := f[1] + e + j2;
    assert Join(f[1..], e) == j1;
    assert Join(f, e) == f[0] + e + j1;
    Concat6(f[0], f[1], f[2], f[3], f[4], f[5], e);
  }

  /** Re-bracketing a six-field join. */
  lemma Concat6(a: string, b: string, c: string, d: string, g: string, h: string, e: string)
    ensures a + e + (b + e + (c + e + (d + e + (g + e + h)))) == a + e + b + e + c + e + d + e + g + e + h
  {
    var x := g + e + h;
    var y := d + e + x;
    assert d + e + x == d + e + g + e + h;
    assert c + e + y == c + e + d + e + g + e + h;
    assert b + e + (c + e + y) == b + e + c + e + d + e + g + e + h;
  }

  /** The example's row parses to one pane with its id and title. */
  lemma PanesExampleRow(fields: seq<string>)
    requires fields == ["%0", "0", "codex-1", "zsh", "/Users/test", "123"]
    ensures var panes := ParsePanes(Join(fields, EscapedDelim) + "\n");
      |panes| == 1 && panes[0].id == "%0" && panes[0].title == "codex-1"
  {
    PanesExampleFields(fields);
    EscapedRowParses(fields, 6);
  }

  /** The case of internal/tmux/parse_test.go:19-31: a session row printed
      with escaped separators. */
  lemma ParseSessionsEscapedExample()
    ensures var sessions := ParseSessions("repo" + EscapedDelim + "/Users/test" + EscapedDelim
                                          + "1700000000" + EscapedDelim + "1" + "\n");
      |sessions| == 1 && sessions[0].name == "repo" && sessions[0].path == "/Users/test"
  {
    var fields := ["repo", "/Users/test", "1700000000", "1"];
    var e := EscapedDelim;
    assert Join(fields, e) == "repo" + e + "/Users/test" + e + "1700000000" + e + "1";
    SessionsExampleFields(fields);
    EscapedRowParses(fields, 4);
  }

  lemma PanesExampleFields(fields: seq<string>)
    requires fields == ["%0", "0", "codex-1", "zsh", "/Users/test", "123"]
    ensures forall i :: 0 <= i < |fields| ==> PlainField(fields[i])
  {
  }

  lemma SessionsExampleFields(fields: seq<string>)
    requires fields == ["repo", "/Users/test", "1700000000", "1"]
    ensures forall i :: 0 <= i < |fields| ==> PlainField(fields[i])
  {
  }
}
