/** internal/app/overlay.go: how the status overlay is toggled, and the
    quoting of the program's own path for the shell command tmux runs. */
module OverlayToggle {
  import opened Wrappers
  import opened Text
  import opened Domain

  /** The title that marks the overlay pane. */
  const OverlayPaneTitle: string := "agentpane-status"

  /** The characters that make `shellQuote` quote its input. */
  const ShellSpecial: string := " \t\n'\"\\$&;|<>()[]{}*?"

  /** `shellQuote`: the empty word is `''`; a word free of special
      characters is left alone; anything else is wrapped in single quotes,
      each embedded single quote written as `'"'"'`. */
  function ShellQuote(input: string): (r: string)
    ensures input == "" ==> r == "''"
    ensures input != "" && !ContainsAny(input, ShellSpecial) ==> r == input
    ensures input != "" && ContainsAny(input, ShellSpecial) ==>
      |r| >= 2 && r[0] == '\'' && r[|r| - 1] == '\''
  {
    if input == "" then "''"
    else if !ContainsAny(input, ShellSpecial) then input
    else "'" + ReplaceChar(input, '\'', EscapedQuote) + "'"
  }

  // ---------------------------------------------------------------------
  // A reading of a word the way a POSIX shell does it, restricted to the
  // forms `ShellQuote` produces: bare characters that need no quoting,
  // single-quoted stretches (taken literally) and double-quoted stretches
  // free of `\`, `$` and backquote. Anything else is refused, and so is
  // what the shell would not take literally: a bare backquote (command
  // substitution), and a word starting with '~' (tilde expansion) or '#'
  // (a comment).

  datatype QuoteState = Bare | InSingle | InDouble

  /** Reads `s` from state `st` with `acc` read so far; `None` for a word
      outside the forms above or with an unclosed quote. */
  function ReadWord(s: string, st: QuoteState, acc: string): (r: Option<string>)
    decreases |s|
  {
    if |s| == 0 then (if st == Bare then Some(acc) else None)
    else
      var c := s[0];
      match st
      case Bare =>
        if c == '\'' then ReadWord(s[1..], InSingle, acc)
        else if c == '"' then ReadWord(s[1..], InDouble, acc)
        else if c in ShellSpecial || c == '`' then None
        else ReadWord(s[1..], Bare, acc + [c])
      case InSingle =>
        if c == '\'' then ReadWord(s[1..], Bare, acc)
        else ReadWord(s[1..], InSingle, acc + [c])
      case InDouble =>
        if c == '"' then ReadWord(s[1..], Bare, acc)
        else if c == '\\' || c == '$' || c == '`' then None
        else ReadWord(s[1..], InDouble, acc + [c])
  }

  /** A word start the shell expands or skips. */
  predicate SpecialStart(s: string) {
    |s| > 0 && (s[0] == '~' || s[0] == '#')
  }

  /** The word the shell sees in `s`. */
  function ShellWord(s: string): (r: Option<string>)
    ensures SpecialStart(s) ==> r.None?
    ensures !SpecialStart(s) ==> r == ReadWord(s, Bare, "")
  {
    if SpecialStart(s) then None else ReadWord(s, Bare, "")
  }

  /** Text the shell takes literally without quotes: no special
      character, no backquote, and no special start. */
  predicate BareSafe(s: string) {
    !ContainsAny(s, ShellSpecial) && '`' !in s && !SpecialStart(s)
  }

  /** How an embedded single quote is written inside single quotes. */
  const EscapedQuote: string := "'\"'\"'"

  /** Bare text free of special characters reads as itself. */
  lemma {:induction false} ReadBare(x: string, acc: string)
    requires !ContainsAny(x, ShellSpecial) && '`' !in x
    ensures ReadWord(x, Bare, acc) == Some(acc + x)
    decreases |x|
  {
    if |x| == 0 {
      assert acc + x == acc;
    } else {
      assert x[0] !in ShellSpecial;
      assert ShellSpecial[3] == '\'' && ShellSpecial[4] == '"';
      assert ReadWord(x, Bare, acc) == ReadWord(x[1..], Bare, acc + [x[0]]);
      assert '`' !in x[1..];
      assert !ContainsAny(x[1..], ShellSpecial) by {
        forall i | 0 <= i < |x[1..]| ensures x[1..][i] !in ShellSpecial {
          assert x[1..][i] == x[i + 1];
        }
      }
      ReadBare(x[1..], acc + [x[0]]);
      assert acc + [x[0]] + x[1..] == acc + x;
    }
  }

  /** Inside single quotes, `'"'"'` closes the quote, reads a quote
      character in double quotes, and reopens single quotes. */
  lemma ReadEscapedQuote(tail: string, acc: string)
    ensures ReadWord(EscapedQuote + tail, InSingle, acc) == ReadWord(tail, InSingle, acc + "'")
  {
    var s := EscapedQuote + tail;
    assert s[0] == '\'' && s[1..] == "\"'\"'" + tail;
    var s1 := s[1..];
    assert ReadWord(s, InSingle, acc) == ReadWord(s1, Bare, acc);
    assert s1[0] == '"' && s1[1..] == "'\"'" + tail;
    var s2 := s1[1..];
    assert ReadWord(s1, Bare, acc) == ReadWord(s2, InDouble, acc);
    assert s2[0] == '\'' && s2[1..] == "\"'" + tail;
    var s3 := s2[1..];
    assert ReadWord(s2, InDouble, acc) == ReadWord(s3, InDouble, acc + "'");
    assert s3[0] == '"' && s3[1..] == "'" + tail;
    var s4 := s3[1..];
    assert ReadWord(s3, InDouble, acc + "'") == ReadWord(s4, Bare, acc + "'");
    assert s4[0] == '\'' && s4[1..] == tail;
    assert ReadWord(s4, Bare, acc + "'") == ReadWord(tail, InSingle, acc + "'");
  }

  /** Inside single quotes, the escaped body of `x` followed by the closing
      quote reads back as `x`. */
  lemma {:induction false} ReadEscaped(x: string, acc: string)
    ensures ReadWord(ReplaceChar(x, '\'', EscapedQuote) + "'", InSingle, acc) == Some(acc + x)
    decreases |x|
  {
    var s := ReplaceChar(x, '\'', EscapedQuote) + "'";
    if |x| == 0 {
      assert s == "'";
      assert ReadWord(s, InSingle, acc) == ReadWord(s[1..], Bare, acc);
      assert s[1..] == [];
      assert acc + x == acc;
    } else {
      var tail := ReplaceChar(x[1..], '\'', EscapedQuote) + "'";
      ReadEscaped(x[1..], acc + [x[0]]);
      if x[0] == '\'' {
        assert s == EscapedQuote + tail;
        ReadEscapedQuote(tail, acc);
        assert acc + "'" == acc + [x[0]];
      } else {
        assert s == [x[0]] + tail;
        assert s[1..] == tail;
        assert ReadWord(s, InSingle, acc) == ReadWord(tail, InSingle, acc + [x[0]]);
      }
      assert acc + [x[0]] + x[1..] == acc + x;
    }
  }

  /** Quoting is faithful for every input it quotes, and for every input
      it leaves alone that the shell takes literally: the shell reads
      back exactly the input. */
  lemma ShellQuoteRoundTrip(input: string)
    requires ContainsAny(input, ShellSpecial) || BareSafe(input)
    ensures ShellWord(ShellQuote(input)) == Some(input)
  {
    QuotedRoundTrip(input, ShellQuote(input));
  }

  /** The three forms `ShellQuote` writes, each read back. */
  lemma QuotedRoundTrip(input: string, q: string)
    requires input == "" ==> q == "''"
    requires input != "" && BareSafe(input) ==> q == input
    requires input != "" && !BareSafe(input) ==> q == "'" + ReplaceChar(input, '\'', EscapedQuote) + "'"
    ensures ShellWord(q) == Some(input)
  {
    if input == "" {
      assert q[0] == '\'' && q[1..] == "'";
      assert ReadWord(q, Bare, "") == ReadWord(q[1..], InSingle, "");
      assert q[1..][1..] == [];
      assert ReadWord(q[1..], InSingle, "") == ReadWord(q[1..][1..], Bare, "");
    } else if BareSafe(input) {
      ReadBare(input, "");
      assert "" + input == input;
    } else {
      var body := ReplaceChar(input, '\'', EscapedQuote) + "'";
      assert q == "'" + body && q[0] == '\'' && q[1..] == body;
      assert !SpecialStart(q);
      assert ReadWord(q, Bare, "") == ReadWord(body, InSingle, "");
      ReadEscaped(input, "");
      assert "" + input == input;
    }
  }

  /** `shellQuote` as written leaves a word with a backquote unquoted
      (the backquote is not in its list), so the shell would run a
      command substitution instead of reading the word. */
  lemma ShellQuoteBackquote(input: string)
    requires input == "a`b`c"
    ensures ShellQuote(input) == input
    ensures ShellWord(ShellQuote(input)) == None
  {
    assert forall i :: 0 <= i < |input| ==> input[i] !in ShellSpecial;
    assert input[1] == '`' && input[0] == 'a';
    assert ReadWord(input, Bare, "") == ReadWord(input[1..], Bare, "a");
  }

  /** `shellQuote` with the quoting decision it evidently intends: any
      word the shell would not take literally is quoted. */
  function ShellQuoteFixed(input: string): (r: string)
    ensures input == "" ==> r == "''"
    ensures input != "" && BareSafe(input) ==> r == input
    ensures input != "" && !BareSafe(input) ==> r == "'" + ReplaceChar(input, '\'', EscapedQuote) + "'"
  {
    if input == "" then "''"
    else if BareSafe(input) then input
    else "'" + ReplaceChar(input, '\'', EscapedQuote) + "'"
  }

  /** The corrected quoting is faithful for every input. */
  lemma ShellQuoteFixedRoundTrip(input: string)
    ensures ShellWord(ShellQuoteFixed(input)) == Some(input)
  {
    QuotedRoundTrip(input, ShellQuoteFixed(input));
  }

  /** The two agree wherever the original's decision was right. */
  lemma ShellQuoteFixedAgrees(input: string)
    requires ContainsAny(input, ShellSpecial) || BareSafe(input)
    ensures ShellQuoteFixed(input) == ShellQuote(input)
  {
  }

  // ---------------------------------------------------------------------
  // Toggling.

  datatype ToggleAction =
    | KillOverlay(paneId: string)
    | OpenOverlay(position: string, size: int, command: string)
      /** The program's own path could not be found: the lookup's error,
          or none when it gave a blank path. */
    | ExeUnresolved(cause: Option<string>)

  /** The subcommand the new overlay pane runs. */
  const OverlayViewArg: string := " overlay-view"

  /** The first pane of the window titled exactly as the overlay. */
  function OverlayPane(panes: seq<Pane>): (r: Option<string>)
    ensures r.Some? <==> exists i :: 0 <= i < |panes| && panes[i].title == OverlayPaneTitle
    ensures r.Some? ==> exists i :: (0 <= i < |panes| && panes[i].title == OverlayPaneTitle
      && panes[i].id == r.value && forall j :: 0 <= j < i ==> panes[j].title != OverlayPaneTitle)
    decreases |panes|
  {
    if |panes| == 0 then None
    else if panes[0].title == OverlayPaneTitle then Some(panes[0].id)
    else
      var r := OverlayPane(panes[1..]);
      assert forall i :: 0 < i < |panes| ==> panes[i] == panes[1..][i - 1];
      r
  }

  /** The size and position of a new overlay: a non-positive size becomes
      30 and a blank position "left"; a given position is trimmed. */
  function OverlayPlacement(size: int, position: string): (r: (string, int))
    ensures r.1 > 0 && (size > 0 ==> r.1 == size) && (size <= 0 ==> r.1 == 30)
    ensures r.0 != ""
    ensures TrimSpace(position) == "" ==> r.0 == "left"
    ensures TrimSpace(position) != "" ==> r.0 == TrimSpace(position)
  {
    (if TrimSpace(position) == "" then "left" else TrimSpace(position), if size <= 0 then 30 else size)
  }

  /** `ToggleOverlay` once the window's panes are known: an overlay that is
      already open is closed, otherwise one is opened running the quoted
      path of the program (`exe`, the result of looking it up). */
  function Toggle(panes: seq<Pane>, size: int, position: string, exe: Result<string>): (r: ToggleAction)
    ensures r.KillOverlay? <==> exists i :: 0 <= i < |panes| && panes[i].title == OverlayPaneTitle
    ensures r.KillOverlay? ==> OverlayPane(panes) == Some(r.paneId)
    ensures OverlayPane(panes).None? ==>
      (r.ExeUnresolved? <==> exe.Err? || TrimSpace(exe.value) == "")
      && (exe.Err? ==> r == ExeUnresolved(Some(exe.error)))
    ensures r.OpenOverlay? ==>
      (r.position, r.size) == OverlayPlacement(size, position)
      && exe.Ok? && TrimSpace(exe.value) != "" && r.command == ShellQuote(exe.value) + OverlayViewArg
  {
    var existing := OverlayPane(panes);
    if existing.Some? then KillOverlay(existing.value)
    else if exe.Err? then ExeUnresolved(Some(exe.error))
    else if TrimSpace(exe.value) == "" then ExeUnresolved(None)
    else
      var (pos, sz) := OverlayPlacement(size, position);
      OpenOverlay(pos, sz, ShellQuote(exe.value) + OverlayViewArg)
  }

  /** A window without an overlay gains one by a pane titled as the
      overlay being added at the end. */
  lemma OverlayPaneAppended(panes: seq<Pane>, shown: Pane)
    requires OverlayPane(panes).None?
    requires shown.title == OverlayPaneTitle
    ensures OverlayPane(panes + [shown]) == Some(shown.id)
  {
    var all := panes + [shown];
    assert all[|panes|] == shown;
    assert forall j :: 0 <= j < |panes| ==> all[j] == panes[j];
  }

  /** A second toggle after opening closes what the first one opened. */
  lemma ToggleTwiceCloses(panes: seq<Pane>, size: int, position: string, exe: Result<string>, shown: Pane)
    requires Toggle(panes, size, position, exe).OpenOverlay?
    requires shown.title == OverlayPaneTitle
    ensures Toggle(panes + [shown], size, position, exe) == KillOverlay(shown.id)
  {
    OverlayPaneAppended(panes, shown);
  }
}
