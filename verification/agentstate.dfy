/** The agent-state signals of internal/agentstate/state.go: the state
    words an agent's hook writes, whether a state file is recent enough to
    trust, the tuning knobs read from the environment, and the two scans
    over the tail of a pane's output. A regular expression is represented
    by its source text; whether a text compiles and whether a compiled
    expression matches a line are parameters. */
module AgentState {
  import opened Wrappers
  import opened Text
  import opened Domain

  /** The contents of a state file. */
  datatype AgentRecord = AgentRecord(state: string, tool: string, updatedAtUnixMs: int, paneId: string)

  // ---------------------------------------------------------------------
  // State words and tools.

  const RunningWords: set<string> := {"running", "in_progress", "in-progress"}
  const IdleWords: set<string> :=
    {"idle", "waiting", "paused", "done", "completed", "success", "error", "failed", "failure"}

  /** `MapStatus`: the trimmed, case-folded word decides; a running word
      gives (running, true), one of the nine settled words (idle, true),
      anything else (idle, false). */
  function MapStatus(state: string): (r: (AgentStatus, bool))
    ensures r.0 == AgentRunning <==> Lower(TrimSpace(state)) in RunningWords
    ensures r.0 == AgentRunning || r.0 == AgentIdle
    ensures r.1 <==> Lower(TrimSpace(state)) in RunningWords + IdleWords
  {
    var key := Lower(TrimSpace(state));
    if key in RunningWords then (AgentRunning, true)
    else if key in IdleWords then (AgentIdle, true)
    else (AgentIdle, false)
  }

  /** Only the normalised word matters: normalising first changes nothing. */
  lemma MapStatusNormalised(state: string)
    ensures MapStatus(Lower(TrimSpace(state))) == MapStatus(state)
  {
    NormalizeIdempotent(state);
  }

  /** `MatchesTool`: an empty or unrecognised tool fits every pane; codex
      fits codex and unknown panes, claude fits claude and unknown panes. */
  function MatchesTool(paneType: PaneType, tool: string): (r: bool)
    ensures Lower(TrimSpace(tool)) == "codex" ==> (r <==> paneType == PaneCodex || paneType == PaneUnknown)
    ensures Lower(TrimSpace(tool)) == "claude" ==> (r <==> paneType == PaneClaude || paneType == PaneUnknown)
    ensures Lower(TrimSpace(tool)) != "codex" && Lower(TrimSpace(tool)) != "claude" ==> r
  {
    var key := Lower(TrimSpace(tool));
    if key == "" then true
    else if key == "codex" then paneType == PaneCodex || paneType == PaneUnknown
    else if key == "claude" then paneType == PaneClaude || paneType == PaneUnknown
    else true
  }

  /** A pane whose type is not known fits every tool, and a pane of a type
      fits the tool of the same name. */
  lemma MatchesToolUnknownAndOwn(tool: string)
    ensures MatchesTool(PaneUnknown, tool)
    ensures MatchesTool(PaneCodex, tool) || Lower(TrimSpace(tool)) == "claude"
    ensures MatchesTool(PaneClaude, tool) || Lower(TrimSpace(tool)) == "codex"
    ensures Lower(TrimSpace(tool)) == "codex" ==> !MatchesTool(PaneShell, tool) && !MatchesTool(PaneClaude, tool)
  {
  }

  // ---------------------------------------------------------------------
  // 64-bit time arithmetic.

  const TwoTo64: int := 0x1_0000_0000_0000_0000

  /** Go's int64 arithmetic wraps around modulo 2^64. */
  function Wrap64(x: int): (r: int)
    ensures MinInt64 <= r <= MaxInt64
    ensures (r - x) % TwoTo64 == 0
    ensures MinInt64 <= x <= MaxInt64 ==> r == x
  {
    (x - MinInt64) % TwoTo64 + MinInt64
  }

  /** A value between 2^63 and 2^64 + 2^63 wraps around exactly once. */
  lemma WrapOnce(x: int)
    requires MaxInt64 < x < MaxInt64 + TwoTo64
    ensures Wrap64(x) == x - TwoTo64
  {
    var y := x - MinInt64;
    assert TwoTo64 <= y < 2 * TwoTo64;
    assert y == TwoTo64 * (y / TwoTo64) + y % TwoTo64;
    assert y / TwoTo64 == 1;
  }

  /** `time.Time.Sub`: the difference as a `time.Duration`, saturated at the
      int64 bounds instead of wrapping. */
  function Sub(t: Time, u: Time): (d: int)
    ensures MinInt64 <= d <= MaxInt64
    ensures MinInt64 <= t - u <= MaxInt64 ==> d == t - u
    ensures t - u > MaxInt64 ==> d == MaxInt64
    ensures t - u < MinInt64 ==> d == MinInt64
  {
    if t - u > MaxInt64 then MaxInt64 else if t - u < MinInt64 then MinInt64 else t - u
  }

  /** `UpdatedAt`: the zero time for a non-positive stamp, else that many
      milliseconds after the epoch. The milliseconds are multiplied into
      nanoseconds in int64, which wraps for stamps past the year 2262. */
  function UpdatedAt(st: AgentRecord): (t: Time)
    ensures st.updatedAtUnixMs <= 0 <==> IsZero(t)
    ensures 0 < st.updatedAtUnixMs <= MaxInt64 / Millisecond ==> t == st.updatedAtUnixMs * Millisecond
  {
    if st.updatedAtUnixMs <= 0 then ZeroTime else Wrap64(st.updatedAtUnixMs * Millisecond)
  }

  /** `IsFresh`, with the time-to-live passed in: a record without a stamp
      is never fresh; otherwise it is fresh while no more than `ttl` has
      passed, the boundary included. */
  function IsFresh(st: AgentRecord, now: Time, ttl: int): (r: bool)
    ensures st.updatedAtUnixMs <= 0 ==> !r
    ensures st.updatedAtUnixMs > 0 ==> (r <==> Sub(now, UpdatedAt(st)) <= ttl)
  {
    var updated := UpdatedAt(st);
    if IsZero(updated) then false else Sub(now, updated) <= ttl
  }

  /** For a stamp in the ordinary range the freshness window is closed:
      exactly `ttl` after the stamp is still fresh, one nanosecond later is
      not, and a record fresh at some moment was fresh at every earlier
      moment since its stamp. */
  lemma FreshWindow(st: AgentRecord, ttl: int, now: Time, earlier: Time)
    requires 0 < st.updatedAtUnixMs <= MaxInt64 / Millisecond
    requires 0 <= ttl < MaxInt64
    requires UpdatedAt(st) <= earlier <= now
    ensures IsFresh(st, UpdatedAt(st) + ttl, ttl)
    ensures !IsFresh(st, UpdatedAt(st) + ttl + 1, ttl)
    ensures IsFresh(st, now, ttl) ==> IsFresh(st, earlier, ttl)
  {
  }

  // ---------------------------------------------------------------------
  // Knobs read from the environment.

  const DefaultTtlSeconds: nat := 30
  const DefaultIdleSeconds: nat := 20
  const DefaultOutputLines: nat := 40

  /** The value of a numeric knob: the trimmed setting when it reads as a
      positive integer, the default otherwise. */
  function KnobValue(raw: string, default: nat): (v: int)
    requires 0 < default <= MaxInt64
    ensures 0 < v <= MaxInt64
    ensures ParseInt(TrimSpace(raw)).err == NoError && ParseInt(TrimSpace(raw)).value > 0 ==>
      v == ParseInt(TrimSpace(raw)).value
    ensures !(ParseInt(TrimSpace(raw)).err == NoError && ParseInt(TrimSpace(raw)).value > 0) ==>
      v == default
  {
    var t := TrimSpace(raw);
    if t != "" then
      var p := ParseInt(t);
      if p.err == NoError && p.value > 0 then p.value else default
    else default
  }

  /** A positive number, printed, is taken as it is; an unset knob, or a
      zero or negative setting, falls back to the default. */
  lemma KnobValueDecimal(n: int, default: nat)
    requires MinInt64 <= n <= MaxInt64 && 0 < default <= MaxInt64
    ensures n > 0 ==> KnobValue(Decimal(n), default) == n
    ensures n <= 0 ==> KnobValue(Decimal(n), default) == default
    ensures KnobValue("", default) == default
  {
    ParseIntDecimal(n);
    DecimalUnpadded(n);
    TrimSpaceUnchanged(Decimal(n));
  }

  /** `time.Duration(v) * time.Second` as Go computes it: in int64, wrapping
      around for settings above about 9.2e9 seconds. */
  function SecondsAsWritten(v: int): (d: int)
    ensures MinInt64 <= d <= MaxInt64
    ensures v * Second <= MaxInt64 ==> v >= 0 ==> d == v * Second
  {
    Wrap64(v * Second)
  }

  /** The duration the knob evidently means: `v` seconds, capped at the
      longest `time.Duration`. */
  function Seconds(v: int): (d: int)
    requires v > 0
    ensures 0 < d <= MaxInt64
    ensures v * Second <= MaxInt64 ==> d == v * Second
  {
    if v * Second > MaxInt64 then MaxInt64 else v * Second
  }

  /** A larger setting never yields a shorter duration. */
  lemma SecondsMonotone(a: int, b: int)
    requires 0 < a <= b
    ensures Seconds(a) <= Seconds(b)
  {
  }

  /** `ttl` as written: a setting of 9223372037 seconds wraps around to a
      negative duration, so no state file would ever be fresh, where the
      corrected `Ttl` gives the longest duration. */
  lemma TtlWrapsNegative(n: int)
    requires n == 9223372037
    ensures SecondsAsWritten(KnobValue(Decimal(n), DefaultTtlSeconds)) < 0
    ensures Ttl(Decimal(n)) == MaxInt64
  {
    KnobValueDecimal(n, DefaultTtlSeconds);
    WrapOnce(n * Second);
  }

  /** `ttl`, with the wrap-around corrected. */
  function Ttl(raw: string): (d: int)
    ensures 0 < d <= MaxInt64
    ensures d == Seconds(KnobValue(raw, DefaultTtlSeconds))
  {
    Seconds(KnobValue(raw, DefaultTtlSeconds))
  }

  /** `IdleThreshold` as written wraps around exactly like `ttl`: a
      setting of 9223372037 seconds gives a negative threshold, where the
      corrected `IdleThreshold` gives the longest duration. */
  lemma IdleWrapsNegative(n: int)
    requires n == 9223372037
    ensures SecondsAsWritten(KnobValue(Decimal(n), DefaultIdleSeconds)) < 0
    ensures IdleThreshold(Decimal(n)) == MaxInt64
  {
    KnobValueDecimal(n, DefaultIdleSeconds);
    WrapOnce(n * Second);
  }

  /** `IdleThreshold`, with the same correction. */
  function IdleThreshold(raw: string): (d: int)
    ensures 0 < d <= MaxInt64
    ensures d == Seconds(KnobValue(raw, DefaultIdleSeconds))
  {
    Seconds(KnobValue(raw, DefaultIdleSeconds))
  }

  /** `OutputLines`. */
  function OutputLines(raw: string): (n: int)
    ensures 0 < n <= MaxInt64
    ensures n == KnobValue(raw, DefaultOutputLines)
  {
    KnobValue(raw, DefaultOutputLines)
  }

  /** An unset knob gives the defaults: 30 s, 20 s and 40 lines. */
  lemma KnobDefaults()
    ensures Ttl("") == 30 * Second && IdleThreshold("") == 20 * Second && OutputLines("") == 40
  {
  }

  // ---------------------------------------------------------------------
  // The matchers.

  /** The compiled expressions; `None` is a nil `*regexp.Regexp`. */
  datatype StatusMatcher = StatusMatcher(running: Option<string>, prompt: Option<string>)

  /** `envOrDefault`: a trimmed non-blank setting, else the default. */
  function EnvOrDefault(raw: string, fallback: string): (r: string)
    ensures TrimSpace(raw) != "" ==> r == TrimSpace(raw)
    ensures TrimSpace(raw) == "" ==> r == fallback
  {
    var v := TrimSpace(raw);
    if v != "" then v else fallback
  }

  /** `mustCompile`: the configured expression if it compiles, else the
      fallback if that compiles, else nil. */
  function MustCompile(value: string, fallback: string, compiles: string -> bool): (r: Option<string>)
    ensures r.Some? ==> compiles(r.value) && (r.value == value || r.value == fallback)
    ensures compiles(value) ==> r == Some(value)
    ensures r.None? <==> !compiles(value) && !compiles(fallback)
  {
    if compiles(value) then Some(value)
    else if compiles(fallback) then Some(fallback)
    else None
  }

  const DefaultRunningRegex: string :=
    "(?i)running|in progress|building|installing|processing|thinking|working|generating|executing|planning|▶"
  const DefaultPromptRegex: string := "(?m)^\\s*(?:›|❯|>)\\s*.*$"

  /** `compileMatcher`, from the two environment settings. */
  function CompileMatcher(runningEnv: string, promptEnv: string, compiles: string -> bool): (m: StatusMatcher)
    ensures m.running == MustCompile(EnvOrDefault(runningEnv, DefaultRunningRegex), DefaultRunningRegex, compiles)
    ensures m.prompt == MustCompile(EnvOrDefault(promptEnv, DefaultPromptRegex), DefaultPromptRegex, compiles)
  {
    StatusMatcher(
      MustCompile(EnvOrDefault(runningEnv, DefaultRunningRegex), DefaultRunningRegex, compiles),
      MustCompile(EnvOrDefault(promptEnv, DefaultPromptRegex), DefaultPromptRegex, compiles))
  }

  /** With the defaults compiling, the matcher always has both
      expressions: a configured one that does not compile is replaced. */
  lemma DefaultsKeepMatcher(runningEnv: string, promptEnv: string, compiles: string -> bool)
    requires compiles(DefaultRunningRegex) && compiles(DefaultPromptRegex)
    ensures CompileMatcher(runningEnv, promptEnv, compiles).running.Some?
    ensures CompileMatcher(runningEnv, promptEnv, compiles).prompt.Some?
  {
  }

  // ---------------------------------------------------------------------
  // Scanning the tail of the output.

  /** One line of output as the scans see it: trimmed, and dropped when
      blank. */
  function Kept(line: string): (r: seq<string>)
    ensures |r| <= 1
    ensures |r| == 1 <==> TrimSpace(line) != ""
  {
    var t := TrimSpace(line);
    if t == "" then [] else [t]
  }

  /** The trimmed non-blank lines, in order. */
  function NonBlank(lines: seq<string>): (r: seq<string>)
    ensures |r| <= |lines|
    decreases |lines|
  {
    if |lines| == 0 then [] else Kept(lines[0]) + NonBlank(lines[1..])
  }

  lemma {:induction false} NonBlankAppend(a: seq<string>, b: seq<string>)
    ensures NonBlank(a + b) == NonBlank(a) + NonBlank(b)
    decreases |a|
  {
    if |a| > 0 {
      assert (a + b)[1..] == a[1..] + b;
      NonBlankAppend(a[1..], b);
    } else {
      assert a + b == b;
    }
  }

  /** The last `n` elements (all of them when there are fewer). */
  function LastN<T>(s: seq<T>, n: nat): (r: seq<T>)
    ensures |r| == if |s| < n then |s| else n
    ensures r == s[|s| - |r|..]
  {
    if |s| < n then s else s[|s| - n..]
  }

  /** The lines of the output a scan looks at: the last `n` non-blank ones,
      trimmed. */
  function Window(output: string, n: nat): seq<string> {
    LastN(NonBlank(Lines(output)), n)
  }

  const MaxOutputLinesToCheck: nat := 8
  const MaxPromptLinesToCheck: nat := 4

  /** What `MatchOutput` promises: running exactly when the running
      expression matches one of the last eight non-blank lines. */
  predicate RunningSeen(output: string, m: StatusMatcher, matches: (string, string) -> bool) {
    m.running.Some? &&
    exists line :: line in Window(output, MaxOutputLinesToCheck) && matches(m.running.value, line)
  }

  /** The non-blank lines of a list are those before a cut followed by
      those after it. */
  lemma NonBlankCut(lines: seq<string>, i: nat)
    requires i <= |lines|
    ensures NonBlank(lines) == NonBlank(lines[..i]) + NonBlank(lines[i..])
  {
    calc {
      NonBlank(lines);
      { assert lines == lines[..i] + lines[i..]; }
      NonBlank(lines[..i] + lines[i..]);
      { NonBlankAppend(lines[..i], lines[i..]); }
      NonBlank(lines[..i]) + NonBlank(lines[i..]);
    }
  }

  lemma NonBlankStep(lines: seq<string>, i: nat)
    requires i < |lines|
    ensures NonBlank(lines[i..]) == Kept(lines[i]) + NonBlank(lines[i + 1..])
  {
    assert lines[i..][1..] == lines[i + 1..];
  }

  /** Every line the scans see is non-blank and trimmed. */
  lemma {:induction false} NonBlankTrimmed(lines: seq<string>)
    ensures forall k :: 0 <= k < |NonBlank(lines)| ==>
      NonBlank(lines)[k] != "" && NonBlank(lines)[k] == TrimSpace(NonBlank(lines)[k])
    decreases |lines|
  {
    if |lines| > 0 {
      NonBlankTrimmed(lines[1..]);
      TrimSpaceIdempotent(lines[0]);
    }
  }

  lemma TrimSpaceIdempotent(s: string)
    ensures TrimSpace(TrimSpace(s)) == TrimSpace(s)
  {
    TrimSpaceUnchanged(TrimSpace(s));
  }

  /** A tail no longer than the window lies inside it, and is all of it
      when it fills the window or nothing comes before it. */
  lemma WindowOfTail(pre: seq<string>, tail: seq<string>, limit: nat)
    requires |tail| <= limit
    ensures forall k :: 0 <= k < |tail| ==> tail[k] in LastN(pre + tail, limit)
    ensures |tail| == limit || |pre| == 0 ==> LastN(pre + tail, limit) == tail
  {
    var all := pre + tail;
    var w := LastN(all, limit);
    forall k | 0 <= k < |tail| ensures tail[k] in w {
      assert w[|w| - |tail| + k] == all[|all| - |tail| + k];
    }
    if |tail| == limit || |pre| == 0 {
      assert all[|pre|..] == tail;
    }
  }

  /** The non-blank lines from a cut on, when no more than the window,
      lie inside it; they are all of it when they fill it or the cut is at
      the start. */
  lemma TailInWindow(lines: seq<string>, i: nat, limit: nat)
    requires i <= |lines| && |NonBlank(lines[i..])| <= limit
    ensures |NonBlank(lines[i..])| > 0 ==> NonBlank(lines[i..])[0] in LastN(NonBlank(lines), limit)
    ensures i == 0 || |NonBlank(lines[i..])| == limit ==> LastN(NonBlank(lines), limit) == NonBlank(lines[i..])
  {
    NonBlankCut(lines, i);
    assert i == 0 ==> lines[..i] == [];
    WindowOfTail(NonBlank(lines[..i]), NonBlank(lines[i..]), limit);
  }

  /** The scan shared by both matchers: walk the lines from the end,
      skipping blank ones, and stop at the first trimmed line `hit` accepts
      or once `limit` non-blank lines have been looked at. Returns whether
      a line was accepted. */
  method ScanTail(lines: seq<string>, limit: nat, hit: string -> bool) returns (found: bool)
    ensures found <==> exists line :: line in LastN(NonBlank(lines), limit) && hit(line)
  {
    var checked := 0;
    var i := |lines|;
    ghost var tail: seq<string> := [];
    assert lines[|lines|..] == [];
    while i > 0 && checked < limit
      invariant 0 <= i <= |lines|
      invariant tail == NonBlank(lines[i..])
      invariant checked == |tail| <= limit
      invariant forall line :: line in tail ==> !hit(line)
      decreases i
    {
      i := i - 1;
      var line := TrimSpace(lines[i]);
      NonBlankStep(lines, i);
      if line != "" {
        checked := checked + 1;
        if hit(line) {
          ScanFound(lines, i, limit, hit);
          return true;
        }
      }
      tail := Kept(lines[i]) + tail;
    }
    ScanExhausted(lines, i, limit, hit);
    return false;
  }

  /** A non-blank line that `hit` accepts, met while the window is not yet
      full, is inside the window. */
  lemma ScanFound(lines: seq<string>, i: nat, limit: nat, hit: string -> bool)
    requires i < |lines| && |NonBlank(lines[i..])| <= limit
    requires TrimSpace(lines[i]) != "" && hit(TrimSpace(lines[i]))
    ensures exists line :: line in LastN(NonBlank(lines), limit) && hit(line)
  {
    NonBlankStep(lines, i);
    assert NonBlank(lines[i..])[0] == TrimSpace(lines[i]);
    TailInWindow(lines, i, limit);
  }

  /** Once the scan has reached the start or filled the window without a
      hit, no line of the window is accepted. */
  lemma ScanExhausted(lines: seq<string>, i: nat, limit: nat, hit: string -> bool)
    requires i <= |lines| && |NonBlank(lines[i..])| <= limit
    requires i == 0 || |NonBlank(lines[i..])| == limit
    requires forall line :: line in NonBlank(lines[i..]) ==> !hit(line)
    ensures !exists line :: line in LastN(NonBlank(lines), limit) && hit(line)
  {
    TailInWindow(lines, i, limit);
  }

  /** `MatchOutput`, with the compiled matcher and the matching relation
      passed in. */
  method MatchOutput(output: string, m: StatusMatcher, matches: (string, string) -> bool)
    returns (status: AgentStatus, ok: bool)
    ensures ok <==> RunningSeen(output, m, matches)
    ensures ok ==> status == AgentRunning
    ensures !ok ==> status == AgentIdle
  {
    if m.running.None? {
      return AgentIdle, false;
    }
    var r := m.running.value;
    var hit := line => matches(r, line);
    ok := ScanTail(Lines(output), MaxOutputLinesToCheck, hit);
    assert forall line :: hit(line) == matches(r, line);
    status := if ok then AgentRunning else AgentIdle;
  }

  /** The lowered line mentions how much context is left (Codex's idle
      footer). */
  predicate IsCodexContextLine(line: string) {
    Contains(Lower(line), "context left")
  }

  /** Claude's idle footer: "↵ send" or "⏎ send" anywhere, or a line that
      ends in "send" and shows one of the two return symbols. */
  function IsClaudeSendLine(line: string): (r: bool)
    ensures r <==> Contains(line, "↵ send") || Contains(line, "⏎ send")
                   || (HasSuffix(TrimSpace(line), "send") && ('↵' in line || '⏎' in line))
  {
    if Contains(line, "↵ send") || Contains(line, "⏎ send") then true
    else if HasSuffix(TrimSpace(line), "send") then
      var lower := Lower(line);
      SymbolContained(line, '↵');
      SymbolContained(line, '⏎');
      Contains(lower, "↵") || Contains(lower, "⏎")
    else false
  }

  /** Looking for a one-rune string in the lowered line is looking for the
      rune in the line, for a rune that has no case. */
  lemma SymbolContained(line: string, c: char)
    requires !('A' <= c <= 'Z') && !('a' <= c <= 'z')
    ensures Contains(Lower(line), [c]) <==> c in line
  {
    LowerKeeps(line, c);
    var l := Lower(line);
    if c in l {
      var i :| 0 <= i < |l| && l[i] == c;
      assert OccursAt(l, [c], i);
    }
    AbsentRuneIff(l, c);
  }

  lemma AbsentRuneIff(s: string, c: char)
    ensures Contains(s, [c]) <==> c in s
  {
    if Contains(s, [c]) {
      var i :| 0 <= i <= |s| - 1 && OccursAt(s, [c], i);
      assert s[i..i + 1][0] == s[i];
    }
    if c in s {
      var i :| 0 <= i < |s| && s[i] == c;
      assert s[i..i + 1] == [c];
      assert OccursAt(s, [c], i);
    }
  }

  /** Whether one trimmed line shows that the agent waits at its prompt. */
  predicate PromptLine(line: string, prompt: string, matches: (string, string) -> bool) {
    IsCodexContextLine(line) || IsClaudeSendLine(line) || matches(prompt, line)
  }

  /** What `MatchPrompt` promises: with a prompt expression, one of the
      last four non-blank lines is an idle footer or matches it. */
  predicate PromptSeen(output: string, m: StatusMatcher, matches: (string, string) -> bool) {
    m.prompt.Some? &&
    exists line :: line in Window(output, MaxPromptLinesToCheck) && PromptLine(line, m.prompt.value, matches)
  }

  /** `MatchPrompt`. It never reports running. */
  method MatchPrompt(output: string, m: StatusMatcher, matches: (string, string) -> bool)
    returns (status: AgentStatus, ok: bool)
    ensures status == AgentIdle
    ensures ok <==> PromptSeen(output, m, matches)
  {
    if m.prompt.None? {
      return AgentIdle, false;
    }
    var p := m.prompt.value;
    var hit := line => PromptLine(line, p, matches);
    ok := ScanTail(Lines(output), MaxPromptLinesToCheck, hit);
    assert forall line :: hit(line) == PromptLine(line, p, matches);
    status := AgentIdle;
  }

  /** `lastNonEmptyLine`: the last non-blank line, trimmed, or "". */
  function LastNonEmptyLine(output: string): (r: string)
    ensures r == "" <==> |NonBlank(Lines(output))| == 0
    ensures r != "" ==> r == NonBlank(Lines(output))[|NonBlank(Lines(output))| - 1]
  {
    var all := NonBlank(Lines(output));
    NonBlankTrimmed(Lines(output));
    if |all| == 0 then "" else all[|all| - 1]
  }
}
