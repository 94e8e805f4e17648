/** The pane providers of internal/provider: the registry saying what each
    pane type launches, and the check of whether an agent pane's program
    still runs, read from a snapshot of the process table. Whether an
    executable is found on PATH, and the output of `ps`, are parameters. */
module Providers {
  import opened Wrappers
  import opened Text
  import opened Domain

  datatype Provider = Provider(paneType: PaneType, command: string, titlePrefix: string, executable: string)

  /** The registered providers and the per-type command overrides. */
  datatype Registry = Registry(providers: map<PaneType, Provider>, overrides: map<PaneType, string>)

  // ---------------------------------------------------------------------
  // The registry.

  /** `NewRegistry`: codex, claude and shell, each launching the program of
      its own name and titling panes "<type>-"; the shell launches nothing
      (the pane keeps its login shell). */
  function NewRegistry(): (r: Registry)
    ensures r.providers.Keys == {PaneCodex, PaneClaude, PaneShell}
    ensures |r.overrides| == 0
    ensures forall t :: t in r.providers ==>
      r.providers[t].paneType == t && r.providers[t].titlePrefix == t + "-"
      && r.providers[t].command == r.providers[t].executable
      && (r.providers[t].executable == "" <==> t == PaneShell)
    ensures r.providers[PaneCodex].executable == "codex" && r.providers[PaneClaude].executable == "claude"
  {
    Registry(
      map[PaneCodex := Provider(PaneCodex, "codex", "codex-", "codex"),
          PaneClaude := Provider(PaneClaude, "claude", "claude-", "claude"),
          PaneShell := Provider(PaneShell, "", "shell-", "")],
      map[])
  }

  /** `Get`: nothing for an unregistered type; otherwise the stored
      provider, with the command replaced when the type is overridden. */
  function Get(r: Registry, t: PaneType): (p: Option<Provider>)
    ensures p.None? <==> t !in r.providers
    ensures p.Some? ==> p.value == r.providers[t].(command := p.value.command)
    ensures p.Some? && t in r.overrides ==> p.value.command == r.overrides[t]
    ensures p.Some? && t !in r.overrides ==> p.value == r.providers[t]
  {
    if t !in r.providers then None
    else if t in r.overrides then Some(r.providers[t].(command := r.overrides[t]))
    else Some(r.providers[t])
  }

  /** `Override`: from now on `Get(t)` launches `command`; every other type
      reads as before, and the stored providers are untouched. */
  function Override(r: Registry, t: PaneType, command: string): (r': Registry)
    ensures r'.providers == r.providers
    ensures forall u :: u != t ==> Get(r', u) == Get(r, u)
    ensures t in r.providers ==> Get(r', t) == Some(r.providers[t].(command := command))
    ensures t !in r.providers ==> Get(r', t).None?
  {
    Registry(r.providers, r.overrides[t := command])
  }

  /** A later override for the same type replaces an earlier one. */
  lemma OverrideLastWins(r: Registry, t: PaneType, first: string, second: string)
    ensures Override(Override(r, t, first), t, second) == Override(r, t, second)
  {
  }

  /** `IsAvailable`: the type is registered and its executable is either
      empty or found on PATH. */
  predicate IsAvailable(r: Registry, t: PaneType, onPath: string -> bool) {
    t in r.providers && (r.providers[t].executable == "" || onPath(r.providers[t].executable))
  }

  /** The shape every registry the program builds has: each provider is
      filed under its own type, and a shell provider that needs no
      executable is present. */
  predicate WellFormed(r: Registry) {
    (forall t :: t in r.providers ==> r.providers[t].paneType == t)
    && PaneShell in r.providers && r.providers[PaneShell].executable == ""
  }

  lemma RegistriesWellFormed(r: Registry, t: PaneType, command: string)
    requires WellFormed(r)
    ensures WellFormed(NewRegistry())
    ensures WellFormed(Override(r, t, command))
  {
  }

  /** `GetWithFallback`: the requested provider when it is available,
      else the shell provider. In a well-formed registry there always is a
      result, it is of the type reported, that type is available, and it
      is the requested one exactly when that one is available. */
  function GetWithFallback(r: Registry, t: PaneType, onPath: string -> bool): (res: (Option<Provider>, PaneType))
    ensures res.1 == t || res.1 == PaneShell
    ensures IsAvailable(r, t, onPath) ==> res.1 == t
    ensures WellFormed(r) ==>
      && res.0.Some? && res.0.value.paneType == res.1
      && IsAvailable(r, res.1, onPath)
      && (res.1 == t <==> IsAvailable(r, t, onPath))
  {
    if IsAvailable(r, t, onPath) then (Get(r, t), t) else (Get(r, PaneShell), PaneShell)
  }

  /** A codex provider whose executable is not on PATH falls back to the
      shell. */
  lemma FallbackToShellExample(onPath: string -> bool)
    requires !onPath("definitely-not-a-binary")
    ensures var r := NewRegistry();
      var r' := r.(providers := r.providers[PaneCodex := r.providers[PaneCodex].(executable := "definitely-not-a-binary")]);
      && GetWithFallback(r', PaneCodex, onPath).1 == PaneShell
      && GetWithFallback(r', PaneCodex, onPath).0.Some?
      && GetWithFallback(r', PaneCodex, onPath).0.value.paneType == PaneShell
  {
  }

  /** An override changes the command `Get` returns. */
  lemma OverrideCommandExample()
    ensures Get(Override(NewRegistry(), PaneCodex, "codex --foo"), PaneCodex).Some?
    ensures Get(Override(NewRegistry(), PaneCodex, "codex --foo"), PaneCodex).value.command == "codex --foo"
  {
  }

  // ---------------------------------------------------------------------
  // Reading the process table.

  datatype ProcessInfo = ProcessInfo(pid: int, ppid: int, comm: string, args: string)

  /** One line of `ps -o pid=,ppid=,comm=,args=`: skipped when blank or
      when it has fewer than three fields; a pid or ppid that does not read
      as a number counts as whatever `strconv.Atoi` leaves (0 for a non-
      number); the arguments are the remaining fields joined by single
      spaces. */
  function ParsePsLine(line: string): (p: Option<ProcessInfo>)
    ensures p.None? <==> |Fields(TrimSpace(line))| < 3
    ensures p.Some? ==> p.value.comm == Fields(TrimSpace(line))[2] && IsWord(p.value.comm)
    ensures p.Some? && |Fields(TrimSpace(line))| == 3 ==> p.value.args == ""
  {
    var t := TrimSpace(line);
    if t == "" then None else FieldsProcess(Fields(t))
  }

  /** The process a line's fields describe, when there are enough. */
  function FieldsProcess(fields: seq<string>): (p: Option<ProcessInfo>)
    ensures p.None? <==> |fields| < 3
  {
    if |fields| < 3 then None
    else
      var args := if |fields| > 3 then Join(fields[3..], " ") else "";
      Some(ProcessInfo(ParseInt(fields[0]).value, ParseInt(fields[1]).value, fields[2], args))
  }

  /** The processes of a list of lines, in order. */
  function PsRows(lines: seq<string>): (r: seq<ProcessInfo>)
    ensures |r| <= |lines|
    decreases |lines|
  {
    if |lines| == 0 then []
    else
      var row := ParsePsLine(lines[0]);
      (if row.Some? then [row.value] else []) + PsRows(lines[1..])
  }

  /** The snapshot `getProcessSnapshot` reads from the output of `ps`. */
  function ParsePs(output: string): seq<ProcessInfo> {
    PsRows(Split(output, "\n"))
  }

  /** A line of at least three fields, each separated by one blank. */
  lemma PsLineOfWords(words: seq<string>)
    requires |words| >= 3
    requires forall k :: 0 <= k < |words| ==> IsWord(words[k])
    ensures ParsePsLine(Join(words, " ")) == FieldsProcess(words)
  {
    var line := Join(words, " ");
    JoinedLineParses(words, line);
    WordsLineFields(words, line);
  }

  /** Words joined by single blanks make a non-empty line that trimming
      leaves alone, so it is read field by field. */
  lemma JoinedLineParses(words: seq<string>, line: string)
    requires |words| > 0 && line == Join(words, " ")
    requires forall k :: 0 <= k < |words| ==> IsWord(words[k])
    ensures ParsePsLine(line) == FieldsProcess(Fields(line))
  {
    JoinWordsUntrimmed(words, " ");
  }

  /** Such a line splits back into the words. */
  lemma WordsLineFields(words: seq<string>, line: string)
    requires line == Join(words, " ")
    requires forall k :: 0 <= k < |words| ==> IsWord(words[k])
    ensures Fields(line) == words
  {
    FieldsJoin(words);
  }

  /** Three or more fields make a process, whose arguments are the fields
      after the third. */
  lemma FieldsProcessOf(words: seq<string>)
    requires |words| >= 3
    ensures FieldsProcess(words)
      == Some(ProcessInfo(ParseInt(words[0]).value, ParseInt(words[1]).value, words[2], Join(words[3..], " ")))
  {
    if |words| == 3 {
      assert words[3..] == [];
    }
  }

  /** A process printed the way `ps` prints it reads back as itself. */
  lemma PsLineRoundTrip(pid: int, ppid: int, comm: string, argWords: seq<string>)
    requires MinInt64 <= pid <= MaxInt64 && MinInt64 <= ppid <= MaxInt64
    requires IsWord(comm)
    requires forall k :: 0 <= k < |argWords| ==> IsWord(argWords[k])
    ensures ParsePsLine(Join([Decimal(pid), Decimal(ppid), comm] + argWords, " "))
      == Some(ProcessInfo(pid, ppid, comm, Join(argWords, " ")))
  {
    var words := [Decimal(pid), Decimal(ppid), comm] + argWords;
    DecimalIsWord(pid);
    DecimalIsWord(ppid);
    WordsPrefixed(Decimal(pid), Decimal(ppid), comm, argWords);
    PsLineOfWords(words);
    FieldsProcessOf(words);
    assert words[3..] == argWords;
    ParseIntDecimal(pid);
    ParseIntDecimal(ppid);
  }

  lemma WordsPrefixed(a: string, b: string, c: string, rest: seq<string>)
    requires IsWord(a) && IsWord(b) && IsWord(c)
    requires forall k :: 0 <= k < |rest| ==> IsWord(rest[k])
    ensures forall k :: 0 <= k < |[a, b, c] + rest| ==> IsWord(([a, b, c] + rest)[k])
  {
    var words := [a, b, c] + rest;
    forall k | 0 <= k < |words| ensures IsWord(words[k]) {
      if k >= 3 {
        assert words[k] == rest[k - 3];
      }
    }
  }

  // ---------------------------------------------------------------------
  // The process tree.

  /** The pids listed with parent `pid`, in snapshot order (the `children`
      map of `DetectStatus`). */
  function ChildrenOf(procs: seq<ProcessInfo>, pid: int): (r: seq<int>)
    ensures |r| <= |procs|
    decreases |procs|
  {
    if |procs| == 0 then []
    else (if procs[0].ppid == pid then [procs[0].pid] else []) + ChildrenOf(procs[1..], pid)
  }

  /** The `processMap` of `DetectStatus`: each pid to its row, the last row
      winning when a pid repeats. */
  function ProcessTable(procs: seq<ProcessInfo>): (m: map<int, ProcessInfo>)
    ensures forall i :: 0 <= i < |procs| ==> procs[i].pid in m
    ensures forall pid :: pid in m ==> m[pid].pid == pid && m[pid] in procs
    decreases |procs|
  {
    if |procs| == 0 then map[]
    else ProcessTable(procs[..|procs| - 1])[procs[|procs| - 1].pid := procs[|procs| - 1]]
  }

  /** A process shows the executable in its command name or arguments. */
  predicate Shows(p: ProcessInfo, executable: string) {
    Contains(p.comm, executable) || Contains(p.args, executable)
  }

  /** `hasDescendantMatching`, explored at most `fuel` levels deep. */
  function HasMatch(pid: int, executable: string, procs: seq<ProcessInfo>, table: map<int, ProcessInfo>, fuel: nat): bool
    decreases fuel, 0
  {
    fuel > 0 && AnyChild(ChildrenOf(procs, pid), executable, procs, table, fuel - 1)
  }

  /** The loop over the children: a child missing from the table is
      skipped; otherwise it answers when it shows the executable or has a
      descendant that does. */
  function AnyChild(kids: seq<int>, executable: string, procs: seq<ProcessInfo>, table: map<int, ProcessInfo>, fuel: nat): bool
    decreases fuel, 1, |kids|
  {
    |kids| > 0 &&
    ((kids[0] in table && (Shows(table[kids[0]], executable) || HasMatch(kids[0], executable, procs, table, fuel)))
     || AnyChild(kids[1..], executable, procs, table, fuel))
  }

  /** A chain of descendants below `pid`: each a child of the one before,
      each present in the table. The pane's own process is not part of it. */
  predicate Chain(pid: int, path: seq<int>, procs: seq<ProcessInfo>, table: map<int, ProcessInfo>) {
    && |path| >= 1
    && path[0] in ChildrenOf(procs, pid)
    && (forall i :: 0 <= i < |path| ==> path[i] in table)
    && (forall i :: 0 <= i < |path| - 1 ==> path[i + 1] in ChildrenOf(procs, path[i]))
  }

  /** A chain ending at a process that shows the executable. */
  predicate MatchingChain(pid: int, path: seq<int>, executable: string, procs: seq<ProcessInfo>, table: map<int, ProcessInfo>) {
    Chain(pid, path, procs, table) && Shows(table[path[|path| - 1]], executable)
  }

  /** A chain without its first step is a chain below that step, ending
      where the whole chain ends. */
  lemma ChainTail(pid: int, path: seq<int>, procs: seq<ProcessInfo>, table: map<int, ProcessInfo>)
    requires Chain(pid, path, procs, table) && |path| > 1
    ensures Chain(path[0], path[1..], procs, table)
    ensures path[1..][|path| - 2] == path[|path| - 1]
  {
    var rest := path[1..];
    forall i | 0 <= i < |rest| - 1 ensures rest[i + 1] in ChildrenOf(procs, rest[i]) {
      assert rest[i + 1] == path[i + 2] && rest[i] == path[i + 1];
    }
    forall i | 0 <= i < |rest| ensures rest[i] in table {
      assert rest[i] == path[i + 1];
    }
  }

  lemma {:induction false} AnyChildAt(kids: seq<int>, j: nat, executable: string, procs: seq<ProcessInfo>, table: map<int, ProcessInfo>, fuel: nat)
    requires j < |kids| && kids[j] in table
    requires Shows(table[kids[j]], executable) || HasMatch(kids[j], executable, procs, table, fuel)
    ensures AnyChild(kids, executable, procs, table, fuel)
    decreases j
  {
    if j > 0 {
      AnyChildAt(kids[1..], j - 1, executable, procs, table, fuel);
    }
  }

  lemma {:induction false} AnyChildWitness(kids: seq<int>, executable: string, procs: seq<ProcessInfo>, table: map<int, ProcessInfo>, fuel: nat)
    returns (j: nat)
    requires AnyChild(kids, executable, procs, table, fuel)
    ensures j < |kids| && kids[j] in table
    ensures Shows(table[kids[j]], executable) || HasMatch(kids[j], executable, procs, table, fuel)
    decreases |kids|
  {
    if kids[0] in table && (Shows(table[kids[0]], executable) || HasMatch(kids[0], executable, procs, table, fuel)) {
      j := 0;
    } else {
      var k := AnyChildWitness(kids[1..], executable, procs, table, fuel);
      j := k + 1;
    }
  }

  /** Every matching chain no longer than the fuel is found. */
  lemma {:induction false} HasMatchComplete(pid: int, path: seq<int>, executable: string, procs: seq<ProcessInfo>, table: map<int, ProcessInfo>, fuel: nat)
    requires MatchingChain(pid, path, executable, procs, table) && |path| <= fuel
    ensures HasMatch(pid, executable, procs, table, fuel)
    decreases |path|
  {
    var kids := ChildrenOf(procs, pid);
    var j :| 0 <= j < |kids| && kids[j] == path[0];
    if |path| > 1 {
      ChainTail(pid, path, procs, table);
      HasMatchComplete(path[0], path[1..], executable, procs, table, fuel - 1);
    }
    AnyChildAt(kids, j, executable, procs, table, fuel - 1);
  }

  /** Every match found comes with a matching chain no longer than the
      fuel. */
  lemma {:induction false} HasMatchSound(pid: int, executable: string, procs: seq<ProcessInfo>, table: map<int, ProcessInfo>, fuel: nat)
    returns (path: seq<int>)
    requires HasMatch(pid, executable, procs, table, fuel)
    ensures MatchingChain(pid, path, executable, procs, table) && |path| <= fuel
    decreases fuel
  {
    var kids := ChildrenOf(procs, pid);
    var j := AnyChildWitness(kids, executable, procs, table, fuel - 1);
    var c := kids[j];
    if Shows(table[c], executable) {
      path := [c];
    } else {
      var rest := HasMatchSound(c, executable, procs, table, fuel - 1);
      path := [c] + rest;
      assert path[1..] == rest;
      assert forall i :: 0 <= i < |path| - 1 ==> path[i + 1] == rest[i];
      assert forall i :: 1 <= i < |path| ==> path[i] == rest[i - 1];
    }
  }

  /** `hasDescendantMatching` at a given depth decides whether a matching
      chain of at most that length exists. */
  lemma HasMatchIff(pid: int, executable: string, procs: seq<ProcessInfo>, table: map<int, ProcessInfo>, fuel: nat)
    ensures HasMatch(pid, executable, procs, table, fuel) <==>
      exists path :: |path| <= fuel && MatchingChain(pid, path, executable, procs, table)
  {
    if HasMatch(pid, executable, procs, table, fuel) {
      var path := HasMatchSound(pid, executable, procs, table, fuel);
    }
    forall path | |path| <= fuel && MatchingChain(pid, path, executable, procs, table)
      ensures HasMatch(pid, executable, procs, table, fuel)
    {
      HasMatchComplete(pid, path, executable, procs, table, fuel);
    }
  }

  // ---------------------------------------------------------------------
  // Status detection.

  /** The executable the pane type is checked for, when it has one. */
  function Executable(r: Registry, paneType: PaneType): string {
    var p := Get(r, paneType);
    if p.Some? then p.value.executable else ""
  }

  /** The agent still runs: some descendant of the pane's process, at most
      as many levels down as the snapshot has processes, shows the
      executable. */
  ghost predicate AgentRuns(r: Registry, panePid: int, paneType: PaneType, procs: seq<ProcessInfo>) {
    exists path :: |path| <= |procs| && MatchingChain(panePid, path, Executable(r, paneType), procs, ProcessTable(procs))
  }

  /** `DetectStatus`, with the snapshot passed in. A shell pane is always
      active; a pane without a positive pid, a failed snapshot, a type
      without a provider or a provider without an executable give
      unknown; otherwise the pane is active exactly when a descendant shows
      the executable, and exited otherwise. */
  function DetectStatus(r: Registry, panePid: int, paneType: PaneType, snapshot: Result<seq<ProcessInfo>>): (s: PaneStatus)
    ensures paneType == PaneShell ==> s == Active
    ensures paneType != PaneShell && (panePid <= 0 || snapshot.Err? || Executable(r, paneType) == "") ==>
      s == StatusUnknown
    ensures paneType != PaneShell && panePid > 0 && snapshot.Ok? && Executable(r, paneType) != "" ==>
      (s == Active <==> AgentRuns(r, panePid, paneType, snapshot.value))
      && (s == Exited <==> !AgentRuns(r, panePid, paneType, snapshot.value))
  {
    if paneType == PaneShell then Active
    else if panePid <= 0 then StatusUnknown
    else if snapshot.Err? then StatusUnknown
    else
      var procs := snapshot.value;
      var table := ProcessTable(procs);
      var exe := Executable(r, paneType);
      if exe == "" then StatusUnknown
      else
        HasMatchIff(panePid, exe, procs, table, |procs|);
        if HasMatch(panePid, exe, procs, table, |procs|) then Active else Exited
  }

  /** Without cycles in the parent links, the depth bound loses nothing:
      given a rank that drops from every process to its children and is
      at most the number of processes at the pane, every matching chain is
      within reach. */
  predicate Ranked(procs: seq<ProcessInfo>, rank: int -> nat) {
    forall i :: 0 <= i < |procs| ==> rank(procs[i].pid) < rank(procs[i].ppid)
  }

  lemma {:induction false} ChildRanked(procs: seq<ProcessInfo>, rank: int -> nat, p: int, c: int)
    requires Ranked(procs, rank) && c in ChildrenOf(procs, p)
    ensures rank(c) < rank(p)
    decreases |procs|
  {
    if procs[0].ppid == p && c == procs[0].pid {
    } else {
      assert c in ChildrenOf(procs[1..], p);
      ChildRanked(procs[1..], rank, p, c);
    }
  }

  lemma {:induction false} ChainBounded(pid: int, path: seq<int>, procs: seq<ProcessInfo>, table: map<int, ProcessInfo>, rank: int -> nat)
    requires Ranked(procs, rank) && Chain(pid, path, procs, table)
    ensures |path| <= rank(pid)
    decreases |path|
  {
    ChildRanked(procs, rank, pid, path[0]);
    if |path| > 1 {
      ChainTail(pid, path, procs, table);
      ChainBounded(path[0], path[1..], procs, table, rank);
    }
  }

  lemma DetectStatusAcyclic(r: Registry, panePid: int, paneType: PaneType, procs: seq<ProcessInfo>, rank: int -> nat)
    requires paneType != PaneShell && panePid > 0 && Executable(r, paneType) != ""
    requires Ranked(procs, rank) && rank(panePid) <= |procs|
    ensures DetectStatus(r, panePid, paneType, Ok(procs)) == Active <==>
      exists path :: MatchingChain(panePid, path, Executable(r, paneType), procs, ProcessTable(procs))
  {
    forall path | MatchingChain(panePid, path, Executable(r, paneType), procs, ProcessTable(procs))
      ensures |path| <= |procs|
    {
      ChainBounded(panePid, path, procs, ProcessTable(procs), rank);
    }
  }

  /** The pane's own process is never the one tested: an agent pane whose
      process has no children in the snapshot has exited, whatever its own
      command line shows. */
  lemma ChildlessPaneExited(r: Registry, panePid: int, paneType: PaneType, procs: seq<ProcessInfo>)
    requires paneType != PaneShell && panePid > 0 && Executable(r, paneType) != ""
    requires forall i :: 0 <= i < |procs| ==> procs[i].ppid != panePid
    ensures DetectStatus(r, panePid, paneType, Ok(procs)) == Exited
  {
    NoChildren(procs, panePid);
  }

  lemma {:induction false} NoChildren(procs: seq<ProcessInfo>, pid: int)
    requires forall i :: 0 <= i < |procs| ==> procs[i].ppid != pid
    ensures ChildrenOf(procs, pid) == []
    decreases |procs|
  {
    if |procs| > 0 {
      NoChildren(procs[1..], pid);
    }
  }
}
