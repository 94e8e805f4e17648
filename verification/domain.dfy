/** The shared vocabulary: pane types, statuses, live panes and sessions
    (internal/domain/models.go) and the pane-type helpers
    (internal/domain/helpers.go). */
module Domain {
  import opened Wrappers
  import opened Text

  /** Go declares `type PaneType string`: persisted records may hold any
      string, the program itself only produces the four constants below. */
  type PaneType = string

  const PaneCodex: PaneType := "codex"
  const PaneClaude: PaneType := "claude"
  const PaneShell: PaneType := "shell"
  const PaneUnknown: PaneType := "unknown"

  /** Process-tree liveness of a pane. */
  datatype PaneStatus = Active | Exited | StatusUnknown

  /** Agent activity. `AgentUnset` is Go's zero value "", which the live
      snapshot leaves in place. */
  datatype AgentStatus = AgentUnset | AgentIdle | AgentRunning

  /** `time.Time` as nanoseconds since the Unix epoch. */
  type Time = int

  const Second: int := 1_000_000_000
  const Millisecond: int := 1_000_000

  /** Go's zero `time.Time`, 1 January of year 1, UTC. */
  const ZeroTime: Time := -62135596800 * Second

  predicate IsZero(t: Time) {
    t == ZeroTime
  }

  datatype Pane = Pane(
    id: string,
    index: int,
    title: string,
    paneType: PaneType,
    status: PaneStatus,
    agentStatus: AgentStatus,
    pid: int,
    currentCommand: string,
    currentPath: string,
    lastActive: Time)

  datatype Session = Session(
    name: string,
    path: string,
    createdAt: Time,
    attached: bool,
    panes: seq<Pane>)

  datatype Snapshot = Snapshot(
    sessions: seq<Session>,
    currentSession: string,
    currentPane: string)

  /** The three types a user may ask for. */
  predicate IsConcreteType(t: PaneType) {
    t == PaneCodex || t == PaneClaude || t == PaneShell
  }

  /** `domain.ParsePaneType`: trimmed and case-folded input naming one of
      the three concrete types; anything else is an error. */
  function ParsePaneType(s: string): (r: Result<PaneType>)
    ensures r.Ok? <==> IsConcreteType(Lower(TrimSpace(s)))
    ensures r.Ok? ==> r.value == Lower(TrimSpace(s)) && r.value != PaneUnknown
  {
    var k := Lower(TrimSpace(s));
    if k == "codex" then Ok(PaneCodex)
    else if k == "claude" then Ok(PaneClaude)
    else if k == "shell" then Ok(PaneShell)
    else Err("unknown pane type: " + s + " (use codex, claude, or shell)")
  }

  /** The command names an agent. */
  predicate CommandNamesAgent(command: string) {
    Contains(Lower(command), "codex") || Contains(Lower(command), "claude")
  }

  /** The title, trimmed and case-folded, starts with one of the type names. */
  predicate TitleNamesType(title: string) {
    var t := Lower(TrimSpace(title));
    HasPrefix(t, "codex") || HasPrefix(t, "claude") || HasPrefix(t, "shell")
  }

  /** `domain.InferPaneType`: the command is consulted first (codex before
      claude), then the title's prefix; shell is only ever read off the
      title. */
  function InferPaneType(command: string, title: string): (r: PaneType)
    ensures r == PaneCodex || r == PaneClaude || r == PaneShell || r == PaneUnknown
    ensures r == PaneShell ==> !CommandNamesAgent(command)
    ensures Contains(Lower(command), "codex") ==> r == PaneCodex
    ensures !Contains(Lower(command), "codex") && Contains(Lower(command), "claude") ==> r == PaneClaude
  {
    var cmd := Lower(command);
    if Contains(cmd, "codex") then PaneCodex
    else if Contains(cmd, "claude") then PaneClaude
    else
      var t := Lower(TrimSpace(title));
      if HasPrefix(t, "codex") then PaneCodex
      else if HasPrefix(t, "claude") then PaneClaude
      else if HasPrefix(t, "shell") then PaneShell
      else PaneUnknown
  }

  /** `domain.InferPaneTypeFromPane`. */
  function InferPaneTypeFromPane(p: Pane): (r: PaneType)
    ensures r == InferPaneType(p.currentCommand, p.title)
  {
    InferPaneType(p.currentCommand, p.title)
  }
}
