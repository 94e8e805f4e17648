/** The read-only views of internal/app: the dashboard snapshot that lays
    the persisted titles and types over the live panes (snapshot.go), the
    layout captured from the current session (init_snapshot.go) and the
    search over a snapshot (search.go). */
module Snapshots {
  import opened Wrappers
  import opened Text
  import opened Domain
  import opened StateStore
  import Configuration

  // ---------------------------------------------------------------------
  // snapshot.go

  /** snapshot.go's own copy of the inference rule. */
  function InferType(command: string, title: string): (r: PaneType)
    ensures r == InferPaneType(command, title)
  {
    var cmd := Lower(command);
    if Contains(cmd, "codex") then PaneCodex
    else if Contains(cmd, "claude") then PaneClaude
    else
      var t := Lower(TrimSpace(title));
      if HasPrefix(t, "codex") then PaneCodex
      else if HasPrefix(t, "claude") then PaneClaude
      else if HasPrefix(t, "shell") then PaneShell
      else PaneUnknown
  }

  /** The persisted record of each pane id, built by assigning in list
      order, so a later record for the same id replaces an earlier one. */
  function RecordMap(panes: seq<PaneState>): (m: map<string, PaneState>)
    ensures m.Keys == set p | p in panes :: p.tmuxId
    ensures forall id :: id in m ==> m[id].tmuxId == id && m[id] in panes
    decreases |panes|
  {
    if |panes| == 0 then map[]
    else
      var last := panes[|panes| - 1];
      var m := RecordMap(panes[..|panes| - 1]);
      assert forall p :: p in panes <==> p in panes[..|panes| - 1] || p == last;
      m[last.tmuxId := last]
  }

  /** The record a later entry does not supersede. */
  lemma RecordMapLastWins(panes: seq<PaneState>, i: nat)
    requires i < |panes|
    requires forall j :: i < j < |panes| ==> panes[j].tmuxId != panes[i].tmuxId
    ensures RecordMap(panes)[panes[i].tmuxId] == panes[i]
    decreases |panes|
  {
    if i < |panes| - 1 {
      var init := panes[..|panes| - 1];
      RecordMapLastWins(init, i);
    }
  }

  /** The persisted records of one session, none when it is not stored. */
  function StoredPanes(st: Store, name: string): (r: seq<PaneState>)
    ensures name in st.sessions ==> r == st.sessions[name].panes
    ensures name !in st.sessions ==> r == []
  {
    if name in st.sessions then st.sessions[name].panes else []
  }

  /** One live pane as the snapshot shows it: a persisted record supplies
      title and type; otherwise the type is inferred. The detector judges
      the pane by its process id and the type settled on. */
  function ShowPane(p: Pane, records: map<string, PaneState>, detect: (int, PaneType) -> PaneStatus): (r: Pane)
    ensures r.id == p.id && r.pid == p.pid && r.index == p.index && r.currentCommand == p.currentCommand
    ensures r.currentPath == p.currentPath && r.agentStatus == p.agentStatus && r.lastActive == p.lastActive
    ensures p.id in records ==> r.title == records[p.id].title && r.paneType == records[p.id].paneType
    ensures p.id !in records ==> r.title == p.title && r.paneType == InferPaneType(p.currentCommand, p.title)
    ensures r.status == detect(p.pid, r.paneType)
  {
    var q :=
      if p.id in records then p.(title := records[p.id].title, paneType := records[p.id].paneType)
      else p.(paneType := InferType(p.currentCommand, p.title));
    q.(status := detect(q.pid, q.paneType))
  }

  function ShowPanes(panes: seq<Pane>, records: map<string, PaneState>, detect: (int, PaneType) -> PaneStatus)
    : (r: seq<Pane>)
    ensures |r| == |panes|
    ensures forall i :: 0 <= i < |panes| ==> r[i] == ShowPane(panes[i], records, detect)
  {
    seq(|panes|, i requires 0 <= i < |panes| => ShowPane(panes[i], records, detect))
  }

  /** The loop of `Snapshot` over the live sessions, with the persisted
      store already loaded (a failed load stands for an empty store). */
  function ShowSessions(sessions: seq<Session>, loaded: Result<Store>, detect: (int, PaneType) -> PaneStatus)
    : (r: seq<Session>)
    ensures |r| == |sessions|
    ensures forall i :: 0 <= i < |sessions| ==>
      r[i] == sessions[i].(panes := ShowPanes(sessions[i].panes,
        RecordMap(StoredPanes(LoadOrNew(loaded), sessions[i].name)), detect))
  {
    var st := LoadOrNew(loaded);
    seq(|sessions|, i requires 0 <= i < |sessions| =>
      sessions[i].(panes := ShowPanes(sessions[i].panes, RecordMap(StoredPanes(st, sessions[i].name)), detect)))
  }

  /** The snapshot keeps every live session and pane, in order, and only
      retitles, retypes and judges panes. */
  lemma ShowSessionsShape(sessions: seq<Session>, loaded: Result<Store>, detect: (int, PaneType) -> PaneStatus,
                          i: nat, j: nat)
    requires i < |sessions| && j < |sessions[i].panes|
    ensures var r := ShowSessions(sessions, loaded, detect);
      && r[i].name == sessions[i].name && r[i].path == sessions[i].path
      && r[i].createdAt == sessions[i].createdAt && r[i].attached == sessions[i].attached
      && |r[i].panes| == |sessions[i].panes|
      && r[i].panes[j].id == sessions[i].panes[j].id
      && r[i].panes[j].status == detect(sessions[i].panes[j].pid, r[i].panes[j].paneType)
  {
  }

  /** A pane whose id has a persisted record in its session (the last one
      for that id when there are several) shows that record's title and
      type. */
  lemma ShowRecorded(p: Pane, stored: seq<PaneState>, k: nat, detect: (int, PaneType) -> PaneStatus)
    requires k < |stored| && stored[k].tmuxId == p.id
    requires forall l :: k < l < |stored| ==> stored[l].tmuxId != p.id
    ensures var shown := ShowPane(p, RecordMap(stored), detect);
      shown.title == stored[k].title && shown.paneType == stored[k].paneType
  {
    RecordMapLastWins(stored, k);
  }

  /** A pane with no persisted record keeps its live title and gets the
      inferred type. */
  lemma ShowUnrecorded(p: Pane, stored: seq<PaneState>, detect: (int, PaneType) -> PaneStatus)
    requires forall k :: 0 <= k < |stored| ==> stored[k].tmuxId != p.id
    ensures var shown := ShowPane(p, RecordMap(stored), detect);
      shown.title == p.title && shown.paneType == InferPaneType(p.currentCommand, p.title)
  {
    assert p.id !in RecordMap(stored);
  }

  // ---------------------------------------------------------------------
  // init_snapshot.go

  /** `inferTypeFromTitle`: a codex or claude title prefix (trimmed,
      case-folded) names that type, anything else is a shell. */
  function InferTypeFromTitle(title: string): (r: string)
    ensures HasPrefix(Lower(TrimSpace(title)), "codex") ==> r == PaneCodex
    ensures !HasPrefix(Lower(TrimSpace(title)), "codex") && HasPrefix(Lower(TrimSpace(title)), "claude") ==>
      r == PaneClaude
    ensures !HasPrefix(Lower(TrimSpace(title)), "codex") && !HasPrefix(Lower(TrimSpace(title)), "claude") ==>
      r == PaneShell
    ensures Configuration.ValidPaneType(r) && r != PaneUnknown
  {
    var t := Lower(TrimSpace(title));
    if HasPrefix(t, "codex") then "codex"
    else if HasPrefix(t, "claude") then "claude"
    else "shell"
  }

  /** Read off a title alone, `inferTypeFromTitle` agrees with the domain
      rule wherever that rule finds a codex or claude pane, and makes a
      shell of everything else. */
  lemma InferTypeFromTitleVsDomain(title: string)
    ensures var d := InferPaneType("", title);
      InferTypeFromTitle(title) == (if d == PaneCodex || d == PaneClaude then d else PaneShell)
  {
    assert !Contains(Lower(""), "codex") && !Contains(Lower(""), "claude");
  }

  /** `SnapshotCurrentLayout` once the panes are listed: one spec per pane,
      in order, the title copied as it is; no panes is an error. */
  function SnapshotLayout(session: string, panes: seq<Pane>): (r: Result<seq<Configuration.PaneSpec>>)
    ensures r.Err? <==> |panes| == 0
    ensures r.Ok? ==> |r.value| == |panes|
    ensures r.Ok? ==> forall i :: 0 <= i < |panes| ==>
      r.value[i] == Configuration.PaneSpec(InferTypeFromTitle(panes[i].title), panes[i].title)
  {
    if |panes| == 0 then Err("no panes found in session " + session)
    else Ok(seq(|panes|, i requires 0 <= i < |panes| =>
      Configuration.PaneSpec(InferTypeFromTitle(panes[i].title), panes[i].title)))
  }

  /** A captured layout always passes the repository-layout check. */
  lemma SnapshotLayoutValid(session: string, panes: seq<Pane>)
    requires SnapshotLayout(session, panes).Ok?
    ensures Configuration.ValidateRepo(Some(Configuration.RepoConfig(session, SnapshotLayout(session, panes).value)))
      == None
  {
    var specs := SnapshotLayout(session, panes).value;
    assert forall i :: 0 <= i < |specs| ==> Configuration.ValidPaneType(specs[i].paneType);
  }

  // ---------------------------------------------------------------------
  // search.go

  /** A hit: a session (with empty pane id, title and type) or a pane. */
  datatype SearchResult = SearchResult(session: string, paneId: string, title: string, paneType: PaneType)

  function SessionHit(name: string): SearchResult {
    SearchResult(name, "", "", "")
  }

  function PaneHit(name: string, p: Pane): SearchResult {
    SearchResult(name, p.id, p.title, p.paneType)
  }

  /** The pane hits of one session, in pane order. */
  function PaneHits(name: string, panes: seq<Pane>, q: string): (r: seq<SearchResult>)
    ensures forall x :: x in r <==> exists p :: p in panes && Contains(Lower(p.title), q) && x == PaneHit(name, p)
    decreases |panes|
  {
    if |panes| == 0 then []
    else
      var rest := PaneHits(name, panes[1..], q);
      assert forall p :: p in panes <==> p == panes[0] || p in panes[1..];
      (if Contains(Lower(panes[0].title), q) then [PaneHit(name, panes[0])] else []) + rest
  }

  /** One session's hits: its own, then its panes'. */
  function SessionHits(s: Session, q: string): seq<SearchResult> {
    (if Contains(Lower(s.name), q) then [SessionHit(s.name)] else []) + PaneHits(s.name, s.panes, q)
  }

  /** All hits, session by session in snapshot order. */
  function Hits(sessions: seq<Session>, q: string): (r: seq<SearchResult>)
    decreases |sessions|
  {
    if |sessions| == 0 then [] else SessionHits(sessions[0], q) + Hits(sessions[1..], q)
  }

  /** The search query as `Search` compares it. */
  function NormalizeQuery(query: string): string {
    TrimSpace(Lower(query))
  }

  /** `Search` with the snapshot passed in: an empty (trimmed) query finds
      nothing without taking a snapshot; a failed snapshot is the error. */
  function Search(query: string, snapshot: Result<Snapshot>): (r: Result<seq<SearchResult>>)
    ensures NormalizeQuery(query) == "" ==> r == Ok([])
    ensures NormalizeQuery(query) != "" && snapshot.Err? ==> r == Err(snapshot.error)
    ensures NormalizeQuery(query) != "" && snapshot.Ok? ==>
      r == Ok(Hits(snapshot.value.sessions, NormalizeQuery(query)))
  {
    var q := NormalizeQuery(query);
    if q == "" then Ok([])
    else if snapshot.Err? then Err(snapshot.error)
    else Ok(Hits(snapshot.value.sessions, q))
  }

  /** Results follow snapshot order: searching two runs of sessions gives
      the first run's results, then the second's. */
  lemma {:induction false} HitsAppend(a: seq<Session>, b: seq<Session>, q: string)
    ensures Hits(a + b, q) == Hits(a, q) + Hits(b, q)
    decreases |a|
  {
    if |a| == 0 {
      assert a + b == b;
    } else {
      assert (a + b)[0] == a[0] && (a + b)[1..] == a[1..] + b;
      HitsAppend(a[1..], b, q);
    }
  }

  /** A result is found iff it is a session whose name contains the query
      or a pane whose title does. */
  lemma {:induction false} HitsIff(sessions: seq<Session>, q: string, x: SearchResult)
    ensures x in Hits(sessions, q) <==>
      (exists s :: s in sessions && Contains(Lower(s.name), q) && x == SessionHit(s.name))
      || (exists s, p :: s in sessions && p in s.panes && Contains(Lower(p.title), q) && x == PaneHit(s.name, p))
    decreases |sessions|
  {
    if |sessions| > 0 {
      HitsIff(sessions[1..], q, x);
      assert forall s :: s in sessions <==> s == sessions[0] || s in sessions[1..];
    }
  }

  /** A session whose name matches heads its own block of results. */
  lemma SessionHitFirst(s: Session, rest: seq<Session>, q: string)
    requires Contains(Lower(s.name), q)
    ensures Hits([s] + rest, q)[0] == SessionHit(s.name)
  {
    assert ([s] + rest)[0] == s;
  }
}
