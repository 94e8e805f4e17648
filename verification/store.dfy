/** The persisted bookkeeping of internal/state/types.go: which panes the
    program created, with their types and titles, per session. */
module StateStore {
  import opened Wrappers
  import opened Domain

  datatype PaneState = PaneState(
    tmuxId: string,
    paneType: string,
    title: string,
    createdAt: Time,
    renamedAt: Option<Time>)

  datatype SessionState = SessionState(
    path: string,
    createdAt: Time,
    panes: seq<PaneState>)

  datatype Store = Store(
    version: int,
    serverId: string,
    sessions: map<string, SessionState>)

  /** `state.NewStore`: version 1, no server id, no sessions. */
  function NewStore(): (s: Store)
    ensures s.version == 1 && s.serverId == "" && |s.sessions| == 0
  {
    Store(1, "", map[])
  }

  /** `loadStateOrNew`: any failure to load the file (missing or not)
      starts from an empty store. */
  function LoadOrNew(loaded: Result<Store>): (st: Store)
    ensures loaded.Ok? ==> st == loaded.value
    ensures loaded.Err? ==> st == NewStore()
  {
    if loaded.Ok? then loaded.value else NewStore()
  }

  /** The tmux ids of a persisted pane list, in order. */
  function StateIds(panes: seq<PaneState>): (r: seq<string>)
    ensures |r| == |panes|
    ensures forall i :: 0 <= i < |panes| ==> r[i] == panes[i].tmuxId
  {
    seq(|panes|, i requires 0 <= i < |panes| => panes[i].tmuxId)
  }

  /** The pane ids of a live pane list, in order. */
  function LiveIds(panes: seq<Pane>): (r: seq<string>)
    ensures |r| == |panes|
    ensures forall i :: 0 <= i < |panes| ==> r[i] == panes[i].id
  {
    seq(|panes|, i requires 0 <= i < |panes| => panes[i].id)
  }

  lemma StateIdsMember(panes: seq<PaneState>, p: PaneState)
    requires p in panes
    ensures p.tmuxId in StateIds(panes)
  {
    var i :| 0 <= i < |panes| && panes[i] == p;
    assert StateIds(panes)[i] == p.tmuxId;
  }

  lemma LiveIdsMember(panes: seq<Pane>, p: Pane)
    requires p in panes
    ensures p.id in LiveIds(panes)
  {
    var i :| 0 <= i < |panes| && panes[i] == p;
    assert LiveIds(panes)[i] == p.id;
  }
}
