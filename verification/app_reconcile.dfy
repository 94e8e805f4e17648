/** `App.Reconcile` (internal/app/reconcile.go): the pre-pass that turns
    tmux's raw rows into live sessions, decides which store to start from,
    runs the merge and pushes the persisted titles back into tmux. The
    effects (the tmux environment, the store file, tmux itself, the random
    source) are parameters holding their outcomes. */
module AppReconcile {
  import opened Wrappers
  import opened Text
  import opened Domain
  import opened StateStore
  import opened TmuxParse
  import R = Reconcile

  // ---------------------------------------------------------------------
  // Converting tmux rows.

  /** `atoiDefault`: the value `strconv.Atoi` reads, or 0 when it fails. */
  function AtoiDefault(raw: string): (v: int)
    ensures MinInt64 <= v <= MaxInt64
    ensures ParseInt(raw).err != NoError ==> v == 0
    ensures ParseInt(raw).err == NoError ==> ParseInt(raw).value == v
  {
    var p := ParseInt(raw);
    if p.err == NoError then p.value else 0
  }

  /** A 64-bit integer printed by tmux is read back exactly. */
  lemma AtoiDefaultDecimal(n: int)
    requires MinInt64 <= n <= MaxInt64
    ensures AtoiDefault(Decimal(n)) == n
  {
    ParseIntDecimal(n);
  }

  /** `parseCreatedAt`: the Unix-seconds field as a time, or the zero time
      when it does not parse or is not positive. */
  function ParseCreatedAt(raw: string): (t: Time)
    ensures IsZero(t) || t >= Second
    ensures IsZero(t) <==> ParseInt(raw).err != NoError || ParseInt(raw).value <= 0
    ensures !IsZero(t) ==> t == ParseInt(raw).value * Second
  {
    var p := ParseInt(raw);
    if p.err != NoError || p.value <= 0 then ZeroTime else p.value * Second
  }

  /** A positive creation time printed by tmux is read back as that many
      seconds after the epoch; zero and negative ones become the zero
      time. */
  lemma ParseCreatedAtDecimal(n: int)
    requires MinInt64 <= n <= MaxInt64
    ensures n > 0 ==> ParseCreatedAt(Decimal(n)) == n * Second
    ensures n <= 0 ==> IsZero(ParseCreatedAt(Decimal(n)))
  {
    ParseIntDecimal(n);
  }

  /** One pane row: the text fields are copied, the numbers read with
      `atoiDefault`, and type and status are left for later passes. */
  function ConvertPane(p: RawPane): (r: Pane)
    ensures r.id == p.id && r.title == p.title
    ensures r.currentCommand == p.currentCommand && r.currentPath == p.currentPath
    ensures r.index == AtoiDefault(p.index) && r.pid == AtoiDefault(p.pid)
    ensures r.paneType == PaneUnknown && r.status == StatusUnknown
    ensures r.agentStatus == AgentUnset && IsZero(r.lastActive)
  {
    Pane(p.id, AtoiDefault(p.index), p.title, PaneUnknown, StatusUnknown, AgentUnset,
         AtoiDefault(p.pid), p.currentCommand, p.currentPath, ZeroTime)
  }

  /** `convertPanes`: one pane per row, in the same order. */
  function ConvertPanes(raw: seq<RawPane>): (r: seq<Pane>)
    ensures |r| == |raw|
    ensures forall i :: 0 <= i < |raw| ==> r[i] == ConvertPane(raw[i])
    ensures LiveIds(r) == seq(|raw|, i requires 0 <= i < |raw| => raw[i].id)
  {
    seq(|raw|, i requires 0 <= i < |raw| => ConvertPane(raw[i]))
  }

  /** One session row with the panes tmux listed for it. */
  function ConvertSession(s: RawSession, panes: seq<RawPane>): (r: Session)
    ensures r.name == s.name && r.path == s.path
    ensures r.createdAt == ParseCreatedAt(s.created)
    ensures r.attached <==> s.attached == "1"
    ensures r.panes == ConvertPanes(panes)
  {
    Session(s.name, s.path, ParseCreatedAt(s.created), s.attached == "1", ConvertPanes(panes))
  }

  /** `convertSessions`: `listed[i]` is what listing the panes of `raw[i]`
      returned. The first listing that failed aborts the conversion with
      its error. */
  function ConvertSessions(raw: seq<RawSession>, listed: seq<Result<seq<RawPane>>>): (r: Result<seq<Session>>)
    requires |listed| == |raw|
    ensures r.Ok? <==> forall i :: 0 <= i < |listed| ==> listed[i].Ok?
    ensures r.Err? ==> exists i :: (0 <= i < |listed| && listed[i].Err? && r.error == listed[i].error &&
      forall j :: 0 <= j < i ==> listed[j].Ok?)
    ensures r.Ok? ==> (|r.value| == |raw| &&
      forall i :: 0 <= i < |raw| ==> r.value[i] == ConvertSession(raw[i], listed[i].value))
    decreases |raw|
  {
    if |raw| == 0 then Ok([])
    else if listed[0].Err? then Err(listed[0].error)
    else
      var rest := ConvertSessions(raw[1..], listed[1..]);
      assert forall i :: 1 <= i < |listed| ==> listed[1..][i - 1] == listed[i];
      if rest.Err? then
        var k :| 0 <= k < |listed| - 1 && listed[1..][k].Err? && rest.error == listed[1..][k].error &&
          forall j :: 0 <= j < k ==> listed[1..][j].Ok?;
        assert listed[k + 1].Err?;
        Err(rest.error)
      else
        Ok([ConvertSession(raw[0], listed[0].value)] + rest.value)
  }

  // ---------------------------------------------------------------------
  // The server id and the starting store.

  const HexDigits: string := "0123456789abcdef"

  /** `hex.EncodeToString`: two lower-case hex digits per byte, high
      nibble first. */
  function HexEncode(bytes: seq<int>): (r: string)
    requires forall i :: 0 <= i < |bytes| ==> 0 <= bytes[i] < 256
    ensures |r| == 2 * |bytes|
    ensures forall i :: 0 <= i < |r| ==> r[i] in HexDigits
    decreases |bytes|
  {
    if |bytes| == 0 then ""
    else [HexDigits[bytes[0] / 16], HexDigits[bytes[0] % 16]] + HexEncode(bytes[1..])
  }

  /** `ensureServerID`. `lookup` is what reading the tmux environment
      variable returned (`None` when unset), `random` the 16 bytes
      `crypto/rand` produced, `stored` whether writing the new id back into
      the environment failed. An existing non-empty id is kept; otherwise
      a fresh one is made and stored. */
  function EnsureServerId(lookup: Result<Option<string>>, random: Result<seq<int>>, storeErr: Option<string>): (r: Result<string>)
    requires random.Ok? ==> |random.value| == 16 && forall i :: 0 <= i < 16 ==> 0 <= random.value[i] < 256
    ensures lookup.Err? ==> r == Err(lookup.error)
    ensures lookup.Ok? && lookup.value.Some? && lookup.value.value != "" ==> r == Ok(lookup.value.value)
    ensures r.Ok? ==> r.value != ""
    ensures r.Ok? && !(lookup.Ok? && lookup.value.Some? && lookup.value.value != "") ==>
      random.Ok? && storeErr.None? && r.value == HexEncode(random.value) && |r.value| == 32
  {
    if lookup.Err? then Err(lookup.error)
    else if lookup.value.Some? && lookup.value.value != "" then Ok(lookup.value.value)
    else if random.Err? then Err(random.error)
    else if storeErr.Some? then Err(storeErr.value)
    else Ok(HexEncode(random.value))
  }

  /** Once an id has been made and stored, every later run that reads it
      back keeps it, whatever the random source would produce. */
  lemma ServerIdIsStable(lookup: Result<Option<string>>, random: Result<seq<int>>, storeErr: Option<string>,
                         random2: Result<seq<int>>, storeErr2: Option<string>)
    requires random.Ok? ==> |random.value| == 16 && forall i :: 0 <= i < 16 ==> 0 <= random.value[i] < 256
    requires random2.Ok? ==> |random2.value| == 16 && forall i :: 0 <= i < 16 ==> 0 <= random2.value[i] < 256
    requires EnsureServerId(lookup, random, storeErr).Ok?
    ensures EnsureServerId(Ok(Some(EnsureServerId(lookup, random, storeErr).value)), random2, storeErr2) ==
      EnsureServerId(lookup, random, storeErr)
  {
  }

  /** The store the merge starts from (reconcile.go:22-33): a load failure
      of any kind gives a new store, a store written under another tmux
      server is discarded, and the live server id is recorded. */
  function PrepareStore(loaded: Result<Store>, serverId: string): (r: Store)
    ensures r.serverId == serverId
    ensures loaded.Err? ==> r.version == 1 && r.sessions == map[]
    ensures loaded.Ok? && loaded.value.serverId != "" && loaded.value.serverId != serverId ==>
      r.version == 1 && r.sessions == map[]
    ensures loaded.Ok? && (loaded.value.serverId == "" || loaded.value.serverId == serverId) ==>
      r.version == loaded.value.version && r.sessions == loaded.value.sessions
  {
    var current := if loaded.Err? then NewStore() else loaded.value;
    var current := if current.serverId != "" && current.serverId != serverId then NewStore() else current;
    current.(serverId := serverId)
  }

  /** Preparing a store that was itself prepared for the same server
      changes nothing: the check at reconcile.go:30 only fires after a
      server change. */
  lemma PrepareStoreIdempotent(loaded: Result<Store>, serverId: string)
    ensures PrepareStore(Ok(PrepareStore(loaded, serverId)), serverId) == PrepareStore(loaded, serverId)
  {
  }

  // ---------------------------------------------------------------------
  // Pushing titles back and the whole run.

  /** The pane ids whose title could not be set, in the order tried. */
  function FailedIds(updates: seq<R.TitleUpdate>, fails: R.TitleUpdate -> bool): (r: seq<string>)
    ensures |r| <= |updates|
    decreases |updates|
  {
    if |updates| == 0 then []
    else
      var n := |updates| - 1;
      FailedIds(updates[..n], fails) + (if fails(updates[n]) then [updates[n].paneId] else [])
  }

  lemma {:induction false} FailedIdsIff(updates: seq<R.TitleUpdate>, fails: R.TitleUpdate -> bool, id: string)
    ensures id in FailedIds(updates, fails) <==> exists i :: 0 <= i < |updates| && updates[i].paneId == id && fails(updates[i])
    decreases |updates|
  {
    if |updates| > 0 {
      var n := |updates| - 1;
      FailedIdsIff(updates[..n], fails, id);
      if id in FailedIds(updates[..n], fails) {
        var i :| 0 <= i < n && updates[..n][i].paneId == id && fails(updates[..n][i]);
        assert updates[i] == updates[..n][i];
      }
      if exists i :: 0 <= i < |updates| && updates[i].paneId == id && fails(updates[i]) {
        var i :| 0 <= i < |updates| && updates[i].paneId == id && fails(updates[i]);
        if i < n {
          assert updates[..n][i] == updates[i];
        }
      }
    }
  }

  /** The loop of reconcile.go:49-53. `fails` says which calls to set a
      pane title fail. Every update is tried, in order; a failure is only
      logged and does not stop the loop. */
  method ApplyTitleFixes(updates: seq<R.TitleUpdate>, fails: R.TitleUpdate -> bool)
    returns (tried: seq<R.TitleUpdate>, logged: seq<string>)
    ensures tried == updates
    ensures logged == FailedIds(updates, fails)
  {
    tried, logged := [], [];
    var i := 0;
    while i < |updates|
      invariant 0 <= i <= |updates|
      invariant tried == updates[..i]
      invariant logged == FailedIds(updates[..i], fails)
    {
      tried := tried + [updates[i]];
      if fails(updates[i]) {
        logged := logged + [updates[i].paneId];
      }
      assert updates[..i + 1][..i] == updates[..i];
      i := i + 1;
    }
    assert updates[..i] == updates;
  }

  /** What one run leaves behind: the error it returns, the store it saved,
      the title updates it tried and the pane ids whose update failed. */
  datatype RunReport = RunReport(
    err: Option<string>,
    saved: Option<Store>,
    tried: seq<R.TitleUpdate>,
    logged: seq<string>)

  /** The live sessions a run sees, when it gets that far. */
  function LiveSessions(listed: Result<seq<RawSession>>, panes: seq<Result<seq<RawPane>>>): Result<seq<Session>>
    requires listed.Ok? ==> |panes| == |listed.value|
  {
    if listed.Err? then Err(listed.error) else ConvertSessions(listed.value, panes)
  }

  /** `App.Reconcile`. `serverId` is the outcome of `ensureServerID`,
      `loaded` of reading the store, `listed` of listing the sessions and
      `panes[i]` of listing the panes of the i-th session; `titleFails`
      says which title updates fail and `saveErr` whether saving does. The
      two orders are those in which Go ranges over the stored and the live
      sessions. */
  method RunReconcile(serverId: Result<string>, loaded: Result<Store>,
                      listed: Result<seq<RawSession>>, panes: seq<Result<seq<RawPane>>>,
                      titleFails: R.TitleUpdate -> bool, saveErr: Option<string>,
                      persistedOrder: seq<string>, liveOrder: seq<string>, now: Time)
    returns (rep: RunReport)
    requires listed.Ok? ==> |panes| == |listed.value|
    requires serverId.Ok? ==> Enumerates(persistedOrder, PrepareStore(loaded, serverId.value).sessions.Keys)
    requires LiveSessions(listed, panes).Ok? ==> Enumerates(liveOrder, R.LiveByName(LiveSessions(listed, panes).value).Keys)
    ensures serverId.Err? ==> rep == RunReport(Some(serverId.error), None, [], [])
    ensures serverId.Ok? && LiveSessions(listed, panes).Err? ==>
      rep == RunReport(Some(LiveSessions(listed, panes).error), None, [], [])
    ensures serverId.Ok? && LiveSessions(listed, panes).Ok? ==>
      var out := R.Reconcile(PrepareStore(loaded, serverId.value), LiveSessions(listed, panes).value,
                             persistedOrder, liveOrder, now);
      && rep.tried == out.titleUpdates
      && rep.logged == FailedIds(out.titleUpdates, titleFails)
      && rep.saved == Some(out.updated)
      && rep.saved.value.serverId == serverId.value
      && rep.err == saveErr
  {
    if serverId.Err? {
      return RunReport(Some(serverId.error), None, [], []);
    }
    var current := PrepareStore(loaded, serverId.value);
    var live := LiveSessions(listed, panes);
    if live.Err? {
      return RunReport(Some(live.error), None, [], []);
    }
    var out := R.Reconcile(current, live.value, persistedOrder, liveOrder, now);
    var tried, logged := ApplyTitleFixes(out.titleUpdates, titleFails);
    rep := RunReport(saveErr, Some(out.updated), tried, logged);
  }

  /** After a server change the stored sessions are forgotten: every live
      session gets a fresh record, with all its panes, and nothing is
      reported as orphaned. */
  lemma ServerChangeRebuildsEverything(loaded: Store, serverId: string, live: seq<Session>,
                                       persistedOrder: seq<string>, liveOrder: seq<string>, now: Time, name: string)
    requires loaded.serverId != "" && loaded.serverId != serverId
    requires Enumerates(persistedOrder, PrepareStore(Ok(loaded), serverId).sessions.Keys)
    requires Enumerates(liveOrder, R.LiveByName(live).Keys)
    requires name in R.LiveByName(live)
    ensures R.Reconcile(PrepareStore(Ok(loaded), serverId), live, persistedOrder, liveOrder, now).updated.version == 1
    ensures name in R.Reconcile(PrepareStore(Ok(loaded), serverId), live, persistedOrder, liveOrder, now).updated.sessions
    ensures R.Reconcile(PrepareStore(Ok(loaded), serverId), live, persistedOrder, liveOrder, now).updated.sessions[name] ==
      R.CreateSessionState(R.LiveByName(live)[name], now).state
    ensures forall x :: x !in R.Reconcile(PrepareStore(Ok(loaded), serverId), live, persistedOrder, liveOrder, now).orphaned
  {
    var store := PrepareStore(Ok(loaded), serverId);
    R.ReconciledSessions(store, live, persistedOrder, liveOrder, now, name);
    var orphaned := R.Reconcile(store, live, persistedOrder, liveOrder, now).orphaned;
    forall x ensures x !in orphaned {
      if x in orphaned {
        R.OrphansComeFromLiveSessions(store, live, persistedOrder, liveOrder, now, x);
      }
    }
  }
}
