/** The edits the pane commands of internal/app make to the persisted
    store: closing a pane (close.go), renaming one (rename.go) and adding
    one (add.go). Each edit is a function from the loaded store to the
    store that is saved; the tmux calls before it are inputs. */
module StoreEdits {
  import opened Wrappers
  import opened Text
  import opened Domain
  import opened StateStore
  import opened Providers

  // ---------------------------------------------------------------------
  // close.go

  /** A session's panes without those carrying `id`, in their order. */
  function WithoutPane(panes: seq<PaneState>, id: string): (r: seq<PaneState>)
    ensures forall p :: p in r <==> p in panes && p.tmuxId != id
    ensures |r| <= |panes|
    decreases |panes|
  {
    if |panes| == 0 then []
    else
      var rest := WithoutPane(panes[1..], id);
      assert forall p :: p in panes <==> p == panes[0] || p in panes[1..];
      (if panes[0].tmuxId != id then [panes[0]] else []) + rest
  }

  /** Filtering keeps the relative order of what stays: it distributes
      over concatenation. */
  lemma {:induction false} WithoutPaneAppend(a: seq<PaneState>, b: seq<PaneState>, id: string)
    ensures WithoutPane(a + b, id) == WithoutPane(a, id) + WithoutPane(b, id)
    decreases |a|
  {
    if |a| == 0 {
      assert a + b == b;
    } else {
      assert (a + b)[0] == a[0] && (a + b)[1..] == a[1..] + b;
      WithoutPaneAppend(a[1..], b, id);
    }
  }

  /** A list without the id is left exactly as it is. */
  lemma {:induction false} WithoutPaneAbsent(panes: seq<PaneState>, id: string)
    requires forall k :: 0 <= k < |panes| ==> panes[k].tmuxId != id
    ensures WithoutPane(panes, id) == panes
    decreases |panes|
  {
    if |panes| > 0 {
      WithoutPaneAbsent(panes[1..], id);
      assert [panes[0]] + panes[1..] == panes;
    }
  }

  /** The store edit of `ClosePane`: every session loses the closed pane,
      keeps everything else, and the server id is attached. */
  function CloseInStore(st: Store, serverId: string, paneId: string): (r: Store)
    ensures r.version == st.version && r.serverId == serverId
    ensures r.sessions.Keys == st.sessions.Keys
    ensures forall n :: n in r.sessions ==>
      r.sessions[n].path == st.sessions[n].path && r.sessions[n].createdAt == st.sessions[n].createdAt
      && r.sessions[n].panes == WithoutPane(st.sessions[n].panes, paneId)
  {
    Store(st.version, serverId,
      map n | n in st.sessions :: st.sessions[n].(panes := WithoutPane(st.sessions[n].panes, paneId)))
  }

  /** `ClosePane`: a failed kill leaves the store alone (nothing is saved);
      otherwise the filtered store is saved unless the server id cannot be
      had. `Ok(st)` is the store written. */
  function ClosePane(killErr: Option<string>, loaded: Result<Store>, serverId: Result<string>, paneId: string)
    : (r: Result<Store>)
    ensures killErr.Some? ==> r == Err(killErr.value)
    ensures killErr.None? && serverId.Err? ==> r == Err(serverId.error)
    ensures r.Ok? ==> killErr.None? && serverId.Ok?
    ensures r.Ok? ==> r.value == CloseInStore(LoadOrNew(loaded), serverId.value, paneId)
  {
    if killErr.Some? then Err(killErr.value)
    else
      var st := CloseInStore(LoadOrNew(loaded), "", paneId);
      if serverId.Err? then Err(serverId.error)
      else Ok(st.(serverId := serverId.value))
  }

  /** After a close no session holds the closed pane, and every other
      pane is still in its session. */
  lemma ClosedPaneGone(killErr: Option<string>, loaded: Result<Store>, serverId: Result<string>, paneId: string,
                       n: string, p: PaneState)
    requires ClosePane(killErr, loaded, serverId, paneId).Ok?
    requires n in LoadOrNew(loaded).sessions
    ensures n in ClosePane(killErr, loaded, serverId, paneId).value.sessions
    ensures var panes := ClosePane(killErr, loaded, serverId, paneId).value.sessions[n].panes;
      (p in panes <==> p in LoadOrNew(loaded).sessions[n].panes && p.tmuxId != paneId)
  {
  }

  /** Closing is idempotent: closing the same pane again changes nothing. */
  lemma CloseTwice(st: Store, serverId: string, paneId: string)
    ensures CloseInStore(CloseInStore(st, serverId, paneId), serverId, paneId) == CloseInStore(st, serverId, paneId)
  {
    var once := CloseInStore(st, serverId, paneId);
    forall n | n in once.sessions
      ensures WithoutPane(once.sessions[n].panes, paneId) == once.sessions[n].panes
    {
      var ps := once.sessions[n].panes;
      assert forall k :: 0 <= k < |ps| ==> ps[k] in ps;
      WithoutPaneAbsent(ps, paneId);
    }
  }

  // ---------------------------------------------------------------------
  // Shared by rename and add: the session record, created when missing
  // with the path tmux reports ("" when it cannot) and the clock reading.

  function SessionOrNew(st: Store, session: string, path: string, created: Time): (ss: SessionState)
    ensures session in st.sessions ==> ss == st.sessions[session]
    ensures session !in st.sessions ==> ss == SessionState(path, created, [])
  {
    if session in st.sessions then st.sessions[session] else SessionState(path, created, [])
  }

  // ---------------------------------------------------------------------
  // rename.go

  /** `promptForTitle` given what was read: a read error other than end of
      input is returned; a blank answer keeps the current title, anything
      else is used trimmed. */
  function PromptForTitle(answer: Result<string>, current: string): (r: Result<string>)
    ensures answer.Err? ==> r == Err(answer.error)
    ensures answer.Ok? && IsBlank(answer.value) ==> r == Ok(current)
    ensures answer.Ok? && !IsBlank(answer.value) ==> r.Ok? && r.value != "" && r.value == TrimSpace(answer.value)
  {
    TrimSpaceEmptyIffBlank(if answer.Ok? then answer.value else "");
    if answer.Err? then Err(answer.error)
    else
      var title := TrimSpace(answer.value);
      if title == "" then Ok(current) else Ok(title)
  }

  /** The title `Rename` settles on (rename.go lines 44-56): the trimmed
      option, else, on a terminal, the prompt's answer; an empty outcome is
      an error, so a success is never empty. */
  function ResolveTitle(optTitle: string, tty: bool, answer: Result<string>, current: string): (r: Result<string>)
    ensures r.Ok? ==> r.value != ""
    ensures TrimSpace(optTitle) != "" ==> r == Ok(TrimSpace(optTitle))
    ensures IsBlank(optTitle) && !tty ==> r.Err?
    ensures IsBlank(optTitle) && tty && answer.Ok? && IsBlank(answer.value) ==>
      (current != "" <==> r.Ok?) && (r.Ok? ==> r.value == current)
    ensures IsBlank(optTitle) && tty && answer.Ok? && !IsBlank(answer.value) ==> r == Ok(TrimSpace(answer.value))
    ensures IsBlank(optTitle) && tty && answer.Err? ==> r == Err(answer.error)
  {
    TrimSpaceEmptyIffBlank(optTitle);
    var t := TrimSpace(optTitle);
    if t != "" then Ok(t)
    else if !tty then Err("rename requires a title when stdin is not a TTY")
    else
      var prompted := PromptForTitle(answer, current);
      if prompted.Err? then prompted
      else if prompted.value == "" then Err("title cannot be empty")
      else prompted
  }

  /** `lookupPaneTitle` over the listed panes: the first pane with the id. */
  function LookupPaneTitle(panes: seq<Pane>, paneId: string): (r: Result<string>)
    ensures r.Err? <==> forall k :: 0 <= k < |panes| ==> panes[k].id != paneId
    ensures r.Ok? ==> exists k :: (0 <= k < |panes| && panes[k].id == paneId && panes[k].title == r.value
      && forall j :: 0 <= j < k ==> panes[j].id != paneId)
    decreases |panes|
  {
    if |panes| == 0 then Err("pane " + paneId + " not found")
    else if panes[0].id == paneId then Ok(panes[0].title)
    else
      var r := LookupPaneTitle(panes[1..], paneId);
      assert forall k :: 0 < k < |panes| ==> panes[k] == panes[1..][k - 1];
      r
  }

  /** The index of the first pane with the id (the length when none). */
  function FirstWithId(panes: seq<PaneState>, id: string): (i: nat)
    ensures i <= |panes|
    ensures forall j :: 0 <= j < i ==> panes[j].tmuxId != id
    ensures i < |panes| ==> panes[i].tmuxId == id
    decreases |panes|
  {
    if |panes| == 0 || panes[0].tmuxId == id then 0
    else 1 + FirstWithId(panes[1..], id)
  }

  /** The pane list after a rename at clock reading `now`. */
  function RenamePanes(panes: seq<PaneState>, id: string, title: string, now: Time): (r: seq<PaneState>)
    ensures FirstWithId(panes, id) < |panes| ==> |r| == |panes|
    ensures FirstWithId(panes, id) < |panes| ==>
      forall k :: 0 <= k < |panes| && k != FirstWithId(panes, id) ==> r[k] == panes[k]
    ensures FirstWithId(panes, id) < |panes| ==>
      r[FirstWithId(panes, id)] == panes[FirstWithId(panes, id)].(title := title, renamedAt := Some(now))
    ensures FirstWithId(panes, id) == |panes| ==> r == panes + [PaneState(id, PaneUnknown, title, now, Some(now))]
  {
    var i := FirstWithId(panes, id);
    if i < |panes| then panes[i := panes[i].(title := title, renamedAt := Some(now))]
    else panes + [PaneState(id, PaneUnknown, title, now, Some(now))]
  }

  /** `updateStateForRename`: the session is created when missing; the
      first pane with the id gets the title and the rename time, type and
      creation time untouched; an unseen id is appended as an "unknown"
      pane created and renamed now. Only that session changes. */
  function UpdateStateForRename(loaded: Result<Store>, session: string, paneId: string, title: string,
                                path: string, created: Time, now: Time): (r: Store)
    ensures r.version == LoadOrNew(loaded).version && r.serverId == LoadOrNew(loaded).serverId
    ensures r.sessions.Keys == LoadOrNew(loaded).sessions.Keys + {session}
    ensures forall n :: n in r.sessions && n != session ==> r.sessions[n] == LoadOrNew(loaded).sessions[n]
    ensures var ss := SessionOrNew(LoadOrNew(loaded), session, path, created);
      r.sessions[session] == ss.(panes := RenamePanes(ss.panes, paneId, title, now))
  {
    var st := LoadOrNew(loaded);
    var ss := SessionOrNew(st, session, path, created);
    st.(sessions := st.sessions[session := ss.(panes := RenamePanes(ss.panes, paneId, title, now))])
  }

  /** After a rename, the first record of the pane in its session carries
      the new title and the time of the rename. */
  lemma RenameSticks(loaded: Result<Store>, session: string, paneId: string, title: string,
                     path: string, created: Time, now: Time)
    ensures var panes := UpdateStateForRename(loaded, session, paneId, title, path, created, now).sessions[session].panes;
      var i := FirstWithId(panes, paneId);
      i < |panes| && panes[i].title == title && panes[i].renamedAt == Some(now)
  {
    var before := SessionOrNew(LoadOrNew(loaded), session, path, created).panes;
    var panes := RenamePanes(before, paneId, title, now);
    var i := FirstWithId(before, paneId);
    if i < |before| {
      assert forall j :: 0 <= j < i ==> panes[j] == before[j];
      FirstWithIdAt(panes, paneId, i);
    } else {
      assert forall j :: 0 <= j < |before| ==> panes[j] == before[j];
      FirstWithIdAt(panes, paneId, |before|);
    }
  }

  /** The first pane with the id sits where the ids say it does. */
  lemma FirstWithIdAt(panes: seq<PaneState>, id: string, i: nat)
    requires i < |panes| && panes[i].tmuxId == id
    requires forall j :: 0 <= j < i ==> panes[j].tmuxId != id
    ensures FirstWithId(panes, id) == i
  {
  }

  /** Repeating a rename with the same title at the same time changes
      nothing more. */
  lemma RenameIdempotent(loaded: Result<Store>, session: string, paneId: string, title: string,
                         path: string, created: Time, now: Time, path': string, created': Time)
    ensures var once := UpdateStateForRename(loaded, session, paneId, title, path, created, now);
      UpdateStateForRename(Ok(once), session, paneId, title, path', created', now) == once
  {
    var once := UpdateStateForRename(loaded, session, paneId, title, path, created, now);
    var before := SessionOrNew(LoadOrNew(loaded), session, path, created).panes;
    var panes := once.sessions[session].panes;
    RenameSticks(loaded, session, paneId, title, path, created, now);
    var i := FirstWithId(panes, paneId);
    assert panes[i := panes[i].(title := title, renamedAt := Some(now))] == panes;
    assert once.sessions[session := once.sessions[session]] == once.sessions;
  }

  // ---------------------------------------------------------------------
  // add.go

  /** The number of persisted panes of type `t` (compared as strings). */
  function CountOfType(panes: seq<PaneState>, t: PaneType): (n: nat)
    ensures n <= |panes|
    decreases |panes|
  {
    if |panes| == 0 then 0
    else (if panes[0].paneType == t then 1 else 0) + CountOfType(panes[1..], t)
  }

  lemma {:induction false} CountOfTypeAppend(a: seq<PaneState>, b: seq<PaneState>, t: PaneType)
    ensures CountOfType(a + b, t) == CountOfType(a, t) + CountOfType(b, t)
    decreases |a|
  {
    if |a| == 0 {
      assert a + b == b;
    } else {
      assert (a + b)[0] == a[0] && (a + b)[1..] == a[1..] + b;
      CountOfTypeAppend(a[1..], b, t);
    }
  }

  /** No persisted pane of the type is counted exactly when none has it. */
  lemma {:induction false} CountOfTypeZeroIff(panes: seq<PaneState>, t: PaneType)
    ensures CountOfType(panes, t) == 0 <==> forall i :: 0 <= i < |panes| ==> panes[i].paneType != t
    decreases |panes|
  {
    if |panes| > 0 {
      CountOfTypeZeroIff(panes[1..], t);
      assert forall i :: 0 < i < |panes| ==> panes[i] == panes[1..][i - 1];
    }
  }

  /** The number of live panes whose title starts with the prefix, both
      case-folded. */
  function CountPrefixed(panes: seq<Pane>, prefix: string): (n: nat)
    ensures n <= |panes|
    decreases |panes|
  {
    if |panes| == 0 then 0
    else (if HasPrefix(Lower(panes[0].title), Lower(prefix)) then 1 else 0) + CountPrefixed(panes[1..], prefix)
  }

  /** No live pane is counted exactly when no title starts with the
      prefix, both case-folded. */
  lemma {:induction false} CountPrefixedZeroIff(panes: seq<Pane>, prefix: string)
    ensures CountPrefixed(panes, prefix) == 0 <==>
      forall i :: 0 <= i < |panes| ==> !HasPrefix(Lower(panes[i].title), Lower(prefix))
    decreases |panes|
  {
    if |panes| > 0 {
      CountPrefixedZeroIff(panes[1..], prefix);
      assert forall i :: 0 < i < |panes| ==> panes[i] == panes[1..][i - 1];
    }
  }

  /** The persisted panes of type `t` in the session, zero when the store
      did not load or has no such session. */
  function StoredCount(loaded: Result<Store>, session: string, t: PaneType): (n: nat)
    ensures loaded.Err? || session !in loaded.value.sessions ==> n == 0
    ensures loaded.Ok? && session in loaded.value.sessions ==> n <= |loaded.value.sessions[session].panes|
  {
    if loaded.Ok? && session in loaded.value.sessions then CountOfType(loaded.value.sessions[session].panes, t)
    else 0
  }

  /** The number in `nextAutoTitle`: one past the persisted panes of the
      type; when there are none, one past the live panes titled with the
      prefix; when tmux cannot list them either, one. */
  function AutoNumber(loaded: Result<Store>, session: string, t: PaneType, prefix: string, listed: Result<seq<Pane>>)
    : (n: nat)
    ensures n >= 1
    ensures StoredCount(loaded, session, t) > 0 ==> n == StoredCount(loaded, session, t) + 1
    ensures StoredCount(loaded, session, t) == 0 && listed.Ok? ==> n == CountPrefixed(listed.value, prefix) + 1
    ensures StoredCount(loaded, session, t) == 0 && listed.Err? ==> n == 1
  {
    var count := StoredCount(loaded, session, t);
    var count' := if count == 0 && listed.Ok? then CountPrefixed(listed.value, prefix) else count;
    count' + 1
  }

  /** `nextAutoTitle`: the provider's prefix followed by the number in
      decimal. */
  function NextAutoTitle(loaded: Result<Store>, session: string, t: PaneType, prefix: string,
                         listed: Result<seq<Pane>>): (r: string)
    ensures HasPrefix(r, prefix) && r[|prefix|..] == Decimal(AutoNumber(loaded, session, t, prefix, listed))
  {
    prefix + Decimal(AutoNumber(loaded, session, t, prefix, listed))
  }

  /** `updateStateForNewPane`: the session is created when missing, and
      exactly one record is appended at the end of its panes; every other
      record and session is untouched. */
  function UpdateStateForNewPane(loaded: Result<Store>, session: string, paneId: string, t: PaneType,
                                 title: string, path: string, created: Time, now: Time): (r: Store)
    ensures r.version == LoadOrNew(loaded).version && r.serverId == LoadOrNew(loaded).serverId
    ensures r.sessions.Keys == LoadOrNew(loaded).sessions.Keys + {session}
    ensures forall n :: n in r.sessions && n != session ==> r.sessions[n] == LoadOrNew(loaded).sessions[n]
    ensures session in LoadOrNew(loaded).sessions ==>
      r.sessions[session].path == LoadOrNew(loaded).sessions[session].path
      && r.sessions[session].createdAt == LoadOrNew(loaded).sessions[session].createdAt
    ensures session !in LoadOrNew(loaded).sessions ==>
      r.sessions[session].path == path && r.sessions[session].createdAt == created
    ensures r.sessions[session].panes ==
      SessionOrNew(LoadOrNew(loaded), session, path, created).panes + [PaneState(paneId, t, title, now, None)]
  {
    var st := LoadOrNew(loaded);
    var ss := SessionOrNew(st, session, path, created);
    st.(sessions := st.sessions[session := ss.(panes := ss.panes + [PaneState(paneId, t, title, now, None)])])
  }

  /** Once a pane of type `t` is recorded, the next automatic title of
      that type counts it: the number is the persisted count before the
      add plus two, whatever the live titles say. */
  lemma AddAdvancesAutoNumber(loaded: Result<Store>, session: string, paneId: string, t: PaneType, title: string,
                              path: string, created: Time, now: Time, prefix: string, listed: Result<seq<Pane>>)
    ensures var after := UpdateStateForNewPane(loaded, session, paneId, t, title, path, created, now);
      AutoNumber(Ok(after), session, t, prefix, listed) == StoredCount(loaded, session, t) + 2
  {
    var before := SessionOrNew(LoadOrNew(loaded), session, path, created).panes;
    var added := PaneState(paneId, t, title, now, None);
    CountOfTypeAppend(before, [added], t);
    assert CountOfType([added], t) == 1;
    if loaded.Ok? && session in loaded.value.sessions {
    } else {
      assert CountOfType(before, t) == 0;
    }
  }

  /** Closing a pane undoes adding it: when the id was not already
      recorded, the session's panes are back to what they were. */
  lemma CloseUndoesAdd(st: Store, session: string, paneId: string, t: PaneType, title: string,
                       path: string, created: Time, now: Time, serverId: string)
    requires session in st.sessions
    requires forall k :: 0 <= k < |st.sessions[session].panes| ==> st.sessions[session].panes[k].tmuxId != paneId
    ensures var added := UpdateStateForNewPane(Ok(st), session, paneId, t, title, path, created, now);
      CloseInStore(added, serverId, paneId).sessions[session] == st.sessions[session]
  {
    var before := st.sessions[session].panes;
    var added := PaneState(paneId, t, title, now, None);
    WithoutPaneAppend(before, [added], paneId);
    WithoutPaneAbsent(before, paneId);
    assert WithoutPane([added], paneId) == [];
  }

  /** What `Add` reports. */
  datatype AddResult = AddResult(title: string, fellBackToShell: bool, paneType: PaneType)

  /** `Add` once the provider and the title inputs are known: no provider
      even after falling back is an error; a trimmed explicit title is used
      as it is, otherwise the next automatic title for the type actually
      used; the result says whether that type differs from the request. */
  function Add(requested: PaneType, explicitTitle: string, reg: Registry, onPath: string -> bool,
               loaded: Result<Store>, session: string, listed: Result<seq<Pane>>): (r: Result<AddResult>)
    ensures r.Err? <==> GetWithFallback(reg, requested, onPath).0.None?
    ensures r.Ok? ==> r.value.paneType == GetWithFallback(reg, requested, onPath).1
    ensures r.Ok? ==> (r.value.fellBackToShell <==> r.value.paneType != requested)
    ensures r.Ok? && r.value.fellBackToShell ==> r.value.paneType == PaneShell
    ensures r.Ok? && TrimSpace(explicitTitle) != "" ==> r.value.title == TrimSpace(explicitTitle)
    ensures r.Ok? && TrimSpace(explicitTitle) == "" ==>
      r.value.title == NextAutoTitle(loaded, session, r.value.paneType,
        GetWithFallback(reg, requested, onPath).0.value.titlePrefix, listed)
  {
    var (prov, actual) := GetWithFallback(reg, requested, onPath);
    if prov.None? then Err("unknown pane type: " + requested)
    else
      var explicit := TrimSpace(explicitTitle);
      var title := if explicit != "" then explicit
        else NextAutoTitle(loaded, session, actual, prov.value.titlePrefix, listed);
      Ok(AddResult(title, actual != requested, actual))
  }
}
