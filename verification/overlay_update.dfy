/** internal/tui/overlay/update.go: the overlay's cursor and the selection
    it remembers across refreshes. */
module OverlayUpdate {
  import opened Wrappers
  import opened Domain
  import opened OverlayView

  /** The parts of the overlay model the cursor logic reads and writes. */
  datatype Overlay = Overlay(
    items: seq<Item>,
    index: int,
    selectedKind: ItemKind,
    selectedSession: string,
    selectedPaneId: string,
    errorMsg: string)

  /** The cursor is on a line, or at 0 when there is none. */
  predicate Placed(m: Overlay) {
    0 <= m.index && (|m.items| > 0 ==> m.index < |m.items|)
  }

  /** The remembered selection describes the line under the cursor, and
      is cleared when the cursor is on no line. */
  predicate Synced(m: Overlay) {
    if 0 <= m.index < |m.items| then
      && m.selectedKind == m.items[m.index].kind
      && m.selectedSession == m.items[m.index].session
      && m.selectedPaneId == (if m.items[m.index].kind == PaneKind && m.items[m.index].pane.Some?
                              then m.items[m.index].pane.value.id else "")
    else
      m.selectedKind == SessionKind && m.selectedSession == "" && m.selectedPaneId == ""
  }

  /** `syncSelection`: only the remembered selection changes. */
  function SyncSelection(m: Overlay): (r: Overlay)
    ensures Synced(r)
    ensures r.items == m.items && r.index == m.index && r.errorMsg == m.errorMsg
  {
    if |m.items| == 0 || m.index < 0 || m.index >= |m.items| then
      m.(selectedKind := SessionKind, selectedSession := "", selectedPaneId := "")
    else
      var it := m.items[m.index];
      m.(selectedKind := it.kind, selectedSession := it.session,
         selectedPaneId := if it.kind == PaneKind && it.pane.Some? then it.pane.value.id else "")
  }

  /** Syncing an already synced model changes nothing. */
  lemma SyncedFixed(m: Overlay)
    requires Synced(m)
    ensures SyncSelection(m) == m
  {
  }

  /** "up" or "k": one line up unless at the top. */
  function KeyUp(m: Overlay): (r: Overlay)
    ensures Placed(m) ==> Placed(r)
    ensures m.index > 0 ==> r.index == m.index - 1
    ensures m.index <= 0 ==> r.index == m.index
    ensures Synced(r) && r.items == m.items
  {
    SyncSelection(if m.index > 0 then m.(index := m.index - 1) else m)
  }

  /** "down" or "j": one line down unless at the bottom. */
  function KeyDown(m: Overlay): (r: Overlay)
    ensures Placed(m) ==> Placed(r)
    ensures m.index < |m.items| - 1 ==> r.index == m.index + 1
    ensures m.index >= |m.items| - 1 ==> r.index == m.index
    ensures Synced(r) && r.items == m.items
  {
    SyncSelection(if m.index < |m.items| - 1 then m.(index := m.index + 1) else m)
  }

  /** Up after down on a line that is not the last returns to it. */
  lemma DownThenUp(m: Overlay)
    requires Placed(m) && m.index < |m.items| - 1
    ensures KeyUp(KeyDown(m)).index == m.index
  {
  }

  /** The session `attachSelected` switches to, if any: none without
      lines or when the line has no session. */
  function AttachTarget(m: Overlay): (r: Option<string>)
    ensures r.Some? ==> 0 <= m.index < |m.items| && r.value == m.items[m.index].session && r.value != ""
    ensures Placed(m) && |m.items| > 0 && m.items[m.index].session != "" ==> r.Some?
  {
    if |m.items| == 0 || m.index < 0 || m.index >= |m.items| then None
    else if m.items[m.index].session == "" then None
    else Some(m.items[m.index].session)
  }

  /** `attachSelected`: the session switched to is `AttachTarget`; a
      failed switch is recorded as the overlay's error. */
  function AttachSelected(m: Overlay, attachErr: Option<string>): (r: (Overlay, Option<string>))
    ensures r.1 == AttachTarget(m)
    ensures r.1.Some? && attachErr.Some? ==> r.0 == m.(errorMsg := attachErr.value)
    ensures r.1.None? || attachErr.None? ==> r.0 == m
  {
    var target := AttachTarget(m);
    if target.Some? && attachErr.Some? then (m.(errorMsg := attachErr.value), target)
    else (m, target)
  }

  /** `handleMouse`: only the release of the left button on a line moves
      the cursor there, and then that line's session is attached. */
  function Mouse(m: Overlay, release: bool, leftButton: bool, y: int, attachErr: Option<string>): (r: (Overlay, Option<string>))
    ensures !(release && leftButton && 0 <= y < |m.items|) ==> r == (m, None)
    ensures release && leftButton && 0 <= y < |m.items| ==>
      (r.0.index == y && Synced(r.0) && r.0.items == m.items && Placed(r.0))
    ensures release && leftButton && 0 <= y < |m.items| ==>
      (r.1.Some? <==> m.items[y].session != "") && (r.1.Some? ==> r.1.value == m.items[y].session)
  {
    if !release || !leftButton || y < 0 || y >= |m.items| then (m, None)
    else AttachSelected(SyncSelection(m.(index := y)), attachErr)
  }

  /** The pane line is the one for the pane id. */
  predicate PaneLineFor(it: Item, id: string) {
    it.kind == PaneKind && it.pane.Some? && it.pane.value.id == id
  }

  /** The line is the session line for the session. */
  predicate SessionLineFor(it: Item, name: string) {
    it.kind == SessionKind && it.session == name
  }

  /** The first pane line for the pane id. */
  function FindPane(items: seq<Item>, id: string): (r: Option<nat>)
    ensures r.Some? ==> r.value < |items| && PaneLineFor(items[r.value], id)
    ensures r.None? ==> forall k :: 0 <= k < |items| ==> !PaneLineFor(items[k], id)
    ensures r.Some? ==> forall k :: 0 <= k < r.value ==> !PaneLineFor(items[k], id)
    decreases |items|
  {
    if |items| == 0 then None
    else if PaneLineFor(items[0], id) then Some(0)
    else
      var r := FindPane(items[1..], id);
      assert forall k :: 0 < k < |items| ==> items[k] == items[1..][k - 1];
      if r.Some? then Some(r.value + 1) else None
  }

  /** The first session line for the session. */
  function FindSession(items: seq<Item>, name: string): (r: Option<nat>)
    ensures r.Some? ==> r.value < |items| && SessionLineFor(items[r.value], name)
    ensures r.None? ==> forall k :: 0 <= k < |items| ==> !SessionLineFor(items[k], name)
    ensures r.Some? ==> forall k :: 0 <= k < r.value ==> !SessionLineFor(items[k], name)
    decreases |items|
  {
    if |items| == 0 then None
    else if SessionLineFor(items[0], name) then Some(0)
    else
      var r := FindSession(items[1..], name);
      assert forall k :: 0 < k < |items| ==> items[k] == items[1..][k - 1];
      if r.Some? then Some(r.value + 1) else None
  }

  /** Where `restoreSelection` puts the cursor: at 0 without lines; on the
      remembered pane if it is still listed; else on the remembered
      session's line if that is still listed; else where it was, pulled
      back onto the last line. */
  function RestoreIndex(m: Overlay): (i: int)
    ensures |m.items| == 0 ==> i == 0
    ensures 0 <= m.index ==> Placed(m.(index := i))
    ensures RemembersPane(m) && PaneListed(m) ==>
      0 <= i < |m.items| && PaneLineFor(m.items[i], m.selectedPaneId)
      && forall k :: 0 <= k < i ==> !PaneLineFor(m.items[k], m.selectedPaneId)
    ensures !(RemembersPane(m) && PaneListed(m)) && m.selectedSession != "" && SessionListed(m) ==>
      0 <= i < |m.items| && SessionLineFor(m.items[i], m.selectedSession)
      && forall k :: 0 <= k < i ==> !SessionLineFor(m.items[k], m.selectedSession)
    ensures |m.items| > 0 && !(RemembersPane(m) && PaneListed(m)) && !(m.selectedSession != "" && SessionListed(m)) ==>
      i == (if m.index >= |m.items| then |m.items| - 1 else m.index)
  {
    if |m.items| == 0 then 0
    else
      var byPane := if RemembersPane(m) then FindPane(m.items, m.selectedPaneId) else None;
      var bySession := if m.selectedSession != "" then FindSession(m.items, m.selectedSession) else None;
      if byPane.Some? then byPane.value
      else if bySession.Some? then bySession.value
      else if m.index >= |m.items| then |m.items| - 1
      else m.index
  }

  /** The remembered selection names a pane. */
  predicate RemembersPane(m: Overlay) {
    m.selectedKind == PaneKind && m.selectedPaneId != ""
  }

  /** The remembered pane still has a line. */
  predicate PaneListed(m: Overlay) {
    exists k :: 0 <= k < |m.items| && PaneLineFor(m.items[k], m.selectedPaneId)
  }

  /** The remembered session still has a line. */
  predicate SessionListed(m: Overlay) {
    exists k :: 0 <= k < |m.items| && SessionLineFor(m.items[k], m.selectedSession)
  }

  /** `restoreSelection`: the cursor moves as `RestoreIndex` says and the
      selection is read off the line there. A remembered pane that is
      still listed stays selected; failing that, a remembered session
      whose line is still listed becomes the selection. */
  function RestoreSelection(m: Overlay): (r: Overlay)
    ensures r.items == m.items && r.errorMsg == m.errorMsg && Synced(r)
    ensures 0 <= m.index ==> Placed(r)
    ensures RemembersPane(m) && PaneListed(m) ==>
      r.selectedKind == PaneKind && r.selectedPaneId == m.selectedPaneId
    ensures m.selectedSession != "" && !(RemembersPane(m) && PaneListed(m)) && SessionListed(m) ==>
      r.selectedKind == SessionKind && r.selectedSession == m.selectedSession && r.selectedPaneId == ""
    ensures |m.items| > 0 && !(RemembersPane(m) && PaneListed(m)) && !(m.selectedSession != "" && SessionListed(m)) ==>
      r.index == (if m.index >= |m.items| then |m.items| - 1 else m.index)
  {
    SyncSelection(m.(index := RestoreIndex(m)))
  }

  /** The line list is free of repeats: no two pane lines for one pane
      id, no two session lines for one session, and no pane line without
      a pane or with an empty id. */
  predicate UniqueItems(items: seq<Item>) {
    && (forall k :: 0 <= k < |items| && items[k].kind == PaneKind ==>
          items[k].pane.Some? && items[k].pane.value.id != "")
    && (forall j, k :: 0 <= j < k < |items| && items[j].kind == PaneKind && items[k].kind == PaneKind ==>
          items[j].pane.value.id != items[k].pane.value.id)
    && (forall j, k :: 0 <= j < k < |items| && items[j].kind == SessionKind && items[k].kind == SessionKind ==>
          items[j].session != items[k].session)
  }

  /** A refresh that brings the same lines leaves the cursor and the
      selection where they were. */
  lemma RestoreKeepsPlace(m: Overlay)
    requires Placed(m) && Synced(m) && UniqueItems(m.items) && |m.items| > 0
    ensures RestoreSelection(m) == m
  {
    var it := m.items[m.index];
    if it.kind == PaneKind {
      assert PaneLineFor(it, m.selectedPaneId);
      var f := FindPane(m.items, m.selectedPaneId);
      assert f.Some?;
      assert f.value == m.index;
    } else if m.selectedSession != "" {
      var f := FindSession(m.items, m.selectedSession);
      assert f.Some?;
      assert f.value == m.index;
    }
  }

  /** Restoring twice is restoring once. */
  lemma RestoreIdempotent(m: Overlay)
    requires 0 <= m.index && UniqueItems(m.items)
    ensures RestoreSelection(RestoreSelection(m)) == RestoreSelection(m)
  {
    var r := RestoreSelection(m);
    if |m.items| > 0 {
      RestoreKeepsPlace(r);
    }
  }

  /** A new snapshot: its lines replace the old ones and the error is
      cleared; with no session remembered the cursor goes to the first
      line, otherwise the selection is restored. */
  function OnSnapshot(m: Overlay, sessions: seq<Session>): (r: Overlay)
    ensures r.items == BuildItems(sessions) && r.errorMsg == "" && Synced(r)
    ensures 0 <= m.index ==> Placed(r)
    ensures m.selectedSession == "" && |r.items| > 0 ==> r.index == 0
    ensures m.selectedSession != "" || |r.items| == 0 ==>
      r == RestoreSelection(m.(items := BuildItems(sessions), errorMsg := ""))
  {
    var m' := m.(items := BuildItems(sessions), errorMsg := "");
    if m'.selectedSession == "" && |m'.items| > 0 then SyncSelection(m'.(index := 0))
    else RestoreSelection(m')
  }

  /** A refresh keeps a selected pane selected as long as the new
      snapshot still lists it. */
  lemma OnSnapshotKeepsPane(m: Overlay, sessions: seq<Session>, s: Session, p: Pane)
    requires RemembersPane(m) && m.selectedSession != ""
    requires s in sessions && p in s.panes && !Hidden(p) && p.id == m.selectedPaneId
    ensures OnSnapshot(m, sessions).selectedKind == PaneKind
    ensures OnSnapshot(m, sessions).selectedPaneId == m.selectedPaneId
  {
    var items := BuildItems(sessions);
    var it := Item(PaneKind, s.name, Some(p), PaneIndicator(p.agentStatus));
    PaneItemComplete(sessions, s, p);
    var k :| 0 <= k < |items| && items[k] == it;
    assert PaneLineFor(items[k], m.selectedPaneId);
    assert PaneListed(m.(items := items, errorMsg := ""));
  }

  /** A refresh keeps a selected session selected as long as the new
      snapshot still has it and no pane was selected. */
  lemma OnSnapshotKeepsSession(m: Overlay, sessions: seq<Session>, s: Session)
    requires !RemembersPane(m) && m.selectedSession != ""
    requires s in sessions && s.name == m.selectedSession
    ensures OnSnapshot(m, sessions).selectedKind == SessionKind
    ensures OnSnapshot(m, sessions).selectedSession == m.selectedSession
  {
    var items := BuildItems(sessions);
    BuildItemsSessions(sessions, s);
    var k :| 0 <= k < |items| && items[k] == Item(SessionKind, s.name, None, SessionIndicator(VisiblePanes(s.panes)));
    assert SessionLineFor(items[k], m.selectedSession);
    assert SessionListed(m.(items := items, errorMsg := ""));
  }

  /** A failed refresh only records the error. */
  function OnError(m: Overlay, err: string): (r: Overlay)
    ensures r.errorMsg == err && r.(errorMsg := m.errorMsg) == m
  {
    m.(errorMsg := err)
  }
}
