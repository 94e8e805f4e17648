/** `state.Reconcile` (internal/state/reconcile.go): merges the persisted
    store with the live tmux sessions. Go ranges over two maps here; the
    order in which it visits their keys is a parameter of the model. */
module Reconcile {
  import opened Wrappers
  import opened Text
  import opened Domain
  import opened StateStore

  /** The persisted title of a pane, to be pushed back into tmux. */
  datatype TitleUpdate = TitleUpdate(paneId: string, title: string)

  datatype NewPaneInfo = NewPaneInfo(sessionName: string, paneId: string, inferredType: PaneType)

  /** What reconciling one session produces. */
  datatype Outcome = Outcome(
    state: SessionState,
    titleUpdates: seq<TitleUpdate>,
    orphaned: seq<string>,
    newPanes: seq<NewPaneInfo>)

  datatype Output = Output(
    updated: Store,
    titleUpdates: seq<TitleUpdate>,
    orphaned: seq<string>,
    newPanes: seq<NewPaneInfo>)

  /** The module's own copy of the inference rule; it agrees with
      `domain.InferPaneType` on every pane. */
  function InferType(p: Pane): (r: PaneType)
    ensures r == InferPaneTypeFromPane(p)
  {
    var cmd := Lower(p.currentCommand);
    if Contains(cmd, "codex") then PaneCodex
    else if Contains(cmd, "claude") then PaneClaude
    else
      var title := Lower(TrimSpace(p.title));
      if HasPrefix(title, "codex") then PaneCodex
      else if HasPrefix(title, "claude") then PaneClaude
      else if HasPrefix(title, "shell") then PaneShell
      else PaneUnknown
  }

  /** `createPaneState`, with the clock reading passed in. */
  function CreatePaneState(p: Pane, now: Time): (r: PaneState)
    ensures r.tmuxId == p.id && r.title == p.title
    ensures r.paneType == InferPaneTypeFromPane(p)
    ensures r.createdAt == now && r.renamedAt == None
  {
    PaneState(p.id, InferType(p), p.title, now, None)
  }

  function CreatePaneStates(panes: seq<Pane>, now: Time): (r: seq<PaneState>)
    ensures |r| == |panes|
    ensures forall i :: 0 <= i < |panes| ==> r[i] == CreatePaneState(panes[i], now)
    ensures StateIds(r) == LiveIds(panes)
  {
    seq(|panes|, i requires 0 <= i < |panes| => CreatePaneState(panes[i], now))
  }

  function NewPaneInfos(name: string, panes: seq<Pane>): (r: seq<NewPaneInfo>)
    ensures |r| == |panes|
    ensures forall i :: 0 <= i < |panes| ==>
      r[i] == NewPaneInfo(name, panes[i].id, InferPaneTypeFromPane(panes[i]))
  {
    seq(|panes|, i requires 0 <= i < |panes| => NewPaneInfo(name, panes[i].id, InferType(panes[i])))
  }

  /** `createSessionState`: a fresh record of the live session, every pane
      of which is reported as new. */
  function CreateSessionState(live: Session, now: Time): (r: Outcome)
    ensures r.state.path == live.path && r.state.createdAt == live.createdAt
    ensures StateIds(r.state.panes) == LiveIds(live.panes)
    ensures r.titleUpdates == [] && r.orphaned == []
    ensures |r.newPanes| == |live.panes|
    ensures forall i :: 0 <= i < |live.panes| ==>
      r.newPanes[i] == NewPaneInfo(live.name, live.panes[i].id, InferPaneTypeFromPane(live.panes[i]))
  {
    Outcome(
      SessionState(live.path, live.createdAt, CreatePaneStates(live.panes, now)),
      [], [], NewPaneInfos(live.name, live.panes))
  }

  /** Where a Go map keyed by pane id finds a live pane: the last one
      listed with that id. */
  function LastIndexOfId(panes: seq<Pane>, id: string): (i: nat)
    requires id in LiveIds(panes)
    ensures i < |panes| && panes[i].id == id
    ensures forall j :: i < j < |panes| ==> panes[j].id != id
    decreases |panes|
  {
    var n := |panes| - 1;
    if panes[n].id == id then n
    else
      assert LiveIds(panes) == LiveIds(panes[..n]) + [panes[n].id];
      LastIndexOfId(panes[..n], id)
  }

  /** The title tmux shows for a live pane id. */
  function LiveTitle(panes: seq<Pane>, id: string): string
    requires id in LiveIds(panes)
  {
    panes[LastIndexOfId(panes, id)].title
  }

  /** The session was torn down and created again since it was recorded:
      the record has a creation time and the live one is more than two
      seconds later. */
  predicate Recreated(persisted: SessionState, live: Session) {
    !IsZero(persisted.createdAt) && live.createdAt > persisted.createdAt + 2 * Second
  }

  datatype Sweep = Sweep(kept: seq<PaneState>, fixes: seq<TitleUpdate>, orphans: seq<string>)

  /** The loop over the persisted panes (reconcile.go:93-108): live ones are
      kept and get a title fix when tmux shows another title; the others are
      orphans. */
  function SweepPersisted(ps: seq<PaneState>, live: seq<Pane>): (r: Sweep)
    decreases |ps|
  {
    if |ps| == 0 then Sweep([], [], [])
    else
      var n := |ps| - 1;
      var r := SweepPersisted(ps[..n], live);
      var q := ps[n];
      if q.tmuxId !in LiveIds(live) then
        Sweep(r.kept, r.fixes, r.orphans + [q.tmuxId])
      else if LiveTitle(live, q.tmuxId) != q.title then
        Sweep(r.kept + [q], r.fixes + [TitleUpdate(q.tmuxId, q.title)], r.orphans)
      else
        Sweep(r.kept + [q], r.fixes, r.orphans)
  }

  /** The sweep sorts every record one way or the other: a recorded pane
      is kept iff it is live, and its id is an orphan iff it is not. */
  lemma {:induction false} SweepPartitions(ps: seq<PaneState>, live: seq<Pane>)
    ensures var r := SweepPersisted(ps, live);
      && |r.kept| + |r.orphans| == |ps|
      && (forall q :: q in r.kept <==> q in ps && q.tmuxId in LiveIds(live))
      && (forall id :: id in r.orphans <==> id in StateIds(ps) && id !in LiveIds(live))
    decreases |ps|
  {
    if |ps| > 0 {
      var n := |ps| - 1;
      var last := ps[n];
      SweepPartitions(ps[..n], live);
      assert ps == ps[..n] + [last];
      assert StateIds(ps) == StateIds(ps[..n]) + [last.tmuxId];
      if last.tmuxId !in LiveIds(live) {
        SweepOrphanStep(ps, live);
      } else if LiveTitle(live, last.tmuxId) != last.title {
        SweepFixStep(ps, live);
      } else {
        SweepKeepStep(ps, live);
      }
    }
  }

  /** The sweep emits a fix for every kept pane whose live title differs
      from the recorded one, and no other: each fix names a live pane that
      shows another title and carries a record's id and title. */
  lemma SweepFixes(ps: seq<PaneState>, live: seq<Pane>)
    ensures var r := SweepPersisted(ps, live);
      forall q :: (q in ps && q.tmuxId in LiveIds(live) && LiveTitle(live, q.tmuxId) != q.title)
        ==> TitleUpdate(q.tmuxId, q.title) in r.fixes
    ensures forall u :: u in SweepPersisted(ps, live).fixes ==>
      u.paneId in LiveIds(live) && LiveTitle(live, u.paneId) != u.title
      && FixFromRecord(ps, u)
  {
    SweepFixesComplete(ps, live);
    SweepFixesSound(ps, live);
  }

  lemma {:induction false} SweepFixesComplete(ps: seq<PaneState>, live: seq<Pane>)
    ensures var r := SweepPersisted(ps, live);
      forall q :: (q in ps && q.tmuxId in LiveIds(live) && LiveTitle(live, q.tmuxId) != q.title)
        ==> TitleUpdate(q.tmuxId, q.title) in r.fixes
    decreases |ps|
  {
    if |ps| > 0 {
      var n := |ps| - 1;
      var last := ps[n];
      var before := SweepPersisted(ps[..n], live).fixes;
      var after := SweepPersisted(ps, live).fixes;
      SweepFixesComplete(ps[..n], live);
      if last.tmuxId !in LiveIds(live) {
        SweepOrphanStep(ps, live);
      } else if LiveTitle(live, last.tmuxId) != last.title {
        SweepFixStep(ps, live);
      } else {
        SweepKeepStep(ps, live);
      }
      assert forall u :: u in before ==> u in after;
      forall q | q in ps && q.tmuxId in LiveIds(live) && LiveTitle(live, q.tmuxId) != q.title
        ensures TitleUpdate(q.tmuxId, q.title) in after
      {
        if q != last {
          InPrefix(ps, q);
        }
      }
    }
  }

  lemma {:induction false} SweepFixesSound(ps: seq<PaneState>, live: seq<Pane>)
    ensures forall u :: u in SweepPersisted(ps, live).fixes ==>
      u.paneId in LiveIds(live) && LiveTitle(live, u.paneId) != u.title
      && FixFromRecord(ps, u)
    decreases |ps|
  {
    if |ps| > 0 {
      var n := |ps| - 1;
      var last := ps[n];
      var before := SweepPersisted(ps[..n], live).fixes;
      SweepFixesSound(ps[..n], live);
      FixesFromPrefix(ps, n, before);
      if last.tmuxId !in LiveIds(live) {
        SweepOrphanStep(ps, live);
      } else if LiveTitle(live, last.tmuxId) != last.title {
        SweepFixStep(ps, live);
      } else {
        SweepKeepStep(ps, live);
      }
    }
  }

  /** A record in a sequence other than its last is in the sequence's
      prefix. */
  lemma InPrefix(ps: seq<PaneState>, q: PaneState)
    requires |ps| > 0 && q in ps && q != ps[|ps| - 1]
    ensures q in ps[..|ps| - 1]
  {
    var i :| 0 <= i < |ps| && ps[i] == q;
    assert ps[..|ps| - 1][i] == q;
  }

  /** A live last record whose title tmux shows otherwise is kept and
      adds its fix. */
  lemma SweepFixStep(ps: seq<PaneState>, live: seq<Pane>)
    requires |ps| > 0
    requires ps[|ps| - 1].tmuxId in LiveIds(live) && LiveTitle(live, ps[|ps| - 1].tmuxId) != ps[|ps| - 1].title
    ensures var last, r := ps[|ps| - 1], SweepPersisted(ps[..|ps| - 1], live);
      SweepPersisted(ps, live) == Sweep(r.kept + [last], r.fixes + [TitleUpdate(last.tmuxId, last.title)], r.orphans)
  {
  }

  /** A live last record showing its recorded title is kept, no more. */
  lemma SweepKeepStep(ps: seq<PaneState>, live: seq<Pane>)
    requires |ps| > 0
    requires ps[|ps| - 1].tmuxId in LiveIds(live) && LiveTitle(live, ps[|ps| - 1].tmuxId) == ps[|ps| - 1].title
    ensures var last, r := ps[|ps| - 1], SweepPersisted(ps[..|ps| - 1], live);
      SweepPersisted(ps, live) == Sweep(r.kept + [last], r.fixes, r.orphans)
  {
  }

  /** A last record that is not live is an orphan. */
  lemma SweepOrphanStep(ps: seq<PaneState>, live: seq<Pane>)
    requires |ps| > 0 && ps[|ps| - 1].tmuxId !in LiveIds(live)
    ensures var last, r := ps[|ps| - 1], SweepPersisted(ps[..|ps| - 1], live);
      SweepPersisted(ps, live) == Sweep(r.kept, r.fixes, r.orphans + [last.tmuxId])
  {
  }

  /** The three outputs of two sweeps, one after the other. */
  function SweepThen(x: Sweep, y: Sweep): Sweep {
    Sweep(x.kept + y.kept, x.fixes + y.fixes, x.orphans + y.orphans)
  }

  /** One record on its own: an orphan when not live, else kept, with a
      fix when tmux shows another title. */
  lemma SweepSingle(q: PaneState, live: seq<Pane>)
    ensures q.tmuxId !in LiveIds(live) ==> SweepPersisted([q], live) == Sweep([], [], [q.tmuxId])
    ensures q.tmuxId in LiveIds(live) && LiveTitle(live, q.tmuxId) != q.title ==>
      SweepPersisted([q], live) == Sweep([q], [TitleUpdate(q.tmuxId, q.title)], [])
    ensures q.tmuxId in LiveIds(live) && LiveTitle(live, q.tmuxId) == q.title ==>
      SweepPersisted([q], live) == Sweep([q], [], [])
  {
    assert [q][..0] == [];
  }

  /** The sweep goes through the records in order: sweeping two runs of
      records is sweeping the first, then the second, each output list
      keeping the records' order. With `SweepSingle` this fixes every
      output completely: the kept records are the live ones in recorded
      order, and so on. */
  lemma {:induction false} SweepAppend(a: seq<PaneState>, b: seq<PaneState>, live: seq<Pane>)
    ensures SweepPersisted(a + b, live) == SweepThen(SweepPersisted(a, live), SweepPersisted(b, live))
    decreases |b|
  {
    var x := SweepPersisted(a, live);
    if |b| == 0 {
      assert a + b == a;
      assert x.kept + [] == x.kept && x.fixes + [] == x.fixes && x.orphans + [] == x.orphans;
    } else {
      var n := |b| - 1;
      var q := b[n];
      var ab := a + b;
      assert ab[..|ab| - 1] == a + b[..n] && ab[|ab| - 1] == q;
      SweepAppend(a, b[..n], live);
      var y := SweepPersisted(b[..n], live);
      if q.tmuxId !in LiveIds(live) {
        SweepOrphanStep(ab, live);
        SweepOrphanStep(b, live);
        assert x.orphans + y.orphans + [q.tmuxId] == x.orphans + (y.orphans + [q.tmuxId]);
      } else if LiveTitle(live, q.tmuxId) != q.title {
        SweepFixStep(ab, live);
        SweepFixStep(b, live);
        assert x.kept + y.kept + [q] == x.kept + (y.kept + [q]);
        assert x.fixes + y.fixes + [TitleUpdate(q.tmuxId, q.title)]
          == x.fixes + (y.fixes + [TitleUpdate(q.tmuxId, q.title)]);
      } else {
        SweepKeepStep(ab, live);
        SweepKeepStep(b, live);
        assert x.kept + y.kept + [q] == x.kept + (y.kept + [q]);
      }
    }
  }

  /** Some persisted pane carries the id and title of the fix. */
  predicate FixFromRecord(ps: seq<PaneState>, u: TitleUpdate) {
    exists i :: 0 <= i < |ps| && ps[i].tmuxId == u.paneId && ps[i].title == u.title
  }

  /** Fixes drawn from the first `n` records are drawn from all of them,
      and so is the fix for record `n`. */
  lemma FixesFromPrefix(ps: seq<PaneState>, n: nat, fixes: seq<TitleUpdate>)
    requires n < |ps|
    requires forall u :: u in fixes ==> FixFromRecord(ps[..n], u)
    ensures forall u :: u in fixes ==> FixFromRecord(ps, u)
    ensures FixFromRecord(ps, TitleUpdate(ps[n].tmuxId, ps[n].title))
  {
    forall u | u in fixes ensures FixFromRecord(ps, u) {
      var i :| 0 <= i < n && ps[..n][i].tmuxId == u.paneId && ps[..n][i].title == u.title;
      assert ps[i] == ps[..n][i];
    }
  }

  /** The live panes whose id the record does not know, in live order
      (reconcile.go:110-121). */
  function FreshPanes(live: seq<Pane>, known: seq<string>): (r: seq<Pane>)
    ensures forall q :: q in r <==> q in live && q.id !in known
    decreases |live|
  {
    if |live| == 0 then []
    else
      var n := |live| - 1;
      assert live == live[..n] + [live[n]];
      var rest := FreshPanes(live[..n], known);
      if live[n].id in known then rest else rest + [live[n]]
  }

  /** The unseen panes of two runs of live panes are those of the first
      run, then those of the second: the live order is kept. */
  lemma {:induction false} FreshPanesAppend(a: seq<Pane>, b: seq<Pane>, known: seq<string>)
    ensures FreshPanes(a + b, known) == FreshPanes(a, known) + FreshPanes(b, known)
    decreases |b|
  {
    if |b| == 0 {
      assert a + b == a;
    } else {
      var n := |b| - 1;
      var ab := a + b;
      assert ab[..|ab| - 1] == a + b[..n] && ab[|ab| - 1] == b[n];
      FreshPanesAppend(a, b[..n], known);
      var x, y := FreshPanes(a, known), FreshPanes(b[..n], known);
      FreshPanesStep(ab, known);
      FreshPanesStep(b, known);
      var tail: seq<Pane> := if b[n].id in known then [] else [b[n]];
      assert x + y + tail == x + (y + tail);
    }
  }

  /** One step of `FreshPanes`: the last live pane is added when unseen. */
  lemma FreshPanesStep(live: seq<Pane>, known: seq<string>)
    requires |live| > 0
    ensures FreshPanes(live, known)
      == FreshPanes(live[..|live| - 1], known) + (if live[|live| - 1].id in known then [] else [live[|live| - 1]])
  {
  }

  /** One live pane is unseen exactly when its id has no record. */
  lemma FreshPanesSingle(p: Pane, known: seq<string>)
    ensures FreshPanes([p], known) == if p.id in known then [] else [p]
  {
    assert [p][..0] == [];
  }

  /** The panes of a record are all live. */
  predicate AllLive(panes: seq<PaneState>, live: seq<Pane>) {
    forall q :: q in panes ==> q.tmuxId in LiveIds(live)
  }

  /** Every live pane has a record. */
  predicate Covers(panes: seq<PaneState>, live: seq<Pane>) {
    forall p :: p in live ==> p.id in StateIds(panes)
  }

  lemma FreshRecordMatchesLive(live: seq<Pane>, now: Time)
    ensures AllLive(CreatePaneStates(live, now), live)
    ensures Covers(CreatePaneStates(live, now), live)
  {
    var c := CreatePaneStates(live, now);
    forall p | p in live ensures p.id in StateIds(c) {
      LiveIdsMember(live, p);
    }
    forall q | q in c ensures q.tmuxId in LiveIds(live) {
      StateIdsMember(c, q);
    }
  }

  lemma KeptAndUnseenMatchLive(ps: seq<PaneState>, live: seq<Pane>, now: Time)
    ensures AllLive(SweepPersisted(ps, live).kept + CreatePaneStates(FreshPanes(live, StateIds(ps)), now), live)
    ensures Covers(SweepPersisted(ps, live).kept + CreatePaneStates(FreshPanes(live, StateIds(ps)), now), live)
  {
    var kept := SweepPersisted(ps, live).kept;
    SweepPartitions(ps, live);
    var unseen := FreshPanes(live, StateIds(ps));
    var created := CreatePaneStates(unseen, now);
    var merged: seq<PaneState> := kept + created;
    forall q | q in merged ensures q.tmuxId in LiveIds(live) {
      if q !in kept {
        var i :| 0 <= i < |created| && created[i] == q;
        assert unseen[i] in unseen;
        LiveIdsMember(live, unseen[i]);
      }
    }
    forall p | p in live ensures p.id in StateIds(merged) {
      if p.id in StateIds(ps) {
        var i :| 0 <= i < |ps| && StateIds(ps)[i] == p.id;
        LiveIdsMember(live, p);
        assert ps[i] in kept;
        assert ps[i] in merged;
        StateIdsMember(merged, ps[i]);
      } else {
        assert p in unseen;
        var i :| 0 <= i < |unseen| && unseen[i] == p;
        assert created[i] in merged;
        StateIdsMember(merged, created[i]);
      }
    }
  }

  /** `reconcileSession`. */
  function ReconcileSession(persisted: SessionState, live: Session, now: Time): (r: Outcome)
    ensures AllLive(r.state.panes, live.panes)
    ensures Covers(r.state.panes, live.panes)
    ensures Recreated(persisted, live) ==>
      r.state.path == live.path && r.state.createdAt == live.createdAt
    ensures !Recreated(persisted, live) ==>
      r.state.path == persisted.path && r.state.createdAt == persisted.createdAt
    ensures forall k :: 0 <= k < |r.newPanes| ==>
      r.newPanes[k].sessionName == live.name && r.newPanes[k].paneId in LiveIds(live.panes)
  {
    if Recreated(persisted, live) then
      FreshRecordMatchesLive(live.panes, now);
      CreateSessionState(live, now)
    else
      var sw := SweepPersisted(persisted.panes, live.panes);
      var unseen := FreshPanes(live.panes, StateIds(persisted.panes));
      KeptAndUnseenMatchLive(persisted.panes, live.panes, now);
      assert forall k :: 0 <= k < |unseen| ==> unseen[k].id in LiveIds(live.panes) by {
        forall k | 0 <= k < |unseen| ensures unseen[k].id in LiveIds(live.panes) {
          assert unseen[k] in unseen;
          LiveIdsMember(live.panes, unseen[k]);
        }
      }
      Outcome(
        SessionState(persisted.path, persisted.createdAt, sw.kept + CreatePaneStates(unseen, now)),
        sw.fixes, sw.orphans, NewPaneInfos(live.name, unseen))
  }

  /** A recreated session is rebuilt from the live one: every live pane is
      new, and there are no orphans and no title fixes. */
  lemma RecreatedIsRebuilt(persisted: SessionState, live: Session, now: Time)
    requires Recreated(persisted, live)
    ensures var r := ReconcileSession(persisted, live, now);
      && r.state.path == live.path && r.state.createdAt == live.createdAt
      && StateIds(r.state.panes) == LiveIds(live.panes)
      && r.orphaned == [] && r.titleUpdates == []
      && |r.newPanes| == |live.panes|
      && forall i :: 0 <= i < |live.panes| ==> r.newPanes[i].paneId == live.panes[i].id
  {
  }

  /** A live creation time exactly two seconds after the recorded one is
      not a recreation. */
  lemma TwoSecondsIsSameSession(persisted: SessionState, live: Session, now: Time)
    requires live.createdAt == persisted.createdAt + 2 * Second
    ensures var r := ReconcileSession(persisted, live, now);
      r.state.path == persisted.path && r.state.createdAt == persisted.createdAt
  {
  }

  /** A record without a creation time is never rebuilt. */
  lemma ZeroTimeIsSameSession(persisted: SessionState, live: Session, now: Time)
    requires IsZero(persisted.createdAt)
    ensures var r := ReconcileSession(persisted, live, now);
      r.state.path == persisted.path && r.state.createdAt == persisted.createdAt
  {
  }

  /** A persisted pane that is still live is kept as it was recorded, and a
      fix carrying its recorded title is emitted exactly when tmux shows
      another title. */
  lemma LivePaneKept(persisted: SessionState, live: Session, now: Time, q: PaneState)
    requires !Recreated(persisted, live)
    requires q in persisted.panes && q.tmuxId in LiveIds(live.panes)
    ensures var r := ReconcileSession(persisted, live, now);
      && q in r.state.panes
      && (TitleUpdate(q.tmuxId, q.title) in r.titleUpdates <==> LiveTitle(live.panes, q.tmuxId) != q.title)
  {
    var sw := SweepPersisted(persisted.panes, live.panes);
    SweepPartitions(persisted.panes, live.panes);
    SweepFixes(persisted.panes, live.panes);
    assert q in sw.kept;
  }

  /** A pane id is orphaned exactly when it is recorded but no longer live;
      orphans do not stay in the record. */
  lemma OrphanIff(persisted: SessionState, live: Session, now: Time, id: string)
    requires !Recreated(persisted, live)
    ensures var r := ReconcileSession(persisted, live, now);
      && (id in r.orphaned <==> id in StateIds(persisted.panes) && id !in LiveIds(live.panes))
      && (id in r.orphaned ==> id !in StateIds(r.state.panes))
  {
    SweepPartitions(persisted.panes, live.panes);
  }

  lemma {:induction false} SweepAllLive(ps: seq<PaneState>, live: seq<Pane>)
    requires AllLive(ps, live)
    ensures SweepPersisted(ps, live).kept == ps
    ensures SweepPersisted(ps, live).orphans == []
    decreases |ps|
  {
    if |ps| > 0 {
      var n := |ps| - 1;
      assert ps[n] in ps;
      AllLivePrefix(ps, live, n);
      SweepAllLive(ps[..n], live);
      if LiveTitle(live, ps[n].tmuxId) != ps[n].title {
        SweepFixStep(ps, live);
      } else {
        SweepKeepStep(ps, live);
      }
      assert ps == ps[..n] + [ps[n]];
    }
  }

  lemma AllLivePrefix(ps: seq<PaneState>, live: seq<Pane>, n: nat)
    requires AllLive(ps, live) && n <= |ps|
    ensures AllLive(ps[..n], live)
  {
    forall q | q in ps[..n] ensures q.tmuxId in LiveIds(live) {
      assert q in ps;
    }
  }

  lemma {:induction false} FreshPanesAllUnknown(live: seq<Pane>, known: seq<string>)
    requires forall p :: p in live ==> p.id !in known
    ensures FreshPanes(live, known) == live
    decreases |live|
  {
    if |live| > 0 {
      var n := |live| - 1;
      assert live[n] in live;
      FreshPanesAllUnknown(live[..n], known);
      assert live == live[..n] + [live[n]];
    }
  }

  lemma FreshPanesAllKnown(live: seq<Pane>, known: seq<string>)
    requires forall p :: p in live ==> p.id in known
    ensures FreshPanes(live, known) == []
  {
  }

  /** When every recorded pane is live, the record keeps them all, first
      and in their recorded order. */
  lemma AllLiveKeepsRecordFirst(persisted: SessionState, live: Session, now: Time)
    requires !Recreated(persisted, live)
    requires AllLive(persisted.panes, live.panes)
    ensures var r := ReconcileSession(persisted, live, now);
      && |persisted.panes| <= |r.state.panes|
      && r.state.panes[..|persisted.panes|] == persisted.panes
      && r.state.panes[|persisted.panes|..]
         == CreatePaneStates(FreshPanes(live.panes, StateIds(persisted.panes)), now)
      && r.orphaned == []
  {
    SweepAllLive(persisted.panes, live.panes);
  }

  /** When no live pane is recorded, every live pane is reported as new, in
      live order. */
  lemma NothingKnownAllNew(persisted: SessionState, live: Session, now: Time)
    requires !Recreated(persisted, live)
    requires forall p :: p in live.panes ==> p.id !in StateIds(persisted.panes)
    ensures ReconcileSession(persisted, live, now).newPanes == CreateSessionState(live, now).newPanes
  {
    FreshPanesAllUnknown(live.panes, StateIds(persisted.panes));
  }

  /** A record that already matches the live session is a fixed point:
      reconciling it again reports nothing new or orphaned and changes
      nothing. */
  lemma MatchingRecordIsFixedPoint(s: SessionState, live: Session, now: Time)
    requires !Recreated(s, live)
    requires AllLive(s.panes, live.panes) && Covers(s.panes, live.panes)
    ensures var r := ReconcileSession(s, live, now);
      r.state == s && r.orphaned == [] && r.newPanes == []
  {
    SweepAllLive(s.panes, live.panes);
    FreshPanesAllKnown(live.panes, StateIds(s.panes));
    assert s.panes + [] == s.panes;
  }

  /** A second pass over the same live session is quiet and leaves the
      record as the first pass made it. */
  lemma SecondPassIsQuiet(persisted: SessionState, live: Session, now: Time, later: Time)
    ensures var first := ReconcileSession(persisted, live, now).state;
      var r := ReconcileSession(first, live, later);
      r.state == first && r.orphaned == [] && r.newPanes == []
  {
    var first := ReconcileSession(persisted, live, now).state;
    assert !Recreated(first, live);
    MatchingRecordIsFixedPoint(first, live, later);
  }

  /** The live sessions by name; as with the Go map built at
      reconcile.go:46-49, a later session with the same name replaces an
      earlier one. */
  function LiveByName(live: seq<Session>): (m: map<string, Session>)
    ensures forall name :: name in m ==> m[name].name == name && m[name] in live
    ensures forall i :: 0 <= i < |live| ==> live[i].name in m
    decreases |live|
  {
    if |live| == 0 then map[]
    else
      var n := |live| - 1;
      var m := LiveByName(live[..n]);
      assert forall i :: 0 <= i < n ==> live[..n][i] == live[i];
      m[live[n].name := live[n]]
  }

  /** The outputs gathered while walking the two maps. */
  datatype Acc = Acc(
    sessions: map<string, SessionState>,
    titleUpdates: seq<TitleUpdate>,
    orphaned: seq<string>,
    newPanes: seq<NewPaneInfo>)

  /** Everything one session emitted was gathered. */
  predicate Gathered(o: Outcome, a: Acc) {
    && (forall x :: x in o.orphaned ==> x in a.orphaned)
    && (forall u :: u in o.titleUpdates ==> u in a.titleUpdates)
    && (forall n :: n in o.newPanes ==> n in a.newPanes)
  }

  function Emit(a: Acc, name: string, o: Outcome): (r: Acc)
    ensures Gathered(o, r)
  {
    Acc(a.sessions[name := o.state], a.titleUpdates + o.titleUpdates,
        a.orphaned + o.orphaned, a.newPanes + o.newPanes)
  }

  /** One of the two loops of reconcile.go:51-66: walking the names in
      `order`, each one that has an outcome has its record stored and its
      emissions appended. */
  function Pass(outs: map<string, Outcome>, order: seq<string>, base: Acc): (a: Acc)
    ensures forall name :: name in a.sessions <==> name in base.sessions || (name in order && name in outs)
    ensures forall name :: name in order && name in outs ==> a.sessions[name] == outs[name].state
    ensures forall name :: name in base.sessions && !(name in order && name in outs) ==>
      a.sessions[name] == base.sessions[name]
    decreases |order|
  {
    if |order| == 0 then base
    else
      var n := |order| - 1;
      var name := order[n];
      var a := Pass(outs, order[..n], base);
      assert order == order[..n] + [name];
      if name in outs then Emit(a, name, outs[name]) else a
  }

  /** Emissions gathered before a loop stay reported, and every walked
      session's emissions are reported. */
  lemma {:induction false} PassGathers(outs: map<string, Outcome>, order: seq<string>, base: Acc)
    ensures (forall x :: x in base.orphaned ==> x in Pass(outs, order, base).orphaned)
    ensures (forall u :: u in base.titleUpdates ==> u in Pass(outs, order, base).titleUpdates)
    ensures (forall x :: x in base.newPanes ==> x in Pass(outs, order, base).newPanes)
    ensures (forall name :: name in order && name in outs ==> Gathered(outs[name], Pass(outs, order, base)))
    decreases |order|
  {
    if |order| > 0 {
      var n := |order| - 1;
      PassGathers(outs, order[..n], base);
      assert order == order[..n] + [order[n]];
    }
  }

  /** A loop reports nothing but what its walked sessions emit. */
  lemma {:induction false} PassSound(outs: map<string, Outcome>, order: seq<string>, base: Acc)
    ensures (forall x :: x in Pass(outs, order, base).orphaned ==>
          (x in base.orphaned || exists i :: 0 <= i < |order| && order[i] in outs && x in outs[order[i]].orphaned))
    ensures (forall u :: u in Pass(outs, order, base).titleUpdates ==>
          (u in base.titleUpdates || exists i :: 0 <= i < |order| && order[i] in outs && u in outs[order[i]].titleUpdates))
    ensures (forall x :: x in Pass(outs, order, base).newPanes ==>
          (x in base.newPanes || exists i :: 0 <= i < |order| && order[i] in outs && x in outs[order[i]].newPanes))
    decreases |order|
  {
    if |order| > 0 {
      var n := |order| - 1;
      PassSound(outs, order[..n], base);
      assert forall i :: 0 <= i < n ==> order[..n][i] == order[i];
    }
  }

  /** Both loops of reconcile.go:51-66: first the recorded sessions that
      are still live, then the live sessions without a record. */
  function Gather(merges: map<string, Outcome>, creations: map<string, Outcome>,
                  persistedOrder: seq<string>, liveOrder: seq<string>): Acc
  {
    Pass(creations, liveOrder, Pass(merges, persistedOrder, Acc(map[], [], [], [])))
  }

  /** The record the two loops leave for `name`: the first map's outcome
      for a recorded live session, the second map's for a live session
      without a record, none for any other name. */
  lemma GatherAt(merges: map<string, Outcome>, creations: map<string, Outcome>,
                 persistedOrder: seq<string>, liveOrder: seq<string>,
                 recorded: set<string>, liveNames: set<string>, name: string)
    requires Enumerates(persistedOrder, recorded) && Enumerates(liveOrder, liveNames)
    requires name in merges <==> name in recorded && name in liveNames
    requires name in creations <==> name in liveNames && name !in recorded
    ensures (name in Gather(merges, creations, persistedOrder, liveOrder).sessions <==> name in liveNames)
    ensures (name in merges ==> Gather(merges, creations, persistedOrder, liveOrder).sessions[name] == merges[name].state)
    ensures (name in creations ==> Gather(merges, creations, persistedOrder, liveOrder).sessions[name] == creations[name].state)
  {
    if name in liveNames && name in recorded {
      assert name in persistedOrder;
    }
    if name in liveNames && name !in recorded {
      assert name in liveOrder;
    }
  }

  /** Every walked session's emissions are reported. */
  lemma GatherReports(merges: map<string, Outcome>, creations: map<string, Outcome>,
                      persistedOrder: seq<string>, liveOrder: seq<string>, name: string)
    ensures (name in merges && name in persistedOrder ==> Gathered(merges[name], Gather(merges, creations, persistedOrder, liveOrder)))
    ensures (name in creations && name in liveOrder ==> Gathered(creations[name], Gather(merges, creations, persistedOrder, liveOrder)))
  {
    var empty := Acc(map[], [], [], []);
    PassGathers(merges, persistedOrder, empty);
    PassGathers(creations, liveOrder, Pass(merges, persistedOrder, empty));
  }

  /** Outcomes whose new panes all name a session of `names`. */
  predicate NewPanesWithin(outs: map<string, Outcome>, names: set<string>) {
    forall name, k :: name in outs && 0 <= k < |outs[name].newPanes| ==> outs[name].newPanes[k].sessionName in names
  }

  lemma {:induction false} PassNewPanesWithin(outs: map<string, Outcome>, order: seq<string>, base: Acc, names: set<string>)
    requires NewPanesWithin(outs, names)
    requires forall k :: 0 <= k < |base.newPanes| ==> base.newPanes[k].sessionName in names
    ensures forall k :: 0 <= k < |Pass(outs, order, base).newPanes| ==>
      Pass(outs, order, base).newPanes[k].sessionName in names
    decreases |order|
  {
    if |order| > 0 {
      var n := |order| - 1;
      PassNewPanesWithin(outs, order[..n], base, names);
      var a := Pass(outs, order[..n], base);
      if order[n] in outs {
        var o := outs[order[n]];
        var e := Emit(a, order[n], o);
        assert e.newPanes == a.newPanes + o.newPanes;
        forall k | 0 <= k < |e.newPanes| ensures e.newPanes[k].sessionName in names {
          if k >= |a.newPanes| {
            assert e.newPanes[k] == o.newPanes[k - |a.newPanes|];
          }
        }
      }
    }
  }

  /** The two loops report no orphan the first map's outcomes did not
      emit (the second emits none). */
  lemma GatherOrphans(merges: map<string, Outcome>, creations: map<string, Outcome>,
                      persistedOrder: seq<string>, liveOrder: seq<string>)
    requires forall name :: name in creations ==> creations[name].orphaned == []
    ensures forall x :: x in Gather(merges, creations, persistedOrder, liveOrder).orphaned ==>
      exists name :: name in merges && x in merges[name].orphaned
  {
    var empty := Acc(map[], [], [], []);
    var first := Pass(merges, persistedOrder, empty);
    PassSound(merges, persistedOrder, empty);
    PassSound(creations, liveOrder, first);
    forall x | x in Gather(merges, creations, persistedOrder, liveOrder).orphaned
      ensures exists name :: name in merges && x in merges[name].orphaned
    {
      var i :| 0 <= i < |persistedOrder| && persistedOrder[i] in merges && x in merges[persistedOrder[i]].orphaned;
    }
  }

  /** The two loops report no title fix the first map's outcomes did not
      emit (the second emits none). */
  lemma GatherFixes(merges: map<string, Outcome>, creations: map<string, Outcome>,
                    persistedOrder: seq<string>, liveOrder: seq<string>)
    requires forall name :: name in creations ==> creations[name].titleUpdates == []
    ensures forall u :: u in Gather(merges, creations, persistedOrder, liveOrder).titleUpdates ==>
      exists name :: name in merges && u in merges[name].titleUpdates
  {
    var empty := Acc(map[], [], [], []);
    var first := Pass(merges, persistedOrder, empty);
    PassSound(merges, persistedOrder, empty);
    PassSound(creations, liveOrder, first);
    forall u | u in Gather(merges, creations, persistedOrder, liveOrder).titleUpdates
      ensures exists name :: name in merges && u in merges[name].titleUpdates
    {
      var i :| 0 <= i < |persistedOrder| && persistedOrder[i] in merges && u in merges[persistedOrder[i]].titleUpdates;
    }
  }

  /** The two loops report new panes only under the names the outcomes
      use. */
  lemma GatherNewPanesWithin(merges: map<string, Outcome>, creations: map<string, Outcome>,
                             persistedOrder: seq<string>, liveOrder: seq<string>, names: set<string>)
    requires NewPanesWithin(merges, names) && NewPanesWithin(creations, names)
    ensures forall k :: 0 <= k < |Gather(merges, creations, persistedOrder, liveOrder).newPanes| ==>
      Gather(merges, creations, persistedOrder, liveOrder).newPanes[k].sessionName in names
  {
    var empty := Acc(map[], [], [], []);
    PassNewPanesWithin(merges, persistedOrder, empty, names);
    PassNewPanesWithin(creations, liveOrder, Pass(merges, persistedOrder, empty), names);
  }

  /** The outcome of every recorded session that is still live. */
  function Merges(records: map<string, SessionState>, lm: map<string, Session>, now: Time): (m: map<string, Outcome>)
    ensures forall name :: name in m <==> name in records && name in lm
    ensures forall name :: name in m ==> m[name] == ReconcileSession(records[name], lm[name], now)
  {
    map name | name in records && name in lm :: ReconcileSession(records[name], lm[name], now)
  }

  /** The fresh record of every live session without one. */
  function Creations(records: map<string, SessionState>, lm: map<string, Session>, now: Time): (m: map<string, Outcome>)
    ensures forall name :: name in m <==> name in lm && name !in records
    ensures forall name :: name in m ==> m[name] == CreateSessionState(lm[name], now)
  {
    map name | name in lm && name !in records :: CreateSessionState(lm[name], now)
  }

  /** `state.Reconcile`. The store must be present: the Go code guards a nil
      store at reconcile.go:41 but reads its sessions unconditionally at
      line 51. */
  function Reconcile(store: Store, live: seq<Session>, persistedOrder: seq<string>,
                     liveOrder: seq<string>, now: Time): (r: Output)
    requires Enumerates(persistedOrder, store.sessions.Keys)
    requires Enumerates(liveOrder, LiveByName(live).Keys)
    ensures r.updated.version == store.version && r.updated.serverId == store.serverId
  {
    var lm := LiveByName(live);
    var a := Gather(Merges(store.sessions, lm, now), Creations(store.sessions, lm, now), persistedOrder, liveOrder);
    Output(Store(store.version, store.serverId, a.sessions), a.titleUpdates, a.orphaned, a.newPanes)
  }

  /** The reconciled store holds exactly the live sessions: a recorded
      session that is still live is reconciled, a live one without a record
      gets a fresh record, and a recorded one that is gone is dropped. */
  lemma ReconciledSessions(store: Store, live: seq<Session>, persistedOrder: seq<string>,
                           liveOrder: seq<string>, now: Time, name: string)
    requires Enumerates(persistedOrder, store.sessions.Keys)
    requires Enumerates(liveOrder, LiveByName(live).Keys)
    ensures (name in Reconcile(store, live, persistedOrder, liveOrder, now).updated.sessions <==> name in LiveByName(live))
    ensures (name in LiveByName(live) && name in store.sessions ==>
      Reconcile(store, live, persistedOrder, liveOrder, now).updated.sessions[name] ==
        ReconcileSession(store.sessions[name], LiveByName(live)[name], now).state)
    ensures (name in LiveByName(live) && name !in store.sessions ==>
      Reconcile(store, live, persistedOrder, liveOrder, now).updated.sessions[name] ==
        CreateSessionState(LiveByName(live)[name], now).state)
  {
    var lm := LiveByName(live);
    var merges := Merges(store.sessions, lm, now);
    var creations := Creations(store.sessions, lm, now);
    ReconcileGathers(store, live, persistedOrder, liveOrder, now);
    GatherAt(merges, creations, persistedOrder, liveOrder, store.sessions.Keys, lm.Keys, name);
  }

  /** Every pane of a live session without a record is reported as new,
      with its inferred type. */
  lemma LiveOnlySessionAllNew(store: Store, live: seq<Session>, persistedOrder: seq<string>,
                              liveOrder: seq<string>, now: Time, name: string)
    requires Enumerates(persistedOrder, store.sessions.Keys)
    requires Enumerates(liveOrder, LiveByName(live).Keys)
    requires name in LiveByName(live) && name !in store.sessions
    ensures var r := Reconcile(store, live, persistedOrder, liveOrder, now);
      forall p :: p in LiveByName(live)[name].panes ==>
        NewPaneInfo(name, p.id, InferPaneTypeFromPane(p)) in r.newPanes
  {
    var lm := LiveByName(live);
    var merges := Merges(store.sessions, lm, now);
    var creations := Creations(store.sessions, lm, now);
    GatherReports(merges, creations, persistedOrder, liveOrder, name);
    var o := creations[name];
    forall p | p in lm[name].panes ensures NewPaneInfo(name, p.id, InferPaneTypeFromPane(p)) in o.newPanes {
      var i :| 0 <= i < |lm[name].panes| && lm[name].panes[i] == p;
      assert o.newPanes[i] in o.newPanes;
    }
  }

  /** Whatever a recorded live session emits is reported. */
  lemma MergedSessionReported(store: Store, live: seq<Session>, persistedOrder: seq<string>,
                              liveOrder: seq<string>, now: Time, name: string)
    requires Enumerates(persistedOrder, store.sessions.Keys)
    requires Enumerates(liveOrder, LiveByName(live).Keys)
    requires name in LiveByName(live) && name in store.sessions
    ensures var r := Reconcile(store, live, persistedOrder, liveOrder, now);
      var o := ReconcileSession(store.sessions[name], LiveByName(live)[name], now);
      && (forall x :: x in o.orphaned ==> x in r.orphaned)
      && (forall u :: u in o.titleUpdates ==> u in r.titleUpdates)
      && (forall x :: x in o.newPanes ==> x in r.newPanes)
  {
    var lm := LiveByName(live);
    GatherReports(Merges(store.sessions, lm, now), Creations(store.sessions, lm, now), persistedOrder, liveOrder, name);
  }

  lemma MergesNameLiveSessions(records: map<string, SessionState>, live: seq<Session>, now: Time)
    ensures NewPanesWithin(Merges(records, LiveByName(live), now), LiveByName(live).Keys)
  {
    var lm := LiveByName(live);
    var m := Merges(records, lm, now);
    forall name, k | name in m && 0 <= k < |m[name].newPanes| ensures m[name].newPanes[k].sessionName in lm.Keys {
      assert m[name] == ReconcileSession(records[name], lm[name], now);
    }
  }

  lemma CreationsNameLiveSessions(records: map<string, SessionState>, live: seq<Session>, now: Time)
    ensures NewPanesWithin(Creations(records, LiveByName(live), now), LiveByName(live).Keys)
    ensures forall name :: name in Creations(records, LiveByName(live), now) ==>
      Creations(records, LiveByName(live), now)[name].orphaned == [] &&
      Creations(records, LiveByName(live), now)[name].titleUpdates == []
  {
    var lm := LiveByName(live);
    var m := Creations(records, lm, now);
    forall name, k | name in m && 0 <= k < |m[name].newPanes| ensures m[name].newPanes[k].sessionName in lm.Keys {
      assert m[name] == CreateSessionState(lm[name], now);
    }
  }

  /** `Reconcile` is the two loops over the merged and created outcomes. */
  lemma ReconcileGathers(store: Store, live: seq<Session>, persistedOrder: seq<string>,
                         liveOrder: seq<string>, now: Time)
    requires Enumerates(persistedOrder, store.sessions.Keys)
    requires Enumerates(liveOrder, LiveByName(live).Keys)
    ensures Reconcile(store, live, persistedOrder, liveOrder, now).updated.sessions ==
      Gather(Merges(store.sessions, LiveByName(live), now), Creations(store.sessions, LiveByName(live), now), persistedOrder, liveOrder).sessions
    ensures Reconcile(store, live, persistedOrder, liveOrder, now).orphaned ==
      Gather(Merges(store.sessions, LiveByName(live), now), Creations(store.sessions, LiveByName(live), now), persistedOrder, liveOrder).orphaned
    ensures Reconcile(store, live, persistedOrder, liveOrder, now).titleUpdates ==
      Gather(Merges(store.sessions, LiveByName(live), now), Creations(store.sessions, LiveByName(live), now), persistedOrder, liveOrder).titleUpdates
    ensures Reconcile(store, live, persistedOrder, liveOrder, now).newPanes ==
      Gather(Merges(store.sessions, LiveByName(live), now), Creations(store.sessions, LiveByName(live), now), persistedOrder, liveOrder).newPanes
  {
  }

  /** Orphans are only ever reported by a recorded session that is still
      live. */
  lemma OrphansComeFromLiveSessions(store: Store, live: seq<Session>, persistedOrder: seq<string>,
                                    liveOrder: seq<string>, now: Time, x: string)
    requires Enumerates(persistedOrder, store.sessions.Keys)
    requires Enumerates(liveOrder, LiveByName(live).Keys)
    requires x in Reconcile(store, live, persistedOrder, liveOrder, now).orphaned
    ensures exists name :: (name in store.sessions && name in LiveByName(live) &&
      x in ReconcileSession(store.sessions[name], LiveByName(live)[name], now).orphaned)
  {
    var lm := LiveByName(live);
    var merges := Merges(store.sessions, lm, now);
    var creations := Creations(store.sessions, lm, now);
    ReconcileGathers(store, live, persistedOrder, liveOrder, now);
    CreationsNameLiveSessions(store.sessions, live, now);
    GatherOrphans(merges, creations, persistedOrder, liveOrder);
    var name :| name in merges && x in merges[name].orphaned;
    assert name in store.sessions && name in lm;
  }

  /** Title fixes are only ever reported by a recorded session that is
      still live. */
  lemma FixesComeFromLiveSessions(store: Store, live: seq<Session>, persistedOrder: seq<string>,
                                  liveOrder: seq<string>, now: Time, u: TitleUpdate)
    requires Enumerates(persistedOrder, store.sessions.Keys)
    requires Enumerates(liveOrder, LiveByName(live).Keys)
    requires u in Reconcile(store, live, persistedOrder, liveOrder, now).titleUpdates
    ensures exists name :: (name in store.sessions && name in LiveByName(live) &&
      u in ReconcileSession(store.sessions[name], LiveByName(live)[name], now).titleUpdates)
  {
    var lm := LiveByName(live);
    var merges := Merges(store.sessions, lm, now);
    var creations := Creations(store.sessions, lm, now);
    ReconcileGathers(store, live, persistedOrder, liveOrder, now);
    CreationsNameLiveSessions(store.sessions, live, now);
    GatherFixes(merges, creations, persistedOrder, liveOrder);
    var name :| name in merges && u in merges[name].titleUpdates;
    assert name in store.sessions && name in lm;
  }

  /** Every reported new pane names a live session. */
  lemma NewPanesNameLiveSessions(store: Store, live: seq<Session>, persistedOrder: seq<string>,
                                 liveOrder: seq<string>, now: Time)
    requires Enumerates(persistedOrder, store.sessions.Keys)
    requires Enumerates(liveOrder, LiveByName(live).Keys)
    ensures forall k :: 0 <= k < |Reconcile(store, live, persistedOrder, liveOrder, now).newPanes| ==>
      Reconcile(store, live, persistedOrder, liveOrder, now).newPanes[k].sessionName in LiveByName(live)
  {
    var lm := LiveByName(live);
    ReconcileGathers(store, live, persistedOrder, liveOrder, now);
    MergesNameLiveSessions(store.sessions, live, now);
    CreationsNameLiveSessions(store.sessions, live, now);
    GatherNewPanesWithin(Merges(store.sessions, lm, now), Creations(store.sessions, lm, now), persistedOrder, liveOrder, lm.Keys);
  }
}
