/** internal/app/apply_template.go: laying a configured template over an
    existing session, and the store edit that records the new panes
    sorted by tmux id. */
module TemplateApply {
  import opened Wrappers
  import opened Text
  import opened Domain
  import opened StateStore
  import opened Providers
  import opened Configuration
  import Up

  // ---------------------------------------------------------------------
  // Go's `<` on strings: lexicographic on bytes. UTF-8 keeps code-point
  // order, so comparing characters by code point agrees with it.

  predicate Before(a: string, b: string)
    decreases |a|
  {
    if |b| == 0 then false
    else if |a| == 0 then true
    else if a[0] != b[0] then a[0] < b[0]
    else Before(a[1..], b[1..])
  }

  lemma {:induction false} BeforeIrreflexive(a: string)
    ensures !Before(a, a)
    decreases |a|
  {
    if |a| > 0 {
      BeforeIrreflexive(a[1..]);
    }
  }

  lemma {:induction false} BeforeTransitive(a: string, b: string, c: string)
    requires Before(a, b) && Before(b, c)
    ensures Before(a, c)
    decreases |a|
  {
    if |a| > 0 && a[0] == b[0] && b[0] == c[0] {
      BeforeTransitive(a[1..], b[1..], c[1..]);
    }
  }

  lemma {:induction false} BeforeTotal(a: string, b: string)
    ensures a == b || Before(a, b) || Before(b, a)
    decreases |a|
  {
    if |a| > 0 && |b| > 0 && a[0] == b[0] {
      BeforeTotal(a[1..], b[1..]);
      if a[1..] == b[1..] {
        assert a == [a[0]] + a[1..] && b == [b[0]] + b[1..];
      }
    }
  }

  // ---------------------------------------------------------------------
  // Sorting pane records by tmux id.

  /** No record is followed by one with a smaller id. */
  predicate SortedById(s: seq<PaneState>) {
    forall i, j :: 0 <= i < j < |s| ==> !Before(s[j].tmuxId, s[i].tmuxId)
  }

  /** Every id occurs once. */
  predicate DistinctIds(s: seq<PaneState>) {
    forall i, j :: 0 <= i < j < |s| ==> s[i].tmuxId != s[j].tmuxId
  }

  /** Puts `x` before the first record whose id is not smaller. */
  function Insert(x: PaneState, s: seq<PaneState>): (r: seq<PaneState>)
    ensures multiset(r) == multiset(s) + multiset{x}
    ensures |r| == |s| + 1
    decreases |s|
  {
    if |s| == 0 then [x]
    else if Before(s[0].tmuxId, x.tmuxId) then
      var rest := Insert(x, s[1..]);
      assert s == [s[0]] + s[1..];
      [s[0]] + rest
    else [x] + s
  }

  lemma {:induction false} InsertSorted(x: PaneState, s: seq<PaneState>)
    requires SortedById(s)
    ensures SortedById(Insert(x, s))
    decreases |s|
  {
    if |s| > 0 {
      if Before(s[0].tmuxId, x.tmuxId) {
        SortedTail(s);
        InsertSorted(x, s[1..]);
        var rest := Insert(x, s[1..]);
        assert Insert(x, s) == [s[0]] + rest;
        InsertedAfterHead(x, s);
        ConsSorted(s[0], rest);
      } else {
        assert Insert(x, s) == [x] + s;
        NoneBefore(x, s);
        ConsSorted(x, s);
      }
    }
  }

  /** A record put in front of a sorted sequence none of whose ids is
      smaller leaves it sorted. */
  lemma ConsSorted(h: PaneState, rest: seq<PaneState>)
    requires SortedById(rest)
    requires forall k :: 0 <= k < |rest| ==> !Before(rest[k].tmuxId, h.tmuxId)
    ensures SortedById([h] + rest)
  {
    assert forall k :: 0 < k <= |rest| ==> ([h] + rest)[k] == rest[k - 1];
  }

  /** Inserting behind the head of a sorted sequence puts no smaller id
      after it. */
  lemma InsertedAfterHead(x: PaneState, s: seq<PaneState>)
    requires |s| > 0 && SortedById(s) && Before(s[0].tmuxId, x.tmuxId)
    ensures forall k :: 0 <= k < |Insert(x, s[1..])| ==> !Before(Insert(x, s[1..])[k].tmuxId, s[0].tmuxId)
  {
    var rest := Insert(x, s[1..]);
    forall k | 0 <= k < |rest| ensures !Before(rest[k].tmuxId, s[0].tmuxId) {
      assert rest[k] in multiset(rest);
      if rest[k] == x {
        if Before(x.tmuxId, s[0].tmuxId) {
          BeforeTransitive(x.tmuxId, s[0].tmuxId, x.tmuxId);
          BeforeIrreflexive(x.tmuxId);
        }
      } else {
        assert rest[k] in s[1..];
        var m :| 0 <= m < |s[1..]| && s[1..][m] == rest[k];
        assert s[m + 1] == rest[k];
      }
    }
  }

  /** When the head of a sorted sequence is not smaller than `x`, no
      record of it is. */
  lemma NoneBefore(x: PaneState, s: seq<PaneState>)
    requires |s| > 0 && SortedById(s) && !Before(s[0].tmuxId, x.tmuxId)
    ensures forall k :: 0 <= k < |s| ==> !Before(s[k].tmuxId, x.tmuxId)
  {
    forall k | 0 < k < |s| ensures !Before(s[k].tmuxId, x.tmuxId) {
      BeforeTotal(x.tmuxId, s[0].tmuxId);
      if Before(s[k].tmuxId, x.tmuxId) && Before(x.tmuxId, s[0].tmuxId) {
        BeforeTransitive(s[k].tmuxId, x.tmuxId, s[0].tmuxId);
      }
    }
  }

  /** Insertion sort by id; among equal ids the input order is kept. */
  function SortById(s: seq<PaneState>): (r: seq<PaneState>)
    ensures multiset(r) == multiset(s)
    ensures |r| == |s|
    decreases |s|
  {
    if |s| == 0 then []
    else
      var rest := SortById(s[1..]);
      assert s == [s[0]] + s[1..];
      Insert(s[0], rest)
  }

  lemma {:induction false} SortByIdSorted(s: seq<PaneState>)
    ensures SortedById(SortById(s))
    decreases |s|
  {
    if |s| > 0 {
      SortByIdSorted(s[1..]);
      InsertSorted(s[0], SortById(s[1..]));
    }
  }

  /** The head of a sorted sequence has the smallest id. */
  lemma SortedHeadLeast(a: seq<PaneState>, x: PaneState)
    requires SortedById(a) && x in a
    ensures !Before(x.tmuxId, a[0].tmuxId)
  {
    var k :| 0 <= k < |a| && a[k] == x;
    if k == 0 {
      BeforeIrreflexive(x.tmuxId);
    }
  }

  lemma SortedTail(a: seq<PaneState>)
    requires |a| > 0
    ensures SortedById(a) ==> SortedById(a[1..])
    ensures DistinctIds(a) ==> DistinctIds(a[1..])
  {
    assert forall i :: 0 <= i < |a| - 1 ==> a[1..][i] == a[i + 1];
  }

  /** Two sorted arrangements of the same records with distinct ids are
      the same sequence, so any sort the runtime picks gives this one. */
  lemma {:induction false} SortedUnique(a: seq<PaneState>, b: seq<PaneState>)
    requires multiset(a) == multiset(b)
    requires SortedById(a) && SortedById(b) && DistinctIds(a)
    ensures a == b
    decreases |a|
  {
    assert |a| == |multiset(a)| == |b|;
    if |a| > 0 {
      SortedHeadsAgree(a, b);
      TailsAgree(a, b);
      SortedTail(a);
      SortedTail(b);
      SortedUnique(a[1..], b[1..]);
      assert a == [a[0]] + a[1..] && b == [b[0]] + b[1..];
    }
  }

  /** Sorted arrangements of the same records with distinct ids start
      with the same record. */
  lemma SortedHeadsAgree(a: seq<PaneState>, b: seq<PaneState>)
    requires |a| > 0 && multiset(a) == multiset(b)
    requires SortedById(a) && SortedById(b) && DistinctIds(a)
    ensures |b| > 0 && a[0] == b[0]
  {
    assert a[0] in multiset(b);
    assert b[0] in multiset(a);
    SortedHeadLeast(b, a[0]);
    SortedHeadLeast(a, b[0]);
    BeforeTotal(a[0].tmuxId, b[0].tmuxId);
    var i :| 0 <= i < |a| && a[i] == b[0];
    assert i == 0;
  }

  /** Removing the same first record from equal multisets leaves equal
      multisets. */
  lemma TailsAgree(a: seq<PaneState>, b: seq<PaneState>)
    requires |a| > 0 && |b| > 0 && a[0] == b[0] && multiset(a) == multiset(b)
    ensures multiset(a[1..]) == multiset(b[1..])
  {
    MultisetTail(a);
    MultisetTail(b);
  }

  lemma MultisetTail<T>(a: seq<T>)
    requires |a| > 0
    ensures multiset(a[1..]) == multiset(a) - multiset{a[0]}
  {
    assert a == [a[0]] + a[1..];
  }

  /** Inserting a record whose id is new keeps the ids distinct. */
  lemma {:induction false} InsertDistinct(x: PaneState, s: seq<PaneState>)
    requires DistinctIds(s)
    requires forall e :: e in s ==> e.tmuxId != x.tmuxId
    ensures DistinctIds(Insert(x, s))
    decreases |s|
  {
    if |s| > 0 && Before(s[0].tmuxId, x.tmuxId) {
      SortedTail(s);
      InsertDistinct(x, s[1..]);
      var rest := Insert(x, s[1..]);
      forall k | 0 <= k < |rest| ensures rest[k].tmuxId != s[0].tmuxId {
        assert rest[k] in multiset(rest);
        if rest[k] != x {
          var m :| 0 <= m < |s[1..]| && s[1..][m] == rest[k];
          assert s[m + 1] == rest[k];
        }
      }
      assert Insert(x, s) == [s[0]] + rest;
    }
  }

  /** Sorting keeps distinct ids distinct. */
  lemma {:induction false} SortByIdDistinct(s: seq<PaneState>)
    requires DistinctIds(s)
    ensures DistinctIds(SortById(s))
    decreases |s|
  {
    if |s| > 0 {
      SortedTail(s);
      SortByIdDistinct(s[1..]);
      forall e | e in SortById(s[1..]) ensures e.tmuxId != s[0].tmuxId {
        assert e in multiset(s[1..]);
        var m :| 0 <= m < |s[1..]| && s[1..][m] == e;
        assert s[m + 1] == e;
      }
      InsertDistinct(s[0], SortById(s[1..]));
    }
  }

  // ---------------------------------------------------------------------
  // replaceSessionState

  /** `replaceSessionState`: the server id is attached first (its failure
      is the result and nothing is saved); then the session's record is
      replaced by a new one holding the panes sorted by id, and every
      other session is left alone. */
  function ReplaceSessionState(loaded: Result<Store>, serverId: Result<string>, session: string, path: string,
                               created: Time, panes: seq<PaneState>): (r: Result<Store>)
    ensures serverId.Err? <==> r.Err?
    ensures serverId.Err? ==> r == Err(serverId.error)
    ensures r.Ok? ==> r.value.serverId == serverId.value && r.value.version == LoadOrNew(loaded).version
    ensures r.Ok? ==> r.value.sessions.Keys == LoadOrNew(loaded).sessions.Keys + {session}
    ensures r.Ok? ==> forall n :: n in r.value.sessions && n != session ==>
      r.value.sessions[n] == LoadOrNew(loaded).sessions[n]
    ensures r.Ok? ==> r.value.sessions[session].path == path && r.value.sessions[session].createdAt == created
    ensures r.Ok? ==> multiset(r.value.sessions[session].panes) == multiset(panes)
  {
    var st := LoadOrNew(loaded);
    if serverId.Err? then Err(serverId.error)
    else
      var st' := st.(serverId := serverId.value);
      Ok(st'.(sessions := st'.sessions[session := SessionState(path, created, SortById(panes))]))
  }

  /** The recorded panes are in id order; with distinct ids they are the
      only such arrangement. */
  lemma ReplacedPanesSorted(loaded: Result<Store>, serverId: Result<string>, session: string, path: string,
                            created: Time, panes: seq<PaneState>, other: seq<PaneState>)
    requires serverId.Ok?
    ensures SortedById(ReplaceSessionState(loaded, serverId, session, path, created, panes).value.sessions[session].panes)
    ensures DistinctIds(panes) && SortedById(other) && multiset(other) == multiset(panes) ==>
      ReplaceSessionState(loaded, serverId, session, path, created, panes).value.sessions[session].panes == other
  {
    var sorted := SortById(panes);
    SortByIdSorted(panes);
    if DistinctIds(panes) && SortedById(other) && multiset(other) == multiset(panes) {
      SortByIdDistinct(panes);
      SortedUnique(sorted, other);
    }
  }

  // ---------------------------------------------------------------------
  // The new panes of a template.

  /** The pane that holds template pane `i`: the kept first pane, then the
      results of the successive splits. */
  function PaneIdAt(firstId: string, split: nat -> Result<string>, i: nat): Result<string> {
    if i == 0 then Ok(firstId) else split(i)
  }

  /** How a pane of the template is configured under the current
      counters: its result and the counters it leaves. */
  type Configure = (PaneSpec, map<PaneType, nat>) -> Result<(Up.PaneResult, map<PaneType, nat>)>

  /** `configurePaneSpec` with the merged registry and the PATH lookup. */
  function Configurer(reg: Registry, onPath: string -> bool): Configure {
    (spec, counts) => Up.ConfigurePane(spec, counts, reg, onPath)
  }

  /** The records built pane by pane from template pane `i` on, each split
      followed by the configuration of its pane; the first failure stops
      the loop. Every record is stamped with the clock reading `now`. */
  function BuildStates(specs: seq<PaneSpec>, i: nat, firstId: string, split: nat -> Result<string>,
                       counts: map<PaneType, nat>, configure: Configure, now: Time)
    : (r: Result<seq<PaneState>>)
    requires i <= |specs|
    ensures r.Ok? ==> |r.value| == |specs| - i
    decreases |specs| - i
  {
    if i == |specs| then Ok([])
    else
      var id := PaneIdAt(firstId, split, i);
      if id.Err? then Err(id.error)
      else
        var c := configure(specs[i], counts);
        if c.Err? then Err(c.error)
        else
          var rest := BuildStates(specs, i + 1, firstId, split, c.value.1, configure, now);
          if rest.Err? then rest
          else Ok([PaneState(id.value, c.value.0.paneType, c.value.0.title, now, None)] + rest.value)
  }

  /** Each record, from template pane `i` on, is held by the pane that
      hosts its template pane, is stamped with `now` and has never been
      renamed. */
  predicate Stamped(ps: seq<PaneState>, i: nat, firstId: string, split: nat -> Result<string>, now: Time)
    decreases |ps|
  {
    |ps| == 0
    || (PaneIdAt(firstId, split, i) == Ok(ps[0].tmuxId) && ps[0].createdAt == now && ps[0].renamedAt.None?
        && Stamped(ps[1..], i + 1, firstId, split, now))
  }

  /** `Stamped` read off at one index. */
  lemma {:induction false} StampedAt(ps: seq<PaneState>, i: nat, firstId: string, split: nat -> Result<string>,
                                     now: Time, k: nat)
    requires Stamped(ps, i, firstId, split, now) && k < |ps|
    ensures PaneIdAt(firstId, split, i + k) == Ok(ps[k].tmuxId) && ps[k].createdAt == now && ps[k].renamedAt.None?
    decreases k
  {
    if k > 0 {
      StampedAt(ps[1..], i + 1, firstId, split, now, k - 1);
      assert ps[1..][k - 1] == ps[k];
    }
  }

  /** The records `BuildStates` makes are stamped. */
  lemma {:induction false} BuildStatesStamps(specs: seq<PaneSpec>, i: nat, firstId: string,
                                             split: nat -> Result<string>, counts: map<PaneType, nat>,
                                             configure: Configure, now: Time)
    requires i <= |specs|
    requires BuildStates(specs, i, firstId, split, counts, configure, now).Ok?
    ensures Stamped(BuildStates(specs, i, firstId, split, counts, configure, now).value, i, firstId, split, now)
    decreases |specs| - i
  {
    var ps := BuildStates(specs, i, firstId, split, counts, configure, now).value;
    if i < |specs| {
      var c := BuildStatesCons(specs, i, firstId, split, counts, configure, now);
      BuildStatesStamps(specs, i + 1, firstId, split, c.1, configure, now);
      var tail := BuildStates(specs, i + 1, firstId, split, c.1, configure, now).value;
      assert ps[1..] == tail;
    } else {
      assert ps == [];
    }
  }

  /** One step of `BuildStates`: the record of pane `i`, then the records
      built under the counters its configuration leaves. */
  lemma BuildStatesCons(specs: seq<PaneSpec>, i: nat, firstId: string, split: nat -> Result<string>,
                        counts: map<PaneType, nat>, configure: Configure, now: Time)
    returns (c: (Up.PaneResult, map<PaneType, nat>))
    requires i < |specs|
    requires BuildStates(specs, i, firstId, split, counts, configure, now).Ok?
    ensures PaneIdAt(firstId, split, i).Ok? && configure(specs[i], counts) == Ok(c)
    ensures BuildStates(specs, i + 1, firstId, split, c.1, configure, now).Ok?
    ensures BuildStates(specs, i, firstId, split, counts, configure, now).value
      == [PaneState(PaneIdAt(firstId, split, i).value, c.0.paneType, c.0.title, now, None)]
        + BuildStates(specs, i + 1, firstId, split, c.1, configure, now).value
  {
    c := configure(specs[i], counts).value;
  }

  /** The types of a record list, in order. */
  function StateTypes(ps: seq<PaneState>): (ts: seq<PaneType>)
    ensures |ts| == |ps| && forall k :: 0 <= k < |ps| ==> ts[k] == ps[k].paneType
  {
    seq(|ps|, k requires 0 <= k < |ps| => ps[k].paneType)
  }

  /** The titles of a record list, in order. */
  function StateTitles(ps: seq<PaneState>): (ts: seq<string>)
    ensures |ts| == |ps| && forall k :: 0 <= k < |ps| ==> ts[k] == ps[k].title
  {
    seq(|ps|, k requires 0 <= k < |ps| => ps[k].title)
  }

  /** The template's panes configured one after another by `configure`,
      threading the counters and stopping at the first failure. */
  function ConfigureAll(specs: seq<PaneSpec>, counts: map<PaneType, nat>, configure: Configure)
    : (r: Result<seq<Up.PaneResult>>)
    ensures r.Ok? ==> |r.value| == |specs|
    decreases |specs|
  {
    if |specs| == 0 then Ok([])
    else
      var first := configure(specs[0], counts);
      if first.Err? then Err(first.error)
      else
        var rest := ConfigureAll(specs[1..], first.value.1, configure);
        if rest.Err? then Err(rest.error) else Ok([first.value.0] + rest.value)
  }

  /** With the merged registry's configuration, `ConfigureAll` is the
      configuration `up` performs. */
  lemma {:induction false} ConfigureAllIsConfigurePanes(specs: seq<PaneSpec>, counts: map<PaneType, nat>,
                                                        reg: Registry, onPath: string -> bool)
    ensures ConfigureAll(specs, counts, Configurer(reg, onPath)) == Up.ConfigurePanes(specs, counts, reg, onPath)
    decreases |specs|
  {
    if |specs| > 0 {
      ConfigurerApplied(reg, onPath, specs[0], counts);
      var first := Up.ConfigurePane(specs[0], counts, reg, onPath);
      if first.Ok? {
        ConfigureAllIsConfigurePanes(specs[1..], first.value.1, reg, onPath);
      }
    }
  }

  /** The records carry, in order, the types and titles `ConfigureAll`
      gives the same panes. */
  lemma {:induction false} BuildStatesFollow(specs: seq<PaneSpec>, i: nat, firstId: string,
                                             split: nat -> Result<string>, counts: map<PaneType, nat>,
                                             configure: Configure, now: Time)
    requires i <= |specs|
    requires BuildStates(specs, i, firstId, split, counts, configure, now).Ok?
    ensures ConfigureAll(specs[i..], counts, configure).Ok?
    ensures StateTypes(BuildStates(specs, i, firstId, split, counts, configure, now).value)
      == Up.TypesOf(ConfigureAll(specs[i..], counts, configure).value)
    ensures StateTitles(BuildStates(specs, i, firstId, split, counts, configure, now).value)
      == Up.TitlesOf(ConfigureAll(specs[i..], counts, configure).value)
    decreases |specs| - i
  {
    if i < |specs| {
      var c := BuildStatesCons(specs, i, firstId, split, counts, configure, now);
      BuildStatesFollow(specs, i + 1, firstId, split, c.1, configure, now);
      var tail := BuildStates(specs, i + 1, firstId, split, c.1, configure, now).value;
      var rsTail := ConfigureAll(specs[i + 1..], c.1, configure).value;
      assert specs[i..][0] == specs[i] && specs[i..][1..] == specs[i + 1..];
      assert ConfigureAll(specs[i..], counts, configure).value == [c.0] + rsTail;
      var ps := BuildStates(specs, i, firstId, split, counts, configure, now).value;
      assert ps == [ps[0]] + tail;
      StatesCons(ps[0], tail, c.0, rsTail);
    }
  }

  /** The records agree with configuring the template's panes in one go:
      each record has the type and title `ConfigurePanes` gives its pane,
      so the per-type numbering proved for that holds here. */
  lemma BuildStatesConfigured(specs: seq<PaneSpec>, firstId: string, split: nat -> Result<string>,
                              reg: Registry, onPath: string -> bool, now: Time)
    requires BuildStates(specs, 0, firstId, split, map[], Configurer(reg, onPath), now).Ok?
    ensures Up.ConfigurePanes(specs, map[], reg, onPath).Ok?
    ensures StateTypes(BuildStates(specs, 0, firstId, split, map[], Configurer(reg, onPath), now).value)
      == Up.TypesOf(Up.ConfigurePanes(specs, map[], reg, onPath).value)
    ensures StateTitles(BuildStates(specs, 0, firstId, split, map[], Configurer(reg, onPath), now).value)
      == Up.TitlesOf(Up.ConfigurePanes(specs, map[], reg, onPath).value)
  {
    BuildStatesFollow(specs, 0, firstId, split, map[], Configurer(reg, onPath), now);
    assert specs[0..] == specs;
    ConfigureAllIsConfigurePanes(specs, map[], reg, onPath);
  }

  /** `Configurer` applied is `configurePaneSpec`. */
  lemma ConfigurerApplied(reg: Registry, onPath: string -> bool, spec: PaneSpec, counts: map<PaneType, nat>)
    ensures Configurer(reg, onPath)(spec, counts) == Up.ConfigurePane(spec, counts, reg, onPath)
  {
  }

  /** Types and titles of a record list and of a result list built up in
      step agree when the heads and the tails do. */
  lemma StatesCons(p: PaneState, ps: seq<PaneState>, r: Up.PaneResult, rs: seq<Up.PaneResult>)
    requires p.paneType == r.paneType && p.title == r.title
    requires StateTypes(ps) == Up.TypesOf(rs) && StateTitles(ps) == Up.TitlesOf(rs)
    ensures StateTypes([p] + ps) == Up.TypesOf([r] + rs)
    ensures StateTitles([p] + ps) == Up.TitlesOf([r] + rs)
  {
    assert |ps| == |rs|;
    assert forall k :: 0 < k <= |ps| ==> ([p] + ps)[k] == ps[k - 1] && ([r] + rs)[k] == rs[k - 1];
  }

  // ---------------------------------------------------------------------
  // ApplyTemplate

  /** `ApplyTemplate` once the session is known. Its inputs are the merged
      templates, the session's listed panes, whether `--force` was given,
      the outcome of the two border options, the successive splits, and
      what `replaceSessionState` needs. The result is the number of panes
      and the store written. */
  function ApplyTemplate(templates: map<string, Template>, name: string, listed: Result<seq<Pane>>, force: bool,
                         optionErr: Option<string>, split: nat -> Result<string>, reg: Registry,
                         onPath: string -> bool, loaded: Result<Store>, serverId: Result<string>,
                         session: string, path: string, created: Time, now: Time)
    : (r: Result<(nat, Store)>)
    ensures name !in templates ==> r.Err?
    ensures listed.Err? ==> r.Err?
    ensures listed.Ok? && |listed.value| > 0 && !force ==> r.Err?
    ensures listed.Ok? && |listed.value| == 0 ==> r.Err?
    ensures optionErr.Some? ==> r.Err?
    ensures r.Ok? ==> name in templates && listed.Ok? && |listed.value| > 0 && force && serverId.Ok?
    ensures r.Ok? ==> r.value.0 == |templates[name].panes| && r.value.0 > 0
    ensures r.Ok? ==> var states := BuildStates(templates[name].panes, 0, listed.value[0].id, split, map[], Configurer(reg, onPath), now);
      states.Ok? && r.value.1 == ReplaceSessionState(loaded, serverId, session, path, created, states.value).value
  {
    if name !in templates then Err("unknown template " + name)
    else if listed.Err? then Err(listed.error)
    else
      var panes := listed.value;
      if |panes| > 0 && !force then Err("session has " + NatDecimal(|panes|) + " panes; use --force to apply template")
      else if optionErr.Some? then Err(optionErr.value)
      else if |panes| == 0 then Err("session has no panes")
      else
        var tmpl := templates[name];
        // Indexing the first pane of an empty template is a runtime panic
        // in the program; here it is an error.
        if |tmpl.panes| == 0 then Err("index out of range")
        else
          var states := BuildStates(tmpl.panes, 0, panes[0].id, split, map[], Configurer(reg, onPath), now);
          if states.Err? then Err(states.error)
          else
            var st := ReplaceSessionState(loaded, serverId, session, path, created, states.value);
            if st.Err? then Err(st.error) else Ok((|states.value|, st.value))
  }

  /** A template that passes validation never reaches the empty-template
      panic. */
  lemma ValidTemplateHasPanes(templates: map<string, Template>, name: string)
    requires name in templates && ValidateTemplate(name, templates[name]).None?
    ensures |templates[name].panes| > 0
  {
  }
}
