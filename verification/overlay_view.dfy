/** internal/tui/overlay/view.go: the list the status overlay shows, and
    the cutting of a line to the overlay's width. */
module OverlayView {
  import opened Wrappers
  import opened Text
  import opened Domain
  import OverlayToggle

  /** The two glyphs of the indicator. */
  const RunningGlyph: string := "●"
  const IdleGlyph: string := "○"

  /** `truncate`, on runes: nothing for a non-positive width; a line that
      fits is kept; otherwise the first `width` runes, or, with room for
      them, `width - 3` runes and "...". */
  function Truncate(s: string, width: int): (r: string)
    ensures width <= 0 ==> r == ""
    ensures width > 0 && |s| <= width ==> r == s
    ensures width > 0 ==> |r| <= width
    ensures width > 0 && |s| > width ==> |r| == width
    ensures 0 < width <= 3 && |s| > width ==> r == s[..width]
    ensures width > 3 && |s| > width ==> r[..width - 3] == s[..width - 3] && r[width - 3..] == "..."
  {
    if width <= 0 then ""
    else if |s| <= width then s
    else if width <= 3 then s[..width]
    else s[..width - 3] + "..."
  }

  /** Cutting twice to the same width cuts no further. */
  lemma TruncateIdempotent(s: string, width: int)
    ensures Truncate(Truncate(s, width), width) == Truncate(s, width)
  {
  }

  /** `paneIndicator`: filled for a running agent, hollow otherwise. */
  function PaneIndicator(status: AgentStatus): (r: string)
    ensures r == RunningGlyph <==> status == AgentRunning
    ensures r == RunningGlyph || r == IdleGlyph
  {
    if status == AgentRunning then RunningGlyph else IdleGlyph
  }

  /** `sessionStatusIndicator`: filled iff some pane runs an agent. */
  function SessionIndicator(panes: seq<Pane>): (r: string)
    ensures r == RunningGlyph <==> exists k :: 0 <= k < |panes| && panes[k].agentStatus == AgentRunning
    ensures r == RunningGlyph || r == IdleGlyph
    decreases |panes|
  {
    if |panes| == 0 then IdleGlyph
    else if panes[0].agentStatus == AgentRunning then RunningGlyph
    else
      var r := SessionIndicator(panes[1..]);
      assert forall k :: 0 < k < |panes| ==> panes[k] == panes[1..][k - 1];
      r
  }

  datatype ItemKind = SessionKind | PaneKind

  /** A line of the overlay. A pane line carries its pane. */
  datatype Item = Item(kind: ItemKind, session: string, pane: Option<Pane>, indicator: string)

  /** The overlay's own pane is hidden (its title compared trimmed). */
  predicate Hidden(p: Pane) {
    TrimSpace(p.title) == OverlayToggle.OverlayPaneTitle
  }

  /** The panes of a session that are listed, in order. */
  function VisiblePanes(panes: seq<Pane>): (r: seq<Pane>)
    ensures forall p :: p in r <==> p in panes && !Hidden(p)
    ensures |r| <= |panes|
    decreases |panes|
  {
    if |panes| == 0 then []
    else
      var rest := VisiblePanes(panes[1..]);
      assert forall p :: p in panes <==> p == panes[0] || p in panes[1..];
      (if Hidden(panes[0]) then [] else [panes[0]]) + rest
  }

  function PaneItems(session: string, panes: seq<Pane>): (r: seq<Item>)
    ensures |r| == |panes|
    ensures forall k :: 0 <= k < |panes| ==>
      r[k] == Item(PaneKind, session, Some(panes[k]), PaneIndicator(panes[k].agentStatus))
  {
    seq(|panes|, k requires 0 <= k < |panes| => Item(PaneKind, session, Some(panes[k]), PaneIndicator(panes[k].agentStatus)))
  }

  /** One session's lines: the session, judged by its listed panes, then
      those panes. */
  function SessionItems(s: Session): (r: seq<Item>)
    ensures |r| == 1 + |VisiblePanes(s.panes)|
    ensures r[0] == Item(SessionKind, s.name, None, SessionIndicator(VisiblePanes(s.panes)))
    ensures r[1..] == PaneItems(s.name, VisiblePanes(s.panes))
  {
    [Item(SessionKind, s.name, None, SessionIndicator(VisiblePanes(s.panes)))] + PaneItems(s.name, VisiblePanes(s.panes))
  }

  /** `buildItems`: session by session in snapshot order. */
  function BuildItems(sessions: seq<Session>): (r: seq<Item>)
    decreases |sessions|
  {
    if |sessions| == 0 then [] else SessionItems(sessions[0]) + BuildItems(sessions[1..])
  }

  /** The list of two runs of sessions is the two lists one after the
      other. */
  lemma {:induction false} BuildItemsAppend(a: seq<Session>, b: seq<Session>)
    ensures BuildItems(a + b) == BuildItems(a) + BuildItems(b)
    decreases |a|
  {
    if |a| == 0 {
      assert a + b == b;
    } else {
      assert (a + b)[0] == a[0] && (a + b)[1..] == a[1..] + b;
      BuildItemsAppend(a[1..], b);
    }
  }

  /** Every pane line carries a pane of a session of the snapshot that
      is not the overlay's own. */
  lemma {:induction false} PaneItemSound(sessions: seq<Session>, it: Item)
    requires it in BuildItems(sessions) && it.kind == PaneKind
    ensures it.pane.Some?
    ensures exists s :: s in sessions && s.name == it.session && it.pane.value in s.panes && !Hidden(it.pane.value)
    decreases |sessions|
  {
    var s0 := sessions[0];
    var head := SessionItems(s0);
    if it in head {
      var vis := VisiblePanes(s0.panes);
      var k :| 0 <= k < |head| && head[k] == it;
      assert head[k] == PaneItems(s0.name, vis)[k - 1];
      assert vis[k - 1] in vis;
    } else {
      PaneItemSound(sessions[1..], it);
      var s :| s in sessions[1..] && s.name == it.session && it.pane.value in s.panes && !Hidden(it.pane.value);
      assert s in sessions;
    }
  }

  /** Every pane of the snapshot other than the overlay's own is listed,
      under its session, with its indicator. */
  lemma {:induction false} PaneItemComplete(sessions: seq<Session>, s: Session, p: Pane)
    requires s in sessions && p in s.panes && !Hidden(p)
    ensures Item(PaneKind, s.name, Some(p), PaneIndicator(p.agentStatus)) in BuildItems(sessions)
    decreases |sessions|
  {
    var s0 := sessions[0];
    if s == s0 {
      var head := SessionItems(s0);
      var vis := VisiblePanes(s0.panes);
      assert p in vis;
      var k :| 0 <= k < |vis| && vis[k] == p;
      assert head[k + 1] == PaneItems(s0.name, vis)[k];
    } else {
      PaneItemComplete(sessions[1..], s, p);
    }
  }

  /** Every session of the snapshot gets a session line, marked running
      iff one of its listed panes runs an agent. */
  lemma {:induction false} BuildItemsSessions(sessions: seq<Session>, s: Session)
    requires s in sessions
    ensures Item(SessionKind, s.name, None, SessionIndicator(VisiblePanes(s.panes))) in BuildItems(sessions)
    decreases |sessions|
  {
    if sessions[0] != s {
      BuildItemsSessions(sessions[1..], s);
    }
  }
}
