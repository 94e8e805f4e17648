/** internal/cmd/add.go: the pane type named on the `add` command line. */
module CliAdd {
  import opened Wrappers
  import opened Text
  import opened Domain
  import PaneTypeFacts

  /** `parsePaneType`: exactly "codex", "claude" or "shell", spelled as
      is; no trimming, no case folding, and never "unknown". */
  function ParsePaneTypeExact(s: string): (r: Result<PaneType>)
    ensures r.Ok? <==> IsConcreteType(s)
    ensures r.Ok? ==> r.value == s && r.value != PaneUnknown
  {
    if s == "codex" then Ok(PaneCodex)
    else if s == "claude" then Ok(PaneClaude)
    else if s == "shell" then Ok(PaneShell)
    else Err("unknown pane type: " + s + " (use codex, claude, or shell)")
  }

  /** Whatever the command line accepts, the domain parser accepts with
      the same type. */
  lemma ExactAgreesWithDomain(s: string)
    requires ParsePaneTypeExact(s).Ok?
    ensures ParsePaneType(s) == ParsePaneTypeExact(s)
  {
    assert s[0] in "cs" && s[|s| - 1] in "xel";
    TrimSpaceUnchanged(s);
    LowerUnchanged(s);
  }

  /** The converse fails: the domain parser trims and folds case, the
      command line does not. */
  lemma ExactIsStricter()
    ensures ParsePaneTypeExact(" Shell ").Err? && ParsePaneType(" Shell ") == Ok(PaneShell)
  {
    PaneTypeFacts.ParsePaneTypeExamples();
    assert " Shell "[0] == ' ';
  }
}
