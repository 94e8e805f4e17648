/** Properties of the pane-type helpers of internal/domain/helpers.go,
    together with the cases its tests pin down. */
module PaneTypeFacts {
  import opened Wrappers
  import opened Text
  import opened Domain

  /** When the command names an agent, the title plays no part. */
  lemma CommandDecidesBeforeTitle(command: string, title1: string, title2: string)
    requires CommandNamesAgent(command)
    ensures InferPaneType(command, title1) == InferPaneType(command, title2)
    ensures InferPaneType(command, title1) != PaneShell
  {
  }

  /** Unknown is the verdict exactly when neither the command nor the title
      names a type. */
  lemma InferUnknownIff(command: string, title: string)
    ensures InferPaneType(command, title) == PaneUnknown
        <==> !CommandNamesAgent(command) && !TitleNamesType(title)
  {
  }

  /** No string starts with two of the type names. */
  lemma TypePrefixesExclusive(t: string)
    ensures HasPrefix(t, "claude") ==> !HasPrefix(t, "codex")
    ensures HasPrefix(t, "shell") ==> !HasPrefix(t, "codex") && !HasPrefix(t, "claude")
  {
    if HasPrefix(t, "claude") {
      assert t[1] == "claude"[1];
    }
    if HasPrefix(t, "shell") {
      assert t[0] == "shell"[0];
    }
  }

  /** An agent-free command leaves the decision to the title's prefix. */
  lemma TitleDecidesOtherwise(command: string, title: string, prefix: string)
    requires !CommandNamesAgent(command)
    requires prefix == "codex" || prefix == "claude" || prefix == "shell"
    requires HasPrefix(Lower(TrimSpace(title)), prefix)
    ensures InferPaneType(command, title) == prefix
  {
    TypePrefixesExclusive(Lower(TrimSpace(title)));
  }

  lemma TrimPaddedShell()
    ensures TrimSpace(" Shell ") == "Shell"
  {
    assert " Shell " == " " + "Shell" + " ";
    TrimSpacePadded("Shell");
  }

  lemma LowerShell()
    ensures Lower("Shell") == "shell"
  {
    var k := Lower("Shell");
    assert k[0] == 's' && k[1] == 'h' && k[2] == 'e' && k[3] == 'l' && k[4] == 'l';
  }

  lemma BadIsNotAType()
    ensures !IsConcreteType("bad")
  {
    assert "bad"[0] == 'b';
  }

  lemma BadNormalised()
    ensures Lower(TrimSpace("bad")) == "bad"
  {
    TrimSpaceUnchanged("bad");
    LowerUnchanged("bad");
  }

  lemma ParsePaneTypeExamples()
    ensures ParsePaneType("codex") == Ok(PaneCodex)
    ensures ParsePaneType("bad").Err?
    ensures ParsePaneType(" Shell ") == Ok(PaneShell)
  {
    ParseCodex("codex");
    ParseBad("bad");
    ParsePaddedShell(" Shell ");
  }

  lemma ParseCodex(s: string)
    requires s == "codex"
    ensures ParsePaneType(s) == Ok(PaneCodex)
  {
    TrimSpaceUnchanged(s);
    LowerUnchanged(s);
    ParseNormalised(s, PaneCodex);
  }

  /** Input that trims and folds to a type name parses to that type. */
  lemma ParseNormalised(s: string, t: PaneType)
    requires Lower(TrimSpace(s)) == t && IsConcreteType(t)
    ensures ParsePaneType(s) == Ok(t)
  {
  }

  lemma ParseBad(s: string)
    requires s == "bad"
    ensures ParsePaneType(s).Err?
  {
    BadIsNotAType();
    BadNormalised();
  }

  lemma ParsePaddedShell(s: string)
    requires s == " Shell "
    ensures ParsePaneType(s) == Ok(PaneShell)
  {
    TrimPaddedShell();
    LowerShell();
    ParseNormalised(s, PaneShell);
  }

  lemma ZshNamesNoAgent()
    ensures !CommandNamesAgent("zsh")
  {
    LowerUnchanged("zsh");
  }

  lemma RandomNamesNoType()
    ensures !TitleNamesType("random")
  {
    TrimSpaceUnchanged("random");
    LowerUnchanged("random");
    assert "random"[0] == 'r';
  }

  lemma InferCodexCommand()
    ensures InferPaneType("codex", "") == PaneCodex
  {
    LowerUnchanged("codex");
    assert OccursAt(Lower("codex"), "codex", 0);
  }

  /** The title is a parameter so that the verifier reasons about it
      rather than evaluating the literal. */
  lemma ClaudeNumberedTitle(title: string)
    requires title == "claude-1"
    ensures InferPaneType("zsh", title) == PaneClaude
  {
    ZshNamesNoAgent();
    TrimSpaceUnchanged(title);
    LowerUnchanged(title);
    assert title[..6] == "claude";
    TitleDecidesOtherwise("zsh", title, "claude");
  }

  lemma InferClaudeTitle()
    ensures InferPaneType("zsh", "claude-1") == PaneClaude
  {
    ClaudeNumberedTitle("claude-1");
  }

  lemma InferUnknownTitle()
    ensures InferPaneType("zsh", "random") == PaneUnknown
  {
    ZshNamesNoAgent();
    RandomNamesNoType();
    InferUnknownIff("zsh", "random");
  }

  /** The cases of internal/domain/helpers_test.go. */
  lemma InferPaneTypeExamples()
    ensures InferPaneType("codex", "") == PaneCodex
    ensures InferPaneType("zsh", "claude-1") == PaneClaude
    ensures InferPaneType("zsh", "random") == PaneUnknown
  {
    InferCodexCommand();
    InferClaudeTitle();
    InferUnknownTitle();
  }
}
