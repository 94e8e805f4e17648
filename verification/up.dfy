/** The decisions `agentpane up` makes before and while it builds a
    session (internal/app/up.go): the session name, the panes to create,
    their titles, and the layout. The tmux server, the terminal and the
    prompt answer are parameters. */
module Up {
  import opened Wrappers
  import opened Text
  import opened Domain
  import opened Providers
  import opened Configuration

  // ---------------------------------------------------------------------
  // Session names.

  predicate IsAlnum(c: char) {
    ('a' <= c <= 'z') || ('A' <= c <= 'Z') || ('0' <= c <= '9')
  }

  predicate IsNameRune(c: char) {
    IsAlnum(c) || c == '.' || c == '_' || c == '-'
  }

  /** The session-name expression `^[A-Za-z0-9][A-Za-z0-9._-]*$`. */
  predicate SessionNameOk(s: string) {
    |s| > 0 && IsAlnum(s[0]) && forall i :: 0 <= i < |s| ==> IsNameRune(s[i])
  }

  const FallbackName: string := "agentpane"

  lemma FallbackNameOk()
    ensures SessionNameOk(FallbackName) && FallbackName[|FallbackName| - 1] != '-'
  {
  }

  /** Each rune kept when it may appear in a name, otherwise turned into a
      '-'. */
  function NameRunes(s: string): (r: string)
    ensures |r| == |s|
    ensures forall i :: 0 <= i < |s| ==> (IsNameRune(s[i]) ==> r[i] == s[i]) && (!IsNameRune(s[i]) ==> r[i] == '-')
  {
    seq(|s|, i requires 0 <= i < |s| => if IsNameRune(s[i]) then s[i] else '-')
  }

  /** The first loop of `sanitizeSessionName`: the runes mapped as above,
      with an 'x' put in front of a leading '.', '_' or '-'. */
  function Mapped(s: string): (r: string)
    ensures |s| > 0 && (s[0] == '.' || s[0] == '_' || s[0] == '-') ==> r == "x" + NameRunes(s)
    ensures !(|s| > 0 && (s[0] == '.' || s[0] == '_' || s[0] == '-')) ==> r == NameRunes(s)
  {
    if |s| > 0 && (s[0] == '.' || s[0] == '_' || s[0] == '-') then "x" + NameRunes(s) else NameRunes(s)
  }

  /** `sanitizeSessionName`: map the runes, trim the dashes off both ends,
      and fall back to "agentpane" when nothing valid is left. The result
      is always a valid name that does not end in a dash. */
  function Sanitize(s: string): (r: string)
    ensures SessionNameOk(r)
    ensures r[|r| - 1] != '-'
    ensures SessionNameOk(TrimChar(Mapped(s), '-')) ==> r == TrimChar(Mapped(s), '-')
    ensures !SessionNameOk(TrimChar(Mapped(s), '-')) ==> r == FallbackName
  {
    FallbackNameOk();
    var out := TrimChar(Mapped(s), '-');
    if out == "" then FallbackName
    else if !SessionNameOk(out) then FallbackName
    else out
  }

  /** A valid name without a trailing dash is left alone. */
  lemma SanitizeKeepsTidyName(s: string)
    requires SessionNameOk(s) && s[|s| - 1] != '-'
    ensures Sanitize(s) == s
  {
    assert NameRunes(s) == s;
    assert Mapped(s) == s;
  }

  /** Sanitising twice is sanitising once. */
  lemma SanitizeIdempotent(s: string)
    ensures Sanitize(Sanitize(s)) == Sanitize(s)
  {
    SanitizeKeepsTidyName(Sanitize(s));
  }

  /** Runes outside the name alphabet become dashes: a space inside a name
      is replaced. */
  lemma SanitizeSpaceExample(a: string, b: string)
    requires SessionNameOk(a) && SessionNameOk(b) && b[|b| - 1] != '-'
    ensures Sanitize(a + " " + b) == a + "-" + b
  {
    var s := a + " " + b;
    var t := a + "-" + b;
    assert NameRunes(s) == t;
    assert Mapped(s) == t;
    assert SessionNameOk(t);
    assert TrimChar(t, '-') == t;
  }

  /** The name `up` starts from when none is given: a valid base is kept,
      anything else is sanitised. */
  function BaseName(base: string): (r: string)
    ensures SessionNameOk(r)
    ensures SessionNameOk(base) ==> r == base
  {
    if SessionNameOk(base) then base else Sanitize(base)
  }

  /** The candidate name with suffix `k`. */
  function SuffixedName(base: string, k: nat): string {
    base + "-" + Decimal(k)
  }

  /** `firstAvailableSuffix`, starting from a given suffix: the first
      candidate `name(i)` (i below 1000) that `hasSession` says is free. */
  function FirstAvailableFrom(base: string, name: nat -> string, hasSession: string -> Result<bool>, i: nat)
    : (r: Result<string>)
    requires 2 <= i <= 1000
    ensures r.Ok? ==> exists k :: (i <= k < 1000 && r.value == name(k)
      && hasSession(name(k)) == Ok(false)
      && (forall j :: i <= j < k ==> hasSession(name(j)) == Ok(true)))
    ensures (forall j :: i <= j < 1000 ==> hasSession(name(j)) == Ok(true)) ==> r.Err?
    decreases 1000 - i
  {
    if i == 1000 then Err("unable to find available session name for " + base)
    else
      var candidate := name(i);
      var found := hasSession(candidate);
      if found.Err? then Err(found.error)
      else if !found.value then Ok(candidate)
      else FirstAvailableFrom(base, name, hasSession, i + 1)
  }

  function FirstAvailableSuffix(base: string, hasSession: string -> Result<bool>): (r: Result<string>)
    ensures r.Ok? ==> exists k :: (2 <= k < 1000 && r.value == SuffixedName(base, k)
      && hasSession(SuffixedName(base, k)) == Ok(false)
      && (forall j :: 2 <= j < k ==> hasSession(SuffixedName(base, j)) == Ok(true)))
    ensures (forall j :: 2 <= j < 1000 ==> hasSession(SuffixedName(base, j)) == Ok(true)) ==> r.Err?
  {
    var name := (k: nat) => SuffixedName(base, k);
    assert forall k: nat :: name(k) == SuffixedName(base, k);
    FirstAvailableFrom(base, name, hasSession, 2)
  }

  /** The outcome of the collision prompt: the trimmed answer, or the
      suggestion for a blank one, provided it is a valid name. */
  function PromptedName(answer: Result<string>, suggestion: string): (r: Result<string>)
    ensures r.Ok? ==> SessionNameOk(r.value)
    ensures answer.Ok? && TrimSpace(answer.value) != "" && SessionNameOk(TrimSpace(answer.value)) ==>
      r == Ok(TrimSpace(answer.value))
    ensures answer.Ok? && TrimSpace(answer.value) == "" && SessionNameOk(suggestion) ==> r == Ok(suggestion)
    ensures answer.Err? ==> r == Err(answer.error)
    ensures answer.Ok? ==>
      (r.Ok? <==> SessionNameOk(if TrimSpace(answer.value) == "" then suggestion else TrimSpace(answer.value)))
  {
    if answer.Err? then Err(answer.error)
    else
      var name := TrimSpace(answer.value);
      var chosen := if name == "" then suggestion else name;
      if !SessionNameOk(chosen) then Err("invalid session name " + chosen) else Ok(chosen)
  }

  /** What the environment tells `resolveSessionName`. */
  datatype NameContext = NameContext(
    cwd: string,
    cwdBase: string,
    hasSession: string -> Result<bool>,
    sessionPath: string -> Result<string>,
    samePath: (string, string) -> bool,
    interactive: bool,
    answer: Result<string>)

  /** The existing session of that name was started in the current
      directory. */
  predicate ServesDirectory(name: string, ctx: NameContext) {
    ctx.sessionPath(name).Ok? && ctx.samePath(ctx.sessionPath(name).value, ctx.cwd)
  }

  /** `resolveSessionName`. An explicit name is used as it is when valid;
      otherwise the repository's session name or the directory's base
      name is made valid, reused when free or already serving this
      directory, and on a collision the user is asked (or, without a
      terminal, the command fails). Every name it returns is valid. */
  function ResolveSessionName(explicit: string, baseOverride: string, ctx: NameContext): (r: Result<string>)
    ensures r.Ok? ==> SessionNameOk(r.value)
    ensures explicit != "" ==> (r.Ok? <==> SessionNameOk(explicit)) && (r.Ok? ==> r.value == explicit)
    ensures explicit == "" && ctx.hasSession(BaseName(if baseOverride != "" then baseOverride else ctx.cwdBase)) == Ok(false) ==>
      r == Ok(BaseName(if baseOverride != "" then baseOverride else ctx.cwdBase))
    ensures explicit == "" && ctx.hasSession(BaseName(if baseOverride != "" then baseOverride else ctx.cwdBase)).Err? ==> r.Err?
    ensures explicit == "" && ctx.hasSession(BaseName(if baseOverride != "" then baseOverride else ctx.cwdBase)) == Ok(true) ==>
      (ServesDirectory(BaseName(if baseOverride != "" then baseOverride else ctx.cwdBase), ctx) ==>
         r == Ok(BaseName(if baseOverride != "" then baseOverride else ctx.cwdBase)))
    ensures explicit == "" && ctx.hasSession(BaseName(if baseOverride != "" then baseOverride else ctx.cwdBase)) == Ok(true) ==>
      (!ServesDirectory(BaseName(if baseOverride != "" then baseOverride else ctx.cwdBase), ctx) && !ctx.interactive ==> r.Err?)
    ensures var base := BaseName(if baseOverride != "" then baseOverride else ctx.cwdBase);
      var suggestion := FirstAvailableSuffix(base, ctx.hasSession);
      explicit == "" && ctx.hasSession(base) == Ok(true) && !ServesDirectory(base, ctx) && ctx.interactive ==>
        (suggestion.Err? ==> r == Err(suggestion.error))
        && (suggestion.Ok? ==> r == PromptedName(ctx.answer, suggestion.value))
  {
    if explicit != "" then
      if !SessionNameOk(explicit) then Err("invalid session name " + explicit) else Ok(explicit)
    else
      var base := BaseName(if baseOverride != "" then baseOverride else ctx.cwdBase);
      var found := ctx.hasSession(base);
      if found.Err? then Err(found.error)
      else if !found.value then Ok(base)
      else
        if ServesDirectory(base, ctx) then Ok(base)
        else if !ctx.interactive then Err("session " + base + " already exists")
        else
          var suggestion := FirstAvailableSuffix(base, ctx.hasSession);
          if suggestion.Err? then Err(suggestion.error)
          else PromptedName(ctx.answer, suggestion.value)
  }

  // ---------------------------------------------------------------------
  // Which panes to create.

  datatype PanesChoice =
    | Chosen(panes: seq<PaneSpec>)
    | UnknownTemplate(name: string, available: set<string>)
    | NothingResolved

  /** `resolvePanes`: an explicit template (which must exist), else a
      non-empty repository layout, else the default template if it
      exists, else nothing. */
  function ResolvePanes(merged: Config, repo: Option<RepoConfig>, explicitTemplate: string): (r: PanesChoice)
    ensures explicitTemplate != "" ==>
      (explicitTemplate in merged.templates ==> r == Chosen(merged.templates[explicitTemplate].panes))
      && (explicitTemplate !in merged.templates ==> r == UnknownTemplate(explicitTemplate, merged.templates.Keys))
    ensures explicitTemplate == "" && repo.Some? && |repo.value.layout| > 0 ==> r == Chosen(repo.value.layout)
    ensures r.Chosen? && explicitTemplate == "" && !(repo.Some? && |repo.value.layout| > 0) ==>
      merged.defaultTemplate in merged.templates && r.panes == merged.templates[merged.defaultTemplate].panes
    ensures r.NothingResolved? <==>
      explicitTemplate == "" && !(repo.Some? && |repo.value.layout| > 0)
      && (merged.defaultTemplate == "" || merged.defaultTemplate !in merged.templates)
  {
    if explicitTemplate != "" then
      if explicitTemplate !in merged.templates then UnknownTemplate(explicitTemplate, merged.templates.Keys)
      else Chosen(merged.templates[explicitTemplate].panes)
    else if repo.Some? && |repo.value.layout| > 0 then Chosen(repo.value.layout)
    else if merged.defaultTemplate != "" && merged.defaultTemplate in merged.templates then
      Chosen(merged.templates[merged.defaultTemplate].panes)
    else NothingResolved
  }

  /** The configuration loading starts from: the defaults, with the
      embedded templates as the template set. */
  function LoadedBase(builtins: map<string, Template>): (c: Config)
    ensures c.templates == builtins
    ensures (c.defaultPaneType, c.defaultTemplate) == (DefaultConfig().defaultPaneType, DefaultConfig().defaultTemplate)
    ensures c.providers == DefaultConfig().providers
  {
    DefaultConfig().(templates := builtins)
  }

  /** Loading validates the global file (`ValidateGlobal`) and the
      repository file (`ValidateRepo`) and lays the global file over the
      defaults and the embedded templates. Provided the embedded templates
      are valid themselves, whatever panes are then chosen form a non-empty
      list of valid pane types. */
  lemma ResolvedPanesValid(builtins: map<string, Template>, global: Option<Config>, repo: Option<RepoConfig>,
                           explicitTemplate: string)
    requires forall n :: n in builtins ==> TemplateValid(builtins[n])
    requires global.None? || GlobalValid(global.value)
    requires ValidateRepo(repo).None?
    ensures var r := ResolvePanes(Merge(Some(LoadedBase(builtins)), global), repo, explicitTemplate);
      r.Chosen? ==> |r.panes| > 0 && forall i :: 0 <= i < |r.panes| ==> ValidPaneType(r.panes[i].paneType)
  {
    var base := LoadedBase(builtins);
    assert GlobalValid(base);
    if global.Some? {
      MergePreservesValidity(base, global.value);
    }
    ChosenPanesValid(Merge(Some(base), global), repo, explicitTemplate);
  }

  /** Over a valid configuration and a valid repository file, a chosen
      pane list is non-empty with valid pane types. */
  lemma ChosenPanesValid(merged: Config, repo: Option<RepoConfig>, explicitTemplate: string)
    requires GlobalValid(merged) && ValidateRepo(repo).None?
    ensures var r := ResolvePanes(merged, repo, explicitTemplate);
      r.Chosen? ==> |r.panes| > 0 && forall i :: 0 <= i < |r.panes| ==> ValidPaneType(r.panes[i].paneType)
  {
  }

  // ---------------------------------------------------------------------
  // Configuring each pane.

  /** What `configurePaneSpec` settles for one pane. */
  datatype PaneResult = PaneResult(paneType: PaneType, title: string, fellBack: bool)

  /** `configurePaneSpec` without the tmux calls: the requested type must
      parse; the provider falls back to the shell when unavailable; the
      title comes from `TitleFor`. */
  function ConfigurePane(spec: PaneSpec, counts: map<PaneType, nat>, reg: Registry, onPath: string -> bool)
    : (r: Result<(PaneResult, map<PaneType, nat>)>)
    ensures ParsePaneType(spec.paneType).Err? ==> r.Err?
    ensures r.Ok? ==> ParsePaneType(spec.paneType).Ok?
    ensures r.Ok? && ParsePaneType(spec.paneType).Ok? ==>
      (r.value.0.fellBack <==> r.value.0.paneType != ParsePaneType(spec.paneType).value)
    ensures r.Ok? ==>
      (r.value.0.title, r.value.1) == TitleFor(spec.title, TitlePrefix(reg, r.value.0.paneType), counts, r.value.0.paneType)
  {
    var desired := ParsePaneType(spec.paneType);
    if desired.Err? then Err(desired.error)
    else
      var choice := GetWithFallback(reg, desired.value, onPath);
      if choice.0.None? then Err("unknown provider type: " + desired.value)
      else
        var actual := choice.1;
        assert choice.0.value.titlePrefix == TitlePrefix(reg, actual);
        var (title, counts') := TitleFor(spec.title, choice.0.value.titlePrefix, counts, actual);
        Ok((PaneResult(actual, title, actual != desired.value), counts'))
  }

  /** The title prefix a type's provider gives its panes. */
  function TitlePrefix(reg: Registry, t: PaneType): string {
    if t in reg.providers then reg.providers[t].titlePrefix else ""
  }

  /** A counter's value, zero when absent. */
  function Count(counts: map<PaneType, nat>, t: PaneType): nat {
    if t in counts then counts[t] else 0
  }

  /** The counters after one pane of type `t`: only an untitled pane
      moves its type's counter, and then by one. A pane is untitled when
      its title trims to nothing, that is, when it is blank
      (`TrimSpaceEmptyIffBlank`). */
  function Bump(specTitle: string, counts: map<PaneType, nat>, t: PaneType): (c: map<PaneType, nat>)
    ensures !IsBlank(specTitle) ==> c == counts
    ensures IsBlank(specTitle) ==> Count(c, t) == Count(counts, t) + 1
    ensures forall u :: u != t ==> Count(c, u) == Count(counts, u)
  {
    if !IsBlank(specTitle) then counts else counts[t := Count(counts, t) + 1]
  }

  /** The title of one pane: its own trimmed title when it has one;
      otherwise the type's counter goes up by one and the title is the
      prefix followed by the new count. */
  function TitleFor(specTitle: string, prefix: string, counts: map<PaneType, nat>, t: PaneType)
    : (r: (string, map<PaneType, nat>))
    ensures r.1 == Bump(specTitle, counts, t)
    ensures TrimSpace(specTitle) != "" ==> r.0 == TrimSpace(specTitle)
    ensures TrimSpace(specTitle) == "" ==> r.0 == prefix + Decimal(Count(r.1, t))
  {
    var title := TrimSpace(specTitle);
    TrimSpaceEmptyIffBlank(specTitle);
    var counts' := Bump(specTitle, counts, t);
    if title != "" then (title, counts') else (prefix + Decimal(Count(counts', t)), counts')
  }

  /** All panes in order, threading the counters; the first error stops. */
  function ConfigurePanes(specs: seq<PaneSpec>, counts: map<PaneType, nat>, reg: Registry, onPath: string -> bool)
    : (r: Result<seq<PaneResult>>)
    ensures r.Ok? ==> |r.value| == |specs|
    decreases |specs|
  {
    if |specs| == 0 then Ok([])
    else
      var first := ConfigurePane(specs[0], counts, reg, onPath);
      if first.Err? then Err(first.error)
      else
        var rest := ConfigurePanes(specs[1..], first.value.1, reg, onPath);
        if rest.Err? then Err(rest.error) else Ok([first.value.0] + rest.value)
  }

  /** The actual type of every configured pane. */
  function TypesOf(rs: seq<PaneResult>): (ts: seq<PaneType>)
    ensures |ts| == |rs| && forall k :: 0 <= k < |rs| ==> ts[k] == rs[k].paneType
  {
    seq(|rs|, k requires 0 <= k < |rs| => rs[k].paneType)
  }

  /** The titles `TitleFor` hands out along a layout once the actual types
      are known, threading the counters. */
  function Titles(specs: seq<PaneSpec>, types: seq<PaneType>, reg: Registry, counts: map<PaneType, nat>)
    : (r: seq<string>)
    requires |specs| == |types|
    ensures |r| == |specs|
    decreases |specs|
  {
    if |specs| == 0 then []
    else
      var step := TitleFor(specs[0].title, TitlePrefix(reg, types[0]), counts, types[0]);
      [step.0] + Titles(specs[1..], types[1..], reg, step.1)
  }

  /** The counter value each pane sees once its own step is taken. */
  function Numbers(specs: seq<PaneSpec>, types: seq<PaneType>, counts: map<PaneType, nat>): (r: seq<nat>)
    requires |specs| == |types|
    ensures |r| == |specs|
    decreases |specs|
  {
    if |specs| == 0 then []
    else
      var c := Bump(specs[0].title, counts, types[0]);
      [Count(c, types[0])] + Numbers(specs[1..], types[1..], c)
  }

  /** The title of every configured pane. */
  function TitlesOf(rs: seq<PaneResult>): (titles: seq<string>)
    ensures |titles| == |rs| && forall k :: 0 <= k < |rs| ==> titles[k] == rs[k].title
  {
    seq(|rs|, k requires 0 <= k < |rs| => rs[k].title)
  }

  /** Configuring the panes gives each the title `Titles` assigns it. */
  lemma {:induction false} ConfiguredTitles(specs: seq<PaneSpec>, counts: map<PaneType, nat>, reg: Registry,
                                            onPath: string -> bool, rs: seq<PaneResult>)
    requires ConfigurePanes(specs, counts, reg, onPath) == Ok(rs)
    ensures |rs| == |specs| && TitlesOf(rs) == Titles(specs, TypesOf(rs), reg, counts)
    decreases |specs|
  {
    if |specs| > 0 {
      var first := ConfigurePanesCons(specs, counts, reg, onPath, rs);
      ConfiguredTitles(specs[1..], first.1, reg, onPath, rs[1..]);
      var ts := TypesOf(rs);
      TypesOfTail(rs);
      var c := TitlesCons(specs, ts, reg, counts);
      TitlesStep(rs, Titles(specs, ts, reg, counts));
    }
  }

  /** The types of a non-empty run: the first pane's, then the rest's. */
  lemma TypesOfTail(rs: seq<PaneResult>)
    requires |rs| > 0
    ensures TypesOf(rs)[0] == rs[0].paneType && TypesOf(rs)[1..] == TypesOf(rs[1..])
  {
  }

  /** Titles agreeing with the first pane's and then with the rest's are
      the titles of the whole run. */
  lemma TitlesStep(rs: seq<PaneResult>, titles: seq<string>)
    requires |titles| == |rs| > 0
    requires titles[0] == rs[0].title && titles[1..] == TitlesOf(rs[1..])
    ensures TitlesOf(rs) == titles
  {
    var mine := TitlesOf(rs);
    assert mine[1..] == TitlesOf(rs[1..]);
    SameHeadTail(mine, titles);
  }

  /** Two sequences with the same head and the same tail are equal. */
  lemma SameHeadTail(a: seq<string>, b: seq<string>)
    requires |a| == |b| > 0 && a[0] == b[0] && a[1..] == b[1..]
    ensures a == b
  {
    assert a == [a[0]] + a[1..];
    assert b == [b[0]] + b[1..];
  }

  /** One step of `Titles`: the first pane's title, and the counters the
      rest are titled from. */
  lemma TitlesCons(specs: seq<PaneSpec>, types: seq<PaneType>, reg: Registry, counts: map<PaneType, nat>)
    returns (c: map<PaneType, nat>)
    requires |specs| == |types| > 0
    ensures (Titles(specs, types, reg, counts)[0], c) == TitleFor(specs[0].title, TitlePrefix(reg, types[0]), counts, types[0])
    ensures Titles(specs, types, reg, counts)[1..] == Titles(specs[1..], types[1..], reg, c)
  {
    var step := TitleFor(specs[0].title, TitlePrefix(reg, types[0]), counts, types[0]);
    c := step.1;
    assert Titles(specs, types, reg, counts) == [step.0] + Titles(specs[1..], types[1..], reg, c);
  }

  /** A successful run starts with the first pane's result and goes on
      with the rest under the counters that pane left behind. */
  lemma ConfigurePanesCons(specs: seq<PaneSpec>, counts: map<PaneType, nat>, reg: Registry,
                           onPath: string -> bool, rs: seq<PaneResult>)
    returns (first: (PaneResult, map<PaneType, nat>))
    requires ConfigurePanes(specs, counts, reg, onPath) == Ok(rs) && |specs| > 0
    ensures (first.0.title, first.1) == TitleFor(specs[0].title, TitlePrefix(reg, first.0.paneType), counts, first.0.paneType)
    ensures rs[0] == first.0 && ConfigurePanes(specs[1..], first.1, reg, onPath) == Ok(rs[1..])
  {
    first := ConfigurePane(specs[0], counts, reg, onPath).value;
  }

  /** The number of untitled panes of type `t` among the first `n`. */
  function AutoTitled(specs: seq<PaneSpec>, types: seq<PaneType>, t: PaneType, n: nat): nat
    requires n <= |specs| == |types|
  {
    if n == 0 then 0
    else AutoTitled(specs, types, t, n - 1) + (if IsBlank(specs[n - 1].title) && types[n - 1] == t then 1 else 0)
  }

  /** Untitled panes are numbered 1, 2, 3, … per actual type, in layout
      order: the i-th result's title is the prefix followed by the number
      of untitled panes of its type up to and including it. */
  lemma AutoTitlesNumbered(specs: seq<PaneSpec>, reg: Registry, onPath: string -> bool, rs: seq<PaneResult>, i: nat)
    requires ConfigurePanes(specs, map[], reg, onPath) == Ok(rs)
    requires i < |specs| && TrimSpace(specs[i].title) == ""
    ensures rs[i].title == TitlePrefix(reg, rs[i].paneType) + Decimal(AutoTitled(specs, TypesOf(rs), rs[i].paneType, i + 1))
  {
    TrimSpaceEmptyIffBlank(specs[i].title);
    ConfiguredTitles(specs, map[], reg, onPath, rs);
    assert rs[i].title == TitlesOf(rs)[i];
    TitlesNumbers(specs, TypesOf(rs), reg, map[], i);
    NumbersFromScratch(specs, TypesOf(rs), i, rs[i].paneType);
  }

  /** An untitled pane's title is its prefix and its number. */
  lemma {:induction false} TitlesNumbers(specs: seq<PaneSpec>, types: seq<PaneType>, reg: Registry,
                                         counts: map<PaneType, nat>, i: nat)
    requires |specs| == |types| && i < |specs| && IsBlank(specs[i].title)
    ensures Titles(specs, types, reg, counts)[i] == TitlePrefix(reg, types[i]) + Decimal(Numbers(specs, types, counts)[i])
    decreases i
  {
    var c := TitlesCons(specs, types, reg, counts);
    var c' := NumbersCons(specs, types, counts);
    if i > 0 {
      TitlesNumbers(specs[1..], types[1..], reg, c, i - 1);
      assert Titles(specs, types, reg, counts)[i] == Titles(specs, types, reg, counts)[1..][i - 1];
      assert Numbers(specs, types, counts)[i] == Numbers(specs, types, counts)[1..][i - 1];
    }
  }

  /** Numbering from no counters: the number of the i-th untitled pane is
      how many untitled panes of its type there are up to it. */
  lemma NumbersFromScratch(specs: seq<PaneSpec>, types: seq<PaneType>, i: nat, t: PaneType)
    requires |specs| == |types| && i < |specs| && IsBlank(specs[i].title) && types[i] == t
    ensures Numbers(specs, types, map[])[i] == AutoTitled(specs, types, t, i + 1)
  {
    NumbersCount(specs, types, map[], i, t);
  }

  /** The counting argument, from any starting counters. */
  lemma {:induction false} NumbersCount(specs: seq<PaneSpec>, types: seq<PaneType>, counts: map<PaneType, nat>,
                                        i: nat, t: PaneType)
    requires |specs| == |types| && i < |specs| && IsBlank(specs[i].title) && types[i] == t
    ensures Numbers(specs, types, counts)[i] == Count(counts, t) + AutoTitled(specs, types, t, i + 1)
    decreases i
  {
    if i == 0 {
      NumbersCountFirst(specs, types, counts, t);
    } else {
      var c := Bump(specs[0].title, counts, types[0]);
      var s1, t1 := specs[1..], types[1..];
      TailUntitled(specs, types, i, t);
      NumbersCount(s1, t1, c, i - 1, t);
      NumbersCountStep(specs, types, counts, i, t, c);
    }
  }

  lemma TailUntitled(specs: seq<PaneSpec>, types: seq<PaneType>, i: nat, t: PaneType)
    requires |specs| == |types| && 0 < i < |specs| && IsBlank(specs[i].title) && types[i] == t
    ensures IsBlank(specs[1..][i - 1].title) && types[1..][i - 1] == t
  {
    assert specs[1..][i - 1] == specs[i];
  }

  /** The first pane, when untitled, gets the next number of its type. */
  lemma NumbersCountFirst(specs: seq<PaneSpec>, types: seq<PaneType>, counts: map<PaneType, nat>, t: PaneType)
    requires |specs| == |types| > 0 && IsBlank(specs[0].title) && types[0] == t
    ensures Numbers(specs, types, counts)[0] == Count(counts, t) + AutoTitled(specs, types, t, 1)
  {
    var c := NumbersCons(specs, types, counts);
    assert AutoTitled(specs, types, t, 1) == 1;
  }

  /** The counting argument's step: the first pane moves the counter
      exactly when it is one of the panes counted. */
  lemma NumbersCountStep(specs: seq<PaneSpec>, types: seq<PaneType>, counts: map<PaneType, nat>, i: nat, t: PaneType,
                          c: map<PaneType, nat>)
    requires |specs| == |types| && 0 < i < |specs| && c == Bump(specs[0].title, counts, types[0])
    requires Numbers(specs[1..], types[1..], c)[i - 1] == Count(c, t) + AutoTitled(specs[1..], types[1..], t, i - 1 + 1)
    ensures Numbers(specs, types, counts)[i] == Count(counts, t) + AutoTitled(specs, types, t, i + 1)
  {
    var c' := NumbersCons(specs, types, counts);
    assert Numbers(specs, types, counts)[i] == Numbers(specs[1..], types[1..], c)[i - 1];
    AutoTitledShift(specs, types, t, i + 1);
    BumpCount(specs[0].title, counts, types[0], t);
  }

  /** The counter of type `t` after one pane of type `u`. */
  lemma BumpCount(specTitle: string, counts: map<PaneType, nat>, u: PaneType, t: PaneType)
    ensures Count(Bump(specTitle, counts, u), t)
      == Count(counts, t) + (if IsBlank(specTitle) && u == t then 1 else 0)
  {
  }

  /** One step of `Numbers`: the first pane's number, and the counters
      the rest are numbered from. */
  lemma NumbersCons(specs: seq<PaneSpec>, types: seq<PaneType>, counts: map<PaneType, nat>)
    returns (c: map<PaneType, nat>)
    requires |specs| == |types| > 0
    ensures c == Bump(specs[0].title, counts, types[0])
    ensures Numbers(specs, types, counts)[0] == Count(c, types[0])
    ensures Numbers(specs, types, counts)[1..] == Numbers(specs[1..], types[1..], c)
  {
    c := Bump(specs[0].title, counts, types[0]);
    assert Numbers(specs, types, counts) == [Count(c, types[0])] + Numbers(specs[1..], types[1..], c);
  }

  /** Counting over all but the first pane. */
  lemma {:induction false} AutoTitledShift(specs: seq<PaneSpec>, types: seq<PaneType>, t: PaneType, n: nat)
    requires 1 <= n <= |specs| == |types|
    ensures AutoTitled(specs, types, t, n)
      == (if IsBlank(specs[0].title) && types[0] == t then 1 else 0)
         + AutoTitled(specs[1..], types[1..], t, n - 1)
    decreases n
  {
    if n > 1 {
      AutoTitledShift(specs, types, t, n - 1);
    }
  }

  // ---------------------------------------------------------------------
  // Layout.

  /** Two panes sit side by side ("even-horizontal", split horizontally);
      any other count is tiled. */
  function LayoutFor(paneCount: nat): (layout: string)
    ensures layout == "even-horizontal" <==> paneCount == 2
    ensures layout == "even-horizontal" || layout == "tiled"
  {
    if paneCount == 2 then "even-horizontal" else "tiled"
  }
}
