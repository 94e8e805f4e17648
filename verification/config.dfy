/** The configuration of internal/config: the global and per-repository
    settings, how a global file is laid over the built-in defaults, and the
    checks run on a loaded configuration. Errors are structured values
    rather than formatted messages. */
module Configuration {
  import opened Wrappers

  datatype ProviderConfig = ProviderConfig(command: string)

  datatype PaneSpec = PaneSpec(paneType: string, title: string)

  datatype Template = Template(description: string, panes: seq<PaneSpec>)

  datatype Config = Config(
    defaultPaneType: string,
    defaultTemplate: string,
    providers: map<string, ProviderConfig>,
    templates: map<string, Template>)

  /** The per-repository file: an optional session name and a layout. */
  datatype RepoConfig = RepoConfig(session: string, layout: seq<PaneSpec>)

  /** `DefaultConfig`: codex panes, the "duo" template, nothing else. */
  function DefaultConfig(): (c: Config)
    ensures c.defaultPaneType == "codex" && c.defaultTemplate == "duo"
    ensures |c.providers| == 0 && |c.templates| == 0
  {
    Config("codex", "duo", map[], map[])
  }

  // ---------------------------------------------------------------------
  // Merging.

  /** `Merge`: a missing base stands for the defaults; a missing overlay
      leaves the base as it is; otherwise each non-empty default of the
      overlay wins, and the maps are the union of both with the overlay's
      entries winning. The result is a new value, so neither input changes. */
  function Merge(base: Option<Config>, overlay: Option<Config>): (out: Config)
    ensures overlay.None? ==> out == base.GetOr(DefaultConfig())
    ensures overlay.Some? ==>
      && (overlay.value.defaultPaneType != "" ==> out.defaultPaneType == overlay.value.defaultPaneType)
      && (overlay.value.defaultPaneType == "" ==> out.defaultPaneType == base.GetOr(DefaultConfig()).defaultPaneType)
      && (overlay.value.defaultTemplate != "" ==> out.defaultTemplate == overlay.value.defaultTemplate)
      && (overlay.value.defaultTemplate == "" ==> out.defaultTemplate == base.GetOr(DefaultConfig()).defaultTemplate)
    ensures overlay.Some? ==>
      && out.providers.Keys == base.GetOr(DefaultConfig()).providers.Keys + overlay.value.providers.Keys
      && out.templates.Keys == base.GetOr(DefaultConfig()).templates.Keys + overlay.value.templates.Keys
      && (forall k :: k in overlay.value.providers ==> out.providers[k] == overlay.value.providers[k])
      && (forall k :: k in overlay.value.templates ==> out.templates[k] == overlay.value.templates[k])
      && (forall k :: k in out.providers && k !in overlay.value.providers ==>
            out.providers[k] == base.GetOr(DefaultConfig()).providers[k])
      && (forall k :: k in out.templates && k !in overlay.value.templates ==>
            out.templates[k] == base.GetOr(DefaultConfig()).templates[k])
  {
    var b := base.GetOr(DefaultConfig());
    if overlay.None? then b
    else
      var o := overlay.value;
      Config(
        if o.defaultPaneType != "" then o.defaultPaneType else b.defaultPaneType,
        if o.defaultTemplate != "" then o.defaultTemplate else b.defaultTemplate,
        b.providers + o.providers,
        b.templates + o.templates)
  }

  /** Laying a configuration over itself changes nothing, and an empty
      overlay is the same as none. */
  lemma MergeIdempotent(c: Config)
    ensures Merge(Some(c), Some(c)) == c
    ensures Merge(Some(c), Some(Config("", "", map[], map[]))) == c
    ensures Merge(None, None) == DefaultConfig()
  {
    assert c.providers + c.providers == c.providers;
    assert c.templates + c.templates == c.templates;
    var e := Config("", "", map[], map[]);
    assert c.providers + e.providers == c.providers;
    assert c.templates + e.templates == c.templates;
  }

  /** Layering is associative: merging a repository-level file over the
      merge of global over built-in equals merging the merge of the two
      files over the built-in. */
  lemma MergeAssociative(a: Config, b: Config, c: Config)
    ensures Merge(Some(Merge(Some(a), Some(b))), Some(c)) == Merge(Some(a), Some(Merge(Some(b), Some(c))))
  {
    UnionAssociative(a.providers, b.providers, c.providers);
    UnionAssociative(a.templates, b.templates, c.templates);
  }

  lemma UnionAssociative<K, V>(x: map<K, V>, y: map<K, V>, z: map<K, V>)
    ensures (x + y) + z == x + (y + z)
  {
  }

  // ---------------------------------------------------------------------
  // Validation.

  /** The pane types a configuration may name (the program's own "unknown"
      is not one of them, and case matters). */
  predicate ValidPaneType(t: string) {
    t == "codex" || t == "claude" || t == "shell"
  }

  datatype ConfigError =
    | BadDefaultPaneType(paneType: string)
    | BadProviderKey(key: string)
    | EmptyTemplate(name: string)
    | BadTemplatePane(name: string, index: nat, paneType: string)
    | EmptyLayout
    | BadLayoutPane(index: nat, paneType: string)

  /** The index of the first pane with an invalid type (the length when
      there is none). */
  function FirstBadPane(panes: seq<PaneSpec>): (i: nat)
    ensures i <= |panes|
    ensures forall j :: 0 <= j < i ==> ValidPaneType(panes[j].paneType)
    ensures i < |panes| ==> !ValidPaneType(panes[i].paneType)
    decreases |panes|
  {
    if |panes| == 0 || !ValidPaneType(panes[0].paneType) then 0
    else 1 + FirstBadPane(panes[1..])
  }

  predicate TemplateValid(t: Template) {
    |t.panes| > 0 && forall i :: 0 <= i < |t.panes| ==> ValidPaneType(t.panes[i].paneType)
  }

  /** `validateTemplate`: a template needs a pane, and every pane a valid
      type; the first offending pane is reported. */
  function ValidateTemplate(name: string, t: Template): (r: Option<ConfigError>)
    ensures r.None? <==> TemplateValid(t)
    ensures |t.panes| == 0 ==> r == Some(EmptyTemplate(name))
    ensures r.Some? && |t.panes| > 0 ==>
      r.value.BadTemplatePane? && r.value.name == name && r.value.index < |t.panes|
      && r.value.paneType == t.panes[r.value.index].paneType && !ValidPaneType(r.value.paneType)
      && forall j :: 0 <= j < r.value.index ==> ValidPaneType(t.panes[j].paneType)
  {
    if |t.panes| == 0 then Some(EmptyTemplate(name))
    else
      var i := FirstBadPane(t.panes);
      if i < |t.panes| then Some(BadTemplatePane(name, i, t.panes[i].paneType)) else None
  }

  /** The index in `order` of the first key `bad` holds for (the length
      when there is none). */
  function FirstBad(order: seq<string>, bad: string -> bool): (i: nat)
    ensures i <= |order|
    ensures forall j :: 0 <= j < i ==> !bad(order[j])
    ensures i < |order| ==> bad(order[i])
    decreases |order|
  {
    if |order| == 0 || bad(order[0]) then 0
    else 1 + FirstBad(order[1..], bad)
  }

  predicate GlobalValid(c: Config) {
    && (c.defaultPaneType == "" || ValidPaneType(c.defaultPaneType))
    && (forall k :: k in c.providers ==> ValidPaneType(k))
    && (forall n :: n in c.templates ==> TemplateValid(c.templates[n]))
  }

  /** `ValidateGlobal`, ranging over the provider keys and the templates in
      the given orders. A missing configuration is valid. The default
      pane type is checked first, then the provider keys, then the
      templates; the first problem met is reported. */
  function ValidateGlobal(cfg: Option<Config>, providerOrder: seq<string>, templateOrder: seq<string>)
    : (r: Option<ConfigError>)
    requires cfg.Some? ==> Enumerates(providerOrder, cfg.value.providers.Keys)
    requires cfg.Some? ==> Enumerates(templateOrder, cfg.value.templates.Keys)
    ensures r.None? <==> cfg.None? || GlobalValid(cfg.value)
    ensures cfg.Some? && cfg.value.defaultPaneType != "" && !ValidPaneType(cfg.value.defaultPaneType) ==>
      r == Some(BadDefaultPaneType(cfg.value.defaultPaneType))
    ensures r.Some? && r.value.BadProviderKey? ==>
      r.value.key in cfg.value.providers && !ValidPaneType(r.value.key)
    ensures r.Some? && (r.value.EmptyTemplate? || r.value.BadTemplatePane?) ==>
      r.value.name in cfg.value.templates
      && r == ValidateTemplate(r.value.name, cfg.value.templates[r.value.name])
      && forall k :: k in cfg.value.providers ==> ValidPaneType(k)
  {
    if cfg.None? then None
    else
      var c := cfg.value;
      if c.defaultPaneType != "" && !ValidPaneType(c.defaultPaneType) then Some(BadDefaultPaneType(c.defaultPaneType))
      else
        var i := FirstBad(providerOrder, k => !ValidPaneType(k));
        if i < |providerOrder| then Some(BadProviderKey(providerOrder[i]))
        else
          var j := FirstBad(templateOrder, n => n in c.templates && ValidateTemplate(n, c.templates[n]).Some?);
          if j < |templateOrder| then ValidateTemplate(templateOrder[j], c.templates[templateOrder[j]])
          else None
  }

  predicate LayoutValid(panes: seq<PaneSpec>) {
    |panes| > 0 && forall i :: 0 <= i < |panes| ==> ValidPaneType(panes[i].paneType)
  }

  /** `ValidateRepo`: a missing file is valid; a present one needs a
      non-empty layout whose panes all have valid types, and the first
      offending index is reported. */
  function ValidateRepo(rc: Option<RepoConfig>): (r: Option<ConfigError>)
    ensures r.None? <==> rc.None? || LayoutValid(rc.value.layout)
    ensures rc.Some? && |rc.value.layout| == 0 ==> r == Some(EmptyLayout)
    ensures r.Some? && r.value.BadLayoutPane? ==>
      r.value.index < |rc.value.layout| && r.value.paneType == rc.value.layout[r.value.index].paneType
      && !ValidPaneType(r.value.paneType)
      && forall j :: 0 <= j < r.value.index ==> ValidPaneType(rc.value.layout[j].paneType)
  {
    if rc.None? then None
    else if |rc.value.layout| == 0 then Some(EmptyLayout)
    else
      var i := FirstBadPane(rc.value.layout);
      if i < |rc.value.layout| then Some(BadLayoutPane(i, rc.value.layout[i].paneType)) else None
  }

  /** The built-in defaults pass the global check, and validity survives
      merging: two valid configurations merge into a valid one. */
  lemma MergePreservesValidity(base: Config, overlay: Config)
    requires GlobalValid(base) && GlobalValid(overlay)
    ensures GlobalValid(DefaultConfig())
    ensures GlobalValid(Merge(Some(base), Some(overlay)))
  {
  }
}
