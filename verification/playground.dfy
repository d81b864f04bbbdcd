/** The playground coordinator: configuration defaults, the initial theme, the Ctrl+t
    shortcut, and the default component registrations made at start-up. */
module Playground {
  import opened Wrappers
  import Theme
  import InsertionMap
  import ComponentRegistry
  import ExperimentRunner
  import PlaygroundUi

  datatype ThemeSetting = LightTheme | DarkTheme | AutoTheme

  datatype Config = Config(theme: ThemeSetting, enableExperiments: bool, enableComponents: bool, enableLiveEdit: bool)

  /** A `Partial<PlaygroundConfig>`: each field may be left out. */
  datatype PartialConfig = PartialConfig(
    theme: Option<ThemeSetting>,
    enableExperiments: Option<bool>,
    enableComponents: Option<bool>,
    enableLiveEdit: Option<bool>)

  const Defaults: Config := Config(AutoTheme, true, true, true)

  /** The constructor's `{ ...defaults, ...config }`: every supplied field overrides its
      default, every omitted field keeps it. */
  function WithDefaults(p: PartialConfig): (c: Config)
    ensures p.theme.Some? ==> c.theme == p.theme.value
    ensures p.theme.None? ==> c.theme == AutoTheme
    ensures p.enableExperiments.Some? ==> c.enableExperiments == p.enableExperiments.value
    ensures p.enableExperiments.None? ==> c.enableExperiments
    ensures p.enableComponents.Some? ==> c.enableComponents == p.enableComponents.value
    ensures p.enableComponents.None? ==> c.enableComponents
    ensures p.enableLiveEdit.Some? ==> c.enableLiveEdit == p.enableLiveEdit.value
    ensures p.enableLiveEdit.None? ==> c.enableLiveEdit
  {
    Config(
      p.theme.GetOr(Defaults.theme),
      p.enableExperiments.GetOr(Defaults.enableExperiments),
      p.enableComponents.GetOr(Defaults.enableComponents),
      p.enableLiveEdit.GetOr(Defaults.enableLiveEdit))
  }

  /** A configuration supplied in full comes back unchanged; an empty one gives the
      defaults. */
  lemma WithDefaultsExtremes(c: Config)
    ensures WithDefaults(PartialConfig(Some(c.theme), Some(c.enableExperiments), Some(c.enableComponents), Some(c.enableLiveEdit))) == c
    ensures WithDefaults(PartialConfig(None, None, None, None)) == Defaults
  {
  }

  /** `setupTheme`: the `data-theme` value chosen at start-up; `prefersDark` is whether the
      `(prefers-color-scheme: dark)` media query matches. */
  function InitialTheme(setting: ThemeSetting, prefersDark: bool): (t: string)
    ensures t == Theme.Light || t == Theme.Dark
    ensures setting == AutoTheme ==> (t == Theme.Dark <==> prefersDark)
    ensures setting == LightTheme ==> t == Theme.Light
    ensures setting == DarkTheme ==> t == Theme.Dark
  {
    match setting
    case AutoTheme => if prefersDark then Theme.Dark else Theme.Light
    case LightTheme => Theme.Light
    case DarkTheme => Theme.Dark
  }

  datatype KeyEvent = KeyEvent(ctrlKey: bool, key: string)

  /** The document-level `keydown` listener: the root's theme attribute afterwards, and
      whether the default action was prevented. */
  datatype KeyOutcome = KeyOutcome(theme: Option<string>, prevented: bool)

  function OnKeyDown(theme: Option<string>, e: KeyEvent): (r: KeyOutcome)
    ensures r.prevented <==> e.ctrlKey && e.key == "t"
    ensures r.prevented ==> r.theme == Some(Theme.Toggle(theme))
    ensures !r.prevented ==> r.theme == theme
  {
    if e.ctrlKey && e.key == "t" then KeyOutcome(Some(Theme.Toggle(theme)), true)
    else KeyOutcome(theme, false)
  }

  /** Ctrl+t twice in a row restores a light or dark theme. */
  lemma ShortcutTwiceRestores(t: string)
    requires t == Theme.Light || t == Theme.Dark
    ensures var e := KeyEvent(true, "t");
            OnKeyDown(OnKeyDown(Some(t), e).theme, e).theme == Some(t)
  {
    Theme.ToggleTwiceRestores(t);
  }

  /** The default components' modules, standing for what `import('./components/...')`
      resolves to. */
  datatype ComponentModule = ButtonModule | CardModule | ModalModule

  const ButtonFactory := ComponentRegistry.Factory(0, ButtonModule)
  const CardFactory := ComponentRegistry.Factory(1, CardModule)
  const ModalFactory := ComponentRegistry.Factory(2, ModalModule)

  /** The registry after `registerDefaultComponents`: the three default components in
      registration order. */
  function DefaultRegistry(): (reg: ComponentRegistry.Registry<ComponentModule>)
    ensures ComponentRegistry.Valid(reg)
    ensures ComponentRegistry.RegisteredComponents(reg) == ["button", "card", "modal"]
  {
    ComponentRegistry.Registry(InsertionMap.IMap(
      ["button", "card", "modal"],
      map["button" := ButtonFactory, "card" := CardFactory, "modal" := ModalFactory]))
  }

  /** The registry holding the first `n` default components. */
  function DefaultPrefix(n: nat): ComponentRegistry.Registry<ComponentModule>
    requires 1 <= n <= 2
  {
    if n == 1 then ComponentRegistry.Registry(InsertionMap.IMap(["button"], map["button" := ButtonFactory]))
    else ComponentRegistry.Registry(InsertionMap.IMap(["button", "card"], map["button" := ButtonFactory, "card" := CardFactory]))
  }

  lemma RegisterButton()
    ensures ComponentRegistry.Register(ComponentRegistry.Empty(), "button", ButtonFactory) == DefaultPrefix(1)
  {
  }

  lemma RegisterCard()
    ensures ComponentRegistry.Register(DefaultPrefix(1), "card", CardFactory) == DefaultPrefix(2)
  {
  }

  lemma RegisterModal()
    ensures ComponentRegistry.Register(DefaultPrefix(2), "modal", ModalFactory) == DefaultRegistry()
  {
  }

  /** `registerDefaultComponents` on the playground's new, empty registry: registering
      button, card and modal in turn yields exactly that registry. */
  lemma RegisterDefaultComponents()
    ensures var r1 := ComponentRegistry.Register(ComponentRegistry.Empty(), "button", ButtonFactory);
            var r2 := ComponentRegistry.Register(r1, "card", CardFactory);
            ComponentRegistry.Register(r2, "modal", ModalFactory) == DefaultRegistry()
  {
    RegisterButton();
    RegisterCard();
    RegisterModal();
  }

  /** Each default component loads its own module, and any other name is not found. */
  lemma DefaultComponentsLoad(name: string)
    ensures ComponentRegistry.LoadComponent(DefaultRegistry(), "button", Completes).result == Ok(ButtonModule)
    ensures ComponentRegistry.LoadComponent(DefaultRegistry(), "card", Completes).result == Ok(CardModule)
    ensures ComponentRegistry.LoadComponent(DefaultRegistry(), "modal", Completes).result == Ok(ModalModule)
    ensures name !in ["button", "card", "modal"] ==>
              ComponentRegistry.LoadComponent(DefaultRegistry(), name, Completes).result == Err(ComponentRegistry.NotFound(name))
  {
  }

  /** A playground after construction; `doc` is the document root the playground and its
      UI both act on. */
  datatype State = State(
    config: Config,
    registry: ComponentRegistry.Registry<ComponentModule>,
    runner: ExperimentRunner.Runner,
    doc: PlaygroundUi.Doc)

  /** The constructor followed by `initialize`: defaults applied, the theme set, the
      default components registered, and no experiment registered or active. */
  function Create(p: PartialConfig, prefersDark: bool): (s: State)
    ensures s.config == WithDefaults(p)
    ensures s.doc.theme == Some(InitialTheme(s.config.theme, prefersDark))
    ensures ComponentRegistry.Valid(s.registry)
    ensures s.registry == DefaultRegistry()
    ensures ComponentRegistry.RegisteredComponents(s.registry) == ["button", "card", "modal"]
    ensures ExperimentRunner.Inv(s.runner) && s.runner.active == None && s.runner.experiments.order == []
  {
    var config := WithDefaults(p);
    State(config, DefaultRegistry(), ExperimentRunner.Empty(),
          PlaygroundUi.Doc(Some(InitialTheme(config.theme, prefersDark)), map[]))
  }

  /** A key press on a running playground. */
  function KeyDown(s: State, e: KeyEvent): (s': State)
    ensures s'.doc.theme == OnKeyDown(s.doc.theme, e).theme
    ensures s'.doc.style == s.doc.style
    ensures s'.config == s.config && s'.registry == s.registry && s'.runner == s.runner
  {
    s.(doc := s.doc.(theme := OnKeyDown(s.doc.theme, e).theme))
  }

  /** The Ctrl+t shortcut and the header's theme button change the document alike. */
  lemma ShortcutMatchesButton(s: State)
    ensures KeyDown(s, KeyEvent(true, "t")).doc == PlaygroundUi.ClickThemeToggle(s.doc)
  {
  }
}
