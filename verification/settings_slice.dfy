/** The settings slice of the store (app/src/store/slices/settingsSlice.ts).
    Two of its actions also write the logger's module-level development flag,
    so an action maps the pair (slice state, logger) to a new pair. */
module SettingsSlice {
  import Logger

  datatype ThemeMode = Light | Dark | System

  datatype SettingsState = SettingsState(
    themeMode: ThemeMode,
    mockApiEnabled: bool,
    language: string,
    isDevelopmentMode: bool)

  /** The slice together with the logger module it keeps in step. */
  datatype Session = Session(settings: SettingsState, logger: Logger.Logger)

  /** The store's development flag and the logger's agree. */
  predicate InSync(w: Session) {
    w.settings.isDevelopmentMode == w.logger.devMode
  }

  /** `initialSettingsState`, and the logger as loaded, for a build whose
      `import.meta.env.DEV` is `dev`. */
  function Initial(dev: bool): (w: Session)
    ensures w.settings.themeMode == System && w.settings.language == "en"
    ensures w.settings.mockApiEnabled == dev && w.settings.isDevelopmentMode == dev
    ensures InSync(w) && w.logger.console == []
  {
    Session(SettingsState(System, dev, "en", dev), Logger.Init(dev))
  }

  /** `setThemeMode(mode)`: only the theme changes. */
  function SetThemeMode(w: Session, mode: ThemeMode): (r: Session)
    ensures r.settings.themeMode == mode
    ensures r.settings.mockApiEnabled == w.settings.mockApiEnabled
    ensures r.settings.language == w.settings.language
    ensures r.settings.isDevelopmentMode == w.settings.isDevelopmentMode
    ensures r.logger == w.logger
  {
    w.(settings := w.settings.(themeMode := mode))
  }

  /** `toggleMockApi()`: only the mock-API flag changes, to its negation. */
  function ToggleMockApi(w: Session): (r: Session)
    ensures r.settings.mockApiEnabled == !w.settings.mockApiEnabled
    ensures r.settings.themeMode == w.settings.themeMode
    ensures r.settings.language == w.settings.language
    ensures r.settings.isDevelopmentMode == w.settings.isDevelopmentMode
    ensures r.logger == w.logger
  {
    w.(settings := w.settings.(mockApiEnabled := !w.settings.mockApiEnabled))
  }

  /** `setLanguage(lang)`: only the language changes. */
  function SetLanguage(w: Session, lang: string): (r: Session)
    ensures r.settings.language == lang
    ensures r.settings.themeMode == w.settings.themeMode
    ensures r.settings.mockApiEnabled == w.settings.mockApiEnabled
    ensures r.settings.isDevelopmentMode == w.settings.isDevelopmentMode
    ensures r.logger == w.logger
  {
    w.(settings := w.settings.(language := lang))
  }

  /** `toggleDevelopmentMode()`: the store flag is negated and the logger is
      told the new value. */
  function ToggleDevelopmentMode(w: Session): (r: Session)
    ensures r.settings.isDevelopmentMode == !w.settings.isDevelopmentMode
    ensures r.logger.devMode == r.settings.isDevelopmentMode
    ensures r.logger.console == w.logger.console
    ensures r.settings.themeMode == w.settings.themeMode
    ensures r.settings.mockApiEnabled == w.settings.mockApiEnabled
    ensures r.settings.language == w.settings.language
  {
    var newDevMode := !w.settings.isDevelopmentMode;
    Session(w.settings.(isDevelopmentMode := newDevMode), Logger.SetDevMode(w.logger, newDevMode))
  }

  /** `setDevelopmentMode(isDev)`: both the store flag and the logger's are
      set, even when the store flag already has that value. */
  function SetDevelopmentMode(w: Session, isDev: bool): (r: Session)
    ensures r.settings.isDevelopmentMode == isDev && r.logger.devMode == isDev
    ensures r.logger.console == w.logger.console
    ensures r.settings.themeMode == w.settings.themeMode
    ensures r.settings.mockApiEnabled == w.settings.mockApiEnabled
    ensures r.settings.language == w.settings.language
  {
    Session(w.settings.(isDevelopmentMode := isDev), Logger.SetDevMode(w.logger, isDev))
  }

  // ---------------------------------------------------------------------------
  // Runs of actions

  datatype Action =
    | SetThemeModeAction(mode: ThemeMode)
    | ToggleMockApiAction
    | SetLanguageAction(lang: string)
    | ToggleDevelopmentModeAction
    | SetDevelopmentModeAction(isDev: bool)

  predicate IsDevModeAction(a: Action) {
    a.ToggleDevelopmentModeAction? || a.SetDevelopmentModeAction?
  }

  function Step(w: Session, a: Action): Session {
    match a
    case SetThemeModeAction(m) => SetThemeMode(w, m)
    case ToggleMockApiAction => ToggleMockApi(w)
    case SetLanguageAction(l) => SetLanguage(w, l)
    case ToggleDevelopmentModeAction => ToggleDevelopmentMode(w)
    case SetDevelopmentModeAction(b) => SetDevelopmentMode(w, b)
  }

  function Run(w: Session, actions: seq<Action>): Session
    decreases |actions|
  {
    if |actions| == 0 then w else Run(Step(w, actions[0]), actions[1..])
  }

  /** Only the two development-mode actions touch the logger, and no action
      writes to the console. */
  lemma StepLogger(w: Session, a: Action)
    ensures !IsDevModeAction(a) ==> Step(w, a).logger == w.logger
    ensures Step(w, a).logger.console == w.logger.console
  {
  }

  /** Every action keeps the two development flags in step; the
      development-mode actions re-establish it from any state. */
  lemma StepInSync(w: Session, a: Action)
    ensures InSync(w) ==> InSync(Step(w, a))
    ensures IsDevModeAction(a) ==> InSync(Step(w, a))
  {
  }

  /** From the initial state, the flags agree after any run of actions. */
  lemma {:induction false} RunInSync(w: Session, actions: seq<Action>)
    requires InSync(w)
    ensures InSync(Run(w, actions))
    decreases |actions|
  {
    if |actions| > 0 {
      StepInSync(w, actions[0]);
      RunInSync(Step(w, actions[0]), actions[1..]);
    }
  }

  lemma ReachableInSync(dev: bool, actions: seq<Action>)
    ensures InSync(Run(Initial(dev), actions))
  {
    RunInSync(Initial(dev), actions);
  }

  /** Toggling the mock API twice changes nothing. */
  lemma ToggleMockApiTwice(w: Session)
    ensures ToggleMockApi(ToggleMockApi(w)) == w
  {
  }

  /** Toggling development mode twice restores the store and, in sync, the
      logger too. */
  lemma ToggleDevelopmentModeTwice(w: Session)
    requires InSync(w)
    ensures ToggleDevelopmentMode(ToggleDevelopmentMode(w)) == w
  {
  }

  /** Setting development mode is idempotent, and on a state in sync where
      the flag already has the value it changes nothing. */
  lemma SetDevelopmentModeIdempotent(w: Session, isDev: bool)
    ensures SetDevelopmentMode(SetDevelopmentMode(w, isDev), isDev) == SetDevelopmentMode(w, isDev)
    ensures InSync(w) && w.settings.isDevelopmentMode == isDev ==> SetDevelopmentMode(w, isDev) == w
  {
  }
}
