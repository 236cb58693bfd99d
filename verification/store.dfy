/** The combined store (app/src/store/index.ts): the root state is the auth
    slice and the settings slice side by side, and the persistence options
    choose which of its fields are written to storage, under which key. */
module Store {
  import opened Wrappers
  import opened Json
  import opened Users
  import AuthSlice
  import SettingsSlice
  import Logger

  datatype RootState = RootState(auth: AuthSlice.AuthState, settings: SettingsSlice.SettingsState)

  /** `persistOptions.name`. */
  const StorageKey: string := "app-storage"

  /** What `partialize` keeps. */
  datatype Persisted = Persisted(
    isAuthenticated: bool,
    user: Option<UserProfile>,
    authToken: Option<string>,
    themeMode: SettingsSlice.ThemeMode,
    mockApiEnabled: bool,
    language: string)

  /** `persistOptions.partialize`: each persisted value is the live one; the
      status, the error and the development flag are not carried. */
  function Partialize(s: RootState): (p: Persisted)
    ensures p.isAuthenticated == s.auth.isAuthenticated && p.user == s.auth.user
    ensures p.authToken == s.auth.authToken
    ensures p.themeMode == s.settings.themeMode && p.mockApiEnabled == s.settings.mockApiEnabled
    ensures p.language == s.settings.language
  {
    Persisted(s.auth.isAuthenticated, s.auth.user, s.auth.authToken,
      s.settings.themeMode, s.settings.mockApiEnabled, s.settings.language)
  }

  /** Two states with the same persisted fields project alike, whatever
      their status, error and development flag. */
  lemma PartializeIgnoresTransient(s: RootState, t: RootState)
    requires s.auth.isAuthenticated == t.auth.isAuthenticated && s.auth.user == t.auth.user
    requires s.auth.authToken == t.auth.authToken
    requires s.settings.themeMode == t.settings.themeMode
    requires s.settings.mockApiEnabled == t.settings.mockApiEnabled
    requires s.settings.language == t.settings.language
    ensures Partialize(s) == Partialize(t)
  {
  }

  /** The status, error and development-mode actions never change what is
      persisted. */
  lemma BookkeepingNotPersisted(s: RootState, status: AuthSlice.AuthStatus, error: Option<string>,
                                log: Logger.Logger, isDev: bool)
    ensures Partialize(s.(auth := AuthSlice.SetAuthStatus(s.auth, status))) == Partialize(s)
    ensures Partialize(s.(auth := AuthSlice.SetAuthError(s.auth, error))) == Partialize(s)
    ensures Partialize(s.(settings :=
      SettingsSlice.ToggleDevelopmentMode(SettingsSlice.Session(s.settings, log)).settings)) == Partialize(s)
    ensures Partialize(s.(settings :=
      SettingsSlice.SetDevelopmentMode(SettingsSlice.Session(s.settings, log), isDev).settings)) == Partialize(s)
  {
  }

  // ---------------------------------------------------------------------------
  // The persisted text

  function ThemeName(m: SettingsSlice.ThemeMode): string {
    match m
    case Light => "light"
    case Dark => "dark"
    case System => "system"
  }

  function ThemeFromName(s: string): (r: Option<SettingsSlice.ThemeMode>)
    ensures r.Some? ==> ThemeName(r.value) == s
  {
    if s == "light" then Some(SettingsSlice.Light)
    else if s == "dark" then Some(SettingsSlice.Dark)
    else if s == "system" then Some(SettingsSlice.System)
    else None
  }

  function NullableUser(u: Option<UserProfile>): Json {
    if u.Some? then UserToJson(u.value) else JNull
  }

  function NullableText(t: Option<string>): Json {
    if t.Some? then JStr(t.value) else JNull
  }

  /** The persisted object's properties, in the order `partialize` lists them. */
  function PersistedFields(p: Persisted): seq<(string, Option<Json>)> {
    [("isAuthenticated", Some(JBool(p.isAuthenticated))),
     ("user", Some(NullableUser(p.user))),
     ("authToken", Some(NullableText(p.authToken))),
     ("themeMode", Some(JStr(ThemeName(p.themeMode)))),
     ("mockApiEnabled", Some(JBool(p.mockApiEnabled))),
     ("language", Some(JStr(p.language)))]
  }

  const PersistedKeys: seq<string> :=
    ["isAuthenticated", "user", "authToken", "themeMode", "mockApiEnabled", "language"]

  function PersistedToJson(p: Persisted): Json {
    JObj(Present(PersistedFields(p)))
  }

  lemma PersistedNames(p: Persisted)
    ensures Names(PersistedFields(p)) == PersistedKeys
  {
    var ns := Names(PersistedFields(p));
    assert |ns| == 6;
  }

  /** The persisted object has exactly the six keys of `partialize`, in
      order, each holding the live value. */
  lemma PersistedShape(p: Persisted)
    ensures PersistedToJson(p).JObj?
    ensures Keys(PersistedToJson(p).members) == PersistedKeys
    ensures forall i :: 0 <= i < 6 ==>
      PersistedToJson(p).members[i].value == PersistedFields(p)[i].1.value
  {
    var fs := PersistedFields(p);
    PresentAll(fs);
    KeysPresentAll(fs);
    PersistedNames(p);
  }

  function DecodeNullableUser(o: Option<Json>): Option<Option<UserProfile>> {
    match o
    case Some(JNull) => Some(None)
    case Some(j) => (if UserFromJson(j).Some? then Some(UserFromJson(j)) else None)
    case None => None
  }

  function DecodeNullableText(o: Option<Json>): Option<Option<string>> {
    match o
    case Some(JNull) => Some(None)
    case Some(JStr(t)) => Some(Some(t))
    case _ => None
  }

  function DecodeTheme(o: Option<Json>): Option<SettingsSlice.ThemeMode> {
    match o
    case Some(JStr(t)) => ThemeFromName(t)
    case _ => None
  }

  /** The persisted fields from their six looked-up properties. */
  function PersistedFromProperties(auth: Option<Json>, user: Option<Json>, token: Option<Json>,
                                   theme: Option<Json>, mock: Option<Json>, lang: Option<Json>)
    : Option<Persisted>
  {
    var auth := DecodeBool(auth);
    var user := DecodeNullableUser(user);
    var token := DecodeNullableText(token);
    var theme := DecodeTheme(theme);
    var mock := DecodeBool(mock);
    var lang := DecodeText(lang);
    if auth.None? || user.None? || token.None? || theme.None? || mock.None? || lang.None? then None
    else Some(Persisted(auth.value, user.value, token.value, theme.value, mock.value, lang.value))
  }

  function PersistedFromJson(j: Json): Option<Persisted> {
    if !j.JObj? then None
    else
      var ms := j.members;
      PersistedFromProperties(Lookup(ms, "isAuthenticated"), Lookup(ms, "user"),
        Lookup(ms, "authToken"), Lookup(ms, "themeMode"), Lookup(ms, "mockApiEnabled"),
        Lookup(ms, "language"))
  }

  /** An object that reads as a user is decoded as that user. */
  lemma DecodeUserObject(j: Json, u: UserProfile)
    requires UserFromJson(j) == Some(u)
    ensures DecodeNullableUser(Some(j)) == Some(Some(u))
  {
  }

  lemma NullableUserRoundTrip(u: Option<UserProfile>)
    ensures DecodeNullableUser(Some(NullableUser(u))) == Some(u)
  {
    if u.Some? {
      UserJsonRoundTrip(u.value);
      DecodeUserObject(UserToJson(u.value), u.value);
    }
  }

  lemma ThemeNameRoundTrip(m: SettingsSlice.ThemeMode)
    ensures ThemeFromName(ThemeName(m)) == Some(m)
  {
  }

  lemma FromPersistedFields(p: Persisted)
    ensures var fs := PersistedFields(p);
      PersistedFromProperties(fs[0].1, fs[1].1, fs[2].1, fs[3].1, fs[4].1, fs[5].1) == Some(p)
  {
    NullableUserRoundTrip(p.user);
    ThemeNameRoundTrip(p.themeMode);
    assert DecodeNullableText(Some(NullableText(p.authToken))) == Some(p.authToken);
  }

  /** The persisted object reads back as the same fields. */
  lemma PersistedJsonRoundTrip(p: Persisted)
    ensures PersistedFromJson(PersistedToJson(p)) == Some(p)
  {
    var fs := PersistedFields(p);
    var ms := PersistedToJson(p).members;
    assert DistinctKeys(fs);
    LookupPresent(fs, 0);
    LookupPresent(fs, 1);
    LookupPresent(fs, 2);
    LookupPresent(fs, 3);
    LookupPresent(fs, 4);
    LookupPresent(fs, 5);
    FromPersistedFields(p);
  }

  // ---------------------------------------------------------------------------
  // Saving and loading

  /** Writing the projection of `s` under the storage key. */
  function Save(storage: map<string, string>, s: RootState): (r: map<string, string>)
    ensures StorageKey in r
    ensures forall k :: k in storage && k != StorageKey ==> k in r && r[k] == storage[k]
    ensures forall k :: k in r ==> k == StorageKey || k in storage
  {
    storage[StorageKey := Stringify(PersistedToJson(Partialize(s)))]
  }

  /** Reading the saved projection back; `None` when nothing was saved or
      the text does not hold one. */
  function Load(storage: map<string, string>): Option<Persisted> {
    if StorageKey !in storage then None
    else
      match Parse(storage[StorageKey])
      case None => None
      case Some(j) => PersistedFromJson(j)
  }

  /** `{ ...current, ...persisted }`: the persisted fields replace the live
      ones and the rest of the state is kept. */
  function Rehydrate(s: RootState, p: Persisted): (r: RootState)
    ensures Partialize(r) == p
    ensures r.auth.authStatus == s.auth.authStatus && r.auth.authError == s.auth.authError
    ensures r.settings.isDevelopmentMode == s.settings.isDevelopmentMode
  {
    RootState(
      s.auth.(isAuthenticated := p.isAuthenticated, user := p.user, authToken := p.authToken),
      s.settings.(themeMode := p.themeMode, mockApiEnabled := p.mockApiEnabled, language := p.language))
  }

  /** Saving and loading gives back the projection of the saved state, and
      rehydrating a state with its own projection changes nothing. */
  lemma SaveLoad(storage: map<string, string>, s: RootState)
    ensures Load(Save(storage, s)) == Some(Partialize(s))
    ensures Rehydrate(s, Partialize(s)) == s
  {
    var p := Partialize(s);
    ParseStringifyRoundTrip(PersistedToJson(p));
    PersistedJsonRoundTrip(p);
  }

  /** A state rehydrated from a save carries the saved session and
      settings, with the start's own status, error and development flag. */
  lemma RestoreAfterReload(storage: map<string, string>, saved: RootState, start: RootState)
    ensures Load(Save(storage, saved)).Some?
    ensures var r := Rehydrate(start, Load(Save(storage, saved)).value);
      && Partialize(r) == Partialize(saved)
      && r.auth.authStatus == start.auth.authStatus
      && r.auth.authError == start.auth.authError
      && r.settings.isDevelopmentMode == start.settings.isDevelopmentMode
  {
    SaveLoad(storage, saved);
  }
}
