# CoDirector platform core, modelled in Dafny

This project models the deterministic core of the CoDirector web app and
its tooling scripts, and proves properties of that model. It covers:

- **State slices.** The authentication slice, the settings slice and the
  logger's development-mode flag are kept as pure `State -> State`
  functions. The store's `partialize` projection and its round trip
  through the `app-storage` entry are modelled too.
- **Mock backend.** The mock API client is a two-slot machine over the
  stored user and token. Each call is one atomic step that returns an
  `ApiResponse`-shaped success or error.
- **Pure helpers.** These are the validators, the text and duration
  formatters, `isEmpty`, `deepClone` and `safeJsonParse`. The
  `localStorage` wrapper works over a `map<string, string>`, with the
  storage fault given as a parameter.
- **File headers.** Five pieces of the tooling share one header layout:
  - the lint config's `moduleName`;
  - the lint header template;
  - `create-file.js`, which builds a new file with a header;
  - `update-headers.js`, which refreshes the header of an existing file;
  - the `YYYY-MM-DD HH:MM ET` timestamp they all write.

`JSON.stringify` and `JSON.parse` are given concrete definitions (`Json`)
that follow the grammar of section 25.5 of ECMA-262, restricted to integer
numbers. The parser skips white space around every token, refuses leading
zeros and raw control characters in strings, and reads every escape,
including `\u` escapes and surrogate pairs. Stringify escapes `"`, `\` and
control characters as `JSON.stringify` does. The model proves that parsing
a stringified value, with any white space around it, gives the value back,
rather than assuming it. Node's `path`
functions that the scripts call are modelled for POSIX paths (`Posix`).

Files, one module each:

- `wrappers.dfy`, `strings.dfy`: `Option`, plus the string helpers:
  - decimal digits;
  - the UTF-16 length JavaScript's `.length` reports;
  - split, join and trim;
  - ASCII case.
- `json.dfy`: JSON values, stringify with its escapes, parse and member lookup.
- `users.dfy`: `UserProfile`, the `Partial<UserProfile>` merge, and the
  profile's JSON form.
- `auth_slice.dfy`, `settings_slice.dfy`, `logger.dfy`, `store.dfy`: the
  store.
- `mock_api.dfy`: the mock backend.
- `validators.dfy`, `formatters.dfy`, `common.dfy`, `local_storage.dfy`:
  the helpers.
- `paths.dfy`: the lint `moduleName`, plus the template's file name and
  module path.
- `posix.dfy`: `path.basename`, `dirname`, `extname`, `isAbsolute`, and
  `join` with the normalisation it performs (`.` and `..` segments are
  resolved by an internal segment walk).
- `timestamps.dfy`, `header_template.dfy`, `create_file.dfy`,
  `update_headers.dfy`: the header tooling.

## Model

| member | source | states |
|---|---|---|
| AuthSlice.Initial | app/src/store/slices/authSlice.ts:17-23 | The initial state is signed out: not authenticated, no user, no token, status `idle`, no error. It satisfies "authenticated iff a user is present". |
| AuthSlice.TokenOrNull | app/src/store/slices/authSlice.ts:43 | `authToken \|\| null` keeps a token exactly when it is present and non-empty. |
| AuthSlice.LoginSuccess | app/src/store/slices/authSlice.ts:39-47 | Login sets authenticated, stores the user, sets status `succeeded` and clears the error. It keeps the token iff the token is non-empty, and the invariant holds afterwards. |
| AuthSlice.Logout | app/src/store/slices/authSlice.ts:49-54 | From any state, logout yields a signed-out, consistent state. |
| AuthSlice.SetAuthStatus | app/src/store/slices/authSlice.ts:56-60 | Only `authStatus` changes; every other field keeps its value. |
| AuthSlice.SetAuthError | app/src/store/slices/authSlice.ts:62-69 | The error is stored. A non-empty message forces status `failed`; null or `''` leave the status alone. Nothing else changes. |
| AuthSlice.UpdateUserProfile | app/src/store/slices/authSlice.ts:71-77 | Without a user this is a no-op. With a user, the user becomes the merge of profile and update. The other four fields are unchanged. |
| AuthSlice.StepConsistent | app/src/store/slices/authSlice.ts:39-77 | Every action preserves "authenticated iff a user is present". |
| AuthSlice.RunConsistent | app/src/store/slices/authSlice.ts:39-77 | Any sequence of actions preserves the invariant. |
| AuthSlice.ReachableConsistent | app/src/store/slices/authSlice.ts:17-77 | Every state reachable from the initial state satisfies the invariant. |
| AuthSlice.LogoutResets | app/src/store/slices/authSlice.ts:49-54 | Logout from any two states gives the same state, the initial one. Logging out twice is the same as once. |
| AuthSlice.RunEndingInLogout | app/src/store/slices/authSlice.ts:49-54 | Any run of actions that ends in logout ends signed out. |
| AuthSlice.AuthenticatedWithoutToken | app/src/store/slices/authSlice.ts:39-47 | Login without a token, or with `''`, gives a session that is authenticated but holds a null token. The invariant does not imply a token. |
| AuthSlice.FailedWithoutError | app/src/store/slices/authSlice.ts:56-69 | Status `failed` can hold with no error: clearing the error after a failure keeps `failed`. |
| Users.MergeFields | app/src/store/slices/authSlice.ts:74 | In `{ ...user, ...updates }`, each field is the update's value where the update has one and the user's value otherwise. |
| Users.MergeNoChanges | app/src/store/slices/authSlice.ts:74 | The empty update leaves the profile as it is. |
| Users.MergeThen | app/src/store/slices/authSlice.ts:74 | Two updates in a row act as their combination, with the later one winning. Repeating an update changes nothing more. |
| Users.RoleFromName | app/src/types/user.ts:16 | A role read from a text is one whose name is that text. |
| Users.RoleNameRoundTrip | app/src/types/user.ts:16 | Every role reads back from its name. |
| Users.RolesToJson | app/src/types/user.ts:34 | The roles become JSON strings, one per role, in order. |
| Users.RolesRoundTrip | app/src/types/user.ts:34 | A role list read back from its JSON form is the same list. |
| Users.UserLookups | app/src/types/user.ts:22-45 | Every property of a profile's JSON object is found under its own name, with its own value. |
| Users.UserJsonRoundTrip | app/src/types/user.ts:22-45 | A profile written as a JSON object reads back as the same profile. This includes `undefined` optional properties and the free-form `preferences`. |
| SettingsSlice.Initial | app/src/store/slices/settingsSlice.ts:20-25 | The initial theme is `system` and the language `en`. The mock-API and development flags both equal the build flag, the logger is in sync, and the console is empty. |
| SettingsSlice.SetThemeMode | app/src/store/slices/settingsSlice.ts:41-45 | Only the theme changes; the other settings and the logger keep their values. |
| SettingsSlice.ToggleMockApi | app/src/store/slices/settingsSlice.ts:47-51 | The mock-API flag is negated; nothing else changes. |
| SettingsSlice.SetLanguage | app/src/store/slices/settingsSlice.ts:53-57 | Only the language changes. |
| SettingsSlice.ToggleDevelopmentMode | app/src/store/slices/settingsSlice.ts:59-65 | The development flag is negated and the logger flag is set to the new value. The console and the other settings are unchanged. |
| SettingsSlice.SetDevelopmentMode | app/src/store/slices/settingsSlice.ts:67-72 | Both the store field and the logger flag become the argument. Nothing else changes. |
| SettingsSlice.StepLogger | app/src/store/slices/settingsSlice.ts:41-57 | No action other than the two development-mode actions touches the logger. No action writes to the console. |
| SettingsSlice.StepInSync | app/src/store/slices/settingsSlice.ts:41-72 | Every action keeps the store flag equal to the logger flag. The two development-mode actions establish that equality from any state. |
| SettingsSlice.RunInSync | app/src/store/slices/settingsSlice.ts:41-72 | Any sequence of actions keeps the two flags equal. |
| SettingsSlice.ReachableInSync | app/src/store/slices/settingsSlice.ts:20-72 | Every reachable session has the two flags equal. |
| SettingsSlice.ToggleMockApiTwice | app/src/store/slices/settingsSlice.ts:47-51 | Toggling the mock API twice is the identity. |
| SettingsSlice.ToggleDevelopmentModeTwice | app/src/store/slices/settingsSlice.ts:59-65 | On an in-sync session, toggling development mode twice is the identity. |
| SettingsSlice.SetDevelopmentModeIdempotent | app/src/store/slices/settingsSlice.ts:67-72 | Setting the same development mode twice is the same as once. On an in-sync session already in that mode, it changes nothing. |
| Logger.Init | app/src/utils/logger.ts:15 | The logger starts with the given build flag and an empty console. |
| Logger.SetDevMode | app/src/utils/logger.ts:21-23 | The flag becomes the argument and the console is untouched. |
| Logger.Log | app/src/utils/logger.ts:29-53 | With the flag on, exactly one entry is appended: `[CoDirectorApp]`, then the arguments, at the call's level. With the flag off, nothing is appended. The flag never changes. |
| Logger.LogAllTrace | app/src/utils/logger.ts:29-53 | Over a sequence of calls, the flag is kept. With the flag off, the console is unchanged. With it on, the console grows by one entry per call, in call order, and keeps its old prefix. |
| Store.Partialize | app/src/store/index.ts:24-33 | The persisted record holds exactly the six fields. Each equals the corresponding live field. |
| Store.PartializeIgnoresTransient | app/src/store/index.ts:24-33 | Two states that agree on the six persisted fields persist the same record. Status, error and development mode are not persisted. |
| Store.BookkeepingNotPersisted | app/src/store/index.ts:24-33 | `setAuthStatus`, `setAuthError` and both development-mode actions leave the persisted record unchanged. |
| Store.PersistedShape | app/src/store/index.ts:24-33 | The persisted JSON is an object with exactly the keys `isAuthenticated`, `user`, `authToken`, `themeMode`, `mockApiEnabled` and `language`, in that order. Each holds its field's value. |
| Store.ThemeFromName | app/src/store/index.ts:30 | A theme read from a text is one whose name is that text. |
| Store.ThemeNameRoundTrip | app/src/store/index.ts:30 | Every theme mode reads back from its name. |
| Store.NullableUserRoundTrip | app/src/store/index.ts:27 | A user or `null`, written and read back, is what was written. |
| Store.PersistedJsonRoundTrip | app/src/store/index.ts:24-33 | The persisted record written as JSON reads back as the same record. |
| Store.Save | app/src/store/index.ts:21-33 | Saving writes the `app-storage` entry and leaves every other entry as it was. |
| Store.Rehydrate | app/src/store/index.ts:42-51 | Rehydrating puts the persisted fields back. Status, error and development mode stay as they are at start-up. |
| Store.SaveLoad | app/src/store/index.ts:21-33 | What was saved loads back as the state's projection. Rehydrating a state with its own projection changes nothing. |
| Store.RestoreAfterReload | app/src/store/index.ts:21-51 | After a reload, the six persisted fields are those of the saved state. The transient fields are those of the fresh start-up state. |
| MockApi.Login | app/src/services/api/mockApiClient.ts:37-75 | Exactly the fixed credentials succeed: 200, authenticated, the email echoed, the mock token, status `succeeded`, a token expiry one hour after now, a user created and updated now, and the user and token stored. Anything else gives `INVALID_CREDENTIALS` and 401, and the backend is unchanged. |
| MockApi.Logout | app/src/services/api/mockApiClient.ts:81-90 | Logout always succeeds with null data and 200, and clears both slots. |
| MockApi.RegisteredUser | app/src/services/api/mockApiClient.ts:114-123 | A new profile has the given email and an id of `user-<now>`. Its full name falls back to `New User` when missing or empty. It has roles `[viewer]`, is unverified and is active. |
| MockApi.Register | app/src/services/api/mockApiClient.ts:100-131 | The existing email gives `EMAIL_EXISTS` and 409, and the backend is untouched. Any other email returns 201 with the new profile, stores it, and leaves the token as it was. |
| MockApi.FetchUserProfile | app/src/services/api/mockApiClient.ts:138-153 | The call succeeds (200, the stored user) iff both a user and a non-empty token are held. Otherwise it gives `UNAUTHENTICATED` and 401. The backend never changes. |
| MockApi.ApplyWellFormed | app/src/services/api/mockApiClient.ts:37-153 | Every call keeps "a token is only held with a user, and it is the mock token". |
| MockApi.ApplyAllWellFormed | app/src/services/api/mockApiClient.ts:37-153 | Any sequence of calls keeps the backend well formed. |
| MockApi.FetchIffToken | app/src/services/api/mockApiClient.ts:138-153 | On a well-formed backend, fetching the profile succeeds iff a token is held. |
| MockApi.RegisterExistingAlwaysFails | app/src/services/api/mockApiClient.ts:106-113 | Any number of registrations with the existing email leave the backend unchanged. |
| MockApi.LoginFetchLogout | app/src/services/api/mockApiClient.ts:37-153 | After a good login, fetching gives the logged-in user. After a logout, fetching gives `UNAUTHENTICATED`. |
| MockApi.RegisterSwitchesIdentity | app/src/services/api/mockApiClient.ts:114-130 | Registering while logged in replaces the stored user and keeps the token. The profile fetched next is the new viewer. |
| MockApi.RegisterIssuesNoToken | app/src/services/api/mockApiClient.ts:114-130 | Registering from an empty backend stores a user but no token, so fetching the profile fails. |
| MockApi.LoginFeedsSlice | app/src/services/api/mockApiClient.ts:56-67 | Feeding a good login's response to `loginSuccess` gives a consistent, authenticated slice. It holds the mock token and the backend's user. |
| Validators.IsValidEmailIff | app/src/utils/validators/index.ts:14-17 | The email test accepts a text iff it is a non-empty run, `@`, a non-empty run, `.`, and a non-empty run. None of the runs holds whitespace or `@`. |
| Validators.EmailFromTest | app/src/utils/validators/index.ts:14-17 | Every accepted text has that shape. |
| Validators.TestFromEmail | app/src/utils/validators/index.ts:14-17 | Every text of that shape is accepted. |
| Strings.Utf16Length | app/src/utils/validators/index.ts:47 | The `.length` of a text lies between its character count and twice that, and equals the character count iff every character lies in the Basic Multilingual Plane. |
| Strings.UnitPrefix | app/src/utils/formatters/index.ts:107 | `substring(0, n)` keeps a prefix of the text whose UTF-16 length is at most `n`. |
| Strings.UnitPrefixLongest | app/src/utils/formatters/index.ts:107 | No longer prefix fits: adding the next character would exceed `n` code units. |
| Strings.UnitPrefixBmp | app/src/utils/formatters/index.ts:107 | On text inside the Basic Multilingual Plane, the cut is the first `n` characters. |
| Validators.Resolve | app/src/utils/validators/index.ts:35-41 | With no options the policy is length 8 with all four classes required. Each of the five options, when given, overrides its own default; each one not given keeps it. |
| Validators.ValidatePassword | app/src/utils/validators/index.ts:25-83 | The result is valid iff the password is non-empty, at least `minLength` UTF-16 code units long, and has every required class. The empty password reports `Password is required`. |
| Validators.PasswordLengthInCodeUnits | app/src/utils/validators/index.ts:47 | A six-character password with two emoji outside the Basic Multilingual Plane has length 8, so it passes the default policy. |
| Validators.FirstFailure | app/src/utils/validators/index.ts:43-82 | The result is no failure iff every check passes. Otherwise it is the message of the first failing check, and all checks before it pass. |
| Validators.ValidatePasswordFirstFailure | app/src/utils/validators/index.ts:43-82 | The password check reports the first failure of the fixed sequence: required, length, uppercase, lowercase, digit, special. |
| Validators.RelaxingKeepsValid | app/src/utils/validators/index.ts:47-80 | A password valid under a policy stays valid under a weaker one: a shorter minimum and fewer required classes. |
| Validators.ValidateRequired | app/src/utils/validators/index.ts:126-139 | Null, undefined and `''` give `<field> is required`. Whitespace-only text gives `<field> cannot be empty`. Everything else is valid. |
| Validators.RequiredAcceptsNumbersAndBooleans | app/src/utils/validators/index.ts:126-139 | Every number, including 0, and every boolean, including false, is valid. |
| Validators.ValidateNumberRange | app/src/utils/validators/index.ts:159-166 | Valid iff min ≤ value ≤ max. Otherwise the message is `<field> must be between <min> and <max>`. |
| Validators.ValidateStringLength | app/src/utils/validators/index.ts:177-204 | Valid iff the UTF-16 length of the trimmed value lies in the bounds. Too short is reported before too long, each with its message. |
| Validators.StringLengthIgnoresPadding | app/src/utils/validators/index.ts:187 | Padding a value with whitespace on both sides does not change whether its length is valid. |
| Formatters.TruncateText | app/src/utils/formatters/index.ts:98-108 | Empty text, or text whose UTF-16 length is within the limit (default 100), comes back unchanged. Otherwise the result is a prefix of the text that fits in `maxLength` code units, then the ellipsis (default `...`). |
| Formatters.TruncateKeepsPrefix | app/src/utils/formatters/index.ts:103-107 | The kept prefix is the longest that fits, and `...` follows it. On text inside the Basic Multilingual Plane it is exactly the first `maxLength` characters. |
| Formatters.ToTitleCaseChars | app/src/utils/formatters/index.ts:115-123 | The output has the input's length and its spaces in the same places. Each character is upper-cased at a word start and lower-cased elsewhere. |
| Formatters.ToTitleCaseWords | app/src/utils/formatters/index.ts:118-122 | The space-separated words of the output are the words of the lower-cased input, each with its first character upper-cased. |
| Formatters.ToTitleCaseIdempotent | app/src/utils/formatters/index.ts:115-123 | Title-casing twice is the same as once. |
| Formatters.Split4 | app/src/utils/formatters/index.ts:133-136 | The components satisfy hours < 24, minutes < 60, seconds < 60. Their total in ms is at most ms and less than that total plus 1000. |
| Formatters.FormatDuration | app/src/utils/formatters/index.ts:130-146 | A negative duration is `0s`, and the output is never empty. |
| Formatters.DurationPartsUnits | app/src/utils/formatters/index.ts:138-145 | Each part is a number followed by a unit of `d`, `h`, `m`, `s`, giving that component's amount. The units appear in that order. A unit is shown iff its component is non-zero, and seconds also when nothing else is shown. |
| Formatters.FormatDurationRoundTrip | app/src/utils/formatters/index.ts:130-146 | Reading the formatted text back gives the duration rounded down to whole seconds. |
| Formatters.DurationTotal | app/src/utils/formatters/index.ts:133-136 | The components add up to the duration minus its sub-second remainder. |
| Common.EmptinessCases | app/src/utils/common/index.ts:14-37 | Null and undefined are empty. Text and arrays are empty iff their length is 0, and objects iff they have no own keys. Numbers and booleans, including 0 and false, are defined and never empty. |
| Common.Get | app/src/utils/common/index.ts:128-132 | A property is found iff the object has that own key. |
| Common.Assign | app/src/utils/common/index.ts:130 | Assigning a new key appends it. Assigning an existing key keeps the keys and their order. |
| Common.AssignGet | app/src/utils/common/index.ts:130 | After the assignment, the key reads the new value and every other key reads what it did before. |
| Common.AssignDistinct | app/src/utils/common/index.ts:130 | Assignment keeps the own keys distinct. |
| Common.DeepClone | app/src/utils/common/index.ts:114-135 | Primitives and null come back unchanged. Arrays stay arrays of the same length, and objects stay objects. |
| Common.CloneIsIdentity | app/src/utils/common/index.ts:114-135 | On a well-formed value (distinct own keys throughout), the clone is equal to the original. |
| Common.CloneWellFormed | app/src/utils/common/index.ts:127-134 | A clone is always well formed, since the clone's keys are distinct. |
| Common.DeepCloneIdempotent | app/src/utils/common/index.ts:114-135 | Cloning a clone gives the clone. |
| Common.CloneKeepsEmptiness | app/src/utils/common/index.ts:23-37 | A clone is empty iff the original is. |
| Common.ToJsonFromJson | app/src/utils/common/index.ts:45-51 | A JSON-like value written as JSON and read back is the same value. |
| Common.SafeJsonParse | app/src/utils/common/index.ts:45-51 | Text that does not parse yields the supplied default. |
| Common.SafeJsonParseStringify | app/src/utils/common/index.ts:45-51 | Parsing the JSON text of a JSON-like value gives the value back. |
| Common.SafeJsonParseSpaced | app/src/utils/common/index.ts:45-51 | White space before and after the JSON text of a JSON-like value is skipped, and the value comes back. |
| Common.SafeJsonParseMalformed | app/src/utils/common/index.ts:45-51 | The empty text, `{`, and the leading-zero texts `01` and `[01]` yield the default. |
| LocalStorage.Serialize | app/src/utils/localStorage.ts:22 | Text is stored as it is, `undefined` as `undefined`, and everything else as its JSON text. |
| LocalStorage.SetItem | app/src/utils/localStorage.ts:20-28 | Without a fault, the key holds the serialized value and no other key changes. With a fault, storage is unchanged and one error is logged. |
| LocalStorage.GetItem | app/src/utils/localStorage.ts:39-61 | Storage is never changed. The cases are: a fault gives null and logs an error; an absent key gives null; text not starting with `{` or `[` comes back raw; otherwise the text is parsed, and on a parse failure the raw text comes back with a warning. |
| LocalStorage.RemoveItem | app/src/utils/localStorage.ts:69-75 | Without a fault, the key is gone and no other key changes. With a fault, storage is unchanged and one error is logged. |
| LocalStorage.RemoveAbsentIsNoOp | app/src/utils/localStorage.ts:69-75 | Removing an absent key changes nothing. |
| LocalStorage.RemoveThenGet | app/src/utils/localStorage.ts:39-75 | After a removal, reading the key gives null. |
| LocalStorage.SetGetPlainString | app/src/utils/localStorage.ts:22-56 | A string not starting with `{` or `[` reads back as itself. |
| LocalStorage.SetGetBracketString | app/src/utils/localStorage.ts:22-56 | The string `[1]` does not round-trip: it reads back as the array `[1]`. |
| LocalStorage.SetGetNumber | app/src/utils/localStorage.ts:22-56 | A number reads back as its decimal text, not as a number. |
| LocalStorage.SetGetStructured | app/src/utils/localStorage.ts:22-56 | A JSON-like array or object reads back as itself. |
| LocalStorage.MalformedComesBackRaw | app/src/utils/localStorage.ts:47-54 | Stored text that opens like JSON but does not parse comes back raw, with one warning logged. |
| LocalStorage.LeadingZeroComesBackRaw | app/src/utils/localStorage.ts:47-54 | Stored `[01]` opens like JSON but `JSON.parse` refuses its leading zero, so it comes back raw and a `SyntaxError` warning is logged. |
| LocalStorage.SetOtherKey | app/src/utils/localStorage.ts:20-61 | Setting one key does not change what another key reads. |
| LocalStorage.FaultsAreSilentInProduction | app/src/utils/localStorage.ts:24-74 | With the logger off, a faulting set or remove changes nothing, and a faulting get returns null. |
| Json.ParseStringifyRoundTrip | app/src/utils/localStorage.ts:22-49 | Parsing the JSON text of any value gives that value back. |
| Json.StringifyOpensWithBracket | app/src/utils/localStorage.ts:47 | The JSON text of a value starts with `[` or `{` iff the value is an array or an object. |
| Json.EscapeChar | app/src/utils/localStorage.ts:22 | A character is written as itself iff it is at least a space and neither `"` nor `\`. Quotes, backslashes and control characters are escaped. |
| Json.EscapeReadsBack | app/src/utils/localStorage.ts:22-49 | Every escape that stringify writes starts with `\`, and the parser reads it back as the original character. |
| Json.UnicodeEscapeReadsBack | app/src/utils/localStorage.ts:22-49 | The `\u00XX` escape of a control character, with lower-case hex digits, reads back as that character. |
| Json.ParseSpaced | app/src/utils/localStorage.ts:49 | White space before and after the JSON text of any value is skipped, and the value comes back. |
| Json.LeadingZeroRefused | app/src/utils/localStorage.ts:49 | A number token with a `0` followed by another digit is refused, with or without a minus sign. |
| Json.RawControlRefused | app/src/utils/localStorage.ts:49 | A string body that reaches a raw control character before its closing quote is refused. |
| Json.RawControlInLiteral | app/src/utils/localStorage.ts:49 | A JSON text whose string literal holds a raw control character does not parse. |
| Json.SpacedArrayExample | app/src/utils/localStorage.ts:49 | ` [1, 2] ` parses to the array holding 1 and 2. |
| Json.LeadingZeroExamples | app/src/utils/localStorage.ts:49 | `01`, `-01` and `[01]` do not parse. |
| Json.EscapeExamples | app/src/utils/localStorage.ts:49 | The escapes `\n`, `\u0041` and `\/` read as a line break, `A` and `/`. The surrogate pair `\ud83d\ude00` reads as the one character U+1F600. |
| Json.StringifyControlExample | app/src/utils/localStorage.ts:22 | A line break is written as `\n` and the escape character as `\u001b`. |
| Paths.SplitPath | app/.eslintrc.js:93 | Splitting on both `/` and `\` gives at least one segment, and no segment holds a separator. |
| Paths.SplitPathJoin | app/.eslintrc.js:93 | Joining the segments with `/` gives the path with every `\` turned into `/`. |
| Paths.LastIndexOf | app/.eslintrc.js:94 | The result is -1 iff the segment is absent. Otherwise it is the last position holding it. |
| Paths.ModuleNameSegments | app/.eslintrc.js:91-97 | Without a `src` segment the name is `unknown`. Otherwise the name splits back into the segments strictly between the last `src` and the file name. It is `''` for a file directly under that `src`. |
| Paths.ModuleNameOfSegments | app/.eslintrc.js:94-96 | The same, stated over the list of segments. |
| Paths.ModuleNameOfAfterLastSrc | app/.eslintrc.js:94-96 | With a `src` segment, the name joins a run of segments that holds no `src` and ends just before the file name. |
| Paths.FileName | app/.header-template.js:27 | The template's file name holds no separator. |
| Paths.FileNameIsLastSegment | app/.header-template.js:27 | The file name ends the path. It is the whole path or follows its last separator. |
| Paths.Normalize | app/.header-template.js:28 | Every `\` becomes `/` and every other character stays in place. |
| Paths.NormalizeIdempotent | app/.header-template.js:28 | Normalizing twice is the same as once. |
| Paths.DropSrcPrefix | app/.header-template.js:28 | A leading `src/` or `src\` is dropped. Otherwise a leading `src` is dropped. Any other path is kept. |
| Paths.TemplateModulePathCases | app/.header-template.js:28 | `src/x` and `src\x` give `x` normalized, and any other path is only normalized. `srcx/y` gives `x/y`, because the prefix strip also fires there. |
| Timestamps.FormatRoundTrip | app/.header-template.js:18-24 | A valid stamp prints as 19 characters matching `dddd-dd-dd dd:dd ET`, and reading them back gives the stamp. |
| Timestamps.DatePartMatches | app/update-headers.js:81 | The date of a valid stamp is ten characters matching `dddd-dd-dd`. |
| Timestamps.FormatMatchesPatterns | app/update-headers.js:79-81 | Every valid timestamp matches both the full-stamp pattern and the date pattern. |
| Timestamps.FullStampHasDate | app/update-headers.js:79-81 | Any text that matches the full-stamp pattern also matches the date pattern. |
| Timestamps.FormatWords | app/update-headers.js:84 | Splitting a timestamp on spaces gives the date, the time and `ET`. |
| Timestamps.TimeOfDayOfFormat | app/update-headers.js:84 | The time taken from a timestamp is `HH:MM ET`. |
| HeaderTemplate.Describe | app/.header-template.js:34 | An empty description becomes `TODO: Add file description`. Any other description is kept. |
| HeaderTemplate.RenderLines | app/.header-template.js:26-40 | The template splits into `/**`, then `@file` (the last segment), `@description`, `@created`, `@lastUpdated` (both the same timestamp), `@module` (the stripped path), then ` */`, then an empty line. |
| HeaderTemplate.RenderIsDocument | app/.header-template.js:31-40 | The template is the header lines joined by line breaks, followed by one final line break. |
| HeaderTemplate.DocumentLines | app/.header-template.js:31-40 | A header followed by text splits into the header lines, then the text's lines. |
| CreateFile.FullPath | app/scripts/create-file.js:41-43 | The full path is always absolute. |
| CreateFile.KindOf | app/scripts/create-file.js:76-89 | `.ts`/`.tsx` select TypeScript, `.js`/`.jsx` JavaScript, `.md` Markdown, and `.css`/`.scss` a style sheet. Anything else is generic. |
| CreateFile.Create | app/scripts/create-file.js:40-94 | Creating a file never reports a usage error. What a created file holds is stated by `CreateFile.CreatedHeader`. |
| CreateFile.CreateRefusesExisting | app/scripts/create-file.js:52-55 | The outcome is "already exists", with its message, iff the full path exists. A created file is at the full path, which did not exist before. |
| CreateFile.Run | app/scripts/create-file.js:233-245 | The usage error is reported iff no argument is given. |
| CreateFile.ContentLines | app/scripts/create-file.js:97-230 | Every template starts with the header lines: `@file`, the description or its placeholder, the same `@created` and `@lastUpdated`, and `@module`. The opener and closer depend on the kind. The body for the kind follows. |
| CreateFile.CreatedHeader | app/scripts/create-file.js:57-93 | A created file's header carries the path's basename and the current timestamp twice. Its module path is the given one, or else the default as the script computes it. Its body is that of the extension's kind. |
| CreateFile.TsxExtension | app/scripts/create-file.js:100 | A `.tsx` name has the extension `.tsx`. |
| CreateFile.TsxStem | app/scripts/create-file.js:117 | `path.basename(name, '.tsx')` is the stem. |
| CreateFile.TsNeverComponent | app/scripts/create-file.js:99-100 | A `.ts` file is never a component. |
| CreateFile.ComponentChoice | app/scripts/create-file.js:99-138 | A `.tsx` name whose first character is unchanged by upper-casing gets the component template, named after the stem. |
| CreateFile.NonComponentChoice | app/scripts/create-file.js:139-161 | A lower-case name holding `types` gets the types template. One holding neither `types` nor `interfaces` gets the utility template. |
| CreateFile.ModulePathOfDirectory | app/scripts/create-file.js:61-73 | For a file under `<cwd>/src/`, the default module path is its directory relative to `src`, with `/` separators. |
| CreateFile.DefaultModulePathBelowSrc | app/scripts/create-file.js:61-73 | For `<cwd>/src/<dirs>/<name>`, the default module path is `<dirs>`, both as corrected and as written. |
| CreateFile.DefaultModulePathInSrc | app/scripts/create-file.js:61-73 | For a file directly in `<cwd>/src`, the default module path is `''`, both as corrected and as written. |
| CreateFile.DefaultModulePathOutside | app/scripts/create-file.js:70-72 | For a file outside `<cwd>/src/`, the corrected default module path is its directory. The as-written one is too, unless the path starts with the text of `<cwd>/src`. |
| CreateFile.DefaultModulePathAgrees | app/scripts/create-file.js:61-73 | The corrected and as-written defaults agree on every path below `src/` and on every path not starting with the `src` directory's text. |
| CreateFile.DefaultModulePathSingleLine | app/scripts/create-file.js:61-73 | The default module path of a one-line path holds no line break, both as corrected and as written. |
| CreateFile.SrcPrefixCounterexample | app/scripts/create-file.js:66-69 | As written, cwd `/p` and file `/p/srcdir/a.ts` give module path `ir`. The corrected version gives `/p/srcdir`. |
| Posix.Basename | app/scripts/create-file.js:58 | A basename holds no `/`. |
| Posix.DirnameBasename | app/scripts/create-file.js:46-58 | For `dir/name` with optional trailing slashes, `dirname` is `dir` and `basename` is `name`. |
| Posix.DirnameOfName | app/scripts/create-file.js:46-58 | A bare name has dirname `.`, and `/name` has dirname `/`. Both have basename `name`. |
| Posix.Extname | app/scripts/create-file.js:76 | An extension is empty, or a `.` and dot-free text that ends the name. |
| Posix.ExtnameOfDotted | app/scripts/create-file.js:76 | `stem.x` has extension `.x`, but a dot file `.x` has none. |
| Posix.ExtnameOfSuffix | app/scripts/create-file.js:76 | A non-empty stem followed by `.ext` has the extension `.ext`. |
| Posix.BasenameWithout | app/scripts/create-file.js:117 | A name ending in the suffix loses exactly the suffix. Any other name is kept. |
| Posix.NormalizeAbsolute | app/scripts/create-file.js:41-43 | Normalizing an absolute path keeps it absolute. |
| Posix.NormalizeSpelled | app/scripts/create-file.js:41-43 | An absolute path of plain segments is already normal. |
| Posix.NormalizeAbsoluteIdempotent | app/scripts/create-file.js:41-43 | Normalizing twice is the same as once. |
| Posix.JoinUnder | app/scripts/create-file.js:43 | Joining an absolute directory and a relative path gives an absolute path. |
| Posix.JoinUnderPlain | app/scripts/create-file.js:43 | Joining plain segments under a plain directory concatenates them with `/`. |
| UpdateHeaders.CreatedOr | app/update-headers.js:38 | `createdDate \|\| timestamp`: a non-empty carried date wins over the current timestamp. |
| UpdateHeaders.StripExtensionCases | app/update-headers.js:53 | The result is the path unchanged, or the path minus a final `.ext` whose text holds no `.` or `/`. It is unchanged iff no such extension exists. |
| UpdateHeaders.StripExtensionOf | app/update-headers.js:53 | `stem.ext` loses exactly `.ext`. |
| UpdateHeaders.ModulePathOfFile | app/update-headers.js:51-53 | The module path of `dir/stem.ext` is `dir/stem`, with `/` separators. |
| UpdateHeaders.WhitespaceEnd | app/update-headers.js:56 | The scan covers exactly the run of white space after a position. |
| UpdateHeaders.FindHeader | app/update-headers.js:56-57 | A match is the first `/**`, then the first `*/` after it, then the white space that follows. There is no match iff no `*/` follows any `/**`. |
| UpdateHeaders.Capture | app/update-headers.js:68-76 | There is no capture iff the tag is never followed by white space and a non-break character. Otherwise the capture is the non-empty rest of the line at the leftmost matching `@tag`, starting where the greedy white-space run leaves off. |
| UpdateHeaders.GeneratedHeaderFound | app/update-headers.js:33-57 | In a generated header followed by text that does not start with white space, the header match is exactly the generated header. |
| UpdateHeaders.GeneratedDescription | app/update-headers.js:37-71 | The description read from a generated header is the one written, or the placeholder. |
| UpdateHeaders.GeneratedCreated | app/update-headers.js:38-76 | The creation value read from a generated header is the one written. |
| UpdateHeaders.CarryKeepsTimestamp | app/update-headers.js:79-80 | A creation value that is a full timestamp is kept verbatim. |
| UpdateHeaders.CarryDate | app/update-headers.js:81-86 | A date-only creation value gets the current time of day appended. |
| UpdateHeaders.CarryCompletesDate | app/update-headers.js:81-86 | A date-only value becomes the timestamp of that day at the current time. |
| UpdateHeaders.CarryDropsShort | app/update-headers.js:74-87 | Any value that does not match the date pattern (`unknown`, or anything shorter than a date) is dropped, so the current timestamp takes its place. |
| UpdateHeaders.GeneratedFields | app/update-headers.js:64-87 | Refreshing a generated header carries over its description and its carried creation value. |
| UpdateHeaders.UpdateOfLeadingHeader | app/update-headers.js:89-90 | When the header is the whole first part of the file, the fresh header replaces it and the rest stays. The script's `replace` does the same whenever the fresh header holds no `$`. |
| UpdateHeaders.UpdateGenerated | app/update-headers.js:45-94 | Refreshing a file that starts with a generated header replaces just that header. The description is kept, the creation value carried over, and the update time is now. The rest of the file is unchanged. |
| UpdateHeaders.UpdateKeepsCreation | app/update-headers.js:45-94 | A file created at `t0` and refreshed at `now` keeps its description and `t0`, and shows `now` as its update time. The script does the same whenever the description, the new name and the module path hold no `$`. |
| UpdateHeaders.UpdateIdempotent | app/update-headers.js:45-94 | Refreshing twice at the same time is the same as refreshing once, for the corrected update and, when no `$` is involved, for the script's own. |
| UpdateHeaders.UpdatePrepends | app/update-headers.js:91-93 | A file without a header gets a fresh header in front and keeps its content. The result then has exactly that header. |
| UpdateHeaders.UpdateFileHeader | app/update-headers.js:45-103 | The outcome is a failure iff the file cannot be read. When the fresh header holds no `$`, a readable file gets exactly the corrected refreshed text. |
| UpdateHeaders.Expand | app/update-headers.js:90 | A replacement string holding no `$` is inserted as it is. |
| UpdateHeaders.ExpandDoubleDollar | app/update-headers.js:90 | The replacement-pattern expansion turns a `$$` into a single `$`. |
| UpdateHeaders.AsWrittenOfLeadingHeader | app/update-headers.js:90 | As written, the fresh header goes through replacement-pattern expansion before it replaces the old one. |
| UpdateHeaders.DollarHeaders | app/update-headers.js:33-42 | Headers described `$$` and `$` differ only in that one character. |
| UpdateHeaders.RefreshedGenerated | app/update-headers.js:45-94 | A generated header is found as the file's leading header, and refreshing gives the expected header. |
| UpdateHeaders.DollarCounterexample | app/update-headers.js:90 | A file described `$$` is refreshed, as written, to one described `$`. The corrected refresh keeps `$$`. |

## Left out

- The browser and Node I/O are not modelled:
  - the real `localStorage`;
  - `fs` reads, writes, `existsSync` and `mkdirSync`;
  - `console` output in the scripts, and `process.exit`.
  The scripts' outcomes are values instead. A storage exception is a `fault` parameter. The set of existing files is a parameter.
- `updateAllFiles` is not modelled: the glob walk over `src/**/*.{ts,tsx}` and the success and failure counters. Only `updateFileHeader` on one file is modelled.
- `path.relative(path.join(__dirname, 'src'), filePath)` in `update-headers.js` is a parameter (`rel`), since it needs the script's own location.
- The clock is not modelled. `Date`, the time-zone shift and `getTimezoneOffset` are out: timestamps take their calendar fields as inputs (`Timestamps.Stamp`). `Date.now()` and `toISOString()` in the mock API are parameters.
- MockApi.Login: `login` reads the clock three times: `new Date()` for `createdAt` (line 51) and for `lastUpdatedAt` (line 52), and `Date.now()` for the expiry (line 60). The model uses one `nowMs` for all three, so it promises `createdAt == lastUpdatedAt` and an expiry exactly one hour after `createdAt`, which the program does not guarantee when the readings fall in different milliseconds.
- MockApi.Register: `register` reads the clock three times: `Date.now()` for the id `user-<ms>` (line 115), and `new Date()` for `createdAt` (line 120) and for `lastUpdatedAt` (line 121). The model uses one `nowMs` for all three, so the id's number and the two times come from one instant, which the program does not guarantee.
- UpdateHeaders.CarryDate: `update-headers.js` reads the clock twice, at line 34 for the new header and at line 83 to complete a date-only `@created`. The model uses one `timestamp` for both (in `Refreshed`, `Update` and `UpdateAsWritten`), so the program's case where the two readings fall in different minutes is not modelled.
- The simulated 500 ms delay and the ordering of overlapping calls in the mock API are out. Each call is one atomic step.
- `debounce`, `throttle` and `generateId` are out. They rest on timers and `Math.random`.
- `formatDate`, `formatCurrency`, `formatNumber` (Intl), `isValidUrl`, `isValidDate` and `isValidPhoneNumber` are out.
- `isDefined` has no member of its own: it is a predicate, and `Common.EmptinessCases` states its behaviour.
- Validators.ValidateNumberRange: values are integers, so the NaN branch (`must be a valid number`) is not modelled.
- Validators.ValidateStringLength: the argument is always a string, so the `must be a string` branch is not modelled.
- Formatters.FormatDuration: durations are integer milliseconds. Fractional and non-finite numbers are not modelled.
- Formatters.ToTitleCaseChars: case mapping is ASCII only. `toLowerCase` and `toUpperCase` on other characters are not modelled.
- Formatters.ToTitleCaseWords: case mapping is ASCII only. JavaScript maps the whole of Unicode, where one character can become several (`ß` upper-cases to `SS`).
- Formatters.ToTitleCaseIdempotent: holds for the ASCII case mapping. With JavaScript's full mapping it fails: `ßa` becomes `SSa`, and then `Ssa`.
- Formatters.TruncateText: when `maxLength` falls inside a surrogate pair, JavaScript keeps the pair's first half alone. The model drops the whole pair, since a string of characters cannot hold half of one.
- CreateFile.IsComponent: upper-casing is ASCII only, so a name such as `éclair.tsx` counts as a component here, while JavaScript upper-cases `é` and does not count it.
- CreateFile.ComponentChoice: rests on `CreateFile.IsComponent`, with the same ASCII-only upper-casing.
- CreateFile.DefaultModulePathAsWritten: `substring(srcDir.length + 1)` is modelled on characters, not UTF-16 code units. Both agree when the `src` directory's path lies inside the Basic Multilingual Plane.
- Json.ParseStringifyRoundTrip: numbers are integers. Fractions and exponents are neither written nor parsed.
- Json.Parse: a `\u` escape naming a lone surrogate is refused, where `JSON.parse` accepts it, because a string of characters cannot hold half a surrogate pair.
- Json.Parse: numbers are unbounded integers, so an integer beyond 2^53 keeps its exact value, where `JSON.parse` rounds it to the nearest double (`9007199254740993` reads as `9007199254740992`).
- Json.Stringify: an integer of magnitude 10^21 or more is written with all its digits, where `JSON.stringify` writes exponent form (`1e+21`).
- Common.SafeJsonParse: built on `Json.Parse`, so a number with a fraction or an exponent, and a lone-surrogate escape, yield the default here where `JSON.parse` would succeed.
- LocalStorage.GetItem: built on `Json.Parse`, so stored text holding a fraction, an exponent or a lone-surrogate escape comes back raw with a warning, where `JSON.parse` would parse it.
- LocalStorage.MalformedComesBackRaw: "does not parse" means refused by `Json.Parse`, which also refuses fractions, exponents and lone-surrogate escapes that `JSON.parse` accepts.
- LocalStorage.Serialize: numbers are unbounded integers, so `JSON.stringify` of fractions, `NaN` and infinities is not modelled, and an integer of magnitude 10^21 or more is written in full rather than as `1e+21`.
- LocalStorage.SetGetNumber: the decimal text read back is the full digit string, which matches the program only for integers of magnitude below 10^21 (from 10^21 on, the program stores and reads back exponent form such as `1e+21`).
- Common.Assign: a new key always goes last. JavaScript lists array-index keys (`"1"`) first, in ascending order, before the other keys in insertion order. So `Common.FromJson` of `{"b":1,"1":2}` keeps the order `b`, `1`, and writing it again gives `{"b":1,"1":2}` where the program gives `{"1":2,"b":1}`. None of the keys the store and the user profile define is an array index.
- Common.DeepClone: a `Date` is rebuilt from its time, and `isEmpty` counts it as empty because it has no own keys. Functions, prototypes and cycles are not modelled.
- Store.Save: the `persist` middleware's envelope (`{ state, version }`) and its merge step are not modelled. The persisted record is stored as a bare JSON object under `app-storage`. immer's drafts are pure functions here.
- The development-only store subscription logging in the store file is out.
- Posix.NormalizeAbsolute: only POSIX paths are modelled. Windows drive letters and `path.win32` are out. The scripts do not call `path.resolve`; `Posix.Resolve` is the segment walk that `join`'s normalisation performs.
- CreateFile.FullPath: `path.isAbsolute` and `path.join` with `process.cwd()` are modelled, with the working directory as a parameter.
- The rest of `.eslintrc.js` is out: the rule set and the notice plugin's own matching. Only `moduleName` is modelled.
- React components, routing, theme files and the feature placeholders are out.

## Findings

| source | as written | input that shows it | evidently intended | confidence | as-written member | corrected member |
|---|---|---|---|---|---|---|
| app/scripts/create-file.js:66-69 | `fullPath.startsWith(srcDir)` tests a text prefix, so a sibling directory whose name begins with `src` passes. Then `substring(srcDir.length + 1)` cuts into its name. | cwd `/p`, file `/p/srcdir/a.ts`: the module path becomes `ir` | only paths below `<cwd>/src/` are made relative to `src`; any other path keeps its directory (`/p/srcdir`) | not executed | CreateFile.SrcPrefixCounterexample | CreateFile.DefaultModulePathAgrees |
| app/update-headers.js:90 | `content.replace(headerRegex, newHeader)` passes the new header as a replacement pattern. So `$$`, `$&` and the other `$` sequences in the carried description are expanded. | a file whose header has `@description Costs $$` is refreshed to `@description Costs $` | the new header is inserted literally, so the description is carried over unchanged | not executed | UpdateHeaders.DollarCounterexample | UpdateHeaders.UpdateGenerated |
