/** The `localStorage` wrapper (app/src/utils/localStorage.ts). The browser
    store is a map from keys to texts. Whether the browser throws is decided
    by the environment, so each call takes `fault`: `Some(message)` when the
    underlying storage call throws an error with that message, `None` when it
    succeeds. A thrown error object reaches the logger as its message text. */
module LocalStorage {
  import opened Wrappers
  import opened Strings
  import opened Json
  import opened Common
  import Logger

  /** The browser store and the logger module the wrapper reports to. */
  datatype Env = Env(items: map<string, string>, logger: Logger.Logger)

  /** The state after a `getItem` and the value it returns. */
  datatype Read = Read(env: Env, value: Value)

  function SetErrorMessage(key: string): string {
    "Error setting item '" + key + "' in localStorage:"
  }

  function ParseWarningMessage(key: string): string {
    "Error parsing JSON for item '" + key + "' from localStorage. Returning raw value."
  }

  function GetErrorMessage(key: string): string {
    "Error getting item '" + key + "' from localStorage:"
  }

  function RemoveErrorMessage(key: string): string {
    "Error removing item '" + key + "' from localStorage:"
  }

  /** The text `setItem` writes: a string as it is, anything else through
      `JSON.stringify`. `undefined` stringifies to `undefined`, which the
      browser store turns into the text "undefined". */
  function Serialize(v: Value, iso: int -> string): (t: string)
    ensures v.Str? ==> t == v.s
    ensures v == Undefined ==> t == "undefined"
    ensures !v.Str? && v != Undefined ==> t == Stringify(ToJson(v, iso).value)
  {
    if v.Str? then v.s
    else
      match ToJson(v, iso)
      case None => "undefined"
      case Some(j) => Stringify(j)
  }

  /** Text that `getItem` tries to parse. */
  predicate LooksLikeJson(t: string) {
    StartsWith(t, "{") || StartsWith(t, "[")
  }

  /** `setItem(key, value)`: on success the key holds the serialised value
      and nothing else changes; when the store throws, it is untouched and
      the error is logged. */
  function SetItem(e: Env, key: string, value: Value, iso: int -> string, fault: Option<string>)
    : (r: Env)
    ensures fault.None? ==> r.logger == e.logger
    ensures fault.None? ==> key in r.items && r.items[key] == Serialize(value, iso)
    ensures fault.None? ==> forall k :: k != key ==> (k in r.items <==> k in e.items)
    ensures fault.None? ==> forall k :: k != key && k in e.items ==> r.items[k] == e.items[k]
    ensures fault.Some? ==> r.items == e.items
    ensures fault.Some? ==> r.logger == Logger.LogError(e.logger, [JStr(SetErrorMessage(key)), JStr(fault.value)])
  {
    var valueToStore := Serialize(value, iso);
    match fault
    case Some(err) => e.(logger := Logger.LogError(e.logger, [JStr(SetErrorMessage(key)), JStr(err)]))
    case None => e.(items := e.items[key := valueToStore])
  }

  /** `getItem(key)`. */
  function GetItem(e: Env, key: string, fault: Option<string>): (r: Read)
    ensures r.env.items == e.items
    ensures fault.Some? ==> r.value == Null
    ensures fault.Some? ==> r.env.logger == Logger.LogError(e.logger, [JStr(GetErrorMessage(key)), JStr(fault.value)])
    ensures fault.None? && key !in e.items ==> r == Read(e, Null)
    ensures fault.None? && key in e.items && !LooksLikeJson(e.items[key]) ==> r == Read(e, Str(e.items[key]))
    ensures fault.None? && key in e.items && LooksLikeJson(e.items[key]) ==>
      match Parse(e.items[key])
      case Some(j) => r == Read(e, FromJson(j))
      case None =>
        r.value == Str(e.items[key])
        && r.env.logger == Logger.LogWarn(e.logger, [JStr(ParseWarningMessage(key)), JStr("SyntaxError")])
  {
    match fault
    case Some(err) => Read(e.(logger := Logger.LogError(e.logger, [JStr(GetErrorMessage(key)), JStr(err)])), Null)
    case None =>
      if key !in e.items then Read(e, Null)
      else
        var item := e.items[key];
        if LooksLikeJson(item) then
          match Parse(item)
          case Some(j) => Read(e, FromJson(j))
          case None =>
            Read(e.(logger := Logger.LogWarn(e.logger, [JStr(ParseWarningMessage(key)), JStr("SyntaxError")])),
              Str(item))
        else Read(e, Str(item))
  }

  /** `removeItem(key)`: the key is gone and nothing else changes (a missing
      key is a silent no-op); when the store throws, it is untouched and the
      error is logged. */
  function RemoveItem(e: Env, key: string, fault: Option<string>): (r: Env)
    ensures fault.None? ==> r.logger == e.logger && key !in r.items
    ensures fault.None? ==> forall k :: k != key ==> (k in r.items <==> k in e.items)
    ensures fault.None? ==> forall k :: k != key && k in e.items ==> r.items[k] == e.items[k]
    ensures fault.Some? ==> r.items == e.items
    ensures fault.Some? ==> r.logger == Logger.LogError(e.logger, [JStr(RemoveErrorMessage(key)), JStr(fault.value)])
  {
    match fault
    case Some(err) => e.(logger := Logger.LogError(e.logger, [JStr(RemoveErrorMessage(key)), JStr(err)]))
    case None => e.(items := e.items - {key})
  }

  // ---------------------------------------------------------------------------
  // Properties across calls

  /** Removing a key that is not stored changes nothing at all. */
  lemma RemoveAbsentIsNoOp(e: Env, key: string)
    requires key !in e.items
    ensures RemoveItem(e, key, None) == e
  {
  }

  /** A string that does not open with `{` or `[` comes back verbatim. */
  lemma SetGetPlainString(e: Env, key: string, s: string, iso: int -> string)
    requires !LooksLikeJson(s)
    ensures GetItem(SetItem(e, key, Str(s), iso, None), key, None).value == Str(s)
  {
  }

  /** A string that reads as JSON comes back parsed instead: `'[1]'` becomes
      the array `[1]`. */
  lemma SetGetBracketString(e: Env, key: string, iso: int -> string)
    ensures GetItem(SetItem(e, key, Str("[1]"), iso, None), key, None).value == Arr([Num(1)])
  {
    assert StartsWith("[1]", "[");
    assert Parse("[1]") == Some(JArr([JNum(1)])) by {
      ParseStringifyRoundTrip(JArr([JNum(1)]));
      assert Stringify(JArr([JNum(1)])) == "[1]";
    }
  }

  /** Malformed object-like text comes back raw, with the parse warning
      logged. */
  lemma MalformedComesBackRaw(e: Env, key: string)
    requires key in e.items && e.items[key] == "{ id: 1, name: "
    ensures GetItem(e, key, None).value == Str("{ id: 1, name: ")
    ensures GetItem(e, key, None).env.logger
      == Logger.LogWarn(e.logger, [JStr(ParseWarningMessage(key)), JStr("SyntaxError")])
  {
    assert StartsWith("{ id: 1, name: ", "{");
    assert Parse("{ id: 1, name: ") == None;
  }

  /** An array text with a leading zero is not JSON either: it comes back
      raw, with the parse warning logged. */
  lemma LeadingZeroComesBackRaw(e: Env, key: string)
    requires key in e.items && e.items[key] == "[01]"
    ensures GetItem(e, key, None).value == Str("[01]")
    ensures GetItem(e, key, None).env.logger
      == Logger.LogWarn(e.logger, [JStr(ParseWarningMessage(key)), JStr("SyntaxError")])
  {
    assert StartsWith("[01]", "[");
    LeadingZeroExamples();
  }

  /** A JSON-like array or object comes back as itself. */
  lemma SetGetStructured(e: Env, key: string, v: Value, iso: int -> string)
    requires JsonLike(v) && (v.Arr? || v.Obj?)
    ensures GetItem(SetItem(e, key, v, iso, None), key, None).value == v
  {
    ToJsonFromJson(v, iso);
    var j := ToJson(v, iso).value;
    StringifyOpensWithBracket(j);
    ParseStringifyRoundTrip(j);
  }

  /** A number is stored as its decimal text and comes back as that text,
      not as a number. */
  lemma SetGetNumber(e: Env, key: string, n: int, iso: int -> string)
    ensures GetItem(SetItem(e, key, Num(n), iso, None), key, None).value == Str(IntToString(n))
  {
    StringifyOpensWithBracket(JNum(n));
  }

  /** Writing one key leaves what another key reads unchanged. */
  lemma SetOtherKey(e: Env, key: string, other: string, v: Value, iso: int -> string)
    requires other != key
    ensures GetItem(SetItem(e, key, v, iso, None), other, None).value == GetItem(e, other, None).value
  {
  }

  /** After a successful removal the key reads as `null`. */
  lemma RemoveThenGet(e: Env, key: string)
    ensures GetItem(RemoveItem(e, key, None), key, None) == Read(RemoveItem(e, key, None), Null)
  {
  }

  /** Outside development mode the logger stays silent, so a failing call
      leaves the environment exactly as it was. */
  lemma FaultsAreSilentInProduction(e: Env, key: string, v: Value, iso: int -> string, err: string)
    requires !e.logger.devMode
    ensures SetItem(e, key, v, iso, Some(err)) == e
    ensures GetItem(e, key, Some(err)) == Read(e, Null)
    ensures RemoveItem(e, key, Some(err)) == e
  {
  }
}
