/** JSON values and the two directions of `JSON.stringify` / `JSON.parse`
    that the storage helpers rely on.

    `Stringify` renders the compact text `JSON.stringify` emits for integers,
    strings, arrays and objects, escaping quotes, backslashes and control
    characters as section 25.5.2 of ECMA-262 does. `Parse` reads the grammar
    of RFC 8259 with integer numbers: white space between tokens, no
    leading zeros, no raw control characters in strings, every escape
    including `\u` and surrogate pairs. The property the rest of the model
    needs from the pair (parsing what was stringified gives the value back)
    is proved here (`ParseStringifyRoundTrip`) rather than assumed. */
module Json {
  import opened Wrappers
  import opened Strings

  datatype Json =
    | JNull
    | JBool(b: bool)
    | JNum(n: int)
    | JStr(s: string)
    | JArr(items: seq<Json>)
    | JObj(members: seq<Member>)

  /** One own property of an object, in insertion order. */
  datatype Member = Member(key: string, value: Json)

  // ---------------------------------------------------------------------------
  // Stringify

  /** The lower-case hexadecimal digit for `d`. */
  function HexDigit(d: nat): (c: char)
    requires d < 16
    ensures IsHexDigit(c) && HexValue(c) == d
  {
    if d < 10 then (48 + d) as char else (87 + d) as char
  }

  /** How `JSON.stringify` writes one character of a string: `"` and `\`
      behind a backslash, the five control characters with a short escape
      by their letter, every other control character as `\u00` and two
      lower-case hexadecimal digits, anything else as it is. */
  function EscapeChar(c: char): (r: string)
    ensures c >= ' ' && c != '"' && c != '\\' <==> r == [c]
  {
    if c == '"' || c == '\\' then ['\\', c]
    else if c == '\U{0008}' then "\\b"
    else if c == '\t' then "\\t"
    else if c == '\n' then "\\n"
    else if c == '\U{000C}' then "\\f"
    else if c == '\r' then "\\r"
    else if c < ' ' then "\\u00" + [HexDigit(c as int / 16), HexDigit(c as int % 16)]
    else [c]
  }

  /** The body of a string literal, each character escaped as needed. */
  function Escape(s: string): string {
    if |s| == 0 then "" else EscapeChar(s[0]) + Escape(s[1..])
  }

  function Quote(s: string): string {
    "\"" + Escape(s) + "\""
  }

  function Stringify(v: Json): string
    decreases v, 1
  {
    match v
    case JNull => "null"
    case JBool(b) => if b then "true" else "false"
    case JNum(n) => IntToString(n)
    case JStr(s) => Quote(s)
    case JArr(items) => "[" + StringifyItems(items) + "]"
    case JObj(ms) => "{" + StringifyMembers(ms) + "}"
  }

  function StringifyItems(items: seq<Json>): string
    decreases items, 0
  {
    if |items| == 0 then ""
    else if |items| == 1 then Stringify(items[0])
    else Stringify(items[0]) + "," + StringifyItems(items[1..])
  }

  function StringifyMembers(ms: seq<Member>): string
    decreases ms, 0
  {
    if |ms| == 0 then ""
    else if |ms| == 1 then Quote(ms[0].key) + ":" + Stringify(ms[0].value)
    else Quote(ms[0].key) + ":" + Stringify(ms[0].value) + "," + StringifyMembers(ms[1..])
  }

  // ---------------------------------------------------------------------------
  // Property access

  /** The value of property `key`: `JSON.parse` keeps the last of repeated
      keys, so the search runs from the end. */
  function Lookup(ms: seq<Member>, key: string): (r: Option<Json>)
    ensures r.Some? <==> exists i :: 0 <= i < |ms| && ms[i].key == key
    ensures r.Some? ==> exists i :: 0 <= i < |ms| && ms[i] == Member(key, r.value)
  {
    if |ms| == 0 then None
    else if ms[|ms| - 1].key == key then Some(ms[|ms| - 1].value)
    else
      var r := Lookup(ms[..|ms| - 1], key);
      assert forall i :: 0 <= i < |ms| - 1 ==> ms[..|ms| - 1][i] == ms[i];
      r
  }

  /** The keys of an object's members, in order. */
  function Keys(ms: seq<Member>): (ks: seq<string>)
    ensures |ks| == |ms|
    ensures forall i :: 0 <= i < |ms| ==> ks[i] == ms[i].key
  {
    seq(|ms|, i requires 0 <= i < |ms| => ms[i].key)
  }

  lemma {:induction false} LookupAppend(a: seq<Member>, b: seq<Member>, key: string)
    ensures Lookup(a + b, key) == if Lookup(b, key).Some? then Lookup(b, key) else Lookup(a, key)
    decreases |b|
  {
    if |b| == 0 {
      assert a + b == a;
    } else {
      assert (a + b)[..|a + b| - 1] == a + b[..|b| - 1];
      LookupAppend(a, b[..|b| - 1], key);
    }
  }

  /** An object built from named, possibly `undefined` properties:
      `JSON.stringify` drops the `undefined` ones (`None`). */
  function Present(fields: seq<(string, Option<Json>)>): (ms: seq<Member>)
    ensures forall i :: 0 <= i < |ms| ==> exists j :: 0 <= j < |fields| && fields[j].0 == ms[i].key
  {
    if |fields| == 0 then []
    else
      var last := fields[|fields| - 1];
      var init := Present(fields[..|fields| - 1]);
      assert forall j :: 0 <= j < |fields| - 1 ==> fields[..|fields| - 1][j] == fields[j];
      init + (if last.1.Some? then [Member(last.0, last.1.value)] else [])
  }

  /** When every property is defined, each one becomes a member, in order. */
  lemma {:induction false} PresentAll(fields: seq<(string, Option<Json>)>)
    requires forall i :: 0 <= i < |fields| ==> fields[i].1.Some?
    ensures |Present(fields)| == |fields|
    ensures forall i :: 0 <= i < |fields| ==> Present(fields)[i] == Member(fields[i].0, fields[i].1.value)
    decreases |fields|
  {
    if |fields| > 0 {
      var n := |fields|;
      var init := fields[..n - 1];
      PresentAll(init);
      assert Present(fields) == Present(init) + [Member(fields[n - 1].0, fields[n - 1].1.value)];
      forall i | 0 <= i < n
        ensures Present(fields)[i] == Member(fields[i].0, fields[i].1.value)
      {
        if i < n - 1 {
          assert init[i] == fields[i];
          assert Present(fields)[i] == Present(init)[i];
        }
      }
    }
  }

  function Names(fields: seq<(string, Option<Json>)>): (ns: seq<string>)
    ensures |ns| == |fields|
    ensures forall i :: 0 <= i < |fields| ==> ns[i] == fields[i].0
  {
    seq(|fields|, i requires 0 <= i < |fields| => fields[i].0)
  }

  /** When every property is defined, the object's keys are their names. */
  lemma KeysPresentAll(fields: seq<(string, Option<Json>)>)
    requires forall i :: 0 <= i < |fields| ==> fields[i].1.Some?
    ensures Keys(Present(fields)) == Names(fields)
  {
    PresentAll(fields);
  }

  predicate DistinctKeys(fields: seq<(string, Option<Json>)>) {
    forall i, j :: 0 <= i < j < |fields| ==> fields[i].0 != fields[j].0
  }

  /** A name no property has is not found. */
  lemma LookupAbsent(fields: seq<(string, Option<Json>)>, key: string)
    requires forall j :: 0 <= j < |fields| ==> fields[j].0 != key
    ensures Lookup(Present(fields), key) == None
  {
    var ms := Present(fields);
    forall k | 0 <= k < |ms|
      ensures ms[k].key != key
    {
      var j :| 0 <= j < |fields| && fields[j].0 == ms[k].key;
    }
  }

  /** The members of properties are those of all but the last, then the
      last one's when it is defined. */
  lemma PresentSnoc(fields: seq<(string, Option<Json>)>)
    requires |fields| > 0
    ensures var last := fields[|fields| - 1];
      Present(fields) == Present(fields[..|fields| - 1])
        + (if last.1.Some? then [Member(last.0, last.1.value)] else [])
  {
  }

  /** A name no other property has. */
  predicate UniqueAt(fields: seq<(string, Option<Json>)>, i: nat)
    requires i < |fields|
  {
    forall j :: 0 <= j < |fields| && j != i ==> fields[j].0 != fields[i].0
  }

  /** The last property, when its name is its own, is found under it. */
  lemma LookupLast(fields: seq<(string, Option<Json>)>)
    requires |fields| > 0 && UniqueAt(fields, |fields| - 1)
    ensures Lookup(Present(fields), fields[|fields| - 1].0) == fields[|fields| - 1].1
  {
    var n := |fields|;
    var last := fields[n - 1];
    var init := fields[..n - 1];
    var tail: seq<Member> := if last.1.Some? then [Member(last.0, last.1.value)] else [];
    PresentSnoc(fields);
    LookupAppend(Present(init), tail, last.0);
    forall j | 0 <= j < |init|
      ensures init[j].0 != last.0
    {
      assert init[j] == fields[j];
    }
    LookupAbsent(init, last.0);
  }

  /** A property other than the last whose name is its own is found where
      it is found among the ones before the last, and its name is still its
      own there. */
  lemma LookupBeforeLast(fields: seq<(string, Option<Json>)>, i: nat)
    requires i + 1 < |fields| && UniqueAt(fields, i)
    ensures var init := fields[..|fields| - 1];
      && UniqueAt(init, i) && init[i] == fields[i]
      && Lookup(Present(fields), fields[i].0) == Lookup(Present(init), init[i].0)
  {
    var n := |fields|;
    UniqueAtInit(fields, i);
    var key := fields[i].0;
    assert fields[n - 1].0 != key by { assert n - 1 != i; }
    LookupDropLast(fields, key);
  }

  /** A name the last property does not have is looked up among the ones
      before it. */
  lemma LookupDropLast(fields: seq<(string, Option<Json>)>, key: string)
    requires |fields| > 0 && fields[|fields| - 1].0 != key
    ensures Lookup(Present(fields), key) == Lookup(Present(fields[..|fields| - 1]), key)
  {
    var last := fields[|fields| - 1];
    var tail: seq<Member> := if last.1.Some? then [Member(last.0, last.1.value)] else [];
    assert Lookup(tail, key) == None;
    PresentSnoc(fields);
    LookupAppend(Present(fields[..|fields| - 1]), tail, key);
  }

  /** Dropping the last property keeps a name that was unique unique. */
  lemma UniqueAtInit(fields: seq<(string, Option<Json>)>, i: nat)
    requires i + 1 < |fields| && UniqueAt(fields, i)
    ensures UniqueAt(fields[..|fields| - 1], i) && fields[..|fields| - 1][i] == fields[i]
  {
    var init := fields[..|fields| - 1];
    forall j | 0 <= j < |init| && j != i
      ensures init[j].0 != init[i].0
    {
      assert init[j] == fields[j];
    }
  }

  /** A property whose name no other property has is found under that
      name, and not at all when it is `undefined`. */
  lemma {:induction false} LookupUnique(fields: seq<(string, Option<Json>)>, i: nat)
    requires i < |fields| && UniqueAt(fields, i)
    ensures Lookup(Present(fields), fields[i].0) == fields[i].1
    decreases |fields|, 1
  {
    if i == |fields| - 1 {
      LookupLast(fields);
    } else {
      LookupUniqueBeforeLast(fields, i);
    }
  }

  /** The inductive step of `LookupUnique`. */
  lemma {:induction false} LookupUniqueBeforeLast(fields: seq<(string, Option<Json>)>, i: nat)
    requires i + 1 < |fields| && UniqueAt(fields, i)
    ensures Lookup(Present(fields), fields[i].0) == fields[i].1
    decreases |fields|, 0
  {
    var init := fields[..|fields| - 1];
    LookupBeforeLast(fields, i);
    LookupUnique(init, i);
  }

  /** With distinct names, every property is found under its own name, and
      an `undefined` one is not found at all. */
  lemma LookupPresent(fields: seq<(string, Option<Json>)>, i: nat)
    requires DistinctKeys(fields) && i < |fields|
    ensures Lookup(Present(fields), fields[i].0) == fields[i].1
  {
    LookupUnique(fields, i);
  }

  // ---------------------------------------------------------------------------
  // Parse

  /** The number of decimal digits `s` starts with. */
  function DigitRun(s: string): (k: nat)
    ensures k <= |s| && AllDigits(s[..k])
    ensures k < |s| ==> !IsDigit(s[k])
    decreases |s|
  {
    if |s| > 0 && IsDigit(s[0]) then
      var k := 1 + DigitRun(s[1..]);
      assert forall i :: 1 <= i < k ==> s[..k][i] == s[1..][..k - 1][i - 1];
      k
    else 0
  }

  /** The four characters allowed between tokens. */
  predicate IsJsonSpace(c: char) {
    c == ' ' || c == '\t' || c == '\n' || c == '\r'
  }

  /** `s` without the white space it starts with. */
  function SkipSpace(s: string): (r: string)
    ensures |r| <= |s|
    ensures |r| == 0 || !IsJsonSpace(r[0])
    decreases |s|
  {
    if |s| > 0 && IsJsonSpace(s[0]) then SkipSpace(s[1..]) else s
  }

  predicate IsHexDigit(c: char) {
    IsDigit(c) || 'a' <= c <= 'f' || 'A' <= c <= 'F'
  }

  function HexValue(c: char): (d: nat)
    requires IsHexDigit(c)
    ensures d < 16
  {
    if IsDigit(c) then c as int - 48
    else if 'a' <= c <= 'f' then c as int - 87
    else c as int - 55
  }

  /** Four hexadecimal digits at the start of `s`, as a number. */
  function Hex4(s: string): (r: Option<nat>)
    ensures r.Some? ==> |s| >= 4 && r.value < 0x10000
  {
    if |s| >= 4 && IsHexDigit(s[0]) && IsHexDigit(s[1]) && IsHexDigit(s[2]) && IsHexDigit(s[3]) then
      Some(HexValue(s[0]) * 0x1000 + HexValue(s[1]) * 0x100 + HexValue(s[2]) * 0x10 + HexValue(s[3]))
    else None
  }

  /** The character a high and a low surrogate stand for together. */
  function CombineSurrogates(hi: nat, lo: nat): (c: char)
    requires 0xD800 <= hi < 0xDC00 && 0xDC00 <= lo < 0xE000
    ensures 0x10000 <= c as int
  {
    (0x10000 + (hi - 0xD800) * 0x400 + (lo - 0xDC00)) as char
  }

  /** One escape after its backslash: the character it stands for and the
      text after it. A `\u` escape for the high half of a surrogate pair
      must be followed by one for the low half; a lone half is refused,
      since a Dafny string cannot hold it. */
  function ParseEscape(s: string): (r: Option<(char, string)>)
    ensures r.Some? ==> |r.value.1| < |s|
  {
    if |s| == 0 then None
    else if s[0] == '"' || s[0] == '\\' || s[0] == '/' then Some((s[0], s[1..]))
    else if s[0] == 'b' then Some(('\U{0008}', s[1..]))
    else if s[0] == 'f' then Some(('\U{000C}', s[1..]))
    else if s[0] == 'n' then Some(('\n', s[1..]))
    else if s[0] == 'r' then Some(('\r', s[1..]))
    else if s[0] == 't' then Some(('\t', s[1..]))
    else if s[0] != 'u' then None
    else
      match Hex4(s[1..])
      case None => None
      case Some(u) =>
        if u < 0xD800 || 0xE000 <= u then Some((u as char, s[5..]))
        else if 0xDC00 <= u then None
        else if |s| >= 7 && s[5] == '\\' && s[6] == 'u' then
          match Hex4(s[7..])
          case None => None
          case Some(lo) =>
            if 0xDC00 <= lo < 0xE000 then Some((CombineSurrogates(u, lo), s[11..])) else None
        else None
  }

  /** An optional minus sign, then `0` or a run of digits that does not
      start with `0`. */
  function ParseNumber(s: string): (r: Option<(Json, string)>)
    ensures r.Some? ==> |r.value.1| < |s|
  {
    var neg := |s| > 0 && s[0] == '-';
    var body := if neg then s[1..] else s;
    var k := DigitRun(body);
    if k == 0 || (k > 1 && body[0] == '0') then None
    else
      var m: int := DigitsValue(body[..k]);
      Some((JNum(if neg then -m else m), body[k..]))
  }

  /** The rest of a string literal after its opening quote: the decoded text
      and what follows the closing quote. A control character must be
      escaped. */
  function ParseString(s: string): (r: Option<(string, string)>)
    ensures r.Some? ==> |r.value.1| < |s|
    decreases |s|
  {
    if |s| == 0 then None
    else if s[0] == '"' then Some(("", s[1..]))
    else if s[0] == '\\' then
      match ParseEscape(s[1..])
      case None => None
      case Some((c, after)) =>
        match ParseString(after)
        case None => None
        case Some((t, rest)) => Some(([c] + t, rest))
    else if s[0] < ' ' then None
    else
      match ParseString(s[1..])
      case None => None
      case Some((t, rest)) => Some(([s[0]] + t, rest))
  }

  /** One value with the white space around it, and the text after that. */
  function ParseValue(s: string): (r: Option<(Json, string)>)
    ensures r.Some? ==> |r.value.1| < |s|
    ensures r.Some? ==> |r.value.1| == 0 || !IsJsonSpace(r.value.1[0])
    decreases |s|, 2
  {
    match ParseToken(SkipSpace(s))
    case None => None
    case Some((v, rest)) => Some((v, SkipSpace(rest)))
  }

  /** One value at the very start of `s`, and the text after it. */
  function ParseToken(s: string): (r: Option<(Json, string)>)
    ensures r.Some? ==> |r.value.1| < |s|
    decreases |s|, 1
  {
    if |s| == 0 then None
    else if s[0] == '"' then ParseStringValue(s[1..])
    else if s[0] == '-' || IsDigit(s[0]) then ParseNumber(s)
    else if s[0] == '[' then ParseArray(s[1..])
    else if s[0] == '{' then ParseObject(s[1..])
    else ParseLiteral(s)
  }

  /** `null`, `true` or `false`. */
  function ParseLiteral(s: string): (r: Option<(Json, string)>)
    ensures r.Some? ==> |r.value.1| < |s|
  {
    if StartsWith(s, "null") then Some((JNull, s[4..]))
    else if StartsWith(s, "true") then Some((JBool(true), s[4..]))
    else if StartsWith(s, "false") then Some((JBool(false), s[5..]))
    else None
  }

  /** A string value after its opening quote. */
  function ParseStringValue(s: string): (r: Option<(Json, string)>)
    ensures r.Some? ==> |r.value.1| < |s|
  {
    match ParseString(s)
    case None => None
    case Some((t, rest)) => Some((JStr(t), rest))
  }

  /** An array after its `[`. */
  function ParseArray(s: string): (r: Option<(Json, string)>)
    ensures r.Some? ==> |r.value.1| < |s|
    decreases |s|, 4
  {
    var inner := SkipSpace(s);
    if |inner| > 0 && inner[0] == ']' then Some((JArr([]), inner[1..]))
    else
      match ParseItems(inner)
      case None => None
      case Some((items, rest)) => Some((JArr(items), rest))
  }

  /** An object after its `{`. */
  function ParseObject(s: string): (r: Option<(Json, string)>)
    ensures r.Some? ==> |r.value.1| < |s|
    decreases |s|, 4
  {
    var inner := SkipSpace(s);
    if |inner| > 0 && inner[0] == '}' then Some((JObj([]), inner[1..]))
    else
      match ParseMembers(inner)
      case None => None
      case Some((ms, rest)) => Some((JObj(ms), rest))
  }

  /** The elements of a non-empty array after its `[`, up to and including
      the closing `]`. */
  function ParseItems(s: string): (r: Option<(seq<Json>, string)>)
    ensures r.Some? ==> |r.value.1| < |s|
    decreases |s|, 3
  {
    match ParseValue(s)
    case None => None
    case Some((v, rest)) =>
      if |rest| == 0 then None
      else if rest[0] == ']' then Some(([v], rest[1..]))
      else if rest[0] == ',' then
        match ParseItems(rest[1..])
        case None => None
        case Some((vs, rest')) => Some(([v] + vs, rest'))
      else None
  }

  /** The members of a non-empty object after its `{`, up to and including
      the closing `}`. */
  function ParseMembers(s: string): (r: Option<(seq<Member>, string)>)
    ensures r.Some? ==> |r.value.1| < |s|
    decreases |s|, 3
  {
    var t := SkipSpace(s);
    if |t| == 0 || t[0] != '"' then None
    else
      match ParseString(t[1..])
      case None => None
      case Some((key, rest)) =>
        var colon := SkipSpace(rest);
        if |colon| == 0 || colon[0] != ':' then None
        else
          match ParseValue(colon[1..])
          case None => None
          case Some((v, rest')) =>
            if |rest'| == 0 then None
            else if rest'[0] == '}' then Some(([Member(key, v)], rest'[1..]))
            else if rest'[0] == ',' then
              match ParseMembers(rest'[1..])
              case None => None
              case Some((ms, rest'')) => Some(([Member(key, v)] + ms, rest''))
            else None
  }

  /** `JSON.parse`: a whole text that is exactly one value, white space
      around it allowed. `None` stands for the `SyntaxError` it throws. */
  function Parse(s: string): Option<Json> {
    match ParseValue(s)
    case None => None
    case Some((v, rest)) => if rest == "" then Some(v) else None
  }

  // ---------------------------------------------------------------------------
  // Round trip

  /** What may follow a value inside the compact text. */
  predicate Terminator(rest: string) {
    |rest| == 0 || rest[0] == ',' || rest[0] == ']' || rest[0] == '}'
  }

  /** What may follow a value's token: the compact terminators or white
      space. */
  predicate Follows(rest: string) {
    Terminator(rest) || IsJsonSpace(rest[0])
  }

  /** Text that does not start with white space is left as it is. */
  lemma SkipNoSpace(s: string)
    requires |s| == 0 || !IsJsonSpace(s[0])
    ensures SkipSpace(s) == s
  {
  }

  lemma {:induction false} ParseEscaped(t: string, rest: string)
    ensures ParseString(Escape(t) + "\"" + rest) == Some((t, rest))
    decreases |t|
  {
    if |t| == 0 {
      assert Escape(t) + "\"" + rest == "\"" + rest;
    } else {
      var tail := Escape(t[1..]) + "\"" + rest;
      EscapeCons(t, rest);
      ParseEscaped(t[1..], rest);
      ParseEscapedChar(t[0], t[1..], tail, rest);
      assert [t[0]] + t[1..] == t;
    }
  }

  /** A string body is its first character escaped, then the rest. */
  lemma EscapeCons(t: string, rest: string)
    requires |t| > 0
    ensures Escape(t) + "\"" + rest == EscapeChar(t[0]) + (Escape(t[1..]) + "\"" + rest)
  {
    var e, more := EscapeChar(t[0]), Escape(t[1..]);
    assert Escape(t) == e + more;
    Regroup(Escape(t), e, more, "\"", rest);
  }

  lemma Regroup(x: string, e: string, more: string, q: string, rest: string)
    requires x == e + more
    ensures x + q + rest == e + (more + q + rest)
  {
  }

  /** One escaped character in front of a string body adds that character
      to what is read. */
  lemma ParseEscapedChar(c: char, t: string, tail: string, rest: string)
    requires ParseString(tail) == Some((t, rest))
    ensures ParseString(EscapeChar(c) + tail) == Some(([c] + t, rest))
  {
    var s := EscapeChar(c) + tail;
    if c >= ' ' && c != '"' && c != '\\' {
      assert s[1..] == tail;
    } else {
      EscapeReadsBack(c, tail);
      assert s[1..] == EscapeChar(c)[1..] + tail;
    }
  }

  /** The text of an escape after its backslash reads back as the escaped
      character. */
  lemma EscapeReadsBack(c: char, tail: string)
    requires c < ' ' || c == '"' || c == '\\'
    ensures |EscapeChar(c)| >= 2 && EscapeChar(c)[0] == '\\'
    ensures ParseEscape(EscapeChar(c)[1..] + tail) == Some((c, tail))
  {
    var s := EscapeChar(c)[1..] + tail;
    if c == '"' || c == '\\' || c == '\U{0008}' || c == '\t' || c == '\n' || c == '\U{000C}' || c == '\r' {
      assert s[1..] == tail;
    } else {
      UnicodeEscapeReadsBack(c, HexDigit(c as int / 16), HexDigit(c as int % 16), tail);
    }
  }

  /** `u00` and two hexadecimal digits read back as the control character
      they spell. */
  lemma UnicodeEscapeReadsBack(c: char, h: char, l: char, tail: string)
    requires c < ' ' && h == HexDigit(c as int / 16) && l == HexDigit(c as int % 16)
    ensures ParseEscape("u00" + [h, l] + tail) == Some((c, tail))
  {
    var s := "u00" + [h, l] + tail;
    var u := c as int;
    assert s[1..][0] == '0' && s[1..][1] == '0' && s[1..][2] == h && s[1..][3] == l;
    assert Hex4(s[1..]) == Some(u);
    assert s[5..] == tail;
  }

  lemma {:induction false} DigitRunAppend(d: string, rest: string)
    requires AllDigits(d)
    ensures DigitRun(d + rest) == |d| + DigitRun(rest)
    decreases |d|
  {
    if |d| > 0 {
      assert (d + rest)[1..] == d[1..] + rest;
      DigitRunAppend(d[1..], rest);
    } else {
      assert d + rest == rest;
    }
  }

  lemma ParseNatText(n: nat, rest: string)
    requires |rest| == 0 || !IsDigit(rest[0])
    ensures DigitRun(NatToString(n) + rest) == |NatToString(n)|
  {
    DigitRunAppend(NatToString(n), rest);
  }

  /** Only zero is written with a leading `0`, and then as `0` alone. */
  lemma NoLeadingZero(n: nat)
    ensures !(|NatToString(n)| > 1 && NatToString(n)[0] == '0')
  {
  }

  lemma ParseIntText(n: int, rest: string)
    requires Follows(rest)
    ensures ParseToken(IntToString(n) + rest) == Some((JNum(n), rest))
  {
    if n < 0 {
      ParseNegativeText(n, rest);
    } else {
      ParseNaturalText(n, rest);
    }
  }

  lemma ParseNaturalText(n: nat, rest: string)
    requires Follows(rest)
    ensures ParseToken(IntToString(n) + rest) == Some((JNum(n), rest))
  {
    var d := NatToString(n);
    ParseNatText(n, rest);
    DigitsValueOfNatToString(n);
    NoLeadingZero(n);
    assert IsDigit(d[0]);
    assert (d + rest)[0] == d[0];
    assert (d + rest)[..|d|] == d;
    assert (d + rest)[|d|..] == rest;
  }

  lemma ParseNegativeText(n: int, rest: string)
    requires n < 0 && Follows(rest)
    ensures ParseToken(IntToString(n) + rest) == Some((JNum(n), rest))
  {
    var m: nat := -n;
    NegativeDigits(n, m, rest);
    ParseNatText(m, rest);
    DigitsValueOfNatToString(m);
    NoLeadingZero(m);
    ParseMinus(IntToString(n) + rest, NatToString(m), rest);
  }

  lemma NegativeDigits(n: int, m: nat, rest: string)
    requires n < 0 && m == -n
    ensures IntToString(n) + rest == "-" + (NatToString(m) + rest) && |NatToString(m)| > 0
  {
  }

  /** A minus sign before the digits `d` reads as the negated number. */
  lemma ParseMinus(s: string, d: string, rest: string)
    requires s == "-" + (d + rest) && |d| > 0 && DigitRun(d + rest) == |d|
    requires !(|d| > 1 && d[0] == '0')
    ensures ParseToken(s) == Some((JNum(-(DigitsValue(d) as int)), rest))
  {
    var body := d + rest;
    assert s[0] == '-' && s[1..] == body;
    assert body[0] == d[0];
    assert body[..|d|] == d && body[|d|..] == rest;
  }

  /** A rendered value, then something that may follow it, reads back as
      that value. */
  lemma {:induction false} ParseValueStringify(v: Json, rest: string)
    requires Terminator(rest)
    ensures ParseValue(Stringify(v) + rest) == Some((v, rest))
    decreases v, 3
  {
    var s := Stringify(v) + rest;
    StringifyStart(v);
    assert s[0] == Stringify(v)[0];
    SkipNoSpace(s);
    ParseTokenStringify(v, rest);
    SkipNoSpace(rest);
  }

  lemma {:induction false} ParseTokenStringify(v: Json, rest: string)
    requires Follows(rest)
    ensures ParseToken(Stringify(v) + rest) == Some((v, rest))
    decreases v, 2
  {
    match v
    case JNull =>
      var s := Stringify(v) + rest;
      assert s[..4] == "null" && s[4..] == rest;
    case JBool(b) =>
      var s := Stringify(v) + rest;
      if b {
        assert s[..4] == "true" && s[4..] == rest;
      } else {
        assert s[..5] == "false" && s[5..] == rest;
      }
    case JNum(n) =>
      ParseIntText(n, rest);
    case JStr(t) =>
      ParseStringText(t, rest);
    case JArr(items) =>
      ParseArrayText(items, rest);
    case JObj(ms) =>
      ParseObjectText(ms, rest);
  }

  lemma ParseStringText(t: string, rest: string)
    ensures ParseToken(Quote(t) + rest) == Some((JStr(t), rest))
  {
    var s := Quote(t) + rest;
    assert s[0] == '"';
    assert s[1..] == Escape(t) + "\"" + rest;
    ParseEscaped(t, rest);
  }

  lemma {:induction false} ParseArrayText(items: seq<Json>, rest: string)
    ensures ParseToken(Stringify(JArr(items)) + rest) == Some((JArr(items), rest))
    decreases items, 1
  {
    var s := Stringify(JArr(items)) + rest;
    if |items| == 0 {
      assert s == "[]" + rest;
      assert s[1..] == "]" + rest;
      SkipNoSpace(s[1..]);
      assert s[1..][1..] == rest;
    } else {
      assert s == "[" + (StringifyItems(items) + "]" + rest);
      assert s[1..] == StringifyItems(items) + "]" + rest;
      StringifyItemsNonEmpty(items);
      assert s[1..][0] == StringifyItems(items)[0];
      SkipNoSpace(s[1..]);
      ParseItemsStringify(items, rest);
    }
  }

  lemma {:induction false} ParseObjectText(ms: seq<Member>, rest: string)
    ensures ParseToken(Stringify(JObj(ms)) + rest) == Some((JObj(ms), rest))
    decreases ms, 2
  {
    var s := Stringify(JObj(ms)) + rest;
    if |ms| == 0 {
      assert s == "{}" + rest;
      assert s[1..] == "}" + rest;
      SkipNoSpace(s[1..]);
      assert s[1..][1..] == rest;
    } else {
      var body := StringifyMembers(ms) + "}" + rest;
      assert s == "{" + body;
      ParseMembersStringify(ms, rest);
      ObjectAfterBrace(s, body);
    }
  }

  /** A brace and then a key: the members are read from the key on. */
  lemma ObjectAfterBrace(s: string, body: string)
    requires s == "{" + body && |body| > 0 && body[0] == '"'
    ensures ParseToken(s) ==
      match ParseMembers(body)
      case None => None
      case Some((ms, rest)) => Some((JObj(ms), rest))
  {
    assert s[1..] == body;
    SkipNoSpace(body);
  }

  /** A non-empty array's body starts with neither `]` nor white space, so
      `[` is not read as the empty array. */
  lemma StringifyItemsNonEmpty(items: seq<Json>)
    requires |items| >= 1
    ensures |StringifyItems(items)| > 0 && StringifyItems(items)[0] != ']'
    ensures !IsJsonSpace(StringifyItems(items)[0])
  {
    StringifyStart(items[0]);
    StringifyItemsFirst(items);
  }

  /** An array body starts with its first item. */
  lemma StringifyItemsFirst(items: seq<Json>)
    requires |items| >= 1
    ensures |Stringify(items[0])| <= |StringifyItems(items)|
    ensures StringifyItems(items)[..|Stringify(items[0])|] == Stringify(items[0])
  {
  }

  /** Every rendered value is non-empty and starts with a character that
      is neither white space nor able to close an array or an object. */
  lemma StringifyStart(v: Json)
    ensures |Stringify(v)| > 0
    ensures Stringify(v)[0] != ']' && Stringify(v)[0] != '}'
    ensures !IsJsonSpace(Stringify(v)[0])
  {
    match v
    case JNum(n) =>
      if n >= 0 {
        assert IsDigit(NatToString(n)[0]);
      }
    case _ =>
  }

  lemma {:induction false} ParseItemsStringify(items: seq<Json>, rest: string)
    requires |items| >= 1
    ensures ParseItems(StringifyItems(items) + "]" + rest) == Some((items, rest))
    decreases items, 0
  {
    var s := StringifyItems(items) + "]" + rest;
    var first := Stringify(items[0]);
    if |items| == 1 {
      assert s == first + ("]" + rest);
      ParseValueStringify(items[0], "]" + rest);
      assert ("]" + rest)[1..] == rest;
      assert [items[0]] == items;
    } else {
      var tail := StringifyItems(items[1..]) + "]" + rest;
      assert s == first + ("," + tail);
      ParseValueStringify(items[0], "," + tail);
      assert ("," + tail)[1..] == tail;
      ParseItemsStringify(items[1..], rest);
      assert [items[0]] + items[1..] == items;
    }
  }

  /** One member's text: its key is read, then its value, and what follows
      decides whether the object closes or continues. */
  lemma ParseMemberStep(key: string, v: Json, valueText: string, after: string)
    requires ParseValue(valueText) == Some((v, after))
    requires |after| > 0
    ensures ParseMembers("\"" + (Escape(key) + "\"" + (":" + valueText))) ==
      if after[0] == '}' then Some(([Member(key, v)], after[1..]))
      else if after[0] == ',' then
        match ParseMembers(after[1..])
        case None => None
        case Some((ms, rest)) => Some(([Member(key, v)] + ms, rest))
      else None
  {
    var s := "\"" + (Escape(key) + "\"" + (":" + valueText));
    SkipNoSpace(s);
    assert s[1..] == Escape(key) + "\"" + (":" + valueText);
    ParseEscaped(key, ":" + valueText);
    SkipNoSpace(":" + valueText);
    assert (":" + valueText)[1..] == valueText;
  }

  lemma MembersTextOne(ms: seq<Member>, rest: string)
    requires |ms| == 1
    ensures StringifyMembers(ms) + "}" + rest
      == "\"" + (Escape(ms[0].key) + "\"" + (":" + (Stringify(ms[0].value) + ("}" + rest))))
  {
    var e := Escape(ms[0].key);
    var v := Stringify(ms[0].value);
    assert StringifyMembers(ms) == Quote(ms[0].key) + ":" + v;
    MemberTextLast(e, v, rest);
  }

  lemma MemberTextLast(e: string, v: string, rest: string)
    ensures "\"" + e + "\"" + ":" + v + "}" + rest == "\"" + (e + "\"" + (":" + (v + ("}" + rest))))
  {
  }

  lemma MemberTextShape(e: string, v: string, t: string, rest: string)
    ensures "\"" + e + "\"" + ":" + v + "," + t + "}" + rest
      == "\"" + (e + "\"" + (":" + (v + ("," + (t + "}" + rest)))))
  {
  }

  lemma MembersTextMore(ms: seq<Member>, rest: string)
    requires |ms| > 1
    ensures StringifyMembers(ms) + "}" + rest
      == "\"" + (Escape(ms[0].key) + "\"" + (":" + (Stringify(ms[0].value)
           + ("," + (StringifyMembers(ms[1..]) + "}" + rest)))))
  {
    var e := Escape(ms[0].key);
    var v := Stringify(ms[0].value);
    var t := StringifyMembers(ms[1..]);
    assert StringifyMembers(ms) == "\"" + e + "\"" + ":" + v + "," + t;
    MemberTextShape(e, v, t, rest);
  }

  lemma {:induction false} ParseMembersStringify(ms: seq<Member>, rest: string)
    requires |ms| >= 1
    ensures ParseMembers(StringifyMembers(ms) + "}" + rest) == Some((ms, rest))
    decreases ms, 1
  {
    if |ms| == 1 {
      ParseOneMember(ms, rest);
    } else {
      ParseMoreMembers(ms, rest);
    }
  }

  lemma {:induction false} ParseOneMember(ms: seq<Member>, rest: string)
    requires |ms| == 1
    ensures ParseMembers(StringifyMembers(ms) + "}" + rest) == Some((ms, rest))
    decreases ms, 0
  {
    var key := ms[0].key;
    var after := "}" + rest;
    MembersTextOne(ms, rest);
    ParseValueStringify(ms[0].value, after);
    ParseMemberStep(key, ms[0].value, Stringify(ms[0].value) + after, after);
    assert after[1..] == rest;
    assert [Member(key, ms[0].value)] == ms;
  }

  lemma {:induction false} ParseMoreMembers(ms: seq<Member>, rest: string)
    requires |ms| >= 2
    ensures ParseMembers(StringifyMembers(ms) + "}" + rest) == Some((ms, rest))
    decreases ms, 0
  {
    var tail := StringifyMembers(ms[1..]) + "}" + rest;
    MembersTextMore(ms, rest);
    ParseValueStringify(ms[0].value, "," + tail);
    ParseMembersStringify(ms[1..], rest);
    MembersOfText(StringifyMembers(ms) + "}" + rest, ms, Stringify(ms[0].value) + ("," + tail), tail, rest);
  }

  /** `MemberThenMore` for a text known to spell the members `ms`. */
  lemma MembersOfText(text: string, ms: seq<Member>, valueText: string, tail: string, rest: string)
    requires |ms| >= 2
    requires text == "\"" + (Escape(ms[0].key) + "\"" + (":" + valueText))
    requires ParseValue(valueText) == Some((ms[0].value, "," + tail))
    requires ParseMembers(tail) == Some((ms[1..], rest))
    ensures ParseMembers(text) == Some((ms, rest))
  {
    MemberThenMore(ms[0].key, ms[0].value, valueText, tail, ms[1..], rest);
    assert [Member(ms[0].key, ms[0].value)] + ms[1..] == ms;
  }

  /** A member, a comma, and members that parse: the members parse with
      the first one in front. */
  lemma MemberThenMore(key: string, v: Json, valueText: string, tail: string, more: seq<Member>, rest: string)
    requires ParseValue(valueText) == Some((v, "," + tail))
    requires ParseMembers(tail) == Some((more, rest))
    ensures ParseMembers("\"" + (Escape(key) + "\"" + (":" + valueText))) == Some(([Member(key, v)] + more, rest))
  {
    ParseMemberStep(key, v, valueText, "," + tail);
    assert ("," + tail)[1..] == tail;
  }

  /** `JSON.parse(JSON.stringify(v))` is `v`. */
  lemma ParseStringifyRoundTrip(v: Json)
    ensures Parse(Stringify(v)) == Some(v)
  {
    ParseValueStringify(v, "");
    assert Stringify(v) + "" == Stringify(v);
  }

  /** Only arrays and objects render to text beginning with `[` or `{`. */
  lemma StringifyOpensWithBracket(v: Json)
    ensures (StartsWith(Stringify(v), "{") || StartsWith(Stringify(v), "["))
            <==> (v.JArr? || v.JObj?)
  {
    StringifyStart(v);
    match v
    case JNum(n) =>
      if n >= 0 {
        assert IsDigit(NatToString(n)[0]);
      }
    case _ =>
  }

  // ---------------------------------------------------------------------------
  // What the grammar refuses

  /** A number may not have a leading zero: `0` followed by another digit,
      with or without a minus sign, is refused. */
  lemma LeadingZeroRefused(d: string, rest: string)
    requires |d| > 0 && IsDigit(d[0])
    ensures ParseToken("0" + d + rest) == None
    ensures ParseToken("-0" + d + rest) == None
  {
    var s := "0" + d + rest;
    assert s[1..][0] == d[0];
    assert DigitRun(s) >= 2;
    var s' := "-0" + d + rest;
    assert s'[1..] == s;
  }

  /** A control character may not stand raw inside a string literal. */
  lemma {:induction false} RawControlRefused(a: string, c: char, rest: string)
    requires c < ' '
    requires forall i :: 0 <= i < |a| ==> a[i] >= ' ' && a[i] != '"' && a[i] != '\\'
    ensures ParseString(a + [c] + rest) == None
    decreases |a|
  {
    var s := a + [c] + rest;
    if |a| == 0 {
      assert s[0] == c;
    } else {
      assert s[0] == a[0];
      assert s[1..] == a[1..] + [c] + rest;
      RawControlRefused(a[1..], c, rest);
    }
  }

  /** So `JSON.parse` refuses a string literal holding one. */
  lemma RawControlInLiteral(a: string, c: char, rest: string)
    requires c < ' '
    requires forall i :: 0 <= i < |a| ==> a[i] >= ' ' && a[i] != '"' && a[i] != '\\'
    ensures Parse("\"" + a + [c] + rest) == None
  {
    var s := "\"" + a + [c] + rest;
    SkipNoSpace(s);
    assert s[1..] == a + [c] + rest;
    RawControlRefused(a, c, rest);
    assert ParseStringValue(s[1..]) == None;
    assert ParseToken(s) == None;
  }

  /** Skipping white space in front of a text that does not start with
      any. */
  lemma {:induction false} SkipSpaceBefore(ws: string, x: string)
    requires forall i :: 0 <= i < |ws| ==> IsJsonSpace(ws[i])
    requires |x| == 0 || !IsJsonSpace(x[0])
    ensures SkipSpace(ws + x) == x
    decreases |ws|
  {
    if |ws| == 0 {
      assert ws + x == x;
    } else {
      assert (ws + x)[1..] == ws[1..] + x;
      SkipSpaceBefore(ws[1..], x);
    }
  }

  /** White space before and after a rendered value is allowed. */
  lemma ParseSpaced(before: string, v: Json, after: string)
    requires forall i :: 0 <= i < |before| ==> IsJsonSpace(before[i])
    requires forall i :: 0 <= i < |after| ==> IsJsonSpace(after[i])
    ensures Parse(before + Stringify(v) + after) == Some(v)
  {
    var x := Stringify(v) + after;
    StringifyStart(v);
    assert x[0] == Stringify(v)[0];
    assert before + Stringify(v) + after == before + x;
    SkipSpaceBefore(before, x);
    ParseTokenStringify(v, after);
    SkipSpaceBefore(after, "");
    assert after + "" == after;
  }

  /** A value after white space: the token, then the white space after it
      is skipped. */
  lemma ValueAfterSpace(ws: string, s: string, v: Json, rest: string)
    requires forall i :: 0 <= i < |ws| ==> IsJsonSpace(ws[i])
    requires |s| > 0 && !IsJsonSpace(s[0])
    requires ParseToken(s) == Some((v, rest))
    ensures ParseValue(ws + s) == Some((v, SkipSpace(rest)))
  {
    SkipSpaceBefore(ws, s);
  }

  /** An array element followed by a comma and more elements. */
  lemma ItemThenMore(s: string, v: Json, more: string, vs: seq<Json>, rest: string)
    requires ParseValue(s) == Some((v, "," + more))
    requires ParseItems(more) == Some((vs, rest))
    ensures ParseItems(s) == Some(([v] + vs, rest))
  {
    assert ("," + more)[1..] == more;
  }

  /** The last array element, followed by `]`. */
  lemma LastItem(s: string, v: Json, rest: string)
    requires ParseValue(s) == Some((v, "]" + rest))
    ensures ParseItems(s) == Some(([v], rest))
  {
    assert ("]" + rest)[1..] == rest;
  }

  /** A bracket and then an element: the elements are read from there. */
  lemma ArrayAfterBracket(s: string, body: string)
    requires s == "[" + body && |body| > 0 && !IsJsonSpace(body[0]) && body[0] != ']'
    ensures ParseToken(s) ==
      match ParseItems(body)
      case None => None
      case Some((items, rest)) => Some((JArr(items), rest))
  {
    assert s[1..] == body;
    SkipNoSpace(body);
  }

  /** White space may also stand between the tokens of an array. */
  lemma SpacedArrayExample()
    ensures Parse(" [1, 2] ") == Some(JArr([JNum(1), JNum(2)]))
  {
    var sp := " ";
    var two := [DigitChar(2)] + ("]" + sp);
    var items := [DigitChar(1)] + ("," + (sp + two));
    SpacedItems(sp, two, items);
    SpacedArray(sp, items);
    assert sp + ("[" + items) == " [1, 2] ";
  }

  lemma SpacedArray(sp: string, items: string)
    requires sp == " " && |items| > 0 && items[0] == DigitChar(1)
    requires ParseItems(items) == Some(([JNum(1), JNum(2)], sp))
    ensures Parse(sp + ("[" + items)) == Some(JArr([JNum(1), JNum(2)]))
  {
    ArrayAfterBracket("[" + items, items);
    ValueAfterSpace(sp, "[" + items, JArr([JNum(1), JNum(2)]), sp);
    assert SkipSpace(sp) == "";
  }

  lemma SpacedItems(sp: string, two: string, items: string)
    requires sp == " " && two == [DigitChar(2)] + ("]" + sp)
    requires items == [DigitChar(1)] + ("," + (sp + two))
    ensures ParseItems(items) == Some(([JNum(1), JNum(2)], sp))
  {
    SpacedLast(sp, two);
    var more := "," + (sp + two);
    SpacedNumber(1, more);
    ValueAfterSpace("", items, JNum(1), more);
    assert "" + items == items;
    SkipNoSpace(more);
    ItemThenMore(items, JNum(1), sp + two, [JNum(2)], sp);
    assert [JNum(1)] + [JNum(2)] == [JNum(1), JNum(2)];
  }

  lemma SpacedLast(sp: string, two: string)
    requires sp == " " && two == [DigitChar(2)] + ("]" + sp)
    ensures ParseItems(sp + two) == Some(([JNum(2)], sp))
  {
    var close := "]" + sp;
    SpacedNumber(2, close);
    ValueAfterSpace(sp, two, JNum(2), close);
    SkipNoSpace(close);
    LastItem(sp + two, JNum(2), sp);
  }

  /** A one-digit number followed by what may follow a token. */
  lemma SpacedNumber(n: nat, rest: string)
    requires n < 10 && Follows(rest)
    ensures ParseToken([DigitChar(n)] + rest) == Some((JNum(n), rest))
  {
    assert IntToString(n) == [DigitChar(n)];
    ParseIntText(n, rest);
  }

  /** `01`, `-01` and `[01]` are refused. */
  lemma LeadingZeroExamples()
    ensures Parse("01") == None && Parse("-01") == None && Parse("[01]") == None
  {
    LeadingZeroAlone();
    LeadingZeroInArray();
  }

  lemma LeadingZeroAlone()
    ensures Parse("01") == None && Parse("-01") == None
  {
    LeadingZeroRefused("1", "");
    assert "0" + "1" + "" == "01" && "-0" + "1" + "" == "-01";
  }

  lemma LeadingZeroInArray()
    ensures Parse("[01]") == None
  {
    LeadingZeroRefused("1", "]");
    assert "0" + "1" + "]" == "01]";
    assert ParseItems("01]") == None;
    assert ParseArray("01]") == None;
  }

  /** An escape after its backslash and the rest of the string. */
  lemma EscapeThen(e: string, c: char, r: string, t: string, rest: string)
    requires ParseEscape(e + r) == Some((c, r))
    requires ParseString(r) == Some((t, rest))
    ensures ParseString("\\" + e + r) == Some(([c] + t, rest))
  {
    assert ("\\" + e + r)[1..] == e + r;
  }

  /** A letter standing for itself or for a control character. */
  lemma ShortEscape(x: char, r: string)
    requires x == 'n' || x == '/'
    ensures ParseEscape([x] + r) == Some((if x == 'n' then '\n' else '/', r))
  {
    assert ([x] + r)[1..] == r;
  }

  /** A string literal that is the whole text. */
  lemma WholeString(r: string, t: string)
    requires ParseString(r) == Some((t, ""))
    ensures Parse("\"" + r) == Some(JStr(t))
  {
    var s := "\"" + r;
    assert s[1..] == r;
    SkipNoSpace(s);
    assert ParseToken(s) == Some((JStr(t), ""));
  }

  /** `u0041` is `A`. */
  lemma EscapeOfA(r: string)
    ensures ParseEscape("u0041" + r) == Some(('A', r))
  {
    var s := "u0041" + r;
    assert s[1] == '0' && s[2] == '0' && s[3] == '4' && s[4] == '1';
    assert Hex4(s[1..]) == Some(0x41);
    assert s[5..] == r;
  }

  /** `ud83d`, a backslash and `ude00` are the one character U+1F600. */
  lemma EscapeOfPair(r: string)
    ensures ParseEscape("ud83d\\ude00" + r) == Some(('\U{1F600}', r))
  {
    var s := "ud83d\\ude00" + r;
    assert s[1] == 'd' && s[2] == '8' && s[3] == '3' && s[4] == 'd';
    assert Hex4(s[1..]) == Some(0xD83D);
    assert s[5] == '\\' && s[6] == 'u';
    assert s[7] == 'd' && s[8] == 'e' && s[9] == '0' && s[10] == '0';
    assert Hex4(s[7..]) == Some(0xDE00);
    assert s[11..] == r;
  }

  /** The short escapes, a `\u` escape and a surrogate pair decode to the
      characters they stand for. */
  lemma EscapeExamples()
    ensures Parse("\"\\n\\u0041\\/\"") == Some(JStr("\nA/"))
    ensures Parse("\"\\ud83d\\ude00\"") == Some(JStr("\U{1F600}"))
  {
    EscapedLine();
    EscapedPair();
  }

  lemma EscapedLine()
    ensures Parse("\"\\n\\u0041\\/\"") == Some(JStr("\nA/"))
  {
    var r0 := "\"";
    var r1 := "\\" + "/" + r0;
    var r2 := "\\" + "u0041" + r1;
    var r3 := "\\" + "n" + r2;
    EscapedSlash(r0);
    EscapedA(r1);
    EscapedBreak(r2);
    WholeString(r3, "\nA/");
    LineText(r3);
  }

  lemma LineText(r3: string)
    requires r3 == "\\" + "n" + ("\\" + "u0041" + ("\\" + "/" + "\""))
    ensures "\"" + r3 == "\"\\n\\u0041\\/\""
  {
  }

  lemma EscapedSlash(r0: string)
    requires r0 == "\""
    ensures ParseString("\\" + "/" + r0) == Some(("/", ""))
  {
    assert ParseString(r0) == Some(("", ""));
    ShortEscape('/', r0);
    EscapeThen("/", '/', r0, "", "");
    assert ['/'] + "" == "/";
  }

  lemma EscapedA(r1: string)
    requires ParseString(r1) == Some(("/", ""))
    ensures ParseString("\\" + "u0041" + r1) == Some(("A/", ""))
  {
    EscapeOfA(r1);
    EscapeThen("u0041", 'A', r1, "/", "");
    assert ['A'] + "/" == "A/";
  }

  lemma EscapedBreak(r2: string)
    requires ParseString(r2) == Some(("A/", ""))
    ensures ParseString("\\" + "n" + r2) == Some(("\nA/", ""))
  {
    ShortEscape('n', r2);
    EscapeThen("n", '\n', r2, "A/", "");
    assert ['\n'] + "A/" == "\nA/";
  }

  lemma EscapedPair()
    ensures Parse("\"\\ud83d\\ude00\"") == Some(JStr("\U{1F600}"))
  {
    var r0 := "\"";
    var r1 := "\\" + "ud83d\\ude00" + r0;
    EscapedEmoji(r0);
    WholeString(r1, "\U{1F600}");
    assert "\"" + r1 == "\"\\ud83d\\ude00\"";
  }

  lemma EscapedEmoji(r0: string)
    requires r0 == "\""
    ensures ParseString("\\" + "ud83d\\ude00" + r0) == Some(("\U{1F600}", ""))
  {
    assert ParseString(r0) == Some(("", ""));
    EscapeOfPair(r0);
    EscapeThen("ud83d\\ude00", '\U{1F600}', r0, "", "");
    assert ['\U{1F600}'] + "" == "\U{1F600}";
  }

  /** A line break is written as `\n` and another control character as a
      `\u` escape with lower-case digits. */
  lemma StringifyControlExample()
    ensures Stringify(JStr("a\n\U{001B}")) == "\"a\\n\\u001b\""
  {
    assert EscapeChar('\U{001B}') == "\\u001b";
    assert Escape("\U{001B}") == "\\u001b";
    assert Escape("\n\U{001B}") == "\\n\\u001b";
  }
}
