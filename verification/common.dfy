/** The generic value helpers (app/src/utils/common/index.ts) over a model of
    the JavaScript values they inspect: `undefined`, `null`, booleans,
    integers, strings, arrays, plain objects (own properties in insertion
    order; JavaScript's rule that array-index keys such as `"1"` come
    first, in ascending order, is not modelled) and `Date` objects (their millisecond time). Also the conversions
    between such values and JSON text that `JSON.parse` and `JSON.stringify`
    perform. */
module Common {
  import opened Wrappers
  import opened Json

  datatype Value =
    | Undefined
    | Null
    | Bool(b: bool)
    | Num(n: int)
    | Str(s: string)
    | Arr(items: seq<Value>)
    | Obj(fields: seq<Field>)
    | Date(time: int)

  /** One own property of a plain object. */
  datatype Field = Field(key: string, value: Value)

  // ---------------------------------------------------------------------------
  // Objects as property lists

  function FieldKeys(fs: seq<Field>): (ks: seq<string>)
    ensures |ks| == |fs|
    ensures forall i :: 0 <= i < |fs| ==> ks[i] == fs[i].key
  {
    seq(|fs|, i requires 0 <= i < |fs| => fs[i].key)
  }

  /** No key occurs twice, as in every real JavaScript object. */
  predicate DistinctFieldKeys(fs: seq<Field>) {
    forall i, j :: 0 <= i < j < |fs| ==> fs[i].key != fs[j].key
  }

  /** `obj[key]` for an own property. */
  function Get(fs: seq<Field>, key: string): (r: Option<Value>)
    ensures r.Some? <==> key in FieldKeys(fs)
  {
    if |fs| == 0 then None
    else if fs[0].key == key then Some(fs[0].value)
    else
      var r := Get(fs[1..], key);
      assert FieldKeys(fs) == [fs[0].key] + FieldKeys(fs[1..]);
      r
  }

  /** `obj[key] = v`: an existing property keeps its place and takes the new
      value; a new property goes last. This is JavaScript's order for keys
      that are not array indices. */
  function Assign(fs: seq<Field>, key: string, v: Value): (r: seq<Field>)
    ensures key !in FieldKeys(fs) ==> r == fs + [Field(key, v)]
    ensures key in FieldKeys(fs) ==> |r| == |fs|
    ensures FieldKeys(r) == if key in FieldKeys(fs) then FieldKeys(fs) else FieldKeys(fs) + [key]
  {
    if |fs| == 0 then [Field(key, v)]
    else if fs[0].key == key then
      assert FieldKeys([Field(key, v)] + fs[1..]) == FieldKeys(fs);
      [Field(key, v)] + fs[1..]
    else
      var rest := Assign(fs[1..], key, v);
      assert FieldKeys(fs) == [fs[0].key] + FieldKeys(fs[1..]);
      assert FieldKeys([fs[0]] + rest) == [fs[0].key] + FieldKeys(rest);
      [fs[0]] + rest
  }

  /** After the assignment the property reads back as `v`, and every other
      property reads as before. */
  lemma AssignGet(fs: seq<Field>, key: string, v: Value, other: string)
    ensures Get(Assign(fs, key, v), key) == Some(v)
    ensures other != key ==> Get(Assign(fs, key, v), other) == Get(fs, other)
  {
    AssignGetSame(fs, key, v);
    if other != key {
      AssignGetOther(fs, key, v, other);
    }
  }

  lemma {:induction false} AssignGetSame(fs: seq<Field>, key: string, v: Value)
    ensures Get(Assign(fs, key, v), key) == Some(v)
  {
    if |fs| > 0 && fs[0].key != key {
      AssignCons(fs, key, v);
      AssignGetSame(fs[1..], key, v);
    }
  }

  lemma {:induction false} AssignGetOther(fs: seq<Field>, key: string, v: Value, other: string)
    requires other != key
    ensures Get(Assign(fs, key, v), other) == Get(fs, other)
  {
    if |fs| > 0 && fs[0].key != key {
      AssignCons(fs, key, v);
      AssignGetOther(fs[1..], key, v, other);
    }
  }

  /** Assigning past a first property with another key keeps it first. */
  lemma AssignCons(fs: seq<Field>, key: string, v: Value)
    requires |fs| > 0 && fs[0].key != key
    ensures var r := Assign(fs, key, v);
      |r| > 0 && r[0] == fs[0] && r[1..] == Assign(fs[1..], key, v)
  {
  }

  /** Assignment keeps the keys distinct. */
  lemma AssignDistinct(fs: seq<Field>, key: string, v: Value)
    requires DistinctFieldKeys(fs)
    ensures DistinctFieldKeys(Assign(fs, key, v))
  {
    var r := Assign(fs, key, v);
    var ks := FieldKeys(r);
    forall i, j | 0 <= i < j < |r|
      ensures r[i].key != r[j].key
    {
      assert ks[i] == r[i].key && ks[j] == r[j].key;
      if key in FieldKeys(fs) {
        assert FieldKeys(fs)[i] == fs[i].key && FieldKeys(fs)[j] == fs[j].key;
      } else if j < |fs| {
        assert r[i] == fs[i] && r[j] == fs[j];
      } else {
        assert r[i] == fs[i] && r[j].key == key;
        assert FieldKeys(fs)[i] == fs[i].key;
      }
    }
  }

  // ---------------------------------------------------------------------------
  // isDefined / isEmpty

  /** `isDefined(value)`. */
  predicate IsDefined(v: Value) {
    v != Null && v != Undefined
  }

  /** `isEmpty(value)`: nullish values, zero-length strings and arrays, and
      objects with no own keys. A `Date` has no own keys, so it counts as
      empty; numbers and booleans never do. */
  predicate IsEmpty(v: Value) {
    match v
    case Undefined => true
    case Null => true
    case Str(s) => |s| == 0
    case Arr(items) => |items| == 0
    case Obj(fs) => |FieldKeys(fs)| == 0
    case Date(_) => true
    case _ => false
  }

  /** Every value that is not defined is empty; among defined values, a
      string, array or object is empty exactly when it has no elements, and
      numbers and booleans (zero and `false` included) never are. */
  lemma EmptinessCases(v: Value)
    ensures !IsDefined(v) ==> IsEmpty(v)
    ensures v.Str? ==> (IsEmpty(v) <==> v.s == "")
    ensures v.Arr? ==> (IsEmpty(v) <==> v.items == [])
    ensures v.Obj? ==> (IsEmpty(v) <==> v.fields == [])
    ensures v.Num? || v.Bool? ==> IsDefined(v) && !IsEmpty(v)
  {
  }

  // ---------------------------------------------------------------------------
  // deepClone

  /** `deepClone(obj)`: primitives are returned, a `Date` is rebuilt from its
      time, arrays are mapped and objects rebuilt property by property. */
  function DeepClone(v: Value): (r: Value)
    ensures !(v.Arr? || v.Obj?) ==> r == v
    ensures v.Arr? <==> r.Arr?
    ensures v.Obj? <==> r.Obj?
    ensures v.Arr? ==> |r.items| == |v.items|
    decreases v, 1
  {
    match v
    case Arr(items) => Arr(CloneItems(items))
    case Obj(fs) => Obj(CloneFields(fs, []))
    case Date(t) => Date(t)
    case _ => v
  }

  function CloneItems(items: seq<Value>): (r: seq<Value>)
    ensures |r| == |items|
    decreases items, 0
  {
    if |items| == 0 then [] else [DeepClone(items[0])] + CloneItems(items[1..])
  }

  /** The `for … in` loop: each own property is cloned and assigned into
      `acc`, in order. */
  function CloneFields(fs: seq<Field>, acc: seq<Field>): seq<Field>
    decreases fs, 0
  {
    if |fs| == 0 then acc
    else CloneFields(fs[1..], Assign(acc, fs[0].key, DeepClone(fs[0].value)))
  }

  /** Objects at every depth have distinct keys: the values a program can
      actually build. */
  predicate WellFormed(v: Value)
    decreases v, 1
  {
    match v
    case Arr(items) => ItemsWellFormed(items)
    case Obj(fs) => FieldsWellFormed(fs)
    case _ => true
  }

  predicate ItemsWellFormed(items: seq<Value>)
    decreases items, 0
  {
    |items| == 0 || (WellFormed(items[0]) && ItemsWellFormed(items[1..]))
  }

  predicate FieldsWellFormed(fs: seq<Field>)
    decreases fs, 0
  {
    DistinctFieldKeys(fs) && (|fs| == 0 || (WellFormed(fs[0].value) && FieldsWellFormed(fs[1..])))
  }

  lemma DistinctTail(fs: seq<Field>)
    requires |fs| > 0 && DistinctFieldKeys(fs)
    ensures DistinctFieldKeys(fs[1..])
    ensures fs[0].key !in FieldKeys(fs[1..])
  {
  }

  /** Moving the first of a run of properties, with keys distinct and
      absent from `acc`, onto the end of `acc` keeps the rest absent from
      it; the first key is absent from `acc`, so assigning it appends. */
  lemma DisjointStep(acc: seq<Field>, fs: seq<Field>, v: Value)
    requires |fs| > 0 && DistinctFieldKeys(fs)
    requires forall k :: k in FieldKeys(fs) ==> k !in FieldKeys(acc)
    ensures Assign(acc, fs[0].key, v) == acc + [Field(fs[0].key, v)]
    ensures DistinctFieldKeys(fs[1..])
    ensures forall k :: k in FieldKeys(fs[1..]) ==> k !in FieldKeys(acc + [fs[0]])
    ensures acc + [fs[0]] + fs[1..] == acc + fs
  {
    DistinctTail(fs);
    FirstKeyFresh(acc, fs, v);
    RestFresh(acc, fs);
    ConsAppend(acc, fs);
  }

  lemma FirstKeyFresh(acc: seq<Field>, fs: seq<Field>, v: Value)
    requires |fs| > 0
    requires forall k :: k in FieldKeys(fs) ==> k !in FieldKeys(acc)
    ensures Assign(acc, fs[0].key, v) == acc + [Field(fs[0].key, v)]
  {
    assert FieldKeys(fs)[0] == fs[0].key;
  }

  lemma RestFresh(acc: seq<Field>, fs: seq<Field>)
    requires |fs| > 0 && fs[0].key !in FieldKeys(fs[1..])
    requires forall k :: k in FieldKeys(fs) ==> k !in FieldKeys(acc)
    ensures forall k :: k in FieldKeys(fs[1..]) ==> k !in FieldKeys(acc + [fs[0]])
  {
    var f, rest := fs[0], fs[1..];
    assert FieldKeys(fs) == [f.key] + FieldKeys(rest);
    assert FieldKeys(acc + [f]) == FieldKeys(acc) + [f.key];
    forall k | k in FieldKeys(rest)
      ensures k !in FieldKeys(acc + [f])
    {
      assert k in FieldKeys(fs);
    }
  }

  lemma ConsAppend<T>(acc: seq<T>, xs: seq<T>)
    requires |xs| > 0
    ensures acc + [xs[0]] + xs[1..] == acc + xs
  {
    assert xs == [xs[0]] + xs[1..];
  }

  /** On a well-formed value the clone is the value itself. */
  lemma {:induction false} CloneIsIdentity(v: Value)
    requires WellFormed(v)
    ensures DeepClone(v) == v
    decreases v, 1
  {
    match v
    case Arr(items) => CloneItemsIdentity(items);
    case Obj(fs) => CloneFieldsIdentity(fs, []);
    case _ =>
  }

  lemma {:induction false} CloneItemsIdentity(items: seq<Value>)
    requires ItemsWellFormed(items)
    ensures CloneItems(items) == items
    decreases items, 0
  {
    if |items| > 0 {
      CloneIsIdentity(items[0]);
      CloneItemsIdentity(items[1..]);
    }
  }

  /** Copying distinct-keyed properties into an object without those keys
      appends them unchanged. */
  lemma {:induction false} CloneFieldsIdentity(fs: seq<Field>, acc: seq<Field>)
    requires FieldsWellFormed(fs)
    requires forall k :: k in FieldKeys(fs) ==> k !in FieldKeys(acc)
    ensures CloneFields(fs, acc) == acc + fs
    decreases fs, 0
  {
    if |fs| > 0 {
      CloneIsIdentity(fs[0].value);
      DisjointStep(acc, fs, fs[0].value);
      CloneFieldsIdentity(fs[1..], acc + [fs[0]]);
    }
  }

  /** Whatever it is given, the clone is well formed. */
  lemma {:induction false} CloneWellFormed(v: Value)
    ensures WellFormed(DeepClone(v))
    decreases v, 1
  {
    match v
    case Arr(items) => CloneItemsWellFormed(items);
    case Obj(fs) =>
      assert FieldsWellFormed([]);
      CloneFieldsWellFormed(fs, []);
    case _ =>
  }

  lemma {:induction false} CloneItemsWellFormed(items: seq<Value>)
    ensures ItemsWellFormed(CloneItems(items))
    decreases items, 0
  {
    if |items| > 0 {
      CloneWellFormed(items[0]);
      CloneItemsWellFormed(items[1..]);
      assert CloneItems(items)[1..] == CloneItems(items[1..]);
    }
  }

  lemma {:induction false} CloneFieldsWellFormed(fs: seq<Field>, acc: seq<Field>)
    requires FieldsWellFormed(acc)
    ensures FieldsWellFormed(CloneFields(fs, acc))
    decreases fs, 0
  {
    if |fs| > 0 {
      CloneWellFormed(fs[0].value);
      AssignWellFormed(acc, fs[0].key, DeepClone(fs[0].value));
      CloneFieldsWellFormed(fs[1..], Assign(acc, fs[0].key, DeepClone(fs[0].value)));
    }
  }

  lemma {:induction false} AssignWellFormed(fs: seq<Field>, key: string, v: Value)
    requires FieldsWellFormed(fs) && WellFormed(v)
    ensures FieldsWellFormed(Assign(fs, key, v))
    decreases fs
  {
    AssignDistinct(fs, key, v);
    var r := Assign(fs, key, v);
    if |fs| > 0 {
      DistinctTail(fs);
      if fs[0].key == key {
        assert r[1..] == fs[1..];
      } else {
        AssignWellFormed(fs[1..], key, v);
        assert r[1..] == Assign(fs[1..], key, v);
      }
    }
  }

  /** Cloning a clone changes nothing. */
  lemma DeepCloneIdempotent(v: Value)
    ensures DeepClone(DeepClone(v)) == DeepClone(v)
  {
    CloneWellFormed(v);
    CloneIsIdentity(DeepClone(v));
  }

  /** A clone is empty exactly when the original is. */
  lemma CloneKeepsEmptiness(v: Value)
    ensures IsEmpty(DeepClone(v)) == IsEmpty(v)
  {
    if v.Obj? {
      CloneFieldsEmpty(v.fields, []);
    }
  }

  lemma {:induction false} CloneFieldsEmpty(fs: seq<Field>, acc: seq<Field>)
    ensures |CloneFields(fs, acc)| == 0 <==> |fs| == 0 && |acc| == 0
    decreases fs
  {
    if |fs| > 0 {
      var a := Assign(acc, fs[0].key, DeepClone(fs[0].value));
      assert fs[0].key in FieldKeys(a);
      CloneFieldsEmpty(fs[1..], a);
    }
  }

  // ---------------------------------------------------------------------------
  // JSON text

  /** The value `JSON.parse` builds from a JSON tree: a repeated key keeps its
      first place and its last value. */
  function FromJson(j: Json): Value
    decreases j, 1
  {
    match j
    case JNull => Null
    case JBool(b) => Bool(b)
    case JNum(n) => Num(n)
    case JStr(s) => Str(s)
    case JArr(items) => Arr(FromItems(items))
    case JObj(ms) => Obj(FromMembers(ms, []))
  }

  function FromItems(items: seq<Json>): (r: seq<Value>)
    ensures |r| == |items|
    decreases items, 0
  {
    if |items| == 0 then [] else [FromJson(items[0])] + FromItems(items[1..])
  }

  function FromMembers(ms: seq<Member>, acc: seq<Field>): seq<Field>
    decreases ms, 0
  {
    if |ms| == 0 then acc else FromMembers(ms[1..], Assign(acc, ms[0].key, FromJson(ms[0].value)))
  }

  /** The JSON tree `JSON.stringify` writes for a value; `None` for
      `undefined`, which it does not serialise. Inside an array `undefined`
      becomes `null`, and an `undefined` property is dropped. A `Date` writes
      its `toISOString()` text, given here as `iso`. */
  function ToJson(v: Value, iso: int -> string): Option<Json>
    decreases v, 1
  {
    match v
    case Undefined => None
    case Null => Some(JNull)
    case Bool(b) => Some(JBool(b))
    case Num(n) => Some(JNum(n))
    case Str(s) => Some(JStr(s))
    case Arr(items) => Some(JArr(ToItems(items, iso)))
    case Obj(fs) => Some(JObj(ToMembers(fs, iso)))
    case Date(t) => Some(JStr(iso(t)))
  }

  function ToItems(items: seq<Value>, iso: int -> string): (r: seq<Json>)
    ensures |r| == |items|
    decreases items, 0
  {
    if |items| == 0 then []
    else
      var head := match ToJson(items[0], iso) case Some(j) => j case None => JNull;
      [head] + ToItems(items[1..], iso)
  }

  function ToMembers(fs: seq<Field>, iso: int -> string): seq<Member>
    decreases fs, 0
  {
    if |fs| == 0 then []
    else
      match ToJson(fs[0].value, iso)
      case None => ToMembers(fs[1..], iso)
      case Some(j) => [Member(fs[0].key, j)] + ToMembers(fs[1..], iso)
  }

  /** A value JSON can carry exactly: well formed, with no `undefined` and no
      `Date` anywhere. */
  predicate JsonLike(v: Value)
    decreases v, 1
  {
    match v
    case Undefined => false
    case Date(_) => false
    case Arr(items) => ItemsJsonLike(items)
    case Obj(fs) => FieldsJsonLike(fs)
    case _ => true
  }

  predicate ItemsJsonLike(items: seq<Value>)
    decreases items, 0
  {
    |items| == 0 || (JsonLike(items[0]) && ItemsJsonLike(items[1..]))
  }

  predicate FieldsJsonLike(fs: seq<Field>)
    decreases fs, 0
  {
    DistinctFieldKeys(fs) && (|fs| == 0 || (JsonLike(fs[0].value) && FieldsJsonLike(fs[1..])))
  }

  /** Writing a JSON-like value and reading the tree back gives the value. */
  lemma {:induction false} ToJsonFromJson(v: Value, iso: int -> string)
    requires JsonLike(v)
    ensures ToJson(v, iso).Some? && FromJson(ToJson(v, iso).value) == v
    decreases v, 1
  {
    match v
    case Arr(items) => ItemsRoundTrip(items, iso);
    case Obj(fs) => MembersRoundTrip(fs, [], iso);
    case _ =>
  }

  lemma {:induction false} ItemsRoundTrip(items: seq<Value>, iso: int -> string)
    requires ItemsJsonLike(items)
    ensures FromItems(ToItems(items, iso)) == items
    decreases items, 0
  {
    if |items| > 0 {
      ToJsonFromJson(items[0], iso);
      ItemsRoundTrip(items[1..], iso);
      var js := ToItems(items, iso);
      assert js[1..] == ToItems(items[1..], iso);
    }
  }

  lemma {:induction false} MembersRoundTrip(fs: seq<Field>, acc: seq<Field>, iso: int -> string)
    requires FieldsJsonLike(fs)
    requires forall k :: k in FieldKeys(fs) ==> k !in FieldKeys(acc)
    ensures FromMembers(ToMembers(fs, iso), acc) == acc + fs
    decreases fs, 0
  {
    if |fs| > 0 {
      var f := fs[0];
      ToJsonFromJson(f.value, iso);
      var j := ToJson(f.value, iso).value;
      assert ToMembers(fs, iso) == [Member(f.key, j)] + ToMembers(fs[1..], iso);
      FromMembersCons(Member(f.key, j), ToMembers(fs[1..], iso), acc);
      DisjointStep(acc, fs, f.value);
      MembersRoundTrip(fs[1..], acc + [f], iso);
    }
  }

  lemma FromMembersCons(m: Member, rest: seq<Member>, acc: seq<Field>)
    ensures FromMembers([m] + rest, acc) == FromMembers(rest, Assign(acc, m.key, FromJson(m.value)))
  {
    assert ([m] + rest)[1..] == rest;
  }

  // ---------------------------------------------------------------------------
  // safeJsonParse

  /** `safeJsonParse(text, default)`: the parsed value, or `default` when
      `JSON.parse` throws. */
  function SafeJsonParse(text: string, default: Value): (r: Value)
    ensures Parse(text).None? ==> r == default
  {
    match Parse(text)
    case None => default
    case Some(j) => FromJson(j)
  }

  /** The text of a JSON-like value parses back to it, never to the default. */
  lemma SafeJsonParseStringify(v: Value, default: Value, iso: int -> string)
    requires JsonLike(v)
    ensures SafeJsonParse(Stringify(ToJson(v, iso).value), default) == v
  {
    ToJsonFromJson(v, iso);
    ParseStringifyRoundTrip(ToJson(v, iso).value);
  }

  /** White space around the text is allowed. */
  lemma SafeJsonParseSpaced(before: string, v: Value, after: string, default: Value, iso: int -> string)
    requires JsonLike(v)
    requires forall i :: 0 <= i < |before| ==> IsJsonSpace(before[i])
    requires forall i :: 0 <= i < |after| ==> IsJsonSpace(after[i])
    ensures SafeJsonParse(before + Stringify(ToJson(v, iso).value) + after, default) == v
  {
    ToJsonFromJson(v, iso);
    ParseSpaced(before, ToJson(v, iso).value, after);
  }

  /** Text that is not JSON gives the default back: nothing, an unclosed
      object, a number with a leading zero. */
  lemma SafeJsonParseMalformed(default: Value)
    ensures SafeJsonParse("", default) == default
    ensures SafeJsonParse("{", default) == default
    ensures SafeJsonParse("01", default) == default
    ensures SafeJsonParse("[01]", default) == default
  {
    LeadingZeroExamples();
  }
}
