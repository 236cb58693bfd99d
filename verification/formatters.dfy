/** The text formatters (app/src/utils/formatters/index.ts): truncation with
    an ellipsis, title case, and a compact duration. Lengths and durations are
    integers; the locale- and `Intl`-based formatters are not part of this
    model. */
module Formatters {
  import opened Wrappers
  import opened Strings

  // ---------------------------------------------------------------------------
  // truncateText

  /** `truncateText(text, maxLength = 100, ellipsis = '...')`. Lengths are
      UTF-16 code units, as JavaScript's `length` and `substring` count them.
      A negative `maxLength` cuts everything, as `substring` clamps it to
      zero. */
  function TruncateText(text: string, maxLength: Option<int>, ellipsis: Option<string>): (r: string)
    ensures var n := maxLength.GetOr(100);
      text == "" || Utf16Length(text) <= n ==> r == text
    ensures var n := maxLength.GetOr(100); var e := ellipsis.GetOr("...");
      text != "" && Utf16Length(text) > n ==>
        && |r| >= |e| && r[|r| - |e|..] == e
        && r[..|r| - |e|] <= text && Utf16Length(r[..|r| - |e|]) <= (if n < 0 then 0 else n)
  {
    var n := maxLength.GetOr(100);
    var e := ellipsis.GetOr("...");
    if text == "" || Utf16Length(text) <= n then text
    else
      var p := UnitPrefix(text, if n < 0 then 0 else n);
      assert (p + e)[..|p|] == p && (p + e)[|p|..] == e;
      p + e
  }

  /** A truncated text is the longest prefix of the original that fits in
      `maxLength` code units, then `...`. On text inside the Basic
      Multilingual Plane that prefix is the first `maxLength` characters. */
  lemma TruncateKeepsPrefix(text: string, maxLength: int)
    requires Utf16Length(text) > maxLength >= 0
    ensures var r := TruncateText(text, Some(maxLength), None);
      var p := r[..|r| - 3];
      r[|r| - 3..] == "..." && p <= text && (p != text ==> Utf16Length(p + [text[|p|]]) > maxLength)
    ensures (forall i :: 0 <= i < |text| ==> text[i] as int < 0x10000) ==>
      var r := TruncateText(text, Some(maxLength), None);
      |r| == maxLength + 3 && r[..maxLength] == text[..maxLength] && r[maxLength..] == "..."
  {
    var p := UnitPrefix(text, maxLength);
    var r := TruncateText(text, Some(maxLength), None);
    assert r == p + "...";
    assert r[..|r| - 3] == p;
    UnitPrefixLongest(text, maxLength);
    if forall i :: 0 <= i < |text| ==> text[i] as int < 0x10000 {
      UnitPrefixBmp(text, maxLength);
    }
  }

  // ---------------------------------------------------------------------------
  // toTitleCase

  /** `word.charAt(0).toUpperCase() + word.slice(1)`. */
  function Capitalize(w: string): (r: string)
    ensures |r| == |w|
    ensures ' ' !in w ==> ' ' !in r
  {
    if |w| == 0 then "" else [ToUpper(w[0])] + w[1..]
  }

  function CapitalizeAll(ws: seq<string>): (rs: seq<string>)
    ensures |rs| == |ws|
    ensures forall k :: 0 <= k < |ws| ==> rs[k] == Capitalize(ws[k])
  {
    seq(|ws|, k requires 0 <= k < |ws| => Capitalize(ws[k]))
  }

  /** `toTitleCase(str)`: lower-case everything, split on single spaces,
      capitalize each piece and join the pieces back with single spaces. */
  function ToTitleCase(s: string): string {
    if s == "" then "" else Join(CapitalizeAll(Split(LowerString(s), ' ')), ' ')
  }

  /** Character by character: a character starting a word (first of the text
      or right after a space) is upper-cased, every other character is
      lower-cased, spaces stay. */
  function TitleChar(s: string, i: nat): char
    requires i < |s|
  {
    if i == 0 || s[i - 1] == ' ' then ToUpper(ToLower(s[i])) else ToLower(s[i])
  }

  /** The capitalisation scan over a lower-cased text: `cap` says whether the
      next character starts a word. */
  function Scan(t: string, cap: bool): (r: string)
    ensures |r| == |t|
    decreases |t|
  {
    if |t| == 0 then ""
    else [if cap then ToUpper(t[0]) else t[0]] + Scan(t[1..], t[0] == ' ')
  }

  lemma {:induction false} ScanAt(t: string, cap: bool, i: nat)
    requires i < |t|
    ensures Scan(t, cap)[i] == if (if i == 0 then cap else t[i - 1] == ' ') then ToUpper(t[i]) else t[i]
    decreases |t|
  {
    if i > 0 {
      ScanAt(t[1..], t[0] == ' ', i - 1);
      assert t[1..][i - 1] == t[i];
      if i > 1 {
        assert t[1..][i - 2] == t[i - 1];
      }
    }
  }

  /** `Join` of a list whose first piece starts with `c`. */
  lemma JoinConsFirst(c: char, w: string, rest: seq<string>, sep: char)
    ensures Join([[c] + w] + rest, sep) == [c] + Join([w] + rest, sep)
  {
    if |rest| > 0 {
      assert ([[c] + w] + rest)[1..] == rest;
      assert ([w] + rest)[1..] == rest;
    }
  }

  /** The pipeline after the split, with the first piece capitalized only
      when `cap` holds. */
  function TitleJoin(parts: seq<string>, cap: bool): string
    requires |parts| >= 1
  {
    Join([if cap then Capitalize(parts[0]) else parts[0]] + CapitalizeAll(parts[1..]), ' ')
  }

  lemma TitleJoinSpace(tail: seq<string>, cap: bool)
    requires |tail| >= 1
    ensures TitleJoin([""] + tail, cap) == [' '] + TitleJoin(tail, true)
  {
    var parts := [""] + tail;
    assert parts[1..] == tail;
    var rest := CapitalizeAll(tail);
    assert rest == [Capitalize(tail[0])] + CapitalizeAll(tail[1..]);
    assert [if cap then Capitalize(parts[0]) else parts[0]] == [""];
    assert ([""] + rest)[1..] == rest;
  }

  lemma TitleJoinWord(c: char, tail: seq<string>, cap: bool)
    requires |tail| >= 1
    ensures TitleJoin([[c] + tail[0]] + tail[1..], cap)
      == [if cap then ToUpper(c) else c] + TitleJoin(tail, false)
  {
    var parts := [[c] + tail[0]] + tail[1..];
    assert parts[1..] == tail[1..];
    var d := if cap then ToUpper(c) else c;
    assert (if cap then Capitalize(parts[0]) else parts[0]) == [d] + tail[0];
    JoinConsFirst(d, tail[0], CapitalizeAll(tail[1..]), ' ');
  }

  /** The split-capitalize-join pipeline is the scan. */
  lemma {:induction false} PipelineIsScan(t: string, cap: bool)
    ensures TitleJoin(Split(t, ' '), cap) == Scan(t, cap)
    decreases |t|
  {
    if |t| > 0 {
      var tail := Split(t[1..], ' ');
      PipelineIsScan(t[1..], t[0] == ' ');
      if t[0] == ' ' {
        assert Split(t, ' ') == [""] + tail;
        TitleJoinSpace(tail, cap);
      } else {
        assert Split(t, ' ') == [[t[0]] + tail[0]] + tail[1..];
        TitleJoinWord(t[0], tail, cap);
      }
    }
  }

  /** Each character of the title-cased text is its `TitleChar`, so the
      length and the positions of the spaces are those of the input. */
  lemma ToTitleCaseChars(s: string)
    ensures |ToTitleCase(s)| == |s|
    ensures forall i :: 0 <= i < |s| ==> ToTitleCase(s)[i] == TitleChar(s, i)
    ensures forall i :: 0 <= i < |s| ==> (ToTitleCase(s)[i] == ' ' <==> s[i] == ' ')
  {
    if s != "" {
      var t := LowerString(s);
      var parts := Split(t, ' ');
      PipelineIsScan(t, true);
      assert CapitalizeAll(parts) == [Capitalize(parts[0])] + CapitalizeAll(parts[1..]);
      assert ToTitleCase(s) == TitleJoin(parts, true);
      forall i | 0 <= i < |s|
        ensures ToTitleCase(s)[i] == TitleChar(s, i)
      {
        ScanAt(t, true, i);
      }
    }
  }

  /** Title case is idempotent. */
  lemma ToTitleCaseIdempotent(s: string)
    ensures ToTitleCase(ToTitleCase(s)) == ToTitleCase(s)
  {
    var r := ToTitleCase(s);
    ToTitleCaseChars(s);
    ToTitleCaseChars(r);
    forall i | 0 <= i < |s|
      ensures ToTitleCase(r)[i] == r[i]
    {
      CaseStable(s[i]);
      assert i > 0 ==> (r[i - 1] == ' ' <==> s[i - 1] == ' ');
    }
  }

  /** Re-casing an already cased character changes nothing. */
  lemma CaseStable(c: char)
    ensures ToLower(ToLower(c)) == ToLower(c)
    ensures ToUpper(ToLower(ToLower(c))) == ToUpper(ToLower(c))
    ensures ToUpper(ToLower(ToUpper(ToLower(c)))) == ToUpper(ToLower(c))
  {
  }

  /** The words of the output are the words of the input, lower-cased and
      then capitalized. */
  lemma ToTitleCaseWords(s: string)
    requires s != ""
    ensures Split(ToTitleCase(s), ' ') == CapitalizeAll(Split(LowerString(s), ' '))
  {
    var ws := CapitalizeAll(Split(LowerString(s), ' '));
    SplitJoin(ws, ' ');
  }

  // ---------------------------------------------------------------------------
  // formatDuration

  const MsPerSecond: nat := 1000
  const MsPerMinute: nat := 60 * 1000
  const MsPerHour: nat := 60 * 60 * 1000
  const MsPerDay: nat := 24 * 60 * 60 * 1000

  /** The four `Math.floor` components, for a whole number of milliseconds. */
  datatype Components = Components(days: nat, hours: nat, minutes: nat, seconds: nat)

  function Split4(ms: nat): (c: Components)
    ensures c.hours < 24 && c.minutes < 60 && c.seconds < 60
    ensures var total := c.days * MsPerDay + c.hours * MsPerHour + c.minutes * MsPerMinute + c.seconds * MsPerSecond;
      total <= ms < total + 1000
  {
    var c := Components(ms / MsPerDay, (ms / MsPerHour) % 24, (ms / MsPerMinute) % 60, (ms / MsPerSecond) % 60);
    var sec := ms / 1000;
    assert ms / MsPerMinute == sec / 60;
    assert ms / MsPerHour == sec / 3600;
    assert ms / MsPerDay == sec / 86400;
    assert sec / 3600 == (sec / 60) / 60;
    assert sec / 86400 == (sec / 3600) / 24;
    c
  }

  /** The non-zero units in the order days, hours, minutes, seconds; seconds
      also when nothing else was listed. */
  function DurationParts(c: Components): (parts: seq<string>)
    ensures |parts| >= 1
  {
    var before := UnitList(c.days, 'd', c.days > 0) + UnitList(c.hours, 'h', c.hours > 0)
      + UnitList(c.minutes, 'm', c.minutes > 0);
    before + UnitList(c.seconds, 's', c.seconds > 0 || |before| == 0)
  }

  /** `${n}${unit}` when the unit is shown, nothing otherwise. */
  function UnitList(n: nat, unit: char, shown: bool): seq<string> {
    if shown then [NatToString(n) + [unit]] else []
  }

  /** `formatDuration(ms)` for a whole number of milliseconds. */
  function FormatDuration(ms: int): (r: string)
    ensures ms < 0 ==> r == "0s"
    ensures |r| >= 2
  {
    if ms < 0 then "0s"
    else
      var parts := DurationParts(Split4(ms));
      JoinLength(parts);
      Join(parts, ' ')
  }

  lemma JoinLength(parts: seq<string>)
    requires |parts| >= 1 && |parts[0]| >= 2
    ensures |Join(parts, ' ')| >= 2
  {
  }

  /** The value one part of the text denotes, in milliseconds. */
  function PartValue(p: string): Option<nat> {
    if |p| < 2 || !AllDigits(p[..|p| - 1]) then None
    else
      var n := DigitsValue(p[..|p| - 1]);
      var unit := p[|p| - 1];
      if unit == 'd' then Some(n * MsPerDay)
      else if unit == 'h' then Some(n * MsPerHour)
      else if unit == 'm' then Some(n * MsPerMinute)
      else if unit == 's' then Some(n * MsPerSecond)
      else None
  }

  function SumParts(ps: seq<string>): Option<nat>
    decreases |ps|
  {
    if |ps| == 0 then Some(0)
    else
      var head := PartValue(ps[0]);
      var rest := SumParts(ps[1..]);
      if head.Some? && rest.Some? then Some(head.value + rest.value) else None
  }

  /** Reading a duration text back: the sum of its space-separated parts. */
  function ParseDuration(text: string): Option<nat> {
    SumParts(Split(text, ' '))
  }

  lemma UnitPart(n: nat, unit: char)
    ensures var p := NatToString(n) + [unit];
      |p| >= 2 && p[..|p| - 1] == NatToString(n) && p[|p| - 1] == unit
      && AllDigits(p[..|p| - 1]) && DigitsValue(p[..|p| - 1]) == n
  {
    var p := NatToString(n) + [unit];
    assert p[..|p| - 1] == NatToString(n);
    DigitsValueOfNatToString(n);
  }

  lemma NoSpaceInPart(n: nat, unit: char)
    requires unit != ' '
    ensures ' ' !in NatToString(n) + [unit]
  {
    var p := NatToString(n) + [unit];
    forall i | 0 <= i < |p|
      ensures p[i] != ' '
    {
      if i < |p| - 1 {
        assert p[i] == NatToString(n)[i];
      }
    }
  }

  lemma {:induction false} SumAppend(a: seq<string>, b: seq<string>)
    requires SumParts(a).Some? && SumParts(b).Some?
    ensures SumParts(a + b) == Some(SumParts(a).value + SumParts(b).value)
    decreases |a|
  {
    if |a| > 0 {
      assert (a + b)[0] == a[0];
      assert (a + b)[1..] == a[1..] + b;
      SumAppend(a[1..], b);
    } else {
      assert a + b == b;
    }
  }

  lemma SumUnitList(n: nat, unit: char, factor: nat, shown: bool)
    requires unit in "dhms"
    requires factor == (if unit == 'd' then MsPerDay else if unit == 'h' then MsPerHour
                        else if unit == 'm' then MsPerMinute else MsPerSecond)
    ensures SumParts(UnitList(n, unit, shown)) == Some(if shown then n * factor else 0)
  {
    if shown {
      UnitPart(n, unit);
      var l := [NatToString(n) + [unit]];
      assert l[1..] == [];
    }
  }

  lemma UnitListSpaceFree(n: nat, unit: char, shown: bool)
    requires unit != ' '
    ensures forall k :: 0 <= k < |UnitList(n, unit, shown)| ==> ' ' !in UnitList(n, unit, shown)[k]
  {
    if shown {
      NoSpaceInPart(n, unit);
    }
  }

  /** The listed parts add up to the components' total. */
  lemma {:induction false} SumDurationParts(c: Components)
    ensures SumParts(DurationParts(c)) ==
      Some(c.days * MsPerDay + c.hours * MsPerHour + c.minutes * MsPerMinute + c.seconds * MsPerSecond)
  {
    var d := UnitList(c.days, 'd', c.days > 0);
    var h := UnitList(c.hours, 'h', c.hours > 0);
    var m := UnitList(c.minutes, 'm', c.minutes > 0);
    var shown := c.seconds > 0 || |d + h + m| == 0;
    var t := UnitList(c.seconds, 's', shown);
    SumUnitList(c.days, 'd', MsPerDay, c.days > 0);
    SumUnitList(c.hours, 'h', MsPerHour, c.hours > 0);
    SumUnitList(c.minutes, 'm', MsPerMinute, c.minutes > 0);
    SumUnitList(c.seconds, 's', MsPerSecond, shown);
    SumFour(d, h, m, t, c.days * MsPerDay, c.hours * MsPerHour, c.minutes * MsPerMinute,
      c.seconds * MsPerSecond);
    assert DurationParts(c) == d + h + m + t;
  }

  lemma {:induction false} SumFour(d: seq<string>, h: seq<string>, m: seq<string>, t: seq<string>,
                                   vd: nat, vh: nat, vm: nat, vt: nat)
    requires SumParts(d) == Some(vd) && SumParts(h) == Some(vh)
    requires SumParts(m) == Some(vm) && SumParts(t) == Some(vt)
    ensures SumParts(d + h + m + t) == Some(vd + vh + vm + vt)
  {
    SumAppend(d, h);
    SumAppend(d + h, m);
    SumAppend(d + h + m, t);
  }

  /** No part of the duration text holds a space. */
  lemma DurationPartsSpaceFree(c: Components)
    ensures forall k :: 0 <= k < |DurationParts(c)| ==> ' ' !in DurationParts(c)[k]
  {
    var d := UnitList(c.days, 'd', c.days > 0);
    var h := UnitList(c.hours, 'h', c.hours > 0);
    var m := UnitList(c.minutes, 'm', c.minutes > 0);
    var shown := c.seconds > 0 || |d + h + m| == 0;
    var t := UnitList(c.seconds, 's', shown);
    assert DurationParts(c) == d + h + m + t;
    UnitListSpaceFree(c.days, 'd', c.days > 0);
    UnitListSpaceFree(c.hours, 'h', c.hours > 0);
    UnitListSpaceFree(c.minutes, 'm', c.minutes > 0);
    UnitListSpaceFree(c.seconds, 's', shown);
    NoSpaceInConcat(d, h);
    NoSpaceInConcat(d + h, m);
    NoSpaceInConcat(d + h + m, t);
  }

  lemma NoSpaceInConcat(a: seq<string>, b: seq<string>)
    requires forall k :: 0 <= k < |a| ==> ' ' !in a[k]
    requires forall k :: 0 <= k < |b| ==> ' ' !in b[k]
    ensures forall k :: 0 <= k < |a + b| ==> ' ' !in (a + b)[k]
  {
  }

  /** The unit letter that ends a part. */
  function UnitOf(p: string): char {
    if |p| == 0 then ' ' else p[|p| - 1]
  }

  function Units(ps: seq<string>): string {
    seq(|ps|, i requires 0 <= i < |ps| => UnitOf(ps[i]))
  }

  /** The place of a unit in the order days, hours, minutes, seconds. */
  function Rank(u: char): nat {
    if u == 'd' then 0 else if u == 'h' then 1 else if u == 'm' then 2 else 3
  }

  /** The component a unit letter stands for. */
  function Amount(c: Components, u: char): nat {
    if u == 'd' then c.days else if u == 'h' then c.hours else if u == 'm' then c.minutes else c.seconds
  }

  /** The parts name their units in the order days, hours, minutes,
      seconds, each with its component's value; a unit is listed exactly
      when its component is non-zero, except that seconds are also listed
      when nothing else is. */
  lemma DurationPartsUnits(c: Components)
    ensures var ps := DurationParts(c);
      var u := Units(ps);
      && (forall i, j :: 0 <= i < j < |u| ==> Rank(u[i]) < Rank(u[j]))
      && (forall i :: 0 <= i < |ps| ==> u[i] in "dhms" && ps[i] == NatToString(Amount(c, u[i])) + [u[i]])
      && ('d' in u <==> c.days > 0) && ('h' in u <==> c.hours > 0) && ('m' in u <==> c.minutes > 0)
      && ('s' in u <==> c.seconds > 0 || (c.days == 0 && c.hours == 0 && c.minutes == 0))
  {
    var ps := DurationParts(c);
    var quiet := c.days == 0 && c.hours == 0 && c.minutes == 0;
    var bs := c.seconds > 0 || quiet;
    var ld := UnitList(c.days, 'd', c.days > 0);
    var lh := UnitList(c.hours, 'h', c.hours > 0);
    var lm := UnitList(c.minutes, 'm', c.minutes > 0);
    var ls := UnitList(c.seconds, 's', bs);
    assert |ld + lh + lm| == 0 <==> quiet;
    assert ps == ld + lh + lm + ls;
    UnitsOfLists(c, ps, ld, lh, lm, ls, c.days > 0, c.hours > 0, c.minutes > 0, bs);
    LettersFacts(c.days > 0, c.hours > 0, c.minutes > 0, bs);
  }

  /** The units and values of four unit lists put together. */
  lemma UnitsOfLists(c: Components, ps: seq<string>, ld: seq<string>, lh: seq<string>, lm: seq<string>,
                     ls: seq<string>, d: bool, h: bool, m: bool, s: bool)
    requires ld == UnitList(c.days, 'd', d) && lh == UnitList(c.hours, 'h', h)
    requires lm == UnitList(c.minutes, 'm', m) && ls == UnitList(c.seconds, 's', s)
    requires ps == ld + lh + lm + ls
    ensures |Units(ps)| == |ps| && Units(ps) == Letters(d, h, m, s)
    ensures forall i :: 0 <= i < |ps| ==> Units(ps)[i] == UnitOf(ps[i])
    ensures CarriesAmounts(c, ps)
  {
    UnitListFacts(c, c.days, 'd', d);
    UnitListFacts(c, c.hours, 'h', h);
    UnitListFacts(c, c.minutes, 'm', m);
    UnitListFacts(c, c.seconds, 's', s);
    UnitsAppend(ld, lh);
    UnitsAppend(ld + lh, lm);
    UnitsAppend(ld + lh + lm, ls);
    CarryAmounts(c, ld, lh);
    CarryAmounts(c, ld + lh, lm);
    CarryAmounts(c, ld + lh + lm, ls);
    assert Units(ps) == Units(ld) + Units(lh) + Units(lm) + Units(ls);
  }

  lemma UnitListFacts(c: Components, n: nat, x: char, shown: bool)
    requires n == Amount(c, x)
    ensures var l := UnitList(n, x, shown);
      && Units(l) == (if shown then [x] else [])
      && CarriesAmounts(c, l)
  {
    var l := UnitList(n, x, shown);
    if shown {
      assert UnitOf(l[0]) == x;
    }
  }

  /** The unit letters of the parts that are shown, in order. */
  function Letters(d: bool, h: bool, m: bool, s: bool): string {
    (if d then "d" else "") + (if h then "h" else "") + (if m then "m" else "") + (if s then "s" else "")
  }

  lemma LettersFacts(d: bool, h: bool, m: bool, s: bool)
    ensures var u := Letters(d, h, m, s);
      && (forall i, j :: 0 <= i < j < |u| ==> Rank(u[i]) < Rank(u[j]))
      && (forall i :: 0 <= i < |u| ==> u[i] in "dhms")
      && ('d' in u <==> d) && ('h' in u <==> h) && ('m' in u <==> m) && ('s' in u <==> s)
  {
    var t := Letters(false, h, m, s);
    LettersTail(h, m, s);
    if d {
      assert Letters(d, h, m, s) == "d" + t;
      PrependDay(t);
    } else {
      assert Letters(d, h, m, s) == t;
    }
  }

  /** The letters after the day, which leave out `d`. */
  lemma LettersTail(h: bool, m: bool, s: bool)
    ensures var u := Letters(false, h, m, s);
      && (forall i, j :: 0 <= i < j < |u| ==> Rank(u[i]) < Rank(u[j]))
      && (forall i :: 0 <= i < |u| ==> u[i] in "hms")
      && 'd' !in u && ('h' in u <==> h) && ('m' in u <==> m) && ('s' in u <==> s)
  {
    if h {
      assert Letters(false, h, m, s) == "h" + Letters(false, false, m, s);
    }
  }

  /** Putting `d` in front of later units keeps them in order. */
  lemma PrependDay(t: string)
    requires forall i, j :: 0 <= i < j < |t| ==> Rank(t[i]) < Rank(t[j])
    requires forall i :: 0 <= i < |t| ==> t[i] in "hms"
    ensures var u := "d" + t;
      && (forall i, j :: 0 <= i < j < |u| ==> Rank(u[i]) < Rank(u[j]))
      && (forall i :: 0 <= i < |u| ==> u[i] in "dhms")
      && 'd' in u && (forall x :: x != 'd' ==> (x in u <==> x in t))
  {
    var u := "d" + t;
    forall i, j | 0 <= i < j < |u|
      ensures Rank(u[i]) < Rank(u[j])
    {
      assert u[j] == t[j - 1] && t[j - 1] in "hms";
      if i > 0 {
        assert u[i] == t[i - 1];
      }
    }
    forall i | 0 <= i < |u|
      ensures u[i] in "dhms"
    {
      if i > 0 {
        assert u[i] == t[i - 1] && t[i - 1] in "hms";
      }
    }
  }

  lemma UnitsAppend(a: seq<string>, b: seq<string>)
    ensures Units(a + b) == Units(a) + Units(b)
  {
  }

  /** Every part names its unit after that unit's component. */
  predicate CarriesAmounts(c: Components, ps: seq<string>) {
    forall i :: 0 <= i < |ps| ==> ps[i] == NatToString(Amount(c, UnitOf(ps[i]))) + [UnitOf(ps[i])]
  }

  lemma CarryAmounts(c: Components, a: seq<string>, b: seq<string>)
    requires CarriesAmounts(c, a) && CarriesAmounts(c, b)
    ensures CarriesAmounts(c, a + b)
  {
  }

  /** The text lists whole components; reading it back gives the duration
      rounded down to whole seconds. */
  lemma FormatDurationRoundTrip(ms: nat)
    ensures ParseDuration(FormatDuration(ms)) == Some(ms - ms % 1000)
  {
    var c := Split4(ms);
    SumDurationParts(c);
    DurationPartsSpaceFree(c);
    SplitJoin(DurationParts(c), ' ');
    DurationTotal(ms);
  }

  lemma DurationTotal(ms: nat)
    ensures var c := Split4(ms);
      c.days * MsPerDay + c.hours * MsPerHour + c.minutes * MsPerMinute + c.seconds * MsPerSecond
        == ms - ms % 1000
  {
    var c := Split4(ms);
    var sec := ms / 1000;
    var a := sec / 60;
    var b := a / 60;
    var d := b / 24;
    assert ms / 60000 == a;
    assert ms / 3600000 == b;
    assert ms / 86400000 == d;
    assert c.seconds == sec % 60 && c.minutes == a % 60 && c.hours == b % 24 && c.days == d;
    assert sec == 60 * a + sec % 60;
    assert a == 60 * b + a % 60;
    assert b == 24 * d + b % 24;
  }
}
