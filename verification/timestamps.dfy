/** The `YYYY-MM-DD HH:MM ET` timestamp the header scripts write
    (`getCurrentTimestamp` in each of them), and the two patterns the header
    updater recognises in an existing `@created` value. The clock and the
    time-zone arithmetic are not modelled: the calendar fields are given. */
module Timestamps {
  import opened Wrappers
  import opened Strings

  /** The calendar fields of the shifted clock; `month` is already 1-based
      (`getUTCMonth() + 1`). */
  datatype Stamp = Stamp(year: nat, month: nat, day: nat, hours: nat, minutes: nat)

  /** Fields a real clock produces, with a four-digit year. */
  predicate Valid(t: Stamp) {
    1000 <= t.year <= 9999 && 1 <= t.month <= 12 && 1 <= t.day <= 31 && t.hours < 24 && t.minutes < 60
  }

  /** `${year}-${month}-${day}`, the year unpadded, the rest `padStart(2, '0')`. */
  function DatePart(t: Stamp): string {
    NatToString(t.year) + "-" + Pad2(t.month) + "-" + Pad2(t.day)
  }

  function TimePart(t: Stamp): string {
    Pad2(t.hours) + ":" + Pad2(t.minutes)
  }

  /** `getCurrentTimestamp()`. */
  function Format(t: Stamp): string {
    DatePart(t) + " " + TimePart(t) + " ET"
  }

  // ---------------------------------------------------------------------------
  // The patterns

  /** `\d{n}` at `i`. */
  predicate DigitsAt(s: string, i: nat, n: nat) {
    i + n <= |s| && AllDigits(s[i..i + n])
  }

  /** `\d{4}-\d{2}-\d{2}` at `i`. */
  predicate DateAt(s: string, i: nat) {
    i + 10 <= |s| && DigitsAt(s, i, 4) && s[i + 4] == '-' && DigitsAt(s, i + 5, 2)
    && s[i + 7] == '-' && DigitsAt(s, i + 8, 2)
  }

  /** `\d{4}-\d{2}-\d{2} \d{2}:\d{2} ET` at `i`. */
  predicate FullStampAt(s: string, i: nat) {
    i + 19 <= |s| && DateAt(s, i) && s[i + 10] == ' ' && DigitsAt(s, i + 11, 2) && s[i + 13] == ':'
    && DigitsAt(s, i + 14, 2) && s[i + 16..i + 19] == " ET"
  }

  /** `s.match(/\d{4}-\d{2}-\d{2} \d{2}:\d{2} ET/)` succeeds: the pattern
      occurs anywhere in `s`. */
  predicate ContainsFullStamp(s: string) {
    exists i: nat :: i + 19 <= |s| && FullStampAt(s, i)
  }

  /** `s.match(/\d{4}-\d{2}-\d{2}/)` succeeds. */
  predicate ContainsDate(s: string) {
    exists i: nat :: i + 10 <= |s| && DateAt(s, i)
  }

  /** Any full-stamp match is also a date match. */
  lemma FullStampHasDate(s: string)
    requires ContainsFullStamp(s)
    ensures ContainsDate(s)
  {
    var i: nat :| i + 19 <= |s| && FullStampAt(s, i);
    assert DateAt(s, i);
  }

  // ---------------------------------------------------------------------------
  // Reading a timestamp back

  /** The fields of a text that is exactly one timestamp. */
  function ParseStamp(s: string): Option<Stamp> {
    if |s| == 19 && FullStampAt(s, 0) then
      Some(Stamp(DigitsValue(s[0..4]), DigitsValue(s[5..7]), DigitsValue(s[8..10]),
        DigitsValue(s[11..13]), DigitsValue(s[14..16])))
    else None
  }

  lemma NatToString4(n: nat)
    requires 1000 <= n <= 9999
    ensures |NatToString(n)| == 4
  {
    assert NatToString(n) == NatToString(n / 10) + [DigitChar(n % 10)];
    assert NatToString(n / 10) == NatToString(n / 100) + [DigitChar((n / 10) % 10)];
    assert NatToString(n / 100) == NatToString(n / 1000) + [DigitChar((n / 100) % 10)];
  }

  /** A valid timestamp is nineteen characters matching the full pattern,
      and reading it back gives its fields. */
  lemma FormatRoundTrip(t: Stamp)
    requires Valid(t)
    ensures |Format(t)| == 19 && FullStampAt(Format(t), 0)
    ensures ParseStamp(Format(t)) == Some(t)
  {
    NatToString4(t.year);
    DigitsValueOfNatToString(t.year);
    var y, mo, d, h, mi := NatToString(t.year), Pad2(t.month), Pad2(t.day), Pad2(t.hours), Pad2(t.minutes);
    var s := Format(t);
    assert s == y + "-" + mo + "-" + d + " " + h + ":" + mi + " ET";
    assert s[0..4] == y;
    assert s[5..7] == mo;
    assert s[8..10] == d;
    assert s[11..13] == h;
    assert s[14..16] == mi;
    assert s[16..19] == " ET";
  }

  /** The date of a valid timestamp is ten characters matching the date
      pattern. */
  lemma DatePartMatches(t: Stamp)
    requires Valid(t)
    ensures |DatePart(t)| == 10 && DateAt(DatePart(t), 0)
  {
    var d := DatePart(t);
    var f := Format(t);
    FormatRoundTrip(t);
    NatToString4(t.year);
    assert f == d + (" " + TimePart(t) + " ET");
    assert d == f[..10];
    assert d[0..4] == f[0..4] && d[5..7] == f[5..7] && d[8..10] == f[8..10];
  }

  /** Every valid timestamp satisfies both patterns. */
  lemma FormatMatchesPatterns(t: Stamp)
    requires Valid(t)
    ensures ContainsFullStamp(Format(t)) && ContainsDate(Format(t))
  {
    FormatRoundTrip(t);
    FullStampHasDate(Format(t));
  }

  /** Neither part holds a character other than digits, `-` and `:`. */
  lemma PartsAvoid(t: Stamp, c: char)
    requires !IsDigit(c) && c != '-' && c != ':'
    ensures c !in DatePart(t) && c !in TimePart(t)
  {
    var y, mo, d, h, mi := NatToString(t.year), Pad2(t.month), Pad2(t.day), Pad2(t.hours), Pad2(t.minutes);
    assert c !in y && c !in mo && c !in d && c !in h && c !in mi;
    assert DatePart(t) == y + "-" + mo + "-" + d;
    assert TimePart(t) == h + ":" + mi;
  }

  /** A timestamp is one line. */
  lemma FormatSingleLine(t: Stamp)
    ensures '\n' !in Format(t)
  {
    PartsAvoid(t, '\n');
  }

  /** `timestamp.split(' ')` gives the date, the time and `ET`. */
  lemma FormatWords(t: Stamp)
    ensures Split(Format(t), ' ') == [DatePart(t), TimePart(t), "ET"]
  {
    PartsAvoid(t, ' ');
    var words := [DatePart(t), TimePart(t), "ET"];
    assert words[1..][1..] == ["ET"];
    assert Join(words[1..], ' ') == TimePart(t) + " ET";
    assert Join(words, ' ') == Format(t);
    SplitJoin(words, ' ');
  }

  /** `timestamp.split(' ')[1] + ' ' + timestamp.split(' ')[2]`; a missing
      piece reads as `undefined`. */
  function TimeOfDay(ts: string): string {
    var w := Split(ts, ' ');
    (if |w| > 1 then w[1] else "undefined") + " " + (if |w| > 2 then w[2] else "undefined")
  }

  /** For a produced timestamp that is `HH:MM ET`. */
  lemma TimeOfDayOfFormat(t: Stamp)
    ensures TimeOfDay(Format(t)) == TimePart(t) + " ET"
  {
    FormatWords(t);
  }
}
