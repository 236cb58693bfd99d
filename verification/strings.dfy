/** Character classes and string helpers shared by the model: JavaScript's
    white-space class, ASCII case mapping, decimal rendering, `trim`, and
    `split`/`join` on a single separator character. */
module Strings {

  /** The characters JavaScript's `\s` class and `String.prototype.trim`
      treat as white space (WhiteSpace and LineTerminator of ECMA-262). */
  predicate IsWhitespace(c: char) {
    || c == ' ' || c == '\t' || c == '\n' || c == '\U{000B}' || c == '\U{000C}' || c == '\r'
    || c == '\U{00A0}' || c == '\U{1680}' || ('\U{2000}' <= c <= '\U{200A}')
    || c == '\U{2028}' || c == '\U{2029}' || c == '\U{202F}' || c == '\U{205F}'
    || c == '\U{3000}' || c == '\U{FEFF}'
  }

  predicate AllWhitespace(s: string) {
    forall i :: 0 <= i < |s| ==> IsWhitespace(s[i])
  }

  /** JavaScript's `\d`: the ASCII digits only. */
  predicate IsDigit(c: char) {
    '0' <= c <= '9'
  }

  predicate AllDigits(s: string) {
    forall i :: 0 <= i < |s| ==> IsDigit(s[i])
  }

  predicate IsAsciiUpper(c: char) {
    'A' <= c <= 'Z'
  }

  predicate IsAsciiLower(c: char) {
    'a' <= c <= 'z'
  }

  /** JavaScript's `length`: the number of UTF-16 code units, so a
      character above U+FFFF (a surrogate pair) counts twice. */
  function Utf16Length(s: string): (n: nat)
    ensures |s| <= n <= 2 * |s|
    ensures n == |s| <==> forall i :: 0 <= i < |s| ==> s[i] as int < 0x10000
    decreases |s|
  {
    if |s| == 0 then 0
    else
      var n := (if s[0] as int < 0x10000 then 1 else 2) + Utf16Length(s[1..]);
      assert forall i :: 1 <= i < |s| ==> s[i] == s[1..][i - 1];
      n
  }

  /** The UTF-16 length of a concatenation is the sum of the parts'. */
  lemma {:induction false} Utf16Append(a: string, b: string)
    ensures Utf16Length(a + b) == Utf16Length(a) + Utf16Length(b)
    decreases |a|
  {
    if |a| > 0 {
      assert (a + b)[0] == a[0] && (a + b)[1..] == a[1..] + b;
      Utf16Append(a[1..], b);
    } else {
      assert a + b == b;
    }
  }

  /** `substring(0, n)` on whole characters: the longest prefix whose UTF-16
      length is at most `n` (`UnitPrefixLongest`). When `n` falls inside a
      surrogate pair, JavaScript keeps the pair's first half; a string of
      characters cannot hold that half, so the pair is left out whole. */
  function UnitPrefix(s: string, n: nat): (p: string)
    ensures p <= s && Utf16Length(p) <= n
    decreases |s|
  {
    if |s| == 0 then ""
    else
      var w := if s[0] as int < 0x10000 then 1 else 2;
      if n < w then ""
      else
        var q := UnitPrefix(s[1..], n - w);
        Utf16Append([s[0]], q);
        [s[0]] + q
  }

  /** No longer prefix fits: the next character would overrun `n`. */
  lemma {:induction false} UnitPrefixLongest(s: string, n: nat)
    ensures var p := UnitPrefix(s, n);
      p != s ==> Utf16Length(p + [s[|p|]]) > n
    decreases |s|
  {
    var p := UnitPrefix(s, n);
    if |s| > 0 && p != s {
      var w := if s[0] as int < 0x10000 then 1 else 2;
      assert Utf16Length([s[0]]) == w;
      if n >= w {
        var q := UnitPrefix(s[1..], n - w);
        assert p == [s[0]] + q;
        UnitPrefixLongest(s[1..], n - w);
        assert s[|p|] == s[1..][|q|];
        assert p + [s[|p|]] == [s[0]] + (q + [s[1..][|q|]]);
        Utf16Append([s[0]], q + [s[1..][|q|]]);
      } else {
        assert p + [s[|p|]] == [s[0]];
      }
    }
  }

  /** On text inside the Basic Multilingual Plane, the cut is the plain
      character prefix of length `n`. */
  lemma {:induction false} UnitPrefixBmp(s: string, n: nat)
    requires forall i :: 0 <= i < |s| ==> s[i] as int < 0x10000
    ensures UnitPrefix(s, n) == s[..if n < |s| then n else |s|]
    decreases |s|
  {
    if |s| > 0 && n >= 1 {
      assert forall i :: 0 <= i < |s| - 1 ==> s[1..][i] == s[i + 1];
      UnitPrefixBmp(s[1..], n - 1);
    }
  }

  /** `toUpperCase` restricted to ASCII: other characters are left alone. */
  function ToUpper(c: char): (r: char)
    ensures !IsAsciiLower(r)
    ensures IsAsciiLower(c) <==> r != c
  {
    if IsAsciiLower(c) then (c as int - 32) as char else c
  }

  /** `toLowerCase` restricted to ASCII: other characters are left alone. */
  function ToLower(c: char): (r: char)
    ensures !IsAsciiUpper(r)
    ensures IsAsciiUpper(c) <==> r != c
  {
    if IsAsciiUpper(c) then (c as int + 32) as char else c
  }

  function LowerString(s: string): (r: string)
    ensures |r| == |s|
    ensures forall i :: 0 <= i < |s| ==> r[i] == ToLower(s[i])
  {
    seq(|s|, i requires 0 <= i < |s| => ToLower(s[i]))
  }

  function StartsWith(s: string, prefix: string): bool {
    |prefix| <= |s| && s[..|prefix|] == prefix
  }

  /** `s.replace(/x/g, y)` for a single character `x`. */
  function ReplaceChar(s: string, x: char, y: char): (r: string)
    ensures |r| == |s|
    ensures forall i :: 0 <= i < |s| ==> r[i] == (if s[i] == x then y else s[i])
  {
    seq(|s|, i requires 0 <= i < |s| => if s[i] == x then y else s[i])
  }

  // ---------------------------------------------------------------------------
  // Decimal numbers

  function DigitChar(d: nat): (c: char)
    requires d < 10
    ensures IsDigit(c)
  {
    ('0' as int + d) as char
  }

  function DigitValue(c: char): (d: nat)
    requires IsDigit(c)
    ensures d < 10 && DigitChar(d) == c
  {
    c as int - '0' as int
  }

  /** `String(n)` for a non-negative integer: its decimal digits, without
      leading zeros. */
  function NatToString(n: nat): (r: string)
    ensures |r| >= 1 && AllDigits(r)
    ensures r[0] == '0' ==> n == 0
    decreases n
  {
    if n < 10 then [DigitChar(n)] else NatToString(n / 10) + [DigitChar(n % 10)]
  }

  /** `String(i)` for any integer. */
  function IntToString(i: int): string {
    if i < 0 then "-" + NatToString(-i) else NatToString(i)
  }

  /** The number a string of decimal digits denotes (most significant first). */
  function DigitsValue(s: string): nat
    requires AllDigits(s)
  {
    if |s| == 0 then 0 else DigitsValue(s[..|s| - 1]) * 10 + DigitValue(s[|s| - 1])
  }

  /** Decimal rendering is inverted by reading the digits back. */
  lemma {:induction false} DigitsValueOfNatToString(n: nat)
    ensures DigitsValue(NatToString(n)) == n
    decreases n
  {
    if n >= 10 {
      var r := NatToString(n);
      assert r[..|r| - 1] == NatToString(n / 10);
      DigitsValueOfNatToString(n / 10);
    }
  }

  /** Decimal rendering is injective. */
  lemma NatToStringInjective(m: nat, n: nat)
    requires NatToString(m) == NatToString(n)
    ensures m == n
  {
    DigitsValueOfNatToString(m);
    DigitsValueOfNatToString(n);
  }

  /** `String(n).padStart(2, '0')`. */
  function Pad2(n: nat): (r: string)
    ensures |r| >= 2 && AllDigits(r)
    ensures n < 100 ==> |r| == 2
    ensures DigitsValue(r) == n
  {
    DigitsValueOfNatToString(n);
    if n < 10 then
      var r := "0" + NatToString(n);
      assert r[..|r| - 1] == "0";
      r
    else
      NatToString(n)
  }

  // ---------------------------------------------------------------------------
  // Trimming

  /** The number of white-space characters at the start of `s`. */
  function LeadingWhitespace(s: string): (n: nat)
    ensures n <= |s|
    ensures AllWhitespace(s[..n])
    ensures n < |s| ==> !IsWhitespace(s[n])
    ensures n == |s| <==> AllWhitespace(s)
    decreases |s|
  {
    if |s| > 0 && IsWhitespace(s[0]) then
      var n := 1 + LeadingWhitespace(s[1..]);
      assert forall i :: 1 <= i < n ==> s[..n][i] == s[1..][..n - 1][i - 1];
      n
    else 0
  }

  /** The number of white-space characters at the end of `s`. */
  function TrailingWhitespace(s: string): (n: nat)
    ensures n <= |s|
    ensures AllWhitespace(s[|s| - n..])
    ensures n < |s| ==> !IsWhitespace(s[|s| - n - 1])
    ensures n == |s| <==> AllWhitespace(s)
    decreases |s|
  {
    if |s| > 0 && IsWhitespace(s[|s| - 1]) then
      var n := 1 + TrailingWhitespace(s[..|s| - 1]);
      n
    else 0
  }

  /** `String.prototype.trim`: the text between the leading and the trailing
      white space. */
  function Trim(s: string): (r: string)
    ensures |r| <= |s|
    ensures |r| > 0 ==> !IsWhitespace(r[0]) && !IsWhitespace(r[|r| - 1])
    ensures |r| == 0 <==> AllWhitespace(s)
    ensures LeadingWhitespace(s) + |r| <= |s|
    ensures r == s[LeadingWhitespace(s)..LeadingWhitespace(s) + |r|]
    ensures AllWhitespace(s[LeadingWhitespace(s) + |r|..])
  {
    var a := LeadingWhitespace(s);
    var t := s[a..];
    var b := TrailingWhitespace(t);
    var r := t[..|t| - b];
    assert r == s[a..a + |r|];
    assert s[a + |r|..] == t[|t| - b..];
    assert a < |s| ==> t[0] == s[a];
    r
  }

  lemma AllWhitespaceAppend(x: string, y: string)
    requires AllWhitespace(x) && AllWhitespace(y)
    ensures AllWhitespace(x + y)
  {
    forall k | 0 <= k < |x + y| ensures IsWhitespace((x + y)[k]) {
      if k >= |x| { assert (x + y)[k] == y[k - |x|]; }
    }
  }

  lemma LeadingWhitespaceAppend(w: string, u: string)
    requires AllWhitespace(w)
    requires |u| > 0 && !IsWhitespace(u[0])
    ensures LeadingWhitespace(w + u) == |w|
  {
    var s := w + u;
    var n := LeadingWhitespace(s);
    assert s[|w|] == u[0];
    assert forall k :: 0 <= k < |w| ==> s[k] == w[k];
    assert forall k :: 0 <= k < n ==> IsWhitespace(s[k]) by {
      forall k | 0 <= k < n ensures IsWhitespace(s[k]) { assert s[..n][k] == s[k]; }
    }
  }

  /** A prefix of `t + w2` that ends in a non-white-space character and is
      followed only by white space is `t` itself, when `t` ends in a
      non-white-space character and `w2` is white space. */
  lemma PrefixBeforeWhitespace(u: string, t: string, w2: string, r: string)
    requires u == t + w2 && AllWhitespace(w2)
    requires |t| > 0 && !IsWhitespace(t[|t| - 1])
    requires |r| > 0 && |r| <= |u| && r == u[..|r|] && !IsWhitespace(r[|r| - 1])
    requires AllWhitespace(u[|r|..])
    ensures r == t
  {
    assert forall k :: |r| <= k < |u| ==> IsWhitespace(u[k]) by {
      forall k | |r| <= k < |u| ensures IsWhitespace(u[k]) { assert u[|r|..][k - |r|] == u[k]; }
    }
    assert forall k :: |t| <= k < |u| ==> IsWhitespace(u[k]) by {
      forall k | |t| <= k < |u| ensures IsWhitespace(u[k]) { assert u[k] == w2[k - |t|]; }
    }
    assert u[|t| - 1] == t[|t| - 1];
    assert u[|r| - 1] == r[|r| - 1];
    assert |r| == |t|;
    assert r == u[..|t|] == t;
  }

  lemma TrimNonEmpty(w1: string, t: string, w2: string)
    requires AllWhitespace(w1) && AllWhitespace(w2)
    requires |t| > 0 && !IsWhitespace(t[0]) && !IsWhitespace(t[|t| - 1])
    ensures Trim(w1 + (t + w2)) == t
  {
    var u := t + w2;
    var s := w1 + u;
    LeadingWhitespaceAppend(w1, u);
    var L := |w1|;
    var r := Trim(s);
    assert s[L] == t[0];
    assert s[L..] == u;
    assert |r| > 0;
    assert r == u[..|r|];
    assert s[L + |r|..] == u[|r|..];
    PrefixBeforeWhitespace(u, t, w2, r);
  }

  /** A text is its leading white space, its trimmed text and its trailing
      white space. */
  lemma TrimSplit(s: string) returns (w1: string, w2: string)
    ensures AllWhitespace(w1) && AllWhitespace(w2)
    ensures s == w1 + Trim(s) + w2
  {
    var t := Trim(s);
    var n := LeadingWhitespace(s);
    var m := n + |t|;
    assert t == s[n..m];
    w1, w2 := s[..n], s[m..];
    assert s[..m] == w1 + t;
    assert s == s[..m] + w2;
  }

  /** Trimming is determined by its result: a text that is white space, then
      a piece that neither starts nor ends with white space, then white
      space, trims to that piece. */
  lemma TrimExact(w1: string, t: string, w2: string)
    requires AllWhitespace(w1) && AllWhitespace(w2)
    requires |t| > 0 ==> !IsWhitespace(t[0]) && !IsWhitespace(t[|t| - 1])
    ensures Trim(w1 + t + w2) == t
  {
    var s := w1 + t + w2;
    if |t| == 0 {
      assert s == w1 + w2;
      AllWhitespaceAppend(w1, w2);
    } else {
      assert s == w1 + (t + w2);
      TrimNonEmpty(w1, t, w2);
    }
  }

  // ---------------------------------------------------------------------------
  // Splitting and joining on one separator character

  /** `s.split(sep)` for a one-character separator: the maximal separator-free
      pieces, always at least one (the empty string splits into `[""]`). */
  function Split(s: string, sep: char): (parts: seq<string>)
    ensures |parts| >= 1
    ensures forall i :: 0 <= i < |parts| ==> sep !in parts[i]
    decreases |s|
  {
    if |s| == 0 then [""]
    else
      var tail := Split(s[1..], sep);
      if s[0] == sep then [""] + tail
      else [[s[0]] + tail[0]] + tail[1..]
  }

  // ---------------------------------------------------------------------------
  // Searching

  /** `w` occurs in `s` starting at index `i`. */
  predicate OccursAt(s: string, w: string, i: nat) {
    i + |w| <= |s| && s[i..i + |w|] == w
  }

  /** `s.indexOf(w, from)`: the first occurrence at or after `from`, or -1. */
  function FindFrom(s: string, w: string, from: nat): (i: int)
    ensures i == -1 || (from <= i && OccursAt(s, w, i))
    ensures i == -1 ==> forall j: nat :: from <= j ==> !OccursAt(s, w, j)
    ensures i >= 0 ==> forall j: nat :: from <= j < i ==> !OccursAt(s, w, j)
    decreases |s| - from
  {
    if from + |w| > |s| then -1
    else if OccursAt(s, w, from) then from
    else FindFrom(s, w, from + 1)
  }

  /** `s.includes(w)`. */
  predicate Includes(s: string, w: string) {
    FindFrom(s, w, 0) >= 0
  }

  /** Includes means occurring somewhere. */
  lemma IncludesIff(s: string, w: string)
    ensures Includes(s, w) <==> exists j: nat :: OccursAt(s, w, j)
  {
    if !Includes(s, w) {
      assert forall j: nat :: !OccursAt(s, w, j);
    }
  }

  /** `parts.join(sep)`. */
  function Join(parts: seq<string>, sep: char): string {
    if |parts| == 0 then ""
    else if |parts| == 1 then parts[0]
    else parts[0] + [sep] + Join(parts[1..], sep)
  }

  /** A character in none of the pieces, and not the separator, is not in
      their join. */
  lemma {:induction false} JoinAvoids(parts: seq<string>, sep: char, c: char)
    requires c != sep
    requires forall k :: 0 <= k < |parts| ==> c !in parts[k]
    ensures c !in Join(parts, sep)
    decreases |parts|
  {
    if |parts| > 1 {
      JoinAvoids(parts[1..], sep, c);
    }
  }

  /** Joining the pieces of a split restores the original string. */
  lemma {:induction false} JoinSplit(s: string, sep: char)
    ensures Join(Split(s, sep), sep) == s
    decreases |s|
  {
    if |s| > 0 {
      var tail := Split(s[1..], sep);
      JoinSplit(s[1..], sep);
      if s[0] != sep && |tail| > 1 {
        assert Join(tail, sep) == tail[0] + [sep] + Join(tail[1..], sep);
        assert Split(s, sep)[1..] == tail[1..];
      }
    }
  }

  lemma {:induction false} SplitPrefix(w: string, rest: string, sep: char)
    requires sep !in w
    ensures Split(w + rest, sep) == [w + Split(rest, sep)[0]] + Split(rest, sep)[1..]
    decreases |w|
  {
    if |w| > 0 {
      var s := w + rest;
      var r := Split(rest, sep);
      assert s[0] == w[0] && s[0] != sep;
      assert s[1..] == w[1..] + rest;
      SplitPrefix(w[1..], rest, sep);
      var tail := Split(s[1..], sep);
      assert tail[0] == w[1..] + r[0];
      assert Split(s, sep) == [[s[0]] + tail[0]] + tail[1..];
      assert [w[0]] + (w[1..] + r[0]) == w + r[0];
    } else {
      assert w == "";
      assert w + rest == rest;
      var r := Split(rest, sep);
      assert r == [r[0]] + r[1..];
      assert w + r[0] == r[0];
    }
  }

  /** Splitting a join of separator-free pieces gives the pieces back. */
  lemma {:induction false} SplitJoin(parts: seq<string>, sep: char)
    requires |parts| >= 1
    requires forall i :: 0 <= i < |parts| ==> sep !in parts[i]
    ensures Split(Join(parts, sep), sep) == parts
    decreases |parts|
  {
    if |parts| == 1 {
      SplitPrefix(parts[0], "", sep);
      assert parts[0] + "" == parts[0];
    } else {
      var rest := Join(parts[1..], sep);
      SplitJoin(parts[1..], sep);
      var r := Split(rest, sep);
      assert r == parts[1..];
      assert Join(parts, sep) == parts[0] + ([sep] + rest);
      SplitPrefix(parts[0], [sep] + rest, sep);
      assert ([sep] + rest)[1..] == rest;
      var S := Split([sep] + rest, sep);
      assert S == [""] + r;
      assert S[0] == "" && S[1..] == r;
      assert parts[0] + "" == parts[0];
      assert parts == [parts[0]] + parts[1..];
    }
  }
}
