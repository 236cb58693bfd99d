/** The header refresher (app/update-headers.js): for one file, find the
    first doc-comment block, carry its description and creation time over,
    and write a fresh header in its place, or in front of a file that has
    none. The file's text, its relative path and the current timestamp are
    parameters; reading, writing, globbing and logging are not modelled. */
module UpdateHeaders {
  import opened Wrappers
  import opened Strings
  import Posix
  import Paths
  import Timestamps
  import HeaderTemplate

  // ---------------------------------------------------------------------------
  // generateFileHeader

  /** `createdDate || timestamp`: an empty carried date falls back to now. */
  function CreatedOr(createdDate: string, timestamp: string): (r: string)
    ensures createdDate != "" ==> r == createdDate
    ensures createdDate == "" ==> r == timestamp
  {
    if createdDate == "" then timestamp else createdDate
  }

  /** The seven lines of a refreshed header. */
  function GeneratedLines(filename: string, description: string, modulePath: string,
                          createdDate: string, timestamp: string): seq<string>
  {
    HeaderTemplate.HeaderLines("/**", " */", filename, description,
                               CreatedOr(createdDate, timestamp), timestamp, modulePath)
  }

  /** `generateFileHeader`: the header lines and then an empty line. */
  function GenerateFileHeader(filename: string, description: string, modulePath: string,
                              createdDate: string, timestamp: string): string
  {
    HeaderTemplate.Document(GeneratedLines(filename, description, modulePath, createdDate, timestamp), "\n")
  }

  // ---------------------------------------------------------------------------
  // The module path

  /** `.replace(/\.[^/.]+$/, '')`: a last dot followed by at least one
      character and no `/` is removed together with what follows it. */
  function StripExtension(s: string): (r: string)
  {
    var d := Posix.LastIndexOfChar(s, '.');
    if 0 <= d && d + 1 < |s| && '/' !in s[d + 1..] then s[..d] else s
  }

  /** The result is the text, or the text with a last `.` and what
      follows it removed, where what follows is non-empty and holds no
      `/`; it is the text exactly when no dot is followed by such a tail. */
  lemma StripExtensionCases(s: string)
    ensures var r := StripExtension(s);
      r == s || (|r| + 1 < |s| && r == s[..|r|] && s[|r|] == '.'
                 && '.' !in s[|r| + 1..] && '/' !in s[|r| + 1..])
    ensures StripExtension(s) == s
      <==> forall e :: 0 <= e < |s| - 1 && s[e] == '.' ==> '.' in s[e + 1..] || '/' in s[e + 1..]
  {
    var d := Posix.LastIndexOfChar(s, '.');
    if 0 <= d && d + 1 < |s| && '/' !in s[d + 1..] {
      assert |s[..d]| < |s|;
    } else {
      NoExtension(s, d);
    }
  }

  /** When the last dot is missing, last, or followed by a `/`, every dot
      is followed by a dot or a `/`. */
  lemma NoExtension(s: string, d: int)
    requires d == Posix.LastIndexOfChar(s, '.')
    requires !(0 <= d && d + 1 < |s| && '/' !in s[d + 1..])
    ensures forall e :: 0 <= e < |s| - 1 && s[e] == '.' ==> '.' in s[e + 1..] || '/' in s[e + 1..]
  {
    forall e | 0 <= e < |s| - 1 && s[e] == '.'
      ensures '.' in s[e + 1..] || '/' in s[e + 1..]
    {
      assert s[e] in s;
      if e < d {
        assert s[e + 1..][d - e - 1] == s[d];
      }
    }
  }

  /** `path.relative(...)` (given as `rel`) with forward slashes and without
      its extension. */
  function ModulePathOf(rel: string): string {
    StripExtension(Paths.Normalize(rel))
  }

  /** A last segment `stem.ext`, with an extension free of dots and
      slashes, loses exactly `.ext`. */
  lemma StripExtensionOf(stem: string, ext: string)
    requires |ext| > 0 && '.' !in ext && '/' !in ext
    ensures StripExtension(stem + "." + ext) == stem
  {
    var s := stem + "." + ext;
    assert s[|stem|] == '.' && s[|stem| + 1..] == ext;
    Posix.LastIndexOfCharIs(s, '.', |stem|);
  }

  /** The module path of `dir/stem.ext`, written with either separator, is
      `dir/stem` with forward slashes. */
  lemma ModulePathOfFile(dir: string, stem: string, ext: string)
    requires |ext| > 0 && '.' !in ext && '/' !in ext && '\\' !in ext
    ensures ModulePathOf(dir + "/" + stem + "." + ext) == Paths.Normalize(dir + "/" + stem)
  {
    var x := dir + "/" + stem;
    var n := Paths.Normalize(x + "." + ext);
    assert n == Paths.Normalize(x) + "." + ext;
    StripExtensionOf(Paths.Normalize(x), ext);
  }

  // ---------------------------------------------------------------------------
  // Finding the header (`headerRegex`)

  /** Where a header match starts, where its closing star-slash is, and
      where the white space after it ends. */
  datatype HeaderMatch = HeaderMatch(start: nat, close: nat, end: nat)

  // The opener (slash, two stars) at `i`, the closer (star, slash) at `j`
  // not overlapping the opener, and `e` ending the white-space run after it.
  predicate HeaderAt(c: string, i: nat, j: nat, e: nat) {
    && OccursAt(c, "/**", i) && i + 3 <= j && OccursAt(c, "*/", j)
    && j + 2 <= e <= |c| && AllWhitespace(c[j + 2..e]) && (e == |c| || !IsWhitespace(c[e]))
  }

  /** The end of the white-space run starting at `k`. */
  function WhitespaceEnd(c: string, k: nat): (e: nat)
    requires k <= |c|
    ensures k <= e <= |c| && AllWhitespace(c[k..e]) && (e == |c| || !IsWhitespace(c[e]))
  {
    var n := LeadingWhitespace(c[k..]);
    assert c[k..][..n] == c[k..k + n];
    k + n
  }

  /** `content.match(headerRegex)`: the leftmost opener, the first closer
      after it (the lazy `[\s\S]*?`), and all the white space that follows
      (the greedy `\s*`); no match at all when there is no opener with a
      closer after it. */
  function FindHeader(c: string): (m: Option<HeaderMatch>)
    ensures m.Some? ==> HeaderAt(c, m.value.start, m.value.close, m.value.end)
    ensures m.Some? ==> forall i: nat :: i < m.value.start ==> !OccursAt(c, "/**", i)
    ensures m.Some? ==> forall j: nat :: m.value.start + 3 <= j < m.value.close ==> !OccursAt(c, "*/", j)
    ensures m.None? <==> forall i: nat, j: nat :: OccursAt(c, "/**", i) && i + 3 <= j ==> !OccursAt(c, "*/", j)
  {
    var i := FindFrom(c, "/**", 0);
    if i < 0 then None
    else
      var j := FindFrom(c, "*/", i + 3);
      if j < 0 then None
      else Some(HeaderMatch(i, j, WhitespaceEnd(c, j + 2)))
  }

  // ---------------------------------------------------------------------------
  // Reading a tag: `/@tag\s+([^\n]+)/`

  /** The pattern matches with `@tag` at `p` and the captured text starting
      at `k`: white space (at least one character) in between and no line
      break at `k`. */
  predicate TagAt(c: string, tag: string, p: nat, k: nat) {
    && OccursAt(c, "@" + tag, p) && p + |tag| + 1 < k < |c|
    && AllWhitespace(c[p + |tag| + 1..k]) && c[k] != '\n'
  }

  /** The latest position in `lo..hi` holding a character other than a line
      break, or -1. */
  function LatestLineStart(c: string, lo: nat, hi: nat): (k: int)
    ensures k == -1 || (lo <= k <= hi && k < |c| && c[k] != '\n')
    ensures k == -1 ==> forall k': nat :: lo <= k' <= hi && k' < |c| ==> c[k'] == '\n'
    ensures k >= 0 ==> forall k': nat :: k < k' <= hi && k' < |c| ==> c[k'] == '\n'
    decreases hi
  {
    if hi < lo then -1
    else if hi < |c| && c[hi] != '\n' then hi
    else if hi == 0 then -1
    else LatestLineStart(c, lo, hi - 1)
  }

  /** The end of the line holding `k`: the next line break or the end. */
  function LineEnd(c: string, k: nat): (e: nat)
    requires k <= |c|
    ensures k <= e <= |c| && '\n' !in c[k..e] && (e == |c| || c[e] == '\n')
    decreases |c| - k
  {
    if k == |c| || c[k] == '\n' then k
    else
      var e := LineEnd(c, k + 1);
      assert c[k..e] == [c[k]] + c[k + 1..e];
      e
  }

  /** With `@tag` at `p`, the capture can start exactly at the positions
      after the first white-space character, up to the end of the run,
      that hold something other than a line break. */
  lemma TagStarts(c: string, tag: string, p: nat)
    requires OccursAt(c, "@" + tag, p)
    ensures var q := p + |tag| + 1; var w := WhitespaceEnd(c, q);
      forall k: nat :: TagAt(c, tag, p, k) <==> q + 1 <= k <= w && k < |c| && c[k] != '\n'
  {
    var q := p + |tag| + 1;
    var w := WhitespaceEnd(c, q);
    forall k: nat | q + 1 <= k <= w && k < |c| && c[k] != '\n'
      ensures TagAt(c, tag, p, k)
    {
      forall x | 0 <= x < k - q ensures IsWhitespace(c[q..k][x]) {
        assert c[q..k][x] == c[q..w][x];
      }
    }
  }

  /** With `@tag` at `p`: the greedy `\s+` takes the whole white-space run,
      and gives characters back only while the capture could not start. */
  function TagMatchAt(c: string, tag: string, p: nat): (k: int)
    requires OccursAt(c, "@" + tag, p)
    ensures k == -1 ==> forall k': nat :: !TagAt(c, tag, p, k')
    ensures k >= 0 ==> TagAt(c, tag, p, k) && forall k': nat :: k < k' ==> !TagAt(c, tag, p, k')
  {
    TagStarts(c, tag, p);
    LatestLineStart(c, p + |tag| + 2, WhitespaceEnd(c, p + |tag| + 1))
  }

  /** The leftmost `@tag` at or after `from` at which the pattern matches,
      with where its capture starts. */
  function TagMatchFrom(c: string, tag: string, from: nat): (m: Option<(nat, nat)>)
    ensures m.Some? ==> from <= m.value.0 && TagAt(c, tag, m.value.0, m.value.1)
    ensures m.Some? ==> forall k: nat :: m.value.1 < k ==> !TagAt(c, tag, m.value.0, k)
    ensures forall p: nat, k: nat :: from <= p && (m.None? || p < m.value.0) ==> !TagAt(c, tag, p, k)
    decreases |c| - from
  {
    var p := FindFrom(c, "@" + tag, from);
    if p < 0 then None
    else
      var k := TagMatchAt(c, tag, p);
      if k >= 0 then Some((p, k))
      else
        var m := TagMatchFrom(c, tag, p + 1);
        NoTagUpTo(c, tag, from, p);
        m
  }

  /** No match starts between `from` and the first `@tag` from there when
      the pattern does not match at that `@tag`. */
  lemma NoTagUpTo(c: string, tag: string, from: nat, p: nat)
    requires FindFrom(c, "@" + tag, from) == p
    requires TagMatchAt(c, tag, p) < 0
    ensures forall p': nat, k': nat :: from <= p' <= p ==> !TagAt(c, tag, p', k')
  {
  }

  /** The match `String.prototype.match` finds: the leftmost `@tag` at which
      the pattern matches, with the capture starting as late as the greedy
      `\s+` allows. */
  ghost predicate LeftmostMatch(c: string, tag: string, p: nat, k: nat) {
    && TagAt(c, tag, p, k)
    && (forall p': nat, k': nat :: p' < p ==> !TagAt(c, tag, p', k'))
    && (forall k': nat :: k < k' ==> !TagAt(c, tag, p, k'))
  }

  /** `header.match(/@tag\s+([^\n]+)/)?.[1]`: the rest of the line from
      where the capture starts, at the leftmost match. */
  function Capture(c: string, tag: string): (v: Option<string>)
    ensures v.Some? ==> |v.value| > 0 && '\n' !in v.value
    ensures v.None? <==> forall p: nat, k: nat :: !TagAt(c, tag, p, k)
    ensures v.Some? ==> exists p: nat, k: nat :: LeftmostMatch(c, tag, p, k) && v.value == c[k..LineEnd(c, k)]
  {
    match TagMatchFrom(c, tag, 0)
    case None => None
    case Some((p, k)) =>
      assert LeftmostMatch(c, tag, p, k);
      Some(c[k..LineEnd(c, k)])
  }

  // ---------------------------------------------------------------------------
  // Carrying the creation time over

  /** The creation time the refreshed header keeps: a value holding a full
      timestamp as it is, a value holding only a date with the current time
      of day appended, anything else dropped (so that the current
      timestamp is used). */
  function CarriedCreated(dateStr: string, timestamp: string): (r: string)
  {
    if Timestamps.ContainsFullStamp(dateStr) then dateStr
    else if Timestamps.ContainsDate(dateStr) then dateStr + " " + Timestamps.TimeOfDay(timestamp)
    else ""
  }

  // ---------------------------------------------------------------------------
  // updateFileHeader

  /** The description and creation date read from an existing header. */
  function CarriedFields(header: string, timestamp: string): (string, string) {
    var description := Capture(header, "description").GetOr("");
    var created := match Capture(header, "created")
      case Some(dateStr) => CarriedCreated(dateStr, timestamp)
      case None => "";
    (description, created)
  }

  /** The new text of a file: the first header replaced by a fresh one
      carrying its description and creation time, or a fresh header put in
      front of a file that has none. The new header is inserted as it is. */
  function Update(content: string, filename: string, modulePath: string, timestamp: string): string {
    match FindHeader(content)
    case None => GenerateFileHeader(filename, "", modulePath, "", timestamp) + content
    case Some(m) =>
      content[..m.start] + Refreshed(content[m.start..m.end], filename, modulePath, timestamp)
        + content[m.end..]
  }

  /** The fresh header that takes the place of `header`. */
  function Refreshed(header: string, filename: string, modulePath: string, timestamp: string): string {
    var (description, created) := CarriedFields(header, timestamp);
    GenerateFileHeader(filename, description, modulePath, created, timestamp)
  }

  /** The replacement text `String.prototype.replace` inserts for a
      replacement string when the pattern has no capture groups: `$$`,
      `$&`, `` $` `` and `$'` are expanded, every other `$` stands for
      itself. */
  function Expand(r: string, matched: string, before: string, after: string): (x: string)
    ensures '$' !in r ==> x == r
    decreases |r|
  {
    if |r| == 0 then ""
    else if r[0] == '$' && |r| >= 2 && r[1] == '$' then "$" + Expand(r[2..], matched, before, after)
    else if r[0] == '$' && |r| >= 2 && r[1] == '&' then matched + Expand(r[2..], matched, before, after)
    else if r[0] == '$' && |r| >= 2 && r[1] == '`' then before + Expand(r[2..], matched, before, after)
    else if r[0] == '$' && |r| >= 2 && r[1] == '\'' then after + Expand(r[2..], matched, before, after)
    else [r[0]] + Expand(r[1..], matched, before, after)
  }

  /** `content.replace(headerRegex, generateFileHeader(...))` as written:
      the new header goes through the replacement-pattern expansion. */
  function UpdateAsWritten(content: string, filename: string, modulePath: string, timestamp: string): string {
    match FindHeader(content)
    case None => GenerateFileHeader(filename, "", modulePath, "", timestamp) + content
    case Some(m) =>
      var header := Refreshed(content[m.start..m.end], filename, modulePath, timestamp);
      content[..m.start] + Expand(header, content[m.start..m.end], content[..m.start], content[m.end..])
        + content[m.end..]
  }

  /** What one file ends in: its new text, or a failure when it could not be
      read (`read` is `None`). */
  datatype FileOutcome = Updated(content: string) | Failed

  /** The header that would take the place of the file's header holds no
      `$`, so `replace` has no pattern in it to expand. */
  predicate PlainReplacement(content: string, filename: string, modulePath: string, timestamp: string) {
    match FindHeader(content)
    case None => true
    case Some(m) => '$' !in Refreshed(content[m.start..m.end], filename, modulePath, timestamp)
  }

  /** `updateFileHeader(filePath)`, as written, with the file's text, its
      path relative to `src` and the current timestamp given. An unreadable
      file fails; otherwise, whenever the new header holds no `$`, the file
      gets exactly the model's refreshed text. */
  function UpdateFileHeader(read: Option<string>, filePath: string, rel: string, timestamp: string): (r: FileOutcome)
    ensures read.None? <==> r == Failed
    ensures read.Some? && PlainReplacement(read.value, Posix.Basename(filePath), ModulePathOf(rel), timestamp)
      ==> r == Updated(Update(read.value, Posix.Basename(filePath), ModulePathOf(rel), timestamp))
  {
    match read
    case None => Failed
    case Some(content) => Updated(UpdateAsWritten(content, Posix.Basename(filePath), ModulePathOf(rel), timestamp))
  }

  // ---------------------------------------------------------------------------
  // Searching a generated header

  /** No `x` directly followed by `y` in `s`. */
  predicate PairFree(s: string, x: char, y: char) {
    forall j :: 0 <= j < |s| - 1 ==> !(s[j] == x && s[j + 1] == y)
  }

  lemma PairFreeConcat(a: string, b: string, x: char, y: char)
    requires PairFree(a, x, y) && PairFree(b, x, y)
    requires |a| == 0 || |b| == 0 || !(a[|a| - 1] == x && b[0] == y)
    ensures PairFree(a + b, x, y)
  {
    var s := a + b;
    forall j | 0 <= j < |s| - 1 ensures !(s[j] == x && s[j + 1] == y) {
      if j + 1 < |a| {
        assert s[j] == a[j] && s[j + 1] == a[j + 1];
      } else if j >= |a| {
        assert s[j] == b[j - |a|] && s[j + 1] == b[j + 1 - |a|];
      }
    }
  }

  /** A line of fixed text followed by a field without `x`. */
  lemma PairFreeLine(lead: string, v: string, x: char, y: char)
    requires PairFree(lead, x, y) && x !in v
    requires |lead| > 0 && lead[|lead| - 1] != x
    ensures PairFree(lead + v, x, y)
  {
    PairFreeConcat(lead, v, x, y);
  }

  /** Joining pair-free lines with a separator that is neither character
      keeps the text pair-free. */
  lemma {:induction false} PairFreeJoin(lines: seq<string>, sep: char, x: char, y: char)
    requires forall k :: 0 <= k < |lines| ==> PairFree(lines[k], x, y)
    requires sep != x && sep != y
    ensures PairFree(Join(lines, sep), x, y)
    decreases |lines|
  {
    if |lines| > 1 {
      PairFreeJoin(lines[1..], sep, x, y);
      PairFreeConcat(lines[0], [sep], x, y);
      PairFreeConcat(lines[0] + [sep], Join(lines[1..], sep), x, y);
    }
  }

  /** A two-character word cannot start inside a pair-free prefix, unless at
      its last character with the word's second character right after. */
  lemma NotInPrefix(a: string, b: string, w: string)
    requires |w| >= 2
    requires PairFree(a, w[0], w[1])
    requires |a| == 0 || |b| == 0 || !(a[|a| - 1] == w[0] && b[0] == w[1])
    ensures forall j: nat :: j < |a| ==> !OccursAt(a + b, w, j)
  {
    forall j: nat | j < |a|
      ensures !OccursAt(a + b, w, j)
    {
      var s := a + b;
      if j + |w| <= |s| {
        assert s[j..j + |w|][0] == s[j] && s[j..j + |w|][1] == s[j + 1];
        if j + 1 < |a| {
          assert s[j] == a[j] && s[j + 1] == a[j + 1];
        } else {
          assert s[j + 1] == b[0];
        }
      }
    }
  }

  /** Fields that can sit on a header line without ending it, ending the
      header, or starting another tag. */
  predicate Clean(s: string) {
    '\n' !in s && '*' !in s && '@' !in s
  }

  /** A field the `\s+` before it does not eat into. */
  predicate Solid(s: string) {
    |s| > 0 && !IsWhitespace(s[0])
  }

  /** The fixed text of each header line holds no closer. */
  lemma LeadsFreeOfCloser()
    ensures PairFree("/**", '*', '/') && PairFree(" * @file ", '*', '/')
    ensures PairFree(" * @description ", '*', '/') && PairFree(" * @created ", '*', '/')
    ensures PairFree(" * @lastUpdated ", '*', '/') && PairFree(" * @module ", '*', '/')
  {
  }

  /** Every line of a header with clean fields is free of the closer. */
  lemma LinesFreeOfCloser(filename: string, description: string, modulePath: string,
                          createdDate: string, timestamp: string)
    requires Clean(filename) && Clean(description) && Clean(modulePath)
    requires Clean(createdDate) && Clean(timestamp)
    ensures var lines := GeneratedLines(filename, description, modulePath, createdDate, timestamp);
      forall k :: 0 <= k < 6 ==> PairFree(lines[k], '*', '/')
  {
    LeadsFreeOfCloser();
    PairFreeLine(" * @file ", filename, '*', '/');
    PairFreeLine(" * @description ", HeaderTemplate.Describe(description), '*', '/');
    PairFreeLine(" * @created ", CreatedOr(createdDate, timestamp), '*', '/');
    PairFreeLine(" * @lastUpdated ", timestamp, '*', '/');
    PairFreeLine(" * @module ", modulePath, '*', '/');
  }

  /** So are the first six lines joined. */
  lemma FirstLinesFreeOfCloser(filename: string, description: string, modulePath: string,
                               createdDate: string, timestamp: string)
    requires Clean(filename) && Clean(description) && Clean(modulePath)
    requires Clean(createdDate) && Clean(timestamp)
    ensures var lines := GeneratedLines(filename, description, modulePath, createdDate, timestamp);
      PairFree(Join(lines[..6], '\n'), '*', '/')
  {
    var lines := GeneratedLines(filename, description, modulePath, createdDate, timestamp);
    LinesFreeOfCloser(filename, description, modulePath, createdDate, timestamp);
    assert forall k :: 0 <= k < |lines[..6]| ==> lines[..6][k] == lines[k];
    PairFreeJoin(lines[..6], '\n', '*', '/');
  }

  /** A generated header is the first six lines, a line break and the
      closer, then an empty line; the first line is the opener. */
  lemma GeneratedShape(filename: string, description: string, modulePath: string,
                       createdDate: string, timestamp: string)
    ensures var lines := GeneratedLines(filename, description, modulePath, createdDate, timestamp);
      && GenerateFileHeader(filename, description, modulePath, createdDate, timestamp)
         == Join(lines[..6], '\n') + "\n */\n\n"
      && |Join(lines[..6], '\n')| >= 3 && Join(lines[..6], '\n')[..3] == "/**"
  {
    var lines := GeneratedLines(filename, description, modulePath, createdDate, timestamp);
    Paths.JoinLast(lines, '\n');
    var j6 := Join(lines[..6], '\n');
    assert j6 == lines[0] + ['\n'] + Join(lines[1..6], '\n');
  }

  /** In `j6` followed by the closing lines, the first closer at or after
      the third character is the one after `j6`'s line break. */
  lemma CloserAfter(j6: string, rest: string)
    requires |j6| >= 3 && PairFree(j6, '*', '/')
    ensures FindFrom(j6 + "\n */\n\n" + rest, "*/", 3) == |j6| + 2
  {
    var tail := "\n */\n\n" + rest;
    var c := j6 + tail;
    assert c == j6 + "\n */\n\n" + rest;
    NotInPrefix(j6, tail, "*/");
    assert c[|j6|] == '\n' && c[|j6| + 1] == ' ';
    assert !OccursAt(c, "*/", |j6|) by {
      assert c[|j6|..|j6| + 2][0] == c[|j6|];
    }
    assert !OccursAt(c, "*/", |j6| + 1) by {
      assert c[|j6| + 1..|j6| + 3][0] == c[|j6| + 1];
    }
    assert OccursAt(c, "*/", |j6| + 2) by {
      assert c[|j6| + 2..|j6| + 4] == "*/";
    }
    assert forall j: nat :: 3 <= j < |j6| + 2 ==> !OccursAt(c, "*/", j);
  }

  /** Every character of a white-space run is white space. */
  lemma InWhitespaceRun(c: string, k: nat, e: nat, x: nat)
    requires k <= x < e <= |c| && AllWhitespace(c[k..e])
    ensures IsWhitespace(c[x])
  {
    assert c[x] == c[k..e][x - k];
  }

  /** The white space after the closer is exactly the two line breaks when
      what follows does not start with white space. */
  lemma WhitespaceAfterCloser(j6: string, rest: string)
    requires |rest| == 0 || !IsWhitespace(rest[0])
    ensures WhitespaceEnd(j6 + "\n */\n\n" + rest, |j6| + 4) == |j6| + 6
  {
    var c := j6 + "\n */\n\n" + rest;
    var h := |j6| + 6;
    var e := WhitespaceEnd(c, |j6| + 4);
    assert c[h - 2] == '\n' && c[h - 1] == '\n';
    if e > h {
      InWhitespaceRun(c, |j6| + 4, e, h);
    }
  }

  /** The header of a text shaped like a generated header followed by
      something other than white space is exactly that header. */
  lemma HeaderOfShape(j6: string, rest: string)
    requires |j6| >= 3 && j6[..3] == "/**" && PairFree(j6, '*', '/')
    requires |rest| == 0 || !IsWhitespace(rest[0])
    ensures FindHeader(j6 + "\n */\n\n" + rest) == Some(HeaderMatch(0, |j6| + 2, |j6| + 6))
  {
    var c := j6 + "\n */\n\n" + rest;
    assert FindFrom(c, "/**", 0) == 0 by {
      assert c[0..3] == j6[..3];
    }
    CloserAfter(j6, rest);
    WhitespaceAfterCloser(j6, rest);
    HeaderFromPositions(c, |j6| + 2, |j6| + 6);
  }

  /** The match read off the positions of the opener, the closer and the
      end of the white space after it. */
  lemma HeaderFromPositions(c: string, close: nat, end: nat)
    requires FindFrom(c, "/**", 0) == 0
    requires FindFrom(c, "*/", 3) == close && close + 2 <= |c|
    requires WhitespaceEnd(c, close + 2) == end
    ensures FindHeader(c) == Some(HeaderMatch(0, close, end))
  {
    assert FindFrom(c, "*/", 0 + 3) == close;
  }

  /** The header of a file that starts with a generated header is exactly
      that header, when what follows does not start with white space. */
  lemma GeneratedHeaderFound(filename: string, description: string, modulePath: string,
                             createdDate: string, timestamp: string, rest: string)
    requires Clean(filename) && Clean(description) && Clean(modulePath)
    requires Clean(createdDate) && Clean(timestamp)
    requires |rest| == 0 || !IsWhitespace(rest[0])
    ensures var h := GenerateFileHeader(filename, description, modulePath, createdDate, timestamp);
      FindHeader(h + rest) == Some(HeaderMatch(0, |h| - 4, |h|))
  {
    var lines := GeneratedLines(filename, description, modulePath, createdDate, timestamp);
    var j6 := Join(lines[..6], '\n');
    GeneratedShape(filename, description, modulePath, createdDate, timestamp);
    FirstLinesFreeOfCloser(filename, description, modulePath, createdDate, timestamp);
    HeaderOfShape(j6, rest);
  }

  // ---------------------------------------------------------------------------
  // Reading the tags of a generated header

  /** On a tag line after a prefix without `@tag`, the tag is found at the
      line's `@`. */
  lemma TagLineFound(s: string, pre: string, tag: string, v: string, post: string)
    requires s == pre + (" * @" + tag + " " + v) + post
    requires |tag| > 0 && tag[0] != ' '
    requires PairFree(pre, '@', tag[0])
    ensures FindFrom(s, "@" + tag, 0) == |pre| + 3
  {
    var line := " * @" + tag + " " + v;
    var w := "@" + tag;
    var p := |pre| + 3;
    assert s == pre + (line + post);
    NotInPrefix(pre, line + post, w);
    assert s[|pre|] == ' ' && s[|pre| + 1] == '*' && s[|pre| + 2] == ' ';
    forall j: nat | |pre| <= j < p
      ensures !OccursAt(s, w, j)
    {
      if j + |w| <= |s| {
        assert s[j..j + |w|][0] == s[j];
      }
    }
    assert OccursAt(s, w, p) by {
      assert s[p..p + |w|] == w;
    }
  }

  /** One space before something solid is a white-space run of one. */
  lemma SingleSpace(s: string, q: nat)
    requires q + 1 < |s| && s[q] == ' ' && !IsWhitespace(s[q + 1])
    ensures WhitespaceEnd(s, q) == q + 1
  {
    var e := WhitespaceEnd(s, q);
    if e > q + 1 {
      InWhitespaceRun(s, q, e, q + 1);
    }
  }

  /** A tag followed by one space and something solid: the capture starts
      right after the space. */
  lemma TagMatchAfterSpace(s: string, tag: string, p: nat)
    requires OccursAt(s, "@" + tag, p)
    requires p + |tag| + 2 < |s| && s[p + |tag| + 1] == ' ' && !IsWhitespace(s[p + |tag| + 2])
    ensures TagMatchAt(s, tag, p) == p + |tag| + 2
  {
    SingleSpace(s, p + |tag| + 1);
  }

  /** On a tag line the tag is followed by one space and the value. */
  lemma TagLineStart(s: string, pre: string, tag: string, v: string, post: string)
    requires s == pre + (" * @" + tag + " " + v) + post
    requires Solid(v)
    ensures OccursAt(s, "@" + tag, |pre| + 3) && TagMatchAt(s, tag, |pre| + 3) == |pre| + 3 + |tag| + 2
  {
    var q := |pre| + |tag| + 4;
    assert s[|pre| + 3..|pre| + |tag| + 4] == "@" + tag;
    assert s[q] == ' ' && s[q + 1] == v[0];
    TagMatchAfterSpace(s, tag, |pre| + 3);
  }

  /** The captured line ends where the value does. */
  lemma TagLineEnd(s: string, pre: string, tag: string, v: string, post: string)
    requires s == pre + (" * @" + tag + " " + v) + post
    requires '\n' !in v
    requires |post| > 0 && post[0] == '\n'
    ensures var k := |pre| + 3 + |tag| + 2;
      k + |v| <= |s| && LineEnd(s, k) == k + |v| && s[k..k + |v|] == v
  {
    var k := |pre| + |tag| + 5;
    assert s[k..k + |v|] == v;
    assert s[k + |v|] == '\n';
  }

  /** When the first `@tag` already matches and its line ends after `v`,
      the capture is `v`. */
  predicate FirstTagLine(s: string, tag: string, p: nat, v: string) {
    && FindFrom(s, "@" + tag, 0) == p && OccursAt(s, "@" + tag, p)
    && TagMatchAt(s, tag, p) == p + |tag| + 2
    && p + |tag| + 2 + |v| <= |s| && LineEnd(s, p + |tag| + 2) == p + |tag| + 2 + |v|
    && s[p + |tag| + 2..p + |tag| + 2 + |v|] == v
  }

  lemma CaptureOfFirst(s: string, tag: string, p: nat, v: string)
    requires FirstTagLine(s, tag, p, v)
    ensures Capture(s, tag) == Some(v)
  {
    var k := p + |tag| + 2;
    TagMatchFromHit(s, tag, 0, p, k);
    CaptureAt(s, tag, p, k);
    var e := LineEnd(s, k);
    assert e == k + |v| && s[k..e] == v;
  }

  /** The search stops at the first `@tag` when its match succeeds. */
  lemma TagMatchFromHit(c: string, tag: string, from: nat, p: nat, k: nat)
    requires FindFrom(c, "@" + tag, from) == p && TagMatchAt(c, tag, p) == k
    ensures TagMatchFrom(c, tag, from) == Some((p, k))
  {
  }

  /** The capture is the rest of the line from where the match starts. */
  lemma CaptureAt(c: string, tag: string, p: nat, k: nat)
    requires TagMatchFrom(c, tag, 0) == Some((p, k))
    ensures Capture(c, tag) == Some(c[k..LineEnd(c, k)])
  {
  }


  /** `@tag` on its own line, after a prefix that does not mention it,
      reads back the value written after it. */
  lemma TagLineCapture(pre: string, line: string, tag: string, v: string, post: string)
    requires line == " * @" + tag + " " + v
    requires |tag| > 0 && tag[0] != ' '
    requires PairFree(pre, '@', tag[0])
    requires '\n' !in v && Solid(v)
    requires |post| > 0 && post[0] == '\n'
    ensures Capture(pre + line + post, tag) == Some(v)
  {
    TagLineRead(pre + line + post, pre, tag, v, post);
  }

  /** The same with the text named. */
  lemma TagLineRead(s: string, pre: string, tag: string, v: string, post: string)
    requires s == pre + (" * @" + tag + " " + v) + post
    requires |tag| > 0 && tag[0] != ' '
    requires PairFree(pre, '@', tag[0])
    requires '\n' !in v && Solid(v)
    requires |post| > 0 && post[0] == '\n'
    ensures Capture(s, tag) == Some(v)
  {
    TagLineFacts(s, pre, tag, v, post);
    CaptureOfFirst(s, tag, |pre| + 3, v);
  }

  lemma TagLineFacts(s: string, pre: string, tag: string, v: string, post: string)
    requires s == pre + (" * @" + tag + " " + v) + post
    requires |tag| > 0 && tag[0] != ' '
    requires PairFree(pre, '@', tag[0])
    requires '\n' !in v && Solid(v)
    requires |post| > 0 && post[0] == '\n'
    ensures FirstTagLine(s, tag, |pre| + 3, v)
  {
    TagLineFound(s, pre, tag, v, post);
    TagLineStart(s, pre, tag, v, post);
    TagLineEnd(s, pre, tag, v, post);
  }

  /** A line in the middle of a join, with the lines around it. */
  lemma JoinAround(lines: seq<string>, i: nat, sep: char)
    requires 1 <= i < |lines| - 1
    ensures Join(lines, sep)
      == Join(lines[..i], sep) + [sep] + lines[i] + [sep] + Join(lines[i + 1..], sep)
  {
    Paths.JoinAppend(lines[..i], lines[i..], sep);
    assert lines[..i] + lines[i..] == lines;
    assert lines[i..][1..] == lines[i + 1..];
  }

  /** A generated header around one of its middle lines. */
  lemma HeaderAroundLine(lines: seq<string>, i: nat)
    requires 1 <= i < |lines| - 1
    ensures Join(lines, '\n') + "\n" + "\n"
      == (Join(lines[..i], '\n') + "\n") + lines[i] + ("\n" + Join(lines[i + 1..], '\n') + "\n" + "\n")
  {
    JoinAround(lines, i, '\n');
    RegroupLine(Join(lines[..i], '\n'), lines[i], Join(lines[i + 1..], '\n'));
  }

  lemma RegroupLine(a: string, line: string, b: string)
    ensures a + ['\n'] + line + ['\n'] + b + "\n" + "\n" == (a + "\n") + line + ("\n" + b + "\n" + "\n")
  {
  }

  /** A tag line in the middle of a generated header reads back its value
      when no earlier line mentions the tag. */
  lemma HeaderTagCapture(lines: seq<string>, i: nat, tag: string, v: string)
    requires 1 <= i < |lines| - 1
    requires lines[i] == " * @" + tag + " " + v
    requires |tag| > 0 && tag[0] != ' ' && tag[0] != '\n'
    requires PairFree(Join(lines[..i], '\n'), '@', tag[0])
    requires '\n' !in v && Solid(v)
    ensures Capture(Join(lines, '\n') + "\n" + "\n", tag) == Some(v)
  {
    HeaderAroundLine(lines, i);
    PairFreeConcat(Join(lines[..i], '\n'), "\n", '@', tag[0]);
    TagLineCapture(Join(lines[..i], '\n') + "\n", lines[i], tag, v,
                   "\n" + Join(lines[i + 1..], '\n') + "\n" + "\n");
  }

  /** The fixed text of the lines before each tag does not mention it. */
  lemma LeadsFreeOfTags()
    ensures PairFree("/**", '@', 'd') && PairFree(" * @file ", '@', 'd')
    ensures PairFree("/**", '@', 'c') && PairFree(" * @file ", '@', 'c')
    ensures PairFree(" * @description ", '@', 'c')
    ensures " * @description " == " * @" + "description" + " "
    ensures " * @created " == " * @" + "created" + " "
  {
  }

  /** The description of a generated header reads back. */
  lemma GeneratedDescription(filename: string, description: string, modulePath: string,
                             createdDate: string, timestamp: string)
    requires Clean(filename) && Clean(description)
    requires description == "" || Solid(description)
    ensures Capture(GenerateFileHeader(filename, description, modulePath, createdDate, timestamp), "description")
      == Some(HeaderTemplate.Describe(description))
  {
    var lines := GeneratedLines(filename, description, modulePath, createdDate, timestamp);
    var d := HeaderTemplate.Describe(description);
    LeadsFreeOfTags();
    PairFreeLine(" * @file ", filename, '@', 'd');
    assert lines[..2] == ["/**", " * @file " + filename];
    assert Join(lines[..2], '\n') == "/**" + "\n" + (" * @file " + filename);
    PairFreeJoin(lines[..2], '\n', '@', 'd');
    assert lines[2] == " * @" + "description" + " " + d;
    HeaderTagCapture(lines, 2, "description", d);
  }

  /** The creation time of a generated header reads back. */
  lemma GeneratedCreated(filename: string, description: string, modulePath: string,
                         createdDate: string, timestamp: string)
    requires Clean(filename) && Clean(description)
    requires Clean(CreatedOr(createdDate, timestamp)) && Solid(CreatedOr(createdDate, timestamp))
    ensures Capture(GenerateFileHeader(filename, description, modulePath, createdDate, timestamp), "created")
      == Some(CreatedOr(createdDate, timestamp))
  {
    var lines := GeneratedLines(filename, description, modulePath, createdDate, timestamp);
    var d := HeaderTemplate.Describe(description);
    var c := CreatedOr(createdDate, timestamp);
    LeadsFreeOfTags();
    PairFreeLine(" * @file ", filename, '@', 'c');
    PairFreeLine(" * @description ", d, '@', 'c');
    assert lines[..3] == ["/**", " * @file " + filename, " * @description " + d];
    PairFreeJoin(lines[..3], '\n', '@', 'c');
    assert lines[3] == " * @" + "created" + " " + c;
    HeaderTagCapture(lines, 3, "created", c);
  }

  // ---------------------------------------------------------------------------
  // The carried creation time

  /** A produced timestamp holds only digits, `-`, `:`, spaces and `ET`. */
  lemma FormatAvoids(t: Timestamps.Stamp, c: char)
    requires !IsDigit(c) && c != '-' && c != ':' && c != ' ' && c != 'E' && c != 'T'
    ensures c !in Timestamps.Format(t)
  {
    Timestamps.PartsAvoid(t, c);
    assert Timestamps.Format(t) == Timestamps.DatePart(t) + " " + Timestamps.TimePart(t) + " ET";
  }

  /** A produced timestamp is a clean, solid field without `$`. */
  lemma FormatClean(t: Timestamps.Stamp)
    ensures Clean(Timestamps.Format(t)) && Solid(Timestamps.Format(t)) && '$' !in Timestamps.Format(t)
  {
    FormatAvoids(t, '\n');
    FormatAvoids(t, '*');
    FormatAvoids(t, '@');
    FormatAvoids(t, '$');
    assert Timestamps.Format(t)[0] == NatToString(t.year)[0];
  }

  /** A creation value holding a full timestamp is kept as it is. */
  lemma CarryKeepsTimestamp(t: Timestamps.Stamp, timestamp: string)
    requires Timestamps.Valid(t)
    ensures CarriedCreated(Timestamps.Format(t), timestamp) == Timestamps.Format(t)
  {
    Timestamps.FormatMatchesPatterns(t);
  }

  /** A ten-character date gets the time of day of `timestamp` appended. */
  lemma CarryDate(d: string, timestamp: string)
    requires |d| == 10 && Timestamps.DateAt(d, 0)
    ensures CarriedCreated(d, timestamp) == d + " " + Timestamps.TimeOfDay(timestamp)
  {
  }

  /** A creation value that is only a date gets the current time of day:
      the result is the timestamp of that day at the current time. */
  lemma CarryCompletesDate(t: Timestamps.Stamp, now: Timestamps.Stamp)
    requires Timestamps.Valid(t)
    ensures CarriedCreated(Timestamps.DatePart(t), Timestamps.Format(now))
      == Timestamps.Format(Timestamps.Stamp(t.year, t.month, t.day, now.hours, now.minutes))
  {
    Timestamps.DatePartMatches(t);
    CarryDate(Timestamps.DatePart(t), Timestamps.Format(now));
    Timestamps.TimeOfDayOfFormat(now);
  }

  /** A creation value holding no date (`unknown`, or anything too short
      to hold one) is dropped, so the current timestamp takes its place. */
  lemma CarryDropsShort(dateStr: string, timestamp: string)
    requires !Timestamps.ContainsDate(dateStr)
    ensures CarriedCreated(dateStr, timestamp) == ""
    ensures CreatedOr(CarriedCreated(dateStr, timestamp), timestamp) == timestamp
  {
    if Timestamps.ContainsFullStamp(dateStr) {
      Timestamps.FullStampHasDate(dateStr);
    }
  }

  // ---------------------------------------------------------------------------
  // Refreshing a file

  /** The fields a refreshed header reads back from a generated one. */
  lemma GeneratedFields(filename: string, description: string, modulePath: string,
                        createdDate: string, timestamp: string, now: string)
    requires Clean(filename) && Clean(description) && Clean(createdDate) && Clean(timestamp)
    requires description == "" || Solid(description)
    requires Solid(CreatedOr(createdDate, timestamp))
    ensures CarriedFields(GenerateFileHeader(filename, description, modulePath, createdDate, timestamp), now)
      == (HeaderTemplate.Describe(description), CarriedCreated(CreatedOr(createdDate, timestamp), now))
  {
    GeneratedDescription(filename, description, modulePath, createdDate, timestamp);
    GeneratedCreated(filename, description, modulePath, createdDate, timestamp);
  }

  /** A file whose header is all of its first part `h`: the new header
      takes the place of `h` and the rest stays. The script as written does
      the same whenever the new header holds no `$`. */
  lemma UpdateOfLeadingHeader(h: string, rest: string, filename: string, modulePath: string, now: string)
    requires |h| >= 4 && FindHeader(h + rest) == Some(HeaderMatch(0, |h| - 4, |h|))
    ensures Update(h + rest, filename, modulePath, now) == Refreshed(h, filename, modulePath, now) + rest
    ensures '$' !in Refreshed(h, filename, modulePath, now) ==>
      UpdateAsWritten(h + rest, filename, modulePath, now) == Refreshed(h, filename, modulePath, now) + rest
  {
    var c := h + rest;
    var m := HeaderMatch(0, |h| - 4, |h|);
    UpdateAtMatch(c, m, filename, modulePath, now);
    assert c[..m.start] == "" && c[m.start..m.end] == h && c[m.end..] == rest;
    var r := Refreshed(h, filename, modulePath, now);
    assert "" + r + rest == r + rest;
    AsWrittenOfLeadingHeader(h, rest, filename, modulePath, now);
  }

  /** Where the header is found, the refreshed header takes its place. */
  lemma UpdateAtMatch(c: string, m: HeaderMatch, filename: string, modulePath: string, now: string)
    requires FindHeader(c) == Some(m)
    ensures m.start <= m.end <= |c|
    ensures Update(c, filename, modulePath, now)
      == c[..m.start] + Refreshed(c[m.start..m.end], filename, modulePath, now) + c[m.end..]
  {
  }

  /** Refreshing a file that starts with a generated header replaces just
      that header: the description is kept, the creation value is carried
      over, the time of update is now, and the rest of the file is
      unchanged. */
  lemma UpdateGenerated(filename: string, description: string, modulePath: string,
                        createdDate: string, timestamp: string, rest: string,
                        filename': string, modulePath': string, now: string)
    requires Clean(filename) && Clean(description) && Clean(modulePath)
    requires Clean(createdDate) && Clean(timestamp)
    requires description == "" || Solid(description)
    requires Solid(CreatedOr(createdDate, timestamp))
    requires |rest| == 0 || !IsWhitespace(rest[0])
    ensures Update(GenerateFileHeader(filename, description, modulePath, createdDate, timestamp) + rest,
                   filename', modulePath', now)
      == GenerateFileHeader(filename', HeaderTemplate.Describe(description), modulePath',
                            CarriedCreated(CreatedOr(createdDate, timestamp), now), now) + rest
  {
    var h := GenerateFileHeader(filename, description, modulePath, createdDate, timestamp);
    GeneratedHeaderFound(filename, description, modulePath, createdDate, timestamp, rest);
    GeneratedFields(filename, description, modulePath, createdDate, timestamp, now);
    UpdateOfLeadingHeader(h, rest, filename', modulePath', now);
  }

  /** A file created with a header at `t0` and refreshed at `now` keeps
      its description and its creation time `t0`, and shows `now` as its
      time of update. The script as written does the same when neither the
      description nor the new file name and module path hold a `$`. */
  lemma UpdateKeepsCreation(filename: string, description: string, modulePath: string,
                            t0: Timestamps.Stamp, rest: string,
                            filename': string, modulePath': string, now: Timestamps.Stamp)
    requires Timestamps.Valid(t0)
    requires Clean(filename) && Clean(description) && Clean(modulePath)
    requires description == "" || Solid(description)
    requires |rest| == 0 || !IsWhitespace(rest[0])
    ensures Update(GenerateFileHeader(filename, description, modulePath, "", Timestamps.Format(t0)) + rest,
                   filename', modulePath', Timestamps.Format(now))
      == GenerateFileHeader(filename', HeaderTemplate.Describe(description), modulePath',
                            Timestamps.Format(t0), Timestamps.Format(now)) + rest
    ensures '$' !in description && '$' !in filename' && '$' !in modulePath' ==>
      UpdateAsWritten(GenerateFileHeader(filename, description, modulePath, "", Timestamps.Format(t0)) + rest,
                      filename', modulePath', Timestamps.Format(now))
      == GenerateFileHeader(filename', HeaderTemplate.Describe(description), modulePath',
                            Timestamps.Format(t0), Timestamps.Format(now)) + rest
  {
    FormatClean(t0);
    UpdateGenerated(filename, description, modulePath, "", Timestamps.Format(t0), rest,
                    filename', modulePath', Timestamps.Format(now));
    CarryKeepsTimestamp(t0, Timestamps.Format(now));
    if '$' !in description && '$' !in filename' && '$' !in modulePath' {
      KeepsCreationAsWritten(filename, description, modulePath, t0, rest, filename', modulePath', now);
    }
  }

  /** The script's refresh of a generated header, when no field holds `$`. */
  lemma KeepsCreationAsWritten(filename: string, description: string, modulePath: string,
                               t0: Timestamps.Stamp, rest: string,
                               filename': string, modulePath': string, now: Timestamps.Stamp)
    requires Timestamps.Valid(t0)
    requires Clean(filename) && Clean(description) && Clean(modulePath)
    requires description == "" || Solid(description)
    requires |rest| == 0 || !IsWhitespace(rest[0])
    requires '$' !in description && '$' !in filename' && '$' !in modulePath'
    ensures UpdateAsWritten(GenerateFileHeader(filename, description, modulePath, "", Timestamps.Format(t0)) + rest,
                            filename', modulePath', Timestamps.Format(now))
      == GenerateFileHeader(filename', HeaderTemplate.Describe(description), modulePath',
                            Timestamps.Format(t0), Timestamps.Format(now)) + rest
  {
    var h := GenerateFileHeader(filename, description, modulePath, "", Timestamps.Format(t0));
    RefreshedGenerated(filename, description, modulePath, t0, rest, filename', modulePath', now);
    DescribeDollarFree(description);
    FormatClean(t0);
    FormatClean(now);
    GeneratedDollarFree(filename', HeaderTemplate.Describe(description), modulePath',
                        Timestamps.Format(t0), Timestamps.Format(now));
    UpdateOfLeadingHeader(h, rest, filename', modulePath', Timestamps.Format(now));
  }

  /** A description without `$` is shown without `$`. */
  lemma DescribeDollarFree(description: string)
    requires '$' !in description
    ensures '$' !in HeaderTemplate.Describe(description)
  {
    DefaultDescriptionClean();
  }

  /** A generated header holds no `$` when none of its fields does. */
  lemma GeneratedDollarFree(filename: string, description: string, modulePath: string, created: string, timestamp: string)
    requires '$' !in filename && '$' !in description && '$' !in modulePath && '$' !in created && '$' !in timestamp
    ensures '$' !in GenerateFileHeader(filename, description, modulePath, created, timestamp)
  {
    var lines := GeneratedLines(filename, description, modulePath, created, timestamp);
    LinesAvoidDollar(filename, description, modulePath, created, timestamp);
    DescribeDollarFree(description);
    assert '$' !in " * @description ";
    assert '$' !in lines[2];
    JoinAvoids(lines, '\n', '$');
  }

  /** Text that ends the same way on both sides begins the same way. */
  lemma PrefixCancel(x: string, y: string, rest: string)
    requires x + rest == y + rest
    ensures x == y
  {
    assert x == (x + rest)[..|x|] == (y + rest)[..|y|] == y;
  }

  /** The placeholder description holds only letters, spaces and a colon. */
  lemma DefaultDescriptionPlain()
    ensures forall i :: 0 <= i < |HeaderTemplate.DefaultDescription| ==>
      var c := HeaderTemplate.DefaultDescription[i];
      IsAsciiUpper(c) || IsAsciiLower(c) || c == ' ' || c == ':'
  {
  }

  /** So it is a clean, solid field without `$`. */
  lemma DefaultDescriptionClean()
    ensures Clean(HeaderTemplate.DefaultDescription) && Solid(HeaderTemplate.DefaultDescription)
    ensures '$' !in HeaderTemplate.DefaultDescription
  {
    DefaultDescriptionPlain();
  }

  /** Refreshing twice at the same time gives what refreshing once does;
      so does the script as written, when neither the description nor the
      new file name and module path hold a `$`. */
  lemma UpdateIdempotent(filename: string, description: string, modulePath: string,
                         t0: Timestamps.Stamp, rest: string,
                         filename': string, modulePath': string, now: Timestamps.Stamp)
    requires Timestamps.Valid(t0)
    requires Clean(filename) && Clean(description) && Clean(modulePath) && Clean(filename') && Clean(modulePath')
    requires description == "" || Solid(description)
    requires |rest| == 0 || !IsWhitespace(rest[0])
    ensures var once := Update(GenerateFileHeader(filename, description, modulePath, "", Timestamps.Format(t0)) + rest,
                               filename', modulePath', Timestamps.Format(now));
      Update(once, filename', modulePath', Timestamps.Format(now)) == once
    ensures '$' !in description && '$' !in filename' && '$' !in modulePath' ==>
      var once := UpdateAsWritten(GenerateFileHeader(filename, description, modulePath, "", Timestamps.Format(t0)) + rest,
                                  filename', modulePath', Timestamps.Format(now));
      UpdateAsWritten(once, filename', modulePath', Timestamps.Format(now)) == once
  {
    UpdateTwice(filename, description, modulePath, t0, rest, filename', modulePath', now);
    if '$' !in description && '$' !in filename' && '$' !in modulePath' {
      UpdateTwiceAsWritten(filename, description, modulePath, t0, rest, filename', modulePath', now);
    }
  }

  /** The model's refresh, twice. */
  lemma UpdateTwice(filename: string, description: string, modulePath: string,
                    t0: Timestamps.Stamp, rest: string,
                    filename': string, modulePath': string, now: Timestamps.Stamp)
    requires Timestamps.Valid(t0)
    requires Clean(filename) && Clean(description) && Clean(modulePath) && Clean(filename') && Clean(modulePath')
    requires description == "" || Solid(description)
    requires |rest| == 0 || !IsWhitespace(rest[0])
    ensures var once := Update(GenerateFileHeader(filename, description, modulePath, "", Timestamps.Format(t0)) + rest,
                               filename', modulePath', Timestamps.Format(now));
      Update(once, filename', modulePath', Timestamps.Format(now)) == once
  {
    var d := HeaderTemplate.Describe(description);
    DefaultDescriptionClean();
    FormatClean(t0);
    FormatClean(now);
    UpdateKeepsCreation(filename, description, modulePath, t0, rest, filename', modulePath', now);
    UpdateGenerated(filename', d, modulePath', Timestamps.Format(t0), Timestamps.Format(now), rest,
                    filename', modulePath', Timestamps.Format(now));
    CarryKeepsTimestamp(t0, Timestamps.Format(now));
  }

  /** The script's refresh, twice: the header of the once-refreshed file
      refreshes to itself and holds no `$`. */
  lemma UpdateTwiceAsWritten(filename: string, description: string, modulePath: string,
                             t0: Timestamps.Stamp, rest: string,
                             filename': string, modulePath': string, now: Timestamps.Stamp)
    requires Timestamps.Valid(t0)
    requires Clean(filename) && Clean(description) && Clean(modulePath) && Clean(filename') && Clean(modulePath')
    requires description == "" || Solid(description)
    requires |rest| == 0 || !IsWhitespace(rest[0])
    requires '$' !in description && '$' !in filename' && '$' !in modulePath'
    ensures var once := UpdateAsWritten(GenerateFileHeader(filename, description, modulePath, "", Timestamps.Format(t0)) + rest,
                                        filename', modulePath', Timestamps.Format(now));
      UpdateAsWritten(once, filename', modulePath', Timestamps.Format(now)) == once
  {
    var ts0, tsn := Timestamps.Format(t0), Timestamps.Format(now);
    var d := HeaderTemplate.Describe(description);
    var y := GenerateFileHeader(filename', d, modulePath', ts0, tsn);
    KeepsCreationAsWritten(filename, description, modulePath, t0, rest, filename', modulePath', now);
    UpdateTwice(filename, description, modulePath, t0, rest, filename', modulePath', now);
    UpdateKeepsCreation(filename, description, modulePath, t0, rest, filename', modulePath', now);
    DefaultDescriptionClean();
    FormatClean(t0);
    FormatClean(now);
    GeneratedHeaderFound(filename', d, modulePath', ts0, tsn, rest);
    UpdateOfLeadingHeader(y, rest, filename', modulePath', tsn);
    PrefixCancel(Refreshed(y, filename', modulePath', tsn), y, rest);
    DescribeDollarFree(description);
    GeneratedDollarFree(filename', d, modulePath', ts0, tsn);
  }

  /** A file without a header gets one in front, with its text kept; the
      new header is then the file's header. */
  lemma UpdatePrepends(content: string, filename: string, modulePath: string, now: Timestamps.Stamp)
    requires FindHeader(content).None?
    requires Clean(filename) && Clean(modulePath)
    requires |content| == 0 || !IsWhitespace(content[0])
    ensures var h := GenerateFileHeader(filename, "", modulePath, "", Timestamps.Format(now));
      && Update(content, filename, modulePath, Timestamps.Format(now)) == h + content
      && FindHeader(h + content) == Some(HeaderMatch(0, |h| - 4, |h|))
  {
    FormatClean(now);
    GeneratedHeaderFound(filename, "", modulePath, "", Timestamps.Format(now), content);
  }

  // ---------------------------------------------------------------------------
  // The replacement patterns in the written script

  /** A `$$` in a replacement string comes out as one `$`. */
  lemma {:induction false} ExpandDoubleDollar(a: string, b: string, matched: string, before: string, after: string)
    requires '$' !in a && '$' !in b
    ensures Expand(a + "$$" + b, matched, before, after) == a + "$" + b
    decreases |a|
  {
    if |a| == 0 {
      assert a + "$$" + b == "$$" + b;
      ExpandPair(b, matched, before, after);
      assert a + "$" + b == "$" + b;
    } else {
      var tail := a[1..] + "$$" + b;
      HeadOff(a, "$$", b);
      HeadOff(a, "$", b);
      ExpandDoubleDollar(a[1..], b, matched, before, after);
      ExpandPlain(a[0], tail, matched, before, after);
    }
  }

  /** Taking the first character off the front of a concatenation. */
  lemma HeadOff(a: string, m: string, b: string)
    requires |a| > 0
    ensures a + m + b == [a[0]] + (a[1..] + m + b)
    ensures forall x :: x in a[1..] ==> x in a
  {
    assert a == [a[0]] + a[1..];
  }

  /** `$$` in front of text without `$` becomes one `$`. */
  lemma ExpandPair(b: string, matched: string, before: string, after: string)
    requires '$' !in b
    ensures Expand("$$" + b, matched, before, after) == "$" + b
  {
    assert ("$$" + b)[2..] == b;
  }

  /** A character other than `$` is copied as it is. */
  lemma ExpandPlain(c: char, r: string, matched: string, before: string, after: string)
    requires c != '$'
    ensures Expand([c] + r, matched, before, after) == [c] + Expand(r, matched, before, after)
  {
    assert ([c] + r)[1..] == r;
  }

  /** Two headers whose lines agree except for one middle line agree
      except for that line's text. */
  lemma SwapMiddle(two: seq<string>, one: seq<string>, i: nat)
    requires 1 <= i < |two| - 1 && |one| == |two|
    requires two[..i] == one[..i] && two[i + 1..] == one[i + 1..]
    ensures var a, b := Join(two[..i], '\n') + "\n", "\n" + Join(two[i + 1..], '\n') + "\n" + "\n";
      && Join(two, '\n') + "\n" + "\n" == a + two[i] + b
      && Join(one, '\n') + "\n" + "\n" == a + one[i] + b
  {
    HeaderAroundLine(two, i);
    HeaderAroundLine(one, i);
  }

  /** The lines around a middle line avoid `c` when every other line does. */
  lemma AroundAvoids(lines: seq<string>, i: nat, c: char)
    requires 1 <= i < |lines| - 1 && c != '\n'
    requires forall k :: 0 <= k < |lines| && k != i ==> c !in lines[k]
    ensures c !in Join(lines[..i], '\n') && c !in Join(lines[i + 1..], '\n')
  {
    JoinAvoids(lines[..i], '\n', c);
    JoinAvoids(lines[i + 1..], '\n', c);
  }

  /** The generated lines other than the description avoid `$` when the
      fields do. */
  lemma LinesAvoidDollar(filename: string, description: string, modulePath: string, created: string, timestamp: string)
    requires '$' !in filename && '$' !in modulePath && '$' !in created && '$' !in timestamp
    ensures var lines := GeneratedLines(filename, description, modulePath, created, timestamp);
      forall k :: 0 <= k < |lines| && k != 2 ==> '$' !in lines[k]
  {
    var c := CreatedOr(created, timestamp);
    assert '$' !in c;
    assert '$' !in " * @file " && '$' !in " * @created " && '$' !in " * @lastUpdated " && '$' !in " * @module ";
  }

  /** Two headers whose third lines are `p` and then `$$` or `$`, and
      whose other lines agree and avoid `$`, differ only there. */
  lemma SwapDollar(two: seq<string>, one: seq<string>, p: string) returns (a: string, b: string)
    requires |two| == 7 && |one| == 7
    requires two[..2] == one[..2] && two[3..] == one[3..]
    requires two[2] == p + "$$" && one[2] == p + "$" && '$' !in p
    requires forall k :: 0 <= k < |two| && k != 2 ==> '$' !in two[k]
    ensures '$' !in a && '$' !in b
    ensures Join(two, '\n') + "\n" + "\n" == a + "$$" + b
    ensures Join(one, '\n') + "\n" + "\n" == a + "$" + b
  {
    SwapMiddle(two, one, 2);
    AroundAvoids(two, 2, '$');
    a := Join(two[..2], '\n') + "\n" + p;
    b := "\n" + Join(two[3..], '\n') + "\n" + "\n";
  }

  /** A header whose description is `$$` and one whose description is `$`
      differ only there: both are `a`, the description, `b`, with no `$`
      in `a` or `b`. */
  lemma DollarHeaders(filename: string, modulePath: string, created: string, timestamp: string)
      returns (a: string, b: string)
    requires '$' !in filename && '$' !in modulePath && '$' !in created && '$' !in timestamp
    ensures '$' !in a && '$' !in b
    ensures GenerateFileHeader(filename, "$$", modulePath, created, timestamp) == a + "$$" + b
    ensures GenerateFileHeader(filename, "$", modulePath, created, timestamp) == a + "$" + b
  {
    var two := GeneratedLines(filename, "$$", modulePath, created, timestamp);
    var one := GeneratedLines(filename, "$", modulePath, created, timestamp);
    LinesAvoidDollar(filename, "$$", modulePath, created, timestamp);
    a, b := SwapDollar(two, one, " * @description ");
  }

  /** As written, refreshing a file that opens with header `h` expands the
      new header's replacement patterns. */
  lemma AsWrittenOfLeadingHeader(h: string, rest: string, filename: string, modulePath: string, now: string)
    requires |h| >= 4 && FindHeader(h + rest) == Some(HeaderMatch(0, |h| - 4, |h|))
    ensures UpdateAsWritten(h + rest, filename, modulePath, now)
      == Expand(Refreshed(h, filename, modulePath, now), h, "", rest) + rest
  {
    var c := h + rest;
    LeadingSlices(c, h, rest);
    AsWrittenAt(c, HeaderMatch(0, |h| - 4, |h|), filename, modulePath, now, "", h, rest);
    assert "" + Expand(Refreshed(h, filename, modulePath, now), h, "", rest) == Expand(Refreshed(h, filename, modulePath, now), h, "", rest);
  }

  /** `UpdateAsWritten` once the header is found, in terms of the text
      before it, the header and the text after it. */
  lemma AsWrittenAt(c: string, m: HeaderMatch, filename: string, modulePath: string, now: string,
                    before: string, header: string, after: string)
    requires FindHeader(c) == Some(m)
    requires m.start <= m.end <= |c|
    requires before == c[..m.start] && header == c[m.start..m.end] && after == c[m.end..]
    ensures UpdateAsWritten(c, filename, modulePath, now)
      == before + Expand(Refreshed(header, filename, modulePath, now), header, before, after) + after
  {
  }

  /** The slices of `h + rest` around `h`. */
  lemma LeadingSlices(c: string, h: string, rest: string)
    requires c == h + rest
    ensures c[0..|h|] == h && c[..0] == "" && c[|h|..] == rest
  {
  }

  /** The refreshed header of a generated header created at `t0`. */
  lemma RefreshedGenerated(filename: string, description: string, modulePath: string,
                           t0: Timestamps.Stamp, rest: string,
                           filename': string, modulePath': string, now: Timestamps.Stamp)
    requires Timestamps.Valid(t0)
    requires Clean(filename) && Clean(description) && Clean(modulePath)
    requires description == "" || Solid(description)
    requires |rest| == 0 || !IsWhitespace(rest[0])
    ensures var h := GenerateFileHeader(filename, description, modulePath, "", Timestamps.Format(t0));
      && |h| >= 4 && FindHeader(h + rest) == Some(HeaderMatch(0, |h| - 4, |h|))
      && Refreshed(h, filename', modulePath', Timestamps.Format(now))
         == GenerateFileHeader(filename', HeaderTemplate.Describe(description), modulePath',
                               Timestamps.Format(t0), Timestamps.Format(now))
  {
    var h := GenerateFileHeader(filename, description, modulePath, "", Timestamps.Format(t0));
    FormatClean(t0);
    GeneratedHeaderFound(filename, description, modulePath, "", Timestamps.Format(t0), rest);
    UpdateGenerated(filename, description, modulePath, "", Timestamps.Format(t0), rest,
                    filename', modulePath', Timestamps.Format(now));
    CarryKeepsTimestamp(t0, Timestamps.Format(now));
    UpdateOfLeadingHeader(h, rest, filename', modulePath', Timestamps.Format(now));
    var x := Refreshed(h, filename', modulePath', Timestamps.Format(now));
    var y := GenerateFileHeader(filename', HeaderTemplate.Describe(description), modulePath',
                                Timestamps.Format(t0), Timestamps.Format(now));
    PrefixCancel(x, y, rest);
  }

  /** A file whose header describes it as `$$`: the model's refreshing
      keeps the description, while the script as written, which passes the
      new header to `replace` as a replacement string, halves it to `$`. */
  lemma DollarCounterexample(filename: string, modulePath: string, t0: Timestamps.Stamp, rest: string,
                             filename': string, modulePath': string, now: Timestamps.Stamp)
    requires Timestamps.Valid(t0)
    requires Clean(filename) && Clean(modulePath)
    requires '$' !in filename' && '$' !in modulePath'
    requires |rest| == 0 || !IsWhitespace(rest[0])
    ensures var content := GenerateFileHeader(filename, "$$", modulePath, "", Timestamps.Format(t0)) + rest;
      && Update(content, filename', modulePath', Timestamps.Format(now))
         == GenerateFileHeader(filename', "$$", modulePath', Timestamps.Format(t0), Timestamps.Format(now)) + rest
      && UpdateAsWritten(content, filename', modulePath', Timestamps.Format(now))
         == GenerateFileHeader(filename', "$", modulePath', Timestamps.Format(t0), Timestamps.Format(now)) + rest
      && UpdateAsWritten(content, filename', modulePath', Timestamps.Format(now))
         != Update(content, filename', modulePath', Timestamps.Format(now))
  {
    var ts0, tsn := Timestamps.Format(t0), Timestamps.Format(now);
    var h := GenerateFileHeader(filename, "$$", modulePath, "", ts0);
    assert Clean("$$") && Solid("$$");
    FormatClean(t0);
    FormatClean(now);
    RefreshedGenerated(filename, "$$", modulePath, t0, rest, filename', modulePath', now);
    UpdateOfLeadingHeader(h, rest, filename', modulePath', tsn);
    AsWrittenOfLeadingHeader(h, rest, filename', modulePath', tsn);
    var a, b := DollarHeaders(filename', modulePath', ts0, tsn);
    ExpandDoubleDollar(a, b, h, "", rest);
    assert |a + "$" + b| < |a + "$$" + b|;
  }
}
