/** Path and module-name string logic shared by the lint configuration and
    the header template: splitting on either separator and the
    `src`-relative module names they derive. */
module Paths {
  import opened Strings

  /** Back-slashes turned into forward slashes (`.replace(/\\/g, '/')`). */
  function Normalize(s: string): (r: string)
    ensures |r| == |s| && '\\' !in r
    ensures forall i :: 0 <= i < |s| ==> r[i] == (if s[i] == '\\' then '/' else s[i])
  {
    ReplaceChar(s, '\\', '/')
  }

  /** A character absent from a text is absent from every piece of its split. */
  lemma {:induction false} SplitKeepsAbsent(s: string, sep: char, c: char)
    requires c !in s
    ensures forall k :: 0 <= k < |Split(s, sep)| ==> c !in Split(s, sep)[k]
    decreases |s|
  {
    if |s| > 0 {
      assert forall k :: 0 <= k < |s[1..]| ==> s[1..][k] == s[k + 1];
      SplitKeepsAbsent(s[1..], sep, c);
    }
  }

  /** `s.split(/[\\/]/)`: both separators split. */
  function SplitPath(s: string): (parts: seq<string>)
    ensures |parts| >= 1
    ensures forall k :: 0 <= k < |parts| ==> '/' !in parts[k] && '\\' !in parts[k]
  {
    SplitKeepsAbsent(Normalize(s), '/', '\\');
    Split(Normalize(s), '/')
  }

  /** Joining the segments with `/` gives the path with its back-slashes
      normalised. */
  lemma SplitPathJoin(s: string)
    ensures Join(SplitPath(s), '/') == Normalize(s)
  {
    JoinSplit(Normalize(s), '/');
  }

  /** `xs.lastIndexOf(x)`. */
  function LastIndexOf(xs: seq<string>, x: string): (i: int)
    ensures -1 <= i < |xs|
    ensures i == -1 <==> x !in xs
    ensures i >= 0 ==> xs[i] == x && forall j :: i < j < |xs| ==> xs[j] != x
  {
    if |xs| == 0 then -1
    else if xs[|xs| - 1] == x then |xs| - 1
    else
      var i := LastIndexOf(xs[..|xs| - 1], x);
      assert xs == xs[..|xs| - 1] + [xs[|xs| - 1]];
      i
  }

  /** `arr.slice(start, arr.length - 1)`: empty when `start` is past the end. */
  function SliceBeforeLast(xs: seq<string>, start: nat): (r: seq<string>)
    requires |xs| >= 1
    ensures start < |xs| ==> r == xs[start..|xs| - 1]
    ensures start >= |xs| - 1 ==> r == []
  {
    if start <= |xs| - 1 then xs[start..|xs| - 1] else []
  }

  // ---------------------------------------------------------------------------
  // .eslintrc.js: templateVars.moduleName

  /** The lint header's module name: the segments strictly between the last
      `src` segment and the file name, joined with `/`; `unknown` without a
      `src` segment. */
  function ModuleName(filename: string): string {
    ModuleNameOf(SplitPath(filename))
  }

  function ModuleNameOf(parts: seq<string>): string
    requires |parts| >= 1
  {
    var srcIndex := LastIndexOf(parts, "src");
    if srcIndex == -1 then "unknown"
    else Join(SliceBeforeLast(parts, srcIndex + 1), '/')
  }

  /** Over the segments: `unknown` without `src`; otherwise, for the last
      `src` at `i`, the segments strictly between it and the file name,
      which split back out of the result, and the empty name for a file
      directly under that `src`. */
  lemma ModuleNameOfSegments(parts: seq<string>, i: nat)
    requires |parts| >= 1
    requires forall k :: 0 <= k < |parts| ==> '/' !in parts[k]
    ensures "src" !in parts ==> ModuleNameOf(parts) == "unknown"
    ensures i < |parts| && parts[i] == "src" && "src" !in parts[i + 1..] ==>
      && (i + 1 < |parts| - 1 ==> Split(ModuleNameOf(parts), '/') == parts[i + 1..|parts| - 1])
      && (i + 1 >= |parts| - 1 ==> ModuleNameOf(parts) == "")
  {
    var k := LastIndexOf(parts, "src");
    if i < |parts| && parts[i] == "src" && "src" !in parts[i + 1..] {
      assert k == i;
      if i + 1 < |parts| - 1 {
        var mid := parts[i + 1..|parts| - 1];
        assert forall j :: 0 <= j < |mid| ==> mid[j] == parts[i + 1 + j];
        SplitJoin(mid, '/');
      }
    }
  }

  /** The module name is built only from segments after the last `src`, so
      none of them is `src`, and the file name is never among them: it is
      `mid` joined, where `mid` ends just before the file name. */
  lemma ModuleNameOfAfterLastSrc(parts: seq<string>) returns (mid: seq<string>)
    requires |parts| >= 1 && "src" in parts
    ensures ModuleNameOf(parts) == Join(mid, '/')
    ensures "src" !in mid && |mid| < |parts|
    ensures mid == parts[|parts| - 1 - |mid|..|parts| - 1]
  {
    var i := LastIndexOf(parts, "src");
    mid := SliceBeforeLast(parts, i + 1);
    if i + 1 < |parts| {
      AfterLast(parts, "src", i, mid);
    }
  }

  /** Segments taken from after the last occurrence of `x` are not `x`. */
  lemma AfterLast(parts: seq<string>, x: string, i: nat, mid: seq<string>)
    requires i + 1 < |parts| && forall j :: i < j < |parts| ==> parts[j] != x
    requires mid == parts[i + 1..|parts| - 1]
    ensures x !in mid
  {
    forall j | 0 <= j < |mid|
      ensures mid[j] != x
    {
      assert mid[j] == parts[i + 1 + j];
    }
  }

  /** The same for a path: the segments are those of `SplitPath`. */
  lemma ModuleNameSegments(filename: string, i: nat)
    ensures var parts := SplitPath(filename);
      && ("src" !in parts ==> ModuleName(filename) == "unknown")
      && (i < |parts| && parts[i] == "src" && "src" !in parts[i + 1..] && i + 1 < |parts| - 1 ==>
            Split(ModuleName(filename), '/') == parts[i + 1..|parts| - 1])
      && (i < |parts| && parts[i] == "src" && "src" !in parts[i + 1..] && i + 1 >= |parts| - 1 ==>
            ModuleName(filename) == "")
  {
    ModuleNameOfSegments(SplitPath(filename), i);
  }

  // ---------------------------------------------------------------------------
  // .header-template.js: filename and module path

  /** `filePath.split(/[\/\\]/).pop()`. */
  function FileName(filePath: string): (name: string)
    ensures '/' !in name && '\\' !in name
  {
    var parts := SplitPath(filePath);
    parts[|parts| - 1]
  }

  lemma {:induction false} JoinLast(parts: seq<string>, sep: char)
    requires |parts| >= 2
    ensures Join(parts, sep) == Join(parts[..|parts| - 1], sep) + [sep] + parts[|parts| - 1]
    decreases |parts|
  {
    if |parts| > 2 {
      JoinLast(parts[1..], sep);
      assert parts[1..][..|parts[1..]| - 1] == parts[..|parts| - 1][1..];
    }
  }

  /** A join ends the way its last piece does. */
  lemma JoinLastSegmentEnds(parts: seq<string>, sep: char)
    requires |parts| > 0 && |parts[|parts| - 1]| > 0
    ensures var j := Join(parts, sep); var last := parts[|parts| - 1];
      |j| >= |last| && j[|j| - |last|..] == last
  {
    if |parts| >= 2 {
      JoinLast(parts, sep);
    }
  }

  /** Joining two non-empty lists is joining each, with one separator
      between. */
  lemma {:induction false} JoinAppend(xs: seq<string>, ys: seq<string>, sep: char)
    requires |xs| > 0 && |ys| > 0
    ensures Join(xs + ys, sep) == Join(xs, sep) + [sep] + Join(ys, sep)
    decreases |xs|
  {
    var zs := xs + ys;
    assert zs[0] == xs[0];
    if |xs| > 1 {
      assert zs[1..] == xs[1..] + ys;
      JoinAppend(xs[1..], ys, sep);
    } else {
      assert zs[1..] == ys;
    }
  }

  /** The file name is the path's last segment: the (normalised) path ends
      with it, right after a separator or at the very start. */
  lemma FileNameIsLastSegment(filePath: string)
    ensures var name := FileName(filePath);
      var n := Normalize(filePath);
      |name| <= |n| && n[|n| - |name|..] == name
      && (|name| < |n| ==> n[|n| - |name| - 1] == '/')
  {
    var parts := SplitPath(filePath);
    SplitPathJoin(filePath);
    if |parts| >= 2 {
      JoinLast(parts, '/');
    }
  }

  /** `filePath.replace(/^src[\/\\]?/, '')`: a leading `src`, with one
      separator after it if there is one, is dropped. The pattern also
      matches the start of a longer name such as `srcx`. */
  function DropSrcPrefix(filePath: string): (r: string)
    ensures StartsWith(filePath, "src/") || StartsWith(filePath, "src\\") ==> r == filePath[4..]
    ensures !(StartsWith(filePath, "src/") || StartsWith(filePath, "src\\")) && StartsWith(filePath, "src")
      ==> r == filePath[3..]
    ensures !StartsWith(filePath, "src") ==> r == filePath
  {
    if StartsWith(filePath, "src/") || StartsWith(filePath, "src\\") then filePath[4..]
    else if StartsWith(filePath, "src") then filePath[3..]
    else filePath
  }

  /** The header template's module path. */
  function TemplateModulePath(filePath: string): (r: string)
    ensures '\\' !in r
  {
    Normalize(DropSrcPrefix(filePath))
  }

  /** A path under `src` gives its remainder with forward slashes; a path
      not starting with `src` is only normalised; and a `srcx` directory
      loses its first three letters. */
  lemma TemplateModulePathCases(rest: string, other: string)
    requires !StartsWith(other, "src")
    ensures TemplateModulePath("src/" + rest) == Normalize(rest)
    ensures TemplateModulePath("src\\" + rest) == Normalize(rest)
    ensures TemplateModulePath(other) == Normalize(other)
    ensures TemplateModulePath("srcx/" + rest) == "x/" + Normalize(rest)
  {
    assert ("src/" + rest)[4..] == rest;
    assert ("src\\" + rest)[4..] == rest;
    var q := "srcx/" + rest;
    assert q[..4] == "srcx";
    assert q[3..] == "x/" + rest;
    assert Normalize("x/" + rest) == "x/" + Normalize(rest);
  }

  /** Normalising twice changes nothing. */
  lemma NormalizeIdempotent(s: string)
    ensures Normalize(Normalize(s)) == Normalize(s)
  {
  }
}
