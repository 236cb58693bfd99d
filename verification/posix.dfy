/** The parts of Node's POSIX `path` module the header scripts call:
    `isAbsolute`, `dirname`, `basename`, `extname`, `basename` with a suffix,
    and `join` under an absolute directory (which normalises). */
module Posix {
  import opened Strings
  import Paths

  predicate IsAbsolute(p: string) {
    |p| > 0 && p[0] == '/'
  }

  /** The index of the last occurrence of `c`, or -1. */
  function LastIndexOfChar(s: string, c: char): (i: int)
    ensures -1 <= i < |s|
    ensures i == -1 <==> c !in s
    ensures i >= 0 ==> s[i] == c && c !in s[i + 1..]
  {
    if |s| == 0 then -1
    else if s[|s| - 1] == c then |s| - 1
    else
      var i := LastIndexOfChar(s[..|s| - 1], c);
      assert s == s[..|s| - 1] + [s[|s| - 1]];
      i
  }

  /** The last occurrence is the one no later occurrence follows. */
  lemma LastIndexOfCharIs(s: string, c: char, i: nat)
    requires i < |s| && s[i] == c && c !in s[i + 1..]
    ensures LastIndexOfChar(s, c) == i
  {
  }

  /** One past the last character that is not a separator, 0 when there is
      none: `dirname` and `basename` ignore trailing separators. */
  function NameEnd(p: string): (e: nat)
    ensures e <= |p|
    ensures forall k :: e <= k < |p| ==> p[k] == '/'
    ensures e > 0 ==> p[e - 1] != '/'
    decreases |p|
  {
    if |p| == 0 || p[|p| - 1] != '/' then |p| else NameEnd(p[..|p| - 1])
  }

  /** Trailing separators after a name are exactly what `NameEnd` skips. */
  lemma {:induction false} NameEndOf(x: string, slashes: string)
    requires |x| > 0 && x[|x| - 1] != '/'
    requires forall k :: 0 <= k < |slashes| ==> slashes[k] == '/'
    ensures NameEnd(x + slashes) == |x|
    decreases |slashes|
  {
    if |slashes| > 0 {
      var p := x + slashes;
      assert p[..|p| - 1] == x + slashes[..|slashes| - 1];
      NameEndOf(x, slashes[..|slashes| - 1]);
    } else {
      assert x + slashes == x;
    }
  }

  /** `path.basename(p)`: the last name, trailing separators dropped. */
  function Basename(p: string): (b: string)
    ensures '/' !in b
  {
    var e := NameEnd(p);
    var i := LastIndexOfChar(p[..e], '/');
    assert p[i + 1..e] == p[..e][i + 1..];
    p[i + 1..e]
  }

  /** `path.dirname(p)`: everything before the separator that precedes the
      last name; `.` for a bare name, `/` at the root, and `//` kept for a
      name right after a doubled leading separator. */
  function Dirname(p: string): string {
    if |p| == 0 then "."
    else
      var e := NameEnd(p);
      var i := LastIndexOfChar(p[..e], '/');
      if e == 0 then "/"
      else if i <= 0 then (if p[0] == '/' then "/" else ".")
      else if i == 1 && p[0] == '/' then "//"
      else p[..i]
  }

  /** A name under a directory: `dirname` gives the directory back and
      `basename` the name, whatever separators trail the name. */
  lemma DirnameBasename(dir: string, name: string, slashes: string)
    requires |dir| > 0 && dir[|dir| - 1] != '/'
    requires |name| > 0 && '/' !in name
    requires forall k :: 0 <= k < |slashes| ==> slashes[k] == '/'
    ensures Dirname(dir + "/" + name + slashes) == dir
    ensures Basename(dir + "/" + name + slashes) == name
  {
    var x := dir + "/" + name;
    var p := x + slashes;
    NameEndOf(x, slashes);
    assert p[..|x|] == x;
    assert x[|dir| + 1..] == name && x[..|dir|] == dir;
    LastIndexOfCharIs(x, '/', |dir|);
    NamedParts(p, x, dir, name);
  }

  /** The directory and name of a text whose name part is `x`, split at
      its last separator into `dir` and `name`. */
  lemma NamedParts(p: string, x: string, dir: string, name: string)
    requires |dir| > 0 && dir[|dir| - 1] != '/'
    requires NameEnd(p) == |x| && |x| <= |p| && p[..|x|] == x
    requires LastIndexOfChar(x, '/') == |dir| && |dir| < |x|
    requires x[..|dir|] == dir && x[|dir| + 1..] == name
    ensures Dirname(p) == dir && Basename(p) == name
  {
    assert p[..|dir|] == x[..|dir|];
    assert p[|dir| + 1..|x|] == x[|dir| + 1..];
    assert |dir| == 1 ==> p[0] == dir[0];
  }

  /** A bare name has directory `.`, a name at the root has `/`; either way
      the base name is the name. */
  lemma DirnameOfName(name: string, slashes: string)
    requires |name| > 0 && '/' !in name
    requires forall k :: 0 <= k < |slashes| ==> slashes[k] == '/'
    ensures Dirname(name + slashes) == "." && Basename(name + slashes) == name
    ensures Dirname("/" + name + slashes) == "/" && Basename("/" + name + slashes) == name
  {
    NameEndOf(name, slashes);
    assert (name + slashes)[..|name|] == name;
    var r := "/" + name;
    NameEndOf(r, slashes);
    assert (r + slashes)[..|r|] == r;
    LastIndexOfCharIs(r, '/', 0);
    assert r[1..] == name;
  }

  /** `path.extname(name)` for a base name: from the last `.` on, except
      that a name whose only dot leads it, and the name `..`, have none. */
  function Extname(name: string): (e: string)
    ensures e == "" || (e[0] == '.' && '.' !in e[1..] && |e| < |name| && name[|name| - |e|..] == e)
  {
    var d := LastIndexOfChar(name, '.');
    if d <= 0 || name == ".." then "" else name[d..]
  }

  /** A dot after a non-empty stem starts the extension when no dot
      follows it; a name whose only dot leads it has no extension. */
  lemma ExtnameOfDotted(stem: string, x: string)
    requires '.' !in x && |x| > 0
    ensures |stem| > 0 ==> Extname(stem + "." + x) == "." + x
    ensures Extname("." + x) == ""
  {
    var s := stem + "." + x;
    assert s[|stem|] == '.';
    LastIndexOfCharIs(s, '.', |stem|);
    assert s[|stem|..] == "." + x;
    var t := "." + x;
    LastIndexOfCharIs(t, '.', 0);
  }

  /** The same, with the extension given with its dot. */
  lemma ExtnameOfSuffix(stem: string, e: string)
    requires |stem| > 0 && |e| >= 2 && e[0] == '.' && '.' !in e[1..]
    ensures Extname(stem + e) == e
  {
    var s := stem + e;
    assert s[|stem|] == '.' && s[|stem| + 1..] == e[1..];
    LastIndexOfCharIs(s, '.', |stem|);
    assert s[|stem|..] == e;
  }

  /** `path.basename(name, ext)` for a name without separators: the suffix
      is cut off when the name ends with it (leaving `""` when it is the
      whole name). */
  function BasenameWithout(name: string, ext: string): (r: string)
    ensures |ext| <= |name| && name[|name| - |ext|..] == ext ==> r + ext == name
    ensures !(|ext| <= |name| && name[|name| - |ext|..] == ext) ==> r == name
  {
    if |ext| <= |name| && name[|name| - |ext|..] == ext then name[..|name| - |ext|] else name
  }

  // ---------------------------------------------------------------------------
  // Normalisation and join

  /** A segment normalisation keeps: not empty, not `.` or `..`, no separator. */
  predicate Plain(seg: string) {
    seg != "" && seg != "." && seg != ".." && '/' !in seg
  }

  predicate AllPlain(segs: seq<string>) {
    forall k :: 0 <= k < |segs| ==> Plain(segs[k])
  }

  /** The directory stack after walking `segs` from `stack`: empty segments
      and `.` are skipped, `..` pops (and stays put at the root). */
  function Resolve(stack: seq<string>, segs: seq<string>): seq<string>
    decreases |segs|
  {
    if |segs| == 0 then stack
    else
      var s := segs[0];
      if s == "" || s == "." then Resolve(stack, segs[1..])
      else if s == ".." then Resolve(if |stack| > 0 then stack[..|stack| - 1] else [], segs[1..])
      else Resolve(stack + [s], segs[1..])
  }

  /** What a walk leaves on the stack is plain. */
  lemma {:induction false} ResolvePlain(stack: seq<string>, segs: seq<string>)
    requires AllPlain(stack)
    requires forall k :: 0 <= k < |segs| ==> '/' !in segs[k]
    ensures AllPlain(Resolve(stack, segs))
    decreases |segs|
  {
    if |segs| > 0 {
      var s := segs[0];
      if s == "" || s == "." {
        ResolvePlain(stack, segs[1..]);
      } else if s == ".." {
        ResolvePlain(if |stack| > 0 then stack[..|stack| - 1] else [], segs[1..]);
      } else {
        ResolvePlain(stack + [s], segs[1..]);
      }
    }
  }

  /** Walking in two goes is walking in one. */
  lemma {:induction false} ResolveAppend(stack: seq<string>, xs: seq<string>, ys: seq<string>)
    ensures Resolve(stack, xs + ys) == Resolve(Resolve(stack, xs), ys)
    decreases |xs|
  {
    if |xs| > 0 {
      assert (xs + ys)[0] == xs[0];
      assert (xs + ys)[1..] == xs[1..] + ys;
      var s := xs[0];
      if s == "" || s == "." {
        ResolveAppend(stack, xs[1..], ys);
      } else if s == ".." {
        ResolveAppend(if |stack| > 0 then stack[..|stack| - 1] else [], xs[1..], ys);
      } else {
        ResolveAppend(stack + [s], xs[1..], ys);
      }
    } else {
      assert xs + ys == ys;
    }
  }

  /** Plain segments are pushed as they are. */
  lemma {:induction false} ResolveOfPlain(stack: seq<string>, segs: seq<string>)
    requires AllPlain(segs)
    ensures Resolve(stack, segs) == stack + segs
    decreases |segs|
  {
    if |segs| > 0 {
      assert Plain(segs[0]);
      ResolveOfPlain(stack + [segs[0]], segs[1..]);
      assert stack + [segs[0]] + segs[1..] == stack + segs;
    } else {
      assert stack + segs == stack;
    }
  }

  /** `path.normalize(p)` for an absolute path: the resolved segments under
      the root, with a trailing separator kept. */
  function NormalizeAbsolute(p: string): (r: string)
    requires IsAbsolute(p)
    ensures IsAbsolute(r)
  {
    var stack := Resolve([], Split(p, '/'));
    if |stack| == 0 then "/"
    else "/" + Join(stack, '/') + (if p[|p| - 1] == '/' then "/" else "")
  }

  /** The absolute path spelled by plain segments, with or without a
      trailing separator. */
  function Spell(segs: seq<string>, trailing: bool): string
    requires |segs| > 0
  {
    "/" + Join(segs, '/') + (if trailing then "/" else "")
  }

  lemma SplitSpell(segs: seq<string>, trailing: bool)
    requires |segs| > 0 && AllPlain(segs)
    ensures Split(Spell(segs, trailing), '/') == [""] + segs + (if trailing then [""] else [])
  {
    var parts := [""] + segs + (if trailing then [""] else []);
    assert parts[1..] == segs + (if trailing then [""] else []);
    if trailing {
      Paths.JoinLast(parts[1..], '/');
      assert parts[1..][..|parts[1..]| - 1] == segs;
    } else {
      assert parts[1..] == segs;
    }
    assert Join(parts, '/') == Spell(segs, trailing);
    SplitJoin(parts, '/');
  }

  /** A path spelled from plain segments is already normal. */
  lemma NormalizeSpelled(segs: seq<string>, trailing: bool)
    requires |segs| > 0 && AllPlain(segs)
    ensures NormalizeAbsolute(Spell(segs, trailing)) == Spell(segs, trailing)
  {
    var p := Spell(segs, trailing);
    SplitSpell(segs, trailing);
    var tail: seq<string> := if trailing then [""] else [];
    ResolveAppend([], [""] + segs, tail);
    ResolveAppend([], [""], segs);
    ResolveOfPlain([], segs);
    assert Resolve([], [""]) == [];
    assert [] + segs == segs;
    assert Resolve([], [""] + segs) == segs;
    assert Resolve(segs, tail) == segs;
    assert Resolve([], Split(p, '/')) == segs;
    var j := Join(segs, '/');
    var last := segs[|segs| - 1];
    assert Plain(last);
    Paths.JoinLastSegmentEnds(segs, '/');
    assert j[|j| - 1] == last[|last| - 1] by {
      assert j[|j| - |last|..][|last| - 1] == last[|last| - 1];
    }
    assert last[|last| - 1] != '/';
    if trailing {
      assert p == ("/" + j) + "/";
    } else {
      assert p == "/" + j;
      assert p[|p| - 1] == j[|j| - 1];
    }
  }

  /** Normalising twice changes nothing more. */
  lemma NormalizeAbsoluteIdempotent(p: string)
    requires IsAbsolute(p)
    ensures NormalizeAbsolute(NormalizeAbsolute(p)) == NormalizeAbsolute(p)
  {
    var stack := Resolve([], Split(p, '/'));
    ResolvePlain([], Split(p, '/'));
    if |stack| == 0 {
      assert Split("/", '/') == [""] + Split("", '/');
    } else {
      NormalizeSpelled(stack, p[|p| - 1] == '/');
    }
  }

  /** `path.join(base, rel)` under an absolute directory: the two joined
      with a separator, then normalised; an empty `rel` is dropped. */
  function JoinUnder(base: string, rel: string): (r: string)
    requires IsAbsolute(base)
    ensures IsAbsolute(r)
  {
    if rel == "" then NormalizeAbsolute(base) else NormalizeAbsolute(base + "/" + rel)
  }

  /** Spelling two lists of segments one after the other. */
  lemma SpellAppend(dir: seq<string>, rel: seq<string>)
    requires |dir| > 0 && |rel| > 0
    ensures Spell(dir, false) + "/" + Join(rel, '/') == Spell(dir + rel, false)
  {
    Paths.JoinAppend(dir, rel, '/');
    SpellPlain(dir);
    SpellPlain(dir + rel);
    SlashJoin(Join(dir, '/'), Join(rel, '/'), Join(dir + rel, '/'));
  }

  lemma SpellPlain(segs: seq<string>)
    requires |segs| > 0
    ensures Spell(segs, false) == "/" + Join(segs, '/')
  {
  }

  lemma SlashJoin(a: string, b: string, j: string)
    requires j == a + ['/'] + b
    ensures "/" + a + "/" + b == "/" + j
  {
  }

  lemma AllPlainAppend(xs: seq<string>, ys: seq<string>)
    requires AllPlain(xs) && AllPlain(ys)
    ensures AllPlain(xs + ys)
  {
    forall k | 0 <= k < |xs + ys|
      ensures Plain((xs + ys)[k])
    {
      if k >= |xs| {
        assert (xs + ys)[k] == ys[k - |xs|];
      }
    }
  }

  /** Joining plain segments under a normal directory only puts a separator
      between them. */
  lemma JoinUnderPlain(dir: seq<string>, rel: seq<string>)
    requires |dir| > 0 && AllPlain(dir) && |rel| > 0 && AllPlain(rel)
    ensures JoinUnder(Spell(dir, false), Join(rel, '/')) == Spell(dir, false) + "/" + Join(rel, '/')
    ensures JoinUnder(Spell(dir, false), Join(rel, '/')) == Spell(dir + rel, false)
  {
    Paths.JoinLastSegmentEnds(rel, '/');
    SpellAppend(dir, rel);
    AllPlainAppend(dir, rel);
    NormalizeSpelled(dir + rel, false);
  }
}
