/** The file scaffolding script (app/scripts/create-file.js): resolve the
    target path, refuse an existing file, derive a module path when none is
    given, and write a header plus a starter body chosen by the extension.
    The file system is a parameter: the set of paths that exist. */
module CreateFile {
  import opened Strings
  import Posix
  import Paths
  import Timestamps
  import HeaderTemplate

  /** What a run of the script ends in: the usage message, the refusal for
      an existing file, or the file written. */
  datatype Outcome =
    | Usage
    | AlreadyExists(message: string)
    | Created(path: string, content: string)

  /** The absolute target: an absolute argument as it is, otherwise joined
      under the working directory (which normalises it). */
  function FullPath(cwd: string, filePath: string): (r: string)
    requires Posix.IsAbsolute(cwd)
    ensures Posix.IsAbsolute(r)
  {
    if Posix.IsAbsolute(filePath) then filePath else Posix.JoinUnder(cwd, filePath)
  }

  /** `s.substring(start)`: empty once `start` passes the end. */
  function Substring(s: string, start: nat): (r: string)
    ensures start <= |s| ==> s[..start] + r == s
    ensures start >= |s| ==> r == ""
  {
    if start <= |s| then s[start..] else ""
  }

  /** `path.join(process.cwd(), 'src')`. */
  function SrcDir(cwd: string): string
    requires Posix.IsAbsolute(cwd)
  {
    Posix.JoinUnder(cwd, "src")
  }

  /** The module path the script derives when none is given, as written:
      any path whose text starts with the `src` directory's text counts as
      inside it, so a sibling such as `srcdir` loses its first letters. */
  function DefaultModulePathAsWritten(cwd: string, fullPath: string): string
    requires Posix.IsAbsolute(cwd)
  {
    var srcDir := SrcDir(cwd);
    if StartsWith(fullPath, srcDir) then
      Paths.Normalize(Substring(Posix.Dirname(fullPath), |srcDir| + 1))
    else
      Paths.Normalize(Posix.Dirname(fullPath))
  }

  /** The module path derived when none is given: the directory relative
      to `src` for a file inside `src`, the whole directory otherwise. */
  function DefaultModulePath(cwd: string, fullPath: string): string
    requires Posix.IsAbsolute(cwd)
  {
    var srcDir := SrcDir(cwd);
    if StartsWith(fullPath, srcDir + "/") then
      Paths.Normalize(Substring(Posix.Dirname(fullPath), |srcDir| + 1))
    else
      Paths.Normalize(Posix.Dirname(fullPath))
  }

  // ---------------------------------------------------------------------------
  // Templates

  /** A file name counts as a React component when its first character does
      not change under upper-casing (an empty name included) and it ends in
      `.tsx`. */
  predicate IsComponent(filename: string) {
    (|filename| == 0 || ToUpper(filename[0]) == filename[0]) && Posix.Extname(filename) == ".tsx"
  }

  /** The starter component; `name` is the file name without `.tsx`. */
  function ComponentBody(name: string, description: string): string {
    "\nimport React from 'react';\n\n/**\n * Props for the " + name + " component\n */\ninterface "
    + name + "Props {\n  // Add props here\n}\n\n/**\n * "
    + (if description == "" then name + " component" else description)
    + "\n *\n * @param props - Component props\n * @returns The rendered component\n */\nconst "
    + name + " = (props: " + name
    + "Props): React.ReactElement => {\n  return (\n    <div>\n      {/* Component content goes here */}\n    </div>\n  );\n};\n\nexport default "
    + name + ";\n"
  }

  function TypesBody(modulePath: string): string {
    "\n/**\n * Types and interfaces for " + modulePath
    + "\n */\n\nexport interface Example {\n  // Add properties here\n}\n"
  }

  const UtilityBody := "\n/**\n * Example function\n *\n * @param input - Description of input\n * @returns Description of return value\n */\nexport function exampleFunction(input: string): string {\n  return input;\n}\n"

  const ScriptBody := "\n/**\n * Example function\n *\n * @param {string} input - Description of input\n * @returns {string} Description of return value\n */\nexport function exampleFunction(input) {\n  return input;\n}\n"

  const StyleBody := "\n/* Styles go here */\n"

  function MarkdownBody(description: string): string {
    "\n# " + (if description == "" then "Title" else description) + "\n\n## Overview\n\nAdd content here.\n"
  }

  /** The kinds of starter file, chosen by extension. */
  datatype Kind = TypeScript | JavaScript | Markdown | Style | Generic

  function KindOf(ext: string): (k: Kind)
    ensures k == TypeScript <==> ext == ".ts" || ext == ".tsx"
    ensures k == JavaScript <==> ext == ".js" || ext == ".jsx"
    ensures k == Markdown <==> ext == ".md"
    ensures k == Style <==> ext == ".css" || ext == ".scss"
  {
    if ext == ".ts" || ext == ".tsx" then TypeScript
    else if ext == ".js" || ext == ".jsx" then JavaScript
    else if ext == ".md" then Markdown
    else if ext == ".css" || ext == ".scss" then Style
    else Generic
  }

  /** The opening and closing lines of the header: an HTML comment for
      Markdown, a block comment otherwise. */
  function Opener(k: Kind): string {
    if k == Markdown then "<!--" else "/**"
  }

  function Closer(k: Kind): string {
    if k == Markdown then " -->" else " */"
  }

  /** The TypeScript starter: a component, a types file, or a utility. */
  function TypeScriptBody(filename: string, description: string, modulePath: string): string {
    if IsComponent(filename) then ComponentBody(Posix.BasenameWithout(filename, ".tsx"), description)
    else if Includes(filename, "types") || Includes(filename, "interfaces") then TypesBody(modulePath)
    else UtilityBody
  }

  /** What follows the header's closing line. */
  function Body(k: Kind, filename: string, description: string, modulePath: string): string {
    match k
    case TypeScript => TypeScriptBody(filename, description, modulePath)
    case JavaScript => ScriptBody
    case Markdown => MarkdownBody(description)
    case Style => StyleBody
    case Generic => ""
  }

  /** The whole new file. */
  function Content(filename: string, description: string, timestamp: string, modulePath: string): string {
    var k := KindOf(Posix.Extname(filename));
    HeaderTemplate.Document(
      HeaderTemplate.HeaderLines(Opener(k), Closer(k), filename, description, timestamp, timestamp, modulePath),
      Body(k, filename, description, modulePath))
  }

  /** `createFile(filePath, description, modulePath)` with the existing
      paths, the working directory and the clock reading as parameters. */
  function Create(existing: set<string>, cwd: string, filePath: string, description: string,
                  modulePath: string, t: Timestamps.Stamp): (r: Outcome)
    requires Posix.IsAbsolute(cwd)
    ensures r != Usage
  {
    var fullPath := FullPath(cwd, filePath);
    if fullPath in existing then AlreadyExists("Error: File already exists: " + fullPath)
    else
      var filename := Posix.Basename(fullPath);
      var mp := if modulePath == "" then DefaultModulePathAsWritten(cwd, fullPath) else modulePath;
      Created(fullPath, Content(filename, description, Timestamps.Format(t), mp))
  }

  /** The command line: the path, then an optional description and module
      path (a missing argument reads as empty). */
  function Run(args: seq<string>, existing: set<string>, cwd: string, t: Timestamps.Stamp): (r: Outcome)
    requires Posix.IsAbsolute(cwd)
    ensures |args| == 0 <==> r == Usage
  {
    if |args| < 1 then Usage
    else
      var description := if |args| > 1 then args[1] else "";
      var modulePath := if |args| > 2 then args[2] else "";
      Create(existing, cwd, args[0], description, modulePath, t)
  }

  // ---------------------------------------------------------------------------
  // Properties

  /** An existing target is never overwritten: the script refuses and names
      it; otherwise the file is written at the resolved path. */
  lemma CreateRefusesExisting(existing: set<string>, cwd: string, filePath: string, description: string,
                              modulePath: string, t: Timestamps.Stamp)
    requires Posix.IsAbsolute(cwd)
    ensures var r := Create(existing, cwd, filePath, description, modulePath, t);
      var full := FullPath(cwd, filePath);
      && (full in existing <==> r.AlreadyExists?)
      && (r.AlreadyExists? ==> r.message == "Error: File already exists: " + full)
      && (r.Created? ==> r.path == full && r.path !in existing)
  {
  }

  /** A new file's lines are its header lines, then the lines of its body. */
  lemma ContentLines(filename: string, description: string, timestamp: string, modulePath: string)
    requires HeaderTemplate.SingleLine(filename) && HeaderTemplate.SingleLine(description)
    requires HeaderTemplate.SingleLine(timestamp) && HeaderTemplate.SingleLine(modulePath)
    ensures var k := KindOf(Posix.Extname(filename));
      Split(Content(filename, description, timestamp, modulePath), '\n')
      == HeaderTemplate.HeaderLines(Opener(k), Closer(k), filename, description, timestamp, timestamp, modulePath)
         + Split(Body(k, filename, description, modulePath), '\n')
  {
    var k := KindOf(Posix.Extname(filename));
    var lines := HeaderTemplate.HeaderLines(Opener(k), Closer(k), filename, description, timestamp, timestamp, modulePath);
    HeaderTemplate.HeaderLinesSingle(Opener(k), Closer(k), filename, description, timestamp, timestamp, modulePath);
    HeaderTemplate.DocumentLines(lines, Body(k, filename, description, modulePath));
  }

  /** Every new file opens with its header: the base name, the description
      or its placeholder, equal creation and update times, and the module
      path given or derived; Markdown uses an HTML comment. */
  lemma CreatedHeader(existing: set<string>, cwd: string, filePath: string, description: string,
                      modulePath: string, t: Timestamps.Stamp)
    requires Posix.IsAbsolute(cwd)
    requires Create(existing, cwd, filePath, description, modulePath, t).Created?
    requires HeaderTemplate.SingleLine(filePath) && HeaderTemplate.SingleLine(cwd)
    requires HeaderTemplate.SingleLine(description) && HeaderTemplate.SingleLine(modulePath)
    ensures var r := Create(existing, cwd, filePath, description, modulePath, t);
      var full := FullPath(cwd, filePath);
      var name := Posix.Basename(full);
      var k := KindOf(Posix.Extname(name));
      var mp := if modulePath == "" then DefaultModulePathAsWritten(cwd, full) else modulePath;
      var ts := Timestamps.Format(t);
      Split(r.content, '\n')
      == HeaderTemplate.HeaderLines(Opener(k), Closer(k), name, description, ts, ts, mp)
         + Split(Body(k, name, description, mp), '\n')
  {
    var full := FullPath(cwd, filePath);
    var name := Posix.Basename(full);
    var mp := if modulePath == "" then DefaultModulePathAsWritten(cwd, full) else modulePath;
    var ts := Timestamps.Format(t);
    assert Create(existing, cwd, filePath, description, modulePath, t).content == Content(name, description, ts, mp);
    Timestamps.FormatSingleLine(t);
    FullPathSingleLine(cwd, filePath);
    BasenameSingleLine(full);
    if modulePath == "" {
      DefaultModulePathSingleLine(cwd, full);
    }
    ContentLines(name, description, ts, mp);
  }

  /** A `.tsx` name has the extension `.tsx`. */
  lemma TsxExtension(stem: string)
    requires |stem| > 0 && '.' !in stem
    ensures Posix.Extname(stem + ".tsx") == ".tsx"
  {
    Posix.ExtnameOfSuffix(stem, ".tsx");
  }

  /** A `.tsx` name's stem is what the component template is named after. */
  lemma TsxStem(stem: string)
    ensures Posix.BasenameWithout(stem + ".tsx", ".tsx") == stem
  {
    var n := stem + ".tsx";
    assert n[|n| - 4..] == ".tsx";
    assert n[..|n| - 4] == stem;
  }

  /** A `.ts` name is never a component. */
  lemma TsNeverComponent(stem: string)
    requires |stem| > 0 && '.' !in stem
    ensures !IsComponent(stem + ".ts")
  {
    Posix.ExtnameOfSuffix(stem, ".ts");
  }

  /** A `.tsx` file whose name starts with a character upper-casing leaves
      alone gets the component template named after its stem; a `.ts` file
      never does. */
  lemma ComponentChoice(stem: string, description: string, modulePath: string)
    requires |stem| > 0 && '.' !in stem && ToUpper(stem[0]) == stem[0]
    ensures KindOf(Posix.Extname(stem + ".tsx")) == TypeScript
    ensures TypeScriptBody(stem + ".tsx", description, modulePath) == ComponentBody(stem, description)
    ensures !IsComponent(stem + ".ts")
  {
    var n := stem + ".tsx";
    TsxExtension(stem);
    TsNeverComponent(stem);
    assert IsComponent(n) by {
      assert n[0] == stem[0];
    }
    assert TypeScriptBody(n, description, modulePath)
      == ComponentBody(Posix.BasenameWithout(n, ".tsx"), description);
    TsxStem(stem);
  }

  /** A lower-case `.ts` or `.tsx` name gets the types template when it
      mentions `types` and the utility template when it mentions neither
      `types` nor `interfaces`. */
  lemma NonComponentChoice(filename: string, description: string, modulePath: string)
    requires |filename| > 0 && IsAsciiLower(filename[0])
    ensures Includes(filename, "types") ==> TypeScriptBody(filename, description, modulePath) == TypesBody(modulePath)
    ensures !Includes(filename, "types") && !Includes(filename, "interfaces")
      ==> TypeScriptBody(filename, description, modulePath) == UtilityBody
  {
    assert !IsComponent(filename);
  }

  // ---------------------------------------------------------------------------
  // The derived module path

  /** The `src` directory of a normal working directory. */
  lemma SrcDirOf(cwd: seq<string>)
    requires |cwd| > 0 && Posix.AllPlain(cwd)
    ensures SrcDir(Posix.Spell(cwd, false)) == Posix.Spell(cwd, false) + "/src"
  {
    Posix.JoinUnderPlain(cwd, ["src"]);
  }

  /** A directory spelled from plain segments ends in a name. */
  lemma SpelledEndsInName(segs: seq<string>)
    requires |segs| > 0 && Posix.AllPlain(segs)
    ensures var j := Join(segs, '/'); |j| > 0 && j[|j| - 1] != '/'
  {
    var j, last := Join(segs, '/'), segs[|segs| - 1];
    assert Posix.Plain(last);
    Paths.JoinLastSegmentEnds(segs, '/');
    assert j[|j| - 1] == j[|j| - |last|..][|last| - 1];
  }

  /** The directory of a name below a directory spelled from plain segments. */
  lemma DirnameBelow(src: string, dir: seq<string>, name: string)
    requires |dir| > 0 && Posix.AllPlain(dir)
    requires |name| > 0 && '/' !in name
    ensures Posix.Dirname(src + "/" + Join(dir, '/') + "/" + name) == src + "/" + Join(dir, '/')
  {
    var jd := Join(dir, '/');
    var d := src + "/" + jd;
    SpelledEndsInName(dir);
    assert d[|d| - 1] == jd[|jd| - 1];
    Posix.DirnameBasename(d, name, "");
    assert d + "/" + name + "" == d + "/" + name;
  }

  /** A file inside `src` whose directory is `src/rel` gets `rel`. */
  lemma ModulePathOfDirectory(cwd: string, full: string, rel: string)
    requires Posix.IsAbsolute(cwd)
    requires StartsWith(full, SrcDir(cwd) + "/")
    requires Posix.Dirname(full) == SrcDir(cwd) + "/" + rel
    ensures DefaultModulePath(cwd, full) == Paths.Normalize(rel)
  {
    var src := SrcDir(cwd);
    assert (src + "/" + rel)[|src| + 1..] == rel;
  }

  /** A path spelled as `src/` followed by more starts with `src/`. */
  lemma StartsWithSrc(src: string, jd: string, name: string)
    ensures StartsWith(src + "/" + jd + "/" + name, src + "/")
  {
    assert (src + "/" + jd + "/" + name)[..|src| + 1] == src + "/";
  }

  /** The same over the spelled directory and its `src`. */
  lemma BelowSrcDirectory(base: string, jd: string, name: string)
    requires Posix.IsAbsolute(base) && SrcDir(base) == base + "/src"
    requires Posix.Dirname(base + "/src" + "/" + jd + "/" + name) == base + "/src" + "/" + jd
    ensures DefaultModulePath(base, base + "/src" + "/" + jd + "/" + name) == Paths.Normalize(jd)
  {
    StartsWithSrc(base + "/src", jd, name);
    ModulePathOfDirectory(base, base + "/src" + "/" + jd + "/" + name, jd);
  }

  /** Inside a subdirectory of `src` the module path is that subdirectory,
      both as the script derives it and as corrected. */
  lemma DefaultModulePathBelowSrc(cwd: seq<string>, dir: seq<string>, name: string)
    requires |cwd| > 0 && Posix.AllPlain(cwd) && |dir| > 0 && Posix.AllPlain(dir)
    requires |name| > 0 && '/' !in name
    ensures var base := Posix.Spell(cwd, false);
      DefaultModulePath(base, base + "/src" + "/" + Join(dir, '/') + "/" + name) == Paths.Normalize(Join(dir, '/'))
    ensures var base := Posix.Spell(cwd, false);
      DefaultModulePathAsWritten(base, base + "/src" + "/" + Join(dir, '/') + "/" + name) == Paths.Normalize(Join(dir, '/'))
  {
    var base := Posix.Spell(cwd, false);
    SrcDirOf(cwd);
    DirnameBelow(base + "/src", dir, name);
    BelowSrcDirectory(base, Join(dir, '/'), name);
    StartsWithSrc(base + "/src", Join(dir, '/'), name);
    DefaultModulePathAgrees(base, base + "/src" + "/" + Join(dir, '/') + "/" + name);
  }

  /** Directly in `src` the module path is empty, both as the script
      derives it and as corrected. */
  lemma DefaultModulePathInSrc(cwd: seq<string>, name: string)
    requires |cwd| > 0 && Posix.AllPlain(cwd)
    requires |name| > 0 && '/' !in name
    ensures var base := Posix.Spell(cwd, false);
      DefaultModulePath(base, base + "/src/" + name) == ""
    ensures var base := Posix.Spell(cwd, false);
      DefaultModulePathAsWritten(base, base + "/src/" + name) == ""
  {
    var base := Posix.Spell(cwd, false);
    SrcDirOf(cwd);
    var src := base + "/src";
    Posix.DirnameBasename(src, name, "");
    var full := base + "/src/" + name;
    assert src + "/" + name + "" == full;
    assert full[..|src + "/"|] == src + "/";
    DefaultModulePathAgrees(base, full);
  }

  /** Outside `src` the module path is the file's whole directory; the
      script as written agrees wherever the path does not even start with
      the text of the `src` directory. */
  lemma DefaultModulePathOutside(cwd: string, outside: string, name: string)
    requires Posix.IsAbsolute(cwd)
    requires |name| > 0 && '/' !in name
    requires |outside| > 0 && outside[|outside| - 1] != '/'
    requires !StartsWith(outside + "/", SrcDir(cwd) + "/")
    ensures DefaultModulePath(cwd, outside + "/" + name) == Paths.Normalize(outside)
    ensures !StartsWith(outside + "/" + name, SrcDir(cwd)) ==>
      DefaultModulePathAsWritten(cwd, outside + "/" + name) == Paths.Normalize(outside)
  {
    var src := SrcDir(cwd);
    assert Posix.Dirname(outside + "/" + name) == outside by {
      Posix.DirnameBasename(outside, name, "");
      assert outside + "/" + name + "" == outside + "/" + name;
    }
    var full := outside + "/" + name;
    assert !StartsWith(full, src + "/") by {
      if StartsWith(full, src + "/") {
        if |src + "/"| <= |outside + "/"| {
          assert false;
        } else {
          SeparatorInName(outside, name, src + "/");
          assert false;
        }
      }
    }
    if !StartsWith(full, src) {
      DefaultModulePathAgrees(cwd, full);
    }
  }

  /** A prefix that ends in a separator and reaches past `outside/` puts
      a separator inside `name`. */
  lemma SeparatorInName(outside: string, name: string, q: string)
    requires StartsWith(outside + "/" + name, q) && |q| > |outside| + 1 && q[|q| - 1] == '/'
    ensures '/' in name
  {
    var full := outside + "/" + name;
    assert full[..|q|][|q| - 1] == '/';
    assert name[|q| - |outside| - 2] == full[|q| - 1];
  }

  lemma SrcDirOfP()
    ensures SrcDir("/p") == "/p/src"
  {
    assert Posix.Spell(["p"], false) == "/p";
    SrcDirOf(["p"]);
  }

  lemma DirnameOfExample()
    ensures Posix.Dirname("/p/srcdir/a.ts") == "/p/srcdir"
  {
    Posix.DirnameBasename("/p/srcdir", "a.ts", "");
    assert "/p/srcdir" + "/" + "a.ts" + "" == "/p/srcdir/a.ts";
  }

  /** The script as written takes a sibling of `src` whose name starts with
      `src` for a subdirectory of it: with the working directory `/p`, the
      file `/p/srcdir/a.ts` gets the module path `ir`, where the corrected
      derivation gives its directory `/p/srcdir`. */
  lemma SrcPrefixCounterexample()
    ensures DefaultModulePathAsWritten("/p", "/p/srcdir/a.ts") == "ir"
    ensures DefaultModulePath("/p", "/p/srcdir/a.ts") == "/p/srcdir"
  {
    SrcDirOfP();
    DirnameOfExample();
    var full := "/p/srcdir/a.ts";
    assert StartsWith(full, "/p/src") by {
      assert full[..6] == "/p/src";
    }
    assert !StartsWith(full, "/p/src" + "/") by {
      assert full[..7][6] == 'd';
    }
    assert Substring("/p/srcdir", |"/p/src"| + 1) == "ir";
    Derivations("/p", full, "/p/src", "/p/srcdir");
  }

  /** Both derivations once the `src` directory and the file's directory
      are known. */
  lemma Derivations(cwd: string, full: string, src: string, dir: string)
    requires Posix.IsAbsolute(cwd) && SrcDir(cwd) == src && Posix.Dirname(full) == dir
    ensures StartsWith(full, src) ==>
      DefaultModulePathAsWritten(cwd, full) == Paths.Normalize(Substring(dir, |src| + 1))
    ensures !StartsWith(full, src + "/") ==> DefaultModulePath(cwd, full) == Paths.Normalize(dir)
  {
  }

  /** The two derivations agree on every file inside `src`, and on every
      file whose path does not start with the `src` directory's text. */
  lemma DefaultModulePathAgrees(cwd: string, fullPath: string)
    requires Posix.IsAbsolute(cwd)
    requires StartsWith(fullPath, SrcDir(cwd) + "/") || !StartsWith(fullPath, SrcDir(cwd))
    ensures DefaultModulePathAsWritten(cwd, fullPath) == DefaultModulePath(cwd, fullPath)
  {
    var src := SrcDir(cwd);
    if StartsWith(fullPath, src + "/") {
      assert fullPath[..|src|] == (src + "/")[..|src|] == src;
    }
  }

  // ---------------------------------------------------------------------------
  // Line breaks do not appear out of nowhere

  lemma BasenameSingleLine(p: string)
    requires '\n' !in p
    ensures '\n' !in Posix.Basename(p)
  {
    var e := Posix.NameEnd(p);
    var i := Posix.LastIndexOfChar(p[..e], '/');
    assert Posix.Basename(p) == p[i + 1..e];
    SliceSingleLine(p, i + 1, e);
  }

  lemma SliceSingleLine(p: string, i: nat, j: nat)
    requires i <= j <= |p| && '\n' !in p
    ensures '\n' !in p[i..j]
  {
  }

  lemma ResolveSingleLine(stack: seq<string>, segs: seq<string>)
    requires forall k :: 0 <= k < |stack| ==> '\n' !in stack[k]
    requires forall k :: 0 <= k < |segs| ==> '\n' !in segs[k]
    ensures forall k :: 0 <= k < |Posix.Resolve(stack, segs)| ==> '\n' !in Posix.Resolve(stack, segs)[k]
    decreases |segs|
  {
    if |segs| > 0 {
      var s := segs[0];
      if s == "" || s == "." {
        ResolveSingleLine(stack, segs[1..]);
      } else if s == ".." {
        ResolveSingleLine(if |stack| > 0 then stack[..|stack| - 1] else [], segs[1..]);
      } else {
        ResolveSingleLine(stack + [s], segs[1..]);
      }
    }
  }

  lemma NormalizeSingleLine(p: string)
    requires Posix.IsAbsolute(p) && '\n' !in p
    ensures '\n' !in Posix.NormalizeAbsolute(p)
  {
    var segs := Split(p, '/');
    Paths.SplitKeepsAbsent(p, '/', '\n');
    ResolveSingleLine([], segs);
    var r := Posix.Resolve([], segs);
    assert forall k :: 0 <= k < |r| ==> '\n' !in r[k];
    JoinAvoids(r, '/', '\n');
  }

  lemma FullPathSingleLine(cwd: string, filePath: string)
    requires Posix.IsAbsolute(cwd) && '\n' !in cwd && '\n' !in filePath
    ensures '\n' !in FullPath(cwd, filePath)
  {
    if !Posix.IsAbsolute(filePath) {
      if filePath == "" {
        NormalizeSingleLine(cwd);
      } else {
        NormalizeSingleLine(cwd + "/" + filePath);
      }
    }
  }

  lemma DirnameSingleLine(p: string)
    requires '\n' !in p
    ensures '\n' !in Posix.Dirname(p)
  {
    if |p| > 0 {
      var e := Posix.NameEnd(p);
      var i := Posix.LastIndexOfChar(p[..e], '/');
      if i > 1 || (i == 1 && p[0] != '/') {
        SliceSingleLine(p, 0, i);
      }
    }
  }

  lemma DefaultModulePathSingleLine(cwd: string, fullPath: string)
    requires Posix.IsAbsolute(cwd) && '\n' !in fullPath
    ensures '\n' !in DefaultModulePath(cwd, fullPath)
    ensures '\n' !in DefaultModulePathAsWritten(cwd, fullPath)
  {
    var d := Posix.Dirname(fullPath);
    DirnameSingleLine(fullPath);
    var srcDir := SrcDir(cwd);
    if |srcDir| + 1 <= |d| {
      SliceSingleLine(d, |srcDir| + 1, |d|);
    }
  }
}
