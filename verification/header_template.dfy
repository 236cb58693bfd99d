/** The documentation header every source file opens with, as the lint
    template (`.header-template.js`) writes it and as the two header scripts
    repeat it: an opener, `@file`, `@description`, `@created`,
    `@lastUpdated` and `@module` lines, and a closer. */
module HeaderTemplate {
  import opened Strings
  import Paths
  import Timestamps

  const DefaultDescription := "TODO: Add file description"

  /** `description || 'TODO: Add file description'`: an absent or empty
      description (both are falsy) falls back to the placeholder. */
  function Describe(description: string): (r: string)
    ensures r != ""
    ensures description != "" ==> r == description
    ensures description == "" ==> r == DefaultDescription
  {
    if description == "" then DefaultDescription else description
  }

  /** The seven lines of a header. */
  function HeaderLines(open: string, close: string, filename: string, description: string,
                       created: string, lastUpdated: string, modulePath: string): seq<string>
  {
    [ open,
      " * @file " + filename,
      " * @description " + Describe(description),
      " * @created " + created,
      " * @lastUpdated " + lastUpdated,
      " * @module " + modulePath,
      close ]
  }

  /** A header followed by a line break and then `rest`. */
  function Document(lines: seq<string>, rest: string): string {
    Join(lines, '\n') + "\n" + rest
  }

  /** The lint template for `filePath` at time `t`: the header lines and an
      empty last line, so the text ends with a line break. */
  function Render(filePath: string, description: string, t: Timestamps.Stamp): string {
    var ts := Timestamps.Format(t);
    Join(HeaderLines("/**", " */", Paths.FileName(filePath), description, ts, ts,
                     Paths.TemplateModulePath(filePath)) + [""], '\n')
  }

  // ---------------------------------------------------------------------------
  // Reading the lines back

  /** The characters of a field that may not hold a line break. */
  predicate SingleLine(s: string) {
    '\n' !in s
  }

  /** Splitting a text that opens with whole lines gives those lines, then
      the lines of the rest. */
  lemma {:induction false} SplitAfterLines(lines: seq<string>, rest: string, sep: char)
    requires |lines| >= 1
    requires forall k :: 0 <= k < |lines| ==> sep !in lines[k]
    ensures Split(Join(lines, sep) + [sep] + rest, sep) == lines + Split(rest, sep)
    decreases |lines|, 1
  {
    if |lines| == 1 {
      SplitLineThen(lines[0], rest, sep);
      assert Join(lines, sep) + [sep] + rest == lines[0] + ([sep] + rest);
    } else {
      SplitAfterMoreLines(lines, rest, sep);
    }
  }

  /** The inductive step of `SplitAfterLines`. */
  lemma {:induction false} SplitAfterMoreLines(lines: seq<string>, rest: string, sep: char)
    requires |lines| >= 2
    requires forall k :: 0 <= k < |lines| ==> sep !in lines[k]
    ensures Split(Join(lines, sep) + [sep] + rest, sep) == lines + Split(rest, sep)
    decreases |lines|, 0
  {
    var x := Join(lines[1..], sep) + [sep] + rest;
    SplitLineThen(lines[0], x, sep);
    JoinFirst(lines, rest, sep);
    SplitAfterLines(lines[1..], rest, sep);
    assert lines == [lines[0]] + lines[1..];
  }

  /** A line, a separator and more text split into the line, then the
      pieces of the text. */
  lemma SplitLineThen(w: string, x: string, sep: char)
    requires sep !in w
    ensures Split(w + ([sep] + x), sep) == [w] + Split(x, sep)
  {
    SplitPrefix(w, [sep] + x, sep);
    assert ([sep] + x)[1..] == x;
    assert Split([sep] + x, sep) == [""] + Split(x, sep);
    assert w + "" == w;
  }

  lemma JoinFirst(lines: seq<string>, rest: string, sep: char)
    requires |lines| >= 2
    ensures Join(lines, sep) + [sep] + rest == lines[0] + ([sep] + (Join(lines[1..], sep) + [sep] + rest))
  {
  }

  /** The header lines hold no line break when their fields hold none. */
  lemma HeaderLinesSingle(open: string, close: string, filename: string, description: string,
                          created: string, lastUpdated: string, modulePath: string)
    requires SingleLine(open) && SingleLine(close) && SingleLine(filename) && SingleLine(description)
    requires SingleLine(created) && SingleLine(lastUpdated) && SingleLine(modulePath)
    ensures var lines := HeaderLines(open, close, filename, description, created, lastUpdated, modulePath);
      forall k :: 0 <= k < |lines| ==> '\n' !in lines[k]
  {
    var d := Describe(description);
    assert SingleLine(d);
    var fields := [open, filename, d, created, lastUpdated, modulePath, close];
    var prefixes := ["", " * @file ", " * @description ", " * @created ", " * @lastUpdated ", " * @module ", ""];
    var lines := HeaderLines(open, close, filename, description, created, lastUpdated, modulePath);
    forall k | 0 <= k < 7
      ensures lines[k] == prefixes[k] + fields[k] && '\n' !in prefixes[k] && '\n' !in fields[k]
    {
    }
  }

  /** The lines of a document are the header lines and then the lines of
      what follows. */
  lemma DocumentLines(lines: seq<string>, rest: string)
    requires |lines| >= 1
    requires forall k :: 0 <= k < |lines| ==> '\n' !in lines[k]
    ensures Split(Document(lines, rest), '\n') == lines + Split(rest, '\n')
  {
    SplitAfterLines(lines, rest, '\n');
  }

  /** The rendered template is a document of the header lines with
      nothing after the last line break. */
  lemma RenderIsDocument(filePath: string, description: string, t: Timestamps.Stamp)
    ensures var ts := Timestamps.Format(t);
      Render(filePath, description, t)
      == Document(HeaderLines("/**", " */", Paths.FileName(filePath), description, ts, ts,
                              Paths.TemplateModulePath(filePath)), "")
  {
    var ts := Timestamps.Format(t);
    var lines := HeaderLines("/**", " */", Paths.FileName(filePath), description, ts, ts,
                             Paths.TemplateModulePath(filePath));
    Paths.JoinLast(lines + [""], '\n');
    assert (lines + [""])[..|lines|] == lines;
  }

  /** The rendered template is the header and one empty line: the file
      name is the path's last segment, the placeholder stands in for a
      missing description, the creation and update times are both `t`, and
      the module path is the path with `src/` dropped. */
  lemma RenderLines(filePath: string, description: string, t: Timestamps.Stamp)
    requires SingleLine(filePath) && SingleLine(description)
    ensures var ts := Timestamps.Format(t);
      Split(Render(filePath, description, t), '\n')
      == HeaderLines("/**", " */", Paths.FileName(filePath), description, ts, ts,
                     Paths.TemplateModulePath(filePath)) + [""]
  {
    var ts := Timestamps.Format(t);
    Timestamps.FormatSingleLine(t);
    var name, mp := Paths.FileName(filePath), Paths.TemplateModulePath(filePath);
    NoBreakKept(filePath, name, mp);
    var lines := HeaderLines("/**", " */", name, description, ts, ts, mp);
    HeaderLinesSingle("/**", " */", name, description, ts, ts, mp);
    RenderIsDocument(filePath, description, t);
    DocumentLines(lines, "");
  }

  /** The file name and module path of a one-line path are one line. */
  lemma NoBreakKept(filePath: string, name: string, mp: string)
    requires SingleLine(filePath)
    requires name == Paths.FileName(filePath) && mp == Paths.TemplateModulePath(filePath)
    ensures SingleLine(name) && SingleLine(mp)
  {
    var n := Paths.Normalize(filePath);
    assert '\n' !in n;
    Paths.SplitKeepsAbsent(n, '/', '\n');
    var d := Paths.DropSrcPrefix(filePath);
    assert '\n' !in d;
  }
}
