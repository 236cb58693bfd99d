/** The console logger (app/src/utils/logger.ts): a module-level development
    flag gates three console wrappers that prefix every entry with the
    application tag. The console is modelled as the trace of entries written
    so far. */
module Logger {
  import opened Json

  const LogPrefix: string := "[CoDirectorApp]"

  datatype Level = Info | Warn | Error

  /** One call of `console.info`, `console.warn` or `console.error` with its
      arguments. */
  datatype ConsoleEntry = ConsoleEntry(level: Level, args: seq<Json>)

  /** The module state: the `IS_DEV_MODE` flag and the console trace. */
  datatype Logger = Logger(devMode: bool, console: seq<ConsoleEntry>)

  /** The state at module load; `dev` is the build's `import.meta.env.DEV`. */
  function Init(dev: bool): (l: Logger)
    ensures l.devMode == dev && l.console == []
  {
    Logger(dev, [])
  }

  /** `setDevMode(isDev)`. */
  function SetDevMode(l: Logger, isDev: bool): (r: Logger)
    ensures r.devMode == isDev
    ensures r.console == l.console
  {
    l.(devMode := isDev)
  }

  /** The common body of `logInfo`, `logWarn` and `logError`. */
  function Log(l: Logger, level: Level, args: seq<Json>): (r: Logger)
    ensures r.devMode == l.devMode
    ensures l.devMode ==> r.console == l.console + [ConsoleEntry(level, [JStr(LogPrefix)] + args)]
    ensures !l.devMode ==> r.console == l.console
  {
    if l.devMode then l.(console := l.console + [ConsoleEntry(level, [JStr(LogPrefix)] + args)]) else l
  }

  function LogInfo(l: Logger, args: seq<Json>): Logger {
    Log(l, Info, args)
  }

  function LogWarn(l: Logger, args: seq<Json>): Logger {
    Log(l, Warn, args)
  }

  function LogError(l: Logger, args: seq<Json>): Logger {
    Log(l, Error, args)
  }

  /** One logging call: its level and arguments. */
  datatype LogCall = LogCall(level: Level, args: seq<Json>)

  function LogAll(l: Logger, calls: seq<LogCall>): Logger
    decreases |calls|
  {
    if |calls| == 0 then l else LogAll(Log(l, calls[0].level, calls[0].args), calls[1..])
  }

  /** Any run of logging calls keeps the flag. With the flag set it appends
      exactly one entry per call, in call order, each the tag followed by the
      call's arguments at the call's level; with the flag clear it writes
      nothing. */
  lemma {:induction false} LogAllTrace(l: Logger, calls: seq<LogCall>)
    ensures LogAll(l, calls).devMode == l.devMode
    ensures !l.devMode ==> LogAll(l, calls).console == l.console
    ensures l.devMode ==> |LogAll(l, calls).console| == |l.console| + |calls|
    ensures l.devMode ==> LogAll(l, calls).console[..|l.console|] == l.console
    ensures l.devMode ==> forall i :: 0 <= i < |calls| ==>
      LogAll(l, calls).console[|l.console| + i]
        == ConsoleEntry(calls[i].level, [JStr(LogPrefix)] + calls[i].args)
    decreases |calls|
  {
    if |calls| > 0 {
      var l' := Log(l, calls[0].level, calls[0].args);
      LogAllTrace(l', calls[1..]);
      if l.devMode {
        var r := LogAll(l, calls);
        assert r == LogAll(l', calls[1..]);
        assert r.console[..|l'.console|] == l'.console;
        assert r.console[..|l.console|] == l'.console[..|l.console|];
        forall i | 0 <= i < |calls|
          ensures r.console[|l.console| + i] == ConsoleEntry(calls[i].level, [JStr(LogPrefix)] + calls[i].args)
        {
          if i == 0 {
            assert r.console[|l.console|] == r.console[..|l'.console|][|l.console|];
          } else {
            assert calls[1..][i - 1] == calls[i];
          }
        }
      }
    }
  }
}
