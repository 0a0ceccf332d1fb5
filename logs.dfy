/** Package `logs`, file logger.go: a logger holds a prefix, a minimal level, a
    formatter and an output; each log call is filtered on the level, formatted and
    written to the output, and the fatal calls then exit with code 1.

    What the logger cannot see is a parameter: the package's default level, the
    rendering of arguments by `fmt.Sprint` and `fmt.Sprintf`, formatters supplied
    by user code, the base name of a path, the call site found on the stack and
    the current date. The output is an identifier, and what it receives is kept in
    a trace of emissions; a call to `exit` is kept in a trace of exit codes. */
module Logs {
  import opened Common
  import opened Errors
  import opened LogLevels
  import opened LogFormat

  /** One argument of a log call: an error, or any other value, known by its text. */
  datatype Arg = ErrorArg(err: Error) | OtherArg(text: string)

  /** The formatter a logger uses: the package's default one, or one from user code. */
  datatype FormatterRef = DefaultFormatter | UserFormatter(id: nat)

  /** A Go *log.Logger, by identity; DefaultOutput is the package's standard one. */
  type OutputRef = nat

  const DefaultOutput: OutputRef := 0

  /** What a formatter is given for one message. */
  datatype Record = Record(prefix: string, level: LogLevel, fileName: string, fileLine: int, date: string,
                           err: Option<Error>, message: string)

  /** One line written to one output. */
  datatype Emission = Emission(output: OutputRef, text: string)

  datatype LogEnv = LogEnv(
    /** DefaultLogLevel, LevelInfo unless changed */
    defaultLevel: LogLevel,
    sprint: seq<Arg> -> string,
    sprintf: (string, seq<Arg>) -> string,
    userFormat: (nat, Record) -> string,
    base: string -> string)

  function Render(env: LogEnv, f: FormatterRef, r: Record): string {
    match f
    case DefaultFormatter => Format(r.prefix, r.level, r.fileName, r.fileLine, r.date, r.err, r.message, env.base)
    case UserFormatter(id) => env.userFormat(id, r)
  }

  datatype Extracted = Extracted(args: seq<Arg>, err: Option<Error>)

  /** extractErrorOfArguments: a last argument that is an error is taken out of the
      arguments and returned on its own; otherwise the arguments stay as they are. */
  function ExtractErrorOfArguments(attributes: seq<Arg>): (r: Extracted)
    ensures r.err.Some? <==> |attributes| > 0 && attributes[|attributes| - 1].ErrorArg?
    ensures r.err.Some? ==> r.args + [ErrorArg(r.err.value)] == attributes
    ensures r.err.None? ==> r.args == attributes
  {
    if |attributes| == 0 then Extracted(attributes, None)
    else
      var lastArg := attributes[|attributes| - 1];
      if lastArg.ErrorArg? then
        assert attributes[..|attributes| - 1] + [lastArg] == attributes;
        Extracted(attributes[..|attributes| - 1], Some(lastArg.err))
      else Extracted(attributes, None)
  }

  /** The level a logger filters on: the package's default level while it holds
      LevelDefault, its own level otherwise. */
  function EffectiveLevel(stored: LogLevel, defaultLevel: LogLevel): (r: LogLevel)
    ensures stored != LevelDefault ==> r == stored
    ensures stored == LevelDefault ==> r == defaultLevel
  {
    if stored == LevelDefault then defaultLevel else stored
  }

  /** The filter of `log`: against the effective level. */
  predicate LogPasses(level: LogLevel, stored: LogLevel, defaultLevel: LogLevel) {
    level >= EffectiveLevel(stored, defaultLevel)
  }

  /** The filter of `logf`: against the stored level itself. */
  predicate LogfPasses(level: LogLevel, stored: LogLevel) {
    level >= stored
  }

  /** The two filters agree once a level has been set, and while it has not they
      differ exactly for the levels between LevelDefault and the default level. */
  lemma FiltersCompared(level: LogLevel, stored: LogLevel, defaultLevel: LogLevel)
    ensures stored != LevelDefault ==> (LogPasses(level, stored, defaultLevel) <==> LogfPasses(level, stored))
    ensures stored == LevelDefault ==>
              (LogPasses(level, stored, defaultLevel) != LogfPasses(level, stored)
               <==> (LevelDefault <= level < defaultLevel || defaultLevel <= level < LevelDefault))
  {
  }

  /** With the default level left at Info, the difference concerns LevelDefault
      alone, which none of the logging methods uses; with it raised to Warn, an
      Info message passes `logf` and not `log`. */
  lemma FiltersAsShipped(level: LogLevel)
    ensures level != LevelDefault ==> (LogPasses(level, LevelDefault, LevelInfo) <==> LogfPasses(level, LevelDefault))
    ensures !LogPasses(LevelInfo, LevelDefault, LevelWarn) && LogfPasses(LevelInfo, LevelDefault)
  {
  }

  class Logger {
    var prefix: string
    var level: LogLevel
    var formatter: FormatterRef
    var output: OutputRef
    /** Every line this logger wrote, with the output it went to. */
    var emitted: seq<Emission>
    /** Every exit code this logger asked for. */
    var exits: seq<int>

    /** New: the given prefix, LevelDefault, the default formatter and output. */
    constructor New(prefix: string)
      ensures this.prefix == prefix && level == LevelDefault
      ensures formatter == DefaultFormatter && output == DefaultOutput
      ensures emitted == [] && exits == []
    {
      this.prefix := prefix;
      formatter := DefaultFormatter;
      level := LevelDefault;
      output := DefaultOutput;
      emitted := [];
      exits := [];
    }

    function Prefix(): string
      reads this
    {
      prefix
    }

    /** Level: the package's default level while the logger holds LevelDefault. */
    function Level(defaultLevel: LogLevel): (r: LogLevel)
      reads this
      ensures level != LevelDefault ==> r == level
      ensures level == LevelDefault ==> r == defaultLevel
      ensures defaultLevel != LevelDefault ==> r != LevelDefault
    {
      EffectiveLevel(level, defaultLevel)
    }

    method SetLevel(level: LogLevel)
      modifies this
      ensures this.level == level
      ensures prefix == old(prefix) && formatter == old(formatter) && output == old(output)
      ensures emitted == old(emitted) && exits == old(exits)
    {
      this.level := level;
    }

    function Formatter(): FormatterRef
      reads this
    {
      formatter
    }

    method SetFormatter(formatter: FormatterRef)
      modifies this
      ensures this.formatter == formatter
      ensures prefix == old(prefix) && level == old(level) && output == old(output)
      ensures emitted == old(emitted) && exits == old(exits)
    {
      this.formatter := formatter;
    }

    function Output(): OutputRef
      reads this
    {
      output
    }

    method SetOutput(output: OutputRef)
      modifies this
      ensures this.output == output
      ensures prefix == old(prefix) && level == old(level) && formatter == old(formatter)
      ensures emitted == old(emitted) && exits == old(exits)
    {
      this.output := output;
    }

    /** log: one line when the level reaches Level(), none otherwise. The line is
        the formatter's rendering of the message made of the arguments without a
        trailing error, and of that error. */
    method Log(env: LogEnv, lvl: LogLevel, attributes: seq<Arg>, fileName: string, fileLine: int, date: string)
      modifies this
      ensures prefix == old(prefix) && level == old(level) && formatter == old(formatter) && output == old(output)
      ensures exits == old(exits)
      ensures var x := ExtractErrorOfArguments(attributes);
              var line := Render(env, formatter, Record(prefix, lvl, fileName, fileLine, date, x.err, env.sprint(x.args)));
              emitted == old(emitted) + if LogPasses(lvl, level, env.defaultLevel) then [Emission(output, line)] else []
    {
      if lvl >= Level(env.defaultLevel) {
        var x := ExtractErrorOfArguments(attributes);
        var message := env.sprint(x.args);
        emitted := emitted + [Emission(output, Render(env, formatter, Record(prefix, lvl, fileName, fileLine, date, x.err, message)))];
      }
    }

    /** logf: as log, with the message built from a format, but filtered on the
        stored level. */
    method Logf(env: LogEnv, lvl: LogLevel, format: string, attributes: seq<Arg>, fileName: string, fileLine: int,
                date: string)
      modifies this
      ensures prefix == old(prefix) && level == old(level) && formatter == old(formatter) && output == old(output)
      ensures exits == old(exits)
      ensures var x := ExtractErrorOfArguments(attributes);
              var line := Render(env, formatter, Record(prefix, lvl, fileName, fileLine, date, x.err, env.sprintf(format, x.args)));
              emitted == old(emitted) + if LogfPasses(lvl, level) then [Emission(output, line)] else []
    {
      if lvl >= level {
        var x := ExtractErrorOfArguments(attributes);
        var message := env.sprintf(format, x.args);
        emitted := emitted + [Emission(output, Render(env, formatter, Record(prefix, lvl, fileName, fileLine, date, x.err, message)))];
      }
    }

    /** Fatal: log at LevelFatal, then exit with code 1 whatever the filter did. */
    method Fatal(env: LogEnv, attributes: seq<Arg>, fileName: string, fileLine: int, date: string)
      modifies this
      ensures prefix == old(prefix) && level == old(level) && formatter == old(formatter) && output == old(output)
      ensures exits == old(exits) + [1]
      ensures var x := ExtractErrorOfArguments(attributes);
              var line := Render(env, formatter, Record(prefix, LevelFatal, fileName, fileLine, date, x.err, env.sprint(x.args)));
              emitted == old(emitted) + if LogPasses(LevelFatal, level, env.defaultLevel) then [Emission(output, line)] else []
    {
      Log(env, LevelFatal, attributes, fileName, fileLine, date);
      exits := exits + [1];
    }

    /** Fatalf: logf at LevelFatal, then exit with code 1. */
    method Fatalf(env: LogEnv, format: string, attributes: seq<Arg>, fileName: string, fileLine: int, date: string)
      modifies this
      ensures prefix == old(prefix) && level == old(level) && formatter == old(formatter) && output == old(output)
      ensures exits == old(exits) + [1]
      ensures var x := ExtractErrorOfArguments(attributes);
              var line := Render(env, formatter, Record(prefix, LevelFatal, fileName, fileLine, date, x.err, env.sprintf(format, x.args)));
              emitted == old(emitted) + if LogfPasses(LevelFatal, level) then [Emission(output, line)] else []
    {
      Logf(env, LevelFatal, format, attributes, fileName, fileLine, date);
      exits := exits + [1];
    }
  }

  /** A fatal message is never filtered out by a logger whose level is one of the
      named ones. */
  lemma FatalPassesNamedLevels(stored: LogLevel, defaultLevel: LogLevel)
    requires stored <= LevelFatal && defaultLevel <= LevelFatal
    ensures LogPasses(LevelFatal, stored, defaultLevel) && LogfPasses(LevelFatal, stored)
  {
  }
}
