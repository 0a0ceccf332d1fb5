/** Package `logs`, file level.go: the seven log levels (an 8-bit unsigned level in
    Go) and their names. */
module LogLevels {

  newtype LogLevel = x: int | 0 <= x < 256

  const LevelTrace: LogLevel := 0
  const LevelDebug: LogLevel := 1
  /** The level a logger holds until one is set: it stands for the package's
      default level, and renders as INFO. */
  const LevelDefault: LogLevel := 2
  const LevelInfo: LogLevel := 3
  const LevelWarn: LogLevel := 4
  const LevelError: LogLevel := 5
  const LevelFatal: LogLevel := 6

  /** The seven named levels, in increasing order. */
  const Named: seq<LogLevel> := [LevelTrace, LevelDebug, LevelDefault, LevelInfo, LevelWarn, LevelError, LevelFatal]

  /** LogLevel.String: at most five characters; Default and Info share "INFO";
      anything beyond Fatal is "?????". */
  function String(level: LogLevel): (r: string)
    ensures |r| <= 5
    ensures r == "INFO" <==> level == LevelDefault || level == LevelInfo
    ensures r == "?????" <==> level > LevelFatal
  {
    match level
    case 0 => "TRACE"
    case 1 => "DEBUG"
    case 2 => "INFO"
    case 3 => "INFO"
    case 4 => "WARN"
    case 5 => "ERROR"
    case 6 => "FATAL"
    case _ => "?????"
  }

  /** The named levels are strictly increasing, and they are all the levels up to
      Fatal. */
  lemma LevelsOrdered()
    ensures forall a, b :: 0 <= a < b < |Named| ==> Named[a] < Named[b]
    ensures forall l: LogLevel :: l <= LevelFatal <==> l in Named
  {
    forall l: LogLevel | l <= LevelFatal ensures l in Named {
      assert l == Named[l as int];
    }
  }

  /** Two named levels have the same name exactly when they are equal or are
      Default and Info. */
  lemma NamesDistinct(a: LogLevel, b: LogLevel)
    requires a <= LevelFatal && b <= LevelFatal
    ensures String(a) == String(b) <==> a == b || (String(a) == "INFO" && String(b) == "INFO")
  {
  }
}
