/** Package `logs`, file formatter.go: the layout of a log line and the rendering
    of an error chain to a limited depth.

    `time.Format` is not modelled: the date arrives already rendered. The base name
    of a path (`filepath.Base`) is a parameter `base`. */
module LogFormat {
  import opened Common
  import opened Errors
  import opened LogLevels

  const CauseBy: string := "\n  > cause by: "
  const ErrorIntro: string := "\n  > error: "

  // ---------------------------------------------------------------------------
  // The chain of causes

  /** An error followed by its causes, as errors.Unwrap walks them. */
  function Chain(e: Error): (c: seq<Error>)
    ensures |c| >= 1 && c[0] == e
  {
    if e.Custom? && e.cause.Some? then [e] + Chain(e.cause.value) else [e]
  }

  /** How one error of the chain is named: a traceable error by its message and its
      position, any other error by its Error() text. */
  function Head(e: Error, base: string -> string): string {
    if e.Custom? then Message(e) + " ( " + base(File(e)) + ":" + IntToString(Line(e)) + " )"
    else ErrorText(e)
  }

  function Heads(es: seq<Error>, base: string -> string): (r: seq<string>)
    ensures |r| == |es|
  {
    if |es| == 0 then [] else [Head(es[0], base)] + Heads(es[1..], base)
  }

  /** FormatError: "nil" for no error, "..." once the depth is used up, otherwise
      the error named by Head followed by its cause at one less depth. A negative
      depth never reaches zero. */
  function FormatError(err: Option<Error>, errorsDepth: int, base: string -> string): (r: string)
    ensures err.None? ==> r == "nil"
    ensures err.Some? && errorsDepth == 0 ==> r == "..."
    ensures err.Some? && errorsDepth != 0 ==> Head(err.value, base) <= r
    decreases if err.Some? then |Chain(err.value)| else 0
  {
    if err.None? then "nil"
    else if errorsDepth == 0 then "..."
    else
      var e := err.value;
      var result := Head(e, base);
      var cause := Unwrap(e);
      if cause.Some? then
        PrefixAppend(result, result, CauseBy + FormatError(cause, errorsDepth - 1, base));
        result + (CauseBy + FormatError(cause, errorsDepth - 1, base))
      else result
  }

  /** How many errors of a chain of `len` are named at depth `d`. */
  function Shown(d: int, len: nat): nat {
    if d < 0 || d >= len then len else d
  }

  /** The texts FormatError joins at depth `d` for the chain `c`. */
  function Shows(c: seq<Error>, d: int, base: string -> string): seq<string> {
    Heads(c[..Shown(d, |c|)], base) + (if 0 <= d < |c| then ["..."] else [])
  }

  /** FormatError at depth `d` names the first Shown(d) errors of the chain, one
      per "cause by" line, with "..." in place of the rest when the chain is longer
      than a non-negative depth. */
  lemma {:induction false} FormatErrorShowsChain(e: Error, d: int, base: string -> string)
    ensures FormatError(Some(e), d, base) == Join(Shows(Chain(e), d, base), CauseBy)
    decreases |Chain(e)|
  {
    var cause := Unwrap(e);
    if d == 0 {
      DepthUsedUp(e, base);
    } else if cause.None? {
      LastShown(e, d, base);
    } else {
      FormatErrorShowsChain(cause.value, d - 1, base);
      CauseShown(e, d, base);
    }
  }

  /** The case of FormatErrorShowsChain at depth zero. */
  lemma DepthUsedUp(e: Error, base: string -> string)
    ensures FormatError(Some(e), 0, base) == Join(Shows(Chain(e), 0, base), CauseBy)
  {
    assert Shows(Chain(e), 0, base) == ["..."];
  }

  /** The case of FormatErrorShowsChain for an error without a cause. */
  lemma LastShown(e: Error, d: int, base: string -> string)
    requires d != 0 && Unwrap(e).None?
    ensures FormatError(Some(e), d, base) == Join(Shows(Chain(e), d, base), CauseBy)
  {
    assert Chain(e) == [e];
    assert Shows([e], d, base) == [Head(e, base)];
  }

  /** A negative depth names every error of the chain, and never writes "...". */
  lemma WholeChain(e: Error, d: int, base: string -> string)
    requires d < 0
    ensures FormatError(Some(e), d, base) == Join(Heads(Chain(e), base), CauseBy)
    ensures |Heads(Chain(e), base)| == |Chain(e)|
  {
    FormatErrorShowsChain(e, d, base);
    assert Chain(e)[..|Chain(e)|] == Chain(e);
    assert Shows(Chain(e), d, base) == Heads(Chain(e), base);
  }

  /** The step of FormatErrorShowsChain for an error with a cause. */
  lemma CauseShown(e: Error, d: int, base: string -> string)
    requires d != 0 && Unwrap(e).Some?
    requires FormatError(Unwrap(e), d - 1, base) == Join(Shows(Chain(Unwrap(e).value), d - 1, base), CauseBy)
    ensures FormatError(Some(e), d, base) == Join(Shows(Chain(e), d, base), CauseBy)
  {
    var t := Chain(Unwrap(e).value);
    assert Chain(e) == [e] + t;
    ShowsStep(e, t, d, base);
    JoinStep(Head(e, base), Shows(t, d - 1, base), FormatError(Unwrap(e), d - 1, base));
  }

  /** One more error in front of the chain: one more text in front of what it shows. */
  lemma ShowsStep(e: Error, t: seq<Error>, d: int, base: string -> string)
    requires d != 0 && |t| > 0
    ensures Shows([e] + t, d, base) == [Head(e, base)] + Shows(t, d - 1, base)
    ensures |Shows(t, d - 1, base)| > 0
  {
    var n := Shown(d - 1, |t|);
    assert ([e] + t)[..Shown(d, |t| + 1)] == [e] + t[..n];
    assert ([e] + t[..n])[1..] == t[..n];
  }

  lemma JoinStep(h: string, rest: seq<string>, tailText: string)
    requires |rest| > 0 && tailText == Join(rest, CauseBy)
    ensures Join([h] + rest, CauseBy) == h + (CauseBy + tailText)
  {
    JoinCons(h, rest, CauseBy);
    ConcatAssoc(h, CauseBy, tailText);
  }

  // ---------------------------------------------------------------------------
  // The log line

  /** The part that starts every line: the date, then the level name padded to five
      characters between brackets (fmt's "%s [%5s] "). */
  function Header(date: string, level: LogLevel): (r: string)
    ensures |r| == |date| + 9 && date <= r
    ensures r[|date|..|date| + 2] == " [" && r[|date| + 7..] == "] "
    ensures r[|date| + 2..|date| + 7] == PadLeft(String(level), 5)
  {
    var column := PadLeft(String(level), 5);
    LevelColumn(level);
    Parts4(date, " [", column, "] ");
    date + " [" + column + "] "
  }

  /** "prefix - " for a non-empty prefix, nothing otherwise. */
  function PrefixPart(prefix: string): (r: string)
    ensures r == "" <==> prefix == ""
    ensures prefix != "" ==> r == prefix + " - "
  {
    if prefix != "" then prefix + " - " else ""
  }

  /** " ( file:line )" for a positive line, nothing otherwise. */
  function PositionPart(fileName: string, fileLine: int, base: string -> string): (r: string)
    ensures r == "" <==> fileLine <= 0
  {
    if fileLine > 0 then " ( " + base(fileName) + ":" + IntToString(fileLine) + " )" else ""
  }

  /** The error section, with the whole chain, when there is an error. */
  function ErrorPart(err: Option<Error>, base: string -> string): (r: string)
    ensures r == "" <==> err.None?
    ensures err.Some? ==> ErrorIntro <= r
  {
    if err.Some? then ErrorIntro + FormatError(err, -1, base) else ""
  }

  /** defaultFormaterImpl.Format: the header, the prefix section, the message, the
      position section and the error section, each optional section present only
      under its own condition. */
  function Format(prefix: string, level: LogLevel, fileName: string, fileLine: int, date: string,
                  err: Option<Error>, message: string, base: string -> string): (r: string)
    ensures Header(date, level) <= r
    ensures (PrefixPart(prefix) + message) <= r[|Header(date, level)|..]
    ensures var tail := PositionPart(fileName, fileLine, base) + ErrorPart(err, base);
            && |r| == |Header(date, level)| + |PrefixPart(prefix) + message| + |tail|
            && r[|r| - |tail|..] == tail
    ensures fileLine <= 0 && err.None? ==> r == Header(date, level) + PrefixPart(prefix) + message
  {
    var header := Header(date, level);
    var body := PrefixPart(prefix) + message;
    var tail := PositionPart(fileName, fileLine, base) + ErrorPart(err, base);
    var r := header + body + tail;
    Parts3(header, body, tail);
    PrefixAppend(body, body, tail);
    assert |r| - |tail| == |header| + |body|;
    if fileLine <= 0 && err.None? then
      assert tail == [];
      ConcatAssoc(header, PrefixPart(prefix), message);
      r
    else r
  }

  /** The level column is always five characters wide, and shows " INFO" for the
      default and the info levels. */
  lemma LevelColumn(level: LogLevel)
    ensures |PadLeft(String(level), 5)| == 5
    ensures level == LevelDefault || level == LevelInfo ==> PadLeft(String(level), 5) == " INFO"
  {
  }
}
