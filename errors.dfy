/** Package `errors`: errors that carry a message, an optional cause and the source
    position where they were built. The position is read from the call stack in Go;
    here it is passed in by the caller. */
module Errors {
  import opened Common

  /** Function name recorded when the stack frame cannot be resolved. */
  const UnknownFunctionLabel: string := "<unknown>"

  /** A non-nil Go `error`: either a `customError` of this package (which implements
      TraceableError) or an error from elsewhere, known only by its Error() text. */
  datatype Error =
    | Custom(message: string, cause: Option<Error>, file: string, funcName: string, line: int)
    | Plain(text: string)

  /** What extractPositionInExecutionStack returns for the caller of New/Wrap. */
  datatype Position = Position(file: string, funcName: string, line: int)

  /** buildCustomError: the message is already formatted. */
  function BuildCustomError(cause: Option<Error>, file: string, funcName: string, line: int,
                            message: string): (e: Error)
    ensures e.Custom? && Message(e) == message && Unwrap(e) == cause
  {
    Custom(message, cause, file, funcName, line)
  }

  function New(message: string, at: Position): (e: Error)
    ensures e.Custom? && Message(e) == message && Unwrap(e) == None
    ensures ErrorText(e) == message + PositionText(e)
  {
    BuildCustomError(None, at.file, at.funcName, at.line, message)
  }

  function NewWithCause(cause: Option<Error>, message: string, at: Position): (e: Error)
    ensures e.Custom? && Message(e) == message && Unwrap(e) == cause
  {
    BuildCustomError(cause, at.file, at.funcName, at.line, message)
  }

  /** Wrap passes the message of a traceable error (without its position), or the
      full text of any other error, to buildCustomError as a format without
      operands, and always has the wrapped error as its cause. */
  function Wrap(cause: Error, at: Position): (e: Error)
    ensures e.Custom? && Unwrap(e) == Some(cause) && Cause(e) == Some(cause)
    ensures var text := if cause.Custom? then Message(cause) else ErrorText(cause);
            Message(e) == FormatWithoutOperands(text) && ('%' !in text ==> Message(e) == text)
  {
    var text := if cause.Custom? then Message(cause) else ErrorText(cause);
    PlainFormatUnchanged(text);
    BuildCustomError(Some(cause), at.file, at.funcName, at.line, FormatWithoutOperands(text))
  }

  // ---------------------------------------------------------------------------
  // fmt.Sprintf with a format and no operands

  /** What one directive, starting at a '%', writes, and where the text after it
      begins. */
  datatype Directive = Directive(text: string, next: nat)

  /** The flag characters of a directive. */
  predicate IsFlag(c: char) {
    c == '#' || c == '0' || c == '+' || c == '-' || c == ' '
  }

  predicate IsDigit(c: char) {
    '0' <= c <= '9'
  }

  function SkipFlags(f: string, i: nat): (j: nat)
    requires i <= |f|
    ensures i <= j <= |f| && (j < |f| ==> !IsFlag(f[j]))
    decreases |f| - i
  {
    if i < |f| && IsFlag(f[i]) then SkipFlags(f, i + 1) else i
  }

  function SkipDigits(f: string, i: nat): (j: nat)
    requires i <= |f|
    ensures i <= j <= |f| && (j < |f| ==> !IsDigit(f[j]))
    decreases |f| - i
  {
    if i < |f| && IsDigit(f[i]) then SkipDigits(f, i + 1) else i
  }

  /** A directive of fmt's doPrintf with no operand to consume: flags, then a width
      (digits, or '*' which finds no operand), then a precision ('.' followed by
      digits or '*'), then the verb. "%%" writes '%'; any other verb writes
      "%!<verb>(MISSING)"; a format that ends before its verb writes "%!(NOVERB)". */
  function ParseDirective(f: string): (d: Directive)
    requires |f| > 0 && f[0] == '%'
    ensures 0 < d.next <= |f|
  {
    var i0 := SkipFlags(f, 1);
    var width := if i0 < |f| && f[i0] == '*' then "%!(BADWIDTH)" else "";
    var i1 := if i0 < |f| && f[i0] == '*' then i0 + 1 else SkipDigits(f, i0);
    var hasPrecision := i1 + 1 < |f| && f[i1] == '.';
    var precision := if hasPrecision && f[i1 + 1] == '*' then "%!(BADPREC)" else "";
    var i := if !hasPrecision then i1 else if f[i1 + 1] == '*' then i1 + 2 else SkipDigits(f, i1 + 1);
    if i >= |f| then Directive(width + precision + "%!(NOVERB)", |f|)
    else if f[i] == '%' then Directive(width + precision + "%", i + 1)
    else Directive(width + precision + "%!" + [f[i]] + "(MISSING)", i + 1)
  }

  /** fmt.Sprintf(format), with no operands: text outside directives is copied, each
      directive is written as ParseDirective says. */
  function FormatWithoutOperands(format: string): (r: string)
    decreases |format|
  {
    if |format| == 0 then ""
    else if format[0] != '%' then [format[0]] + FormatWithoutOperands(format[1..])
    else
      var d := ParseDirective(format);
      d.text + FormatWithoutOperands(format[d.next..])
  }

  /** Text without '%' is copied through unchanged. */
  lemma {:induction false} PlainFormatUnchanged(format: string)
    ensures '%' !in format ==> FormatWithoutOperands(format) == format
    decreases |format|
  {
    if |format| > 0 && '%' !in format {
      assert '%' !in format[1..] by {
        forall c | c in format[1..] ensures c != '%' {
          assert c in format;
        }
      }
      PlainFormatUnchanged(format[1..]);
      assert format == [format[0]] + format[1..];
    }
  }

  /** Text without '%' starts with something else, and its tail has no '%' either. */
  lemma NoPercentStep(a: string)
    requires '%' !in a && |a| > 0
    ensures a[0] != '%' && '%' !in a[1..]
  {
    assert a[0] in a;
    assert a == [a[0]] + a[1..];
  }

  /** Text without '%' in front of a format is copied before the rest is formatted. */
  lemma {:induction false} PlainPrefixCopied(a: string, b: string)
    requires '%' !in a
    ensures FormatWithoutOperands(a + b) == a + FormatWithoutOperands(b)
    decreases |a|
  {
    if |a| == 0 {
      assert a + b == b;
    } else {
      var t := a + b;
      NoPercentStep(a);
      assert t[0] == a[0] && t[1..] == a[1..] + b;
      PlainPrefixCopied(a[1..], b);
      calc {
        FormatWithoutOperands(t);
        [a[0]] + FormatWithoutOperands(a[1..] + b);
        [a[0]] + (a[1..] + FormatWithoutOperands(b));
        { ConcatAssoc([a[0]], a[1..], FormatWithoutOperands(b)); }
        [a[0]] + a[1..] + FormatWithoutOperands(b);
        { assert [a[0]] + a[1..] == a; }
        a + FormatWithoutOperands(b);
      }
    }
  }

  /** A message that mentions a percentage is altered by Wrap: a lone '%' at the
      end becomes "%!(NOVERB)". */
  lemma TrailingPercent()
    ensures FormatWithoutOperands("100%") == "100" + "%!(NOVERB)"
  {
    assert SkipFlags("%", 1) == 1 && SkipDigits("%", 1) == 1;
    assert ParseDirective("%") == Directive("%!(NOVERB)", 1);
    assert FormatWithoutOperands("%") == "%!(NOVERB)" + FormatWithoutOperands("");
    assert FormatWithoutOperands("") == "";
    assert "%!(NOVERB)" + "" == "%!(NOVERB)";
    PlainPrefixCopied("100", "%");
    assert "100" + "%" == "100%";
  }

  /** "%%" becomes a single '%'. */
  lemma DoublePercent()
    ensures FormatWithoutOperands("50%%") == "50%"
  {
    assert SkipFlags("%%", 1) == 1 && SkipDigits("%%", 1) == 1;
    assert ParseDirective("%%") == Directive("%", 2);
    assert FormatWithoutOperands("%%") == "%" + FormatWithoutOperands("%%"[2..]);
    assert "%%"[2..] == "";
    PlainPrefixCopied("50", "%%");
    assert "50" + "%%" == "50%%";
  }

  /** A verb finds no operand. */
  lemma MissingOperand()
    ensures FormatWithoutOperands("%d") == "%!d(MISSING)"
  {
    assert SkipFlags("%d", 1) == 1 && SkipDigits("%d", 1) == 1;
    assert ParseDirective("%d") == Directive("%!d(MISSING)", 2);
    assert FormatWithoutOperands("%d") == "%!d(MISSING)" + FormatWithoutOperands("%d"[2..]);
    assert "%d"[2..] == "";
  }

  // ---------------------------------------------------------------------------
  // Methods of customError

  /** The " ( at <where>:<line> )" part of Error(). */
  function PositionText(e: Error): string
    requires e.Custom?
  {
    if e.line > 0 then
      " ( at " + (if e.funcName == UnknownFunctionLabel then e.file else e.funcName)
      + ":" + IntToString(e.line) + " )"
    else ""
  }

  /** The "\n    > cause by: ..." part of Error(). */
  function CauseText(e: Error): string
    requires e.Custom?
    decreases e, 0
  {
    if e.cause.Some? then "\n    > cause by: " + ErrorText(e.cause.value) else ""
  }

  /** Error(): the message, then the position, then the cause's own Error() text. */
  function ErrorText(e: Error): string
    decreases e, 1
  {
    match e
    case Plain(text) => text
    case Custom(_, _, _, _, _) => e.message + PositionText(e) + CauseText(e)
  }

  function Message(e: Error): string
    requires e.Custom?
  {
    e.message
  }

  /** Unwrap of a customError; an error from elsewhere has nothing to unwrap. */
  function Unwrap(e: Error): Option<Error> {
    if e.Custom? then e.cause else None
  }

  function Cause(e: Error): Option<Error>
    requires e.Custom?
  {
    e.cause
  }

  function File(e: Error): string requires e.Custom? { e.file }
  function Function(e: Error): string requires e.Custom? { e.funcName }
  function Line(e: Error): int requires e.Custom? { e.line }

  // ---------------------------------------------------------------------------
  // Properties

  /** `x` is `e` or reachable from `e` through causes. */
  predicate InChain(x: Error, e: Error)
    decreases e
  {
    x == e || (e.Custom? && e.cause.Some? && InChain(x, e.cause.value))
  }

  /** Error() starts with the message, shows a position exactly when the line is
      positive, and names the file only when the function is unknown. */
  lemma {:induction false} ErrorTextParts(e: Error)
    requires e.Custom?
    ensures e.message <= ErrorText(e)
    ensures (PositionText(e) == "") <==> e.line <= 0
    ensures e.line > 0 && e.funcName == UnknownFunctionLabel ==>
              Contains(ErrorText(e), " ( at " + e.file + ":")
    ensures e.line > 0 && e.funcName != UnknownFunctionLabel ==>
              Contains(ErrorText(e), " ( at " + e.funcName + ":")
  {
    var where := if e.funcName == UnknownFunctionLabel then e.file else e.funcName;
    if e.line > 0 {
      assert PositionText(e) == " ( at " + where + ":" + (IntToString(e.line) + " )");
      assert ErrorText(e) == e.message + (" ( at " + where + ":") + (IntToString(e.line) + " )" + CauseText(e));
      ContainsMiddle(e.message, " ( at " + where + ":", IntToString(e.line) + " )" + CauseText(e));
    }
  }

  /** The cause suffix is there exactly when there is a cause, and it then ends Error()
      with the cause's own text. */
  lemma CauseSuffix(e: Error)
    requires e.Custom?
    ensures e.cause.None? ==> ErrorText(e) == e.message + PositionText(e)
    ensures e.cause.Some? ==>
              ErrorText(e) == e.message + PositionText(e) + "\n    > cause by: " + ErrorText(e.cause.value)
  {
  }

  /** Every message along the cause chain appears in the outermost Error() text; this
      is what callers rely on when they search an error for a phrase. */
  lemma {:induction false} ChainMessagesAppear(e: Error, x: Error)
    requires InChain(x, e) && x.Custom?
    ensures Contains(ErrorText(e), x.message)
    decreases e
  {
    if x == e {
      assert x.message <= ErrorText(e);
      ContainsPrefix(ErrorText(e), x.message);
    } else {
      var c := e.cause.value;
      var front := e.message + PositionText(e) + "\n    > cause by: ";
      ChainMessagesAppear(c, x);
      assert ErrorText(e) == front + ErrorText(c);
      ContainsAfter(front, ErrorText(c), x.message);
    }
  }

  /** Unwrap and Cause agree, and undo Wrap. */
  lemma UnwrapUndoesWrap(e: Error, at: Position)
    ensures Unwrap(Wrap(e, at)) == Some(e)
    ensures Cause(Wrap(e, at)) == Unwrap(Wrap(e, at))
  {
  }
}
