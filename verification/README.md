# strinterp in Dafny

A model of the core of thejerf/strinterp, a Go library for streaming
string interpolation. Templates are byte strings made of literal text and
`%name[:params];` directives. A backslash escapes the byte after it in
both parts. The interpolator writes each literal run to an `io.Writer`.
For each directive it then does one of four things:

- it writes a literal `%` for `%%;`;
- it calls the named formatter on the next argument;
- it writes the placeholder `%name error: No arg;` when the arguments have
  run out;
- it stops with `ErrUnknownFormatter`.

It stops at the first error one of its own writes gets or a formatter
returns. A formatter is handed the writer and decides for itself what
to do with the errors its own writes get. The library
also has a WriterStack, which pushes encoders around a base writer and
closes them in reverse order. It also ships encoders: raw, Base64, and an
HTML CDATA escaper.

The Dafny modules follow the Go files:

| module | file | form |
|---|---|---|
| `Types` | types.go | datatypes and lemmas: the argument values, the `NotGiven` sentinel, the error taxonomy and its `Error()` texts |
| `GoRuntime` | (standard library) | the `bytes.Buffer` and `io.Writer` the core uses, as classes; `bytes.SplitN(.., 2)`, `strconv.FormatInt(.., 10)` and `io.Copy` as functions |
| `Parsing` | parsing.go | the escape-aware scanner as a method over a `ByteBuffer`, proved against the pure function `Scan`; `splitHonoringEscaping` and `parseEncoder` |
| `StrInterp` | strinterp.go | the `Interpolator` class. `InterpWriter` is a loop method proved against a specification in three layers: `Lex` cuts the template, `Plan` resolves the directives and consumes the arguments, and `Exec` runs the resulting actions against the writer |
| `StrEsc` | stresc.go | the second copy of the interpolator, its own class and loop, proved against the same specification |
| `WriterStacks` | writerstack.go | the `WriterStack` class with `Push` and `Finish` |
| `Examples` | examples.go | the raw, Base64 and CDATA encoders; the CDATA writer loop as a method, as written and corrected |
| `StrInterpTests` | strinterp_test.go | the cases of the Go tests, stated as lemmas |

A writer is a `Writer` object with two parts:

- `log`, every byte slice written to it, in order;
- `respond`, an oracle that gives the answer to write call number `k` with bytes `p`.

So a writer that refuses a write, a writer that fails only once, and
`bytes.Buffer`, which never fails, are all instances of the same class.
A program formatter is known by an identifier. What it does is a
parameter (`Behaviour`), given the call (`Invocation`: the formatter, the
argument, the params):

- `chunks`: the byte slices it writes, in order;
- `quits`: whether, after a write, it returns at once, decided on the
  answers it has heard so far;
- `verdict`: the error it returns, decided on those answers.

So a formatter may ignore a refused write, as the formatter of
`TestParameters` does, return that write's error, or return an error of
its own.

Where the comments and the code disagree, the model follows the code:

- A directive body is split at its first colon only after unescaping. So
  an escaped colon still separates the name from the params
  (`EscapedColonStillSplits`).
- `ErrIncompleteFormatString` has two texts. In strinterp.go and
  stresc.go it reads "incomplete format string (no semi-colon found)". In
  types.go it reads "incomplete format string, no semi-colon found". Each
  file's own text is modelled (`ErrorTextAgainstTypes`).

## Model

| member | source | states |
|---|---|---|
| Types.NotGivenIsNotNil | types.go:14-19 | `NotGiven` is a value of its own, different from nil |
| Types.AlreadyExistsMessage | types.go:65-68 | `ErrAlreadyExists(a).Error()` is "The format string " + a + " is already declared", and two such messages are equal exactly when the names are |
| Types.UnknownNameMessages | types.go:86-89 | the unknown-formatter and unknown-encoder messages are the fixed prefix followed by the name; each is injective in the name, and the two families never share a text |
| Types.UnknownArgumentsMessage | types.go:77-79 | the `ErrUnknownArguments` text starts with `The arguments "`, carries the arguments between the two quotes, and ends with the reason |
| Types.SentinelErrorsDistinct | types.go:49-58 | the three sentinel errors are distinct values with distinct texts |
| StrInterp.ErrorTextAgainstTypes | strinterp.go:126-154 | of the errors strinterp.go and types.go both declare (`ErrNotGiven`, `ErrIncompleteFormatString`, `ErrAlreadyExists`, `ErrUnknownFormatter`), only `ErrIncompleteFormatString` has a different `Error()` text; `ErrRawUnknownType` is declared by strinterp.go alone, and its text is that one |
| StrInterp.NewRegistry | strinterp.go:182-186 | a new interpolator has exactly one registered formatter, `RAW`, which is the raw formatter |
| StrInterp.AddedEntry | strinterp.go:196 | after an entry is set, looking up that name gives the handler, every other name looks up as before, and a non-nil handler counts as registered |
| StrInterp.Interpolator.constructor | strinterp.go:182-186 | `NewInterpolator`: the map holds `RAW` alone |
| StrInterp.Interpolator.AddFormat | strinterp.go:191-199 | a name whose entry is not nil is refused with `ErrAlreadyExists(name)`, leaving the map unchanged; otherwise the entry is set, nil is returned, and nothing else changes |
| StrInterp.Interpolator.RawFormat | strinterp.go:271-285 | raw writes a `[]byte` or a string in one call and returns its answer, copies a reader block by block, and returns `ErrRawUnknownType` for any other value without writing |
| StrInterp.RawVerbatim | strinterp.go:271-285 | the same facts about the specification of raw; a copy stops at the first refused block, and when every block is accepted all of them are written |
| StrInterp.Interpolator.CallFormatter | strinterp.go:257-260 | `formatter(w, thisArg, formatArgs)`: raw as `RawRun` says; a program formatter makes exactly the writes its behaviour decides on the answers and returns its verdict |
| StrInterp.RunFormatter | strinterp.go:257 | a program formatter at work on the writer: it writes its chunks in order, returns as soon as it decides to on the answers heard, and returns its verdict on them |
| StrInterp.FormatterReturns | strinterp.go:257-260 | any formatter call writes a prefix of its chunks, goes on after every write but its last, stops early only because it quit on the answers heard, and returns its verdict on all of them, whatever it makes of refused writes |
| StrInterp.PropagatingStops | strinterp.go:257-260 | a formatter that returns a refused write's error at once stops at its first refused write |
| StrInterp.NoArgSuffixText | strinterp.go:262 | the placeholder suffix is the 15 bytes of " error: No arg;" |
| StrInterp.Directive | strinterp.go:234-266 | a directive consumes one argument exactly when it calls a formatter, and that argument is the first one; it writes the placeholder only when no argument is left |
| StrInterp.PercentDirective | strinterp.go:241-246 | `%%;` and `%%:x;` write a single '%' and consume nothing |
| StrInterp.UnknownDirective | strinterp.go:248-251 | a name with no non-nil entry stops with `ErrUnknownFormatter(name)` and consumes nothing |
| StrInterp.FormatterDirective | strinterp.go:253-260 | a registered name with arguments left calls its formatter on the first argument with the params after the colon, and leaves the other arguments |
| StrInterp.NoArgDirective | strinterp.go:261-266 | a registered name with no argument left writes the placeholder, and the answer of that write is the result |
| StrInterp.SplitBody | strinterp.go:234-239 | splitting a body at its first colon gives back the name, and the params exactly when there was a colon (nil and empty params kept apart) |
| StrInterp.EscapedColonStillSplits | strinterp.go:229-239 | an escaped colon in a directive is unescaped by the scanner and then splits the name from the params anyway |
| StrInterp.Lex | strinterp.go:215-232 | a template always starts with a literal run, and a '%' is always followed by a directive piece |
| StrInterp.Iteration | strinterp.go:215-267 | one loop iteration first writes the literal up to the first unescaped '%'; the loop goes on only without error and on a strictly shorter template |
| StrInterp.LiteralAtEnd | strinterp.go:216-222 | the last literal run is written in one call, and that write's answer is the result, even when unused arguments remain |
| StrInterp.LiteralBeforeDirective | strinterp.go:224-227 | a literal run before '%' is written first, and the directive is read only when that write succeeded |
| StrInterp.DirectiveUnterminated | strinterp.go:229-232 | a '%' without an unescaped ';' after it stops with `ErrIncompleteFormatString` and writes nothing more |
| StrInterp.InterpStep | strinterp.go:215-268 | the loop function is one iteration followed, when that iteration succeeded, by the loop on what is left |
| StrInterp.InterpolationStep | strinterp.go:215-268 | the layered specification is the same iteration followed by the same rest |
| StrInterp.EarlyStop | strinterp.go:216-232 | at the end of the template, on a refused literal, or at an unterminated directive, the interpolation is exactly that iteration's writes and error |
| StrInterp.TerminatedRun | strinterp.go:224-267 | a literal run that was written, then a complete directive: the directive's writes follow, and the rest of the template is interpolated with the arguments left, but only if the directive succeeded |
| StrInterp.DirectiveStep | strinterp.go:229-267 | a complete directive is performed, and the rest of the template follows only if it succeeded |
| StrInterp.InterpEqualsInterpolation | strinterp.go:213-269 | the loop-shaped and the layered descriptions of `InterpWriter` agree on every template, argument list, formatter behaviour and writer |
| StrInterp.LoopStep | strinterp.go:215-268 | one turn of the loop moves one iteration's writes from the outstanding interpolation to the log; when the loop stops, the log and the error are final |
| StrInterp.Interpolator.InterpWriter | strinterp.go:213-269 | `InterpWriter` appends to the writer exactly the writes of the loop specification and returns its error |
| StrInterp.Interpolator.Iterate | strinterp.go:215-267 | one pass of the loop body makes the writes of `Iteration`, returns its error, and leaves the buffer and the arguments where the next iteration starts |
| StrInterp.Interpolator.RunDirective | strinterp.go:234-266 | the directive branch makes exactly the writes of the action `Directive` decides and leaves the arguments it leaves |
| StrInterp.Interpolator.InterpStr | strinterp.go:203-210 | `InterpStr` returns the concatenation of the interpolation's writes to a buffer that never fails, or "" with the error |
| StrInterp.EscapedLiteral | strinterp.go:216-222 | a template that is only escaped text is written unescaped, in one call |
| StrInterp.PlainTemplate | strinterp.go:216-222 | a template with no '%' and no backslash is written unchanged, in one call |
| StrInterp.IncompleteDirective | strinterp.go:224-232 | literal, '%', then a body with no ';': the literal is written, and the result is that write's error or else `ErrIncompleteFormatString` |
| StrInterp.DirectiveAhead | strinterp.go:224-267 | literal, '%', body, ';', rest: the literal is written; if that succeeded, the directive decided on the unescaped body is performed; if that succeeded too, the rest follows with the arguments left |
| StrInterp.PlanArgsInOrder | strinterp.go:253-265 | the formatters receive the arguments in order, each at most once; a placeholder appears only once the arguments have run out |
| StrInterp.ArgumentsInOrder | strinterp.go:253-265 | the same for every template |
| StrInterp.PerformStops | strinterp.go:241-266 | the interpolator's own writes (a literal run, '%', the placeholder, raw) stop at the first refused write with its error; a program formatter's call does so when the formatter propagates write errors |
| StrInterp.ExecStops | strinterp.go:224-266 | a run of actions stops at the first refused write, with that write's error, when it calls no program formatter or every formatter propagates write errors |
| StrInterp.PlanBuiltIn | strinterp.go:248-257 | with only built-in formatters registered, no directive calls a program formatter |
| StrInterp.WriterErrorsStop | strinterp.go:213-269 | an interpolation stops at the first refused write, with its error, when only built-in formatters are registered or the program formatters propagate write errors |
| StrEsc.Interpolator.constructor | stresc.go:92-96 | `NewInterpolator`: the map holds `RAW` alone, and only `RAW` is registered |
| StrEsc.Interpolator.AddFormat | stresc.go:99-107 | refused with `ErrAlreadyExists(format)` when the entry is not nil; otherwise the entry is set; other names look up as before |
| StrEsc.Interpolator.RawFormat | stresc.go:179-193 | raw in stresc.go behaves as the raw specification |
| StrEsc.Interpolator.InterpWriter | stresc.go:121-177 | the loop of stresc.go appends exactly the writes of the layered specification and returns its error, so both packages interpolate every template identically |
| StrEsc.Interpolator.Turn | stresc.go:124-175 | one pass of the loop body of stresc.go makes the writes of `Iteration` and returns its error |
| StrEsc.Interpolator.Dispatch | stresc.go:142-174 | the directive branch of stresc.go performs the action `Directive` decides and leaves the arguments it leaves |
| StrEsc.Interpolator.InterpStr | stresc.go:111-118 | the concatenated writes to a buffer that never fails, or "" with the error |
| Parsing.ReadBytesUntilUnescDelim | parsing.go:24-45 | the loop returns the scanned bytes, leaves the buffer at what the scan leaves, and returns nil exactly when an unescaped delimiter was found, else `io.EOF` |
| Parsing.ScanEscapedPrefix | parsing.go:33-43 | scanning escaped text followed by anything gives back the original text, then scans the rest |
| Parsing.ScanEscaped | parsing.go:24-45 | escaping then scanning is the identity: an escaped text followed by the delimiter scans back to the text, with the tail left in the buffer |
| Parsing.ScanEscapedToEnd | parsing.go:29-37 | escaped text at the end of the input, even with one backslash after it, scans to the text with `io.EOF`; the lone backslash is dropped |
| Parsing.ScanStep | parsing.go:27-44 | each loop branch: a backslash takes the next byte literally, or drops itself at the end; the delimiter ends the scan; any other byte is kept |
| Parsing.EscapePlain | parsing.go:33-43 | text with no backslash and no delimiter needs no escaping |
| Parsing.ScanPlain | parsing.go:24-45 | plain text is read up to the delimiter, or to the end with `io.EOF` |
| Parsing.SplitHonoringEscaping | parsing.go:48-62 | the method returns the pieces `Split` gives and drains the buffer |
| Parsing.Split | parsing.go:48-62 | the split always has at least one piece, because the final `io.EOF` read is kept |
| Parsing.ScanCount | parsing.go:24-45 | a scan that finds the delimiter consumes exactly one unescaped delimiter |
| Parsing.SplitCount | parsing.go:48-62 | the number of pieces is one more than the number of unescaped delimiters |
| Parsing.SplitJoin | parsing.go:48-62 | splitting escaped pieces joined by the delimiter gives back the pieces |
| Parsing.ParseEncoder | parsing.go:64-77 | the name is everything before the first colon; the result fails with `ErrUnknownEncoder(name)` exactly when the name has no non-nil encoder; otherwise it gives that encoder, with params exactly when there was a colon |
| GoRuntime.Writer.Write | strinterp.go:224 | a write appends its bytes to the log and returns the oracle's answer for that call |
| GoRuntime.ByteBuffer.ReadByte | parsing.go:28 | `bytes.Buffer.ReadByte`: the first unread byte, or `io.EOF` on an empty buffer |
| GoRuntime.SplitFirstSpec | strinterp.go:234-239 | `bytes.SplitN(s, ":", 2)`: the head has no colon; there is a tail exactly when s had a colon, and head, colon and tail rebuild s |
| GoRuntime.WriteAllIssuesPrefix | strinterp.go:280 | writing blocks in order issues a prefix of them, and every write before the last was accepted |
| GoRuntime.WriteAllError | strinterp.go:280 | the copy succeeds exactly when every block was written and accepted; otherwise its error is the answer of the last write |
| GoRuntime.WriteAllAccepted | strinterp.go:280 | when every write is accepted, all blocks are written without error |
| GoRuntime.WriteEach | strinterp.go:280 | the copy loop appends exactly the writes of `WriteAll` and returns its error |
| GoRuntime.Decimal | examples.go:142 | `strconv.FormatInt(v, 10)` is a non-empty run of digits with no leading zero |
| GoRuntime.DecimalRoundTrip | examples.go:142 | reading the digits back gives v |
| WriterStacks.WriterStack.constructor | writerstack.go:23-25 | `NewWriterStack`: the base writer on top and no components |
| WriterStacks.WriterStack.Push | writerstack.go:31-42 | the encoder's writer becomes the top even when it fails; it joins the components only when the encoder succeeded; the base is never added unless an encoder hands it back |
| WriterStacks.WriterStack.Finish | writerstack.go:47-60 | `Finish` makes exactly the Close calls of `Unwind` over the components and returns its error |
| WriterStacks.UnwindInReverse | writerstack.go:47-60 | the Close calls are a prefix of the closers in reverse push order; every call but the last returned nil; the error is the last call's answer; without an error every closer was closed |
| WriterStacks.NilNeverClosed | writerstack.go:52-53 | a nil component fails the `io.Closer` assertion, so `Finish` never closes it |
| WriterStacks.ClosesOnlyComponents | writerstack.go:37-46 | only components that are `io.Closer`s are closed, so a base writer that was never pushed is never closed |
| WriterStacks.Closers | writerstack.go:52-53 | the closers are components that answer the `io.Closer` assertion |
| WriterStacks.Reverse | writerstack.go:51 | reversal keeps the length and reads the sequence back to front |
| WriterStacks.CloseLog.Close | writerstack.go:54 | a Close call is recorded and returns that writer's answer |
| Examples.RawIgnoresParams | examples.go:33-37 | the raw encoder never fails and ignores its params |
| Examples.PassthroughWrite | examples.go:34-36 | a write to the raw encoder's writer is the same write to the inner writer, with its answer |
| Examples.Base64Arguments | examples.go:48-64 | Base64 accepts exactly nil, "std" and "url"; only "url" selects the URL alphabet; any other params, the empty ones included, are refused with `ErrUnknownArguments` carrying them |
| Examples.CDATAArguments | examples.go:93-101 | CDATA escapes CR and LF exactly when the params are nil, leaves them alone exactly for "nocrlf", and refuses anything else with `ErrUnknownArguments` |
| Examples.EntityDecodes | examples.go:142 | a numeric entity is "&#", then the decimal digits of the byte, then ";", and the digits read back to the byte |
| Examples.EscapedIsSafe | examples.go:106-144 | the escaped output contains no '<', no '>', and no control byte outside entities, except CR and LF when nocrlf was asked for |
| Examples.CRLFImages | examples.go:108-109 | CR and LF become "&#13;" and "&#10;" by default and stay as they are with nocrlf |
| Examples.PiecesImage | examples.go:103-157 | the writes the CDATA loop plans concatenate to the escaped input |
| Examples.CDATAImage | examples.go:103-157 | on an inner writer that never fails, the CDATA writer reports the whole input length, no error, and writes exactly the escaped input |
| Examples.CheckedStopsAtFirstError | examples.go:146-148 | the corrected writer makes the writes of the planned pieces in order, stops at the first refused one with its error, and reports the whole length on success |
| Examples.AllAcceptedAgree | examples.go:103-157 | when the inner writer accepts every write, the code as written and the corrected code behave identically |
| Examples.AsWrittenErrors | examples.go:103-157 | as written, the writer writes a prefix of its pieces; only a refused entity ends the call, with n = 0 and that write's error; a refused run write is followed by the next piece's write; otherwise every piece is written, n = total, and the error is the final run's answer, or nil |
| Examples.WriteCDATAAsWritten | examples.go:103-157 | the loop as written appends the writes of the as-written specification and returns its count and error; the error of a run write is overwritten by the entity write after it |
| Examples.WriteCDATA | examples.go:103-157 | the corrected loop appends the writes of the corrected specification and returns its count and error |
| Examples.WriteEntity | examples.go:116-144 | an entity is written in one call, with the call's answer |
| Examples.LostRunError | examples.go:110-118 | on input "a<" with an inner writer that refuses only its first write, the code as written reports success and length 2, while the corrected code returns the error |
| StrInterpTests.PlainX | strinterp_test.go:24 | "x" gives "x"; on the writer of `TestWriterErrors`, which refuses every non-empty write, it returns `io.EOF` (strinterp_test.go:93-96) |
| StrInterpTests.PercentEscapeX | strinterp_test.go:25 | "x%%;y" writes "x", "%" and "y", giving "x%y" |
| StrInterpTests.RawArguments | strinterp_test.go:26-28 | "x%RAW;" on the string, the bytes or a reader of "y" gives "xy" |
| StrInterpTests.MissingSemicolon | strinterp_test.go:30 | "x%RAW" returns `ErrIncompleteFormatString` |
| StrInterpTests.RawUnknownType | strinterp_test.go:31 | "x%RAW;" on 0 returns `ErrRawUnknownType` |
| StrInterpTests.NoArgument | strinterp_test.go:32 | "x%RAW;" with no argument gives "x%RAW error: No arg;" |
| StrInterpTests.UnknownName | strinterp_test.go:33 | "x%blargh;" returns `ErrUnknownFormatter("blargh")` |
| StrInterpTests.AddTwice | strinterp_test.go:56-78 | adding "cdata" twice is refused the second time with `ErrAlreadyExists("cdata")` |
| StrInterpTests.EOFOnLiteral | strinterp_test.go:98-101 | "x%RAW;" on a writer that refuses non-empty writes stops at "x" with `io.EOF` |
| StrInterpTests.EOFOnPlaceholder | strinterp_test.go:103-106 | "%RAW;" on that writer: the empty literal is accepted, and the placeholder is refused with `io.EOF` |
| StrInterpTests.EOFOnPercent | strinterp_test.go:108-111 | "%%;" on that writer: the empty literal is accepted, and the '%' is refused with `io.EOF` |
| StrInterpTests.ParametersCall | strinterp_test.go:117-121 | the formatter of `TestParameters`, given "moo" and "hi!", writes "hi!" and "moo" and returns nil, whatever the writer answers |
| StrInterpTests.IgnoredRefusals | strinterp_test.go:117-123 | "%p:hi!;" on "moo", on the writer that refuses every non-empty write: the formatter ignores both refusals, the empty tail is written, and the result is nil |
| StrInterpTests.CDATAPropagates | strinterp_test.go:56-69 | the "cdata" formatter of `TestOtherInterpolators`, which returns its one write's error, propagates write errors |
| StrInterpTests.Parameters | strinterp_test.go:114-126 | "%p:hi!;" on "moo", with a formatter that writes its params and then its argument, gives "hi!moo" |
| StrInterpTests.ScannerCases | strinterp_test.go:143-150 | the five scanner cases of the test table; for `abc\` the table lists a nil error, which the test does not check, and the scanner returns `io.EOF` |

## Left out

- The Go library's formatter functions are not executed. A program
  formatter is modelled by its `Behaviour`. It writes only to the writer
  it is given. The bytes it writes are fixed by the call and do not depend
  on the answers of its earlier writes. It always returns: a panic, such
  as the one `arg.(string)` raises on a non-string, is not modelled.
- StrInterp.WriterErrorsStop: the stop at the first refused write is
  promised only when every program formatter propagates write errors, or
  none is registered. Go leaves that choice to the formatter.
  `StrInterpTests.IgnoredRefusals` shows a formatter that ignores them.
- JSON, `html.EscapeString` in the tests, and the byte transforms of
  base64 are not modelled. Base64 is modelled only as its params check and
  the alphabet it selects.
- `io.Copy` is modelled as the blocks a reader yields, written in order.
  The buffering and the short-write checks of the Go standard library
  are left out.
- Byte counts returned by inner writes are not modelled: the core
  discards them. The CDATA writer's own count is modelled.
- The RuneWriter family and the `encodeHTMLAttribute`/`encodeHTMLCDATA`
  drafts in strinterp.go are not part of this model: the interpolator
  does not use them.
- Concurrency is not modelled. The Go types are not safe for concurrent
  use, and the model has one caller.
- The three copies of `readBytesUntilUnescDelim` (strinterp.go:300,
  stresc.go:208, parsing.go:24) are the same code. They are modelled once,
  as `Parsing.ReadBytesUntilUnescDelim`, and both interpolators call it.
- The `Encoder` map that `parseEncoder` reads is a parameter. Registering
  encoders is not part of the core.
- WriterStack writers are known by reference. What an encoder builds,
  and how a writer answers `Close`, are parameters.
- Go's dynamic typing of formatter arguments is closed over the types the
  core tells apart: nil, `NotGiven`, `[]byte`, string, `io.Reader`, other.

## Findings

| source | as written | input that shows it | evidently intended | confidence | as-written member | corrected member |
|---|---|---|---|---|---|---|
| examples.go:110-118, examples.go:146-148 | The write of the plain run before a replaced byte stores its error in `err`. The entity write that follows overwrites it, and only the entity write's error is checked. | Input "a<", with the default CRLF setting, on an inner writer that refuses its first write. The run "a" is refused, "&lt;" is accepted, and the writer returns n = 2 with a nil error. | The first write the inner writer refuses ends the call with that write's error. | not executed | Examples.WriteCDATAAsWritten, Examples.LostRunError | Examples.WriteCDATA, Examples.CheckedStopsAtFirstError |
