/**
 * strinterp.go: the interpolator. A template is read as alternating
 * literal runs and %name[:params]; directives; each directive writes a
 * literal '%', calls the named formatter on the next argument, writes a
 * placeholder when the arguments have run out, or stops with an error.
 *
 * The behaviour of InterpWriter is specified in three layers:
 * Lex cuts the template into pieces (the two scanner calls of the loop),
 * Plan decides what each piece does (lookup and argument consumption), and
 * Exec runs the resulting actions against a writer whose answers come from
 * an oracle, stopping at the first error.
 */
module StrInterp {
  import opened Types
  import opened GoRuntime
  import opened Parsing

  /** "RAW", the one formatter every new interpolator has. */
  const RAW: Bytes := [82, 65, 87]

  /**
   * The Error() texts of the errors strinterp.go declares. They are those
   * of types.go except for ErrIncompleteFormatString, which this file
   * words differently.
   */
  function ErrorText(e: Error): (t: Bytes)
    requires e.ErrNotGiven? || e.ErrIncompleteFormatString? || e.ErrRawUnknownType? || e.ErrAlreadyExists? || e.ErrUnknownFormatter?
  {
    match e
    case ErrNotGiven => Ascii("value not given")
    case ErrIncompleteFormatString => Ascii("incomplete format string (no semi-colon found)")
    case ErrRawUnknownType => Ascii("type is unknown to the raw encoder")
    case ErrAlreadyExists(format) => AlreadyExistsPrefix + format + AlreadyExistsSuffix
    case ErrUnknownFormatter(formatter) => UnknownFormatterPrefix + formatter
  }

  /**
   * Of the errors strinterp.go and types.go both declare (ErrNotGiven,
   * ErrIncompleteFormatString, ErrAlreadyExists, ErrUnknownFormatter), only
   * ErrIncompleteFormatString is worded differently. ErrRawUnknownType is
   * declared in strinterp.go alone, and its text is that one.
   */
  lemma ErrorTextAgainstTypes(e: Error)
    requires e.ErrNotGiven? || e.ErrIncompleteFormatString? || e.ErrRawUnknownType? || e.ErrAlreadyExists? || e.ErrUnknownFormatter?
    ensures ErrorText(e) == Message(e) <==> !e.ErrIncompleteFormatString?
  {
    if e.ErrIncompleteFormatString? {
      assert |ErrorText(e)| == 46 && |Message(e)| == 45;
    }
  }

  /**
   * An entry of the formatter map: nil, the built-in raw, or a function
   * supplied by the program, known by an identifier.
   */
  datatype Formatter = NilFormatter | Raw | Custom(id: nat)

  /** One call of a program formatter: which one, the argument and the params. */
  datatype Invocation = Invocation(id: nat, arg: Value, params: Option<Bytes>)

  /**
   * What the program's formatter functions do, reduced to what the
   * interpolator observes. A Go formatter is handed the io.Writer and
   * decides for itself what to do with the answers its writes get. Here a
   * call writes the byte slices of chunks in order; after each write it
   * looks at the answers heard so far and either goes on or returns
   * (quits); what it returns is its verdict on the answers it has heard.
   */
  datatype Behaviour = Behaviour(
    chunks: Invocation -> seq<Bytes>,
    quits: (Invocation, seq<Option<Error>>) -> bool,
    verdict: (Invocation, seq<Option<Error>>) -> Option<Error>)

  /**
   * A formatter call that still has chunks to write, from write call number
   * k on, having heard the answers heard so far.
   */
  function Calls(behave: Behaviour, inv: Invocation, chunks: seq<Bytes>, heard: seq<Option<Error>>, respond: Oracle, k: nat): Run
    decreases |chunks|
  {
    if |chunks| == 0 then Run([], behave.verdict(inv, heard))
    else
      var now := heard + [Answer(respond, k, chunks[0])];
      if behave.quits(inv, now) then Run([chunks[0]], behave.verdict(inv, now))
      else Prepend([chunks[0]], Calls(behave, inv, chunks[1..], now, respond, k + 1))
  }

  /** The answers the writes ws get, the first one being write call number k. */
  function Answers(ws: seq<Bytes>, respond: Oracle, k: nat): (r: seq<Option<Error>>)
    ensures |r| == |ws| && forall j :: 0 <= j < |ws| ==> r[j] == Answer(respond, k + j, ws[j])
  {
    seq(|ws|, j requires 0 <= j < |ws| => Answer(respond, k + j, ws[j]))
  }

  /**
   * What a formatter call that heard the answers heard before writing any
   * of chunks did, when r is what it wrote and returned: it wrote a prefix
   * of its chunks; it went on after every write but its last one; it
   * stopped early only because it decided to quit on the answers heard;
   * and what it returns is its verdict on all the answers it heard.
   */
  ghost predicate Returned(behave: Behaviour, inv: Invocation, chunks: seq<Bytes>, heard: seq<Option<Error>>, r: Run, respond: Oracle, k: nat)
  {
    && r.writes <= chunks
    && r.err == behave.verdict(inv, heard + Answers(r.writes, respond, k))
    && (forall j :: 0 < j < |r.writes| ==> !behave.quits(inv, heard + Answers(r.writes[..j], respond, k)))
    && (|r.writes| < |chunks| ==> |r.writes| > 0 && behave.quits(inv, heard + Answers(r.writes, respond, k)))
  }

  /** What any formatter call does, whatever it makes of refused writes. */
  lemma {:induction false} FormatterReturns(behave: Behaviour, inv: Invocation, chunks: seq<Bytes>, heard: seq<Option<Error>>, respond: Oracle, k: nat)
    ensures Returned(behave, inv, chunks, heard, Calls(behave, inv, chunks, heard, respond, k), respond, k)
    decreases |chunks|
  {
    if |chunks| == 0 {
      assert heard + Answers([], respond, k) == heard;
    } else {
      var c := chunks[0];
      var now := heard + [Answer(respond, k, c)];
      if behave.quits(inv, now) {
        assert Answers([c], respond, k) == [Answer(respond, k, c)];
        assert heard + Answers([c], respond, k) == now;
      } else {
        FormatterReturns(behave, inv, chunks[1..], now, respond, k + 1);
        ReturnedCons(behave, inv, c, chunks[1..], heard, now, Calls(behave, inv, chunks[1..], now, respond, k + 1), respond, k);
        assert chunks == [c] + chunks[1..];
      }
    }
  }

  /** A write the formatter went on after, in front of the rest of its call. */
  lemma ReturnedCons(behave: Behaviour, inv: Invocation, c: Bytes, cs: seq<Bytes>, heard: seq<Option<Error>>, now: seq<Option<Error>>, t: Run, respond: Oracle, k: nat)
    requires now == heard + [Answer(respond, k, c)] && !behave.quits(inv, now)
    requires Returned(behave, inv, cs, now, t, respond, k + 1)
    ensures Returned(behave, inv, [c] + cs, heard, Prepend([c], t), respond, k)
  {
    var ws := [c] + t.writes;
    HeardCons(heard, now, c, t.writes, respond, k);
    forall j | 0 < j < |ws|
      ensures !behave.quits(inv, heard + Answers(ws[..j], respond, k))
    {
      QuitsShift(behave, inv, c, t.writes, heard, now, respond, k, j);
    }
  }

  /** The answers heard after writes [c] + ws are those heard after c followed by those of ws. */
  lemma HeardCons(heard: seq<Option<Error>>, now: seq<Option<Error>>, c: Bytes, ws: seq<Bytes>, respond: Oracle, k: nat)
    requires now == heard + [Answer(respond, k, c)]
    ensures heard + Answers([c] + ws, respond, k) == now + Answers(ws, respond, k + 1)
  {
    AnswersCons(c, ws, respond, k);
  }

  /** A formatter that did not quit after c nor after the first j - 1 later writes did not quit after j writes. */
  lemma QuitsShift(behave: Behaviour, inv: Invocation, c: Bytes, ws: seq<Bytes>, heard: seq<Option<Error>>, now: seq<Option<Error>>, respond: Oracle, k: nat, j: nat)
    requires now == heard + [Answer(respond, k, c)] && !behave.quits(inv, now)
    requires 0 < j <= |ws| + 1
    requires j > 1 ==> !behave.quits(inv, now + Answers(ws[..j - 1], respond, k + 1))
    ensures !behave.quits(inv, heard + Answers(([c] + ws)[..j], respond, k))
  {
    var p := ws[..j - 1];
    assert ([c] + ws)[..j] == [c] + p;
    HeardCons(heard, now, c, p, respond, k);
    if j == 1 {
      assert now + Answers(p, respond, k + 1) == now;
    }
  }

  /** The answers of one more write in front. */
  lemma AnswersCons(c: Bytes, ws: seq<Bytes>, respond: Oracle, k: nat)
    ensures Answers([c] + ws, respond, k) == [Answer(respond, k, c)] + Answers(ws, respond, k + 1)
  {
  }

  /**
   * A formatter that returns as soon as one of its writes is refused,
   * with that write's error, as the formatters of the Go tests that check
   * the write's error do.
   */
  ghost predicate Propagates(behave: Behaviour)
  {
    forall inv: Invocation, heard: seq<Option<Error>> ::
      |heard| > 0 && heard[|heard| - 1].Some? ==>
        behave.quits(inv, heard) && behave.verdict(inv, heard) == heard[|heard| - 1]
  }

  /** i.interpolators[name]: a missing name reads as nil, as in Go. */
  function Lookup(m: map<Bytes, Formatter>, name: Bytes): (f: Formatter)
    ensures name !in m ==> f.NilFormatter?
    ensures name in m ==> f == m[name]
  {
    if name in m then m[name] else NilFormatter
  }

  /** A new interpolator knows exactly one name, RAW. */
  lemma NewRegistry(name: Bytes)
    ensures Registered(map[RAW := Raw], name) <==> name == RAW
    ensures Lookup(map[RAW := Raw], RAW) == Raw
  {
  }

  /**
   * After a successful AddFormat the name looks up to the new handler and
   * every other name to what it did before; a second AddFormat of the same
   * name with a non-nil handler is refused.
   */
  lemma AddedEntry(m: map<Bytes, Formatter>, name: Bytes, handler: Formatter, other: Bytes)
    ensures Lookup(m[name := handler], name) == handler
    ensures other != name ==> Lookup(m[name := handler], other) == Lookup(m, other)
    ensures !handler.NilFormatter? ==> Registered(m[name := handler], name)
  {
  }

  /** A name is usable when its entry is not nil. */
  predicate Registered(m: map<Bytes, Formatter>, name: Bytes)
  {
    !Lookup(m, name).NilFormatter?
  }

  /** The pieces a template is cut into by the two scanners of the loop. */
  datatype Piece =
    | Lit(text: Bytes)   // the unescaped bytes up to the next unescaped '%' or the end
    | Dir(body: Bytes)   // the unescaped bytes between that '%' and the next unescaped ';'
    | Unterminated       // a '%' with no unescaped ';' after it

  /** The pieces of a template, starting with a literal run. */
  function Lex(s: Bytes): (ps: seq<Piece>)
    ensures |ps| >= 1 && ps[0].Lit?
    decreases |s|, 1
  {
    var lit := Scan(s, PERCENT);
    if lit.found then [Lit(lit.bytes)] + LexDirective(lit.rest) else [Lit(lit.bytes)]
  }

  /** The pieces of what follows a '%'. */
  function LexDirective(s: Bytes): (ps: seq<Piece>)
    ensures |ps| >= 1 && !ps[0].Lit?
    decreases |s|, 0
  {
    var d := Scan(s, SEMICOLON);
    if d.found then [Dir(d.bytes)] + Lex(d.rest) else [Unterminated]
  }

  /** What a piece makes the interpolator do. */
  datatype Action =
    | Emit(bytes: Bytes)                                         // one Write of these bytes
    | Placeholder(name: Bytes)                                   // the Write of the "No arg" text
    | Call(f: Formatter, arg: Value, params: Option<Bytes>)      // one formatter call
    | Stop(err: Error)                                           // return err without writing

  /** The action of a directive and the arguments left after it. */
  datatype Decision = Decision(action: Action, left: seq<Value>)

  /** " error: No arg;", the text that follows the name in the placeholder. */
  const NoArgSuffix: Bytes := [32, 101, 114, 114, 111, 114, 58, 32, 78, 111, 32, 97, 114, 103, 59]

  lemma NoArgSuffixText()
    ensures NoArgSuffix == Ascii(" error: No arg;")
  {
  }

  /** The bytes written for a directive whose arguments have run out: "%" + name + " error: No arg;". */
  function NoArgText(name: Bytes): (t: Bytes)
    ensures |t| == |name| + 16 && t[0] == PERCENT && t[1..|name| + 1] == name && t[|name| + 1..] == NoArgSuffix
  {
    [PERCENT] + name + NoArgSuffix
  }

  /**
   * What a directive does, and the arguments left after it. The name is
   * what precedes the first colon of the unescaped body, the params what
   * follows it (nil without a colon). The name "%" writes a '%'; an
   * unregistered name stops with ErrUnknownFormatter(name); a registered
   * one is called on the next argument or, when none is left, the
   * placeholder is written. Only a call consumes an argument.
   */
  function Directive(body: Bytes, m: map<Bytes, Formatter>, args: seq<Value>): (r: Decision)
    ensures r.action.Call? ==> args != [] && r.action.arg == args[0] && r.left == args[1..]
    ensures !r.action.Call? ==> r.left == args
    ensures r.action.Placeholder? ==> args == []
  {
    var halves := SplitFirst(body, COLON);
    var name, params := halves.head, halves.tail;
    if |name| == 1 && name[0] == PERCENT then Decision(Emit([PERCENT]), args)
    else if !Registered(m, name) then Decision(Stop(ErrUnknownFormatter(name)), args)
    else if |args| > 0 then Decision(Call(Lookup(m, name), args[0], params), args[1..])
    else Decision(Placeholder(name), args)
  }

  /**
   * The actions of a sequence of pieces: a literal is written, a directive
   * does what Directive says, and an unterminated directive stops with
   * ErrIncompleteFormatString. Nothing is planned after a stop.
   */
  function Plan(ps: seq<Piece>, m: map<Bytes, Formatter>, args: seq<Value>): (acts: seq<Action>)
    ensures |acts| <= |ps|
    decreases |ps|
  {
    if |ps| == 0 then []
    else match ps[0]
      case Lit(text) => [Emit(text)] + Plan(ps[1..], m, args)
      case Unterminated => [Stop(ErrIncompleteFormatString)]
      case Dir(body) =>
        var dec := Directive(body, m, args);
        if dec.action.Stop? then [dec.action] else [dec.action] + Plan(ps[1..], m, dec.left)
  }

  /**
   * raw (strinterp.go): a []byte or a string is written in one call, a
   * reader is copied block by block, anything else is ErrRawUnknownType.
   */
  function RawRun(x: Value, respond: Oracle, k: nat): Run
  {
    match x
    case ByteSlice(b) => WriteAll([b], respond, k)
    case Text(t) => WriteAll([t], respond, k)
    case Reader(blocks) => WriteAll(blocks, respond, k)
    case _ => Run([], Some(ErrRawUnknownType))
  }

  /**
   * raw writes a []byte or a string verbatim in a single call, copies a
   * reader block by block until a write is refused, and rejects any other
   * value with ErrRawUnknownType without writing.
   */
  lemma RawVerbatim(x: Value, respond: Oracle, k: nat)
    ensures x.ByteSlice? ==> RawRun(x, respond, k) == Run([x.bytes], Answer(respond, k, x.bytes))
    ensures x.Text? ==> RawRun(x, respond, k) == Run([x.text], Answer(respond, k, x.text))
    ensures x.Reader? ==> StopsAtRefusal(RawRun(x, respond, k), respond, k)
    ensures x.Reader? && AllAccepted(x.blocks, respond, k) ==> RawRun(x, respond, k) == Run(x.blocks, None)
    ensures !(x.ByteSlice? || x.Text? || x.Reader?) ==> RawRun(x, respond, k) == Run([], Some(ErrRawUnknownType))
  {
    match x
    case ByteSlice(b) => WriteOne(b, respond, k);
    case Text(t) => WriteOne(t, respond, k);
    case Reader(blocks) =>
      WriteAllStops(blocks, respond, k);
      if AllAccepted(blocks, respond, k) {
        WriteAllAccepted(blocks, respond, k);
      }
    case _ =>
  }

  /** Calling a formatter from write call number k on. */
  function Apply(f: Formatter, arg: Value, params: Option<Bytes>, behave: Behaviour, respond: Oracle, k: nat): Run
  {
    match f
    case NilFormatter => Run([], None) // never planned: a nil entry counts as unregistered
    case Raw => RawRun(arg, respond, k)
    case Custom(id) =>
      var inv := Invocation(id, arg, params);
      Calls(behave, inv, behave.chunks(inv), [], respond, k)
  }

  /** Performing one action from write call number k on. */
  function Perform(a: Action, behave: Behaviour, respond: Oracle, k: nat): Run
  {
    match a
    case Emit(b) => Run([b], Answer(respond, k, b))
    case Placeholder(name) => Run([NoArgText(name)], Answer(respond, k, NoArgText(name)))
    case Call(f, arg, params) => Apply(f, arg, params, behave, respond, k)
    case Stop(e) => Run([], Some(e))
  }

  /** Performing the actions in order, stopping at the first one that ends in an error. */
  function Exec(acts: seq<Action>, behave: Behaviour, respond: Oracle, k: nat): Run
    decreases |acts|
  {
    if |acts| == 0 then Run([], None)
    else
      var r := Perform(acts[0], behave, respond, k);
      if r.err.Some? then r else Prepend(r.writes, Exec(acts[1..], behave, respond, k + |r.writes|))
  }

  /** What InterpWriter writes and returns, its first write being call number k on the writer. */
  function Interpolation(t: Bytes, m: map<Bytes, Formatter>, args: seq<Value>, behave: Behaviour, respond: Oracle, k: nat): Run
  {
    Exec(Plan(Lex(t), m, args), behave, respond, k)
  }

  // ---------------------------------------------------------------------
  // Steps of the loop, as the specification sees them

  /** Exec performs the first action and goes on only when it ended without error. */
  lemma ExecCons(a: Action, acts: seq<Action>, behave: Behaviour, respond: Oracle, k: nat)
    ensures var r := Perform(a, behave, respond, k);
      Exec([a] + acts, behave, respond, k) == if r.err.Some? then r else Prepend(r.writes, Exec(acts, behave, respond, k + |r.writes|))
  {
    assert ([a] + acts)[1..] == acts;
  }

  lemma PlanLit(text: Bytes, ps: seq<Piece>, m: map<Bytes, Formatter>, args: seq<Value>)
    ensures Plan([Lit(text)] + ps, m, args) == [Emit(text)] + Plan(ps, m, args)
  {
    assert ([Lit(text)] + ps)[1..] == ps;
  }

  lemma PlanDir(body: Bytes, ps: seq<Piece>, m: map<Bytes, Formatter>, args: seq<Value>)
    ensures var dec := Directive(body, m, args);
      Plan([Dir(body)] + ps, m, args) == if dec.action.Stop? then [dec.action] else [dec.action] + Plan(ps, m, dec.left)
  {
    assert ([Dir(body)] + ps)[1..] == ps;
  }

  /** The last literal run: written, and its write's answer is the result. */
  lemma LiteralAtEnd(s: Bytes, m: map<Bytes, Formatter>, args: seq<Value>, behave: Behaviour, respond: Oracle, k: nat)
    requires !Scan(s, PERCENT).found
    ensures var u := Scan(s, PERCENT).bytes;
      Exec(Plan(Lex(s), m, args), behave, respond, k) == Run([u], Answer(respond, k, u))
  {
    var u := Scan(s, PERCENT).bytes;
    assert Lex(s) == [Lit(u)] + [];
    PlanLit(u, [], m, args);
    ExecCons(Emit(u), [], behave, respond, k);
  }

  /** A literal run before a '%': written, and the directive follows only if the write succeeded. */
  lemma LiteralBeforeDirective(s: Bytes, m: map<Bytes, Formatter>, args: seq<Value>, behave: Behaviour, respond: Oracle, k: nat)
    requires Scan(s, PERCENT).found
    ensures var lit := Scan(s, PERCENT); var e := Answer(respond, k, lit.bytes);
      Exec(Plan(Lex(s), m, args), behave, respond, k) ==
        Prepend([lit.bytes], if e.Some? then Run([], e) else Exec(Plan(LexDirective(lit.rest), m, args), behave, respond, k + 1))
  {
    var lit := Scan(s, PERCENT);
    PlanLit(lit.bytes, LexDirective(lit.rest), m, args);
    ExecCons(Emit(lit.bytes), Plan(LexDirective(lit.rest), m, args), behave, respond, k);
    assert [lit.bytes] + [] == [lit.bytes];
  }

  /** A '%' without an unescaped ';' after it stops with ErrIncompleteFormatString. */
  lemma DirectiveUnterminated(s: Bytes, m: map<Bytes, Formatter>, args: seq<Value>, behave: Behaviour, respond: Oracle, k: nat)
    requires !Scan(s, SEMICOLON).found
    ensures Exec(Plan(LexDirective(s), m, args), behave, respond, k) == Run([], Some(ErrIncompleteFormatString))
  {
    assert LexDirective(s) == [Unterminated];
  }

  lemma DirectiveTerminated(s: Bytes, m: map<Bytes, Formatter>, args: seq<Value>, behave: Behaviour, respond: Oracle, k: nat)
    requires Scan(s, SEMICOLON).found
    ensures var d := Scan(s, SEMICOLON);
      Exec(Plan(LexDirective(s), m, args), behave, respond, k) == Exec(Plan([Dir(d.bytes)] + Lex(d.rest), m, args), behave, respond, k)
  {
  }

  /** What one iteration of the InterpWriter loop does, and where the loop goes on from. */
  datatype Step = Step(run: Run, more: bool, unread: Bytes, args: seq<Value>)

  /**
   * One iteration of the loop from write call number k on: the literal run
   * up to '%' is written and, when that write succeeded and a '%' was
   * found, the directive up to ';' is read and performed. The loop goes on
   * only when everything succeeded, with what is left of the template and
   * of the arguments.
   */
  function Iteration(s: Bytes, m: map<Bytes, Formatter>, args: seq<Value>, behave: Behaviour, respond: Oracle, k: nat): (st: Step)
    ensures st.more ==> |st.unread| < |s| && st.run.err.None?
    ensures |st.run.writes| >= 1 && st.run.writes[0] == Scan(s, PERCENT).bytes
  {
    var lit := Scan(s, PERCENT);
    var e := Answer(respond, k, lit.bytes);
    if !lit.found || e.Some? then Step(Run([lit.bytes], e), false, [], args)
    else
      var d := Scan(lit.rest, SEMICOLON);
      if !d.found then Step(Run([lit.bytes], Some(ErrIncompleteFormatString)), false, [], args)
      else
        var dec := Directive(d.bytes, m, args);
        var r := Perform(dec.action, behave, respond, k + 1);
        Step(Prepend([lit.bytes], r), r.err.None?, d.rest, dec.left)
  }

  /**
   * The same behaviour, one loop iteration per recursive step. InterpWriter
   * is proved against this function, and InterpEqualsInterpolation ties it
   * to the layered specification.
   */
  function Interp(s: Bytes, m: map<Bytes, Formatter>, args: seq<Value>, behave: Behaviour, respond: Oracle, k: nat): Run
    decreases |s|
  {
    var st := Iteration(s, m, args, behave, respond, k);
    if !st.more then st.run
    else Prepend(st.run.writes, Interp(st.unread, m, st.args, behave, respond, k + |st.run.writes|))
  }

  /**
   * One turn of the loop, seen from the writes already in the log: goal is
   * the log followed by the interpolation of what is left of the template,
   * and st is the turn taken from there.
   */
  lemma LoopStep(goal: Run, log: seq<Bytes>, s: Bytes, st: Step, m: map<Bytes, Formatter>, args: seq<Value>, behave: Behaviour, respond: Oracle)
    requires st == Iteration(s, m, args, behave, respond, |log|)
    requires goal == Prepend(log, Interp(s, m, args, behave, respond, |log|))
    ensures st.more ==> goal == Prepend(log + st.run.writes, Interp(st.unread, m, st.args, behave, respond, |log + st.run.writes|))
    ensures !st.more ==> goal == Run(log + st.run.writes, st.run.err)
  {
    var next := if st.more then Interp(st.unread, m, st.args, behave, respond, |log| + |st.run.writes|) else Run([], st.run.err);
    InterpStep(s, st, next, m, args, behave, respond, |log|);
    Advance(goal, log, Interp(s, m, args, behave, respond, |log|), st.run.writes, next);
  }

  /** Moving writes w from the front of what is left to the end of the log. */
  lemma Advance(goal: Run, log: seq<Bytes>, left: Run, w: seq<Bytes>, next: Run)
    requires goal == Prepend(log, left) && left == Prepend(w, next)
    ensures goal == Prepend(log + w, next)
    ensures next.writes == [] ==> goal == Run(log + w, next.err)
  {
    PrependPrepend(log, w, next);
  }

  /** Interp is one iteration followed, when the loop goes on, by the rest of the loop. */
  lemma InterpStep(s: Bytes, st: Step, next: Run, m: map<Bytes, Formatter>, args: seq<Value>, behave: Behaviour, respond: Oracle, k: nat)
    requires st == Iteration(s, m, args, behave, respond, k)
    requires next == if st.more then Interp(st.unread, m, st.args, behave, respond, k + |st.run.writes|) else Run([], st.run.err)
    ensures Interp(s, m, args, behave, respond, k) == Prepend(st.run.writes, next)
  {
    if !st.more {
      PrependPrepend(st.run.writes, [], next);
    }
  }

  /** A terminated directive: its action is performed, and the rest of the template follows only if it succeeded. */
  lemma DirectiveStep(s: Bytes, d: Scanned, dec: Decision, r: Run, x: Run, n: Run, m: map<Bytes, Formatter>, args: seq<Value>, behave: Behaviour, respond: Oracle, k: nat)
    requires d == Scan(s, SEMICOLON) && d.found
    requires dec == Directive(d.bytes, m, args) && r == Perform(dec.action, behave, respond, k)
    requires x == Exec(Plan(LexDirective(s), m, args), behave, respond, k)
    requires n == Interpolation(d.rest, m, dec.left, behave, respond, k + |r.writes|)
    ensures x == if r.err.Some? then r else Prepend(r.writes, n)
  {
    PlanDir(d.bytes, Lex(d.rest), m, args);
    var tail := if dec.action.Stop? then [] else Plan(Lex(d.rest), m, dec.left);
    ExecCons(dec.action, tail, behave, respond, k);
  }

  /** The layered specification, too, is one iteration followed, when the loop goes on, by the rest. */
  lemma InterpolationStep(s: Bytes, m: map<Bytes, Formatter>, args: seq<Value>, behave: Behaviour, respond: Oracle, k: nat)
    ensures var st := Iteration(s, m, args, behave, respond, k);
      Interpolation(s, m, args, behave, respond, k) ==
        Prepend(st.run.writes,
          if st.more then Interpolation(st.unread, m, st.args, behave, respond, k + |st.run.writes|) else Run([], st.run.err))
  {
    var lit := Scan(s, PERCENT);
    if lit.found && Answer(respond, k, lit.bytes).None? && Scan(lit.rest, SEMICOLON).found {
      TerminatedStep(s, m, args, behave, respond, k);
    } else {
      EarlyStop(s, m, args, behave, respond, k);
    }
  }

  /**
   * An iteration that stops before any directive is performed: at the end
   * of the template, on a failed literal write, or at a '%' with no ';'.
   */
  lemma EarlyStop(s: Bytes, m: map<Bytes, Formatter>, args: seq<Value>, behave: Behaviour, respond: Oracle, k: nat)
    requires var lit := Scan(s, PERCENT);
      !lit.found || Answer(respond, k, lit.bytes).Some? || !Scan(lit.rest, SEMICOLON).found
    ensures var st := Iteration(s, m, args, behave, respond, k);
      !st.more && Interpolation(s, m, args, behave, respond, k) == st.run
  {
    var lit := Scan(s, PERCENT);
    var e := Answer(respond, k, lit.bytes);
    if !lit.found {
      LiteralAtEnd(s, m, args, behave, respond, k);
    } else {
      LiteralBeforeDirective(s, m, args, behave, respond, k);
      if e.Some? {
        PrependPrepend([lit.bytes], [], Run([], e));
      } else {
        DirectiveUnterminated(lit.rest, m, args, behave, respond, k + 1);
        PrependPrepend([lit.bytes], [], Run([], Some(ErrIncompleteFormatString)));
      }
    }
  }

  /**
   * A literal run that was written, followed by a terminated directive: the
   * directive's action is performed, and the rest of the template follows
   * only if it succeeded.
   */
  lemma TerminatedRun(s: Bytes, lit: Scanned, d: Scanned, dec: Decision, r: Run, m: map<Bytes, Formatter>, args: seq<Value>, behave: Behaviour, respond: Oracle, k: nat)
    requires lit == Scan(s, PERCENT) && d == Scan(lit.rest, SEMICOLON)
    requires lit.found && d.found && Answer(respond, k, lit.bytes).None?
    requires dec == Directive(d.bytes, m, args) && r == Perform(dec.action, behave, respond, k + 1)
    ensures Interpolation(s, m, args, behave, respond, k) ==
      Prepend([lit.bytes] + r.writes,
        if r.err.None? then Interpolation(d.rest, m, dec.left, behave, respond, k + 1 + |r.writes|) else Run([], r.err))
  {
    var x := Exec(Plan(LexDirective(lit.rest), m, args), behave, respond, k + 1);
    var n := Interpolation(d.rest, m, dec.left, behave, respond, k + 1 + |r.writes|);
    LiteralThen(s, lit, x, m, args, behave, respond, k);
    DirectiveStep(lit.rest, d, dec, r, x, n, m, args, behave, respond, k + 1);
    Glue(Interpolation(s, m, args, behave, respond, k), lit.bytes, x, r, n);
  }

  /** A literal run before a '%' whose write succeeded, then the directive. */
  lemma LiteralThen(s: Bytes, lit: Scanned, x: Run, m: map<Bytes, Formatter>, args: seq<Value>, behave: Behaviour, respond: Oracle, k: nat)
    requires lit == Scan(s, PERCENT) && lit.found && Answer(respond, k, lit.bytes).None?
    requires x == Exec(Plan(LexDirective(lit.rest), m, args), behave, respond, k + 1)
    ensures Interpolation(s, m, args, behave, respond, k) == Prepend([lit.bytes], x)
  {
    LiteralBeforeDirective(s, m, args, behave, respond, k);
  }

  /** A literal write that succeeded, then a run that goes on with n only when r succeeded. */
  lemma Glue(whole: Run, w: Bytes, x: Run, r: Run, n: Run)
    requires whole == Prepend([w], x)
    requires x == if r.err.Some? then r else Prepend(r.writes, n)
    ensures whole == Prepend([w] + r.writes, if r.err.None? then n else Run([], r.err))
  {
    PrependPrepend(r.writes, [], Run([], r.err));
    PrependPrepend([w], r.writes, n);
  }

  /** A terminated directive after a written literal, in the shape of InterpolationStep. */
  lemma TerminatedStep(s: Bytes, m: map<Bytes, Formatter>, args: seq<Value>, behave: Behaviour, respond: Oracle, k: nat)
    requires Scan(s, PERCENT).found && Answer(respond, k, Scan(s, PERCENT).bytes).None?
    requires Scan(Scan(s, PERCENT).rest, SEMICOLON).found
    ensures var st := Iteration(s, m, args, behave, respond, k);
      Interpolation(s, m, args, behave, respond, k) ==
        Prepend(st.run.writes,
          if st.more then Interpolation(st.unread, m, st.args, behave, respond, k + |st.run.writes|) else Run([], st.run.err))
  {
    var lit := Scan(s, PERCENT);
    var d := Scan(lit.rest, SEMICOLON);
    var dec := Directive(d.bytes, m, args);
    var r := Perform(dec.action, behave, respond, k + 1);
    TerminatedRun(s, lit, d, dec, r, m, args, behave, respond, k);
    var st := Iteration(s, m, args, behave, respond, k);
    assert st == Step(Prepend([lit.bytes], r), r.err.None?, d.rest, dec.left);
    assert |st.run.writes| == 1 + |r.writes|;
  }

  /** The loop-shaped and the layered descriptions of InterpWriter agree on every template. */
  lemma {:induction false} InterpEqualsInterpolation(s: Bytes, m: map<Bytes, Formatter>, args: seq<Value>, behave: Behaviour, respond: Oracle, k: nat)
    ensures Interp(s, m, args, behave, respond, k) == Interpolation(s, m, args, behave, respond, k)
    decreases |s|
  {
    var st := Iteration(s, m, args, behave, respond, k);
    InterpStep(s, st, if st.more then Interp(st.unread, m, st.args, behave, respond, k + |st.run.writes|) else Run([], st.run.err),
      m, args, behave, respond, k);
    InterpolationStep(s, m, args, behave, respond, k);
    if st.more {
      InterpEqualsInterpolation(st.unread, m, st.args, behave, respond, k + |st.run.writes|);
    }
  }

  // ---------------------------------------------------------------------
  // What the interpolation does with a template, piece by piece

  /**
   * A template made only of escaped literal text is written, unescaped, in
   * one call, and the answer of that write is the result.
   */
  lemma EscapedLiteral(a: Bytes, m: map<Bytes, Formatter>, args: seq<Value>, behave: Behaviour, respond: Oracle, k: nat)
    ensures Interpolation(Escape(a, PERCENT), m, args, behave, respond, k) == Run([a], Answer(respond, k, a))
  {
    ScanEscapedToEnd(a, PERCENT, false);
    assert Escape(a, PERCENT) + [] == Escape(a, PERCENT);
    LiteralAtEnd(Escape(a, PERCENT), m, args, behave, respond, k);
  }

  /** A template with no '%' and no backslash is written unchanged, in one call. */
  lemma PlainTemplate(t: Bytes, m: map<Bytes, Formatter>, args: seq<Value>, behave: Behaviour, respond: Oracle, k: nat)
    requires PERCENT !in t && BACKSLASH !in t
    ensures Interpolation(t, m, args, behave, respond, k) == Run([t], Answer(respond, k, t))
  {
    EscapePlain(t, PERCENT);
    EscapedLiteral(t, m, args, behave, respond, k);
  }

  /**
   * A '%' whose directive never ends: the literal before it is written, and
   * then, if that write succeeded, ErrIncompleteFormatString is returned.
   */
  lemma IncompleteDirective(a: Bytes, body: Bytes, m: map<Bytes, Formatter>, args: seq<Value>, behave: Behaviour, respond: Oracle, k: nat)
    ensures var e := Answer(respond, k, a);
      Interpolation(Escape(a, PERCENT) + [PERCENT] + Escape(body, SEMICOLON), m, args, behave, respond, k)
        == Run([a], if e.Some? then e else Some(ErrIncompleteFormatString))
  {
    var t := Escape(a, PERCENT) + [PERCENT] + Escape(body, SEMICOLON);
    IncompleteScans(a, body);
    IncompleteFromScans(t, a, Escape(body, SEMICOLON), m, args, behave, respond, k);
  }

  lemma IncompleteScans(a: Bytes, body: Bytes)
    ensures Scan(Escape(a, PERCENT) + [PERCENT] + Escape(body, SEMICOLON), PERCENT) == Scanned(a, true, Escape(body, SEMICOLON))
    ensures !Scan(Escape(body, SEMICOLON), SEMICOLON).found
  {
    ScanEscaped(a, PERCENT, Escape(body, SEMICOLON));
    ScanEscapedToEnd(body, SEMICOLON, false);
    assert Escape(body, SEMICOLON) + [] == Escape(body, SEMICOLON);
  }

  lemma IncompleteFromScans(t: Bytes, a: Bytes, tail: Bytes, m: map<Bytes, Formatter>, args: seq<Value>, behave: Behaviour, respond: Oracle, k: nat)
    requires Scan(t, PERCENT) == Scanned(a, true, tail) && !Scan(tail, SEMICOLON).found
    ensures var e := Answer(respond, k, a);
      Interpolation(t, m, args, behave, respond, k) == Run([a], if e.Some? then e else Some(ErrIncompleteFormatString))
  {
    var e := Answer(respond, k, a);
    LiteralBeforeDirective(t, m, args, behave, respond, k);
    if e.None? {
      DirectiveUnterminated(tail, m, args, behave, respond, k + 1);
    }
    PrependPrepend([a], [], Run([], if e.Some? then e else Some(ErrIncompleteFormatString)));
  }

  /**
   * A literal followed by a complete directive: the literal is written; if
   * that succeeded, the directive is decided on its unescaped body and
   * performed, and the rest of the template follows only if that succeeded
   * too, with the arguments the directive left.
   */
  lemma DirectiveAhead(a: Bytes, body: Bytes, rest: Bytes, m: map<Bytes, Formatter>, args: seq<Value>, behave: Behaviour, respond: Oracle, k: nat)
    ensures var e := Answer(respond, k, a);
      var dec := Directive(body, m, args);
      var r := Perform(dec.action, behave, respond, k + 1);
      Interpolation(Escape(a, PERCENT) + [PERCENT] + Escape(body, SEMICOLON) + [SEMICOLON] + rest, m, args, behave, respond, k)
        == if e.Some? then Run([a], e)
           else Prepend([a] + r.writes, if r.err.None? then Interpolation(rest, m, dec.left, behave, respond, k + 1 + |r.writes|) else Run([], r.err))
  {
    var t := Escape(a, PERCENT) + [PERCENT] + Escape(body, SEMICOLON) + [SEMICOLON] + rest;
    DirectiveScans(a, body, rest);
    AheadFromScans(t, a, Escape(body, SEMICOLON) + [SEMICOLON] + rest, body, rest, m, args, behave, respond, k);
  }

  lemma DirectiveScans(a: Bytes, body: Bytes, rest: Bytes)
    ensures var tail := Escape(body, SEMICOLON) + [SEMICOLON] + rest;
      && Scan(Escape(a, PERCENT) + [PERCENT] + Escape(body, SEMICOLON) + [SEMICOLON] + rest, PERCENT) == Scanned(a, true, tail)
      && Scan(tail, SEMICOLON) == Scanned(body, true, rest)
  {
    var tail := Escape(body, SEMICOLON) + [SEMICOLON] + rest;
    assert Escape(a, PERCENT) + [PERCENT] + Escape(body, SEMICOLON) + [SEMICOLON] + rest == Escape(a, PERCENT) + [PERCENT] + tail;
    ScanEscaped(a, PERCENT, tail);
    ScanEscaped(body, SEMICOLON, rest);
  }

  lemma AheadFromScans(t: Bytes, a: Bytes, tail: Bytes, body: Bytes, rest: Bytes, m: map<Bytes, Formatter>, args: seq<Value>, behave: Behaviour, respond: Oracle, k: nat)
    requires Scan(t, PERCENT) == Scanned(a, true, tail) && Scan(tail, SEMICOLON) == Scanned(body, true, rest)
    ensures var e := Answer(respond, k, a);
      var dec := Directive(body, m, args);
      var r := Perform(dec.action, behave, respond, k + 1);
      Interpolation(t, m, args, behave, respond, k)
        == if e.Some? then Run([a], e)
           else Prepend([a] + r.writes, if r.err.None? then Interpolation(rest, m, dec.left, behave, respond, k + 1 + |r.writes|) else Run([], r.err))
  {
    var e := Answer(respond, k, a);
    if e.Some? {
      LiteralBeforeDirective(t, m, args, behave, respond, k);
      PrependPrepend([a], [], Run([], e));
    } else {
      TerminatedRun(t, Scan(t, PERCENT), Scan(tail, SEMICOLON), Directive(body, m, args),
        Perform(Directive(body, m, args).action, behave, respond, k + 1), m, args, behave, respond, k);
    }
  }

  /** A directive body as it reads once unescaped: the name, then a colon and the params when there are params. */
  function Body(name: Bytes, params: Option<Bytes>): Bytes
  {
    if params.Some? then name + [COLON] + params.value else name
  }

  /** Splitting a body at its first colon gives back the name and the params, nil and empty params kept apart. */
  lemma {:induction false} SplitBody(name: Bytes, params: Option<Bytes>)
    requires COLON !in name
    ensures SplitFirst(Body(name, params), COLON) == Halves(name, params)
    decreases |name|
  {
    if |name| > 0 {
      assert name[0] in name;
      assert forall x :: x in name[1..] ==> x in name;
      SplitBody(name[1..], params);
      BodyCons(name, params);
    } else if params.Some? {
      assert Body(name, params) == [COLON] + params.value;
      assert ([COLON] + params.value)[1..] == params.value;
    }
  }

  lemma BodyCons(name: Bytes, params: Option<Bytes>)
    requires |name| > 0
    ensures Body(name, params) == [name[0]] + Body(name[1..], params)
    ensures [name[0]] + name[1..] == name
  {
    assert [name[0]] + name[1..] == name;
    if params.Some? {
      assert name + [COLON] + params.value == [name[0]] + (name[1..] + [COLON] + params.value);
    }
  }

  /** "%%;" (the name "%", with or without params) writes one '%' and consumes no argument. */
  lemma PercentDirective(params: Option<Bytes>, m: map<Bytes, Formatter>, args: seq<Value>)
    ensures Directive(Body([PERCENT], params), m, args) == Decision(Emit([PERCENT]), args)
  {
    SplitBody([PERCENT], params);
  }

  /** A name that is not registered stops the interpolation with ErrUnknownFormatter(name). */
  lemma UnknownDirective(name: Bytes, params: Option<Bytes>, m: map<Bytes, Formatter>, args: seq<Value>)
    requires COLON !in name && name != [PERCENT] && !Registered(m, name)
    ensures Directive(Body(name, params), m, args) == Decision(Stop(ErrUnknownFormatter(name)), args)
  {
    SplitBody(name, params);
  }

  /** A registered name calls its formatter on the first remaining argument with the params, and consumes it. */
  lemma FormatterDirective(name: Bytes, params: Option<Bytes>, m: map<Bytes, Formatter>, args: seq<Value>)
    requires COLON !in name && name != [PERCENT] && Registered(m, name) && |args| > 0
    ensures Directive(Body(name, params), m, args) == Decision(Call(m[name], args[0], params), args[1..])
  {
    SplitBody(name, params);
  }

  /**
   * A registered name with no argument left writes "%" + name + " error: No
   * arg;" instead of calling the formatter.
   */
  lemma NoArgDirective(name: Bytes, params: Option<Bytes>, m: map<Bytes, Formatter>, behave: Behaviour, respond: Oracle, k: nat)
    requires COLON !in name && name != [PERCENT] && Registered(m, name)
    ensures Directive(Body(name, params), m, []) == Decision(Placeholder(name), [])
    ensures var p := [PERCENT] + name + NoArgSuffix;
      Perform(Placeholder(name), behave, respond, k) == Run([p], Answer(respond, k, p))
  {
    SplitBody(name, params);
  }

  /**
   * A colon escaped with a backslash in the template still splits the
   * directive: the scan removes the backslash before the split looks for
   * the colon, so "name\:params" reads exactly as "name:params".
   */
  lemma EscapedColonStillSplits(name: Bytes, params: Bytes, rest: Bytes)
    requires COLON !in name
    ensures var s := Escape(name, SEMICOLON) + [BACKSLASH, COLON] + Escape(params, SEMICOLON) + [SEMICOLON] + rest;
      var d := Scan(s, SEMICOLON);
      d == Scanned(Body(name, Some(params)), true, rest) && SplitFirst(d.bytes, COLON) == Halves(name, Some(params))
  {
    EscapedColonScan(name, params, rest);
    assert name + ([COLON] + params) == Body(name, Some(params));
    SplitBody(name, Some(params));
  }

  lemma EscapedColonScan(name: Bytes, params: Bytes, rest: Bytes)
    ensures Scan(Escape(name, SEMICOLON) + [BACKSLASH, COLON] + Escape(params, SEMICOLON) + [SEMICOLON] + rest, SEMICOLON)
      == Scanned(name + ([COLON] + params), true, rest)
  {
    var after := Escape(params, SEMICOLON) + [SEMICOLON] + rest;
    var x := [BACKSLASH, COLON] + after;
    assert Escape(name, SEMICOLON) + [BACKSLASH, COLON] + Escape(params, SEMICOLON) + [SEMICOLON] + rest == Escape(name, SEMICOLON) + x;
    ScanEscapedPrefix(name, SEMICOLON, x);
    ScanEscaped(params, SEMICOLON, rest);
    EscapedByteScan(COLON, after, SEMICOLON);
  }

  /** A backslash and the byte after it read as that byte, and the scan goes on. */
  lemma EscapedByteScan(b: byte, after: Bytes, delim: byte)
    ensures var r := Scan(after, delim);
      Scan([BACKSLASH, b] + after, delim) == Scanned([b] + r.bytes, r.found, r.rest)
  {
    assert ([BACKSLASH, b] + after)[2..] == after;
  }

  // ---------------------------------------------------------------------
  // Arguments, in order

  /** The arguments the formatter calls of an action list are made with, in order. */
  function CallArgs(acts: seq<Action>): (vs: seq<Value>)
    ensures |vs| <= |acts|
    decreases |acts|
  {
    if |acts| == 0 then []
    else (if acts[0].Call? then [acts[0].arg] else []) + CallArgs(acts[1..])
  }

  lemma CallArgsAppend(a: Action, acts: seq<Action>)
    ensures CallArgs([a] + acts) == (if a.Call? then [a.arg] else []) + CallArgs(acts)
  {
    assert ([a] + acts)[1..] == acts;
  }

  /**
   * Arguments are consumed strictly left to right: the formatters are
   * called with a prefix of the arguments, in order, and a placeholder is
   * only ever written once every argument has been handed out.
   */
  ghost predicate InOrder(acts: seq<Action>, args: seq<Value>)
  {
    && CallArgs(acts) <= args
    && (forall i :: 0 <= i < |acts| && acts[i].Placeholder? ==> CallArgs(acts[..i]) == args)
  }

  /** An action in front of actions that use the arguments it leaves. */
  lemma InOrderCons(a: Action, tail: seq<Action>, left: seq<Value>, args: seq<Value>)
    requires InOrder(tail, left)
    requires args == (if a.Call? then [a.arg] else []) + left
    requires a.Placeholder? ==> args == []
    ensures InOrder([a] + tail, args)
  {
    var acts := [a] + tail;
    var mine: seq<Value> := if a.Call? then [a.arg] else [];
    CallArgsAppend(a, tail);
    forall i | 0 <= i < |acts| && acts[i].Placeholder?
      ensures CallArgs(acts[..i]) == args
    {
      if i == 0 {
        assert acts[..0] == [];
      } else {
        assert acts[..i] == [a] + tail[..i - 1];
        CallArgsAppend(a, tail[..i - 1]);
        assert tail[i - 1] == acts[i];
      }
    }
  }

  /** Planning any pieces consumes the arguments in order. */
  lemma {:induction false} PlanArgsInOrder(ps: seq<Piece>, m: map<Bytes, Formatter>, args: seq<Value>)
    ensures InOrder(Plan(ps, m, args), args)
    decreases |ps|
  {
    var acts := Plan(ps, m, args);
    if |ps| == 0 || ps[0].Unterminated? {
      assert acts[..0] == [];
    } else if ps[0].Lit? {
      PlanArgsInOrder(ps[1..], m, args);
      InOrderCons(Emit(ps[0].text), Plan(ps[1..], m, args), args, args);
    } else {
      var dec := Directive(ps[0].body, m, args);
      if dec.action.Stop? {
        assert acts[..0] == [];
      } else {
        PlanArgsInOrder(ps[1..], m, dec.left);
        InOrderCons(dec.action, Plan(ps[1..], m, dec.left), dec.left, args);
      }
    }
  }

  /** The same property of a whole template. */
  lemma ArgumentsInOrder(t: Bytes, m: map<Bytes, Formatter>, args: seq<Value>)
    ensures InOrder(Plan(Lex(t), m, args), args)
  {
    PlanArgsInOrder(Lex(t), m, args);
  }

  // ---------------------------------------------------------------------
  // Writer errors

  /** A formatter that propagates write errors stops at its first refused write. */
  lemma {:induction false} PropagatingStops(behave: Behaviour, inv: Invocation, chunks: seq<Bytes>, heard: seq<Option<Error>>, respond: Oracle, k: nat)
    requires Propagates(behave)
    ensures StopsAtRefusal(Calls(behave, inv, chunks, heard, respond, k), respond, k)
    decreases |chunks|
  {
    if |chunks| > 0 {
      var c := chunks[0];
      var now := heard + [Answer(respond, k, c)];
      if Answer(respond, k, c).Some? {
        assert now[|now| - 1] == Answer(respond, k, c);
        assert behave.quits(inv, now) && behave.verdict(inv, now) == Answer(respond, k, c);
      } else if !behave.quits(inv, now) {
        PropagatingStops(behave, inv, chunks[1..], now, respond, k + 1);
        assert AllAccepted([c], respond, k);
        PrependStops([c], Calls(behave, inv, chunks[1..], now, respond, k + 1), respond, k);
      }
    }
  }

  /** A call of a formatter supplied by the program. */
  predicate CustomCall(a: Action)
  {
    a.Call? && a.f.Custom?
  }

  /** A map that holds only the built-in formatters, as a new interpolator does. */
  predicate BuiltInOnly(m: map<Bytes, Formatter>)
  {
    forall name :: name in m ==> !m[name].Custom?
  }

  /**
   * The interpolator's own writes (a literal, the '%', the placeholder and
   * raw) stop at the first refused write; so does a formatter call when
   * the formatter propagates write errors. Any other formatter call does
   * what FormatterReturns says.
   */
  lemma PerformStops(a: Action, behave: Behaviour, respond: Oracle, k: nat)
    ensures !CustomCall(a) ==> StopsAtRefusal(Perform(a, behave, respond, k), respond, k)
    ensures CustomCall(a) && Propagates(behave) ==> StopsAtRefusal(Perform(a, behave, respond, k), respond, k)
  {
    if a.Call? {
      match a.f
      case NilFormatter =>
      case Raw =>
        match a.arg {
          case ByteSlice(b) => WriteAllStops([b], respond, k);
          case Text(t) => WriteAllStops([t], respond, k);
          case Reader(blocks) => WriteAllStops(blocks, respond, k);
          case _ =>
        }
      case Custom(id) =>
        if Propagates(behave) {
          var inv := Invocation(id, a.arg, a.params);
          PropagatingStops(behave, inv, behave.chunks(inv), [], respond, k);
        }
    }
  }

  /**
   * Running actions stops at the first refused write, when every formatter
   * call among them propagates write errors or there is none.
   */
  lemma {:induction false} ExecStops(acts: seq<Action>, behave: Behaviour, respond: Oracle, k: nat)
    ensures (Propagates(behave) || forall i :: 0 <= i < |acts| ==> !CustomCall(acts[i])) ==>
      StopsAtRefusal(Exec(acts, behave, respond, k), respond, k)
    decreases |acts|
  {
    if |acts| > 0 && (Propagates(behave) || forall i :: 0 <= i < |acts| ==> !CustomCall(acts[i])) {
      var p := Perform(acts[0], behave, respond, k);
      var rest := Exec(acts[1..], behave, respond, k + |p.writes|);
      PerformStops(acts[0], behave, respond, k);
      if p.err.None? {
        assert forall i :: 0 <= i < |acts| - 1 ==> acts[1..][i] == acts[i + 1];
        ExecStops(acts[1..], behave, respond, k + |p.writes|);
      }
      StopsThen(p, rest, Exec(acts, behave, respond, k), respond, k);
    }
  }

  /** With only built-in formatters registered, no plan calls a program formatter. */
  lemma {:induction false} PlanBuiltIn(ps: seq<Piece>, m: map<Bytes, Formatter>, args: seq<Value>)
    requires BuiltInOnly(m)
    ensures forall i :: 0 <= i < |Plan(ps, m, args)| ==> !CustomCall(Plan(ps, m, args)[i])
    decreases |ps|
  {
    if |ps| > 0 {
      var acts := Plan(ps, m, args);
      match ps[0]
      case Lit(text) =>
        PlanBuiltIn(ps[1..], m, args);
        assert forall i :: 1 <= i < |acts| ==> acts[i] == Plan(ps[1..], m, args)[i - 1];
      case Unterminated =>
      case Dir(body) =>
        var dec := Directive(body, m, args);
        if !dec.action.Stop? {
          PlanBuiltIn(ps[1..], m, dec.left);
          assert forall i :: 1 <= i < |acts| ==> acts[i] == Plan(ps[1..], m, dec.left)[i - 1];
        }
    }
  }

  /**
   * A writer error is returned immediately: in what the interpolation of
   * any template writes, every write but the last was accepted, and a
   * refused last write is the error returned. This holds when the program
   * formatters propagate write errors, and always when only the built-in
   * formatters are registered; a formatter that ignores a refused write
   * makes the interpolation go on (StrInterpTests.IgnoredRefusals).
   */
  lemma WriterErrorsStop(t: Bytes, m: map<Bytes, Formatter>, args: seq<Value>, behave: Behaviour, respond: Oracle, k: nat)
    ensures Propagates(behave) || BuiltInOnly(m) ==> StopsAtRefusal(Interpolation(t, m, args, behave, respond, k), respond, k)
  {
    if BuiltInOnly(m) {
      PlanBuiltIn(Lex(t), m, args);
    }
    ExecStops(Plan(Lex(t), m, args), behave, respond, k);
  }

  /**
   * A program formatter at work on w: it writes its chunks in order and
   * returns as soon as it decides to, with its verdict on the answers.
   */
  method RunFormatter(w: Writer, behave: Behaviour, inv: Invocation) returns (err: Option<Error>)
    modifies w`log
    ensures var r := Calls(behave, inv, behave.chunks(inv), [], w.respond, |old(w.log)|);
      w.log == old(w.log) + r.writes && err == r.err
  {
    var chunks := behave.chunks(inv);
    ghost var goal := Prepend(w.log, Calls(behave, inv, chunks, [], w.respond, |w.log|));
    var heard: seq<Option<Error>> := [];
    var i := 0;
    while i < |chunks|
      invariant i <= |chunks|
      invariant goal == Prepend(w.log, Calls(behave, inv, chunks[i..], heard, w.respond, |w.log|))
      decreases |chunks| - i
    {
      ghost var log := w.log;
      var answer := w.Write(chunks[i]);
      CallsStep(goal, log, behave, inv, chunks, i, heard, w.respond);
      heard := heard + [answer];
      if behave.quits(inv, heard) {
        return behave.verdict(inv, heard);
      }
      i := i + 1;
    }
    PrependPrepend(w.log, [], Run([], behave.verdict(inv, heard)));
    return behave.verdict(inv, heard);
  }

  /** One write of a formatter call, moved from what is outstanding to the log. */
  lemma CallsStep(goal: Run, log: seq<Bytes>, behave: Behaviour, inv: Invocation, chunks: seq<Bytes>, i: nat, heard: seq<Option<Error>>, respond: Oracle)
    requires i < |chunks|
    requires goal == Prepend(log, Calls(behave, inv, chunks[i..], heard, respond, |log|))
    ensures var now := heard + [Answer(respond, |log|, chunks[i])];
      && (behave.quits(inv, now) ==> goal == Run(log + [chunks[i]], behave.verdict(inv, now)))
      && (!behave.quits(inv, now) ==> goal == Prepend(log + [chunks[i]], Calls(behave, inv, chunks[i + 1..], now, respond, |log + [chunks[i]]|)))
  {
    assert chunks[i..][1..] == chunks[i + 1..];
    var now := heard + [Answer(respond, |log|, chunks[i])];
    PrependPrepend(log, [chunks[i]], Calls(behave, inv, chunks[i + 1..], now, respond, |log| + 1));
  }

  // ---------------------------------------------------------------------
  // The interpolator object

  class Interpolator {
    var interpolators: map<Bytes, Formatter>

    /** NewInterpolator: only RAW is registered. */
    constructor ()
      ensures interpolators == map[RAW := Raw]
    {
      interpolators := map[RAW := Raw];
    }

    /**
     * AddFormat: a name whose entry is not nil is refused with
     * ErrAlreadyExists(name) and the map is left alone; otherwise exactly
     * that entry is set.
     */
    method AddFormat(format: Bytes, handler: Formatter) returns (err: Option<Error>)
      modifies this
      ensures Registered(old(interpolators), format) ==>
        err == Some(ErrAlreadyExists(format)) && interpolators == old(interpolators)
      ensures !Registered(old(interpolators), format) ==>
        err == None && interpolators == old(interpolators)[format := handler]
    {
      if !Lookup(interpolators, format).NilFormatter? {
        return Some(ErrAlreadyExists(format));
      }
      interpolators := interpolators[format := handler];
      return None;
    }

    /** raw (strinterp.go), the type switch on the argument. */
    static method RawFormat(w: Writer, x: Value) returns (err: Option<Error>)
      modifies w`log
      ensures var r := RawRun(x, w.respond, |old(w.log)|);
        w.log == old(w.log) + r.writes && err == r.err
    {
      match x
      case ByteSlice(b) =>
        err := WriteEach(w, [b]);
      case Text(t) =>
        err := WriteEach(w, [t]);
      case Reader(blocks) =>
        err := WriteEach(w, blocks); // io.Copy
      case _ =>
        err := Some(ErrRawUnknownType);
    }

    /** formatter(w, thisArg, formatArgs) */
    static method CallFormatter(w: Writer, f: Formatter, arg: Value, params: Option<Bytes>, behave: Behaviour) returns (err: Option<Error>)
      modifies w`log
      ensures var r := Apply(f, arg, params, behave, w.respond, |old(w.log)|);
        w.log == old(w.log) + r.writes && err == r.err
    {
      match f
      case NilFormatter =>
        err := None;
      case Raw =>
        err := RawFormat(w, arg);
      case Custom(id) =>
        err := RunFormatter(w, behave, Invocation(id, arg, params));
    }

    /**
     * InterpWriter: alternately scans a literal run up to an unescaped
     * '%' and a directive body up to an unescaped ';', writing and calling
     * formatters as it goes and returning the first error.
     */
    method InterpWriter(w: Writer, formatBytes: Bytes, args: seq<Value>, behave: Behaviour) returns (err: Option<Error>)
      modifies w`log
      ensures var r := Interp(formatBytes, interpolators, args, behave, w.respond, |old(w.log)|);
        w.log == old(w.log) + r.writes && err == r.err
    {
      ghost var goal := Prepend(w.log, Interp(formatBytes, interpolators, args, behave, w.respond, |w.log|));
      var buf := new ByteBuffer(formatBytes);
      var rest := args;
      while true
        invariant goal == Prepend(w.log, Interp(buf.unread, interpolators, rest, behave, w.respond, |w.log|))
        decreases |buf.unread|
      {
        LoopStep(goal, w.log, buf.unread, Iteration(buf.unread, interpolators, rest, behave, w.respond, |w.log|), interpolators, rest, behave, w.respond);
        var more;
        ghost var st;
        err, more, rest, st := Iterate(w, buf, rest, behave);
        if !more {
          return;
        }
      }
    }

    /** The body of the InterpWriter loop, reading the template from buf. */
    method Iterate(w: Writer, buf: ByteBuffer, args: seq<Value>, behave: Behaviour)
      returns (err: Option<Error>, more: bool, rest: seq<Value>, ghost st: Step)
      modifies w`log, buf
      ensures st == Iteration(old(buf.unread), interpolators, args, behave, w.respond, |old(w.log)|)
      ensures w.log == old(w.log) + st.run.writes && err == st.run.err && more == st.more
      ensures more ==> buf.unread == st.unread && rest == st.args
    {
      st := Iteration(buf.unread, interpolators, args, behave, w.respond, |w.log|);
      var untilDelim, e := ReadBytesUntilUnescDelim(buf, PERCENT);
      if e == Some(EOF) {
        // unused arguments are ignored
        err := w.Write(untilDelim);
        more, rest := false, args;
        return;
      }
      err := w.Write(untilDelim);
      if err.Some? {
        more, rest := false, args;
        return;
      }
      var rawFormat;
      rawFormat, e := ReadBytesUntilUnescDelim(buf, SEMICOLON);
      if e == Some(EOF) {
        err, more, rest := Some(ErrIncompleteFormatString), false, args;
        return;
      }
      ghost var log1 := w.log;
      err, rest := RunDirective(w, rawFormat, args, behave);
      AppendAssoc(old(w.log), [untilDelim], w.log[|log1|..]);
      more := err.None?;
    }

    /**
     * The directive branch of the InterpWriter loop: the '%' escape, the
     * formatter lookup, the argument consumption and the placeholder.
     */
    method RunDirective(w: Writer, rawFormat: Bytes, args: seq<Value>, behave: Behaviour) returns (err: Option<Error>, rest: seq<Value>)
      modifies w`log
      ensures var dec := Directive(rawFormat, interpolators, args);
        var r := Perform(dec.action, behave, w.respond, |old(w.log)|);
        w.log == old(w.log) + r.writes && err == r.err && rest == dec.left
    {
      rest := args;
      var formatChunks := SplitFirst(rawFormat, COLON);
      var format, formatArgs := formatChunks.head, formatChunks.tail;
      // implement the special % escaper
      if |format| == 1 && format[0] == PERCENT {
        err := w.Write([PERCENT]);
      } else {
        var formatter := Lookup(interpolators, format);
        if formatter.NilFormatter? {
          return Some(ErrUnknownFormatter(format)), rest;
        }
        if |rest| > 0 {
          var thisArg := rest[0];
          rest := rest[1..];
          err := CallFormatter(w, formatter, thisArg, formatArgs, behave);
        } else {
          err := w.Write(NoArgText(format));
        }
      }
    }

    /**
     * InterpStr: interpolates into a fresh bytes.Buffer, which accepts
     * every write; on error the result is the empty string.
     */
    method InterpStr(format: Bytes, args: seq<Value>, behave: Behaviour) returns (s: Bytes, err: Option<Error>)
      ensures var r := Interpolation(format, interpolators, args, behave, NeverFails(), 0);
        err == r.err && s == (if r.err.Some? then [] else Flatten(r.writes))
    {
      var buf := new Writer(NeverFails());
      InterpEqualsInterpolation(format, interpolators, args, behave, NeverFails(), 0);
      ghost var r := Interp(format, interpolators, args, behave, buf.respond, 0);
      err := InterpWriter(buf, format, args, behave);
      assert buf.log == [] + r.writes == r.writes;
      if err.Some? {
        return [], err;
      }
      return Flatten(buf.log), None;
    }
  }
}
