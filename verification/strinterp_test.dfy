/**
 * The cases of strinterp_test.go, stated about the model: the default
 * interpolator (only RAW registered) on a writer that accepts everything,
 * the same templates on a writer that always answers io.EOF, a formatter
 * that uses its params, the registry, and the scanner. Each case names its
 * texts as parameters pinned to their bytes by its requires.
 */
module StrInterpTests {
  import opened Types
  import opened GoRuntime
  import opened Parsing
  import opened StrInterp

  /** The registry of a new interpolator. */
  const Default: map<Bytes, Formatter> := map[RAW := Raw]

  /** WriterAlwaysEOF: an empty write succeeds, every other write is refused with io.EOF. */
  function AlwaysEOF(): (respond: Oracle)
    ensures forall k: nat, p: Bytes :: Answer(respond, k, p) == if |p| > 0 then Some(EOF) else None
  {
    (k: nat, p: Bytes) => if |p| > 0 then Some(EOF) else None
  }

  lemma Flatten3(a: Bytes, b: Bytes, c: Bytes)
    ensures Flatten([a, b, c]) == a + b + c
  {
    assert [c][1..] == [];
    assert Flatten([c]) == c + [] == c;
    assert [b, c][1..] == [c];
    assert Flatten([b, c]) == b + c;
    assert [a, b, c][1..] == [b, c];
    assert Flatten([a, b, c]) == a + (b + c);
  }

  /** "x" is written unchanged, and a refused write returns io.EOF. */
  lemma PlainX(t: Bytes, behave: Behaviour)
    requires t == [120]
    ensures Interpolation(t, Default, [], behave, NeverFails(), 0) == Run([t], None)
    ensures Interpolation(t, Default, [], behave, AlwaysEOF(), 0) == Run([t], Some(EOF))
  {
    PlainTemplate(t, Default, [], behave, NeverFails(), 0);
    PlainTemplate(t, Default, [], behave, AlwaysEOF(), 0);
  }

  /** "x%%;y" writes "x", "%" and "y", giving "x%y", and consumes no argument. */
  lemma PercentEscapeX(t: Bytes, x: Bytes, pct: Bytes, y: Bytes, behave: Behaviour)
    requires x == [120] && pct == [37] && y == [121] && t == [120, 37, 37, 59, 121]
    ensures var r := Interpolation(t, Default, [], behave, NeverFails(), 0);
      r == Run([x, pct, y], None) && Flatten(r.writes) == [120, 37, 121]
  {
    EscapePlain(x, PERCENT);
    EscapePlain(pct, SEMICOLON);
    assert t == x + [PERCENT] + pct + [SEMICOLON] + y;
    DirectiveAhead(x, pct, y, Default, [], behave, NeverFails(), 0);
    PercentDirective(None, Default, []);
    var r := Perform(Emit(pct), behave, NeverFails(), 1);
    assert r == Run([pct], None);
    PlainTemplate(y, Default, [], behave, NeverFails(), 2);
    assert Interpolation(t, Default, [], behave, NeverFails(), 0) == Prepend([x] + [pct], Run([y], None));
    Flatten3(x, pct, y);
  }

  /**
   * A template made of a plain literal and one directive at its end: the
   * literal is written, then the directive is performed, then the empty
   * tail is written.
   */
  lemma LiteralThenDirective(t: Bytes, a: Bytes, body: Bytes, m: map<Bytes, Formatter>, args: seq<Value>, behave: Behaviour, respond: Oracle)
    requires PERCENT !in a && BACKSLASH !in a && SEMICOLON !in body && BACKSLASH !in body
    requires t == a + [PERCENT] + body + [SEMICOLON]
    ensures var e := Answer(respond, 0, a);
      var dec := Directive(body, m, args);
      var r := Perform(dec.action, behave, respond, 1);
      Interpolation(t, m, args, behave, respond, 0)
        == if e.Some? then Run([a], e)
           else Prepend([a] + r.writes, if r.err.None? then Run([[]], Answer(respond, 1 + |r.writes|, [])) else Run([], r.err))
  {
    PlainIsEscaped(t, a, body);
    DirectiveAhead(a, body, [], m, args, behave, respond, 0);
    var dec := Directive(body, m, args);
    var r := Perform(dec.action, behave, respond, 1);
    PlainTemplate([], m, dec.left, behave, respond, 1 + |r.writes|);
  }

  lemma PlainIsEscaped(t: Bytes, a: Bytes, body: Bytes)
    requires PERCENT !in a && BACKSLASH !in a && SEMICOLON !in body && BACKSLASH !in body
    requires t == a + [PERCENT] + body + [SEMICOLON]
    ensures t == Escape(a, PERCENT) + [PERCENT] + Escape(body, SEMICOLON) + [SEMICOLON] + []
  {
    EscapePlain(a, PERCENT);
    EscapePlain(body, SEMICOLON);
  }

  /** "x%RAW;" on one argument: "x", then what raw does with the argument, then the empty tail. */
  lemma RawAfterX(t: Bytes, x: Bytes, v: Value, behave: Behaviour, respond: Oracle)
    requires x == [120] && t == [120, 37, 82, 65, 87, 59]
    requires Answer(respond, 0, x).None?
    ensures var r := RawRun(v, respond, 1);
      Interpolation(t, Default, [v], behave, respond, 0)
        == Prepend([x] + r.writes, if r.err.None? then Run([[]], Answer(respond, 1 + |r.writes|, [])) else Run([], r.err))
  {
    assert t == x + [PERCENT] + RAW + [SEMICOLON];
    LiteralThenDirective(t, x, RAW, Default, [v], behave, respond);
    FormatterDirective(RAW, None, Default, [v]);
  }

  /** "x%RAW;" on "y", on []byte("y") and on a reader holding "y" writes "x", "y" and "", giving "xy". */
  lemma RawArguments(t: Bytes, x: Bytes, y: Bytes, v: Value, behave: Behaviour)
    requires x == [120] && y == [121] && t == [120, 37, 82, 65, 87, 59]
    requires v == Text(y) || v == ByteSlice(y) || v == Reader([y])
    ensures var r := Interpolation(t, Default, [v], behave, NeverFails(), 0);
      r == Run([x, y, []], None) && Flatten(r.writes) == [120, 121]
  {
    var respond := NeverFails();
    RawAfterX(t, x, v, behave, respond);
    RawVerbatim(v, respond, 1);
    if v.Reader? {
      assert AllAccepted([y], respond, 1);
    }
    Flatten3(x, y, []);
  }

  /** "x%RAW;" on the number 0: raw refuses it with ErrRawUnknownType. */
  lemma RawUnknownType(t: Bytes, x: Bytes, behave: Behaviour)
    requires x == [120] && t == [120, 37, 82, 65, 87, 59]
    ensures Interpolation(t, Default, [Other(0)], behave, NeverFails(), 0) == Run([x], Some(ErrRawUnknownType))
  {
    RawAfterX(t, x, Other(0), behave, NeverFails());
    RawVerbatim(Other(0), NeverFails(), 1);
  }

  /** "x%RAW" has no ';': "x" is written and ErrIncompleteFormatString returned. */
  lemma MissingSemicolon(t: Bytes, x: Bytes, behave: Behaviour)
    requires x == [120] && t == [120, 37, 82, 65, 87]
    ensures Interpolation(t, Default, [Text([121])], behave, NeverFails(), 0) == Run([x], Some(ErrIncompleteFormatString))
  {
    EscapePlain(x, PERCENT);
    EscapePlain(RAW, SEMICOLON);
    assert t == Escape(x, PERCENT) + [PERCENT] + Escape(RAW, SEMICOLON);
    assert Answer(NeverFails(), 0, x).None?;
    IncompleteDirective(x, RAW, Default, [Text([121])], behave, NeverFails(), 0);
  }

  /** "x%RAW;" with no argument writes "x", then "%RAW" and " error: No arg;", then the empty tail. */
  lemma NoArgument(t: Bytes, x: Bytes, placeholder: Bytes, behave: Behaviour)
    requires x == [120] && t == [120, 37, 82, 65, 87, 59] && placeholder == [PERCENT] + RAW + NoArgSuffix
    ensures Interpolation(t, Default, [], behave, NeverFails(), 0) == Run([x, placeholder, []], None)
  {
    var respond := NeverFails();
    assert t == x + [PERCENT] + RAW + [SEMICOLON];
    LiteralThenDirective(t, x, RAW, Default, [], behave, respond);
    NoArgDirective(RAW, None, Default, behave, respond, 1);
  }

  /** "x%blargh;" names no formatter: "x" is written and ErrUnknownFormatter("blargh") returned. */
  lemma UnknownName(t: Bytes, x: Bytes, blargh: Bytes, behave: Behaviour)
    requires x == [120] && blargh == [98, 108, 97, 114, 103, 104]
    requires t == [120, 37, 98, 108, 97, 114, 103, 104, 59]
    ensures Interpolation(t, Default, [], behave, NeverFails(), 0) == Run([x], Some(ErrUnknownFormatter(blargh)))
  {
    assert t == x + [PERCENT] + blargh + [SEMICOLON];
    LiteralThenDirective(t, x, blargh, Default, [], behave, NeverFails());
    assert blargh !in Default;
    UnknownDirective(blargh, None, Default, []);
  }

  /** On WriterAlwaysEOF, "x%RAW;" on "x" stops at its first write, the literal "x", with io.EOF. */
  lemma EOFOnLiteral(x: Bytes, behave: Behaviour)
    requires x == [120]
    ensures Interpolation(x + [PERCENT] + RAW + [SEMICOLON], Default, [Text(x)], behave, AlwaysEOF(), 0) == Run([x], Some(EOF))
  {
    LiteralThenDirective(x + [PERCENT] + RAW + [SEMICOLON], x, RAW, Default, [Text(x)], behave, AlwaysEOF());
  }

  /**
   * On WriterAlwaysEOF, the empty literal of "%RAW;" is accepted and the
   * placeholder written for the missing argument is refused with io.EOF.
   */
  lemma EOFOnPlaceholder(t: Bytes, placeholder: Bytes, behave: Behaviour)
    requires t == [PERCENT] + RAW + [SEMICOLON] && placeholder == [PERCENT] + RAW + NoArgSuffix
    ensures Interpolation(t, Default, [], behave, AlwaysEOF(), 0) == Run([[], placeholder], Some(EOF))
  {
    assert t == [] + [PERCENT] + RAW + [SEMICOLON];
    LiteralThenDirective(t, [], RAW, Default, [], behave, AlwaysEOF());
    NoArgDirective(RAW, None, Default, behave, AlwaysEOF(), 1);
  }

  /** On WriterAlwaysEOF, the empty literal of "%%;" is accepted and the '%' is refused with io.EOF. */
  lemma EOFOnPercent(t: Bytes, behave: Behaviour)
    requires t == [PERCENT, PERCENT, SEMICOLON]
    ensures Interpolation(t, Default, [], behave, AlwaysEOF(), 0) == Run([[], [PERCENT]], Some(EOF))
  {
    assert t == [] + [PERCENT] + [PERCENT] + [SEMICOLON];
    LiteralThenDirective(t, [], [PERCENT], Default, [], behave, AlwaysEOF());
    PercentDirective(None, Default, []);
  }

  /**
   * The formatter of TestParameters: it writes its params, then its string
   * argument, ignoring what either write returns, and returns nil. (Any
   * argument but a string makes the Go formatter panic; the test gives it
   * a string.)
   */
  function ParamsThenArg(): Behaviour
  {
    Behaviour(
      (inv: Invocation) => [if inv.params.Some? then inv.params.value else [], if inv.arg.Text? then inv.arg.text else []],
      (inv: Invocation, heard: seq<Option<Error>>) => false,
      (inv: Invocation, heard: seq<Option<Error>>) => None)
  }

  /**
   * That formatter, registered as p and given "moo" and the params "hi!",
   * writes "hi!" and "moo" and returns nil, whatever the writer answers.
   */
  lemma ParametersCall(p: Bytes, hi: Bytes, moo: Bytes, m: map<Bytes, Formatter>, respond: Oracle)
    requires p == [112] && hi == [104, 105, 33] && moo == [109, 111, 111] && m == Default[p := Custom(0)]
    ensures Directive(Body(p, Some(hi)), m, [Text(moo)]) == Decision(Call(Custom(0), Text(moo), Some(hi)), [])
    ensures Perform(Call(Custom(0), Text(moo), Some(hi)), ParamsThenArg(), respond, 1) == Run([hi, moo], None)
  {
    FormatterDirective(p, Some(hi), m, [Text(moo)]);
    var inv := Invocation(0, Text(moo), Some(hi));
    var b := ParamsThenArg();
    assert b.chunks(inv) == [hi, moo];
    assert [hi, moo][1..] == [moo] && [moo][1..] == [];
    var h1 := [Answer(respond, 1, hi)];
    var h2 := h1 + [Answer(respond, 2, moo)];
    assert Calls(b, inv, [], h2, respond, 3) == Run([], None);
    assert Calls(b, inv, [moo], h1, respond, 2) == Run([moo], None);
    assert [] + [Answer(respond, 1, hi)] == h1;
    assert Calls(b, inv, [hi, moo], [], respond, 1) == Prepend([hi], Run([moo], None));
  }

  /**
   * The formatter "cdata" of TestOtherInterpolators: a []byte or a string
   * is written in one call, escaped, and that write's error is returned;
   * any other argument is refused with an error of its own, without
   * writing. It propagates write errors.
   */
  function WritesOnce(escape: Bytes -> Bytes, unknown: Error): Behaviour
  {
    Behaviour(
      (inv: Invocation) => if inv.arg.ByteSlice? then [escape(inv.arg.bytes)] else if inv.arg.Text? then [escape(inv.arg.text)] else [],
      (inv: Invocation, heard: seq<Option<Error>>) => true,
      (inv: Invocation, heard: seq<Option<Error>>) => if |heard| > 0 then heard[|heard| - 1] else Some(unknown))
  }

  lemma CDATAPropagates(escape: Bytes -> Bytes, unknown: Error)
    ensures Propagates(WritesOnce(escape, unknown))
    ensures forall inv: Invocation :: inv.arg.Text? ==> |WritesOnce(escape, unknown).chunks(inv)| == 1
  {
  }

  /** "%p:hi!;" on "moo", with that formatter registered as p, writes "", "hi!", "moo" and "", giving "hi!moo". */
  lemma Parameters(t: Bytes, p: Bytes, hi: Bytes, moo: Bytes, m: map<Bytes, Formatter>)
    requires p == [112] && hi == [104, 105, 33] && moo == [109, 111, 111]
    requires t == [37, 112, 58, 104, 105, 33, 59] && m == Default[p := Custom(0)]
    ensures var r := Interpolation(t, m, [Text(moo)], ParamsThenArg(), NeverFails(), 0);
      r == Run([[], hi, moo, []], None) && Flatten(r.writes) == [104, 105, 33, 109, 111, 111]
  {
    var body := Body(p, Some(hi));
    assert t == [] + [PERCENT] + body + [SEMICOLON];
    LiteralThenDirective(t, [], body, m, [Text(moo)], ParamsThenArg(), NeverFails());
    ParametersCall(p, hi, moo, m, NeverFails());
    assert Flatten([[], hi, moo, []]) == Flatten([hi, moo, []]);
    Flatten3(hi, moo, []);
  }

  /**
   * The same template on WriterAlwaysEOF: the formatter ignores the
   * refusals of "hi!" and "moo" and returns nil, so the interpolation goes
   * on, writes the empty tail, which is accepted, and returns nil.
   */
  lemma IgnoredRefusals(t: Bytes, p: Bytes, hi: Bytes, moo: Bytes, m: map<Bytes, Formatter>)
    requires p == [112] && hi == [104, 105, 33] && moo == [109, 111, 111]
    requires t == [37, 112, 58, 104, 105, 33, 59] && m == Default[p := Custom(0)]
    ensures var r := Interpolation(t, m, [Text(moo)], ParamsThenArg(), AlwaysEOF(), 0);
      r == Run([[], hi, moo, []], None) && Answer(AlwaysEOF(), 1, hi) == Some(EOF) && Answer(AlwaysEOF(), 2, moo) == Some(EOF)
  {
    var body := Body(p, Some(hi));
    assert t == [] + [PERCENT] + body + [SEMICOLON];
    LiteralThenDirective(t, [], body, m, [Text(moo)], ParamsThenArg(), AlwaysEOF());
    ParametersCall(p, hi, moo, m, AlwaysEOF());
  }

  /** Adding "cdata" succeeds once and is refused the second time with ErrAlreadyExists("cdata"). */
  method AddTwice() returns (first: Option<Error>, second: Option<Error>)
    ensures first == None && second == Some(ErrAlreadyExists([99, 100, 97, 116, 97]))
  {
    var i := new Interpolator();
    first := i.AddFormat([99, 100, 97, 116, 97], Custom(0));
    second := i.AddFormat([99, 100, 97, 116, 97], Custom(1));
  }

  /** The cases of TestReadBytesUntilUnesc. */
  lemma ScannerCases()
    ensures Scan([97, 98, 99], 99) == Scanned([97, 98], true, [])             // "abc" up to 'c'
    ensures Scan([97, 98, 99], 100) == Scanned([97, 98, 99], false, [])       // "abc" up to 'd': io.EOF
    ensures Scan([97, 92, 98, 99], 99) == Scanned([97, 98], true, [])         // `a\bc` up to 'c'
    ensures Scan([97, 92, 92, 98, 99], 99) == Scanned([97, 92, 98], true, []) // `a\\bc` up to 'c'
    ensures Scan([97, 98, 99, 92], 100) == Scanned([97, 98, 99], false, [])   // `abc\` up to 'd'
  {
  }
}
