/**
 * stresc.go: the same interpolator as strinterp.go, in a package of its
 * own. Its InterpWriter loop is proved here directly against the layered
 * specification of StrInterp (Lex, Plan, Exec), so the two packages
 * interpolate every template identically. The errors stresc.go declares
 * carry the same texts as those of strinterp.go (StrInterp.ErrorText), and
 * its scanner is the one of Parsing.
 */
module StrEsc {
  import opened Types
  import opened GoRuntime
  import opened Parsing
  import opened StrInterp

  class Interpolator {
    var interpolators: map<Bytes, Formatter>

    /** NewInterpolator: a map holding RAW alone. */
    constructor ()
      ensures interpolators == map[RAW := Raw]
      ensures forall name :: Registered(interpolators, name) <==> name == RAW
    {
      interpolators := map[RAW := Raw];
    }

    /**
     * AddFormat: refused with ErrAlreadyExists(format) when the entry is
     * not nil; otherwise the entry is set and nothing else changes.
     */
    method AddFormat(format: Bytes, handler: Formatter) returns (err: Option<Error>)
      modifies this
      ensures Registered(old(interpolators), format) ==>
        err == Some(ErrAlreadyExists(format)) && interpolators == old(interpolators)
      ensures !Registered(old(interpolators), format) ==>
        err == None && interpolators == old(interpolators)[format := handler]
      ensures forall other :: other != format ==> Lookup(interpolators, other) == Lookup(old(interpolators), other)
    {
      if Registered(interpolators, format) {
        err := Some(ErrAlreadyExists(format));
      } else {
        interpolators := interpolators[format := handler];
        err := None;
      }
    }

    /** raw (stresc.go): written in one call, copied from a reader, or ErrRawUnknownType. */
    static method RawFormat(w: Writer, x: Value) returns (err: Option<Error>)
      modifies w`log
      ensures var r := RawRun(x, w.respond, |old(w.log)|);
        w.log == old(w.log) + r.writes && err == r.err
    {
      if x.ByteSlice? {
        err := w.Write(x.bytes);
      } else if x.Text? {
        err := w.Write(x.text);
      } else if x.Reader? {
        err := WriteEach(w, x.blocks); // io.Copy
      } else {
        err := Some(ErrRawUnknownType);
      }
      if x.ByteSlice? || x.Text? {
        WriteOne(if x.ByteSlice? then x.bytes else x.text, w.respond, |old(w.log)|);
      }
    }

    /**
     * InterpWriter: the loop of stresc.go, whose writes and result are
     * those the layered specification gives for the template.
     */
    method InterpWriter(w: Writer, formatBytes: Bytes, args: seq<Value>, behave: Behaviour) returns (err: Option<Error>)
      modifies w`log
      ensures var r := Interpolation(formatBytes, interpolators, args, behave, w.respond, |old(w.log)|);
        w.log == old(w.log) + r.writes && err == r.err
    {
      ghost var goal := Prepend(w.log, Interp(formatBytes, interpolators, args, behave, w.respond, |w.log|));
      var buf := new ByteBuffer(formatBytes);
      var rest := args;
      var more := true;
      err := None;
      while more
        invariant more ==> goal == Prepend(w.log, Interp(buf.unread, interpolators, rest, behave, w.respond, |w.log|))
        invariant !more ==> goal == Run(w.log, err)
        decreases if more then |buf.unread| + 1 else 0
      {
        LoopStep(goal, w.log, buf.unread, Iteration(buf.unread, interpolators, rest, behave, w.respond, |w.log|), interpolators, rest, behave, w.respond);
        ghost var st;
        err, more, rest, st := Turn(w, buf, rest, behave);
      }
      InterpEqualsInterpolation(formatBytes, interpolators, args, behave, w.respond, |old(w.log)|);
    }

    /** One turn of the loop of stresc.go: the literal run, then the directive when there is one. */
    method Turn(w: Writer, buf: ByteBuffer, args: seq<Value>, behave: Behaviour)
      returns (err: Option<Error>, more: bool, rest: seq<Value>, ghost st: Step)
      modifies w`log, buf
      ensures st == Iteration(old(buf.unread), interpolators, args, behave, w.respond, |old(w.log)|)
      ensures w.log == old(w.log) + st.run.writes && err == st.run.err && more == st.more
      ensures more ==> buf.unread == st.unread && rest == st.args
    {
      st := Iteration(buf.unread, interpolators, args, behave, w.respond, |w.log|);
      more, rest := false, args;
      var untilDelim, e := ReadBytesUntilUnescDelim(buf, PERCENT);
      err := w.Write(untilDelim);
      if e.Some? || err.Some? {
        // the end of the template, or a literal the writer refused
        return;
      }
      var rawFormat;
      rawFormat, e := ReadBytesUntilUnescDelim(buf, SEMICOLON);
      if e.Some? {
        err := Some(ErrIncompleteFormatString);
        return;
      }
      ghost var log1 := w.log;
      err, rest := Dispatch(w, rawFormat, args, behave);
      AppendAssoc(old(w.log), [untilDelim], w.log[|log1|..]);
      more := err.None?;
    }

    /**
     * The directive branch of the loop of stresc.go: the '%' escape, the
     * lookup, the formatter call on the next argument or the placeholder.
     */
    method Dispatch(w: Writer, rawFormat: Bytes, args: seq<Value>, behave: Behaviour) returns (err: Option<Error>, rest: seq<Value>)
      modifies w`log
      ensures var dec := Directive(rawFormat, interpolators, args);
        var r := Perform(dec.action, behave, w.respond, |old(w.log)|);
        w.log == old(w.log) + r.writes && err == r.err && rest == dec.left
    {
      var formatChunks := SplitFirst(rawFormat, COLON);
      var format := formatChunks.head;
      var formatArgs := formatChunks.tail;
      rest := args;
      if |format| == 1 && format[0] == PERCENT {
        err := w.Write([PERCENT]);
        return;
      }
      if !Registered(interpolators, format) {
        return Some(ErrUnknownFormatter(format)), rest;
      }
      var formatter := interpolators[format];
      if |rest| == 0 {
        err := w.Write([PERCENT] + format + NoArgSuffix);
        return;
      }
      var thisArg := rest[0];
      rest := rest[1..];
      match formatter
      case Raw =>
        err := RawFormat(w, thisArg);
      case Custom(id) =>
        err := RunFormatter(w, behave, Invocation(id, thisArg, formatArgs));
    }

    /** InterpStr: the bytes written to a fresh bytes.Buffer, or "" and the error. */
    method InterpStr(format: Bytes, args: seq<Value>, behave: Behaviour) returns (s: Bytes, err: Option<Error>)
      ensures var r := Interpolation(format, interpolators, args, behave, NeverFails(), 0);
        err == r.err && s == (if r.err.Some? then [] else Flatten(r.writes))
    {
      var buf := new Writer(NeverFails());
      ghost var r := Interpolation(format, interpolators, args, behave, buf.respond, 0);
      err := InterpWriter(buf, format, args, behave);
      assert buf.log == [] + r.writes == r.writes;
      if err.Some? {
        return [], err;
      }
      s := Flatten(buf.log);
    }
  }
}
