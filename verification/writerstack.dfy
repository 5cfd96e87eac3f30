/**
 * writerstack.go: a stack of encoders wrapped around a base io.Writer.
 * Push wraps the current top with an encoder and remembers the new writer;
 * Finish closes the remembered writers that are io.Closers, the last
 * pushed first, and stops at the first Close that fails. The base writer
 * is never remembered, so Finish never closes it.
 *
 * Writers are known by reference only: what an encoder builds and whether
 * a writer is an io.Closer (and what its Close returns) are parameters.
 */
module WriterStacks {
  import opened Types

  /** An io.Writer interface value: nil, or a writer known by an identifier. */
  datatype WriterRef = NilWriter | WriterRef(id: nat)

  /** What an Encoder returns: the writer wrapped around the inner one, and an error. */
  datatype Wrapped = Wrapped(writer: WriterRef, err: Option<Error>)

  /** An Encoder: given the inner writer and the params (nil or bytes), the wrapped writer and an error. */
  type Encoder = (WriterRef, Option<Bytes>) -> Wrapped

  /** How a writer answers the type assertion to io.Closer, and what its Close returns. */
  datatype Closing = NotCloser | Closes(result: Option<Error>)

  /** The Close calls Finish makes, in order, and what it returns. */
  datatype Unwound = Unwound(calls: seq<WriterRef>, err: Option<Error>)

  /**
   * What Finish does to the components: the last one first; a writer that
   * is no io.Closer is skipped; a Close that fails ends the walk with its
   * error.
   */
  function Unwind(cs: seq<WriterRef>, closing: WriterRef -> Closing): Unwound
    decreases |cs|
  {
    if |cs| == 0 then Unwound([], None)
    else
      var last := cs[|cs| - 1];
      var earlier := Unwind(cs[..|cs| - 1], closing);
      match closing(last)
      case NotCloser => earlier
      case Closes(result) =>
        if result.Some? then Unwound([last], result) else Unwound([last] + earlier.calls, earlier.err)
  }

  /** The components that are io.Closers, in push order. */
  function Closers(cs: seq<WriterRef>, closing: WriterRef -> Closing): (r: seq<WriterRef>)
    ensures |r| <= |cs|
    ensures forall c :: c in r ==> c in cs && closing(c).Closes?
    decreases |cs|
  {
    if |cs| == 0 then []
    else
      var last := cs[|cs| - 1];
      Closers(cs[..|cs| - 1], closing) + (if closing(last).Closes? then [last] else [])
  }

  /** A sequence back to front. */
  function Reverse<T>(s: seq<T>): (r: seq<T>)
    ensures |r| == |s|
    ensures forall i :: 0 <= i < |s| ==> r[i] == s[|s| - 1 - i]
    decreases |s|
  {
    if |s| == 0 then [] else [s[|s| - 1]] + Reverse(s[..|s| - 1])
  }

  /**
   * A walk that made a prefix of the calls in order, every one but the
   * last answered nil, ending with the error of the last call or, without
   * an error, having made every call in order, all answered nil.
   */
  ghost predicate WalkedBack(r: Unwound, order: seq<WriterRef>, closing: WriterRef -> Closing)
  {
    && r.calls <= order
    && (forall j :: 0 <= j < |r.calls| - 1 ==> closing(r.calls[j]) == Closes(None))
    && (r.err.Some? ==> |r.calls| > 0 && closing(r.calls[|r.calls| - 1]) == Closes(r.err))
    && (r.err.None? ==> r.calls == order && forall j :: 0 <= j < |order| ==> closing(order[j]) == Closes(None))
  }

  /**
   * Finish closes the io.Closers among the components in reverse push
   * order. It stops at the first Close that fails and returns that error:
   * the calls made are a prefix of that reverse order, every call but the
   * last returned nil, and the error, if any, is the answer of the last
   * call. Without an error every io.Closer was closed.
   */
  lemma {:induction false} UnwindInReverse(cs: seq<WriterRef>, closing: WriterRef -> Closing)
    ensures WalkedBack(Unwind(cs, closing), Reverse(Closers(cs, closing)), closing)
    decreases |cs|
  {
    if |cs| > 0 {
      var last := cs[|cs| - 1];
      var init := cs[..|cs| - 1];
      UnwindInReverse(init, closing);
      var before := Closers(init, closing);
      if closing(last).Closes? {
        assert Closers(cs, closing) == before + [last];
        ReverseSnoc(before, last);
        WalkedCons(Unwind(init, closing), Reverse(before), last, closing);
      } else {
        assert Closers(cs, closing) == before + [];
      }
    }
  }

  /** One more Close in front of a walk. */
  lemma WalkedCons(earlier: Unwound, order: seq<WriterRef>, last: WriterRef, closing: WriterRef -> Closing)
    requires WalkedBack(earlier, order, closing) && closing(last).Closes?
    ensures var result := closing(last).result;
      WalkedBack(if result.Some? then Unwound([last], result) else Unwound([last] + earlier.calls, earlier.err), [last] + order, closing)
  {
    if closing(last).result.None? {
      var calls := [last] + earlier.calls;
      assert forall j :: 1 <= j < |calls| ==> calls[j] == earlier.calls[j - 1];
      if earlier.err.None? {
        assert forall j :: 1 <= j < |calls| ==> closing(calls[j]) == closing(order[j - 1]);
      }
    }
  }

  lemma ReverseSnoc<T>(s: seq<T>, x: T)
    ensures Reverse(s + [x]) == [x] + Reverse(s)
  {
    assert (s + [x])[..|s|] == s;
  }

  /** Finish closes nothing but components that are io.Closers. */
  lemma ClosesOnlyComponents(cs: seq<WriterRef>, closing: WriterRef -> Closing, w: WriterRef)
    requires w !in cs
    ensures w !in Unwind(cs, closing).calls
    ensures forall c :: c in Unwind(cs, closing).calls ==> c in cs && closing(c).Closes?
  {
    UnwindInReverse(cs, closing);
    var calls := Unwind(cs, closing).calls;
    var closers := Closers(cs, closing);
    forall c | c in calls ensures c in closers {
      var j :| 0 <= j < |calls| && calls[j] == c;
      assert Reverse(closers)[j] == c;
    }
  }

  /**
   * A nil component, which Push adds when an encoder returns a nil writer
   * and no error, fails the io.Closer assertion, so Finish never closes it.
   */
  lemma NilNeverClosed(cs: seq<WriterRef>, closing: WriterRef -> Closing)
    requires closing(NilWriter) == NotCloser
    ensures NilWriter !in Unwind(cs, closing).calls
  {
    UnwindInReverse(cs, closing);
    var calls := Unwind(cs, closing).calls;
    var closers := Closers(cs, closing);
    forall c | c in calls ensures closing(c).Closes? {
      var j :| 0 <= j < |calls| && calls[j] == c;
      assert Reverse(closers)[j] == c;
    }
  }

  /** One step of the walk of Finish, from the component at i - 1: whole is what is left to match. */
  lemma UnwindStep(whole: Unwound, cs: seq<WriterRef>, i: nat, closing: WriterRef -> Closing, done: seq<WriterRef>)
    requires 0 < i <= |cs|
    requires whole == Unwound(done + Unwind(cs[..i], closing).calls, Unwind(cs[..i], closing).err)
    ensures var c := cs[i - 1];
      var prev := Unwind(cs[..i - 1], closing);
      && (closing(c).NotCloser? ==> whole == Unwound(done + prev.calls, prev.err))
      && (closing(c) == Closes(None) ==> whole == Unwound((done + [c]) + prev.calls, prev.err))
      && (closing(c).Closes? && closing(c).result.Some? ==> whole == Unwound(done + [c], closing(c).result))
  {
    var c := cs[i - 1];
    var prev := Unwind(cs[..i - 1], closing);
    UnwindLast(cs[..i], closing);
    assert cs[..i][..i - 1] == cs[..i - 1];
    assert done + ([c] + prev.calls) == (done + [c]) + prev.calls;
  }

  /** Unwind takes the last component first. */
  lemma UnwindLast(cs: seq<WriterRef>, closing: WriterRef -> Closing)
    requires |cs| > 0
    ensures var last := cs[|cs| - 1];
      var earlier := Unwind(cs[..|cs| - 1], closing);
      && (closing(last).NotCloser? ==> Unwind(cs, closing) == earlier)
      && (closing(last) == Closes(None) ==> Unwind(cs, closing) == Unwound([last] + earlier.calls, earlier.err))
      && (closing(last).Closes? && closing(last).result.Some? ==> Unwind(cs, closing) == Unwound([last], closing(last).result))
  {
  }

  /**
   * io.Closer.Close on the writers of a stack: the answers come from
   * closing, and calls records every Close made.
   */
  class CloseLog {
    const closing: WriterRef -> Closing
    var calls: seq<WriterRef>

    /** A nil io.Writer never passes the type assertion to io.Closer. */
    constructor (closing: WriterRef -> Closing)
      requires closing(NilWriter) == NotCloser
      ensures this.closing == closing && calls == []
    {
      this.closing := closing;
      calls := [];
    }

    method Close(w: WriterRef) returns (err: Option<Error>)
      requires closing(w).Closes?
      modifies this`calls
      ensures calls == old(calls) + [w] && err == closing(w).result
    {
      calls := calls + [w];
      err := closing(w).result;
    }
  }

  class WriterStack {
    /** The embedded io.Writer: the top of the stack, where writes go. */
    var top: WriterRef
    /** The writers Push added, in push order; the stack starts without the base writer among them. */
    var components: seq<WriterRef>
    /** The writer the stack was made on. */
    ghost const base: WriterRef

    /** NewWriterStack: the base writer on top, and no components. */
    constructor (w: WriterRef)
      ensures top == w && base == w && components == []
    {
      top := w;
      base := w;
      components := [];
    }

    /**
     * Push: the encoder's writer becomes the top whatever happens; only
     * when the encoder succeeded is it appended to the components. The
     * base stays out of the components as long as no encoder hands it
     * back.
     */
    method Push(enc: Encoder, args: Option<Bytes>) returns (err: Option<Error>)
      modifies this
      ensures var made := enc(old(top), args);
        && top == made.writer && err == made.err
        && components == (if made.err.None? then old(components) + [made.writer] else old(components))
      ensures base !in old(components) && enc(old(top), args).writer != base ==> base !in components
    {
      var made := enc(top, args);
      top := made.writer;
      if made.err.Some? {
        return made.err;
      }
      // the base writer is deliberately not among the components
      components := components + [top];
      return None;
    }

    /**
     * Finish: the walk of Unwind over the components, making exactly its
     * Close calls and returning its error. The base writer is not closed
     * unless an encoder handed it back as its own writer.
     */
    method Finish(log: CloseLog) returns (err: Option<Error>)
      modifies log`calls
      ensures var r := Unwind(components, log.closing);
        log.calls == old(log.calls) + r.calls && err == r.err
    {
      var i := |components|;
      ghost var done: seq<WriterRef> := [];
      assert components[..i] == components;
      assert done + Unwind(components, log.closing).calls == Unwind(components, log.closing).calls;
      while i > 0
        invariant 0 <= i <= |components|
        invariant log.calls == old(log.calls) + done
        invariant Unwind(components, log.closing) == Unwound(done + Unwind(components[..i], log.closing).calls, Unwind(components[..i], log.closing).err)
        decreases i
      {
        var c := components[i - 1];
        UnwindStep(Unwind(components, log.closing), components, i, log.closing, done);
        if log.closing(c).Closes? {
          err := log.Close(c);
          if err.Some? {
            return;
          }
          done := done + [c];
        }
        i := i - 1;
      }
      assert done + [] == done;
      return None;
    }
  }
}
