/**
 * The pieces of Go's standard library the core leans on, reduced to what
 * the core observes of them: a bytes.Buffer drained by ReadByte, an
 * io.Writer whose answers come from an oracle, bytes.SplitN with n = 2,
 * strconv.FormatInt in base 10, and the write loop of io.Copy.
 */
module GoRuntime {
  import opened Types

  /** A bytes.Buffer used as a reader: the bytes not read yet. */
  class ByteBuffer {
    var unread: Bytes

    constructor (data: Bytes)
      ensures unread == data
    {
      unread := data;
    }

    /** ReadByte: the next byte, or io.EOF once the buffer is drained. */
    method ReadByte() returns (b: byte, err: Option<Error>)
      modifies this
      ensures old(unread) == [] ==> b == 0 && err == Some(EOF) && unread == []
      ensures old(unread) != [] ==> b == old(unread)[0] && err == None && unread == old(unread)[1..]
    {
      if unread == [] {
        b, err := 0, Some(EOF);
      } else {
        b, err := unread[0], None;
        unread := unread[1..];
      }
    }
  }

  /**
   * The answer an io.Writer gives to its k-th Write call with the given
   * bytes: nil, or an error.
   */
  type Oracle = (nat, Bytes) -> Option<Error>

  /** The answer of the oracle to write call number k with bytes p. */
  function Answer(respond: Oracle, k: nat, p: Bytes): Option<Error>
  {
    respond(k, p)
  }

  /** A writer that accepts everything, as a bytes.Buffer does. */
  function NeverFails(): Oracle
  {
    (k: nat, p: Bytes) => None
  }

  /**
   * An io.Writer. Its behaviour is the oracle; log records the bytes of
   * every Write call made on it, failed ones included.
   */
  class Writer {
    const respond: Oracle
    var log: seq<Bytes>

    constructor (respond: Oracle)
      ensures this.respond == respond && log == []
    {
      this.respond := respond;
      log := [];
    }

    method Write(p: Bytes) returns (err: Option<Error>)
      modifies this`log
      ensures log == old(log) + [p]
      ensures err == Answer(respond, |old(log)|, p)
    {
      err := Answer(respond, |log|, p);
      log := log + [p];
    }
  }

  /** The writes issued by one step of the model and the error it ends with. */
  datatype Run = Run(writes: seq<Bytes>, err: Option<Error>)

  function Prepend(ws: seq<Bytes>, r: Run): Run
  {
    Run(ws + r.writes, r.err)
  }

  lemma PrependPrepend(a: seq<Bytes>, b: seq<Bytes>, r: Run)
    ensures Prepend(a, Prepend(b, r)) == Prepend(a + b, r)
    ensures Prepend([], r) == r
    ensures r.writes == [] ==> Prepend(a, r) == Run(a, r.err)
  {
    assert a + (b + r.writes) == (a + b) + r.writes;
    assert [] + r.writes == r.writes;
    assert a + [] == a;
  }

  /** Appending to a log in two steps or in one. */
  lemma AppendAssoc(a: seq<Bytes>, b: seq<Bytes>, c: seq<Bytes>)
    ensures (a + b) + c == a + (b + c)
  {
  }

  /**
   * Writing the chunks one after the other, starting with call number k,
   * and stopping at the first write that fails.
   */
  function WriteAll(chunks: seq<Bytes>, respond: Oracle, k: nat): (r: Run)
    decreases |chunks|
  {
    if |chunks| == 0 then Run([], None)
    else
      var e := Answer(respond, k, chunks[0]);
      if e.Some? then Run([chunks[0]], e)
      else Prepend([chunks[0]], WriteAll(chunks[1..], respond, k + 1))
  }

  /**
   * WriteAll issues a prefix of the chunks, and every issued write but the
   * last one succeeded: nothing is written after a failure.
   */
  lemma {:induction false} WriteAllIssuesPrefix(chunks: seq<Bytes>, respond: Oracle, k: nat)
    ensures var r := WriteAll(chunks, respond, k);
      && r.writes <= chunks
      && (forall j :: 0 <= j < |r.writes| - 1 ==> Answer(respond, k + j, r.writes[j]).None?)
    decreases |chunks|
  {
    if |chunks| > 0 && Answer(respond, k, chunks[0]).None? {
      WriteAllIssuesPrefix(chunks[1..], respond, k + 1);
      var t := WriteAll(chunks[1..], respond, k + 1);
      var r := WriteAll(chunks, respond, k);
      assert r.writes == [chunks[0]] + t.writes;
      forall j | 1 <= j < |r.writes| - 1
        ensures Answer(respond, k + j, r.writes[j]).None?
      {
        assert r.writes[j] == t.writes[j - 1];
      }
    }
  }

  /**
   * WriteAll returns nil exactly when every chunk was written and accepted;
   * otherwise it returns the error of the last write it issued.
   */
  lemma {:induction false} WriteAllError(chunks: seq<Bytes>, respond: Oracle, k: nat)
    ensures var r := WriteAll(chunks, respond, k);
      && (r.err.None? <==> r.writes == chunks && AllAccepted(chunks, respond, k))
      && (r.err.Some? ==> |r.writes| > 0 && r.err == Answer(respond, k + |r.writes| - 1, r.writes[|r.writes| - 1]))
    decreases |chunks|
  {
    if |chunks| > 0 && Answer(respond, k, chunks[0]).None? {
      var cs := chunks[1..];
      WriteAllError(cs, respond, k + 1);
      var t := WriteAll(cs, respond, k + 1);
      var r := WriteAll(chunks, respond, k);
      assert r.writes == [chunks[0]] + t.writes;
      AllAcceptedCons(chunks, respond, k);
      if t.err.Some? {
        assert r.writes[|r.writes| - 1] == t.writes[|t.writes| - 1];
      }
    }
  }

  lemma AllAcceptedCons(chunks: seq<Bytes>, respond: Oracle, k: nat)
    requires chunks != []
    ensures AllAccepted(chunks, respond, k)
      <==> Answer(respond, k, chunks[0]).None? && AllAccepted(chunks[1..], respond, k + 1)
  {
    var cs := chunks[1..];
    if AllAccepted(cs, respond, k + 1) && Answer(respond, k, chunks[0]).None? {
      forall j | 1 <= j < |chunks|
        ensures Answer(respond, k + j, chunks[j]).None?
      {
        assert chunks[j] == cs[j - 1];
      }
    }
    if AllAccepted(chunks, respond, k) {
      forall j | 0 <= j < |cs|
        ensures Answer(respond, k + 1 + j, cs[j]).None?
      {
        assert cs[j] == chunks[j + 1];
      }
    }
  }

  /** A single chunk is one write, whose answer is the result. */
  lemma WriteOne(p: Bytes, respond: Oracle, k: nat)
    ensures WriteAll([p], respond, k) == Run([p], Answer(respond, k, p))
  {
    assert [p][1..] == [];
    assert [p] + [] == [p];
  }

  /** When every write is accepted, all the chunks are written and the result is nil. */
  lemma {:induction false} WriteAllAccepted(chunks: seq<Bytes>, respond: Oracle, k: nat)
    requires AllAccepted(chunks, respond, k)
    ensures WriteAll(chunks, respond, k) == Run(chunks, None)
    decreases |chunks|
  {
    if |chunks| > 0 {
      AllAcceptedCons(chunks, respond, k);
      WriteAllAccepted(chunks[1..], respond, k + 1);
      assert [chunks[0]] + chunks[1..] == chunks;
    }
  }

  /** Every one of the chunks, written from call number k on, is accepted. */
  ghost predicate AllAccepted(chunks: seq<Bytes>, respond: Oracle, k: nat)
  {
    forall j :: 0 <= j < |chunks| ==> Answer(respond, k + j, chunks[j]).None?
  }

  /**
   * Nothing is written after a refused write: every write of r but the
   * last was accepted, and a refused last write is the error r returns.
   */
  ghost predicate StopsAtRefusal(r: Run, respond: Oracle, k: nat)
  {
    && (forall j :: 0 <= j < |r.writes| - 1 ==> Answer(respond, k + j, r.writes[j]).None?)
    && (|r.writes| > 0 && Answer(respond, k + |r.writes| - 1, r.writes[|r.writes| - 1]).Some? ==>
          r.err == Answer(respond, k + |r.writes| - 1, r.writes[|r.writes| - 1]))
  }

  lemma WriteAllStops(chunks: seq<Bytes>, respond: Oracle, k: nat)
    ensures StopsAtRefusal(WriteAll(chunks, respond, k), respond, k)
  {
    WriteAllIssuesPrefix(chunks, respond, k);
    WriteAllError(chunks, respond, k);
    var r := WriteAll(chunks, respond, k);
    if |r.writes| > 0 && r.err.None? {
      assert r.writes == chunks;
      assert AllAccepted(chunks, respond, k);
      assert Answer(respond, k + |r.writes| - 1, r.writes[|r.writes| - 1]).None?;
    }
  }

  /** A run that ends without error had all its writes accepted. */
  lemma SuccessAllAccepted(r: Run, respond: Oracle, k: nat)
    requires StopsAtRefusal(r, respond, k) && r.err.None?
    ensures AllAccepted(r.writes, respond, k)
  {
  }

  /** Accepted writes in front of a run keep it stopping at its first refusal. */
  lemma PrependStops(p: seq<Bytes>, r: Run, respond: Oracle, k: nat)
    requires AllAccepted(p, respond, k) && StopsAtRefusal(r, respond, k + |p|)
    ensures StopsAtRefusal(Prepend(p, r), respond, k)
  {
    var w := p + r.writes;
    forall j | 0 <= j < |w| - 1
      ensures Answer(respond, k + j, w[j]).None?
    {
      if j < |p| {
        assert w[j] == p[j];
      } else {
        assert w[j] == r.writes[j - |p|];
      }
    }
    if |r.writes| > 0 {
      assert w[|w| - 1] == r.writes[|r.writes| - 1];
    }
  }

  /** A first run, followed only when it succeeded by a second one, stops at its first refusal if both do. */
  lemma StopsThen(p: Run, rest: Run, whole: Run, respond: Oracle, k: nat)
    requires StopsAtRefusal(p, respond, k)
    requires p.err.None? ==> StopsAtRefusal(rest, respond, k + |p.writes|)
    requires whole == if p.err.Some? then p else Prepend(p.writes, rest)
    ensures StopsAtRefusal(whole, respond, k)
  {
    if p.err.None? {
      SuccessAllAccepted(p, respond, k);
      PrependStops(p.writes, rest, respond, k);
    }
  }

  /** One step of the write loop, as WriteAll sees it. */
  /** Appending the next element after a prefix extends the prefix by one. */
  lemma TakeOneMore<T>(a: seq<T>, s: seq<T>, i: nat)
    requires i < |s|
    ensures a + s[..i] + [s[i]] == a + s[..i + 1]
  {
    assert s[..i + 1] == s[..i] + [s[i]];
  }

  lemma WriteAllStep(chunks: seq<Bytes>, i: nat, respond: Oracle, k: nat, goal: Run)
    requires i < |chunks|
    requires goal == Prepend(chunks[..i], WriteAll(chunks[i..], respond, k + i))
    ensures Answer(respond, k + i, chunks[i]).Some? ==> goal == Run(chunks[..i + 1], Answer(respond, k + i, chunks[i]))
    ensures Answer(respond, k + i, chunks[i]).None? ==>
      goal == Prepend(chunks[..i + 1], WriteAll(chunks[i + 1..], respond, k + i + 1))
  {
    assert chunks[i..][1..] == chunks[i + 1..];
    assert chunks[..i + 1] == chunks[..i] + [chunks[i]];
  }

  /** Writes the chunks in order until one fails (the write loop of io.Copy). */
  method WriteEach(w: Writer, chunks: seq<Bytes>) returns (err: Option<Error>)
    modifies w`log
    ensures var r := WriteAll(chunks, w.respond, |old(w.log)|);
      w.log == old(w.log) + r.writes && err == r.err
  {
    var i := 0;
    err := None;
    ghost var k := |w.log|;
    ghost var goal := WriteAll(chunks, w.respond, k);
    assert chunks[..0] == [] && chunks[0..] == chunks;
    while i < |chunks|
      invariant 0 <= i <= |chunks|
      invariant w.log == old(w.log) + chunks[..i]
      invariant err == None
      invariant goal == Prepend(chunks[..i], WriteAll(chunks[i..], w.respond, k + i))
    {
      WriteAllStep(chunks, i, w.respond, k, goal);
      TakeOneMore(old(w.log), chunks, i);
      err := w.Write(chunks[i]);
      if err.Some? {
        assert goal == Run(chunks[..i + 1], err);
        return;
      }
      i := i + 1;
    }
    assert chunks[i..] == [] && chunks[..i] == chunks;
    assert goal == Prepend(chunks, WriteAll([], w.respond, k + i));
  }

  /**
   * The result of bytes.SplitN(s, []byte{sep}, 2): the first chunk, and the
   * second one when there is one.
   */
  datatype Halves = Halves(head: Bytes, tail: Option<Bytes>)

  /**
   * bytes.SplitN(s, []byte{sep}, 2): the bytes before the first sep, and
   * the bytes after it when there is one.
   */
  function SplitFirst(s: Bytes, sep: byte): (r: Halves)
    decreases |s|
  {
    if |s| == 0 then Halves([], None)
    else if s[0] == sep then Halves([], Some(s[1..]))
    else
      var r := SplitFirst(s[1..], sep);
      Halves([s[0]] + r.head, r.tail)
  }

  /**
   * The head holds no separator; the tail is present exactly when the
   * input holds one, and then head, separator and tail give the input back.
   */
  lemma {:induction false} SplitFirstSpec(s: Bytes, sep: byte)
    ensures var r := SplitFirst(s, sep);
      && sep !in r.head
      && (sep !in s <==> r.tail.None?)
      && (r.tail.None? ==> r.head == s)
      && (r.tail.Some? ==> s == r.head + [sep] + r.tail.value)
    decreases |s|
  {
    if |s| > 0 && s[0] != sep {
      SplitFirstSpec(s[1..], sep);
      var r := SplitFirst(s[1..], sep);
      assert s == [s[0]] + s[1..];
      if r.tail.Some? {
        assert s == [s[0]] + (r.head + [sep] + r.tail.value);
      }
    } else if |s| > 0 {
      assert s == [] + [sep] + s[1..];
    }
  }

  /** strconv.FormatInt(v, 10) for a non-negative v: its decimal digits. */
  function Decimal(v: nat): (r: Bytes)
    ensures 1 <= |r|
    ensures forall i :: 0 <= i < |r| ==> '0' as int <= r[i] <= '9' as int
    ensures v >= 10 ==> r[0] != '0' as int
    decreases v
  {
    if v < 10 then ['0' as int + v] else Decimal(v / 10) + ['0' as int + v % 10]
  }

  /** The number a string of decimal digits denotes. */
  function DigitsValue(ds: Bytes): nat
    requires forall i :: 0 <= i < |ds| ==> '0' as int <= ds[i] <= '9' as int
    decreases |ds|
  {
    if ds == [] then 0 else DigitsValue(ds[..|ds| - 1]) * 10 + (ds[|ds| - 1] - '0' as int)
  }

  /** Reading the digits back gives the number that was formatted. */
  lemma {:induction false} DecimalRoundTrip(v: nat)
    ensures DigitsValue(Decimal(v)) == v
    decreases v
  {
    if v >= 10 {
      DecimalRoundTrip(v / 10);
      var ds := Decimal(v);
      assert ds[..|ds| - 1] == Decimal(v / 10);
    }
  }
}
