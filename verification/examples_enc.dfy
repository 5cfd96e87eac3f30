/**
 * examples.go: the encoders that ship with the library. The raw encoder
 * passes every write through; Base64 and CDATA check their params and
 * build a writer; the CDATA writer escapes '<', '>' and control bytes as
 * HTML entities, writing runs of plain bytes in between.
 *
 * The CDATA writer is modelled twice: as written, where the error of a
 * write of plain bytes is overwritten by the entity write that follows
 * it, and corrected, where every failed write ends the call with its
 * error.
 */
module Examples {
  import opened Types
  import opened GoRuntime

  /** The two alphabets Base64 chooses between (encoding/base64). */
  datatype Encoding = StdEncoding | URLEncoding

  /** The writers the bundled encoders build around the inner writer. */
  datatype Built = Passthrough | Base64Writer(encoding: Encoding) | CDATAWriter(encodeCRLF: bool)

  /** What an encoder returns: the writer it built, or an error (and a nil writer). */
  datatype Made = Made(writer: Built) | Refused(err: Error)

  // ---------------------------------------------------------------------
  // raw

  /** raw: wraps the inner writer in a pass-through; the params are ignored. */
  function RawEncoder(params: Option<Bytes>): Made
  {
    Made(Passthrough)
  }

  /** raw never fails, whatever its params. */
  lemma RawIgnoresParams(p: Option<Bytes>, q: Option<Bytes>)
    ensures RawEncoder(p).Made? && RawEncoder(p) == RawEncoder(q)
  {
  }

  /** A write to the pass-through writer: the same bytes go to the inner writer, whose answer is returned. */
  method PassthroughWrite(inner: Writer, src: Bytes) returns (err: Option<Error>)
    modifies inner`log
    ensures inner.log == old(inner.log) + [src]
    ensures err == Answer(inner.respond, |old(inner.log)|, src)
  {
    err := inner.Write(src);
  }

  // ---------------------------------------------------------------------
  // Base64 and CDATA params

  const Std: Bytes := [115, 116, 100]               // "std"
  const Url: Bytes := [117, 114, 108]               // "url"
  const NoCRLF: Bytes := [110, 111, 99, 114, 108, 102] // "nocrlf"
  const Base64Reason: Bytes := Ascii("can only be std or url, to indicate the standard or URL base64 encoding")
  const CDATAReason: Bytes := Ascii("only nocrlf allowed for CDATA")

  /** Base64: nil params or "std" select the standard alphabet, "url" the URL one. */
  function Base64(args: Option<Bytes>): Made
  {
    if args.None? then Made(Base64Writer(StdEncoding))
    else if args.value == Std then Made(Base64Writer(StdEncoding))
    else if args.value == Url then Made(Base64Writer(URLEncoding))
    else Refused(ErrUnknownArguments(args.value, Base64Reason))
  }

  /**
   * Base64 accepts exactly nil, "std" and "url"; only "url" selects the
   * URL alphabet; anything else, the empty params included, is refused
   * with ErrUnknownArguments carrying the params.
   */
  lemma Base64Arguments(args: Option<Bytes>)
    ensures Base64(args).Made? <==> args.None? || args.value == Std || args.value == Url
    ensures Base64(args) == Made(Base64Writer(URLEncoding)) <==> args == Some(Url)
    ensures Base64(args) == Made(Base64Writer(StdEncoding)) <==> args.None? || args == Some(Std)
    ensures Base64(args).Refused? ==> Base64(args).err == ErrUnknownArguments(args.value, Base64Reason)
    ensures args == Some([]) ==> Base64(args).Refused?
  {
    assert Std != Url by { assert Std[0] != Url[0]; }
  }

  /** CDATA: nil params escape CR and LF too, "nocrlf" leaves them alone. */
  function CDATA(args: Option<Bytes>): Made
  {
    if args.None? then Made(CDATAWriter(true))
    else if args.value == NoCRLF then Made(CDATAWriter(false))
    else Refused(ErrUnknownArguments(args.value, CDATAReason))
  }

  /**
   * CDATA escapes CR and LF exactly when its params are nil, leaves them
   * alone exactly for "nocrlf", and refuses any other params with
   * ErrUnknownArguments carrying them.
   */
  lemma CDATAArguments(args: Option<Bytes>)
    ensures CDATA(args) == Made(CDATAWriter(true)) <==> args.None?
    ensures CDATA(args) == Made(CDATAWriter(false)) <==> args == Some(NoCRLF)
    ensures CDATA(args).Refused? <==> args.Some? && args.value != NoCRLF
    ensures CDATA(args).Refused? ==> CDATA(args).err == ErrUnknownArguments(args.value, CDATAReason)
  {
  }

  // ---------------------------------------------------------------------
  // The CDATA writer: what it writes

  const Lt: Bytes := [38, 108, 116, 59]   // "&lt;"
  const Gt: Bytes := [38, 103, 116, 59]   // "&gt;"

  /** The bytes the CDATA writer replaces: '<', '>', and control bytes, CR and LF only when encodeCRLF. */
  predicate Encodes(b: byte, encodeCRLF: bool)
  {
    b == 60 || b == 62 || (b < 32 && (encodeCRLF || (b != 10 && b != 13)))
  }

  /** The entity written for a replaced byte: "&lt;", "&gt;", or "&#" + decimal + ";". */
  function Entity(b: byte): (e: Bytes)
    ensures |e| >= 4 && e[0] == 38 && e[|e| - 1] == 59
  {
    if b == 60 then Lt
    else if b == 62 then Gt
    else [38, 35] + Decimal(b) + [59]
  }

  /** What a byte becomes in the output. */
  function Image(b: byte, encodeCRLF: bool): Bytes
  {
    if Encodes(b, encodeCRLF) then Entity(b) else [b]
  }

  /** The output for a whole input: the images of its bytes, in order. */
  function Escaped(s: Bytes, encodeCRLF: bool): Bytes
    decreases |s|
  {
    if |s| == 0 then [] else Image(s[0], encodeCRLF) + Escaped(s[1..], encodeCRLF)
  }

  /**
   * A numeric entity reads back as the byte it stands for: its digits
   * between "&#" and ";" denote the byte.
   */
  lemma EntityDecodes(b: byte)
    requires b != 60 && b != 62
    ensures var e := Entity(b);
      e[..2] == [38, 35] && e[2..|e| - 1] == Decimal(b) && DigitsValue(e[2..|e| - 1]) == b
  {
    var e := Entity(b);
    assert e[2..|e| - 1] == Decimal(b);
    DecimalRoundTrip(b);
  }

  /** A byte that is neither '<' nor '>', nor a control byte other than a CR or LF left alone. */
  predicate SafeByte(c: byte, encodeCRLF: bool)
  {
    c != 60 && c != 62 && (c < 32 ==> !encodeCRLF && (c == 10 || c == 13))
  }

  ghost predicate Safe(out: Bytes, encodeCRLF: bool)
  {
    forall i :: 0 <= i < |out| ==> SafeByte(out[i], encodeCRLF)
  }

  /**
   * The output never holds '<' or '>', and holds a control byte only when
   * that byte is CR or LF and encodeCRLF is off.
   */
  lemma {:induction false} EscapedIsSafe(s: Bytes, encodeCRLF: bool)
    ensures Safe(Escaped(s, encodeCRLF), encodeCRLF)
    decreases |s|
  {
    if |s| > 0 {
      EscapedIsSafe(s[1..], encodeCRLF);
      ImageIsSafe(s[0], encodeCRLF);
      SafeAppend(Image(s[0], encodeCRLF), Escaped(s[1..], encodeCRLF), encodeCRLF);
    }
  }

  /** The image of one byte holds none of the bytes that must be replaced. */
  lemma ImageIsSafe(b: byte, encodeCRLF: bool)
    ensures Safe(Image(b, encodeCRLF), encodeCRLF)
  {
    if Encodes(b, encodeCRLF) && b != 60 && b != 62 {
      var head := Image(b, encodeCRLF);
      assert head == [38, 35] + Decimal(b) + [59];
      assert forall i :: 0 <= i < |head| ==> head[i] == 38 || head[i] == 35 || head[i] == 59 || 48 <= head[i] <= 57;
    }
  }

  lemma SafeAppend(a: Bytes, b: Bytes, encodeCRLF: bool)
    requires Safe(a, encodeCRLF) && Safe(b, encodeCRLF)
    ensures Safe(a + b, encodeCRLF)
  {
    assert forall i :: |a| <= i < |a + b| ==> (a + b)[i] == b[i - |a|];
  }

  /** With encodeCRLF off, CR and LF pass through; with it on they become "&#13;" and "&#10;". */
  lemma CRLFImages()
    ensures Image(13, false) == [13] && Image(10, false) == [10]
    ensures Image(13, true) == [38, 35, 49, 51, 59] && Image(10, true) == [38, 35, 49, 48, 59]
  {
    assert Decimal(13) == Decimal(1) + [51];
    assert Decimal(10) == Decimal(1) + [48];
  }

  /** The writes of the CDATA writer: runs of plain bytes, and single replaced bytes. */
  datatype Piece = Verbatim(run: Bytes) | Encoded(b: byte)

  /**
   * The pieces the writer cuts its input into, pending being the plain
   * bytes seen since the last replaced byte: a run is written just before
   * each replaced byte and at the end, when it is not empty.
   */
  function Pieces(s: Bytes, encodeCRLF: bool, pending: Bytes): seq<Piece>
    decreases |s|
  {
    if |s| == 0 then (if |pending| > 0 then [Verbatim(pending)] else [])
    else if Encodes(s[0], encodeCRLF) then
      (if |pending| > 0 then [Verbatim(pending)] else []) + [Encoded(s[0])] + Pieces(s[1..], encodeCRLF, [])
    else Pieces(s[1..], encodeCRLF, pending + [s[0]])
  }

  /** The bytes written for a piece. */
  function PieceBytes(p: Piece): Bytes
  {
    match p
    case Verbatim(run) => run
    case Encoded(b) => Entity(b)
  }

  /** The bytes of each write. */
  function Emitted(ps: seq<Piece>): (ws: seq<Bytes>)
    ensures |ws| == |ps|
    decreases |ps|
  {
    if |ps| == 0 then [] else [PieceBytes(ps[0])] + Emitted(ps[1..])
  }

  /**
   * The writes, put together, are the pending bytes followed by the
   * escaped input: every byte, in order, verbatim or as its entity.
   */
  lemma {:induction false} PiecesImage(s: Bytes, encodeCRLF: bool, pending: Bytes)
    ensures Flatten(Emitted(Pieces(s, encodeCRLF, pending))) == pending + Escaped(s, encodeCRLF)
    decreases |s|
  {
    if |s| == 0 {
      RunImage(pending);
      assert Flatten([]) + [] == [];
    } else if Encodes(s[0], encodeCRLF) {
      PiecesImage(s[1..], encodeCRLF, []);
      EncodedImage(s, encodeCRLF, pending);
    } else {
      PiecesImage(s[1..], encodeCRLF, pending + [s[0]]);
      PlainImage(s, encodeCRLF, pending);
    }
  }

  /** PiecesImage past a replaced byte, given it for the rest of the input. */
  lemma EncodedImage(s: Bytes, encodeCRLF: bool, pending: Bytes)
    requires |s| > 0 && Encodes(s[0], encodeCRLF)
    requires Flatten(Emitted(Pieces(s[1..], encodeCRLF, []))) == [] + Escaped(s[1..], encodeCRLF)
    ensures Flatten(Emitted(Pieces(s, encodeCRLF, pending))) == pending + Escaped(s, encodeCRLF)
  {
    HeadImage(pending, s[0], Pieces(s[1..], encodeCRLF, []));
    var tail := Escaped(s[1..], encodeCRLF);
    assert [] + tail == tail;
    assert Escaped(s, encodeCRLF) == Entity(s[0]) + tail;
    Regroup(Flatten(Emitted(Pieces(s, encodeCRLF, pending))), pending, Entity(s[0]), tail, Escaped(s, encodeCRLF));
  }

  /** PiecesImage past a byte kept as it is, given it for the rest of the input. */
  lemma PlainImage(s: Bytes, encodeCRLF: bool, pending: Bytes)
    requires |s| > 0 && !Encodes(s[0], encodeCRLF)
    requires Flatten(Emitted(Pieces(s[1..], encodeCRLF, pending + [s[0]]))) == pending + [s[0]] + Escaped(s[1..], encodeCRLF)
    ensures Flatten(Emitted(Pieces(s, encodeCRLF, pending))) == pending + Escaped(s, encodeCRLF)
  {
    var tail := Escaped(s[1..], encodeCRLF);
    assert Pieces(s, encodeCRLF, pending) == Pieces(s[1..], encodeCRLF, pending + [s[0]]);
    assert Escaped(s, encodeCRLF) == [s[0]] + tail;
    Regroup(Flatten(Emitted(Pieces(s, encodeCRLF, pending))), pending, [s[0]], tail, Escaped(s, encodeCRLF));
  }

  lemma Regroup(x: Bytes, a: Bytes, b: Bytes, c: Bytes, bc: Bytes)
    requires x == a + b + c && bc == b + c
    ensures x == a + bc
  {
  }

  /** The pending run, written when it is not empty. */
  lemma RunImage(pending: Bytes)
    ensures Flatten(Emitted(if |pending| > 0 then [Verbatim(pending)] else [])) == pending
  {
    if |pending| > 0 {
      assert Emitted([Verbatim(pending)]) == [pending];
      assert Flatten([pending]) == pending + [];
    }
  }

  /** The writes at a replaced byte: the pending run, if any, then the entity, then the rest. */
  lemma HeadImage(pending: Bytes, b: byte, rest: seq<Piece>)
    ensures Flatten(Emitted((if |pending| > 0 then [Verbatim(pending)] else []) + [Encoded(b)] + rest))
      == pending + Entity(b) + Flatten(Emitted(rest))
  {
    var head := if |pending| > 0 then [Verbatim(pending)] else [];
    EmittedAppend(head + [Encoded(b)], rest);
    EmittedAppend(head, [Encoded(b)]);
    FlattenAppend(Emitted(head + [Encoded(b)]), Emitted(rest));
    FlattenAppend(Emitted(head), Emitted([Encoded(b)]));
    RunImage(pending);
    assert Flatten(Emitted([Encoded(b)])) == Entity(b) by {
      assert Emitted([Encoded(b)]) == [Entity(b)];
      assert Flatten([Entity(b)]) == Entity(b) + [];
    }
  }

  lemma {:induction false} EmittedAppend(a: seq<Piece>, b: seq<Piece>)
    ensures Emitted(a + b) == Emitted(a) + Emitted(b)
    decreases |a|
  {
    if |a| > 0 {
      assert (a + b)[1..] == a[1..] + b;
      EmittedAppend(a[1..], b);
    } else {
      assert a + b == b;
    }
  }

  // ---------------------------------------------------------------------
  // The CDATA writer: what it returns

  /** The writes made on the inner writer, and the n and err the Write call returns. */
  datatype Written = Written(writes: seq<Bytes>, n: nat, err: Option<Error>)

  function Then(ws: seq<Bytes>, w: Written): Written
  {
    Written(ws + w.writes, w.n, w.err)
  }

  /**
   * The CDATA writer as written, from write call number k on: a failed
   * entity write ends the call with n = 0 and its error; the error of a
   * run written before an entity is overwritten by the entity write and
   * lost; the error of the final run is returned with n = total.
   */
  function AsWritten(ps: seq<Piece>, total: nat, respond: Oracle, k: nat): Written
    decreases |ps|
  {
    if |ps| == 0 then Written([], total, None)
    else match ps[0]
      case Verbatim(run) =>
        if |ps| == 1 then Written([run], total, Answer(respond, k, run))
        else Then([run], AsWritten(ps[1..], total, respond, k + 1))
      case Encoded(b) =>
        var e := Answer(respond, k, Entity(b));
        if e.Some? then Written([Entity(b)], 0, e)
        else Then([Entity(b)], AsWritten(ps[1..], total, respond, k + 1))
  }

  /**
   * What the writer as written does with the answers of the inner writer,
   * w being its writes and result: it writes a prefix of its pieces; a
   * refused run write that has a piece after it is followed by that
   * piece's write; the only write that ends the call early is a refused
   * entity, and then n = 0 and the error is that write's; otherwise every
   * piece is written, n = total, and the error is the answer of the final
   * run, or nil when the input ends with an entity.
   */
  ghost predicate AsWrittenShape(ps: seq<Piece>, total: nat, respond: Oracle, k: nat, w: Written)
  {
    && w.writes <= Emitted(ps)
    && AcceptedBefore(ps, respond, k, w)
    && Ending(ps, total, respond, k, w)
  }

  /** Every write before the last is a run or was accepted. */
  ghost predicate AcceptedBefore(ps: seq<Piece>, respond: Oracle, k: nat, w: Written)
  {
    forall j :: 0 <= j < |w.writes| - 1 && j < |ps| ==> ps[j].Verbatim? || Answer(respond, k + j, w.writes[j]).None?
  }

  /** How the call ends: at a refused entity write, or after every piece. */
  ghost predicate Ending(ps: seq<Piece>, total: nat, respond: Oracle, k: nat, w: Written)
  {
    var last := |w.writes| - 1;
    var entityRefused := 0 < |w.writes| <= |ps| && ps[last].Encoded? && Answer(respond, k + last, w.writes[last]).Some?;
    && (entityRefused ==> w.n == 0 && w.err == Answer(respond, k + last, w.writes[last]))
    && (!entityRefused ==>
          && w.writes == Emitted(ps) && w.n == total
          && w.err == (if |ps| > 0 && ps[|ps| - 1].Verbatim? then Answer(respond, k + |ps| - 1, ps[|ps| - 1].run) else None))
  }

  /**
   * As written, the CDATA writer stops only at a refused entity write,
   * returning n = 0 and that error; a refused run write does not stop it.
   */
  lemma {:induction false} AsWrittenErrors(ps: seq<Piece>, total: nat, respond: Oracle, k: nat)
    ensures AsWrittenShape(ps, total, respond, k, AsWritten(ps, total, respond, k))
    ensures forall j :: 0 <= j < |ps| - 1 && j < |AsWritten(ps, total, respond, k).writes| && ps[j].Verbatim? ==>
      j + 1 < |AsWritten(ps, total, respond, k).writes|
    decreases |ps|
  {
    var w := AsWritten(ps, total, respond, k);
    if |ps| > 0 {
      var b := PieceBytes(ps[0]);
      var e := Answer(respond, k, b);
      assert Emitted(ps) == [b] + Emitted(ps[1..]);
      if ps[0].Verbatim? && |ps| == 1 {
        assert w == Written([b], total, e);
      } else if ps[0].Encoded? && e.Some? {
        assert w == Written([b], 0, e);
      } else {
        AsWrittenErrors(ps[1..], total, respond, k + 1);
        ShapeCons(ps, total, respond, k, AsWritten(ps[1..], total, respond, k + 1));
      }
    }
  }

  /** A piece written without ending the call, in front of the writes of the rest. */
  lemma ShapeCons(ps: seq<Piece>, total: nat, respond: Oracle, k: nat, t: Written)
    requires |ps| > 0 && (ps[0].Verbatim? ==> |ps| > 1)
    requires ps[0].Encoded? ==> Answer(respond, k, PieceBytes(ps[0])).None?
    requires AsWrittenShape(ps[1..], total, respond, k + 1, t)
    requires forall j :: 0 <= j < |ps| - 2 && j < |t.writes| && ps[1..][j].Verbatim? ==> j + 1 < |t.writes|
    ensures AsWrittenShape(ps, total, respond, k, Then([PieceBytes(ps[0])], t))
    ensures forall j :: 0 <= j < |ps| - 1 && j < |t.writes| + 1 && ps[j].Verbatim? ==> j + 1 < |t.writes| + 1
  {
    PrefixCons(ps, t);
    AcceptedCons(ps, respond, k, t);
    EndingCons(ps, total, respond, k, t);
    FollowedCons(ps, t);
  }

  /** Writing the first piece in front of a prefix of the rest's writes gives a prefix of all the writes. */
  lemma PrefixCons(ps: seq<Piece>, t: Written)
    requires |ps| > 0 && t.writes <= Emitted(ps[1..])
    ensures Then([PieceBytes(ps[0])], t).writes <= Emitted(ps)
  {
    assert Emitted(ps) == [PieceBytes(ps[0])] + Emitted(ps[1..]);
    PrefixPrepend(PieceBytes(ps[0]), t.writes, Emitted(ps[1..]));
  }

  /** Putting the same element in front of a prefix and of the sequence keeps the prefix. */
  lemma PrefixPrepend<T>(x: T, a: seq<T>, b: seq<T>)
    requires a <= b
    ensures [x] + a <= [x] + b
  {
    assert [x] + a == ([x] + b)[..|a| + 1];
  }

  /** An accepted or run first write, in front of writes accepted before their last, keeps them so. */
  lemma AcceptedCons(ps: seq<Piece>, respond: Oracle, k: nat, t: Written)
    requires |ps| > 0
    requires ps[0].Encoded? ==> Answer(respond, k, PieceBytes(ps[0])).None?
    requires AcceptedBefore(ps[1..], respond, k + 1, t)
    ensures AcceptedBefore(ps, respond, k, Then([PieceBytes(ps[0])], t))
  {
    var w := Then([PieceBytes(ps[0])], t);
    forall j | 0 <= j < |w.writes| - 1 && j < |ps|
      ensures ps[j].Verbatim? || Answer(respond, k + j, w.writes[j]).None?
    {
      if j > 0 {
        assert w.writes[j] == t.writes[j - 1] && ps[j] == ps[1..][j - 1];
      }
    }
  }

  /** The rest's ending, moved one write along, is the ending of the whole call. */
  lemma EndingCons(ps: seq<Piece>, total: nat, respond: Oracle, k: nat, t: Written)
    requires |ps| > 0 && (ps[0].Verbatim? ==> |ps| > 1)
    requires ps[0].Encoded? ==> Answer(respond, k, PieceBytes(ps[0])).None?
    requires t.writes <= Emitted(ps[1..])
    requires Ending(ps[1..], total, respond, k + 1, t)
    ensures Ending(ps, total, respond, k, Then([PieceBytes(ps[0])], t))
    ensures |ps| > 1 ==> |t.writes| > 0
  {
    var b := PieceBytes(ps[0]);
    var w := Then([b], t);
    assert Emitted(ps) == [b] + Emitted(ps[1..]);
    if |t.writes| > 0 {
      var last := |t.writes| - 1;
      assert w.writes[last + 1] == t.writes[last] && ps[last + 1] == ps[1..][last];
    } else {
      assert w.writes == [b];
    }
  }

  /** A run that is followed by a write in the rest is still followed by one. */
  lemma FollowedCons(ps: seq<Piece>, t: Written)
    requires |ps| > 0 && (ps[0].Verbatim? ==> |ps| > 1)
    requires forall j :: 0 <= j < |ps| - 2 && j < |t.writes| && ps[1..][j].Verbatim? ==> j + 1 < |t.writes|
    requires |ps| > 1 ==> |t.writes| > 0
    ensures forall j :: 0 <= j < |ps| - 1 && j < |t.writes| + 1 && ps[j].Verbatim? ==> j + 1 < |t.writes| + 1
  {
    forall j | 0 < j < |ps| - 1 && j < |t.writes| + 1 && ps[j].Verbatim?
      ensures j + 1 < |t.writes| + 1
    {
      assert ps[j] == ps[1..][j - 1];
    }
  }

  /**
   * The CDATA writer corrected: a failed run write, like a failed entity
   * write, ends the call with n = 0 and its error.
   */
  function Checked(ps: seq<Piece>, total: nat, respond: Oracle, k: nat): Written
    decreases |ps|
  {
    if |ps| == 0 then Written([], total, None)
    else
      var bytes := PieceBytes(ps[0]);
      var e := Answer(respond, k, bytes);
      if e.Some? then Written([bytes], if |ps| == 1 && ps[0].Verbatim? then total else 0, e)
      else Then([bytes], Checked(ps[1..], total, respond, k + 1))
  }

  /**
   * Corrected, the writer makes exactly the writes of WriteAll over its
   * pieces and returns the first error: nothing is written after a failed
   * write, and the error returned is that write's.
   */
  lemma {:induction false} CheckedStopsAtFirstError(ps: seq<Piece>, total: nat, respond: Oracle, k: nat)
    ensures var w := Checked(ps, total, respond, k);
      var r := WriteAll(Emitted(ps), respond, k);
      w.writes == r.writes && w.err == r.err && StopsAtRefusal(r, respond, k)
    ensures Checked(ps, total, respond, k).err.None? ==> Checked(ps, total, respond, k).n == total
    decreases |ps|
  {
    WriteAllStops(Emitted(ps), respond, k);
    if |ps| > 0 {
      CheckedStopsAtFirstError(ps[1..], total, respond, k + 1);
      assert Emitted(ps)[1..] == Emitted(ps[1..]);
    }
  }

  /** When every write succeeds, the two writers agree: all pieces written, n = total, no error. */
  lemma {:induction false} AllAcceptedAgree(ps: seq<Piece>, total: nat, respond: Oracle, k: nat)
    requires AllAccepted(Emitted(ps), respond, k)
    ensures AsWritten(ps, total, respond, k) == Checked(ps, total, respond, k) == Written(Emitted(ps), total, None)
    decreases |ps|
  {
    if |ps| > 0 {
      assert Emitted(ps)[1..] == Emitted(ps[1..]);
      assert AllAccepted(Emitted(ps[1..]), respond, k + 1);
      AllAcceptedAgree(ps[1..], total, respond, k + 1);
      assert Emitted(ps) == [Emitted(ps)[0]] + Emitted(ps[1..]);
      if |ps| == 1 {
        assert Emitted(ps) == [Emitted(ps)[0]];
      }
    }
  }

  /**
   * On an inner writer that accepts everything, a Write of the CDATA
   * writer returns n = len(input) and nil, and what reaches the inner writer
   * is the escaped input.
   */
  lemma CDATAImage(input: Bytes, encodeCRLF: bool, respond: Oracle, k: nat)
    requires respond == NeverFails()
    ensures var w := AsWritten(Pieces(input, encodeCRLF, []), |input|, respond, k);
      w.n == |input| && w.err.None? && Flatten(w.writes) == Escaped(input, encodeCRLF)
  {
    var ps := Pieces(input, encodeCRLF, []);
    assert AllAccepted(Emitted(ps), respond, k);
    AllAcceptedAgree(ps, |input|, respond, k);
    PiecesImage(input, encodeCRLF, []);
    assert [] + Escaped(input, encodeCRLF) == Escaped(input, encodeCRLF);
  }

  // ---------------------------------------------------------------------
  // The CDATA writer: the loop

  /** How the loop's position in the input moves the pieces still to be written. */
  lemma PiecesStep(input: Bytes, idx: nat, goodfrom: nat, encodeCRLF: bool)
    requires goodfrom <= idx < |input|
    ensures var pending := input[goodfrom..idx];
      var b := input[idx];
      Pieces(input[idx..], encodeCRLF, pending)
        == if Encodes(b, encodeCRLF) then
             (if |pending| > 0 then [Verbatim(pending)] else []) + [Encoded(b)] + Pieces(input[idx + 1..], encodeCRLF, [])
           else Pieces(input[idx + 1..], encodeCRLF, input[goodfrom..idx + 1])
  {
    assert input[idx..][1..] == input[idx + 1..];
    assert input[goodfrom..idx] + [input[idx]] == input[goodfrom..idx + 1];
    assert input[idx + 1..idx + 1] == [];
  }

  /** Past a byte kept as it is, the pending run grows by that byte. */
  lemma PlainAdvance(input: Bytes, goodfrom: nat, idx: nat, encodeCRLF: bool)
    requires goodfrom <= idx < |input| && !Encodes(input[idx], encodeCRLF)
    ensures Pieces(input[idx..], encodeCRLF, input[goodfrom..idx]) == Pieces(input[idx + 1..], encodeCRLF, input[goodfrom..idx + 1])
  {
    PiecesStep(input, idx, goodfrom, encodeCRLF);
  }

  lemma ThenThen(a: seq<Bytes>, b: seq<Bytes>, w: Written)
    ensures Then(a, Then(b, w)) == Then(a + b, w)
  {
    assert a + (b + w.writes) == (a + b) + w.writes;
  }

  /**
   * As written, one piece written after the writes in log: only a refused
   * entity ends the call; a run's answer is not looked at unless the run
   * is the last piece.
   */
  lemma AsWrittenStep(goal: Written, log: seq<Bytes>, p: Piece, ps: seq<Piece>, total: nat, respond: Oracle, err: Option<Error>)
    requires |ps| > 0 || p.Encoded?
    requires goal == Then(log, AsWritten([p] + ps, total, respond, |log|))
    requires err == Answer(respond, |log|, PieceBytes(p))
    ensures p.Encoded? && err.Some? ==> goal == Written(log + [PieceBytes(p)], 0, err)
    ensures p.Verbatim? || err.None? ==> goal == Then(log + [PieceBytes(p)], AsWritten(ps, total, respond, |log + [PieceBytes(p)]|))
  {
    assert ([p] + ps)[1..] == ps;
    ThenThen(log, [PieceBytes(p)], AsWritten(ps, total, respond, |log| + 1));
  }

  /** Corrected, one piece written after the writes in log: a refused write ends the call. */
  lemma CheckedStep(goal: Written, log: seq<Bytes>, p: Piece, ps: seq<Piece>, total: nat, respond: Oracle, err: Option<Error>)
    requires |ps| > 0 || p.Encoded?
    requires goal == Then(log, Checked([p] + ps, total, respond, |log|))
    requires err == Answer(respond, |log|, PieceBytes(p))
    ensures err.Some? ==> goal == Written(log + [PieceBytes(p)], 0, err)
    ensures err.None? ==> goal == Then(log + [PieceBytes(p)], Checked(ps, total, respond, |log + [PieceBytes(p)]|))
  {
    assert ([p] + ps)[1..] == ps;
    ThenThen(log, [PieceBytes(p)], Checked(ps, total, respond, |log| + 1));
  }

  /** What is left at the end of the input: the pending run, if any, whose answer is returned with n = total. */
  function Final(input: Bytes, goodfrom: nat, respond: Oracle, k: nat): Written
    requires goodfrom <= |input|
  {
    if goodfrom < |input| then Written([input[goodfrom..]], |input|, Answer(respond, k, input[goodfrom..]))
    else Written([], |input|, None)
  }

  /** At the end of the input both writers write the pending run, if any, and return its answer. */
  lemma AtEnd(input: Bytes, goodfrom: nat, encodeCRLF: bool, respond: Oracle, k: nat)
    requires goodfrom <= |input|
    ensures var ps := Pieces(input[|input|..], encodeCRLF, input[goodfrom..|input|]);
      AsWritten(ps, |input|, respond, k) == Checked(ps, |input|, respond, k) == Final(input, goodfrom, respond, k)
  {
    assert input[|input|..] == [];
    assert input[goodfrom..|input|] == input[goodfrom..];
    if goodfrom < |input| {
      assert [input[goodfrom..]] + [] == [input[goodfrom..]];
    }
  }

  /** The switch that emits the entity of a replaced byte. */
  method WriteEntity(inner: Writer, b: byte) returns (err: Option<Error>)
    modifies inner`log
    ensures inner.log == old(inner.log) + [Entity(b)]
    ensures err == Answer(inner.respond, |old(inner.log)|, Entity(b))
  {
    if b == 60 {
      err := inner.Write(Lt);
    } else if b == 62 {
      err := inner.Write(Gt);
    } else {
      var num := [38, 35] + Decimal(b) + [59];
      err := inner.Write(num);
    }
  }

  /**
   * The Write method of the CDATA writer, as written: runs of plain bytes
   * are written before each replaced byte and at the end, each replaced
   * byte as its entity; only the answer to an entity write is checked
   * before the end. Returns n = 0 with the error of a refused entity.
   */
  method WriteCDATAAsWritten(inner: Writer, encodeCRLF: bool, input: Bytes) returns (n: nat, err: Option<Error>)
    modifies inner`log
    ensures var w := AsWritten(Pieces(input, encodeCRLF, []), |input|, inner.respond, |old(inner.log)|);
      inner.log == old(inner.log) + w.writes && n == w.n && err == w.err
  {
    ghost var whole := AsWritten(Pieces(input, encodeCRLF, []), |input|, inner.respond, |inner.log|);
    ghost var goal := Then(inner.log, whole);
    n, err := 0, None;
    var goodfrom: nat, idx: nat := 0, 0;
    assert input[0..] == input && input[0..0] == [];
    while idx < |input|
      invariant goodfrom <= idx <= |input| && err.None?
      invariant goal == Then(inner.log, AsWritten(Pieces(input[idx..], encodeCRLF, input[goodfrom..idx]), |input|, inner.respond, |inner.log|))
    {
      err, goodfrom := Advance(inner, encodeCRLF, input, goodfrom, idx, goal);
      if err.Some? {
        assert inner.log == old(inner.log) + whole.writes && n == whole.n && err == whole.err;
        return;
      }
      idx := idx + 1;
    }
    n := |input|;
    AtEnd(input, goodfrom, encodeCRLF, inner.respond, |inner.log|);
    err := WriteTail(inner, input, goodfrom, goal);
    assert inner.log == old(inner.log) + whole.writes && n == whole.n && err == whole.err;
  }

  /** One byte of the loop of the CDATA writer, as written: a run's answer is overwritten by the entity's. */
  method Advance(inner: Writer, encodeCRLF: bool, input: Bytes, goodfrom: nat, idx: nat, ghost goal: Written)
    returns (err: Option<Error>, next: nat)
    requires goodfrom <= idx < |input|
    requires goal == Then(inner.log, AsWritten(Pieces(input[idx..], encodeCRLF, input[goodfrom..idx]), |input|, inner.respond, |inner.log|))
    modifies inner`log
    ensures next <= idx + 1
    ensures err.Some? ==> goal == Written(inner.log, 0, err)
    ensures err.None? ==> goal == Then(inner.log, AsWritten(Pieces(input[idx + 1..], encodeCRLF, input[next..idx + 1]), |input|, inner.respond, |inner.log|))
  {
    var b := input[idx];
    next := idx + 1;
    if b == 60 || b == 62 || (b < 32 && (encodeCRLF || (b != 10 && b != 13))) {
      err := AsWrittenAtReplaced(inner, encodeCRLF, input, goodfrom, idx, goal);
      assert input[idx + 1..idx + 1] == [];
    } else {
      PlainAdvance(input, goodfrom, idx, encodeCRLF);
      err, next := None, goodfrom;
    }
  }

  /** A replaced byte in the loop of the CDATA writer, as written: the run's answer is overwritten by the entity's. */
  method AsWrittenAtReplaced(inner: Writer, encodeCRLF: bool, input: Bytes, goodfrom: nat, idx: nat, ghost goal: Written) returns (err: Option<Error>)
    requires goodfrom <= idx < |input| && Encodes(input[idx], encodeCRLF)
    requires goal == Then(inner.log, AsWritten(Pieces(input[idx..], encodeCRLF, input[goodfrom..idx]), |input|, inner.respond, |inner.log|))
    modifies inner`log
    ensures err.Some? ==> goal == Written(inner.log, 0, err)
    ensures err.None? ==> goal == Then(inner.log, AsWritten(Pieces(input[idx + 1..], encodeCRLF, []), |input|, inner.respond, |inner.log|))
  {
    var b := input[idx];
    ghost var tail := Pieces(input[idx + 1..], encodeCRLF, []);
    ghost var todo := [Encoded(b)] + tail;
    PiecesStep(input, idx, goodfrom, encodeCRLF);
    if goodfrom != idx {
      ghost var pending := input[goodfrom..idx];
      assert [Verbatim(pending)] + [Encoded(b)] + tail == [Verbatim(pending)] + todo;
      err := inner.Write(input[goodfrom..idx]); // overwritten below
      AsWrittenStep(goal, old(inner.log), Verbatim(pending), todo, |input|, inner.respond, err);
    } else {
      assert [] + [Encoded(b)] + tail == todo;
    }
    ghost var log := inner.log;
    err := WriteEntity(inner, b);
    AsWrittenStep(goal, log, Encoded(b), tail, |input|, inner.respond, err);
  }

  /** The end of a Write of the CDATA writer: the pending run, if any, is written and its answer returned. */
  method WriteTail(inner: Writer, input: Bytes, goodfrom: nat, ghost goal: Written) returns (err: Option<Error>)
    requires goodfrom <= |input|
    requires goal == Then(inner.log, Final(input, goodfrom, inner.respond, |inner.log|))
    modifies inner`log
    ensures goal == Written(inner.log, |input|, err)
  {
    if goodfrom <= |input| - 1 {
      err := inner.Write(input[goodfrom..|input|]);
      assert input[goodfrom..|input|] == input[goodfrom..];
    } else {
      err := None;
      assert inner.log + [] == inner.log;
    }
  }

  /**
   * The Write method of the CDATA writer, corrected: the answer to a run
   * written before a replaced byte is checked like the entity's, so the
   * writes and the error are those of WriteAll over the pieces
   * (CheckedStopsAtFirstError).
   */
  method WriteCDATA(inner: Writer, encodeCRLF: bool, input: Bytes) returns (n: nat, err: Option<Error>)
    modifies inner`log
    ensures var w := Checked(Pieces(input, encodeCRLF, []), |input|, inner.respond, |old(inner.log)|);
      inner.log == old(inner.log) + w.writes && n == w.n && err == w.err
  {
    ghost var whole := Checked(Pieces(input, encodeCRLF, []), |input|, inner.respond, |inner.log|);
    ghost var goal := Then(inner.log, whole);
    n, err := 0, None;
    var goodfrom: nat, idx: nat := 0, 0;
    assert input[0..] == input && input[0..0] == [];
    while idx < |input|
      invariant goodfrom <= idx <= |input| && err.None?
      invariant goal == Then(inner.log, Checked(Pieces(input[idx..], encodeCRLF, input[goodfrom..idx]), |input|, inner.respond, |inner.log|))
    {
      err, goodfrom := CheckedAdvance(inner, encodeCRLF, input, goodfrom, idx, goal);
      if err.Some? {
        assert inner.log == old(inner.log) + whole.writes && n == whole.n && err == whole.err;
        return;
      }
      idx := idx + 1;
    }
    n := |input|;
    AtEnd(input, goodfrom, encodeCRLF, inner.respond, |inner.log|);
    err := WriteTail(inner, input, goodfrom, goal);
    assert inner.log == old(inner.log) + whole.writes && n == whole.n && err == whole.err;
  }

  /** One byte of the loop of the corrected CDATA writer: a refused run ends the call. */
  method CheckedAdvance(inner: Writer, encodeCRLF: bool, input: Bytes, goodfrom: nat, idx: nat, ghost goal: Written)
    returns (err: Option<Error>, next: nat)
    requires goodfrom <= idx < |input|
    requires goal == Then(inner.log, Checked(Pieces(input[idx..], encodeCRLF, input[goodfrom..idx]), |input|, inner.respond, |inner.log|))
    modifies inner`log
    ensures next <= idx + 1
    ensures err.Some? ==> goal == Written(inner.log, 0, err)
    ensures err.None? ==> goal == Then(inner.log, Checked(Pieces(input[idx + 1..], encodeCRLF, input[next..idx + 1]), |input|, inner.respond, |inner.log|))
  {
    var b := input[idx];
    next := idx + 1;
    if b == 60 || b == 62 || (b < 32 && (encodeCRLF || (b != 10 && b != 13))) {
      err := CheckedAtReplaced(inner, encodeCRLF, input, goodfrom, idx, goal);
      assert input[idx + 1..idx + 1] == [];
    } else {
      PlainAdvance(input, goodfrom, idx, encodeCRLF);
      err, next := None, goodfrom;
    }
  }

  /** A replaced byte in the loop of the CDATA writer, corrected: a refused run ends the call. */
  method CheckedAtReplaced(inner: Writer, encodeCRLF: bool, input: Bytes, goodfrom: nat, idx: nat, ghost goal: Written) returns (err: Option<Error>)
    requires goodfrom <= idx < |input| && Encodes(input[idx], encodeCRLF)
    requires goal == Then(inner.log, Checked(Pieces(input[idx..], encodeCRLF, input[goodfrom..idx]), |input|, inner.respond, |inner.log|))
    modifies inner`log
    ensures err.Some? ==> goal == Written(inner.log, 0, err)
    ensures err.None? ==> goal == Then(inner.log, Checked(Pieces(input[idx + 1..], encodeCRLF, []), |input|, inner.respond, |inner.log|))
  {
    var b := input[idx];
    ghost var tail := Pieces(input[idx + 1..], encodeCRLF, []);
    ghost var todo := [Encoded(b)] + tail;
    PiecesStep(input, idx, goodfrom, encodeCRLF);
    if goodfrom != idx {
      ghost var pending := input[goodfrom..idx];
      assert [Verbatim(pending)] + [Encoded(b)] + tail == [Verbatim(pending)] + todo;
      err := inner.Write(input[goodfrom..idx]);
      CheckedStep(goal, old(inner.log), Verbatim(pending), todo, |input|, inner.respond, err);
      if err.Some? {
        return;
      }
    } else {
      assert [] + [Encoded(b)] + tail == todo;
    }
    ghost var log := inner.log;
    err := WriteEntity(inner, b);
    CheckedStep(goal, log, Encoded(b), tail, |input|, inner.respond, err);
  }

  /** An inner writer that refuses its first write with e and accepts the others. */
  function FailsFirst(e: Error): (respond: Oracle)
    ensures forall p :: Answer(respond, 0, p) == Some(e)
    ensures forall k: nat, p :: k > 0 ==> Answer(respond, k, p) == None
  {
    (k: nat, p: Bytes) => if k == 0 then Some(e) else None
  }

  /**
   * The error of a run written before a replaced byte is lost: writing
   * "a<" through an inner writer that refuses only the first write, the
   * run "a" is refused, yet the Write call returns n = 2 and a nil error,
   * having gone on to write "&lt;". Corrected, the call stops at the
   * refused run and returns n = 0 with its error.
   */
  lemma LostRunError(e: Error)
    ensures var input: Bytes := [97, 60];
      && Answer(FailsFirst(e), 0, [97]) == Some(e)
      && AsWritten(Pieces(input, true, []), |input|, FailsFirst(e), 0) == Written([[97], Lt], 2, None)
      && Checked(Pieces(input, true, []), |input|, FailsFirst(e), 0) == Written([[97]], 0, Some(e))
  {
    var input: Bytes := [97, 60];
    assert input[1..] == [60] && input[1..][1..] == [];
    assert !Encodes(97, true) && Encodes(60, true);
    assert [] + [input[0]] == [97];
    assert Pieces(input, true, []) == Pieces([60], true, [97]);
    assert Pieces([60], true, [97]) == [Verbatim([97])] + [Encoded(60)] + Pieces([], true, []);
    assert Pieces(input, true, []) == [Verbatim([97]), Encoded(60)];
    var ps := [Verbatim([97]), Encoded(60)];
    assert ps[1..] == [Encoded(60)] && ps[1..][1..] == [];
  }
}
