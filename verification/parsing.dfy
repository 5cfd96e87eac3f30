/**
 * parsing.go: the escape-aware scanner, the split built on it and the
 * lookup of an encoder by the name in front of the first colon. The pure
 * description of the scanner, Scan, is the specification that all three
 * copies of readBytesUntilUnescDelim (here, in strinterp.go and in
 * stresc.go) are proved against.
 */
module Parsing {
  import opened Types
  import opened GoRuntime

  /**
   * What one scan yields: the unescaped bytes read, whether the delimiter
   * was reached (the Go function then returns a nil error, otherwise
   * io.EOF), and the bytes left unread.
   */
  datatype Scanned = Scanned(bytes: Bytes, found: bool, rest: Bytes)

  /**
   * Reading s up to the first delimiter not preceded by a backslash: each
   * backslash is dropped and the byte after it kept literally, a lone final
   * backslash is dropped, and the delimiter is consumed but not returned.
   */
  function Scan(s: Bytes, delim: byte): (r: Scanned)
    ensures |r.bytes| <= |s| && |r.rest| <= |s|
    ensures r.found ==> |r.rest| < |s|
    ensures !r.found ==> r.rest == []
    decreases |s|
  {
    if |s| == 0 then Scanned([], false, [])
    else if s[0] == BACKSLASH then
      if |s| == 1 then Scanned([], false, [])
      else
        var r := Scan(s[2..], delim);
        Scanned([s[1]] + r.bytes, r.found, r.rest)
    else if s[0] == delim then Scanned([], true, s[1..])
    else
      var r := Scan(s[1..], delim);
      Scanned([s[0]] + r.bytes, r.found, r.rest)
  }

  /**
   * The inverse of Scan: a backslash in front of every backslash and every
   * delimiter.
   */
  function Escape(b: Bytes, delim: byte): (e: Bytes)
    ensures |e| >= |b|
    decreases |b|
  {
    if b == [] then []
    else (if b[0] == BACKSLASH || b[0] == delim then [BACKSLASH, b[0]] else [b[0]]) + Escape(b[1..], delim)
  }

  /**
   * Round trip: scanning an escaped text followed by the delimiter gives
   * back the text and leaves exactly what follows the delimiter.
   */
  lemma ScanEscaped(b: Bytes, delim: byte, tail: Bytes)
    requires delim != BACKSLASH
    ensures Scan(Escape(b, delim) + [delim] + tail, delim) == Scanned(b, true, tail)
  {
    ScanEscapedPrefix(b, delim, [delim] + tail);
    assert Escape(b, delim) + [delim] + tail == Escape(b, delim) + ([delim] + tail);
    assert ([delim] + tail)[1..] == tail;
    assert b + [] == b;
  }

  /**
   * Round trip up to the end of the input: an escaped text, possibly
   * followed by one lone backslash (which is dropped), scans back to the
   * text with io.EOF.
   */
  lemma ScanEscapedToEnd(b: Bytes, delim: byte, loneBackslash: bool)
    ensures var s := Escape(b, delim) + (if loneBackslash then [BACKSLASH] else []);
      Scan(s, delim) == Scanned(b, false, [])
  {
    var lone: Bytes := if loneBackslash then [BACKSLASH] else [];
    ScanEscapedPrefix(b, delim, lone);
    assert b + [] == b;
  }

  /**
   * Scanning an escaped text followed by anything: the text comes back
   * unescaped, and the scan goes on into what follows as if it started there.
   */
  lemma {:induction false} ScanEscapedPrefix(b: Bytes, delim: byte, tail: Bytes)
    ensures var r := Scan(tail, delim);
      Scan(Escape(b, delim) + tail, delim) == Scanned(b + r.bytes, r.found, r.rest)
    decreases |b|
  {
    if b == [] {
      assert Escape(b, delim) + tail == tail;
    } else {
      ScanEscapedPrefix(b[1..], delim, tail);
      var x := Escape(b[1..], delim) + tail;
      EscapeHead(b, delim, tail);
      ScanHead(Escape(b, delim) + tail, delim, b[0], x);
      Compose(Scan(Escape(b, delim) + tail, delim), b[0], Scan(x, delim), b[1..], Scan(tail, delim));
      assert [b[0]] + b[1..] == b;
    }
  }

  /** Escaping one byte more: the byte, escaped when it must be, in front of the rest. */
  lemma EscapeHead(b: Bytes, delim: byte, tail: Bytes)
    requires |b| > 0
    ensures (b[0] == BACKSLASH || b[0] == delim) ==> Escape(b, delim) + tail == [BACKSLASH, b[0]] + (Escape(b[1..], delim) + tail)
    ensures !(b[0] == BACKSLASH || b[0] == delim) ==> Escape(b, delim) + tail == [b[0]] + (Escape(b[1..], delim) + tail)
  {
    var e := Escape(b[1..], delim);
    assert [BACKSLASH, b[0]] + e + tail == [BACKSLASH, b[0]] + (e + tail);
    assert [b[0]] + e + tail == [b[0]] + (e + tail);
  }

  /** Scanning past one escaped (or plain) byte c: c is read, and the scan goes on with x. */
  lemma ScanHead(s: Bytes, delim: byte, c: byte, x: Bytes)
    requires (c == BACKSLASH || c == delim) ==> s == [BACKSLASH, c] + x
    requires !(c == BACKSLASH || c == delim) ==> s == [c] + x
    ensures Scan(s, delim) == Scanned([c] + Scan(x, delim).bytes, Scan(x, delim).found, Scan(x, delim).rest)
  {
    if c == BACKSLASH || c == delim {
      assert s[0] == BACKSLASH && s[1] == c && s[2..] == x;
    } else {
      assert s[0] == c && s[1..] == x;
    }
  }

  lemma Compose(whole: Scanned, c: byte, inner: Scanned, read: Bytes, t: Scanned)
    requires whole == Scanned([c] + inner.bytes, inner.found, inner.rest)
    requires inner == Scanned(read + t.bytes, t.found, t.rest)
    ensures whole == Scanned(([c] + read) + t.bytes, t.found, t.rest)
  {
    assert [c] + (read + t.bytes) == ([c] + read) + t.bytes;
  }

  /** A text with neither backslashes nor delimiters is its own escaping. */
  lemma {:induction false} EscapePlain(b: Bytes, delim: byte)
    requires BACKSLASH !in b && delim !in b
    ensures Escape(b, delim) == b
    decreases |b|
  {
    if b != [] {
      assert b[0] in b;
      assert forall x :: x in b[1..] ==> x in b;
      EscapePlain(b[1..], delim);
    }
  }

  /**
   * On input without backslashes the scanner returns everything before
   * the first delimiter and leaves everything after it.
   */
  lemma ScanPlain(a: Bytes, delim: byte, tail: Bytes)
    requires BACKSLASH !in a && delim !in a && delim != BACKSLASH
    ensures Scan(a + [delim] + tail, delim) == Scanned(a, true, tail)
    ensures Scan(a, delim) == Scanned(a, false, [])
  {
    EscapePlain(a, delim);
    ScanEscaped(a, delim, tail);
    ScanEscapedToEnd(a, delim, false);
    assert a + [] == a;
  }

  /** The effect of one byte-level step of the scanner loop on what remains to be scanned. */
  lemma ScanStep(s: Bytes, delim: byte)
    requires s != []
    ensures s[0] == BACKSLASH && |s| == 1 ==> Scan(s, delim) == Scanned([], false, [])
    ensures s[0] == BACKSLASH && |s| > 1 ==>
      var r := Scan(s[2..], delim); Scan(s, delim) == Scanned([s[1]] + r.bytes, r.found, r.rest)
    ensures s[0] != BACKSLASH && s[0] == delim ==> Scan(s, delim) == Scanned([], true, s[1..])
    ensures s[0] != BACKSLASH && s[0] != delim ==>
      var r := Scan(s[1..], delim); Scan(s, delim) == Scanned([s[0]] + r.bytes, r.found, r.rest)
  {
  }

  /**
   * readBytesUntilUnescDelim (parsing.go): drains buf up to and including
   * the first unescaped delimiter; err is nil when the delimiter was found
   * and io.EOF when the input ran out first.
   */
  method ReadBytesUntilUnescDelim(buf: ByteBuffer, delim: byte) returns (result: Bytes, err: Option<Error>)
    modifies buf
    ensures var r := Scan(old(buf.unread), delim);
      && result == r.bytes && buf.unread == r.rest
      && (err.None? <==> r.found) && (err.Some? ==> err.value == EOF)
  {
    ghost var goal := Scan(buf.unread, delim);
    result := [];
    while true
      invariant var r := Scan(buf.unread, delim);
        goal == Scanned(result + r.bytes, r.found, r.rest)
      decreases |buf.unread|
    {
      ghost var s := buf.unread;
      var b, e := buf.ReadByte();
      if e.Some? {
        assert result + [] == result;
        return result, e;
      }
      ScanStep(s, delim);
      if b == BACKSLASH { // the byte after a backslash is taken blindly
        b, e := buf.ReadByte();
        if e.Some? {
          assert result + [] == result;
          return result, e;
        }
        assert buf.unread == s[2..];
        TakeByte(goal, result, b, Scan(s, delim), Scan(buf.unread, delim));
        result := result + [b];
      } else if b == delim {
        assert result + [] == result;
        return result, None;
      } else {
        TakeByte(goal, result, b, Scan(s, delim), Scan(buf.unread, delim));
        result := result + [b];
      }
    }
  }

  /** The scanner loop moves one byte from what is left to scan to what it has read. */
  lemma TakeByte(goal: Scanned, result: Bytes, b: byte, r: Scanned, next: Scanned)
    requires goal == Scanned(result + r.bytes, r.found, r.rest)
    requires r == Scanned([b] + next.bytes, next.found, next.rest)
    ensures goal == Scanned((result + [b]) + next.bytes, next.found, next.rest)
  {
    assert result + ([b] + next.bytes) == (result + [b]) + next.bytes;
  }

  /**
   * What splitHonoringEscaping returns: the successive scans up to and
   * including the one that reaches the end of the input.
   */
  function Split(s: Bytes, delim: byte): (chunks: seq<Bytes>)
    ensures |chunks| >= 1
    decreases |s|
  {
    var r := Scan(s, delim);
    if r.found then [r.bytes] + Split(r.rest, delim) else [r.bytes]
  }

  /** The number of delimiters in s that are not escaped by a backslash. */
  function CountUnescaped(s: Bytes, delim: byte): nat
    decreases |s|
  {
    if s == [] then 0
    else if s[0] == BACKSLASH then (if |s| == 1 then 0 else CountUnescaped(s[2..], delim))
    else (if s[0] == delim then 1 else 0) + CountUnescaped(s[1..], delim)
  }

  /** A scan consumes exactly one unescaped delimiter when it finds one, and sees none otherwise. */
  lemma {:induction false} ScanCount(s: Bytes, delim: byte)
    ensures var r := Scan(s, delim);
      CountUnescaped(s, delim) == if r.found then 1 + CountUnescaped(r.rest, delim) else 0
    decreases |s|
  {
    if s != [] {
      if s[0] == BACKSLASH {
        if |s| > 1 {
          ScanCount(s[2..], delim);
        }
      } else if s[0] != delim {
        ScanCount(s[1..], delim);
      }
    }
  }

  /** splitHonoringEscaping yields one chunk more than there are unescaped delimiters. */
  lemma {:induction false} SplitCount(s: Bytes, delim: byte)
    ensures |Split(s, delim)| == 1 + CountUnescaped(s, delim)
    decreases |s|
  {
    ScanCount(s, delim);
    var r := Scan(s, delim);
    if r.found {
      SplitCount(r.rest, delim);
    }
  }

  /** Joining escaped chunks with the delimiter: the inverse of Split. */
  function JoinEscaped(parts: seq<Bytes>, delim: byte): Bytes
    requires |parts| >= 1
    decreases |parts|
  {
    if |parts| == 1 then Escape(parts[0], delim)
    else Escape(parts[0], delim) + [delim] + JoinEscaped(parts[1..], delim)
  }

  /**
   * Split gives back, in order, the chunks that were escaped and joined,
   * empty chunks included (a trailing delimiter yields a final empty chunk).
   */
  lemma {:induction false} SplitJoin(parts: seq<Bytes>, delim: byte)
    requires |parts| >= 1 && delim != BACKSLASH
    ensures Split(JoinEscaped(parts, delim), delim) == parts
    decreases |parts|
  {
    if |parts| == 1 {
      ScanEscapedToEnd(parts[0], delim, false);
      assert Escape(parts[0], delim) + [] == Escape(parts[0], delim);
    } else {
      ScanEscaped(parts[0], delim, JoinEscaped(parts[1..], delim));
      SplitJoin(parts[1..], delim);
      assert parts == [parts[0]] + parts[1..];
    }
  }

  /**
   * splitHonoringEscaping (parsing.go): scans buf again and again, keeping
   * every chunk, until a scan reports io.EOF.
   */
  method SplitHonoringEscaping(buf: ByteBuffer, delim: byte) returns (result: seq<Bytes>)
    modifies buf
    ensures result == Split(old(buf.unread), delim) && buf.unread == []
  {
    ghost var goal := Split(buf.unread, delim);
    result := [];
    var err: Option<Error> := None;
    while err == None
      invariant err.None? ==> goal == result + Split(buf.unread, delim)
      invariant err.Some? ==> goal == result && err == Some(EOF) && buf.unread == []
      decreases |buf.unread| + (if err.None? then 1 else 0)
    {
      ghost var s := buf.unread;
      var b;
      b, err := ReadBytesUntilUnescDelim(buf, delim);
      if err == None || err == Some(EOF) {
        result := result + [b];
      }
      if err.None? {
        assert Split(s, delim) == [b] + Split(buf.unread, delim);
      }
    }
  }

  /** An encoder as it sits in the registry: nil, or a handler. */
  datatype Encoder = NilEncoder | EncoderFunc(id: nat)

  /** parseEncoder's three results: the encoder, its arguments and the error. */
  datatype ParsedEncoder = ParsedEncoder(encoder: Encoder, args: Option<Bytes>, err: Option<Error>)

  /**
   * parseEncoder (parsing.go): the name is everything before the first
   * colon; the arguments are nil without a colon and otherwise the possibly
   * empty remainder, further colons included; an unregistered (or nil)
   * name gives ErrUnknownEncoder(name) with nil encoder and nil arguments.
   */
  function ParseEncoder(encoders: map<Bytes, Encoder>, formatSpec: Bytes): (r: ParsedEncoder)
    ensures var name := SplitFirst(formatSpec, COLON).head;
      && COLON !in name
      && (r.err.None? <==> name in encoders && encoders[name] != NilEncoder)
      && (r.err.Some? ==> r == ParsedEncoder(NilEncoder, None, Some(ErrUnknownEncoder(name))))
      && (r.err.None? ==> r.encoder == encoders[name] && r.encoder != NilEncoder)
      && (r.err.None? ==> (r.args.None? <==> COLON !in formatSpec))
      && (r.err.None? && r.args.Some? ==> formatSpec == name + [COLON] + r.args.value)
  {
    SplitFirstSpec(formatSpec, COLON);
    var halves := SplitFirst(formatSpec, COLON);
    var format, formatArgs := halves.head, halves.tail;
    if format !in encoders || encoders[format] == NilEncoder then
      ParsedEncoder(NilEncoder, None, Some(ErrUnknownEncoder(format)))
    else
      ParsedEncoder(encoders[format], formatArgs, None)
  }
}
