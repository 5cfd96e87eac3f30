/**
 * The vocabulary shared by the whole model (bytes, options, the dynamic
 * argument values) and the declarations of types.go: the NotGiven
 * sentinel, the error taxonomy and the texts its Error() methods build.
 */
module Types {

  /** Go's byte. */
  type byte = b: int | 0 <= b < 256

  /** Go's []byte, and Go's string too: a Go string is a sequence of bytes. */
  type Bytes = seq<byte>

  datatype Option<+T> = None | Some(value: T)

  const BACKSLASH: byte := 92
  const PERCENT: byte := 37
  const COLON: byte := 58
  const SEMICOLON: byte := 59

  /** The bytes of a literal written in ASCII. */
  function Ascii(s: string): (r: Bytes)
    ensures |r| == |s|
    ensures forall i :: 0 <= i < |s| ==> r[i] == (s[i] as int) % 256
  {
    seq(|s|, i requires 0 <= i < |s| => ((s[i] as int) % 256) as byte)
  }

  /** The concatenation of a sequence of byte slices. */
  function Flatten(chunks: seq<Bytes>): (r: Bytes)
    ensures chunks == [] ==> r == []
  {
    if |chunks| == 0 then [] else chunks[0] + Flatten(chunks[1..])
  }

  lemma {:induction false} FlattenAppend(a: seq<Bytes>, b: seq<Bytes>)
    ensures Flatten(a + b) == Flatten(a) + Flatten(b)
  {
    if a == [] {
      assert a + b == b;
    } else {
      assert (a + b)[1..] == a[1..] + b;
      FlattenAppend(a[1..], b);
    }
  }

  /**
   * A value passed as an interpolation argument (Go's interface{}), closed
   * over the dynamic types the core tells apart.
   */
  datatype Value =
    | Nil                          // the nil interface value
    | NotGiven                     // NotGivenType{}, the "no argument" token
    | ByteSlice(bytes: Bytes)      // a []byte
    | Text(text: Bytes)            // a string
    | Reader(blocks: seq<Bytes>)   // an io.Reader, as the blocks io.Copy moves out of it
    | Other(tag: nat)              // a value of any other dynamic type

  /** NotGiven is a value of its own, told apart from nil. */
  lemma NotGivenIsNotNil()
    ensures NotGiven != Nil && NotGiven.NotGiven? && !Nil.NotGiven?
  {
  }

  /** Every error value the core creates or passes through. */
  datatype Error =
    | ErrNotGiven
    | ErrIncompleteFormatString
    | ErrNoDefaultHandling
    | ErrRawUnknownType                                  // declared in strinterp.go and stresc.go
    | ErrAlreadyExists(format: Bytes)
    | ErrUnknownArguments(arguments: Bytes, errorStr: Bytes)
    | ErrUnknownFormatter(formatter: Bytes)
    | ErrUnknownEncoder(encoder: Bytes)
    | EOF                                                // io.EOF
    | WriterError(text: Bytes)                           // any other error of a writer

  const AlreadyExistsPrefix: Bytes := Ascii("The format string ")
  const AlreadyExistsSuffix: Bytes := Ascii(" is already declared")
  const UnknownArgumentsPrefix: Bytes := Ascii("The arguments \"")
  const UnknownArgumentsMiddle: Bytes := Ascii("\" were invalid: ")
  const UnknownFormatterPrefix: Bytes := Ascii("format string specified unknown formatter ")
  const UnknownEncoderPrefix: Bytes := Ascii("format string specified unknown encoder ")

  /**
   * The text of e.Error(): as types.go spells it for the errors types.go
   * declares; ErrRawUnknownType takes the text strinterp.go gives it, io.EOF
   * the text of Go's io package, and any other writer error its own text.
   */
  function Message(e: Error): Bytes
  {
    match e
    case ErrNotGiven => Ascii("value not given")
    case ErrIncompleteFormatString => Ascii("incomplete format string, no semi-colon found")
    case ErrNoDefaultHandling => Ascii("no default encoder handling for type")
    case ErrRawUnknownType => Ascii("type is unknown to the raw encoder")
    case ErrAlreadyExists(format) => AlreadyExistsPrefix + format + AlreadyExistsSuffix
    case ErrUnknownArguments(arguments, errorStr) =>
      UnknownArgumentsPrefix + arguments + UnknownArgumentsMiddle + errorStr
    case ErrUnknownFormatter(formatter) => UnknownFormatterPrefix + formatter
    case ErrUnknownEncoder(encoder) => UnknownEncoderPrefix + encoder
    case EOF => Ascii("EOF")
    case WriterError(text) => text
  }

  /** A fixed prefix and suffix around a name determine the name. */
  lemma {:induction false} FramedInjective(p: Bytes, a: Bytes, b: Bytes, q: Bytes)
    requires p + a + q == p + b + q
    ensures a == b
  {
    var m := p + a + q;
    assert |a| == |b|;
    assert a == m[|p|..|p| + |a|];
    assert b == (p + b + q)[|p|..|p| + |b|];
  }

  /**
   * ErrAlreadyExists(name).Error() is the name framed by the two fixed texts,
   * so different names always give different messages.
   */
  lemma {:induction false} AlreadyExistsMessage(a: Bytes, b: Bytes)
    ensures Message(ErrAlreadyExists(a)) == AlreadyExistsPrefix + a + AlreadyExistsSuffix
    ensures Message(ErrAlreadyExists(a)) == Message(ErrAlreadyExists(b)) <==> a == b
  {
    if Message(ErrAlreadyExists(a)) == Message(ErrAlreadyExists(b)) {
      FramedInjective(AlreadyExistsPrefix, a, b, AlreadyExistsSuffix);
    }
  }

  /**
   * The unknown-formatter and unknown-encoder messages are fixed prefixes
   * followed by the name; the name is recoverable, and the two kinds never
   * produce the same text.
   */
  lemma {:induction false} UnknownNameMessages(a: Bytes, b: Bytes)
    ensures Message(ErrUnknownFormatter(a)) == UnknownFormatterPrefix + a
    ensures Message(ErrUnknownEncoder(a)) == UnknownEncoderPrefix + a
    ensures Message(ErrUnknownFormatter(a)) == Message(ErrUnknownFormatter(b)) <==> a == b
    ensures Message(ErrUnknownEncoder(a)) == Message(ErrUnknownEncoder(b)) <==> a == b
    ensures Message(ErrUnknownFormatter(a)) != Message(ErrUnknownEncoder(b))
  {
    if Message(ErrUnknownFormatter(a)) == Message(ErrUnknownFormatter(b)) {
      FramedInjective(UnknownFormatterPrefix, a, b, []);
    }
    if Message(ErrUnknownEncoder(a)) == Message(ErrUnknownEncoder(b)) {
      FramedInjective(UnknownEncoderPrefix, a, b, []);
    }
    PrefixesPart();
    SamePrefixByte(UnknownFormatterPrefix, a, Message(ErrUnknownFormatter(a)));
    SamePrefixByte(UnknownEncoderPrefix, b, Message(ErrUnknownEncoder(b)));
  }

  /** "...unknown formatter" and "...unknown encoder" part at byte 32: 'f' against 'e'. */
  lemma PrefixesPart()
    ensures |UnknownFormatterPrefix| > 32 && |UnknownEncoderPrefix| > 32
    ensures UnknownFormatterPrefix[32] == 'f' as int && UnknownEncoderPrefix[32] == 'e' as int
  {
  }

  lemma SamePrefixByte(p: Bytes, a: Bytes, m: Bytes)
    requires m == p + a && |p| > 32
    ensures m[32] == p[32]
  {
  }

  /**
   * ErrUnknownArguments.Error() quotes the argument bytes and then gives the
   * reason.
   */
  lemma {:induction false} UnknownArgumentsMessage(arguments: Bytes, reason: Bytes)
    ensures var m := Message(ErrUnknownArguments(arguments, reason));
      && m[..|UnknownArgumentsPrefix|] == UnknownArgumentsPrefix
      && m[|UnknownArgumentsPrefix| - 1] == '"' as int
      && m[|UnknownArgumentsPrefix|..|UnknownArgumentsPrefix| + |arguments|] == arguments
      && m[|UnknownArgumentsPrefix| + |arguments|] == '"' as int
      && m[|m| - |reason|..] == reason
  {
    var m := Message(ErrUnknownArguments(arguments, reason));
    assert m == UnknownArgumentsPrefix + arguments + UnknownArgumentsMiddle + reason;
  }

  /** ErrNotGiven, ErrIncompleteFormatString and ErrNoDefaultHandling are three different errors with three different texts. */
  lemma SentinelErrorsDistinct()
    ensures ErrNotGiven != ErrIncompleteFormatString && ErrNotGiven != ErrNoDefaultHandling
      && ErrIncompleteFormatString != ErrNoDefaultHandling
    ensures Message(ErrNotGiven) != Message(ErrIncompleteFormatString)
    ensures Message(ErrNotGiven) != Message(ErrNoDefaultHandling)
    ensures Message(ErrIncompleteFormatString) != Message(ErrNoDefaultHandling)
  {
    // the three texts have 15, 45 and 36 bytes
    assert |Message(ErrNotGiven)| == 15;
    assert |Message(ErrIncompleteFormatString)| == 45;
    assert |Message(ErrNoDefaultHandling)| == 36;
  }
}
