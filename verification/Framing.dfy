/** `Content-Length` framing of JSON-RPC messages (packages/lsp-shared/framing.js).

    `FrameDecoder` is the class of the source.  Its `push` is specified by the
    function `PushChunk` on decoder states, whose laws are in FramingLaws.dfy. */
module Framing {
  import opened Wrappers
  import opened Utf8

  const MAX_FRAME_BYTES: nat := 1024 * 1024
  const MAX_HEADER_BYTES: nat := 8 * 1024
  const MAX_SAFE_INTEGER: nat := 0x1F_FFFF_FFFF_FFFF
  const HEADER_END: seq<Byte> := [13, 10, 13, 10]
  const CRLF: seq<Byte> := [13, 10]
  const COLON: seq<Byte> := [58]

  datatype FrameError =
    | Codec(error: CodecError)
    | NonAsciiHeader
    | MalformedHeaderLine
    | BadContentLength
    | BadContentType
    | UnsupportedHeader(name: Text)
    | MissingContentLength
    | FrameTooLarge
    | HeaderTooLarge
    | InvalidJson
    | InvalidMessage
    | TruncatedFrame

  /** A JavaScript value as framing sees it: a JSON-RPC message is an object. */
  datatype Value<+M> = NonObject | Object(message: M)

  /** `JSON.parse` and `JSON.stringify`; `None` is a parse error. */
  datatype JsonCodec<!M(!new)> = JsonCodec(parse: Text -> Option<Value<M>>, stringify: M -> Text)
  {
    /** Parsing undoes printing, printed text is well-formed, and the empty
        text is not JSON. */
    ghost predicate Lawful() {
      && (forall m: M :: parse(stringify(m)) == Some(Object(m)) && WellFormed(stringify(m)))
      && parse([]) == None
    }
  }

  datatype Limits<!M(!new)> = Limits(maxFrameBytes: nat, maxHeaderBytes: nat, json: JsonCodec<M>)

  // -------------------------------------------------------------- byte search

  predicate OccursAt(haystack: seq<int>, needle: seq<int>, i: int) {
    0 <= i && i + |needle| <= |haystack| && haystack[i..i + |needle|] == needle
  }

  /** The first position of `needle` from `start` on, or -1. */
  function FirstFrom(haystack: seq<int>, needle: seq<int>, start: nat): (index: int)
    ensures index == -1 || (start <= index && OccursAt(haystack, needle, index))
    ensures forall j | start <= j && (index == -1 || j < index) :: !OccursAt(haystack, needle, j)
    decreases |haystack| - start
  {
    if start + |needle| > |haystack| then -1
    else if OccursAt(haystack, needle, start) then start
    else FirstFrom(haystack, needle, start + 1)
  }

  /** The first position of `needle`, or -1. */
  function FirstIndex(haystack: seq<int>, needle: seq<int>): (index: int)
    ensures index == -1 || OccursAt(haystack, needle, index)
    ensures forall j | 0 <= j && (index == -1 || j < index) :: !OccursAt(haystack, needle, j)
  {
    FirstFrom(haystack, needle, 0)
  }

  method IndexOf(haystack: seq<Byte>, needle: seq<Byte>) returns (index: int)
    ensures index == FirstIndex(haystack, needle)
  {
    var i := 0;
    label outer: while i <= |haystack| - |needle|
      invariant 0 <= i
      invariant forall k | 0 <= k < i :: !OccursAt(haystack, needle, k)
    {
      var j := 0;
      while j < |needle|
        invariant 0 <= j <= |needle|
        invariant forall k | 0 <= k < j :: haystack[i + k] == needle[k]
      {
        if haystack[i + j] != needle[j] {
          assert !OccursAt(haystack, needle, i) by {
            assert haystack[i..i + |needle|][j] != needle[j];
          }
          i := i + 1;
          continue outer;
        }
        j := j + 1;
      }
      assert OccursAt(haystack, needle, i);
      return i;
    }
    return -1;
  }

  // ------------------------------------------------------------------ headers

  /** `text.split("\r\n")`. */
  function SplitLines(text: Text): (lines: seq<Text>)
    ensures lines != []
  {
    var cut := FirstIndex(text, CRLF);
    if cut < 0 then [text] else [text[..cut]] + SplitLines(text[cut + 2..])
  }

  /** White space that `trim` and `\s` recognise among ASCII characters. */
  predicate IsSpace(u: CodeUnit) {
    9 <= u <= 13 || u == 32
  }

  function TrimStart(text: Text): (r: Text)
    ensures |r| <= |text|
  {
    if text != [] && IsSpace(text[0]) then TrimStart(text[1..]) else text
  }

  function TrimEnd(text: Text): (r: Text)
    ensures |r| <= |text|
  {
    if text != [] && IsSpace(text[|text| - 1]) then TrimEnd(text[..|text| - 1]) else text
  }

  function Trim(text: Text): Text {
    TrimEnd(TrimStart(text))
  }

  function LowerUnit(u: CodeUnit): CodeUnit {
    if 65 <= u <= 90 then u + 32 else u
  }

  /** `toLowerCase` on ASCII text. */
  function Lower(text: Text): Text {
    seq(|text|, i requires 0 <= i < |text| => LowerUnit(text[i]))
  }

  // "content-length", "content-type", "application/vscode-jsonrpc" and "charset=utf-8".
  const CONTENT_LENGTH: Text := [99, 111, 110, 116, 101, 110, 116, 45, 108, 101, 110, 103, 116, 104]
  const CONTENT_TYPE: Text := [99, 111, 110, 116, 101, 110, 116, 45, 116, 121, 112, 101]
  const JSON_RPC_TYPE: Text := [97, 112, 112, 108, 105, 99, 97, 116, 105, 111, 110, 47, 118, 115, 99, 111, 100, 101,
                                45, 106, 115, 111, 110, 114, 112, 99]
  const CHARSET_UTF8: Text := [99, 104, 97, 114, 115, 101, 116, 61, 117, 116, 102, 45, 56]

  predicate IsDigit(u: CodeUnit) {
    48 <= u <= 57
  }

  /** The pattern `^(0|[1-9][0-9]*)$`. */
  predicate IsDecimal(text: Text) {
    || text == [48]
    || (text != [] && text[0] != 48 && forall i | 0 <= i < |text| :: IsDigit(text[i]))
  }

  function DecimalValue(text: Text): nat
    requires forall i | 0 <= i < |text| :: IsDigit(text[i])
  {
    if text == [] then 0
    else
      assert IsDigit(text[|text| - 1]);
      DecimalValue(text[..|text| - 1]) * 10 + (text[|text| - 1] as int - 48)
  }

  /** The case-insensitive pattern
      `^application/vscode-jsonrpc(?:\s*;\s*charset=utf-8)?$`. */
  predicate IsSupportedContentType(text: Text) {
    var value := Lower(text);
    JSON_RPC_TYPE <= value &&
    var suffix := value[|JSON_RPC_TYPE|..];
    || suffix == []
    || (var parameter := TrimStart(suffix);
        parameter != [] && parameter[0] == 59 && TrimStart(parameter[1..]) == CHARSET_UTF8)
  }

  datatype HeaderState = HeaderState(length: Option<nat>, contentTypeSeen: bool)

  datatype HeaderLine = ContentLength(value: Text) | ContentType(value: Text) | Unsupported(name: Text) | Malformed

  function Classify(line: Text): HeaderLine {
    var separator := FirstIndex(line, COLON);
    if separator < 1 then Malformed
    else
      var name := Lower(Trim(line[..separator]));
      var value := Trim(line[separator + 1..]);
      if name == CONTENT_LENGTH then ContentLength(value)
      else if name == CONTENT_TYPE then ContentType(value)
      else Unsupported(name)
  }

  function AbsorbLine(state: HeaderState, line: Text): Result<HeaderState, FrameError> {
    match Classify(line)
    case Malformed => Err(MalformedHeaderLine)
    case ContentLength(value) =>
      if state.length.Some? || !IsDecimal(value) then Err(BadContentLength)
      else Ok(state.(length := Some(DecimalValue(value))))
    case ContentType(value) =>
      if state.contentTypeSeen || !IsSupportedContentType(value) then Err(BadContentType)
      else Ok(state.(contentTypeSeen := true))
    case Unsupported(name) => Err(UnsupportedHeader(name))
  }

  function AbsorbLines(state: HeaderState, lines: seq<Text>): Result<HeaderState, FrameError>
    decreases |lines|
  {
    if lines == [] then Ok(state)
    else
      var next :- AbsorbLine(state, lines[0]);
      AbsorbLines(next, lines[1..])
  }

  function CheckLength(state: HeaderState, maxFrameBytes: nat): Result<nat, FrameError> {
    match state.length
    case None => Err(MissingContentLength)
    case Some(length) =>
      if length > MAX_SAFE_INTEGER || length > maxFrameBytes then Err(FrameTooLarge) else Ok(length)
  }

  const NO_LINES := HeaderState(None, false)

  function ParseHeader(bytes: seq<Byte>, maxFrameBytes: nat): (length: Result<nat, FrameError>)
    ensures length.Ok? ==> length.value <= maxFrameBytes
  {
    if !IsAscii(bytes) then Err(NonAsciiHeader)
    else
      var state :- AbsorbLines(NO_LINES, SplitLines(bytes));
      CheckLength(state, maxFrameBytes)
  }

  method ParseHeaderBytes(bytes: seq<Byte>, maxFrameBytes: nat) returns (result: Result<nat, FrameError>)
    ensures result == ParseHeader(bytes, maxFrameBytes)
  {
    if exists i | 0 <= i < |bytes| :: bytes[i] > 0x7F {
      return Err(NonAsciiHeader);
    }
    var header := DecodeUtf8(bytes);
    AsciiIsIdentity(bytes);
    var state := AbsorbHeader(SplitLines(header.value));
    if state.Err? {
      return Err(state.error);
    }
    var length := state.value.length;
    if length.None? {
      return Err(MissingContentLength);
    }
    if length.value > MAX_SAFE_INTEGER || length.value > maxFrameBytes {
      return Err(FrameTooLarge);
    }
    return Ok(length.value);
  }

  /** The loop over the header lines, with its two variables. */
  method AbsorbHeader(lines: seq<Text>) returns (result: Result<HeaderState, FrameError>)
    ensures result == AbsorbLines(NO_LINES, lines)
  {
    var length: Option<nat> := None;
    var contentTypeSeen := false;
    assert lines[0..] == lines;
    for i := 0 to |lines|
      invariant AbsorbLines(NO_LINES, lines) == AbsorbLines(HeaderState(length, contentTypeSeen), lines[i..])
    {
      assert lines[i..][1..] == lines[i + 1..];
      match Classify(lines[i]) {
        case Malformed =>
          return Err(MalformedHeaderLine);
        case ContentLength(value) =>
          if length.Some? || !IsDecimal(value) {
            return Err(BadContentLength);
          }
          length := Some(DecimalValue(value));
        case ContentType(value) =>
          if contentTypeSeen || !IsSupportedContentType(value) {
            return Err(BadContentType);
          }
          contentTypeSeen := true;
        case Unsupported(name) =>
          return Err(UnsupportedHeader(name));
      }
    }
    return Ok(HeaderState(length, contentTypeSeen));
  }

  // ------------------------------------------------------------------ encoding

  /** The decimal digits of `n`, as a template literal prints them. */
  function Digits(n: nat): (digits: seq<Byte>)
    ensures digits != []
  {
    if n < 10 then [48 + n] else Digits(n / 10) + [48 + n % 10]
  }

  // "Content-Length: "
  const LENGTH_PREFIX: seq<Byte> := [67, 111, 110, 116, 101, 110, 116, 45, 76, 101, 110, 103, 116, 104, 58, 32]

  /** The header block of a frame whose body has `length` bytes. */
  function HeaderFor(length: nat): seq<Byte> {
    LENGTH_PREFIX + Digits(length)
  }

  function EncodeFrame<M(!new)>(limits: Limits<M>, value: Value<M>): Result<seq<Byte>, FrameError> {
    match value
    case NonObject => Err(InvalidMessage)
    case Object(message) =>
      match Encode(limits.json.stringify(message))
      case Err(error) => Err(Codec(error))
      case Ok(body) =>
        if |body| > limits.maxFrameBytes then Err(FrameTooLarge)
        else
          match Encode(HeaderFor(|body|) + HEADER_END)
          case Err(error) => Err(Codec(error))
          case Ok(header) => Ok(header + body)
  }

  // ------------------------------------------------------------------ decoding

  datatype DecoderState = DecoderState(buffer: seq<Byte>, bodyLength: Option<nat>)

  const INITIAL := DecoderState([], None)

  function Extend(state: DecoderState, bytes: seq<Byte>): DecoderState {
    state.(buffer := state.buffer + bytes)
  }

  /** One pass of the decoder's loop: it stops to wait for more bytes, emits a
      message, or throws.  The state is the one left behind in each case. */
  datatype Round<+M> =
    | Idle(state: DecoderState)
    | Emit(message: M, state: DecoderState)
    | Fail(error: FrameError, state: DecoderState)

  /** The state once a header block is consumed, or why there is none. */
  datatype HeaderRound =
    | AwaitHeader
    | HeaderRead(state: DecoderState)
    | HeaderFailed(error: FrameError)

  function HeaderStep<M(!new)>(limits: Limits<M>, state: DecoderState): (round: HeaderRound)
    ensures round.HeaderRead? ==> round.state.bodyLength.Some? && |round.state.buffer| <= |state.buffer|
    ensures round.HeaderRead? && state.bodyLength.None? ==> |round.state.buffer| < |state.buffer|
    ensures round.HeaderRead? && state.bodyLength.Some? ==> round.state == state
  {
    if state.bodyLength.Some? then HeaderRead(state)
    else
      var end := FirstIndex(state.buffer, HEADER_END);
      if end < 0 then
        if |state.buffer| > limits.maxHeaderBytes then HeaderFailed(HeaderTooLarge) else AwaitHeader
      else if end > limits.maxHeaderBytes then HeaderFailed(HeaderTooLarge)
      else
        match ParseHeader(state.buffer[..end], limits.maxFrameBytes)
        case Err(error) => HeaderFailed(error)
        case Ok(length) => HeaderRead(DecoderState(state.buffer[end + 4..], Some(length)))
  }

  /** The message a complete body carries. */
  function ReadBody<M(!new)>(json: JsonCodec<M>, body: seq<Byte>): Result<M, FrameError> {
    match Decode(body)
    case Err(_) => Err(InvalidJson)
    case Ok(text) =>
      match json.parse(text)
      case None => Err(InvalidJson)
      case Some(NonObject) => Err(InvalidMessage)
      case Some(Object(message)) => Ok(message)
  }

  function BodyStep<M(!new)>(limits: Limits<M>, state: DecoderState): (round: Round<M>)
    requires state.bodyLength.Some?
    ensures round.Emit? ==> round.state.bodyLength.None? && |round.state.buffer| <= |state.buffer|
  {
    var length := state.bodyLength.value;
    if |state.buffer| < length then Idle(state)
    else
      var rest := DecoderState(state.buffer[length..], None);
      match ReadBody(limits.json, state.buffer[..length])
      case Err(error) => Fail(error, rest)
      case Ok(message) => Emit(message, rest)
  }

  function NextFrame<M(!new)>(limits: Limits<M>, state: DecoderState): (round: Round<M>)
    ensures round.Emit? ==> round.state.bodyLength.None?
    ensures round.Emit? ==>
      || |round.state.buffer| < |state.buffer|
      || (|round.state.buffer| == |state.buffer| && state.bodyLength.Some?)
  {
    match HeaderStep(limits, state)
    case AwaitHeader => Idle(state)
    case HeaderFailed(error) => Fail(error, state)
    case HeaderRead(next) => BodyStep(limits, next)
  }

  /** What a call returns or throws, with the state it leaves.  A throw loses the
      messages already decoded by that call. */
  datatype Outcome<+M> =
    | Delivered(messages: seq<M>, state: DecoderState)
    | Thrown(error: FrameError, state: DecoderState)

  function Prepend<M>(messages: seq<M>, outcome: Outcome<M>): Outcome<M> {
    match outcome
    case Delivered(more, state) => Delivered(messages + more, state)
    case Thrown(_, _) => outcome
  }

  function Weight(state: DecoderState): nat {
    if state.bodyLength.Some? then 1 else 0
  }

  /** The decoder's loop. */
  function Drain<M(!new)>(limits: Limits<M>, state: DecoderState): Outcome<M>
    decreases |state.buffer|, Weight(state)
  {
    match NextFrame(limits, state)
    case Idle(rest) => Delivered([], rest)
    case Fail(error, rest) => Thrown(error, rest)
    case Emit(message, rest) => Prepend([message], Drain(limits, rest))
  }

  predicate WithinBudget<M(!new)>(limits: Limits<M>, state: DecoderState, chunk: seq<Byte>) {
    |state.buffer| + |chunk| <= limits.maxFrameBytes + limits.maxHeaderBytes + |HEADER_END|
  }

  function PushChunk<M(!new)>(limits: Limits<M>, state: DecoderState, chunk: seq<Byte>): Outcome<M> {
    if WithinBudget(limits, state, chunk) then Drain(limits, Extend(state, chunk)) else Thrown(FrameTooLarge, state)
  }

  class FrameDecoder<M(!new)> {
    const limits: Limits<M>
    var buffer: seq<Byte>
    var bodyLength: Option<nat>

    constructor (limits: Limits<M>)
      ensures this.limits == limits && State() == INITIAL
    {
      this.limits := limits;
      buffer := [];
      bodyLength := None;
    }

    function State(): DecoderState
      reads this
    {
      DecoderState(buffer, bodyLength)
    }

    /** Decodes every message the new bytes complete. */
    method Push(chunk: seq<Byte>) returns (outcome: Result<seq<M>, FrameError>)
      modifies this
      ensures PushChunk(limits, old(State()), chunk) ==
              match outcome
              case Ok(messages) => Delivered(messages, State())
              case Err(error) => Thrown(error, State())
    {
      if |buffer| + |chunk| > limits.maxFrameBytes + limits.maxHeaderBytes + |HEADER_END| {
        return Err(FrameTooLarge);
      }
      buffer := buffer + chunk;
      ghost var start := State();
      var messages: seq<M> := [];
      while true
        invariant Drain(limits, start) == Prepend(messages, Drain(limits, State()))
        decreases |buffer|, Weight(State())
      {
        ghost var before := State();
        if bodyLength.None? {
          var end := IndexOf(buffer, HEADER_END);
          if end < 0 {
            if |buffer| > limits.maxHeaderBytes {
              return Err(HeaderTooLarge);
            }
            break;
          }
          if end > limits.maxHeaderBytes {
            return Err(HeaderTooLarge);
          }
          var length := ParseHeaderBytes(buffer[..end], limits.maxFrameBytes);
          if length.Err? {
            return Err(length.error);
          }
          bodyLength := Some(length.value);
          buffer := buffer[end + |HEADER_END|..];
        }
        assert HeaderStep(limits, before) == HeaderRead(State());
        if |buffer| < bodyLength.value {
          break;
        }
        var body := buffer[..bodyLength.value];
        buffer := buffer[bodyLength.value..];
        bodyLength := None;
        var message := ReadMessage(body);
        if message.Err? {
          return Err(message.error);
        }
        ghost var tail := Drain(limits, State());
        assert Drain(limits, before) == Prepend([message.value], tail);
        PrependTwice(messages, [message.value], tail);
        messages := messages + [message.value];
      }
      return Ok(messages);
    }

    /** The body of a frame as a message. */
    method ReadMessage(body: seq<Byte>) returns (message: Result<M, FrameError>)
      ensures message == ReadBody(limits.json, body)
    {
      var text := DecodeUtf8(body);
      if text.Err? {
        return Err(InvalidJson);
      }
      var value := limits.json.parse(text.value);
      if value.None? {
        return Err(InvalidJson);
      }
      if value.value.NonObject? {
        return Err(InvalidMessage);
      }
      return Ok(value.value.message);
    }

    /** The stream must end on a frame boundary. */
    method Finish() returns (outcome: Result<(), FrameError>)
      ensures outcome.Ok? <==> State() == INITIAL
      ensures outcome.Err? ==> outcome.error == TruncatedFrame
    {
      if bodyLength.Some? || |buffer| != 0 {
        return Err(TruncatedFrame);
      }
      return Ok(());
    }
  }

  lemma PrependTwice<M>(front: seq<M>, back: seq<M>, outcome: Outcome<M>)
    ensures Prepend(front, Prepend(back, outcome)) == Prepend(front + back, outcome)
  {
    if outcome.Delivered? {
      assert front + (back + outcome.messages) == front + back + outcome.messages;
    }
  }
}
