/** The hand-written UTF-8 codec over UTF-16 strings (packages/lsp-shared/utf8.js).

    A JavaScript string is a sequence of 16-bit code units; a `Uint8Array` is a
    sequence of bytes.  Shifts and masks on non-negative numbers are written as
    division and remainder by the corresponding power of two. */
module Utf8 {
  import opened Wrappers
  import opened Sequences

  type Byte = b: int | 0 <= b < 0x100
  type CodeUnit = u: int | 0 <= u < 0x1_0000
  type Text = seq<CodeUnit>

  /** A Unicode scalar value: a code point that is not a surrogate. */
  type Scalar = c: int | 0 <= c <= 0xD7FF || 0xE000 <= c <= 0x10_FFFF

  datatype CodecError =
    | UnpairedSurrogate
    | MalformedSequence
    | MalformedContinuation
    | InvalidScalar

  predicate IsSurrogate(c: int) {
    0xD800 <= c <= 0xDFFF
  }

  // ------------------------------------------------------------------ UTF-16

  /** Section 2.1 of RFC 2781: one scalar value as one or two code units. */
  function Utf16(c: Scalar): (units: Text)
    ensures 1 <= |units| <= 2
  {
    if c <= 0xFFFF then [c]
    else [0xD800 + (c - 0x1_0000) / 0x400, 0xDC00 + (c - 0x1_0000) % 0x400]
  }

  /** `String.fromCodePoint(...points)`. */
  function ToText(points: seq<Scalar>): Text {
    if points == [] then [] else Utf16(points[0]) + ToText(points[1..])
  }

  /** `text.codePointAt(index)`: a surrogate pair is read as one code point, an
      unpaired surrogate as itself. */
  function CodePointAt(text: Text, index: nat): (code: int)
    requires index < |text|
    ensures 0 <= code <= 0x10_FFFF
    ensures code > 0xFFFF ==> index + 1 < |text|
  {
    if 0xD800 <= text[index] <= 0xDBFF && index + 1 < |text| && 0xDC00 <= text[index + 1] <= 0xDFFF then
      0x1_0000 + (text[index] as int - 0xD800) * 0x400 + (text[index + 1] as int - 0xDC00)
    else
      text[index] as int
  }

  /** The scalar values of a string, if it has no unpaired surrogate. */
  function Scan(text: Text): Option<seq<Scalar>> {
    if text == [] then Some([])
    else
      var code := CodePointAt(text, 0);
      if IsSurrogate(code) then None
      else
        match Scan(text[(if code > 0xFFFF then 2 else 1)..])
        case None => None
        case Some(rest) => Some([code] + rest)
  }

  /** Well-formed UTF-16: every surrogate code unit is half of a pair. */
  predicate WellFormed(text: Text) {
    forall i | 0 <= i < |text| :: PairedAt(text, i)
  }

  predicate PairedAt(text: Text, i: nat)
    requires i < |text|
  {
    && (0xD800 <= text[i] <= 0xDBFF ==> i + 1 < |text| && 0xDC00 <= text[i + 1] <= 0xDFFF)
    && (0xDC00 <= text[i] <= 0xDFFF ==> i > 0 && 0xD800 <= text[i - 1] <= 0xDBFF)
  }

  lemma {:induction false} ScanOfToText(points: seq<Scalar>)
    ensures Scan(ToText(points)) == Some(points)
  {
    if points != [] {
      var head, rest := Utf16(points[0]), ToText(points[1..]);
      ScanOfToText(points[1..]);
      assert ToText(points) == head + rest;
      assert CodePointAt(head + rest, 0) == points[0];
      assert (head + rest)[|head|..] == rest;
      assert points == [points[0]] + points[1..];
    }
  }

  lemma ToTextCons(code: Scalar, rest: seq<Scalar>)
    ensures ToText([code] + rest) == Utf16(code) + ToText(rest)
  {
    assert ([code] + rest)[1..] == rest;
  }

  lemma {:induction false} ToTextOfScan(text: Text)
    requires Scan(text).Some?
    ensures ToText(Scan(text).value) == text
  {
    if text != [] {
      var code := CodePointAt(text, 0);
      var width := if code > 0xFFFF then 2 else 1;
      ToTextOfScan(text[width..]);
      ToTextCons(code, Scan(text[width..]).value);
      assert Utf16(code) == text[..width];
      assert text == text[..width] + text[width..];
    }
  }

  /** The scan succeeds exactly on well-formed UTF-16. */
  lemma {:induction false} ScanAcceptsWellFormed(text: Text)
    ensures Scan(text).Some? <==> WellFormed(text)
  {
    if text != [] {
      var code := CodePointAt(text, 0);
      var width := if code > 0xFFFF then 2 else 1;
      ScanAcceptsWellFormed(text[width..]);
      if IsSurrogate(code) {
        assert !PairedAt(text, 0);
      } else {
        WellFormedAfter(text, width);
      }
    }
  }

  lemma WellFormedAfter(text: Text, width: nat)
    requires text != [] && !IsSurrogate(CodePointAt(text, 0))
    requires width == if CodePointAt(text, 0) > 0xFFFF then 2 else 1
    ensures WellFormed(text) <==> WellFormed(text[width..])
  {
    var rest := text[width..];
    if WellFormed(text) {
      forall i | 0 <= i < |rest|
        ensures PairedAt(rest, i)
      {
        assert PairedAt(text, i + width);
      }
    }
    if WellFormed(rest) {
      forall i | 0 <= i < |text|
        ensures PairedAt(text, i)
      {
        if i >= width {
          assert PairedAt(rest, i - width);
        }
      }
    }
  }

  // ------------------------------------------------------------------- UTF-8

  /** Section 3 of RFC 3629: one scalar value as one to four bytes. */
  function EncodeScalar(c: Scalar): (bytes: seq<Byte>)
    ensures 1 <= |bytes| <= 4
  {
    if c <= 0x7F then [c]
    else if c <= 0x7FF then [0xC0 + c / 0x40, 0x80 + c % 0x40]
    else if c <= 0xFFFF then [0xE0 + c / 0x1000, 0x80 + c / 0x40 % 0x40, 0x80 + c % 0x40]
    else [0xF0 + c / 0x4_0000, 0x80 + c / 0x1000 % 0x40, 0x80 + c / 0x40 % 0x40, 0x80 + c % 0x40]
  }

  function EncodePoints(points: seq<Scalar>): seq<Byte> {
    if points == [] then [] else EncodeScalar(points[0]) + EncodePoints(points[1..])
  }

  /** What `encodeUtf8` returns or throws. */
  function Encode(text: Text): Result<seq<Byte>, CodecError> {
    match Scan(text)
    case None => Err(UnpairedSurrogate)
    case Some(points) => Ok(EncodePoints(points))
  }

  datatype Step = Bad(error: CodecError) | Good(code: Scalar, width: nat)

  /** The declared length of the sequence that `first` opens; 0 if none. */
  function SequenceLength(first: Byte): nat {
    if 0xC2 <= first <= 0xDF then 2
    else if 0xE0 <= first <= 0xEF then 3
    else if 0xF0 <= first <= 0xF4 then 4
    else 0
  }

  /** The bits of the leading byte that belong to the scalar: `first & (0x7f >> length)`. */
  function LeadBits(first: Byte, length: nat): nat {
    if length == 2 then first % 0x20 else if length == 3 then first % 0x10 else first % 0x08
  }

  /** Appends `count` continuation bytes to `code`, six bits each. */
  function Continue(code: nat, bytes: seq<Byte>, count: nat): Option<nat>
    requires count <= |bytes|
    decreases count
  {
    if count == 0 then Some(code)
    else if !(0x80 <= bytes[0] < 0xC0) then None
    else Continue(code * 0x40 + bytes[0] % 0x40, bytes[1..], count - 1)
  }

  predicate RejectsScalar(length: nat, code: nat) {
    || (length == 3 && code < 0x800)
    || (length == 4 && code < 0x1_0000)
    || IsSurrogate(code)
    || code > 0x10_FFFF
  }

  /** One round of the decoder's outer loop. */
  function DecodeOne(bytes: seq<Byte>): (step: Step)
    requires bytes != []
    ensures step.Good? ==> 1 <= step.width <= |bytes|
  {
    var first := bytes[0];
    if first <= 0x7F then Good(first, 1)
    else
      var length := SequenceLength(first);
      if length == 0 || length > |bytes| then Bad(MalformedSequence)
      else
        match Continue(LeadBits(first, length), bytes[1..], length - 1)
        case None => Bad(MalformedContinuation)
        case Some(code) => if RejectsScalar(length, code) then Bad(InvalidScalar) else Good(code, length)
  }

  function DecodePoints(bytes: seq<Byte>): Result<seq<Scalar>, CodecError>
    decreases |bytes|
  {
    if bytes == [] then Ok([])
    else
      match DecodeOne(bytes)
      case Bad(error) => Err(error)
      case Good(code, width) =>
        var rest :- DecodePoints(bytes[width..]);
        Ok([code] + rest)
  }

  /** What `decodeUtf8` returns or throws. */
  function Decode(bytes: seq<Byte>): Result<Text, CodecError> {
    var points :- DecodePoints(bytes);
    Ok(ToText(points))
  }

  // ------------------------------------------- the grammar of RFC 3629, section 4

  predicate IsTail(b: Byte) { 0x80 <= b <= 0xBF }

  /** `UTF8-char`. */
  predicate IsChar(b: seq<Byte>) {
    || (|b| == 1 && b[0] <= 0x7F)
    || (|b| == 2 && 0xC2 <= b[0] <= 0xDF && IsTail(b[1]))
    || (|b| == 3 && IsTail(b[2]) &&
        (|| (b[0] == 0xE0 && 0xA0 <= b[1] <= 0xBF)
         || (0xE1 <= b[0] <= 0xEC && IsTail(b[1]))
         || (b[0] == 0xED && 0x80 <= b[1] <= 0x9F)
         || (0xEE <= b[0] <= 0xEF && IsTail(b[1]))))
    || (|b| == 4 && IsTail(b[2]) && IsTail(b[3]) &&
        (|| (b[0] == 0xF0 && 0x90 <= b[1] <= 0xBF)
         || (0xF1 <= b[0] <= 0xF3 && IsTail(b[1]))
         || (b[0] == 0xF4 && 0x80 <= b[1] <= 0x8F)))
  }

  function Flatten<T>(parts: seq<seq<T>>): seq<T> {
    if parts == [] then [] else parts[0] + Flatten(parts[1..])
  }

  /** `UTF8-octets`: a concatenation of `UTF8-char`s. */
  ghost predicate IsUtf8(bytes: seq<Byte>) {
    exists chars: seq<seq<Byte>> :: Flatten(chars) == bytes && forall c | c in chars :: IsChar(c)
  }

  // ------------------------------------------------- one character, both ways

  /** Splitting a number into base-64 digits is unambiguous. */
  lemma Digits64(high: nat, low: nat)
    requires low < 0x40
    ensures (high * 0x40 + low) / 0x40 == high && (high * 0x40 + low) % 0x40 == low
  {
  }

  lemma Quotients64(c: nat)
    ensures c / 0x1000 == c / 0x40 / 0x40
    ensures c / 0x4_0000 == c / 0x40 / 0x40 / 0x40
  {
  }

  lemma EncodeTwo(high: nat, low: nat)
    requires 0x02 <= high < 0x20 && low < 0x40
    ensures EncodeScalar(high * 0x40 + low) == [0xC0 + high, 0x80 + low]
  {
    Digits64(high, low);
  }

  lemma EncodeThree(high: nat, mid: nat, low: nat)
    requires mid < 0x40 && low < 0x40
    requires 0x800 <= (high * 0x40 + mid) * 0x40 + low <= 0xFFFF
    requires !IsSurrogate((high * 0x40 + mid) * 0x40 + low)
    ensures EncodeScalar((high * 0x40 + mid) * 0x40 + low) == [0xE0 + high, 0x80 + mid, 0x80 + low]
  {
    Digits64(high * 0x40 + mid, low);
    Digits64(high, mid);
    Quotients64((high * 0x40 + mid) * 0x40 + low);
  }

  lemma EncodeFour(high: nat, upper: nat, mid: nat, low: nat)
    requires upper < 0x40 && mid < 0x40 && low < 0x40
    requires 0x1_0000 <= ((high * 0x40 + upper) * 0x40 + mid) * 0x40 + low <= 0x10_FFFF
    ensures EncodeScalar(((high * 0x40 + upper) * 0x40 + mid) * 0x40 + low)
         == [0xF0 + high, 0x80 + upper, 0x80 + mid, 0x80 + low]
  {
    Digits64((high * 0x40 + upper) * 0x40 + mid, low);
    Digits64(high * 0x40 + upper, mid);
    Digits64(high, upper);
    Quotients64(((high * 0x40 + upper) * 0x40 + mid) * 0x40 + low);
  }

  /** The arithmetic of one decoder round: with leading bits `high` the reported
      scalar re-encodes to the bytes read. */
  lemma DecodeTwoSound(bytes: seq<Byte>)
    requires bytes != [] && SequenceLength(bytes[0]) == 2 && DecodeOne(bytes).Good?
    ensures EncodeScalar(DecodeOne(bytes).code) == bytes[..2]
  {
    ContinueTwo(LeadBits(bytes[0], 2), bytes[1..]);
    EncodeTwo(bytes[0] % 0x20, bytes[1] % 0x40);
  }

  lemma DecodeThreeSound(bytes: seq<Byte>)
    requires bytes != [] && SequenceLength(bytes[0]) == 3 && DecodeOne(bytes).Good?
    ensures EncodeScalar(DecodeOne(bytes).code) == bytes[..3]
  {
    var tail := bytes[1..];
    ContinueThree(LeadBits(bytes[0], 3), tail);
    assert tail[0] == bytes[1] && tail[1] == bytes[2];
    EncodeThree(bytes[0] % 0x10, bytes[1] % 0x40, bytes[2] % 0x40);
  }

  /** The scalar a four-byte round reports. */
  lemma DecodeFourReads(bytes: seq<Byte>)
    requires bytes != [] && SequenceLength(bytes[0]) == 4 && DecodeOne(bytes).Good?
    ensures |bytes| >= 4 && bytes[0] == 0xF0 + bytes[0] % 0x08
    ensures forall i | 1 <= i < 4 :: bytes[i] == 0x80 + bytes[i] % 0x40
    ensures DecodeOne(bytes).code ==
            (((bytes[0] % 0x08) as int * 0x40 + bytes[1] % 0x40) * 0x40 + bytes[2] % 0x40) * 0x40 + bytes[3] % 0x40
    ensures 0x1_0000 <= DecodeOne(bytes).code <= 0x10_FFFF
  {
    var tail := bytes[1..];
    ContinueFour(LeadBits(bytes[0], 4), tail);
    assert tail[0] == bytes[1] && tail[1] == bytes[2] && tail[2] == bytes[3];
    assert IsTail(bytes[1]) && IsTail(bytes[2]) && IsTail(bytes[3]);
  }

  lemma DecodeFourSound(bytes: seq<Byte>)
    requires bytes != [] && SequenceLength(bytes[0]) == 4 && DecodeOne(bytes).Good?
    ensures |bytes| >= 4 && EncodeScalar(DecodeOne(bytes).code) == bytes[..4]
  {
    DecodeFourReads(bytes);
    EncodeFour(bytes[0] % 0x08, bytes[1] % 0x40, bytes[2] % 0x40, bytes[3] % 0x40);
  }

  /** A decoder round accepts a prefix only if it is a grammar character, and
      then it is the encoding of the scalar it reports. */
  lemma DecodeOneSound(bytes: seq<Byte>)
    requires bytes != [] && DecodeOne(bytes).Good?
    ensures IsChar(bytes[..DecodeOne(bytes).width])
    ensures EncodeScalar(DecodeOne(bytes).code) == bytes[..DecodeOne(bytes).width]
  {
    var length := SequenceLength(bytes[0]);
    if length == 2 {
      DecodeTwoSound(bytes);
    } else if length == 3 {
      DecodeThreeSound(bytes);
    } else if length == 4 {
      DecodeFourSound(bytes);
    }
    EncodeScalarIsChar(DecodeOne(bytes).code);
  }

  lemma ContinueTwo(code: nat, tail: seq<Byte>)
    requires |tail| >= 1
    ensures Continue(code, tail, 1) ==
            if IsTail(tail[0]) then Some(code * 0x40 + tail[0] % 0x40) else None
  {
  }

  lemma ContinueThree(code: nat, tail: seq<Byte>)
    requires |tail| >= 2
    ensures Continue(code, tail, 2) ==
            if IsTail(tail[0]) && IsTail(tail[1])
            then Some((code * 0x40 + tail[0] % 0x40) * 0x40 + tail[1] % 0x40) else None
  {
    ContinueTwo(code * 0x40 + tail[0] % 0x40, tail[1..]);
  }

  lemma ContinueFour(code: nat, tail: seq<Byte>)
    requires |tail| >= 3
    ensures Continue(code, tail, 3) ==
            if IsTail(tail[0]) && IsTail(tail[1]) && IsTail(tail[2])
            then Some(((code * 0x40 + tail[0] % 0x40) * 0x40 + tail[1] % 0x40) * 0x40 + tail[2] % 0x40) else None
  {
    ContinueThree(code * 0x40 + tail[0] % 0x40, tail[1..]);
  }

  lemma DecodeThreeComplete(one: seq<Byte>, rest: seq<Byte>)
    requires IsChar(one) && |one| == 3
    ensures DecodeOne(one + rest).Good? && DecodeOne(one + rest).width == 3
  {
    var tail := (one + rest)[1..];
    ContinueThree(LeadBits(one[0], 3), tail);
    assert tail[0] == one[1] && tail[1] == one[2];
  }

  lemma DecodeFourComplete(one: seq<Byte>, rest: seq<Byte>)
    requires IsChar(one) && |one| == 4
    ensures DecodeOne(one + rest).Good? && DecodeOne(one + rest).width == 4
  {
    var tail := (one + rest)[1..];
    ContinueFour(LeadBits(one[0], 4), tail);
    assert tail[0] == one[1] && tail[1] == one[2] && tail[2] == one[3];
  }

  lemma DecodeOneComplete(one: seq<Byte>, rest: seq<Byte>)
    requires IsChar(one)
    ensures DecodeOne(one + rest).Good? && DecodeOne(one + rest).width == |one|
  {
    if |one| == 2 {
      ContinueTwo(LeadBits(one[0], 2), (one + rest)[1..]);
    } else if |one| == 3 {
      DecodeThreeComplete(one, rest);
    } else if |one| == 4 {
      DecodeFourComplete(one, rest);
    }
  }

  lemma EncodeScalarIsChar(c: Scalar)
    ensures IsChar(EncodeScalar(c))
  {
  }

  /** Distinct scalars have distinct encodings. */
  lemma EncodeScalarInjective(c: Scalar, d: Scalar)
    requires EncodeScalar(c) == EncodeScalar(d)
    ensures c == d
  {
    Quotients64(c);
    Quotients64(d);
    assert |EncodeScalar(c)| == |EncodeScalar(d)|;
    assert c % 0x40 == d % 0x40 && c / 0x40 % 0x40 == d / 0x40 % 0x40;
  }

  lemma DecodeOneOfEncodeScalar(c: Scalar, rest: seq<Byte>)
    ensures DecodeOne(EncodeScalar(c) + rest) == Good(c, |EncodeScalar(c)|)
  {
    var bytes := EncodeScalar(c) + rest;
    EncodeScalarIsChar(c);
    DecodeOneComplete(EncodeScalar(c), rest);
    DecodeOneSound(bytes);
    assert bytes[..|EncodeScalar(c)|] == EncodeScalar(c);
    EncodeScalarInjective(c, DecodeOne(bytes).code);
  }

  // ----------------------------------------------------------- whole sequences

  lemma {:induction false} DecodePointsOfEncode(points: seq<Scalar>)
    ensures DecodePoints(EncodePoints(points)) == Ok(points)
  {
    if points != [] {
      var head, rest := EncodeScalar(points[0]), EncodePoints(points[1..]);
      DecodePointsOfEncode(points[1..]);
      DecodeOneOfEncodeScalar(points[0], rest);
      assert (head + rest)[|head|..] == rest;
      assert points == [points[0]] + points[1..];
    }
  }

  lemma EncodePointsCons(code: Scalar, rest: seq<Scalar>)
    ensures EncodePoints([code] + rest) == EncodeScalar(code) + EncodePoints(rest)
  {
    assert ([code] + rest)[1..] == rest;
  }

  lemma {:induction false} EncodeOfDecodePoints(bytes: seq<Byte>)
    requires DecodePoints(bytes).Ok?
    ensures EncodePoints(DecodePoints(bytes).value) == bytes
    decreases |bytes|
  {
    if bytes != [] {
      var width := DecodeOne(bytes).width;
      var rest := DecodePoints(bytes[width..]).value;
      DecodeOneSound(bytes);
      EncodeOfDecodePoints(bytes[width..]);
      EncodePointsCons(DecodeOne(bytes).code, rest);
      assert bytes == bytes[..width] + bytes[width..];
    }
  }

  lemma {:induction false} DecodesGrammar(chars: seq<seq<Byte>>)
    requires forall c | c in chars :: IsChar(c)
    ensures DecodePoints(Flatten(chars)).Ok?
  {
    if chars != [] {
      DecodesGrammar(chars[1..]);
      DecodeOneComplete(chars[0], Flatten(chars[1..]));
      assert Flatten(chars)[|chars[0]|..] == Flatten(chars[1..]);
    }
  }

  lemma {:induction false} GrammarOfPoints(points: seq<Scalar>) returns (chars: seq<seq<Byte>>)
    ensures Flatten(chars) == EncodePoints(points)
    ensures forall c | c in chars :: IsChar(c)
  {
    if points == [] {
      chars := [];
    } else {
      var rest := GrammarOfPoints(points[1..]);
      EncodeScalarIsChar(points[0]);
      chars := [EncodeScalar(points[0])] + rest;
    }
  }

  /** `decodeUtf8` accepts exactly the byte sequences of section 4 of RFC 3629. */
  lemma DecodeAcceptsExactlyUtf8(bytes: seq<Byte>)
    ensures Decode(bytes).Ok? <==> IsUtf8(bytes)
  {
    if Decode(bytes).Ok? {
      EncodeOfDecodePoints(bytes);
      var chars := GrammarOfPoints(DecodePoints(bytes).value);
    }
    if IsUtf8(bytes) {
      var chars: seq<seq<Byte>> :| Flatten(chars) == bytes && forall c | c in chars :: IsChar(c);
      DecodesGrammar(chars);
    }
  }

  /** `encodeUtf8` accepts exactly the well-formed UTF-16 strings, always
      produces UTF-8, and `decodeUtf8` undoes it. */
  lemma DecodeUndoesEncode(text: Text)
    ensures Encode(text).Ok? <==> WellFormed(text)
    ensures Encode(text).Ok? ==> IsUtf8(Encode(text).value) && Decode(Encode(text).value) == Ok(text)
  {
    ScanAcceptsWellFormed(text);
    if Encode(text).Ok? {
      ToTextOfScan(text);
      DecodePointsOfEncode(Scan(text).value);
      DecodeAcceptsExactlyUtf8(Encode(text).value);
    }
  }

  /** Every accepted byte sequence is re-encoded to itself. */
  lemma EncodeUndoesDecode(bytes: seq<Byte>)
    requires Decode(bytes).Ok?
    ensures Encode(Decode(bytes).value) == Ok(bytes)
  {
    EncodeOfDecodePoints(bytes);
    ScanOfToText(DecodePoints(bytes).value);
  }

  // ------------------------------------------------------------- ASCII headers

  predicate IsAscii(bytes: seq<Byte>) {
    forall i | 0 <= i < |bytes| :: bytes[i] <= 0x7F
  }

  /** On ASCII both directions are the identity. */
  lemma {:induction false} AsciiIsIdentity(bytes: seq<Byte>)
    requires IsAscii(bytes)
    ensures Decode(bytes) == Ok(bytes) && Encode(bytes) == Ok(bytes)
  {
    if bytes != [] {
      AsciiIsIdentity(bytes[1..]);
      assert bytes == [bytes[0]] + bytes[1..];
      assert DecodePoints(bytes) == Ok([bytes[0]] + DecodePoints(bytes[1..]).value);
      var points := DecodePoints(bytes).value;
      assert points[1..] == DecodePoints(bytes[1..]).value;
      EncodeUndoesDecode(bytes);
    }
  }

  // --------------------------------------------------- the codec as it is written

  /** A scan or decode whose first results are already known. */
  function After<T, E>(front: seq<T>, rest: Result<seq<T>, E>): Result<seq<T>, E> {
    match rest
    case Err(error) => Err(error)
    case Ok(values) => Ok(front + values)
  }

  lemma AfterNothing<T, E>(rest: Result<seq<T>, E>)
    ensures After([], rest) == rest
  {
    if rest.Ok? {
      assert [] + rest.value == rest.value;
    }
  }

  function ScanResult(text: Text): Result<seq<Scalar>, CodecError> {
    match Scan(text)
    case None => Err(UnpairedSurrogate)
    case Some(points) => Ok(points)
  }

  lemma ScanRound(front: seq<Scalar>, text: Text)
    requires text != [] && !IsSurrogate(CodePointAt(text, 0))
    ensures var code := CodePointAt(text, 0);
            After(front, ScanResult(text)) ==
            After(front + [code], ScanResult(text[(if code > 0xFFFF then 2 else 1)..]))
  {
    var code := CodePointAt(text, 0);
    var rest := Scan(text[(if code > 0xFFFF then 2 else 1)..]);
    if rest.Some? {
      assert front + ([code] + rest.value) == front + [code] + rest.value;
    }
  }

  /** One pass of the encoder's loop at `index`. */
  lemma EncodeRound(points: seq<Scalar>, text: Text, index: nat)
    requires index < |text| && !IsSurrogate(CodePointAt(text, index))
    ensures var code := CodePointAt(text, index);
            && EncodePoints(points + [code]) == EncodePoints(points) + EncodeScalar(code)
            && After(points, ScanResult(text[index..])) ==
               After(points + [code], ScanResult(text[index + (if code > 0xFFFF then 2 else 1)..]))
  {
    var code := CodePointAt(text, index);
    var width := if code > 0xFFFF then 2 else 1;
    EncodePointsAppend(points, code);
    ScanRound(points, text[index..]);
    assert text[index..][width..] == text[index + width..];
  }

  lemma DecodeRound(front: seq<Scalar>, bytes: seq<Byte>, index: nat)
    requires index < |bytes| && DecodeOne(bytes[index..]).Good?
    ensures var Good(code, width) := DecodeOne(bytes[index..]);
            After(front, DecodePoints(bytes[index..])) == After(front + [code], DecodePoints(bytes[index + width..]))
  {
    var Good(code, width) := DecodeOne(bytes[index..]);
    assert bytes[index..][width..] == bytes[index + width..];
    var rest := DecodePoints(bytes[index + width..]);
    if rest.Ok? {
      assert front + ([code] + rest.value) == front + [code] + rest.value;
    }
  }

  /** The encoder's `bytes.push` cases. */
  method AppendScalar(bytes: seq<Byte>, code: Scalar) returns (longer: seq<Byte>)
    ensures longer == bytes + EncodeScalar(code)
  {
    if code <= 0x7F {
      longer := bytes + [code];
    } else if code <= 0x7FF {
      longer := bytes + [0xC0 + code / 0x40, 0x80 + code % 0x40];
    } else if code <= 0xFFFF {
      longer := bytes + [0xE0 + code / 0x1000, 0x80 + code / 0x40 % 0x40, 0x80 + code % 0x40];
    } else {
      longer := bytes + [0xF0 + code / 0x4_0000, 0x80 + code / 0x1000 % 0x40, 0x80 + code / 0x40 % 0x40, 0x80 + code % 0x40];
    }
  }

  method EncodeUtf8(text: Text) returns (result: Result<seq<Byte>, CodecError>)
    ensures result == Encode(text)
  {
    var bytes: seq<Byte> := [];
    ghost var points: seq<Scalar> := [];
    var index := 0;
    assert text[0..] == text;
    AfterNothing(ScanResult(text));
    while index < |text|
      invariant index <= |text|
      invariant bytes == EncodePoints(points)
      invariant ScanResult(text) == After(points, ScanResult(text[index..]))
    {
      var code := CodePointAt(text, index);
      if IsSurrogate(code) {
        assert CodePointAt(text[index..], 0) == code;
        return Err(UnpairedSurrogate);
      }
      EncodeRound(points, text, index);
      points := points + [code];
      if code > 0xFFFF {
        index := index + 1;
      }
      bytes := AppendScalar(bytes, code);
      index := index + 1;
    }
    assert text[index..] == [];
    assert points + [] == points;
    return Ok(bytes);
  }

  lemma {:induction false} EncodePointsAppend(points: seq<Scalar>, code: Scalar)
    ensures EncodePoints(points + [code]) == EncodePoints(points) + EncodeScalar(code)
  {
    if points == [] {
      assert EncodePoints([code]) == EncodeScalar(code) + EncodePoints([]);
    } else {
      EncodePointsAppend(points[1..], code);
      assert (points + [code])[1..] == points[1..] + [code];
    }
  }

  lemma {:induction false} ToTextAppend(front: seq<Scalar>, back: seq<Scalar>)
    ensures ToText(front + back) == ToText(front) + ToText(back)
  {
    if front == [] {
      assert front + back == back;
    } else {
      ToTextAppend(front[1..], back);
      assert (front + back)[1..] == front[1..] + back && (front + back)[0] == front[0];
      Associate(Utf16(front[0]), ToText(front[1..]), ToText(back));
    }
  }

  lemma ToTextChunk(points: seq<Scalar>, index: nat, end: nat)
    requires index <= end <= |points|
    ensures ToText(points[..end]) == ToText(points[..index]) + ToText(points[index..end])
  {
    ToTextAppend(points[..index], points[index..end]);
    assert points[..end] == points[..index] + points[index..end];
  }

  /** One pass of the decoder's outer loop, with its own loop over the
      continuation bytes. */
  method DecodeStep(bytes: seq<Byte>, start: nat) returns (step: Step)
    requires start < |bytes|
    ensures step == DecodeOne(bytes[start..])
  {
    var index := start;
    var first := bytes[index];
    index := index + 1;
    if first <= 0x7F {
      return Good(first, 1);
    }
    var length := SequenceLength(first);
    if length == 0 || index + length - 1 > |bytes| {
      return Bad(MalformedSequence);
    }
    var code: nat := LeadBits(first, length);
    var offset := 1;
    assert bytes[start..][1..] == bytes[index..];
    while offset < length
      invariant 1 <= offset <= length
      invariant index == start + offset
      invariant Continue(code, bytes[index..], length - offset) ==
                Continue(LeadBits(first, length), bytes[start + 1..], length - 1)
    {
      var next := bytes[index];
      assert bytes[index..][1..] == bytes[index + 1..];
      index := index + 1;
      if !(0x80 <= next < 0xC0) {
        return Bad(MalformedContinuation);
      }
      code := code * 0x40 + next % 0x40;
      offset := offset + 1;
    }
    if RejectsScalar(length, code) {
      return Bad(InvalidScalar);
    }
    return Good(code, length);
  }

  const CHUNK := 4096

  method DecodeUtf8(bytes: seq<Byte>) returns (result: Result<Text, CodecError>)
    ensures result == Decode(bytes)
  {
    var points: seq<Scalar> := [];
    var index := 0;
    assert bytes[0..] == bytes;
    AfterNothing(DecodePoints(bytes));
    while index < |bytes|
      invariant index <= |bytes|
      invariant DecodePoints(bytes) == After(points, DecodePoints(bytes[index..]))
    {
      var step := DecodeStep(bytes, index);
      if step.Bad? {
        return Err(step.error);
      }
      DecodeRound(points, bytes, index);
      points := points + [step.code];
      index := index + step.width;
    }
    assert bytes[index..] == [];
    assert points + [] == points;
    var text := JoinPoints(points);
    return Ok(text);
  }

  /** The decoder's last loop, which joins the code points chunk by chunk. */
  method JoinPoints(points: seq<Scalar>) returns (text: Text)
    ensures text == ToText(points)
  {
    text := [];
    var index := 0;
    while index < |points|
      invariant index <= |points| + CHUNK
      invariant text == ToText(points[..if index < |points| then index else |points|])
    {
      var end := if index + CHUNK < |points| then index + CHUNK else |points|;
      ToTextChunk(points, index, end);
      text := text + ToText(points[index..end]);
      index := index + CHUNK;
    }
    assert points[..|points|] == points;
  }

  method Utf8ByteLength(text: Text) returns (result: Result<nat, CodecError>)
    ensures result.Ok? <==> WellFormed(text)
    ensures result.Ok? ==> exists bytes :: Encode(text) == Ok(bytes) && result.value == |bytes|
  {
    DecodeUndoesEncode(text);
    var bytes := EncodeUtf8(text);
    match bytes
    case Err(error) => result := Err(error);
    case Ok(value) => result := Ok(|value|);
  }
}
