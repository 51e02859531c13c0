/** What a header block says, and the round trip of `encodeFrame` through the
    decoder under every chunking. */
module FrameRoundTrip {
  import opened Wrappers
  import opened Utf8
  import opened Framing
  import opened FramingLaws
  import opened HeaderGrammar

  // ---------------------------------------------------------- decimal numbers

  lemma {:induction false} DigitsAreDecimal(n: nat)
    ensures IsDecimal(Digits(n))
    ensures (forall i | 0 <= i < |Digits(n)| :: IsDigit(Digits(n)[i])) && DecimalValue(Digits(n)) == n
    ensures n > 0 ==> Digits(n)[0] != 48
  {
    if n < 10 {
      assert DecimalValue([48 + n]) == DecimalValue([48 + n][..0]) * 10 + n;
    } else {
      DigitsAreDecimal(n / 10);
      var front := Digits(n / 10);
      assert Digits(n)[..|front|] == front;
    }
  }

  /** The accepted spelling of a length is the printed one and no other. */
  lemma {:induction false} DecimalIsCanonical(text: Text)
    requires IsDecimal(text)
    ensures forall i | 0 <= i < |text| :: IsDigit(text[i])
    ensures Digits(DecimalValue(text)) == text
    ensures text[0] != 48 ==> DecimalValue(text) > 0
  {
    assert IsDigit(text[0]);
    if |text| == 1 {
      assert DecimalValue(text) == DecimalValue(text[..0]) * 10 + (text[0] as int - 48);
    } else {
      var front, last := text[..|text| - 1], text[|text| - 1];
      assert IsDigit(last);
      forall i | 0 <= i < |front|
        ensures IsDigit(front[i])
      {
        assert IsDigit(text[i]);
      }
      DecimalIsCanonical(front);
      assert text == front + [last];
    }
  }

  lemma {:induction false} DigitsMonotone(m: nat, n: nat)
    requires m <= n
    ensures |Digits(m)| <= |Digits(n)|
  {
    if m >= 10 {
      DigitsMonotone(m / 10, n / 10);
    }
  }

  // ------------------------------------------------------ what a header says

  function LengthsOf(line: HeaderLine): seq<Text> {
    if line.ContentLength? then [line.value] else []
  }

  function TypesOf(line: HeaderLine): seq<Text> {
    if line.ContentType? then [line.value] else []
  }

  /** The values of the `Content-Length` lines. */
  function LengthValues(lines: seq<Text>): seq<Text> {
    if lines == [] then [] else LengthsOf(Classify(lines[0])) + LengthValues(lines[1..])
  }

  /** The values of the `Content-Type` lines. */
  function TypeValues(lines: seq<Text>): seq<Text> {
    if lines == [] then [] else TypesOf(Classify(lines[0])) + TypeValues(lines[1..])
  }

  predicate KnownField(line: Text) {
    Classify(line).ContentLength? || Classify(line).ContentType?
  }

  /** What the parser finds in a header: ASCII, every line a known field, exactly one
      canonical decimal length within both budgets, at most one content type and that
      one supported. */
  ghost predicate ParsesAs(bytes: seq<Byte>, maxFrameBytes: nat, length: nat) {
    && IsAscii(bytes)
    && var lines := SplitLines(bytes);
    && (forall i | 0 <= i < |lines| :: KnownField(lines[i]))
    && |LengthValues(lines)| == 1
    && LengthValues(lines)[0] == Digits(length)
    && |TypeValues(lines)| <= 1
    && (forall v | v in TypeValues(lines) :: IsSupportedContentType(v))
    && length <= maxFrameBytes && length <= MAX_SAFE_INTEGER
  }

  /** The two loop variables accept the lines exactly when each field is known,
      well-formed and not repeated. */
  lemma {:induction false} AbsorbLinesMeaning(state: HeaderState, lines: seq<Text>)
    ensures AbsorbLines(state, lines).Ok? <==>
            && (forall i | 0 <= i < |lines| :: KnownField(lines[i]))
            && (forall v | v in LengthValues(lines) :: IsDecimal(v))
            && (forall v | v in TypeValues(lines) :: IsSupportedContentType(v))
            && |LengthValues(lines)| <= (if state.length.Some? then 0 else 1)
            && |TypeValues(lines)| <= (if state.contentTypeSeen then 0 else 1)
    ensures AbsorbLines(state, lines).Ok? ==>
              var length := AbsorbLines(state, lines).value.length;
              if LengthValues(lines) == [] then length == state.length
              else length.Some? && Digits(length.value) == LengthValues(lines)[0]
    decreases |lines|
  {
    if lines != [] {
      var own := AbsorbLine(state, lines[0]);
      KnownFieldsSplit(lines);
      if Classify(lines[0]).ContentLength? && IsDecimal(Classify(lines[0]).value) {
        DecimalIsCanonical(Classify(lines[0]).value);
      }
      if own.Ok? {
        AbsorbLinesMeaning(own.value, lines[1..]);
      }
    }
  }

  lemma KnownFieldsSplit(lines: seq<Text>)
    requires lines != []
    ensures (forall i | 0 <= i < |lines| :: KnownField(lines[i]))
       <==> KnownField(lines[0]) && forall i | 0 <= i < |lines[1..]| :: KnownField(lines[1..][i])
  {
    if KnownField(lines[0]) && forall i | 0 <= i < |lines[1..]| :: KnownField(lines[1..][i]) {
      forall i | 0 <= i < |lines|
        ensures KnownField(lines[i])
      {
        assert i > 0 ==> KnownField(lines[1..][i - 1]);
      }
    }
  }

  lemma ParsedParses(bytes: seq<Byte>, maxFrameBytes: nat)
    requires ParseHeader(bytes, maxFrameBytes).Ok?
    ensures ParsesAs(bytes, maxFrameBytes, ParseHeader(bytes, maxFrameBytes).value)
  {
    AbsorbLinesMeaning(NO_LINES, SplitLines(bytes));
  }

  lemma ParsesIsParsed(bytes: seq<Byte>, maxFrameBytes: nat, length: nat)
    requires ParsesAs(bytes, maxFrameBytes, length)
    ensures ParseHeader(bytes, maxFrameBytes) == Ok(length)
  {
    SaidIsAbsorbed(SplitLines(bytes), length);
  }

  lemma SaidIsAbsorbed(lines: seq<Text>, length: nat)
    requires forall i | 0 <= i < |lines| :: KnownField(lines[i])
    requires |LengthValues(lines)| == 1 && LengthValues(lines)[0] == Digits(length)
    requires |TypeValues(lines)| <= 1 && forall v | v in TypeValues(lines) :: IsSupportedContentType(v)
    ensures AbsorbLines(NO_LINES, lines).Ok? && AbsorbLines(NO_LINES, lines).value.length == Some(length)
  {
    DigitsAreDecimal(length);
    AbsorbLinesMeaning(NO_LINES, lines);
    DigitsAreDecimal(AbsorbLines(NO_LINES, lines).value.length.value);
  }

  lemma ParseHeaderParses(bytes: seq<Byte>, maxFrameBytes: nat, length: nat)
    ensures ParseHeader(bytes, maxFrameBytes) == Ok(length) <==> ParsesAs(bytes, maxFrameBytes, length)
  {
    if ParseHeader(bytes, maxFrameBytes) == Ok(length) {
      ParsedParses(bytes, maxFrameBytes);
    }
    if ParsesAs(bytes, maxFrameBytes, length) {
      ParsesIsParsed(bytes, maxFrameBytes, length);
    }
  }

  /** Line `i` announces the length; another line, if there is one, is a content type of
      the protocol. */
  ghost predicate LinesSay(lines: seq<Text>, i: nat, length: nat)
    requires i < |lines|
  {
    && |lines| <= 2 && IsField(lines[i], "content-length", Digits(length))
    && forall j | 0 <= j < |lines| && j != i :: IsTypeLine(lines[j])
  }

  ghost predicate IsTypeLine(line: Text) {
    exists value | IsField(line, "content-type", value) :: IsProtocolType(value)
  }

  /** The header grammar, without a parser. */
  ghost predicate HeaderSays(bytes: seq<Byte>, maxFrameBytes: nat, length: nat) {
    && (forall i | 0 <= i < |bytes| :: bytes[i] < 0x80)
    && length <= maxFrameBytes && length <= 9_007_199_254_740_991
    && exists i | 0 <= i < |SplitLines(bytes)| :: LinesSay(SplitLines(bytes), i, length)
  }

  lemma TypeLineMeaning(line: Text)
    ensures IsTypeLine(line) <==> Classify(line).ContentType? && IsSupportedContentType(Classify(line).value)
  {
    if Classify(line).ContentType? {
      ClassifyMeaning(line, Classify(line).value);
      ContentTypeMeaning(Classify(line).value);
    }
    if value :| IsField(line, "content-type", value) && IsProtocolType(value) {
      ClassifyMeaning(line, value);
      ContentTypeMeaning(value);
    }
  }

  lemma {:induction false} KnownLinesCount(lines: seq<Text>)
    requires forall i | 0 <= i < |lines| :: KnownField(lines[i])
    ensures |LengthValues(lines)| + |TypeValues(lines)| == |lines|
  {
    if lines != [] {
      KnownFieldsSplit(lines);
      KnownLinesCount(lines[1..]);
    }
  }

  /** The values of one line and of two. */
  lemma ValuesOfOne(lines: seq<Text>)
    requires |lines| == 1
    ensures LengthValues(lines) == LengthsOf(Classify(lines[0])) && TypeValues(lines) == TypesOf(Classify(lines[0]))
  {
    assert LengthValues(lines[1..]) == [] && TypeValues(lines[1..]) == [];
  }

  lemma ValuesOfTwo(lines: seq<Text>)
    requires |lines| == 2
    ensures LengthValues(lines) == LengthsOf(Classify(lines[0])) + LengthsOf(Classify(lines[1]))
    ensures TypeValues(lines) == TypesOf(Classify(lines[0])) + TypesOf(Classify(lines[1]))
  {
    ValuesOfOne(lines[1..]);
  }

  lemma LinesSayFields(lines: seq<Text>, i: nat, length: nat)
    requires i < |lines| && LinesSay(lines, i, length)
    ensures Classify(lines[i]) == ContentLength(Digits(length))
    ensures forall j | 0 <= j < |lines| && j != i ::
              Classify(lines[j]).ContentType? && IsSupportedContentType(Classify(lines[j]).value)
  {
    ClassifyMeaning(lines[i], Digits(length));
    forall j | 0 <= j < |lines| && j != i
      ensures Classify(lines[j]).ContentType? && IsSupportedContentType(Classify(lines[j]).value)
    {
      TypeLineMeaning(lines[j]);
    }
  }

  lemma LinesSayParses(lines: seq<Text>, i: nat, length: nat)
    requires i < |lines| && LinesSay(lines, i, length)
    ensures forall j | 0 <= j < |lines| :: KnownField(lines[j])
    ensures LengthValues(lines) == [Digits(length)] && |TypeValues(lines)| <= 1
    ensures forall v | v in TypeValues(lines) :: IsSupportedContentType(v)
  {
    LinesSayFields(lines, i, length);
    if |lines| == 2 {
      ValuesOfTwo(lines);
    } else {
      ValuesOfOne(lines);
    }
  }

  /** Which of two lines is the length. */
  lemma LengthLine(first: HeaderLine, second: HeaderLine, digits: Text)
    requires first.ContentLength? || first.ContentType?
    requires second.ContentLength? || second.ContentType?
    requires LengthsOf(first) + LengthsOf(second) == [digits]
    ensures var types := TypesOf(first) + TypesOf(second);
            || (first == ContentLength(digits) && second.ContentType? && types == [second.value])
            || (second == ContentLength(digits) && first.ContentType? && types == [first.value])
  {
    assert (LengthsOf(first) + LengthsOf(second))[0] == digits;
  }

  lemma ParsesLinesSay(lines: seq<Text>, length: nat) returns (i: nat)
    requires lines != [] && forall j | 0 <= j < |lines| :: KnownField(lines[j])
    requires LengthValues(lines) == [Digits(length)] && |TypeValues(lines)| <= 1
    requires forall v | v in TypeValues(lines) :: IsSupportedContentType(v)
    ensures i < |lines| && LinesSay(lines, i, length)
  {
    KnownLinesCount(lines);
    if |lines| == 1 {
      i := 0;
      ValuesOfOne(lines);
      assert LengthsOf(Classify(lines[0]))[0] == Digits(length);
    } else {
      ValuesOfTwo(lines);
      assert KnownField(lines[0]) && KnownField(lines[1]);
      LengthLine(Classify(lines[0]), Classify(lines[1]), Digits(length));
      i := if Classify(lines[0]).ContentLength? then 0 else 1;
      TypeLineMeaning(lines[1 - i]);
    }
    ClassifyMeaning(lines[i], Digits(length));
  }

  /** `parseHeader` returns `length` exactly when the header says so. */
  lemma ParseHeaderMeaning(bytes: seq<Byte>, maxFrameBytes: nat, length: nat)
    ensures ParseHeader(bytes, maxFrameBytes) == Ok(length) <==> HeaderSays(bytes, maxFrameBytes, length)
  {
    ParseHeaderParses(bytes, maxFrameBytes, length);
    var lines := SplitLines(bytes);
    if ParsesAs(bytes, maxFrameBytes, length) {
      assert LengthValues(lines) == [Digits(length)];
      var i := ParsesLinesSay(lines, length);
    }
    if HeaderSays(bytes, maxFrameBytes, length) {
      var i :| 0 <= i < |lines| && LinesSay(lines, i, length);
      LinesSayParses(lines, i, length);
    }
  }

  /** The lines are the pieces between line ends. */
  function JoinLines(lines: seq<Text>): Text
    requires lines != []
  {
    if |lines| == 1 then lines[0] else lines[0] + CRLF + JoinLines(lines[1..])
  }

  lemma {:induction false} SplitLinesMeaning(text: Text)
    ensures JoinLines(SplitLines(text)) == text
    ensures forall line | line in SplitLines(text) :: FirstIndex(line, CRLF) < 0
  {
    var cut := FirstIndex(text, CRLF);
    if cut >= 0 {
      var rest := text[cut + 2..];
      SplitLinesMeaning(rest);
      assert SplitLines(text)[1..] == SplitLines(rest);
      assert text == text[..cut] + CRLF + rest;
      FirstIndexShort(text, cut, CRLF);
      forall line | line in SplitLines(text)
        ensures FirstIndex(line, CRLF) < 0
      {
        assert line == text[..cut] || line in SplitLines(rest);
      }
    }
  }

  // -------------------------------------------------------- the printed header

  lemma NoCarriageReturn(text: seq<Byte>)
    requires forall i | 0 <= i < |text| :: text[i] != 13
    ensures FirstIndex(text, CRLF) < 0
    ensures FirstIndex(text + HEADER_END, HEADER_END) == |text|
  {
    StartsWithReturn(text, CRLF);
    var whole := text + HEADER_END;
    StartsWithReturn(whole, HEADER_END);
    assert whole[|text|..|text| + 4] == HEADER_END;
    assert OccursAt(whole, HEADER_END, |text|);
    var j := FirstIndex(whole, HEADER_END);
    assert whole[j] == 13;
  }

  lemma StartsWithReturn(text: Text, needle: seq<Byte>)
    requires needle != [] && needle[0] == 13
    ensures FirstIndex(text, needle) >= 0 ==> text[FirstIndex(text, needle)] == 13
  {
    var k := FirstIndex(text, needle);
    if k >= 0 {
      assert text[k..k + |needle|][0] == text[k];
    }
  }

  lemma TrimKeeps(text: Text)
    requires text != [] && !IsSpace(text[0]) && !IsSpace(text[|text| - 1])
    ensures Trim(text) == text && Trim([32] + text) == text
  {
    assert ([32] + text)[1..] == text;
    assert TrimStart([32] + text) == TrimStart(text);
  }

  lemma PrintedHeaderUnits(length: nat)
    ensures forall i | 0 <= i < |HeaderFor(length)| :: 32 <= HeaderFor(length)[i] <= 0x7F
    ensures FirstIndex(HeaderFor(length), COLON) == 14
  {
    DigitsAreDecimal(length);
    var header := HeaderFor(length);
    forall i | 0 <= i < |header|
      ensures 32 <= header[i] <= 0x7F
    {
      if i >= |LENGTH_PREFIX| {
        assert IsDigit(Digits(length)[i - |LENGTH_PREFIX|]);
      }
    }
    assert header[14..15] == COLON;
    assert OccursAt(header, COLON, 14);
    var k := FirstIndex(header, COLON);
    assert header[k..k + 1][0] == header[k];
    assert header[k] == LENGTH_PREFIX[k];
  }

  lemma TrimSpaceDigits(length: nat)
    ensures Trim([32] + Digits(length)) == Digits(length)
  {
    DigitsAreDecimal(length);
    var digits := Digits(length);
    assert IsDigit(digits[0]) && IsDigit(digits[|digits| - 1]);
    TrimKeeps(digits);
  }

  lemma PrintedHeaderField(length: nat)
    ensures Classify(HeaderFor(length)) == ContentLength(Digits(length))
  {
    PrintedHeaderUnits(length);
    var header, digits := HeaderFor(length), Digits(length);
    TrimSpaceDigits(length);
    assert header[15..] == [32] + digits;
    var name := header[..14];
    assert name == LENGTH_PREFIX[..14];
    TrimKeeps(name);
    assert Lower(name) == CONTENT_LENGTH;
    assert Lower(Trim(header[..14])) == CONTENT_LENGTH && Trim(header[14 + 1..]) == digits;
  }

  /** The header block `encodeFrame` prints announces the length it was given. */
  lemma PrintedHeaderAnnounces<M(!new)>(limits: Limits<M>, length: nat)
    requires length <= limits.maxFrameBytes <= MAX_SAFE_INTEGER
    requires |HeaderFor(limits.maxFrameBytes)| <= limits.maxHeaderBytes
    ensures Announces(limits, HeaderFor(length), length)
    ensures |HeaderFor(length)| <= |HeaderFor(limits.maxFrameBytes)|
  {
    var header := HeaderFor(length);
    PrintedHeaderUnits(length);
    PrintedHeaderField(length);
    NoCarriageReturn(header);
    DigitsMonotone(length, limits.maxFrameBytes);
    assert SplitLines(header) == [header];
    ValuesOfOne([header]);
    ParseHeaderParses(header, limits.maxFrameBytes, length);
  }

  // ----------------------------------------------------- a header of two fields

  predicate IsOneLine(text: Text) {
    forall i | 0 <= i < |text| - 1 :: !(text[i] == 13 && text[i + 1] == 10)
  }

  lemma OneLine(text: Text)
    ensures IsOneLine(text) <==> FirstIndex(text, CRLF) < 0
  {
    var k := FirstIndex(text, CRLF);
    if k >= 0 {
      assert text[k..k + 2] == CRLF && text[k] == CRLF[0] && text[k + 1] == CRLF[1];
    } else {
      forall i | 0 <= i < |text| - 1
        ensures !(text[i] == 13 && text[i + 1] == 10)
      {
        assert !OccursAt(text, CRLF, i) && text[i..i + 2] == [text[i], text[i + 1]];
      }
    }
  }

  /** The printed length and a content type, on a line each. */
  function TypedHeader(length: nat, value: Text): Text
  {
    HeaderFor(length) + CRLF + TypeLine(value)
  }

  lemma TypedHeaderText(length: nat, value: Text)
    ensures TypedHeader(length, value) ==
            Ascii("Content-Length: ") + Digits(length) + Ascii("\r\n") + Ascii("Content-Type: ") + value
  {
    HeaderLiterals();
    assert HeaderFor(length) + CRLF + TypeLine(value) ==
           LENGTH_PREFIX + Digits(length) + CRLF + Ascii("Content-Type: ") + value;
  }

  lemma TypedHeaderIsAscii(length: nat, value: Text)
    requires forall i | 0 <= i < |value| :: value[i] < 0x80
    ensures IsAscii(TypedHeader(length, value))
  {
    PrintedHeaderUnits(length);
    var front, line := Ascii("Content-Type: "), TypeLine(value);
    assert IsAscii(front) && IsAscii(line) && IsAscii(CRLF);
  }

  function TypeLine(value: Text): Text {
    Ascii("Content-Type: ") + value
  }

  /** The two parts of a printed field. */
  lemma FieldParts(name: Text, value: Text)
    requires name != [] && !IsSpace(name[0]) && !IsSpace(name[|name| - 1])
    requires forall i | 0 <= i < |name| :: name[i] != ':' as int
    ensures var line := name + [58, 32] + value;
            && FirstIndex(line, COLON) == |name|
            && Trim(line[..|name|]) == name && Trim(line[|name| + 1..]) == Trim(value)
  {
    var line := name + [58, 32] + value;
    ColonAt(line, |name|);
    TrimKeeps(name);
    assert line[..|name|] == name && line[|name| + 1..] == [32] + value;
    assert ([32] + value)[1..] == value;
  }

  lemma TypeName()
    ensures var name := Ascii("Content-Type");
            && Ascii("Content-Type: ") == name + [58, 32]
            && (forall i | 0 <= i < |name| :: !IsSpace(name[i]) && name[i] != ':' as int)
            && |name| == 12 && Lower(name) == CONTENT_TYPE
  {
    FieldNames();
    LowerSpells(Ascii("Content-Type"), CONTENT_TYPE, "content-type");
  }

  lemma TypeLineField(value: Text)
    ensures Classify(TypeLine(value)) == ContentType(Trim(value))
  {
    TypeName();
    FieldParts(Ascii("Content-Type"), value);
    assert CONTENT_TYPE[8] != CONTENT_LENGTH[8];
  }

  lemma TypedHeaderLines(length: nat, value: Text)
    requires IsOneLine(value)
    ensures SplitLines(TypedHeader(length, value)) == [HeaderFor(length), TypeLine(value)]
  {
    var first, line := HeaderFor(length), TypeLine(value);
    var front := Ascii("Content-Type: ");
    assert forall i | 0 <= i < |line| - 1 :: line[i] == 13 ==> i >= |front| && value[i - |front|] == 13;
    OneLine(line);
    PrintedHeaderUnits(length);
    CutAtReturn(first, line);
    assert SplitLines(line) == [line];
  }

  lemma CutAtReturn(first: Text, line: Text)
    requires forall i | 0 <= i < |first| :: first[i] != 13
    ensures SplitLines(first + CRLF + line) == [first] + SplitLines(line)
  {
    var whole: Text := first + CRLF + line;
    StartsWithReturn(whole, CRLF);
    assert whole[|first|..|first| + 2] == CRLF && OccursAt(whole, CRLF, |first|);
    assert FirstIndex(whole, CRLF) == |first|;
    assert whole[..|first|] == first && whole[|first| + 2..] == line;
  }

  /** A printed length and a content type on one line are a header of that length
      exactly when the type is one of the protocol, white space around it aside. */
  lemma TypedHeaderMeaning(length: nat, value: Text, maxFrameBytes: nat)
    requires length <= maxFrameBytes && length <= 9_007_199_254_740_991
    requires IsOneLine(value) && forall i | 0 <= i < |value| :: value[i] < 0x80
    ensures ParseHeader(TypedHeader(length, value), maxFrameBytes) == Ok(length) <==>
            exists core :: Trimmed(value, core) && IsProtocolType(core)
  {
    var header := TypedHeader(length, value);
    var lines := SplitLines(header);
    TypedHeaderIsAscii(length, value);
    TypedHeaderLines(length, value);
    PrintedHeaderField(length);
    TypeLineField(value);
    ValuesOfTwo(lines);
    ParseHeaderParses(header, maxFrameBytes, length);
    TrimmedTypeMeaning(value);
  }

  lemma TrimmedTypeMeaning(value: Text)
    ensures IsSupportedContentType(Trim(value)) <==> exists core :: Trimmed(value, core) && IsProtocolType(core)
  {
    ContentTypeMeaning(Trim(value));
    TrimMeaning(value, Trim(value));
    if core :| Trimmed(value, core) && IsProtocolType(core) {
      TrimMeaning(value, core);
    }
  }

  /** The two forms of the type, the second the protocol's default, are read; the
      type with an empty parameter is not. */
  lemma TypesAreRead(length: nat, maxFrameBytes: nat)
    requires length <= maxFrameBytes && length <= 9_007_199_254_740_991
    ensures ParseHeader(TypedHeader(length, Ascii("application/vscode-jsonrpc")), maxFrameBytes) == Ok(length)
    ensures ParseHeader(TypedHeader(length, Ascii("application/vscode-jsonrpc; charset=utf-8")), maxFrameBytes) == Ok(length)
    ensures ParseHeader(TypedHeader(length, Ascii("application/vscode-jsonrpc;")), maxFrameBytes) != Ok(length)
  {
    PlainType();
    DefaultType();
    EmptyParameter();
    TypedHeaderMeaning(length, Ascii("application/vscode-jsonrpc"), maxFrameBytes);
    TypedHeaderMeaning(length, Ascii("application/vscode-jsonrpc; charset=utf-8"), maxFrameBytes);
    TypedHeaderMeaning(length, Ascii("application/vscode-jsonrpc;"), maxFrameBytes);
  }

  /** A printable literal is one trimmed line and spells itself. */
  lemma PrintableLine(s: string)
    requires s != "" && s[0] != ' ' && s[|s| - 1] != ' ' && forall i | 0 <= i < |s| :: ' ' <= s[i] <= '~'
    ensures IsOneLine(Ascii(s)) && Spells(Ascii(s), s)
    ensures forall core :: Trimmed(Ascii(s), core) <==> core == Ascii(s)
  {
    Whole(Ascii(s));
  }

  lemma PlainType()
    ensures var value := Ascii("application/vscode-jsonrpc");
            IsOneLine(value) && Trimmed(value, value) && IsProtocolType(value)
  {
    PrintableLine("application/vscode-jsonrpc");
  }

  lemma DefaultType()
    ensures var value := Ascii("application/vscode-jsonrpc; charset=utf-8");
            IsOneLine(value) && Trimmed(value, value) && IsProtocolType(value)
  {
    PrintableLine("application/vscode-jsonrpc; charset=utf-8");
    DefaultParameter();
  }

  lemma DefaultParameter()
    ensures IsProtocolType(Ascii("application/vscode-jsonrpc; charset=utf-8"))
  {
    DefaultName();
    DefaultCharset();
    var value := Ascii("application/vscode-jsonrpc; charset=utf-8");
    assert HasCharsetAt(value, 26, 28);
  }

  lemma DefaultName()
    ensures Spells(Ascii("application/vscode-jsonrpc; charset=utf-8")[..26], "application/vscode-jsonrpc")
  {
  }

  lemma DefaultCharset()
    ensures Spells(Ascii("application/vscode-jsonrpc; charset=utf-8")[28..], "charset=utf-8")
  {
  }

  lemma EmptyParameter()
    ensures var value := Ascii("application/vscode-jsonrpc;");
            IsOneLine(value) && forall core | Trimmed(value, core) :: !IsProtocolType(core)
  {
    PrintableLine("application/vscode-jsonrpc;");
  }

  /** A text without white space at its ends is trimmed. */
  lemma Whole(text: Text)
    requires text != [] && !White(text[0]) && !White(text[|text| - 1])
    ensures forall core :: Trimmed(text, core) <==> core == text
  {
    TrimKeeps(text);
    forall core
      ensures Trimmed(text, core) <==> core == text
    {
      TrimMeaning(text, core);
    }
  }

  // ------------------------------------------------------------ the round trip

  /** Limits under which a printed header fits even with its terminator still
      incomplete; the defaults are such. */
  predicate Roomy<M(!new)>(limits: Limits<M>) {
    && limits.maxFrameBytes <= MAX_SAFE_INTEGER
    && |HeaderFor(limits.maxFrameBytes)| + 3 <= limits.maxHeaderBytes
  }

  lemma DefaultLimitsAreRoomy<M(!new)>(json: JsonCodec<M>)
    ensures Roomy(Limits(MAX_FRAME_BYTES, MAX_HEADER_BYTES, json))
    ensures MAX_FRAME_BYTES == 1_048_576 && MAX_HEADER_BYTES == 8_192
  {
    DigitsMonotone(MAX_FRAME_BYTES, 9_999_999);
    assert Digits(9) == [57];
    assert |Digits(99)| == 2 && |Digits(999)| == 3;
    assert |Digits(9_999)| == 4 && |Digits(99_999)| == 5;
    assert |Digits(999_999)| == 6 && |Digits(9_999_999)| == 7;
  }

  /** `encodeFrame` produces a frame that carries its message, or throws exactly
      when the body is over budget. */
  lemma EncodedFrameCarries<M(!new)>(limits: Limits<M>, message: M) returns (frame: Frame)
    requires limits.json.Lawful() && Roomy(limits)
    requires EncodeFrame(limits, Object(message)).Ok?
    ensures EncodeFrame(limits, Object(message)) == Ok(Wire(frame))
    ensures Carries(limits, frame, message)
    ensures |frame.header| + 3 <= limits.maxHeaderBytes
  {
    var text := limits.json.stringify(message);
    DecodeUndoesEncode(text);
    var body := Encode(text).value;
    var header := HeaderFor(|body|);
    frame := Frame(header, body);
    PrintedHeaderAnnounces(limits, |body|);
    PrintedHeaderUnits(|body|);
    AsciiIsIdentity(header + HEADER_END);
  }

  /** Only a body over the frame budget is refused, and what is no object. */
  lemma EncodeFrameRefuses<M(!new)>(limits: Limits<M>, message: M)
    requires limits.json.Lawful()
    ensures EncodeFrame(limits, Object(message)).Ok? <==>
            exists body :: Encode(limits.json.stringify(message)) == Ok(body) && |body| <= limits.maxFrameBytes
    ensures EncodeFrame(limits, Object(message)).Err? ==> EncodeFrame(limits, Object(message)).error == FrameTooLarge
    ensures EncodeFrame(limits, NonObject) == Err(InvalidMessage)
  {
    var text := limits.json.stringify(message);
    DecodeUndoesEncode(text);
    var body := Encode(text).value;
    PrintedHeaderUnits(|body|);
    AsciiIsIdentity(HeaderFor(|body|) + HEADER_END);
  }

  /** The bytes of a list of messages, each encoded by `encodeFrame`. */
  function EncodeAll<M(!new)>(limits: Limits<M>, messages: seq<M>): Result<seq<Byte>, FrameError> {
    if messages == [] then Ok([])
    else
      var first :- EncodeFrame(limits, Object(messages[0]));
      var rest :- EncodeAll(limits, messages[1..]);
      Ok(first + rest)
  }

  ghost predicate ShortFrames<M(!new)>(limits: Limits<M>, frames: seq<Frame>) {
    forall i | 0 <= i < |frames| :: |frames[i].header| + 3 <= limits.maxHeaderBytes
  }

  lemma {:induction false} EncodedFramesCarry<M(!new)>(limits: Limits<M>, messages: seq<M>) returns (frames: seq<Frame>)
    requires limits.json.Lawful() && Roomy(limits)
    requires EncodeAll(limits, messages).Ok?
    ensures Wires(frames) == EncodeAll(limits, messages).value
    ensures CarriesAll(limits, frames, messages) && ShortFrames(limits, frames)
    decreases |messages|
  {
    if messages == [] {
      frames := [];
    } else {
      var first := EncodedFrameCarries(limits, messages[0]);
      var rest := EncodedFramesCarry(limits, messages[1..]);
      frames := [first] + rest;
      assert frames[1..] == rest;
    }
  }

  lemma {:induction false} ShortFramesDrainShort<M(!new)>(limits: Limits<M>, frames: seq<Frame>, messages: seq<M>)
    requires CarriesAll(limits, frames, messages) && ShortFrames(limits, frames)
    ensures ShortHeaders(limits, DecoderState(Wires(frames), None))
    decreases |frames|
  {
    var state := DecoderState(Wires(frames), None);
    if frames != [] {
      var more := Wires(frames[1..]);
      ShortFramesDrainShort(limits, frames[1..], messages[1..]);
      FrameStep(limits, frames[0], messages[0], more);
      FirstHeaderLength(limits, frames[0], more);
    }
  }

  lemma FirstHeaderLength<M(!new)>(limits: Limits<M>, frame: Frame, more: seq<Byte>)
    requires Announces(limits, frame.header, |frame.body|)
    ensures FirstIndex(Wire(frame) + more, HEADER_END) == |frame.header|
  {
    FirstIndexExtend(frame.header + HEADER_END, frame.body + more, HEADER_END);
    assert Wire(frame) + more == frame.header + HEADER_END + (frame.body + more);
  }

  /** Frames with short header blocks, in any pieces: they are delivered if and only if
      every piece is within the push budget on the residue before it, and then exactly,
      and the decoder is left where `finish` succeeds. */
  lemma FramesInPieces<M(!new)>(limits: Limits<M>, frames: seq<Frame>, messages: seq<M>, chunks: seq<seq<Byte>>)
    requires CarriesAll(limits, frames, messages) && Flatten(chunks) == Wires(frames)
    ensures PushAll(limits, INITIAL, chunks).Delivered? ==>
              PushAll(limits, INITIAL, chunks) == Delivered(messages, INITIAL)
    ensures ShortFrames(limits, frames) ==>
              (PushAll(limits, INITIAL, chunks).Delivered? <==> ChunksFit(limits, INITIAL, chunks))
  {
    var bytes := Flatten(chunks);
    assert [] + bytes == bytes && Wires(frames) + [] == bytes;
    DecodesFrames(limits, frames, messages, [], INITIAL);
    if PushAll(limits, INITIAL, chunks).Delivered? {
      PiecesAgree(limits, INITIAL, chunks);
    }
    if ShortFrames(limits, frames) {
      ShortFramesDrainShort(limits, frames, messages);
      DeliveredExactlyWhenChunksFit(limits, INITIAL, chunks);
    }
  }

  /** The frame round trip: of any list of messages, encoded and pushed in any pieces,
      exactly the list is delivered if and only if every piece is within the push
      budget on the residue before it; `finish` then succeeds. */
  lemma EncodeThenDecode<M(!new)>(limits: Limits<M>, messages: seq<M>, chunks: seq<seq<Byte>>)
    requires limits.json.Lawful() && Roomy(limits)
    requires EncodeAll(limits, messages) == Ok(Flatten(chunks))
    ensures PushAll(limits, INITIAL, chunks) == Delivered(messages, INITIAL) <==> ChunksFit(limits, INITIAL, chunks)
  {
    var frames := EncodedFramesCarry(limits, messages);
    FramesInPieces(limits, frames, messages, chunks);
  }

  /** The same in one push, when the whole stream is within the push budget. */
  lemma EncodeThenDecodeAtOnce<M(!new)>(limits: Limits<M>, messages: seq<M>, chunks: seq<seq<Byte>>)
    requires limits.json.Lawful() && Roomy(limits)
    requires EncodeAll(limits, messages) == Ok(Flatten(chunks))
    requires WithinBudget(limits, INITIAL, Flatten(chunks))
    ensures PushChunk(limits, INITIAL, Flatten(chunks)) == Delivered(messages, INITIAL)
    ensures PushAll(limits, INITIAL, chunks) == Delivered(messages, INITIAL)
  {
    var frames := EncodedFramesCarry(limits, messages);
    var bytes := Flatten(chunks);
    assert [] + bytes == bytes && Wires(frames) + [] == bytes;
    DecodesFrames(limits, frames, messages, [], INITIAL);
    ShortFramesDrainShort(limits, frames, messages);
    ChunkingIndependence(limits, INITIAL, chunks);
  }

  /** A chunk of this size is within the push budget in every quiet state. */
  function SafeChunk<M(!new)>(limits: Limits<M>): nat {
    4 + if limits.maxFrameBytes < limits.maxHeaderBytes then limits.maxFrameBytes else limits.maxHeaderBytes
  }

  /** Pieces of bounded size always fit. */
  lemma {:induction false} SmallChunksFit<M(!new)>(limits: Limits<M>, state: DecoderState, chunks: seq<seq<Byte>>)
    requires Quiet(limits, state)
    requires forall c | c in chunks :: |c| <= SafeChunk(limits)
    requires Drain(limits, Extend(state, Flatten(chunks))).Delivered?
    requires ShortHeaders(limits, Extend(state, Flatten(chunks)))
    ensures ChunksFit(limits, state, chunks)
    decreases |chunks|
  {
    if chunks != [] {
      var first, later := Extend(state, chunks[0]), Flatten(chunks[1..]);
      assert chunks[0] in chunks;
      ExtendTwice(state, chunks[0], later);
      PrefixDrains(limits, first, later);
      DrainIsMaximal(limits, first);
      DrainExtend(limits, first, later);
      ShortHeadersAfter(limits, first, later);
      SmallChunksFit(limits, Drain(limits, first).state, chunks[1..]);
    }
  }

  /** A read of at most `maxFrameBytes` bytes that the decoder refuses: after the
      header block of a largest frame and all but the last byte of its body, which it
      accepts, any read longer than `maxHeaderBytes` + 5 exceeds the push budget. */
  lemma LegalReadIsRefused<M(!new)>(limits: Limits<M>, body: seq<Byte>, read: seq<Byte>)
    requires Roomy(limits) && |body| + 1 == limits.maxFrameBytes
    requires limits.maxHeaderBytes + 5 < |read| <= limits.maxFrameBytes
    ensures var state := DecoderState(body, Some(limits.maxFrameBytes));
            && PushChunk(limits, INITIAL, HeaderFor(limits.maxFrameBytes) + HEADER_END + body) == Delivered([], state)
            && PushChunk(limits, state, read) == Thrown(FrameTooLarge, state)
  {
    var header := HeaderFor(limits.maxFrameBytes);
    PrintedHeaderAnnounces(limits, limits.maxFrameBytes);
    AnnouncedStep(limits, header, limits.maxFrameBytes, body);
    var start := header + HEADER_END + body;
    assert Extend(INITIAL, start) == DecoderState(start, None) by {
      assert [] + start == start;
    }
  }
}
