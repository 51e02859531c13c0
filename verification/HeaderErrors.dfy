/** Which error a header block or a body is refused with: the first offence decides
    (packages/lsp-shared/framing.js:14-64). */
module HeaderErrors {
  import opened Wrappers
  import opened Utf8
  import opened Framing
  import opened HeaderGrammar
  import opened FrameRoundTrip

  /** A line without a colon, or with nothing before it. */
  predicate IsMalformed(line: Text) {
    (line != [] && line[0] == ':' as int) || forall i | 0 <= i < |line| :: line[i] != ':' as int
  }

  /** A line of a field that is neither of the two. */
  ghost predicate IsUnsupported(line: Text, name: Text) {
    exists separator, core | 0 < separator < |line| :: IsUnsupportedAt(line, separator, core, name)
  }

  ghost predicate IsUnsupportedAt(line: Text, separator: nat, core: Text, name: Text)
    requires separator < |line|
  {
    && line[separator] == ':' as int && (forall i | 0 <= i < separator :: line[i] != ':' as int)
    && Trimmed(line[..separator], core) && name == Lower(core)
    && !Spells(core, "content-length") && !Spells(core, "content-type")
  }

  ghost predicate IsFieldOf(line: Text, name: string) {
    exists value :: IsField(line, name, value)
  }

  ghost predicate IsLengthLine(line: Text) {
    exists length: nat :: IsField(line, "content-length", Digits(length))
  }

  ghost predicate SeenBefore(lines: seq<Text>, i: nat, name: string)
    requires i <= |lines|
  {
    exists j | 0 <= j < i :: IsFieldOf(lines[j], name)
  }

  /** What is wrong with line `i`. */
  ghost predicate Offends(lines: seq<Text>, i: nat, error: FrameError)
    requires i < |lines|
  {
    match error
    case MalformedHeaderLine => IsMalformed(lines[i])
    case UnsupportedHeader(name) => IsUnsupported(lines[i], name)
    case BadContentLength =>
      IsFieldOf(lines[i], "content-length") && (SeenBefore(lines, i, "content-length") || !IsLengthLine(lines[i]))
    case BadContentType =>
      IsFieldOf(lines[i], "content-type") && (SeenBefore(lines, i, "content-type") || !IsTypeLine(lines[i]))
    case _ => false
  }

  ghost predicate IsFine(lines: seq<Text>, i: nat)
    requires i < |lines|
  {
    forall error :: !Offends(lines, i, error)
  }

  /** Line `i` is the first that is not fine. */
  ghost predicate FirstOffence(lines: seq<Text>, i: nat, error: FrameError)
    requires i < |lines|
  {
    Offends(lines, i, error) && forall j | 0 <= j < i :: IsFine(lines, j)
  }

  // -------------------------------------------------------------------- one line

  lemma MalformedMeaning(line: Text)
    ensures Classify(line) == Malformed <==> IsMalformed(line)
  {
    var first := FirstIndex(line, COLON);
    if first >= 0 {
      ColonAt(line, first);
    } else {
      forall i | 0 <= i < |line|
        ensures line[i] != ':' as int
      {
        assert !OccursAt(line, COLON, i) && line[i..i + 1] == [line[i]];
      }
    }
    if line != [] && line[0] == ':' as int {
      ColonAt(line, 0);
    }
  }

  lemma UnsupportedMeaning(line: Text, name: Text)
    ensures Classify(line) == Unsupported(name) <==> IsUnsupported(line, name)
  {
    var first := FirstIndex(line, COLON);
    if first >= 1 {
      var core := Trim(line[..first]);
      ColonAt(line, first);
      TrimIsTrimmed(line[..first]);
      KnownNames(core);
      if Classify(line) == Unsupported(name) {
        assert IsUnsupportedAt(line, first, core, name);
      }
    }
    if separator, core :| 0 < separator < |line| && IsUnsupportedAt(line, separator, core, name) {
      ColonAt(line, separator);
      TrimMeaning(line[..separator], core);
      KnownNames(core);
    }
  }

  lemma KnownNames(core: Text)
    ensures Lower(core) == CONTENT_LENGTH <==> Spells(core, "content-length")
    ensures Lower(core) == CONTENT_TYPE <==> Spells(core, "content-type")
  {
    FieldNames();
    LowerSpells(core, CONTENT_LENGTH, "content-length");
    LowerSpells(core, CONTENT_TYPE, "content-type");
  }

  lemma FieldOfMeaning(line: Text)
    ensures IsFieldOf(line, "content-length") <==> Classify(line).ContentLength?
    ensures IsFieldOf(line, "content-type") <==> Classify(line).ContentType?
  {
    if Classify(line).ContentLength? || Classify(line).ContentType? {
      ClassifyMeaning(line, Classify(line).value);
    }
    if value :| IsField(line, "content-length", value) {
      ClassifyMeaning(line, value);
    }
    if value :| IsField(line, "content-type", value) {
      ClassifyMeaning(line, value);
    }
  }

  lemma LengthLineMeaning(line: Text)
    ensures IsLengthLine(line) <==> Classify(line).ContentLength? && IsDecimal(Classify(line).value)
  {
    if Classify(line).ContentLength? && IsDecimal(Classify(line).value) {
      ClassifyMeaning(line, Classify(line).value);
      DecimalIsCanonical(Classify(line).value);
    }
    if length: nat :| IsField(line, "content-length", Digits(length)) {
      ClassifyMeaning(line, Digits(length));
      DigitsAreDecimal(length);
    }
  }

  // ------------------------------------------------------------------- the lines

  /** What the loop variables know of the lines before `i`. */
  ghost predicate Knows(state: HeaderState, lines: seq<Text>, i: nat)
    requires i <= |lines|
  {
    && (state.length.Some? <==> SeenBefore(lines, i, "content-length"))
    && (state.contentTypeSeen <==> SeenBefore(lines, i, "content-type"))
  }

  lemma SeenStep(lines: seq<Text>, i: nat, name: string)
    requires i < |lines|
    ensures SeenBefore(lines, i + 1, name) <==> SeenBefore(lines, i, name) || IsFieldOf(lines[i], name)
  {
  }

  /** One round of the loop finds exactly what is wrong with its line. */
  lemma RoundMeaning(state: HeaderState, lines: seq<Text>, i: nat, error: FrameError)
    requires i < |lines| && Knows(state, lines, i)
    ensures AbsorbLine(state, lines[i]) == Err(error) <==> Offends(lines, i, error)
  {
    var line := lines[i];
    MalformedMeaning(line);
    FieldOfMeaning(line);
    LengthLineMeaning(line);
    TypeLineMeaning(line);
    if error.UnsupportedHeader? {
      UnsupportedMeaning(line, error.name);
    }
  }

  lemma RoundFine(state: HeaderState, lines: seq<Text>, i: nat)
    requires i < |lines| && Knows(state, lines, i)
    ensures AbsorbLine(state, lines[i]).Ok? <==> IsFine(lines, i)
    ensures AbsorbLine(state, lines[i]).Ok? ==> Knows(AbsorbLine(state, lines[i]).value, lines, i + 1)
  {
    forall error
      ensures AbsorbLine(state, lines[i]) == Err(error) <==> Offends(lines, i, error)
    {
      RoundMeaning(state, lines, i, error);
    }
    if AbsorbLine(state, lines[i]).Err? {
      assert Offends(lines, i, AbsorbLine(state, lines[i]).error);
    }
    FieldOfMeaning(lines[i]);
    SeenStep(lines, i, "content-length");
    SeenStep(lines, i, "content-type");
  }

  lemma LaterOffence(lines: seq<Text>, i: nat, own: FrameError, error: FrameError)
    requires i < |lines| && Offends(lines, i, own) && forall j | 0 <= j < i :: IsFine(lines, j)
    requires Offends(lines, i, error) <==> error == own
    ensures error == own <==> exists k | i <= k < |lines| :: FirstOffence(lines, k, error)
  {
    assert !IsFine(lines, i);
    if error == own {
      assert FirstOffence(lines, i, error);
    }
  }

  /** The loop from line `i` on, the lines before it being fine. */
  lemma {:induction false} LoopMeaning(state: HeaderState, lines: seq<Text>, i: nat, error: FrameError)
    requires i <= |lines| && Knows(state, lines, i) && forall j | 0 <= j < i :: IsFine(lines, j)
    ensures AbsorbLines(state, lines[i..]) == Err(error) <==> exists k | i <= k < |lines| :: FirstOffence(lines, k, error)
    ensures AbsorbLines(state, lines[i..]).Ok? <==> AllFine(lines)
    decreases |lines| - i
  {
    if i < |lines| {
      var next := AbsorbLine(state, lines[i]);
      assert AbsorbLines(state, lines[i..]) == if next.Ok? then AbsorbLines(next.value, lines[i + 1..]) else Err(next.error) by {
        assert lines[i..][0] == lines[i] && lines[i..][1..] == lines[i + 1..];
      }
      RoundMeaning(state, lines, i, error);
      RoundFine(state, lines, i);
      if next.Ok? {
        LoopMeaning(next.value, lines, i + 1, error);
        assert !Offends(lines, i, error);
      } else {
        RoundMeaning(state, lines, i, next.error);
        LaterOffence(lines, i, next.error, error);
      }
    }
  }

  ghost predicate AllFine(lines: seq<Text>) {
    forall i | 0 <= i < |lines| :: IsFine(lines, i)
  }

  lemma LinesMeaning(lines: seq<Text>, error: FrameError)
    ensures AbsorbLines(NO_LINES, lines) == Err(error) <==> exists i | 0 <= i < |lines| :: FirstOffence(lines, i, error)
    ensures AbsorbLines(NO_LINES, lines).Ok? <==> AllFine(lines)
  {
    assert lines[0..] == lines;
    LoopMeaning(NO_LINES, lines, 0, error);
  }

  // ------------------------------------------------------------------ the length

  lemma {:induction false} LengthValuesAre(lines: seq<Text>, value: Text)
    ensures value in LengthValues(lines) <==> exists i | 0 <= i < |lines| :: IsField(lines[i], "content-length", value)
  {
    if lines != [] {
      LengthValuesAre(lines[1..], value);
      ClassifyMeaning(lines[0], value);
      assert value in LengthsOf(Classify(lines[0])) <==> IsField(lines[0], "content-length", value);
      if i :| 0 <= i < |lines| && IsField(lines[i], "content-length", value) {
        assert i > 0 ==> lines[1..][i - 1] == lines[i];
      }
    }
  }

  /** A line announces the length. */
  ghost predicate Announced(lines: seq<Text>, length: nat) {
    exists i | 0 <= i < |lines| :: IsField(lines[i], "content-length", Digits(length))
  }

  /** The length of lines that are fine is the announced one. */
  lemma LengthOfFine(lines: seq<Text>, length: nat)
    requires AbsorbLines(NO_LINES, lines).Ok?
    ensures AbsorbLines(NO_LINES, lines).value.length == Some(length) <==> Announced(lines, length)
  {
    AbsorbLinesMeaning(NO_LINES, lines);
    LengthValuesAre(lines, Digits(length));
    var found := AbsorbLines(NO_LINES, lines).value.length;
    if found.Some? {
      DigitsAreDecimal(found.value);
    }
    DigitsAreDecimal(length);
  }

  // ----------------------------------------------------------------- the header

  /** Every refusal of a header block: bytes outside ASCII first, then the first line that
      is not fine, then a missing length, then one over the budgets. */
  lemma HeaderIsRefusedWith(bytes: seq<Byte>, maxFrameBytes: nat, error: FrameError)
    ensures var lines := SplitLines(bytes);
            ParseHeader(bytes, maxFrameBytes) == Err(error) <==>
            if exists i | 0 <= i < |bytes| :: bytes[i] >= 0x80 then error == NonAsciiHeader
            else if !AllFine(lines) then exists i | 0 <= i < |lines| :: FirstOffence(lines, i, error)
            else if forall length: nat :: !Announced(lines, length) then error == MissingContentLength
            else error == FrameTooLarge && forall length: nat | Announced(lines, length) ::
                   length > maxFrameBytes || length > 9_007_199_254_740_991
  {
    var lines := SplitLines(bytes);
    if IsAscii(bytes) {
      LinesMeaning(lines, error);
      if AllFine(lines) {
        FineIsRefusedWith(lines, maxFrameBytes, error);
      }
    }
  }

  lemma FineIsRefusedWith(lines: seq<Text>, maxFrameBytes: nat, error: FrameError)
    requires AbsorbLines(NO_LINES, lines).Ok?
    ensures CheckLength(AbsorbLines(NO_LINES, lines).value, maxFrameBytes) == Err(error) <==>
            if forall length: nat :: !Announced(lines, length) then error == MissingContentLength
            else error == FrameTooLarge && forall length: nat | Announced(lines, length) ::
                   length > maxFrameBytes || length > 9_007_199_254_740_991
  {
    forall length: nat
      ensures AbsorbLines(NO_LINES, lines).value.length == Some(length) <==> Announced(lines, length)
    {
      LengthOfFine(lines, length);
    }
    var found := AbsorbLines(NO_LINES, lines).value.length;
    if found.Some? {
      assert Announced(lines, found.value);
    }
  }

  // ------------------------------------------------------------------- the body

  /** A body is a message exactly when it encodes a text that is an object; text that is
      another value and bytes that are no JSON text are refused differently. */
  lemma BodyMeaning<M(!new)>(json: JsonCodec<M>, body: seq<Byte>, message: M)
    ensures ReadBody(json, body) == Ok(message) <==>
            exists text :: Encode(text) == Ok(body) && json.parse(text) == Some(Object(message))
    ensures ReadBody(json, body) == Err(InvalidMessage) <==>
            exists text :: Encode(text) == Ok(body) && json.parse(text) == Some(NonObject)
    ensures ReadBody(json, body) == Err(InvalidJson) <==>
            forall text | Encode(text) == Ok(body) :: json.parse(text) == None
  {
    if Decode(body).Ok? {
      EncodeUndoesDecode(body);
    }
    forall text | Encode(text) == Ok(body)
      ensures Decode(body) == Ok(text)
    {
      DecodeUndoesEncode(text);
    }
  }
}
