/** The header fields of the base protocol as text, spelled out, and what the header
    parser makes of a line (packages/lsp-shared/framing.js:31-49). */
module HeaderGrammar {
  import opened Utf8
  import opened Framing

  /** The bytes of an ASCII literal. */
  function Ascii(s: string): (text: seq<Byte>)
    ensures |text| == |s| && forall i | 0 <= i < |s| && s[i] < '\U{80}' :: text[i] == s[i] as int
  {
    seq(|s|, i requires 0 <= i < |s| => if s[i] < '\U{80}' then s[i] as int else 0)
  }

  /** In lower case. */
  predicate IsLowerAscii(s: string) {
    forall i | 0 <= i < |s| :: s[i] < '\U{80}' && !('A' <= s[i] <= 'Z')
  }

  /** The text is the literal, a lower-case letter standing for either case. */
  predicate Spells(text: Text, s: string) {
    && |text| == |s|
    && forall i | 0 <= i < |s| :: text[i] == s[i] as int || ('a' <= s[i] <= 'z' && text[i] == s[i] as int - 32)
  }

  /** ASCII white space. */
  predicate White(u: CodeUnit) {
    u == 9 || u == 10 || u == 11 || u == 12 || u == 13 || u == 32
  }

  predicate Blank(text: Text) {
    forall i | 0 <= i < |text| :: White(text[i])
  }

  /** `core` is the text without white space around it. */
  ghost predicate Trimmed(text: Text, core: Text) {
    exists a, b | 0 <= a <= b <= |text| :: TrimmedAt(text, a, b) && core == text[a..b]
  }

  ghost predicate TrimmedAt(text: Text, a: nat, b: nat)
    requires a <= b <= |text|
  {
    Blank(text[..a]) && Blank(text[b..]) && (a < b ==> !White(text[a]) && !White(text[b - 1]))
  }

  /** A field line: a name, in any case, the first colon, and a value, each with white
      space around it. */
  ghost predicate IsField(line: Text, name: string, value: Text) {
    exists separator | 0 < separator < |line| :: IsFieldAt(line, separator, name, value)
  }

  ghost predicate IsFieldAt(line: Text, separator: nat, name: string, value: Text)
    requires separator < |line|
  {
    && line[separator] == ':' as int && (forall i | 0 <= i < separator :: line[i] != ':' as int)
    && Trimmed(line[separator + 1..], value)
    && exists core :: Trimmed(line[..separator], core) && Spells(core, name)
  }

  /** The content types of the protocol. */
  ghost predicate IsProtocolType(value: Text) {
    || Spells(value, "application/vscode-jsonrpc")
    || exists semicolon, parameter | 26 <= semicolon < parameter <= |value| :: HasCharsetAt(value, semicolon, parameter)
  }

  ghost predicate HasCharsetAt(value: Text, semicolon: nat, parameter: nat)
    requires 26 <= semicolon < parameter <= |value|
  {
    && Spells(value[..26], "application/vscode-jsonrpc") && Blank(value[26..semicolon])
    && value[semicolon] == ';' as int && Blank(value[semicolon + 1..parameter])
    && Spells(value[parameter..], "charset=utf-8")
  }

  // ------------------------------------------------------------------- trimming

  lemma {:induction false} TrimStartAt(text: Text, a: nat)
    requires a <= |text| && Blank(text[..a]) && (a < |text| ==> !IsSpace(text[a]))
    ensures TrimStart(text) == text[a..]
  {
    if a > 0 {
      assert IsSpace(text[..a][0]);
      var rest := text[1..];
      assert rest[..a - 1] == text[..a][1..] && rest[a - 1..] == text[a..];
      TrimStartAt(rest, a - 1);
    }
  }

  lemma {:induction false} TrimEndAt(text: Text, b: nat)
    requires b <= |text| && Blank(text[b..]) && (b > 0 ==> !IsSpace(text[b - 1]))
    ensures TrimEnd(text) == text[..b]
    decreases |text|
  {
    if b < |text| {
      assert IsSpace(text[b..][|text| - 1 - b]);
      var front := text[..|text| - 1];
      assert front[b..] == text[b..][..|text| - 1 - b] && front[..b] == text[..b];
      TrimEndAt(front, b);
    }
  }

  /** Where the white space at the start ends, and where that at the end begins. */
  lemma {:induction false} StartOf(text: Text) returns (a: nat)
    ensures a <= |text| && Blank(text[..a]) && (a < |text| ==> !IsSpace(text[a]))
  {
    if text != [] && IsSpace(text[0]) {
      var rest := StartOf(text[1..]);
      a := rest + 1;
      assert text[..a] == [text[0]] + text[1..][..rest];
    } else {
      a := 0;
    }
  }

  lemma {:induction false} EndOf(text: Text) returns (b: nat)
    ensures b <= |text| && Blank(text[b..]) && (b > 0 ==> !IsSpace(text[b - 1]))
    ensures text != [] && !IsSpace(text[0]) ==> b > 0
    decreases |text|
  {
    if text != [] && IsSpace(text[|text| - 1]) {
      var front := text[..|text| - 1];
      b := EndOf(front);
      assert text[b..] == front[b..] + [text[|text| - 1]];
    } else {
      b := |text|;
    }
  }

  lemma TrimOfTrimmed(text: Text, a: nat, b: nat)
    requires a <= b <= |text| && TrimmedAt(text, a, b)
    ensures Trim(text) == text[a..b]
  {
    if a < b {
      TrimStartAt(text, a);
      assert text[a..][b - a..] == text[b..] && text[a..][..b - a] == text[a..b];
      TrimEndAt(text[a..], b - a);
    } else {
      assert Blank(text) by {
        assert text == text[..a] + text[b..];
      }
      assert text[..|text|] == text && text[|text|..] == [];
      TrimStartAt(text, |text|);
    }
  }

  lemma TrimIsTrimmed(text: Text)
    ensures Trimmed(text, Trim(text))
  {
    var a := StartOf(text);
    if a == |text| {
      assert TrimmedAt(text, a, a);
      TrimOfTrimmed(text, a, a);
    } else {
      var n := EndOf(text[a..]);
      var b := a + n;
      assert text[a..][n..] == text[b..] && text[a..][n - 1] == text[b - 1];
      assert TrimmedAt(text, a, b);
      TrimOfTrimmed(text, a, b);
    }
  }

  /** `trim` takes exactly the white space around a text away. */
  lemma TrimMeaning(text: Text, core: Text)
    ensures Trimmed(text, core) <==> Trim(text) == core
  {
    TrimIsTrimmed(text);
    if a, b :| 0 <= a <= b <= |text| && TrimmedAt(text, a, b) && core == text[a..b] {
      TrimOfTrimmed(text, a, b);
    }
  }

  // ------------------------------------------------------------------- spelling

  /** Comparing in lower case with an ASCII literal without capitals. */
  lemma LowerSpells(text: Text, literal: Text, s: string)
    requires IsLowerAscii(s) && literal == Ascii(s)
    ensures Lower(text) == literal <==> Spells(text, s)
  {
    if Lower(text) == literal {
      forall i | 0 <= i < |s|
        ensures text[i] == s[i] as int || ('a' <= s[i] <= 'z' && text[i] == s[i] as int - 32)
      {
        assert LowerUnit(text[i]) == Lower(text)[i] == literal[i];
      }
    }
    if Spells(text, s) {
      forall i | 0 <= i < |s|
        ensures Lower(text)[i] == literal[i]
      {
        assert text[i] == s[i] as int || ('a' <= s[i] <= 'z' && text[i] == s[i] as int - 32);
      }
      assert Lower(text) == literal;
    }
  }

  lemma FieldNames()
    ensures CONTENT_LENGTH == Ascii("content-length") && CONTENT_TYPE == Ascii("content-type")
  {
  }

  lemma TypeLiterals()
    ensures JSON_RPC_TYPE == Ascii("application/vscode-jsonrpc")
    ensures CHARSET_UTF8 == Ascii("charset=utf-8")
  {
  }

  /** What `encodeFrame` prints around the length. */
  lemma HeaderLiterals()
    ensures LENGTH_PREFIX == Ascii("Content-Length: ")
    ensures CRLF == Ascii("\r\n") && HEADER_END == Ascii("\r\n\r\n")
  {
  }

  // ------------------------------------------------------------------ field lines

  lemma ColonAt(line: Text, separator: nat)
    ensures FirstIndex(line, COLON) == separator <==>
            separator < |line| && line[separator] == ':' as int && forall i | 0 <= i < separator :: line[i] != ':' as int
  {
    var first := FirstIndex(line, COLON);
    if first >= 0 {
      assert OccursAt(line, COLON, first) && COLON[0] == 58;
      assert line[first..first + 1][0] == line[first];
      forall i | 0 <= i < first
        ensures line[i] != ':' as int
      {
        assert !OccursAt(line, COLON, i);
        assert line[i..i + 1] == [line[i]];
      }
    }
    if separator < |line| && line[separator] == ':' as int {
      assert line[separator..separator + 1] == COLON && OccursAt(line, COLON, separator);
    }
  }

  /** The part of a line before its first colon, when it is a known field name. */
  ghost predicate HasName(line: Text, separator: int, name: string) {
    && 0 < separator < |line| && FirstIndex(line, COLON) == separator
    && exists core :: Trimmed(line[..separator], core) && Spells(core, name)
  }

  lemma NameMeaning(line: Text, name: string, literal: Text)
    requires IsLowerAscii(name) && literal == Ascii(name)
    ensures var separator := FirstIndex(line, COLON);
            HasName(line, separator, name) <==> separator >= 1 && Lower(Trim(line[..separator])) == literal
  {
    var separator := FirstIndex(line, COLON);
    if separator >= 1 {
      var core := Trim(line[..separator]);
      TrimIsTrimmed(line[..separator]);
      LowerSpells(core, literal, name);
      if other :| Trimmed(line[..separator], other) && Spells(other, name) {
        TrimMeaning(line[..separator], other);
      }
    }
  }

  lemma FieldMeaning(line: Text, name: string, literal: Text, value: Text)
    requires IsLowerAscii(name) && literal == Ascii(name)
    ensures var separator := FirstIndex(line, COLON);
            IsField(line, name, value) <==>
            separator >= 1 && Lower(Trim(line[..separator])) == literal && Trim(line[separator + 1..]) == value
  {
    var first := FirstIndex(line, COLON);
    NameMeaning(line, name, literal);
    if first >= 1 {
      ColonAt(line, first);
      TrimMeaning(line[first + 1..], value);
      if HasName(line, first, name) && Trim(line[first + 1..]) == value {
        assert IsFieldAt(line, first, name, value);
      }
    }
    if separator :| 0 < separator < |line| && IsFieldAt(line, separator, name, value) {
      ColonAt(line, separator);
      assert HasName(line, first, name);
    }
  }

  /** What the parser takes for the two fields are their lines. */
  lemma ClassifyMeaning(line: Text, value: Text)
    ensures Classify(line) == ContentLength(value) <==> IsField(line, "content-length", value)
    ensures Classify(line) == ContentType(value) <==> IsField(line, "content-type", value)
  {
    FieldNames();
    FieldMeaning(line, "content-length", CONTENT_LENGTH, value);
    FieldMeaning(line, "content-type", CONTENT_TYPE, value);
  }

  // ---------------------------------------------------------------- content types

  lemma LowerKeeps(text: Text, from: nat, to: nat)
    requires from <= to <= |text|
    ensures Lower(text)[from..to] == Lower(text[from..to])
    ensures Blank(Lower(text)[from..to]) <==> Blank(text[from..to])
  {
    var part, lower := text[from..to], Lower(text)[from..to];
    assert forall i | 0 <= i < |part| :: lower[i] == LowerUnit(part[i]);
  }

  lemma TypePrefix(value: Text)
    ensures JSON_RPC_TYPE <= Lower(value) <==> 26 <= |value| && Spells(value[..26], "application/vscode-jsonrpc")
  {
    TypeLiterals();
    if 26 <= |value| {
      LowerKeeps(value, 0, 26);
      LowerSpells(value[..26], JSON_RPC_TYPE, "application/vscode-jsonrpc");
    }
  }

  /** The charset parameter of a value in lower case. */
  predicate LowerCharsetAt(lower: Text, semicolon: nat, parameter: nat)
    requires 26 <= semicolon < parameter <= |lower|
  {
    && Blank(lower[26..semicolon]) && lower[semicolon] == ';' as int && Blank(lower[semicolon + 1..parameter])
    && lower[parameter..] == CHARSET_UTF8
  }

  lemma LowerCharset(value: Text, semicolon: nat, parameter: nat)
    requires 26 <= semicolon < parameter <= |value|
    ensures HasCharsetAt(value, semicolon, parameter) <==>
            JSON_RPC_TYPE <= Lower(value) && LowerCharsetAt(Lower(value), semicolon, parameter)
  {
    TypeLiterals();
    TypePrefix(value);
    LowerKeeps(value, 26, semicolon);
    LowerKeeps(value, semicolon + 1, parameter);
    LowerKeeps(value, parameter, |value|);
    assert value[parameter..|value|] == value[parameter..] && Lower(value)[parameter..|value|] == Lower(value)[parameter..];
    LowerSpells(value[parameter..], CHARSET_UTF8, "charset=utf-8");
    assert Lower(value)[semicolon] == LowerUnit(value[semicolon]);
  }

  /** What the parser does after the type. */
  predicate Parameter(lower: Text)
    requires 26 <= |lower|
  {
    var parameter := TrimStart(lower[26..]);
    parameter != [] && parameter[0] == 59 && TrimStart(parameter[1..]) == CHARSET_UTF8
  }

  lemma CharsetIsParameter(lower: Text, semicolon: nat, parameter: nat)
    requires 26 <= semicolon < parameter <= |lower| && LowerCharsetAt(lower, semicolon, parameter)
    ensures Parameter(lower)
  {
    var suffix, rest := lower[26..], lower[semicolon + 1..];
    assert suffix[..semicolon - 26] == lower[26..semicolon] && suffix[semicolon - 26] == 59;
    TrimStartAt(suffix, semicolon - 26);
    assert suffix[semicolon - 26..] == lower[semicolon..] && lower[semicolon..][1..] == rest;
    var m := parameter - semicolon - 1;
    assert rest[..m] == lower[semicolon + 1..parameter] && rest[m..] == lower[parameter..];
    assert rest[m..][0] == CHARSET_UTF8[0] == 99;
    TrimStartAt(rest, m);
  }

  lemma ParameterIsCharset(lower: Text)
    requires 26 <= |lower| && Parameter(lower)
    ensures exists semicolon, parameter | 26 <= semicolon < parameter <= |lower| :: LowerCharsetAt(lower, semicolon, parameter)
  {
    var semicolon := TrimmedFrom(lower, 26);
    assert lower[semicolon..][1..] == lower[semicolon + 1..];
    var parameter := TrimmedFrom(lower, semicolon + 1);
    assert LowerCharsetAt(lower, semicolon, parameter);
  }

  /** Where the white space from a position on ends. */
  lemma TrimmedFrom(text: Text, from: nat) returns (to: nat)
    requires from <= |text|
    ensures from <= to <= |text| && Blank(text[from..to]) && TrimStart(text[from..]) == text[to..]
  {
    var k := StartOf(text[from..]);
    TrimStartAt(text[from..], k);
    to := from + k;
    assert text[from..][..k] == text[from..to] && text[from..][k..] == text[to..];
  }

  /** The parser accepts exactly the content types of the protocol. */
  lemma ContentTypeMeaning(value: Text)
    ensures IsSupportedContentType(value) <==> IsProtocolType(value)
  {
    var lower := Lower(value);
    TypePrefix(value);
    if |value| == 26 {
      assert value[..26] == value && lower[26..] == [];
    }
    if JSON_RPC_TYPE <= lower && Parameter(lower) {
      ParameterIsCharset(lower);
      var semicolon, parameter :| 26 <= semicolon < parameter <= |lower| && LowerCharsetAt(lower, semicolon, parameter);
      LowerCharset(value, semicolon, parameter);
      assert HasCharsetAt(value, semicolon, parameter);
    }
    if semicolon, parameter :| 26 <= semicolon < parameter <= |value| && HasCharsetAt(value, semicolon, parameter) {
      LowerCharset(value, semicolon, parameter);
      CharsetIsParameter(lower, semicolon, parameter);
    }
  }
}
