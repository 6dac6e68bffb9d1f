/** json::parse_string (src/core.cpp): scan the text, then parse the
    tokens. The two kinds of JsonException it can throw are the two
    alternatives of Error. */
module Core {
  import opened Wrappers
  import opened Tokens
  import opened Scanning
  import opened Parsing
  import J = JsonValue
  import ScanningProperties
  import ParsingProperties

  /** Which stage gave up. */
  datatype Error = ScanFailure(scan: ScanError) | ParseFailure(parse: ParseError)

  /** The value of parse_string(s), or the exception it throws. */
  function ParseStringSpec(s: string): Result<J.Json, Error> {
    match Tokenize(s)
    case Err(e) => Err(ScanFailure(e))
    case Ok(ts) =>
      ScanningProperties.TokenizeShape(s);
      match ParseSpec(ts)
      case Err(e) => Err(ParseFailure(e))
      case Ok(j) => Ok(j)
  }

  /** parse_string: Parser(Scanner(source).scan()).parse(). */
  method ParseString(s: string) returns (r: Result<J.Json, Error>)
    ensures r == ParseStringSpec(s)
    ensures r.Ok? ==> J.WellFormed(r.value)
  {
    var scanner := new Scanner(s);
    var scanned := scanner.Scan();
    if scanned.Err? {
      return Err(ScanFailure(scanned.error));
    }
    ScanningProperties.TokenizeShape(s);
    var parser := new Parser(scanned.value);
    var parsed := parser.Parse();
    if parsed.Err? {
      return Err(ParseFailure(parsed.error));
    }
    ParsingProperties.ParseWellFormed(scanned.value);
    r := Ok(parsed.value);
  }

  /** A text is rejected by the scanner exactly when its scan fails, and
      then with that scan's error; a parse failure names a token the
      scanner produced. */
  lemma ParseStringStages(s: string)
    ensures ParseStringSpec(s).Err? && ParseStringSpec(s).error.ScanFailure? <==> Tokenize(s).Err?
    ensures Tokenize(s).Err? ==> ParseStringSpec(s).error.scan == Tokenize(s).error
    ensures ParseStringSpec(s).Err? && ParseStringSpec(s).error.ParseFailure? ==>
              ParseStringSpec(s).error.parse.token in Tokenize(s).value
  {
    if Tokenize(s).Ok? {
      var ts := Tokenize(s).value;
      ScanningProperties.TokenizeShape(s);
      ParsingProperties.ParseErrorToken(ts);
    }
  }

  /** Every value parse_string returns keeps the map invariant in every
      object. */
  lemma ParseStringWellFormed(s: string)
    ensures ParseStringSpec(s).Ok? ==> J.WellFormed(ParseStringSpec(s).value)
  {
    if Tokenize(s).Ok? {
      ScanningProperties.TokenizeShape(s);
      ParsingProperties.ParseWellFormed(Tokenize(s).value);
    }
  }

  /** A text of blanks only, the empty text included, fails with "Empty
      string" at the Eof token. */
  lemma BlankTextIsEmptyString(s: string)
    requires forall k :: 0 <= k < |s| ==> IsWhitespace(s[k])
    ensures ParseStringSpec(s).Err? && ParseStringSpec(s).error.ParseFailure?
    ensures ParseStringSpec(s).error.parse.reason == EmptyString
    ensures ParseStringSpec(s).error.parse.token.kind == Eof
  {
    if s == [] {
      ScanningProperties.EmptyText();
    } else {
      ScanningProperties.BlankText(s);
    }
  }

  /** `true false`: one whole element, then a token that is not Eof. */
  lemma TrueFalse(s: string)
    requires |s| == 10 && s[0] == 't' && s[1] == 'r' && s[2] == 'u' && s[3] == 'e' && s[4] == ' '
    requires s[5] == 'f' && s[6] == 'a' && s[7] == 'l' && s[8] == 's' && s[9] == 'e'
    ensures ParseStringSpec(s) == Err(ParseFailure(ParseError(Token(1, 6, False, LNone), TrailingToken)))
  {
    TrueFalseTokens(s);
    var ts := [Token(1, 1, True, LNone), Token(1, 6, False, LNone), Token(1, 6, Eof, LNone)];
    assert ElementSpec(ts, 0) == Ok(Parsed(J.JBool(true), 1));
  }

  /** The tokens of `true false`. */
  lemma TrueFalseTokens(s: string)
    requires |s| == 10
    requires s[0] == 't' && s[1] == 'r' && s[2] == 'u' && s[3] == 'e' && s[4] == ' ' && s[5] == 'f'
    requires s[6] == 'a' && s[7] == 'l' && s[8] == 's' && s[9] == 'e'
    ensures Tokenize(s) == Ok([Token(1, 1, True, LNone), Token(1, 6, False, LNone), Token(1, 6, Eof, LNone)])
  {
    ScanningProperties.PosAtFirstLine(s, 5);
    assert s[5..10] == "false";
    ScanningProperties.KeywordStep(s, 5, 10);
    ScanningProperties.ScanLast(s, 5, [Token(1, 6, False, LNone)]);
    var r5 := [Token(1, 6, False, LNone)] + [Token(1, 6, Eof, LNone)];
    ScanningProperties.BlankSkipped(s, 4);
    ScanningProperties.ScanOn(s, 4, [], 5, r5);
    var r4 := [] + r5;
    ScanningProperties.PosAtFirstLine(s, 0);
    assert s[0..4] == "true";
    ScanningProperties.KeywordStep(s, 0, 4);
    ScanningProperties.ScanOn(s, 0, [Token(1, 1, True, LNone)], 4, r4);
    var r0 := [Token(1, 1, True, LNone)] + r4;
    assert [] + r0 == [Token(1, 1, True, LNone), Token(1, 6, False, LNone), Token(1, 6, Eof, LNone)];
    assert Tokenize(s) == TokenizeFrom(s, 0, [], Position(0, 0));
  }


  /** An unquoted key, as in the third sample text of src/main.cpp,
      `{ "a": 1, "b": true, "c": null, d: "string" }`, is an identifier other than null, true and false: every text
      that begins like that one, up to the key `d` and its colon, fails in
      the scanner at the key, before the parser sees any token. */
  lemma UnquotedKey(s: string)
    requires |s| >= 34
    requires s[0] == '{' && s[1] == ' ' && s[2] == '\"' && s[3] == 'a' && s[4] == '\"' && s[5] == ':'
    requires s[6] == ' ' && s[7] == '1' && s[8] == ',' && s[9] == ' ' && s[10] == '\"' && s[11] == 'b'
    requires s[12] == '\"' && s[13] == ':' && s[14] == ' ' && s[15] == 't' && s[16] == 'r' && s[17] == 'u'
    requires s[18] == 'e' && s[19] == ',' && s[20] == ' ' && s[21] == '\"' && s[22] == 'c' && s[23] == '\"'
    requires s[24] == ':' && s[25] == ' ' && s[26] == 'n' && s[27] == 'u' && s[28] == 'l' && s[29] == 'l'
    requires s[30] == ',' && s[31] == ' ' && s[32] == 'd' && s[33] == ':'
    ensures ParseStringSpec(s) == Err(ScanFailure(ScanError(1, 33, InvalidIdentifier("d"))))
  {
    var e := ScanError(1, 33, InvalidIdentifier("d"));
    UnquotedKeyFrom19(s);
    assert s[15..19] == "true";
    ScanningProperties.ScanErrorSkipKeyword(s, 15, 19, e);
    ScanningProperties.ScanErrorSkipChar(s, 14, e);
    ScanningProperties.ScanErrorSkipChar(s, 13, e);
    ScanningProperties.ScanErrorSkipString(s, 10, 12, e);
    ScanningProperties.ScanErrorSkipChar(s, 9, e);
    ScanningProperties.ScanErrorSkipChar(s, 8, e);
    assert s[7..8] == "1";
    ScanningProperties.ScanErrorSkipNumber(s, 7, 8, e);
    ScanningProperties.ScanErrorSkipChar(s, 6, e);
    ScanningProperties.ScanErrorSkipChar(s, 5, e);
    ScanningProperties.ScanErrorSkipString(s, 2, 4, e);
    ScanningProperties.ScanErrorSkipChar(s, 1, e);
    ScanningProperties.ScanErrorSkipChar(s, 0, e);
    assert Tokenize(s) == TokenizeFrom(s, 0, [], Position(0, 0));
  }

  /** The scan of that text from index 19 on. */
  lemma UnquotedKeyFrom19(s: string)
    requires |s| >= 34
    requires s[19] == ',' && s[20] == ' ' && s[21] == '\"' && s[22] == 'c' && s[23] == '\"' && s[24] == ':'
    requires s[25] == ' ' && s[26] == 'n' && s[27] == 'u' && s[28] == 'l' && s[29] == 'l' && s[30] == ','
    requires s[31] == ' ' && s[32] == 'd' && s[33] == ':'
    requires forall k :: 0 <= k < 19 ==> s[k] != '\n'
    ensures ScanningProperties.FailsFrom(s, 19, ScanError(1, 33, InvalidIdentifier("d")))
  {
    var e := ScanError(1, 33, InvalidIdentifier("d"));
    ScanningProperties.PosAtFirstLine(s, 32);
    ScanningProperties.RunEndAt(s, 33, 33, IsAlpha);
    assert s[32..33] == "d";
    assert ScanStep(s, 32) == IdentifierStep(s, 32);
    ScanningProperties.ScanErrorHere(s, 32);
    ScanningProperties.ScanErrorSkipChar(s, 31, e);
    ScanningProperties.ScanErrorSkipChar(s, 30, e);
    assert s[26..30] == "null";
    ScanningProperties.ScanErrorSkipKeyword(s, 26, 30, e);
    ScanningProperties.ScanErrorSkipChar(s, 25, e);
    ScanningProperties.ScanErrorSkipChar(s, 24, e);
    ScanningProperties.ScanErrorSkipString(s, 21, 23, e);
    ScanningProperties.ScanErrorSkipChar(s, 20, e);
    ScanningProperties.ScanErrorSkipChar(s, 19, e);
  }

  /** A repeated key, as in the first sample text of src/main.cpp: the text
      scans, and the parser rejects the second member at its key token,
      after reading its value. */
  lemma RepeatedKey(s: string)
    requires |s| == 18
    requires s[0] == '{' && s[1] == ' ' && s[2] == '"' && s[3] == 'a' && s[4] == '"' && s[5] == ':'
    requires s[6] == ' ' && s[7] == '1' && s[8] == ',' && s[9] == ' ' && s[10] == '"' && s[11] == 'a'
    requires s[12] == '"' && s[13] == ':' && s[14] == ' ' && s[15] == '2' && s[16] == ' ' && s[17] == '}'
    ensures ParseStringSpec(s) == Err(ParseFailure(ParseError(Token(1, 11, String, LStr("a")), DuplicateKey("a"))))
  {
    DuplicateKeyTokens(s);
    ScanningProperties.TokenizeShape(s);
    DuplicateKeyParse(Tokenize(s).value);
  }

  /** The parse of that text's tokens. */
  lemma DuplicateKeyParse(ts: seq<Token>)
    requires |ts| == 10
    requires ts[0] == Token(1, 1, LeftBrace, LNone) && ts[1] == Token(1, 3, String, LStr("a"))
    requires ts[2] == Token(1, 6, Colon, LNone) && ts[3] == Token(1, 8, Number, LNum("1"))
    requires ts[4] == Token(1, 9, Comma, LNone) && ts[5] == Token(1, 11, String, LStr("a"))
    requires ts[6] == Token(1, 14, Colon, LNone) && ts[7] == Token(1, 16, Number, LNum("2"))
    requires ts[8] == Token(1, 18, RightBrace, LNone) && ts[9] == Token(1, 18, Eof, LNone)
    ensures ParseSpec(ts) == Err(ParseError(Token(1, 11, String, LStr("a")), DuplicateKey("a")))
  {
    var one := [J.Member("a", J.JNumber("1"))];
    DuplicateKeyMembers(ts);
    ObjectTailUnfold(ts, 4, one);
    assert ElementSpec(ts, 0).Err?;
  }

  /** Its two members: the first is inserted, the second is refused. */
  lemma DuplicateKeyMembers(ts: seq<Token>)
    requires |ts| == 10
    requires ts[0] == Token(1, 1, LeftBrace, LNone) && ts[1] == Token(1, 3, String, LStr("a"))
    requires ts[2] == Token(1, 6, Colon, LNone) && ts[3] == Token(1, 8, Number, LNum("1"))
    requires ts[4] == Token(1, 9, Comma, LNone) && ts[5] == Token(1, 11, String, LStr("a"))
    requires ts[6] == Token(1, 14, Colon, LNone) && ts[7] == Token(1, 16, Number, LNum("2"))
    requires ts[8] == Token(1, 18, RightBrace, LNone) && ts[9] == Token(1, 18, Eof, LNone)
    ensures ValidStream(ts)
    ensures InsertElemSpec(ts, 1, []) == Ok(Parsed([J.Member("a", J.JNumber("1"))], 4))
    ensures InsertElemSpec(ts, 5, [J.Member("a", J.JNumber("1"))]) == Err(ParseError(ts[5], DuplicateKey("a")))
  {
    var one := [J.Member("a", J.JNumber("1"))];
    assert ElementSpec(ts, 3) == Ok(Parsed(J.JNumber("1"), 4));
    assert MemberSpec(ts, 1) == Ok(Parsed((one[0], ts[1]), 4));
    assert ElementSpec(ts, 7) == Ok(Parsed(J.JNumber("2"), 8));
    assert MemberSpec(ts, 5) == Ok(Parsed((J.Member("a", J.JNumber("2")), ts[5]), 8));
    assert J.Insert(one, "a", J.JNumber("2")).None?;
  }

  /** The tokens from index 14 on. */
  lemma DuplicateKeyTokensFrom14(s: string)
    requires |s| == 18
    requires s[14] == ' ' && s[15] == '2' && s[16] == ' ' && s[17] == '}'
    requires forall k :: 0 <= k < 14 ==> s[k] != '\n'
    ensures ScanningProperties.ScansFrom(s, 14, [Token(1, 16, Number, LNum("2")), Token(1, 18, RightBrace, LNone), Token(1, 18, Eof, LNone)])
  {
    ScanningProperties.PosAtFirstLine(s, 17);
    ScanningProperties.StructuralToken(s, 17);
    ScanningProperties.ScanLast(s, 17, [Token(1, 18, RightBrace, LNone)]);
    var r17 := [Token(1, 18, RightBrace, LNone)] + [Token(1, 18, Eof, LNone)];
    ScanningProperties.BlankSkipped(s, 16);
    ScanningProperties.ScanOn(s, 16, [], 17, r17);
    var r16 := [] + r17;
    ScanningProperties.PosAtFirstLine(s, 15);
    assert s[15..16] == "2";
    ScanningProperties.NumberAt(s, 15, 16);
    ScanningProperties.ScanOn(s, 15, [Token(1, 16, Number, LNum("2"))], 16, r16);
    var r15 := [Token(1, 16, Number, LNum("2"))] + r16;
    ScanningProperties.BlankSkipped(s, 14);
    ScanningProperties.ScanOn(s, 14, [], 15, r15);
    var r14 := [] + r15;
    assert r14 == [Token(1, 16, Number, LNum("2")), Token(1, 18, RightBrace, LNone), Token(1, 18, Eof, LNone)];
  }

  /** The tokens from index 9 on. */
  lemma DuplicateKeyTokensFrom9(s: string)
    requires |s| == 18
    requires s[9] == ' ' && s[10] == '"' && s[11] == 'a' && s[12] == '"' && s[13] == ':'
    requires s[14] == ' ' && s[15] == '2' && s[16] == ' ' && s[17] == '}'
    requires forall k :: 0 <= k < 9 ==> s[k] != '\n'
    ensures ScanningProperties.ScansFrom(s, 9, [Token(1, 11, String, LStr("a")), Token(1, 14, Colon, LNone), Token(1, 16, Number, LNum("2")), Token(1, 18, RightBrace, LNone), Token(1, 18, Eof, LNone)])
  {
    DuplicateKeyTokensFrom14(s);
    var r14 := [Token(1, 16, Number, LNum("2")), Token(1, 18, RightBrace, LNone), Token(1, 18, Eof, LNone)];
    ScanningProperties.PosAtFirstLine(s, 13);
    ScanningProperties.StructuralToken(s, 13);
    ScanningProperties.ScanOn(s, 13, [Token(1, 14, Colon, LNone)], 14, r14);
    var r13 := [Token(1, 14, Colon, LNone)] + r14;
    ScanningProperties.PosAtFirstLine(s, 10);
    assert s[11..12] == "a";
    ScanningProperties.StringAt(s, 10, 12);
    ScanningProperties.ScanOn(s, 10, [Token(1, 11, String, LStr("a"))], 13, r13);
    var r10 := [Token(1, 11, String, LStr("a"))] + r13;
    ScanningProperties.BlankSkipped(s, 9);
    ScanningProperties.ScanOn(s, 9, [], 10, r10);
    var r9 := [] + r10;
    assert r9 == [Token(1, 11, String, LStr("a")), Token(1, 14, Colon, LNone), Token(1, 16, Number, LNum("2")), Token(1, 18, RightBrace, LNone), Token(1, 18, Eof, LNone)];
  }

  /** The tokens from index 7 on. */
  lemma DuplicateKeyTokensFrom7(s: string)
    requires |s| == 18
    requires s[7] == '1' && s[8] == ','
    requires s[9] == ' ' && s[10] == '"' && s[11] == 'a' && s[12] == '"' && s[13] == ':' && s[14] == ' '
    requires s[15] == '2' && s[16] == ' ' && s[17] == '}'
    requires forall k :: 0 <= k < 7 ==> s[k] != '\n'
    ensures ScanningProperties.ScansFrom(s, 7, [Token(1, 8, Number, LNum("1")), Token(1, 9, Comma, LNone), Token(1, 11, String, LStr("a")), Token(1, 14, Colon, LNone), Token(1, 16, Number, LNum("2")), Token(1, 18, RightBrace, LNone), Token(1, 18, Eof, LNone)])
  {
    DuplicateKeyTokensFrom9(s);
    var r9 := [Token(1, 11, String, LStr("a")), Token(1, 14, Colon, LNone), Token(1, 16, Number, LNum("2")), Token(1, 18, RightBrace, LNone), Token(1, 18, Eof, LNone)];
    ScanningProperties.PosAtFirstLine(s, 8);
    ScanningProperties.StructuralToken(s, 8);
    ScanningProperties.ScanOn(s, 8, [Token(1, 9, Comma, LNone)], 9, r9);
    var r8 := [Token(1, 9, Comma, LNone)] + r9;
    ScanningProperties.PosAtFirstLine(s, 7);
    assert s[7..8] == "1";
    ScanningProperties.NumberAt(s, 7, 8);
    ScanningProperties.ScanOn(s, 7, [Token(1, 8, Number, LNum("1"))], 8, r8);
    var r7 := [Token(1, 8, Number, LNum("1"))] + r8;
    assert r7 == [Token(1, 8, Number, LNum("1")), Token(1, 9, Comma, LNone), Token(1, 11, String, LStr("a")), Token(1, 14, Colon, LNone), Token(1, 16, Number, LNum("2")), Token(1, 18, RightBrace, LNone), Token(1, 18, Eof, LNone)];
  }

  /** The tokens from index 5 on. */
  lemma DuplicateKeyTokensFrom5(s: string)
    requires |s| == 18
    requires s[5] == ':' && s[6] == ' '
    requires s[7] == '1' && s[8] == ',' && s[9] == ' ' && s[10] == '"' && s[11] == 'a' && s[12] == '"'
    requires s[13] == ':' && s[14] == ' ' && s[15] == '2' && s[16] == ' ' && s[17] == '}'
    requires forall k :: 0 <= k < 5 ==> s[k] != '\n'
    ensures ScanningProperties.ScansFrom(s, 5, [Token(1, 6, Colon, LNone), Token(1, 8, Number, LNum("1")), Token(1, 9, Comma, LNone), Token(1, 11, String, LStr("a")), Token(1, 14, Colon, LNone), Token(1, 16, Number, LNum("2")), Token(1, 18, RightBrace, LNone), Token(1, 18, Eof, LNone)])
  {
    DuplicateKeyTokensFrom7(s);
    var r7 := [Token(1, 8, Number, LNum("1")), Token(1, 9, Comma, LNone), Token(1, 11, String, LStr("a")), Token(1, 14, Colon, LNone), Token(1, 16, Number, LNum("2")), Token(1, 18, RightBrace, LNone), Token(1, 18, Eof, LNone)];
    ScanningProperties.BlankSkipped(s, 6);
    ScanningProperties.ScanOn(s, 6, [], 7, r7);
    var r6 := [] + r7;
    ScanningProperties.PosAtFirstLine(s, 5);
    ScanningProperties.StructuralToken(s, 5);
    ScanningProperties.ScanOn(s, 5, [Token(1, 6, Colon, LNone)], 6, r6);
    var r5 := [Token(1, 6, Colon, LNone)] + r6;
    assert r5 == [Token(1, 6, Colon, LNone), Token(1, 8, Number, LNum("1")), Token(1, 9, Comma, LNone), Token(1, 11, String, LStr("a")), Token(1, 14, Colon, LNone), Token(1, 16, Number, LNum("2")), Token(1, 18, RightBrace, LNone), Token(1, 18, Eof, LNone)];
  }

  /** The tokens of that text. */
  lemma DuplicateKeyTokens(s: string)
    requires |s| == 18
    requires s[0] == '{' && s[1] == ' ' && s[2] == '"' && s[3] == 'a' && s[4] == '"' && s[5] == ':'
    requires s[6] == ' ' && s[7] == '1' && s[8] == ',' && s[9] == ' ' && s[10] == '"' && s[11] == 'a'
    requires s[12] == '"' && s[13] == ':' && s[14] == ' ' && s[15] == '2' && s[16] == ' ' && s[17] == '}'
    ensures Tokenize(s) == Ok([Token(1, 1, LeftBrace, LNone), Token(1, 3, String, LStr("a")), Token(1, 6, Colon, LNone), Token(1, 8, Number, LNum("1")), Token(1, 9, Comma, LNone), Token(1, 11, String, LStr("a")), Token(1, 14, Colon, LNone), Token(1, 16, Number, LNum("2")), Token(1, 18, RightBrace, LNone), Token(1, 18, Eof, LNone)])
  {
    DuplicateKeyTokensFrom5(s);
    var r5 := [Token(1, 6, Colon, LNone), Token(1, 8, Number, LNum("1")), Token(1, 9, Comma, LNone), Token(1, 11, String, LStr("a")), Token(1, 14, Colon, LNone), Token(1, 16, Number, LNum("2")), Token(1, 18, RightBrace, LNone), Token(1, 18, Eof, LNone)];
    ScanningProperties.PosAtFirstLine(s, 2);
    assert s[3..4] == "a";
    ScanningProperties.StringAt(s, 2, 4);
    ScanningProperties.ScanOn(s, 2, [Token(1, 3, String, LStr("a"))], 5, r5);
    var r2 := [Token(1, 3, String, LStr("a"))] + r5;
    ScanningProperties.BlankSkipped(s, 1);
    ScanningProperties.ScanOn(s, 1, [], 2, r2);
    var r1 := [] + r2;
    ScanningProperties.PosAtFirstLine(s, 0);
    ScanningProperties.StructuralToken(s, 0);
    ScanningProperties.ScanOn(s, 0, [Token(1, 1, LeftBrace, LNone)], 1, r1);
    var r0 := [Token(1, 1, LeftBrace, LNone)] + r1;
    assert [] + r0 == [Token(1, 1, LeftBrace, LNone), Token(1, 3, String, LStr("a")), Token(1, 6, Colon, LNone), Token(1, 8, Number, LNum("1")), Token(1, 9, Comma, LNone), Token(1, 11, String, LStr("a")), Token(1, 14, Colon, LNone), Token(1, 16, Number, LNum("2")), Token(1, 18, RightBrace, LNone), Token(1, 18, Eof, LNone)];
    assert Tokenize(s) == TokenizeFrom(s, 0, [], Position(0, 0));
  }


  // ---------------------------------------------------------------------
  // to_string on what parse_string returns

  /** The text `[]` parses to the empty array, and the empty array is
      outside the domain of Json::to_string as written. */
  lemma EmptyArrayNotSerializable()
    ensures ParseStringSpec("[]") == Ok(J.JArray([]))
    ensures !J.NoEmptyContainers(J.JArray([]))
  {
    EmptyArrayTokens();
    var ts := [Token(1, 1, LeftBracket, LNone), Token(1, 2, RightBracket, LNone), Token(1, 2, Eof, LNone)];
    assert ElementSpec(ts, 0) == Ok(Parsed(J.JArray([]), 2));
  }

  /** `[]` scans to its two brackets and an Eof at the second one. */
  lemma EmptyArrayTokens()
    ensures Tokenize("[]") == Ok([Token(1, 1, LeftBracket, LNone), Token(1, 2, RightBracket, LNone), Token(1, 2, Eof, LNone)])
  {
    var s := "[]";
    var toks := [Token(1, 1, LeftBracket, LNone), Token(1, 2, RightBracket, LNone)];
    assert PosAt(s, 1) == Position(1, 2);
    assert ScanStep(s, 0) == Ok(Step([toks[0]], 1));
    assert ScanStep(s, 1) == Ok(Step([toks[1]], 2));
    assert [] + [toks[0]] == [toks[0]];
    assert TokenizeFrom(s, 0, [], Position(0, 0)) == TokenizeFrom(s, 1, [toks[0]], Position(1, 1));
    assert [toks[0]] + [toks[1]] == toks;
    assert TokenizeFrom(s, 1, [toks[0]], Position(1, 1)) == TokenizeFrom(s, 2, toks, Position(1, 2));
    assert TokenizeFrom(s, 2, toks, Position(1, 2)) == Ok(toks + [Token(1, 2, Eof, LNone)]);
    assert toks + [Token(1, 2, Eof, LNone)] == [toks[0], toks[1], Token(1, 2, Eof, LNone)];
  }

  /** A second closing bracket after a whole array is a trailing token,
      reported at its own line and column. */
  lemma TrailingBracket()
    ensures ParseStringSpec("[]]") == Err(ParseFailure(ParseError(Token(1, 3, RightBracket, LNone), TrailingToken)))
  {
    var s := "[]]";
    var toks := [Token(1, 1, LeftBracket, LNone), Token(1, 2, RightBracket, LNone), Token(1, 3, RightBracket, LNone)];
    assert PosAt(s, 1) == Position(1, 2);
    assert PosAt(s, 2) == Position(1, 3);
    assert [] + [toks[0]] == toks[..1];
    assert toks[..1] + [toks[1]] == toks[..2];
    assert toks[..2] + [toks[2]] == toks;
    assert TokenizeFrom(s, 0, [], Position(0, 0)) == TokenizeFrom(s, 1, toks[..1], Position(1, 1));
    assert TokenizeFrom(s, 1, toks[..1], Position(1, 1)) == TokenizeFrom(s, 2, toks[..2], Position(1, 2));
    assert TokenizeFrom(s, 2, toks[..2], Position(1, 2)) == TokenizeFrom(s, 3, toks, Position(1, 3));
    var ts := toks + [Token(1, 3, Eof, LNone)];
    assert Tokenize(s) == Ok(ts);
    assert ElementSpec(ts, 0) == Ok(Parsed(J.JArray([]), 2));
  }

  /** What the corrected serialiser writes for the empty containers
      parse_string can return. */
  lemma EmptyContainersSerialized(showNumber: J.Num -> string)
    ensures J.SerializeTotal(J.JArray([]), showNumber) == "[]"
    ensures J.SerializeTotal(J.JObject([]), showNumber) == "{}"
  {
  }
}
