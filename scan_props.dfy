/** What a scan of a whole text produces (src/Scanner.cpp), stated about the
    functions of module Scanning that the Scanner class is proved to
    follow. */
module ScanningProperties {
  import opened Wrappers
  import opened Tokens
  import opened Scanning

  // ---------------------------------------------------------------------
  // The shape of the token list

  /** Tokens emitted so far carry the right literal and none is Eof. */
  predicate Ordinary(ts: seq<Token>) {
    forall k :: 0 <= k < |ts| ==> ts[k].kind != Eof && LiteralMatchesKind(ts[k])
  }

  /** ts is emitted followed by ordinary tokens and a final Eof without a
      literal. */
  predicate ExtendsWithEof(emitted: seq<Token>, ts: seq<Token>) {
    && |emitted| < |ts| && ts[..|emitted|] == emitted
    && Ordinary(ts[..|ts| - 1])
    && ts[|ts| - 1].kind == Eof && ts[|ts| - 1].literal == LNone
  }

  lemma {:induction false} TokenizeFromShape(s: string, i: nat, emitted: seq<Token>, last: Position)
    requires i <= |s| && Ordinary(emitted)
    ensures TokenizeFrom(s, i, emitted, last).Ok? ==> ExtendsWithEof(emitted, TokenizeFrom(s, i, emitted, last).value)
    decreases |s| - i
  {
    if i == |s| {
      EofAppended(emitted, Token(last.line, last.column, Eof, LNone));
    } else {
      match ScanStep(s, i)
      case Err(_) =>
      case Ok(st) =>
        var em := emitted + st.emitted;
        OrdinaryAppend(emitted, st.emitted);
        TokenizeFromShape(s, st.next, em, PosAt(s, i));
        var r := TokenizeFrom(s, st.next, em, PosAt(s, i));
        if r.Ok? {
          ExtendsPrefix(emitted, st.emitted, r.value);
        }
    }
  }

  lemma EofAppended(emitted: seq<Token>, eof: Token)
    requires Ordinary(emitted) && eof.kind == Eof && eof.literal == LNone
    ensures ExtendsWithEof(emitted, emitted + [eof])
  {
    var ts := emitted + [eof];
    assert ts[..|emitted|] == emitted == ts[..|ts| - 1];
  }

  lemma OrdinaryAppend(emitted: seq<Token>, more: seq<Token>)
    requires Ordinary(emitted)
    requires forall t :: t in more ==> t.kind != Eof && LiteralMatchesKind(t)
    ensures Ordinary(emitted + more)
  {
    var em := emitted + more;
    forall k | 0 <= k < |em| ensures em[k].kind != Eof && LiteralMatchesKind(em[k]) {
      if k >= |emitted| {
        assert em[k] in more;
      }
    }
  }

  lemma ExtendsPrefix(emitted: seq<Token>, more: seq<Token>, ts: seq<Token>)
    requires ExtendsWithEof(emitted + more, ts)
    ensures ExtendsWithEof(emitted, ts)
  {
    assert ts[..|emitted|] == ts[..|emitted + more|][..|emitted|];
  }

  /** A successful scan ends with exactly one Eof token, which carries no
      literal, and every token carries the literal its kind calls for. */
  lemma TokenizeShape(s: string)
    ensures Tokenize(s).Ok? ==>
              var ts := Tokenize(s).value;
              && |ts| > 0
              && ts[|ts| - 1].kind == Eof && ts[|ts| - 1].literal == LNone
              && (forall k :: 0 <= k < |ts| - 1 ==> ts[k].kind != Eof)
              && (forall k :: 0 <= k < |ts| ==> LiteralMatchesKind(ts[k]))
  {
    TokenizeFromShape(s, 0, [], Position(0, 0));
    if Tokenize(s).Ok? {
      var ts := Tokenize(s).value;
      assert forall k :: 0 <= k < |ts| - 1 ==> ts[k] == ts[..|ts| - 1][k];
    }
  }

  // ---------------------------------------------------------------------
  // Where the Eof token stands

  /** scan_token called at k read the text's last character. */
  predicate LastCall(s: string, k: nat) {
    k < |s| && ScanStep(s, k).Ok? && ScanStep(s, k).value.next == |s|
  }

  /** The scan loop, started at i, calls scan_token at k: each call before
      succeeds and the next one starts where it stopped. */
  predicate Reaches(s: string, i: nat, k: nat)
    decreases k - i
  {
    i == k || (i < k && i < |s| && ScanStep(s, i).Ok? && Reaches(s, ScanStep(s, i).value.next, k))
  }

  /** Some call the loop makes from i, starting at p, reads the text's last
      character. */
  ghost predicate LastCallAt(s: string, i: nat, p: Position) {
    exists k :: Reaches(s, i, k) && LastCall(s, k) && PosAt(s, k) == p
  }

  lemma LastCallHere(s: string, i: nat)
    requires LastCall(s, i)
    ensures LastCallAt(s, i, PosAt(s, i))
  {
    assert Reaches(s, i, i);
  }

  /** A last call the loop reaches from where the call at i stopped, it
      reaches from i. */
  lemma LastCallAfterStep(s: string, i: nat, p: Position)
    requires i < |s| && ScanStep(s, i).Ok? && LastCallAt(s, ScanStep(s, i).value.next, p)
    ensures LastCallAt(s, i, p)
  {
    var k :| Reaches(s, ScanStep(s, i).value.next, k) && LastCall(s, k) && PosAt(s, k) == p;
    assert Reaches(s, i, k);
  }

  /** The scan loop makes at most one call that reads the last character. */
  lemma {:induction false} LastCallUnique(s: string, i: nat, k1: nat, k2: nat)
    requires Reaches(s, i, k1) && LastCall(s, k1)
    requires Reaches(s, i, k2) && LastCall(s, k2)
    ensures k1 == k2
    decreases k1 - i
  {
    if i != k1 && i != k2 {
      LastCallUnique(s, ScanStep(s, i).value.next, k1, k2);
    }
  }

  /** ts ends with a token placed at last when the loop from i makes no
      call, and otherwise where a call it makes from i reads the last
      character. */
  ghost predicate EofPlaced(s: string, i: nat, last: Position, ts: seq<Token>) {
    |ts| > 0 &&
    var p := Position(ts[|ts| - 1].line, ts[|ts| - 1].column);
    (i == |s| && p == last) || LastCallAt(s, i, p)
  }

  lemma EofPlacedStep(s: string, i: nat, last: Position, ts: seq<Token>)
    requires i < |s| && ScanStep(s, i).Ok? && EofPlaced(s, ScanStep(s, i).value.next, PosAt(s, i), ts)
    ensures EofPlaced(s, i, last, ts)
  {
    var p := Position(ts[|ts| - 1].line, ts[|ts| - 1].column);
    if ScanStep(s, i).value.next == |s| {
      LastCallHere(s, i);
    } else {
      LastCallAfterStep(s, i, p);
    }
  }

  lemma {:induction false} EofFromPosition(s: string, i: nat, emitted: seq<Token>, last: Position)
    requires i <= |s|
    ensures TokenizeFrom(s, i, emitted, last).Ok? ==> EofPlaced(s, i, last, TokenizeFrom(s, i, emitted, last).value)
    decreases |s| - i
  {
    if i < |s| {
      match ScanStep(s, i)
      case Err(_) =>
      case Ok(st) =>
        EofFromPosition(s, st.next, emitted + st.emitted, PosAt(s, i));
        var r := TokenizeFrom(s, st.next, emitted + st.emitted, PosAt(s, i));
        if r.Ok? {
          EofPlacedStep(s, i, last, r.value);
        }
    }
  }

  /** The Eof token stands where the last scan_token call started: at 0:0
      for an empty text, otherwise at the first character of the last
      token or blank the scan loop read. */
  lemma EofPosition(s: string)
    ensures Tokenize(s).Ok? ==>
              var ts := Tokenize(s).value;
              |ts| > 0
              && var eof := ts[|ts| - 1];
              (s == [] ==> eof.line == 0 && eof.column == 0)
              && (s != [] ==> exists k :: Reaches(s, 0, k) && LastCall(s, k) && PosAt(s, k) == Position(eof.line, eof.column))
  {
    EofFromPosition(s, 0, [], Position(0, 0));
  }

  // ---------------------------------------------------------------------
  // Line and column counting

  /** The line of s[i] is one plus the number of line breaks before it. */
  lemma {:induction false} PosAtLine(s: string, i: nat)
    requires i <= |s|
    ensures PosAt(s, i).line == 1 + multiset(s[..i])['\n']
  {
    if i > 0 {
      PosAtLine(s, i - 1);
      assert s[..i] == s[..i - 1] + [s[i - 1]];
    }
  }

  /** On the first line, the column of s[i] is i + 1. */
  lemma {:induction false} PosAtFirstLine(s: string, i: nat)
    requires i <= |s|
    requires forall k :: 0 <= k < i ==> s[k] != '\n'
    ensures PosAt(s, i) == Position(1, i + 1)
  {
    if i > 0 {
      PosAtFirstLine(s, i - 1);
    }
  }

  /** After the line break at b, the column of s[i] counts from b: the
      character right after a line break is in column 1. */
  lemma {:induction false} PosAtAfterBreak(s: string, b: nat, i: nat)
    requires b < i <= |s| && s[b] == '\n'
    requires forall k :: b < k < i ==> s[k] != '\n'
    ensures PosAt(s, i).column == i - b
    ensures PosAt(s, i).line == PosAt(s, b).line + 1
  {
    if i > b + 1 {
      PosAtAfterBreak(s, b, i - 1);
    }
  }

  // ---------------------------------------------------------------------
  // scan_token, character class by character class

  /** A character no branch of scan_token takes. */
  predicate InNoClass(c: char) {
    !IsStructural(c) && c != '"' && !IsWhitespace(c) && !IsNumberChar(c) && !IsAlpha(c)
  }

  /** scan_token rejects a character as invalid exactly when it starts no
      token and is no blank; the error names that character. */
  lemma InvalidCharacterIff(s: string, i: nat)
    requires i < |s|
    ensures ScanStep(s, i).Err? && ScanStep(s, i).error.fault.InvalidCharacter? <==> InNoClass(s[i])
    ensures InNoClass(s[i]) ==> ScanStep(s, i).error.fault == InvalidCharacter(s[i])
  {
  }

  /** A structural character stands for a token on its own. */
  lemma StructuralToken(s: string, i: nat)
    requires i < |s| && IsStructural(s[i])
    ensures ScanStep(s, i) == Ok(Step([Token(PosAt(s, i).line, PosAt(s, i).column, StructuralKind(s[i]), LNone)], i + 1))
  {
  }

  /** A blank is skipped and emits nothing. */
  lemma BlankSkipped(s: string, i: nat)
    requires i < |s| && IsWhitespace(s[i])
    ensures ScanStep(s, i) == Ok(Step([], i + 1))
  {
  }

  /** A quote starts a string that runs to the next quote: the scan fails
      exactly when no quote follows, and otherwise the literal is the text
      between the two quotes, copied raw, with no quote inside it. */
  lemma StringScan(s: string, i: nat)
    requires i < |s| && s[i] == '"'
    ensures ScanStep(s, i).Err? <==> forall k :: i < k < |s| ==> s[k] != '"'
    ensures ScanStep(s, i).Err? ==> ScanStep(s, i).error.fault == UnterminatedString
    ensures ScanStep(s, i).Ok? ==>
              var st := ScanStep(s, i).value;
              var j := st.next - 1;
              && i < j < |s| && s[j] == '"'
              && st.emitted == [Token(PosAt(s, i).line, PosAt(s, i).column, String, LStr(s[i + 1..j]))]
              && forall k :: i < k < j ==> s[k] != '"'
  {
    RunEndAll(s, i + 1, IsNotQuote);
    var j := RunEnd(s, i + 1, IsNotQuote);
    if j < |s| {
      assert !IsNotQuote(s[j]);
    }
  }

  /** A letter other than e and E starts an identifier, the longest run of
      letters from it; the scan succeeds exactly when that run is null, true
      or false. */
  lemma IdentifierScan(s: string, i: nat)
    requires i < |s| && IsAlpha(s[i]) && !IsNumberChar(s[i])
    ensures var j := RunEnd(s, i + 1, IsAlpha);
            var iden := s[i..j];
            && (forall k :: i <= k < j ==> IsAlpha(s[k]))
            && (ScanStep(s, i).Ok? <==> iden == "null" || iden == "true" || iden == "false")
            && (ScanStep(s, i).Ok? ==> ScanStep(s, i).value.next == j)
            && (ScanStep(s, i).Err? ==> ScanStep(s, i).error.fault == InvalidIdentifier(iden))
  {
    RunEndAll(s, i + 1, IsAlpha);
    var j := RunEnd(s, i + 1, IsAlpha);
    assert ScanStep(s, i) == IdentifierStep(s, i);
  }

  /** A digit, a sign, a point, e or E starts a number, the longest run of
      such characters from it (so "e" and "+-" are scanned as numbers); the
      scan fails exactly when stod cannot read a number at the run's start. */
  lemma NumberScan(s: string, i: nat)
    requires i < |s| && IsNumberChar(s[i])
    ensures var j := RunEnd(s, i + 1, IsNumberChar);
            var lexeme := s[i..j];
            && (forall k :: i <= k < j ==> IsNumberChar(s[k]))
            && (j == |s| || !IsNumberChar(s[j]))
            && (ScanStep(s, i).Ok? <==> StodAccepts(lexeme))
            && (ScanStep(s, i).Ok? ==>
                  ScanStep(s, i).value == Step([Token(PosAt(s, i).line, PosAt(s, i).column, Number, LNum(lexeme))], j))
            && (ScanStep(s, i).Err? ==> ScanStep(s, i).error.fault == NotANumber(lexeme))
  {
    RunEndAll(s, i + 1, IsNumberChar);
  }

  // ---------------------------------------------------------------------
  // The first error ends the scan

  /** Whether the scan from i fails, and with which error, depends on the
      text alone: not on the tokens emitted before i, nor on the position
      kept for the Eof token. */
  lemma {:induction false} ScanErrorIgnoresTokens(s: string, i: nat, e1: seq<Token>, l1: Position, e2: seq<Token>, l2: Position)
    requires i <= |s|
    ensures TokenizeFrom(s, i, e1, l1).Err? <==> TokenizeFrom(s, i, e2, l2).Err?
    ensures TokenizeFrom(s, i, e1, l1).Err? ==> TokenizeFrom(s, i, e1, l1).error == TokenizeFrom(s, i, e2, l2).error
    decreases |s| - i
  {
    if i < |s| && ScanStep(s, i).Ok? {
      var st := ScanStep(s, i).value;
      ScanErrorIgnoresTokens(s, st.next, e1 + st.emitted, PosAt(s, i), e2 + st.emitted, PosAt(s, i));
    }
  }

  // ---------------------------------------------------------------------
  // One token at a time

  /** The run of p from i ends at j when every character before j
      satisfies p and the one at j does not. */
  lemma {:induction false} RunEndAt(s: string, i: nat, j: nat, p: char -> bool)
    requires i <= j <= |s|
    requires forall k :: i <= k < j ==> p(s[k])
    requires j == |s| || !p(s[j])
    ensures RunEnd(s, i, p) == j
    decreases j - i
  {
    if i < j {
      RunEndAt(s, i + 1, j, p);
    }
  }

  /** A string from the quote at i to the quote at j is one token. */
  lemma StringAt(s: string, i: nat, j: nat)
    requires i < j < |s| && s[i] == '"' && s[j] == '"'
    requires forall k :: i < k < j ==> s[k] != '"'
    ensures ScanStep(s, i) == Ok(Step([Token(PosAt(s, i).line, PosAt(s, i).column, String, LStr(s[i + 1..j]))], j + 1))
  {
    RunEndAt(s, i + 1, j, IsNotQuote);
    var p := PosAt(s, i);
    assert StringStep(s, i) == Ok(Step([Token(p.line, p.column, String, LStr(s[i + 1..j]))], j + 1));
    assert ScanStep(s, i) == StringStep(s, i) by {
      assert !IsStructural(s[i]);
    }
  }

  /** A run of number characters from i up to j that stod reads is one
      token. */
  lemma NumberAt(s: string, i: nat, j: nat)
    requires i < j <= |s|
    requires forall k :: i <= k < j ==> IsNumberChar(s[k])
    requires j == |s| || !IsNumberChar(s[j])
    requires StodAccepts(s[i..j])
    ensures ScanStep(s, i) == Ok(Step([Token(PosAt(s, i).line, PosAt(s, i).column, Number, LNum(s[i..j]))], j))
  {
    RunEndAt(s, i + 1, j, IsNumberChar);
  }

  /** The kind of token a keyword names. */
  function KeywordKind(w: string): TokenKind {
    if w == "null" then Null else if w == "true" then True else False
  }

  /** A keyword from i up to j, followed by no letter, is one token of its
      kind. */
  lemma KeywordStep(s: string, i: nat, j: nat)
    requires i < j <= |s| && (s[i..j] == "null" || s[i..j] == "true" || s[i..j] == "false")
    requires j == |s| || !IsAlpha(s[j])
    ensures ScanStep(s, i) == Ok(Step([Token(PosAt(s, i).line, PosAt(s, i).column, KeywordKind(s[i..j]), LNone)], j))
  {
    assert forall k :: i <= k < j ==> s[k] == s[i..j][k - i];
    RunEndAt(s, i + 1, j, IsAlpha);
    var p := PosAt(s, i);
    assert IdentifierStep(s, i) == Ok(Step([Token(p.line, p.column, KeywordKind(s[i..j]), LNone)], j));
    assert ScanStep(s, i) == IdentifierStep(s, i) by {
      assert !IsStructural(s[i]) && !IsWhitespace(s[i]) && !IsNumberChar(s[i]) && s[i] != '"';
    }
  }

  // ---------------------------------------------------------------------
  // The scan, one scan_token call at a time

  /** The scan from i, inside the text, appends rest to whatever was
      emitted before i. */
  ghost predicate ScansFrom(s: string, i: nat, rest: seq<Token>) {
    i < |s| && forall emitted: seq<Token>, last: Position :: TokenizeFrom(s, i, emitted, last) == Ok(emitted + rest)
  }

  /** The last scan_token call is followed by the Eof token, at its start. */
  lemma ScanLast(s: string, i: nat, emitted: seq<Token>)
    requires i < |s| && ScanStep(s, i) == Ok(Step(emitted, |s|))
    ensures ScansFrom(s, i, emitted + [Token(PosAt(s, i).line, PosAt(s, i).column, Eof, LNone)])
  {
    var eof := Token(PosAt(s, i).line, PosAt(s, i).column, Eof, LNone);
    forall before: seq<Token>, last: Position ensures TokenizeFrom(s, i, before, last) == Ok(before + (emitted + [eof])) {
      assert before + emitted + [eof] == before + (emitted + [eof]);
    }
  }

  /** A scan_token call that emits `emitted` puts it before what the rest
      of the scan emits. */
  lemma ScanOn(s: string, i: nat, emitted: seq<Token>, j: nat, rest: seq<Token>)
    requires i < |s| && ScanStep(s, i) == Ok(Step(emitted, j)) && j <= |s| && ScansFrom(s, j, rest)
    ensures ScansFrom(s, i, emitted + rest)
  {
    forall before: seq<Token>, last: Position ensures TokenizeFrom(s, i, before, last) == Ok(before + (emitted + rest)) {
      assert TokenizeFrom(s, i, before, last) == TokenizeFrom(s, j, before + emitted, PosAt(s, i));
      assert before + emitted + rest == before + (emitted + rest);
    }
  }

  /** The scan from i fails with e, whatever was emitted before i. */
  ghost predicate FailsFrom(s: string, i: nat, e: ScanError)
    requires i <= |s|
  {
    forall emitted: seq<Token>, last: Position :: TokenizeFrom(s, i, emitted, last) == Err(e)
  }

  /** A scan_token call that fails ends the scan with its error. */
  lemma ScanErrorHere(s: string, i: nat)
    requires i < |s| && ScanStep(s, i).Err?
    ensures FailsFrom(s, i, ScanStep(s, i).error)
  {
  }

  /** A scan_token call that succeeds passes on the error of the rest of
      the scan unchanged. */
  lemma ScanErrorSkip(s: string, i: nat, e: ScanError)
    requires i < |s| && ScanStep(s, i).Ok?
    requires FailsFrom(s, ScanStep(s, i).value.next, e)
    ensures FailsFrom(s, i, e)
  {
    var st := ScanStep(s, i).value;
    forall emitted: seq<Token>, last: Position ensures TokenizeFrom(s, i, emitted, last) == Err(e) {
      assert TokenizeFrom(s, i, emitted, last) == TokenizeFrom(s, st.next, emitted + st.emitted, PosAt(s, i));
    }
  }

  /** The same, for a structural character or a blank at i. */
  lemma ScanErrorSkipChar(s: string, i: nat, e: ScanError)
    requires i < |s| && (IsStructural(s[i]) || IsWhitespace(s[i]))
    requires FailsFrom(s, i + 1, e)
    ensures FailsFrom(s, i, e)
  {
    ScanErrorSkip(s, i, e);
  }

  /** The same, for a string from the quote at i to the quote at j. */
  lemma ScanErrorSkipString(s: string, i: nat, j: nat, e: ScanError)
    requires i < j < |s| && s[i] == '"' && s[j] == '"'
    requires forall k :: i < k < j ==> s[k] != '"'
    requires FailsFrom(s, j + 1, e)
    ensures FailsFrom(s, i, e)
  {
    StringAt(s, i, j);
    ScanErrorSkip(s, i, e);
  }

  /** The same, for a number that stod reads from i up to j. */
  lemma ScanErrorSkipNumber(s: string, i: nat, j: nat, e: ScanError)
    requires i < j <= |s|
    requires forall k :: i <= k < j ==> IsNumberChar(s[k])
    requires j == |s| || !IsNumberChar(s[j])
    requires StodAccepts(s[i..j])
    requires FailsFrom(s, j, e)
    ensures FailsFrom(s, i, e)
  {
    NumberAt(s, i, j);
    ScanErrorSkip(s, i, e);
  }

  /** The same, for a keyword from i up to j. */
  lemma ScanErrorSkipKeyword(s: string, i: nat, j: nat, e: ScanError)
    requires i < j <= |s| && (s[i..j] == "null" || s[i..j] == "true" || s[i..j] == "false")
    requires j == |s| || !IsAlpha(s[j])
    requires FailsFrom(s, j, e)
    ensures FailsFrom(s, i, e)
  {
    KeywordStep(s, i, j);
    ScanErrorSkip(s, i, e);
  }

  // ---------------------------------------------------------------------
  // Blank text

  lemma {:induction false} BlankFrom(s: string, i: nat, emitted: seq<Token>, last: Position)
    requires i < |s|
    requires forall k :: i <= k < |s| ==> IsWhitespace(s[k])
    ensures TokenizeFrom(s, i, emitted, last)
         == Ok(emitted + [Token(PosAt(s, |s| - 1).line, PosAt(s, |s| - 1).column, Eof, LNone)])
    decreases |s| - i
  {
    assert ScanStep(s, i) == Ok(Step([], i + 1));
    assert emitted + [] == emitted;
    if i + 1 < |s| {
      BlankFrom(s, i + 1, emitted, PosAt(s, i));
    }
  }

  /** A text of blanks only scans to a lone Eof, at its last blank. */
  lemma BlankText(s: string)
    requires s != [] && forall k :: 0 <= k < |s| ==> IsWhitespace(s[k])
    ensures Tokenize(s) == Ok([Token(PosAt(s, |s| - 1).line, PosAt(s, |s| - 1).column, Eof, LNone)])
  {
    BlankFrom(s, 0, [], Position(0, 0));
    assert [] + [Token(PosAt(s, |s| - 1).line, PosAt(s, |s| - 1).column, Eof, LNone)]
        == [Token(PosAt(s, |s| - 1).line, PosAt(s, |s| - 1).column, Eof, LNone)];
  }

  /** The empty text scans to a lone Eof at 0:0. */
  lemma EmptyText()
    ensures Tokenize("") == Ok([Token(0, 0, Eof, LNone)])
  {
    assert [] + [Token(0, 0, Eof, LNone)] == [Token(0, 0, Eof, LNone)];
  }

  // ---------------------------------------------------------------------
  // Examples

  /** A backslash does not escape the closing quote: the text `"a\"` is the
      string `a\`, and Eof stands where that string starts. */
  lemma BackslashIsPlain()
    ensures Tokenize("\"a\\\"") == Ok([Token(1, 1, String, LStr("a\\")), Token(1, 1, Eof, LNone)])
  {
    var s := "\"a\\\"";
    assert RunEnd(s, 1, IsNotQuote) == 3 by {
      RunEndStep(s, 1, IsNotQuote);
      RunEndStep(s, 2, IsNotQuote);
    }
    assert s[1..3] == "a\\";
    var toks := [Token(1, 1, String, LStr("a\\"))];
    assert ScanStep(s, 0) == Ok(Step(toks, 4));
    assert [] + toks == toks;
    assert PosAt(s, 0) == Position(1, 1);
    assert TokenizeFrom(s, 0, [], Position(0, 0)) == TokenizeFrom(s, 4, toks, Position(1, 1));
    assert TokenizeFrom(s, 4, toks, Position(1, 1)) == Ok(toks + [Token(1, 1, Eof, LNone)]);
    assert toks + [Token(1, 1, Eof, LNone)] == [Token(1, 1, String, LStr("a\\")), Token(1, 1, Eof, LNone)];
  }

  /** A lone `e` is scanned as a number and rejected by stod. */
  lemma LoneExponent()
    ensures Tokenize("e") == Err(ScanError(1, 1, NotANumber("e")))
  {
    assert RunEnd("e", 1, IsNumberChar) == 1;
    assert "e"[0..1] == "e";
    assert !StodAccepts("e");
  }
}
