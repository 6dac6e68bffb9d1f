/** The scanner (src/Scanner.cpp, include/Scanner.h): one left-to-right pass
    over the text that stamps every token with the line and column of its
    first character. The functions first say what one scan produces; the
    class Scanner then does it step by step, as the C++ class does, and its
    methods are proved to agree with those functions. */
module Scanning {
  import opened Wrappers
  import opened Tokens

  /** A line and column, both 1-based; 0:0 only before anything is read. */
  datatype Position = Position(line: nat, column: nat)

  /** Why the scanner gave up; each alternative is one error() call of
      Scanner.cpp, and Message gives the text it passes. */
  datatype Fault =
    | InvalidCharacter(c: char)
    | NotANumber(lexeme: string)
    | UnterminatedString
    | InvalidIdentifier(iden: string)

  function Message(f: Fault): string {
    match f
    case InvalidCharacter(c) => "\"" + [c] + "\" is an invalid character"
    case NotANumber(lexeme) => "Cannot covert " + lexeme + " to number"
    case UnterminatedString => "Unterminated string"
    case InvalidIdentifier(iden) => "\"" + iden + "\" is an invalid literal"
  }

  /** A scan failure: the position of the offending token's first
      character and the reason. */
  datatype ScanError = ScanError(line: nat, column: nat, fault: Fault)

  /** The text of the JsonException the scanner throws: the position of
      the failure after "Scan error at ", and the fault's message at the end. */
  function ScanErrorText(e: ScanError): (r: string)
    ensures var p := PositionText(e.line, e.column);
      |r| == 16 + |p| + |Message(e.fault)| && r[..14] == "Scan error at " && r[14..14 + |p|] == p
    ensures r[|r| - |Message(e.fault)|..] == Message(e.fault)
  {
    "Scan error at " + PositionText(e.line, e.column) + ": " + Message(e.fault)
  }

  // ---------------------------------------------------------------------
  // Character classes (isdigit and isalpha in the "C" locale)

  predicate IsDigit(c: char) { '0' <= c <= '9' }

  predicate IsAlpha(c: char) { 'a' <= c <= 'z' || 'A' <= c <= 'Z' }

  predicate IsWhitespace(c: char) { c == ' ' || c == '\n' || c == '\r' || c == '\t' }

  /** Scanner::is_on_digit: a digit, e or E, a sign or a point. */
  predicate IsNumberChar(c: char) {
    IsDigit(c) || c == 'e' || c == 'E' || c == '+' || c == '-' || c == '.'
  }

  predicate IsNotQuote(c: char) { c != '"' }

  /** The six characters that stand for a token on their own. */
  predicate IsStructural(c: char) {
    c == '{' || c == '}' || c == '[' || c == ']' || c == ',' || c == ':'
  }

  function StructuralKind(c: char): TokenKind
    requires IsStructural(c)
  {
    match c
    case '{' => LeftBrace
    case '}' => RightBrace
    case '[' => LeftBracket
    case ']' => RightBracket
    case ',' => Comma
    case ':' => Colon
  }

  // ---------------------------------------------------------------------
  // Positions

  /** What Scanner::advance does to the counters on reading c. */
  function NextPosition(p: Position, c: char): Position {
    if c == '\n' then Position(p.line + 1, 1) else Position(p.line, p.column + 1)
  }

  /** The position of s[i] (or of the end, when i == |s|): the counters
      after reading s[..i] from 1:1. */
  function PosAt(s: string, i: nat): Position
    requires i <= |s|
  {
    if i == 0 then Position(1, 1) else NextPosition(PosAt(s, i - 1), s[i - 1])
  }

  // ---------------------------------------------------------------------
  // Runs of characters

  /** Where a run of characters satisfying p that starts at i ends: the
      first index from i on that is the end of s or fails p. */
  function RunEnd(s: string, i: nat, p: char -> bool): (j: nat)
    requires i <= |s|
    ensures i <= j <= |s|
    ensures j == |s| || !p(s[j])
    decreases |s| - i
  {
    if i < |s| && p(s[i]) then RunEnd(s, i + 1, p) else i
  }

  /** Every character of the run satisfies p, so the run is maximal. */
  lemma {:induction false} RunEndAll(s: string, i: nat, p: char -> bool)
    requires i <= |s|
    ensures forall k :: i <= k < RunEnd(s, i, p) ==> p(s[k])
    decreases |s| - i
  {
    if i < |s| && p(s[i]) {
      RunEndAll(s, i + 1, p);
    }
  }

  /** A run that goes on at i ends where the run from i + 1 ends. */
  lemma RunEndStep(s: string, i: nat, p: char -> bool)
    requires i < |s| && p(s[i])
    ensures RunEnd(s, i, p) == RunEnd(s, i + 1, p)
  {
  }

  /** std::stod on a lexeme made of number characters: it converts a
      prefix, and fails unless that prefix has an optional sign followed by
      a digit, or by a point and a digit. */
  predicate StodAccepts(lexeme: string) {
    var k := if |lexeme| > 0 && (lexeme[0] == '+' || lexeme[0] == '-') then 1 else 0;
    (k < |lexeme| && IsDigit(lexeme[k]))
    || (k + 1 < |lexeme| && lexeme[k] == '.' && IsDigit(lexeme[k + 1]))
  }

  // ---------------------------------------------------------------------
  // One call of scan_token, as a function

  /** What one scan_token call starting at index i emits (no token or one)
      and where the next one starts. */
  datatype Step = Step(emitted: seq<Token>, next: nat)

  /** scan_number, after the first character at i was read. */
  function NumberStep(s: string, i: nat): Result<Step, ScanError>
    requires i < |s|
  {
    var p := PosAt(s, i);
    var j := RunEnd(s, i + 1, IsNumberChar);
    var lexeme := s[i..j];
    if StodAccepts(lexeme) then Ok(Step([Token(p.line, p.column, Number, LNum(lexeme))], j))
    else Err(ScanError(p.line, p.column, NotANumber(lexeme)))
  }

  /** scan_string, after the opening quote at i was read. */
  function StringStep(s: string, i: nat): Result<Step, ScanError>
    requires i < |s|
  {
    var p := PosAt(s, i);
    var j := RunEnd(s, i + 1, IsNotQuote);
    if j == |s| then Err(ScanError(p.line, p.column, UnterminatedString))
    else Ok(Step([Token(p.line, p.column, String, LStr(s[i + 1..j]))], j + 1))
  }

  /** scan_identifier, after the first letter at i was read. */
  function IdentifierStep(s: string, i: nat): Result<Step, ScanError>
    requires i < |s|
  {
    var p := PosAt(s, i);
    var j := RunEnd(s, i + 1, IsAlpha);
    var iden := s[i..j];
    if iden == "null" then Ok(Step([Token(p.line, p.column, Null, LNone)], j))
    else if iden == "true" then Ok(Step([Token(p.line, p.column, True, LNone)], j))
    else if iden == "false" then Ok(Step([Token(p.line, p.column, False, LNone)], j))
    else Err(ScanError(p.line, p.column, InvalidIdentifier(iden)))
  }

  /** scan_token at index i: the switch on the first character. */
  function ScanStep(s: string, i: nat): (r: Result<Step, ScanError>)
    requires i < |s|
    ensures r.Ok? ==> i < r.value.next <= |s| && |r.value.emitted| <= 1
    ensures r.Ok? ==> forall t :: t in r.value.emitted ==>
      t.line == PosAt(s, i).line && t.column == PosAt(s, i).column && t.kind != Eof && LiteralMatchesKind(t)
    ensures r.Err? ==> r.error.line == PosAt(s, i).line && r.error.column == PosAt(s, i).column
  {
    var p := PosAt(s, i);
    var c := s[i];
    if IsStructural(c) then Ok(Step([Token(p.line, p.column, StructuralKind(c), LNone)], i + 1))
    else if c == '"' then StringStep(s, i)
    else if c == '+' || c == '-' then NumberStep(s, i)
    else if IsWhitespace(c) then Ok(Step([], i + 1))
    else if IsNumberChar(c) then NumberStep(s, i)
    else if IsAlpha(c) then IdentifierStep(s, i)
    else Err(ScanError(p.line, p.column, InvalidCharacter(c)))
  }

  /** The scan loop from index i, with the tokens emitted so far and the
      start position of the last scan_token call (for the Eof token). */
  function TokenizeFrom(s: string, i: nat, emitted: seq<Token>, last: Position): Result<seq<Token>, ScanError>
    requires i <= |s|
    decreases |s| - i
  {
    if i == |s| then Ok(emitted + [Token(last.line, last.column, Eof, LNone)])
    else match ScanStep(s, i)
      case Err(e) => Err(e)
      case Ok(st) => TokenizeFrom(s, st.next, emitted + st.emitted, PosAt(s, i))
  }

  /** Scanner(s).scan(): the token list, or the first scan error. The Eof
      token starts at 0:0, the initial start position, when s is empty. */
  function Tokenize(s: string): Result<seq<Token>, ScanError> {
    TokenizeFrom(s, 0, [], Position(0, 0))
  }

  // ---------------------------------------------------------------------
  // The scanner object

  class Scanner {
    const source: string
    var tokens: seq<Token>
    var start: nat
    var startLine: nat
    var startColumn: nat
    var current: nat
    var currentLine: nat
    var currentColumn: nat

    /** The cursor is within the text, and the counters give its position. */
    ghost predicate Valid()
      reads this
    {
      start <= current <= |source|
      && Position(currentLine, currentColumn) == PosAt(source, current)
    }

    /** A scanner that has not read anything yet. */
    ghost predicate Initial()
      reads this
    {
      Valid() && tokens == [] && current == 0 && startLine == 0 && startColumn == 0
    }

    constructor (source: string)
      ensures this.source == source && Initial() && start == 0
    {
      this.source := source;
      tokens := [];
      start := 0;
      startLine := 0;
      startColumn := 0;
      current := 0;
      currentLine := 1;
      currentColumn := 1;
    }

    /** Scanner::scan: scan tokens until the end, then add Eof. */
    method Scan() returns (r: Result<seq<Token>, ScanError>)
      requires Initial()
      modifies this
      ensures r == Tokenize(source)
    {
      while IsNotEnd()
        invariant Valid()
        invariant TokenizeFrom(source, current, tokens, Position(startLine, startColumn)) == Tokenize(source)
        decreases |source| - current
      {
        start := current;
        var o := ScanToken();
        if o.Fail? {
          return Err(o.error);
        }
      }
      AddToken(Eof, LNone);
      r := Ok(tokens);
    }

    /** Scanner::scan_token */
    method ScanToken() returns (o: Outcome<ScanError>)
      requires Valid() && start == current && current < |source|
      modifies this
      ensures Valid() && start == old(current)
      ensures match ScanStep(source, old(current))
        case Err(e) => o == Fail(e)
        case Ok(st) =>
          && o == Pass && current == st.next && tokens == old(tokens) + st.emitted
          && Position(startLine, startColumn) == PosAt(source, old(current))
    {
      startLine, startColumn := currentLine, currentColumn;
      var c := Advance();
      match c
      case '{' => AddToken(LeftBrace, LNone); o := Pass;
      case '}' => AddToken(RightBrace, LNone); o := Pass;
      case '[' => AddToken(LeftBracket, LNone); o := Pass;
      case ']' => AddToken(RightBracket, LNone); o := Pass;
      case ',' => AddToken(Comma, LNone); o := Pass;
      case ':' => AddToken(Colon, LNone); o := Pass;
      case '"' => o := ScanString();
      case '+' => o := ScanNumber();
      case '-' => o := ScanNumber();
      case ' ' => o := Pass;
      case '\n' => o := Pass;
      case '\r' => o := Pass;
      case '\t' => o := Pass;
      case _ =>
        if IsNumberChar(c) {
          o := ScanNumber();
        } else if IsAlpha(c) {
          o := ScanIdentifier();
        } else {
          o := Fail(Error(InvalidCharacter(c)));
        }
    }

    /** Scanner::scan_number */
    method ScanNumber() returns (o: Outcome<ScanError>)
      requires Valid() && current == start + 1
      requires Position(startLine, startColumn) == PosAt(source, start)
      modifies this
      ensures Valid() && start == old(start)
      ensures startLine == old(startLine) && startColumn == old(startColumn)
      ensures match NumberStep(source, start)
        case Err(e) => o == Fail(e)
        case Ok(st) => o == Pass && current == st.next && tokens == old(tokens) + st.emitted
    {
      while IsNumberChar(Peek())
        invariant Valid() && start < current
        invariant RunEnd(source, current, IsNumberChar) == RunEnd(source, start + 1, IsNumberChar)
        invariant tokens == old(tokens) && start == old(start)
        invariant startLine == old(startLine) && startColumn == old(startColumn)
        decreases |source| - current
      {
        RunEndStep(source, current, IsNumberChar);
        var _ := Advance();
      }
      assert current == RunEnd(source, start + 1, IsNumberChar);
      var s := source[start..current];
      if StodAccepts(s) {
        AddToken(Number, LNum(s));
        o := Pass;
      } else {
        o := Fail(Error(NotANumber(s)));
      }
    }

    /** Scanner::scan_string: the literal is copied raw, up to the next
      quote; no escape sequence is decoded. */
    method ScanString() returns (o: Outcome<ScanError>)
      requires Valid() && current == start + 1
      requires Position(startLine, startColumn) == PosAt(source, start)
      modifies this
      ensures Valid() && start == old(start)
      ensures startLine == old(startLine) && startColumn == old(startColumn)
      ensures match StringStep(source, start)
        case Err(e) => o == Fail(e)
        case Ok(st) => o == Pass && current == st.next && tokens == old(tokens) + st.emitted
    {
      while IsNotEnd() && Peek() != '"'
        invariant Valid() && start < current
        invariant RunEnd(source, current, IsNotQuote) == RunEnd(source, start + 1, IsNotQuote)
        invariant tokens == old(tokens) && start == old(start)
        invariant startLine == old(startLine) && startColumn == old(startColumn)
        decreases |source| - current
      {
        RunEndStep(source, current, IsNotQuote);
        var _ := Advance();
      }
      assert current == RunEnd(source, start + 1, IsNotQuote);
      if !IsNotEnd() {
        return Fail(Error(UnterminatedString));
      }
      var literal := source[start + 1..current];
      var _ := Advance();
      AddToken(String, LStr(literal));
      o := Pass;
    }

    /** Scanner::scan_identifier */
    method ScanIdentifier() returns (o: Outcome<ScanError>)
      requires Valid() && current == start + 1
      requires Position(startLine, startColumn) == PosAt(source, start)
      modifies this
      ensures Valid() && start == old(start)
      ensures startLine == old(startLine) && startColumn == old(startColumn)
      ensures match IdentifierStep(source, start)
        case Err(e) => o == Fail(e)
        case Ok(st) => o == Pass && current == st.next && tokens == old(tokens) + st.emitted
    {
      while IsAlpha(Peek())
        invariant Valid() && start < current
        invariant RunEnd(source, current, IsAlpha) == RunEnd(source, start + 1, IsAlpha)
        invariant tokens == old(tokens) && start == old(start)
        invariant startLine == old(startLine) && startColumn == old(startColumn)
        decreases |source| - current
      {
        RunEndStep(source, current, IsAlpha);
        var _ := Advance();
      }
      assert current == RunEnd(source, start + 1, IsAlpha);
      var iden := source[start..current];
      if iden == "null" {
        AddToken(Null, LNone);
      } else if iden == "true" {
        AddToken(True, LNone);
      } else if iden == "false" {
        AddToken(False, LNone);
      } else {
        return Fail(Error(InvalidIdentifier(iden)));
      }
      o := Pass;
    }

    /** Scanner::is_not_end */
    predicate IsNotEnd()
      reads this
    {
      current < |source|
    }

    /** Scanner::advance: read one character and update line and column. */
    method Advance() returns (c: char)
      requires Valid() && current < |source|
      modifies this`current, this`currentLine, this`currentColumn
      ensures Valid()
      ensures c == source[old(current)] && current == old(current) + 1
    {
      c := source[current];
      current := current + 1;
      if c == '\n' {
        currentLine := currentLine + 1;
        currentColumn := 1;
      } else {
        currentColumn := currentColumn + 1;
      }
    }

    /** Scanner::peek. Past the last character std::string yields '\0',
        which belongs to no character class. */
    function Peek(): (c: char)
      reads this
      ensures current < |source| ==> c == source[current]
      ensures current >= |source| ==> !IsNumberChar(c) && !IsAlpha(c) && IsNotQuote(c)
    {
      if current < |source| then source[current] else '\0'
    }

    /** Scanner::add_token: append a token stamped with the start position. */
    method AddToken(kind: TokenKind, literal: Literal)
      modifies this`tokens
      ensures tokens == old(tokens) + [Token(startLine, startColumn, kind, literal)]
    {
      tokens := tokens + [Token(startLine, startColumn, kind, literal)];
    }

    /** Scanner::error: the exception raised, at the token's start. */
    function Error(fault: Fault): (e: ScanError)
      reads this
      ensures e.line == startLine && e.column == startColumn && e.fault == fault
    {
      ScanError(startLine, startColumn, fault)
    }
  }
}
