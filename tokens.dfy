/** Tokens (include/Token.h, src/Token.cpp): the kinds, the token record and
    the text Token::to_string builds for parse-error messages. */
module Tokens {
  import opened Wrappers

  /** TokenType, the twelve kinds in declaration order. */
  datatype TokenKind =
    | Null | True | False | Number | String
    | Comma | Colon | LeftBrace | RightBrace | LeftBracket | RightBracket
    | Eof

  /** Token::literal_t. A Number literal is kept as the lexeme it was read
      from; which double that lexeme denotes is not modelled. */
  datatype Literal = LStr(s: string) | LNum(lexeme: string) | LNone

  /** Token: the 1-based position of the token's first character, its kind
      and its literal. The C++ constructor stores its four arguments
      unchanged, which is what this datatype constructor does. */
  datatype Token = Token(line: nat, column: nat, kind: TokenKind, literal: Literal)

  /** The literal alternative a token of each kind carries: the string for a
      String token, the number for a Number token, nothing otherwise. */
  predicate LiteralMatchesKind(t: Token) {
    match t.kind
    case String => t.literal.LStr?
    case Number => t.literal.LNum?
    case _ => t.literal.LNone?
  }

  /** A kind whose lexeme is fixed (Null, True, False and the six
      structural characters). */
  predicate HasFixedLexeme(k: TokenKind) {
    k != Number && k != String && k != Eof
  }

  /** The label each kind prints under: the enumerator's own name. */
  function Label(k: TokenKind): string {
    match k
    case Null => "Null"
    case True => "True"
    case False => "False"
    case Number => "Number"
    case String => "String"
    case Comma => "Comma"
    case Colon => "Colon"
    case LeftBrace => "LeftBrace"
    case RightBrace => "RightBrace"
    case LeftBracket => "LeftBracket"
    case RightBracket => "RightBracket"
    case Eof => "Eof"
  }

  /** The source text of a fixed-lexeme kind. */
  function FixedLexeme(k: TokenKind): string
    requires HasFixedLexeme(k)
  {
    match k
    case Null => "null"
    case True => "true"
    case False => "false"
    case Comma => ","
    case Colon => ":"
    case LeftBrace => "{"
    case RightBrace => "}"
    case LeftBracket => "["
    case RightBracket => "]"
  }

  // ---------------------------------------------------------------------
  // Decimal text of a position component (`ss << line`).

  function DigitChar(d: nat): (c: char)
    requires d < 10
    ensures '0' <= c <= '9' && (c as int) - ('0' as int) == d
  {
    (('0' as int) + d) as char
  }

  predicate IsDecimal(s: string) {
    forall i :: 0 <= i < |s| ==> '0' <= s[i] <= '9'
  }

  /** The shortest decimal numeral of n, as an output stream writes it. */
  function NatToString(n: nat): (s: string)
    ensures |s| > 0 && IsDecimal(s)
    ensures |s| > 1 ==> s[0] != '0'
  {
    if n < 10 then [DigitChar(n)] else NatToString(n / 10) + [DigitChar(n % 10)]
  }

  /** The number a decimal numeral denotes, read most significant first. */
  function DecimalValue(s: string): nat
    requires IsDecimal(s)
  {
    if s == [] then 0
    else DecimalValue(s[..|s| - 1]) * 10 + ((s[|s| - 1] as int) - ('0' as int))
  }

  /** Reading back a printed line or column gives the number printed. */
  lemma {:induction false} DecimalValueOfNatToString(n: nat)
    ensures DecimalValue(NatToString(n)) == n
  {
    var s := NatToString(n);
    if n >= 10 {
      DecimalValueOfNatToString(n / 10);
      assert s[..|s| - 1] == NatToString(n / 10);
    }
  }

  // ---------------------------------------------------------------------
  // std::quoted with its default delimiter '"' and escape '\\'.

  function Escaped(s: string): string {
    if s == [] then []
    else (if s[0] == '"' || s[0] == '\\' then ['\\', s[0]] else [s[0]]) + Escaped(s[1..])
  }

  /** The characters `std::quoted(s)` writes: s between double quotes, with
      every `"` and `\` in it preceded by a backslash. */
  function Quoted(s: string): (q: string)
    ensures |q| >= 2 && q[0] == '"' && q[|q| - 1] == '"'
  {
    "\"" + Escaped(s) + "\""
  }

  /** Reads escaped text up to its closing, unescaped quote, as the input
      form of std::quoted does; the quote must be the last character. */
  function Unescape(t: string): Option<string> {
    if t == [] then None
    else if t[0] == '"' then (if |t| == 1 then Some([]) else None)
    else if t[0] == '\\' then
      if |t| < 2 then None
      else match Unescape(t[2..])
        case None => None
        case Some(rest) => Some([t[1]] + rest)
    else match Unescape(t[1..])
      case None => None
      case Some(rest) => Some([t[0]] + rest)
  }

  /** The inverse of Quoted: strips the opening quote and unescapes. */
  function Unquote(q: string): Option<string> {
    if q != [] && q[0] == '"' then Unescape(q[1..]) else None
  }

  lemma {:induction false} UnescapeEscaped(s: string)
    ensures Unescape(Escaped(s) + "\"") == Some(s)
  {
    if s != [] {
      UnescapeEscaped(s[1..]);
      var tail := Escaped(s[1..]) + "\"";
      if s[0] == '"' || s[0] == '\\' {
        var t := ['\\', s[0]] + tail;
        assert Escaped(s) + "\"" == t;
        assert t[0] == '\\' && t[1] == s[0] && t[2..] == tail;
        assert Unescape(t) == Some([s[0]] + s[1..]);
        assert [s[0]] + s[1..] == s;
      } else {
        var t := [s[0]] + tail;
        assert Escaped(s) + "\"" == t;
        assert t[0] == s[0] && t[1..] == tail;
        assert Unescape(t) == Some([s[0]] + s[1..]);
        assert [s[0]] + s[1..] == s;
      }
    }
  }

  /** Quoting loses nothing: the quoted text reads back as the original,
      whatever quotes and backslashes it holds. */
  lemma QuotedRoundTrip(s: string)
    ensures Unquote(Quoted(s)) == Some(s)
  {
    UnescapeEscaped(s);
    assert Quoted(s)[1..] == Escaped(s) + "\"";
  }

  /** A text with no `"` and no `\` is quoted without any escape. */
  lemma {:induction false} EscapedPlain(s: string)
    requires forall i :: 0 <= i < |s| ==> s[i] != '"' && s[i] != '\\'
    ensures Escaped(s) == s
  {
    if s != [] {
      EscapedPlain(s[1..]);
    }
  }

  // ---------------------------------------------------------------------
  // Token::to_string

  /** The position prefix `[line:column]`. */
  function PositionText(line: nat, column: nat): string {
    "[" + NatToString(line) + ":" + NatToString(column) + "]"
  }

  /** A position text reads back: the digits between `[` and the colon give
      the line, and those between the colon and `]` give the column. */
  lemma PositionTextReadsBack(line: nat, column: nat)
    ensures var p, l := PositionText(line, column), |NatToString(line)|;
      |p| == l + |NatToString(column)| + 3 && p[0] == '[' && p[1 + l] == ':' && p[|p| - 1] == ']' &&
      IsDecimal(p[1..1 + l]) && DecimalValue(p[1..1 + l]) == line &&
      IsDecimal(p[2 + l..|p| - 1]) && DecimalValue(p[2 + l..|p| - 1]) == column
  {
    DecimalValueOfNatToString(line);
    DecimalValueOfNatToString(column);
    BracketedPair(PositionText(line, column), NatToString(line), NatToString(column));
  }

  /** Where the parts of `[x:y]` stand. */
  lemma BracketedPair(p: string, x: string, y: string)
    requires p == "[" + x + ":" + y + "]"
    ensures |p| == |x| + |y| + 3 && p[0] == '[' && p[1 + |x|] == ':' && p[|p| - 1] == ']'
    ensures p[1..1 + |x|] == x && p[2 + |x|..|p| - 1] == y
  {
    assert p == "[" + x + (":" + y + "]");
    SliceOfConcat("[", x, ":" + y + "]");
    SliceOfConcat("[" + x + ":", y, "]");
  }

  lemma SliceOfConcat(x: string, y: string, z: string)
    ensures (x + y + z)[|x|..|x| + |y|] == y
  {
  }

  /** Two positions with the same text are the same position. */
  lemma PositionTextInjective(line1: nat, column1: nat, line2: nat, column2: nat)
    requires PositionText(line1, column1) == PositionText(line2, column2)
    ensures line1 == line2 && column1 == column2
  {
    var p := PositionText(line1, column1);
    PositionTextReadsBack(line1, column1);
    PositionTextReadsBack(line2, column2);
    FirstColon(p, |NatToString(line1)|, |NatToString(line2)|);
  }

  /** Digits from index 1 up to a colon: the colon is the first one, so
      there is only one such run. */
  lemma FirstColon(p: string, a: nat, b: nat)
    requires 1 + a < |p| && 1 + b < |p| && p[1 + a] == ':' && p[1 + b] == ':'
    requires IsDecimal(p[1..1 + a]) && IsDecimal(p[1..1 + b])
    ensures a == b
  {
    assert forall i :: 1 <= i < 1 + a ==> p[i] == p[1..1 + a][i - 1];
    assert forall i :: 1 <= i < 1 + b ==> p[i] == p[1..1 + b][i - 1];
  }

  /** Token::to_string. `showNumber` stands for writing the double of a
      Number token to a stream, which is outside this model. */
  function TokenText(t: Token, showNumber: string -> string): (r: string)
    requires LiteralMatchesKind(t)
    ensures |PositionText(t.line, t.column)| < |r|
    ensures r[..|PositionText(t.line, t.column)|] == PositionText(t.line, t.column)
    ensures r[|r| - 1] == ']'
  {
    var body :=
      match t.kind
      case Eof => "[Eof: EOF"
      case String => "[String: " + Quoted(t.literal.s)
      case Number => "[Number: " + showNumber(t.literal.lexeme)
      case _ => "[" + Label(t.kind) + ": " + Quoted(FixedLexeme(t.kind));
    PositionText(t.line, t.column) + body + "]"
  }

  /** A fixed-lexeme kind prints its label and its lexeme in quotes, such as
      `[3:7][Comma: ","]`; no fixed lexeme needs an escape. */
  lemma FixedKindText(t: Token, showNumber: string -> string)
    requires LiteralMatchesKind(t) && HasFixedLexeme(t.kind)
    ensures TokenText(t, showNumber)
         == PositionText(t.line, t.column) + "[" + Label(t.kind) + ": \"" + FixedLexeme(t.kind) + "\"]"
  {
    var lexeme := FixedLexeme(t.kind);
    assert Escaped(lexeme) == lexeme by {
      match t.kind
      case Null => EscapedPlain("null");
      case True => EscapedPlain("true");
      case False => EscapedPlain("false");
      case Comma =>
      case Colon =>
      case LeftBrace =>
      case RightBrace =>
      case LeftBracket =>
      case RightBracket =>
      case Number =>
      case String =>
      case Eof =>
    }
  }

  /** Eof prints `[Eof: EOF]` after its position. */
  lemma EofText(t: Token, showNumber: string -> string)
    requires t.kind == Eof && t.literal == LNone
    ensures TokenText(t, showNumber) == PositionText(t.line, t.column) + "[Eof: EOF]"
  {
  }

  /** A String token prints its literal through std::quoted, so the literal
      can be read back from the message exactly. */
  lemma StringTokenText(t: Token, showNumber: string -> string)
    requires t.kind == String && t.literal.LStr?
    ensures var r := TokenText(t, showNumber);
            var p := |PositionText(t.line, t.column)| + |"[String: "|;
            p < |r| && Unquote(r[p..|r| - 1]) == Some(t.literal.s)
  {
    var r := TokenText(t, showNumber);
    var p := |PositionText(t.line, t.column)| + |"[String: "|;
    assert r == PositionText(t.line, t.column) + "[String: " + Quoted(t.literal.s) + "]";
    assert r[p..|r| - 1] == Quoted(t.literal.s);
    QuotedRoundTrip(t.literal.s);
  }
}
