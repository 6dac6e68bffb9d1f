/** The parser (src/Parser.cpp, include/Parser.h): recursive descent with one
    cursor over the token array and one token of lookahead. The functions
    first say what each parse_* call returns and where it leaves the cursor;
    the class Parser then does it as the C++ class does, and its methods are
    proved to agree with those functions. */
module Parsing {
  import opened Wrappers
  import opened Tokens
  import J = JsonValue

  /** Why the parser gave up; each alternative is one error() or consume()
      call of Parser.cpp, and Message gives the text it passes. */
  datatype Reason =
    | EmptyString | TrailingToken | InvalidLiteral
    | ArrayComma | ArrayBracket | ObjectComma | ObjectBrace
    | KeyNotString | MissingColon | DuplicateKey(key: string)

  function Message(reason: Reason): string {
    match reason
    case EmptyString => "Empty string"
    case TrailingToken => "Unexpected token after parsing element"
    case InvalidLiteral => "Invalid literal"
    case ArrayComma => "Expected comma \",\" after element in array"
    case ArrayBracket => "Need right bracket \"]\" to terminate an array"
    case ObjectComma => "Expected comma \",\" after element in object"
    case ObjectBrace => "Need right brace \"}\" to terminate an object"
    case KeyNotString => "Key of object element must be a string"
    case MissingColon => "Object must have a colon \":\" to separate a key-value pair"
    case DuplicateKey(key) => "Key \"" + key + "\" already exist"
  }

  /** A parse failure: the offending token and the reason. */
  datatype ParseError = ParseError(token: Token, reason: Reason)

  /** The text of the JsonException the parser throws: the offending
      token, which starts with its position, after "Parse error at ", and the
      reason's message at the end. `showNumber` stands for writing the double
      of a Number token. */
  function ParseErrorText(e: ParseError, showNumber: string -> string): (r: string)
    requires LiteralMatchesKind(e.token)
    ensures var p := PositionText(e.token.line, e.token.column);
      15 + |p| < |r| && r[..15] == "Parse error at " && r[15..15 + |p|] == p
    ensures |Message(e.reason)| < |r| && r[|r| - |Message(e.reason)|..] == Message(e.reason)
  {
    "Parse error at " + TokenText(e.token, showNumber) + ": " + Message(e.reason)
  }

  /** What the parser needs of its token array: it ends with Eof (so the
      cursor can always be read) and each literal matches its kind (so
      std::get on it succeeds). The scanner's output is such an array. */
  predicate ValidStream(ts: seq<Token>) {
    |ts| > 0 && ts[|ts| - 1].kind == Eof
    && forall i :: 0 <= i < |ts| ==> LiteralMatchesKind(ts[i])
  }

  /** A parsed value and the cursor position after it. */
  datatype Parsed<T> = Parsed(value: T, next: nat)

  // ---------------------------------------------------------------------
  // The parse functions, one per parse_* member, from cursor position p

  /** parse_element at p */
  function ElementSpec(ts: seq<Token>, p: nat): (r: Result<Parsed<J.Json>, ParseError>)
    requires ValidStream(ts) && p < |ts| && (p > 0 || ts[p].kind != Eof)
    ensures r.Ok? ==> p <= r.value.next < |ts|
    decreases |ts| - p, 2
  {
    if ts[p].kind == LeftBracket then ArraySpec(ts, p + 1)
    else if ts[p].kind == LeftBrace then ObjectSpec(ts, p + 1)
    else LiteralSpec(ts, p)
  }

  /** parse_literal at p: advance() and switch on the token it returns. At
      Eof advance() does not move and returns the token before it. */
  function LiteralSpec(ts: seq<Token>, p: nat): (r: Result<Parsed<J.Json>, ParseError>)
    requires ValidStream(ts) && p < |ts| && (p > 0 || ts[p].kind != Eof)
    ensures r.Ok? ==> p <= r.value.next < |ts|
  {
    var q := if ts[p].kind != Eof then p + 1 else p;
    var t := ts[q - 1];
    match t.kind
    case Null => Ok(Parsed(J.JNull, q))
    case True => Ok(Parsed(J.JBool(true), q))
    case False => Ok(Parsed(J.JBool(false), q))
    case Number => Ok(Parsed(J.JNumber(t.literal.lexeme), q))
    case String => Ok(Parsed(J.JString(t.literal.s), q))
    case _ => Err(ParseError(t, InvalidLiteral))
  }

  /** parse_array at p, just after the opening bracket. */
  function ArraySpec(ts: seq<Token>, p: nat): (r: Result<Parsed<J.Json>, ParseError>)
    requires ValidStream(ts) && 0 < p < |ts|
    ensures r.Ok? ==> p < r.value.next < |ts| && r.value.value.JArray?
    decreases |ts| - p + 1, 0
  {
    if ts[p].kind == RightBracket then Ok(Parsed(J.JArray([]), p + 1))
    else
      var first :- ElementSpec(ts, p);
      ArrayTail(ts, first.next, [first.value])
  }

  /** The loop of parse_array at q, with the elements collected so far. */
  function ArrayTail(ts: seq<Token>, q: nat, elems: seq<J.Json>): (r: Result<Parsed<J.Json>, ParseError>)
    requires ValidStream(ts) && 0 < q < |ts|
    ensures r.Ok? ==> q < r.value.next < |ts| && r.value.value.JArray?
    decreases |ts| - q, 1
  {
    var t := ts[q];
    if t.kind != Eof && t.kind != RightBracket then
      if t.kind != Comma then Err(ParseError(t, ArrayComma))
      else
        var e :- ElementSpec(ts, q + 1);
        ArrayTail(ts, e.next, elems + [e.value])
    else if t.kind == RightBracket then Ok(Parsed(J.JArray(elems), q + 1))
    else Err(ParseError(t, ArrayBracket))
  }

  /** parse_object at p, just after the opening brace. */
  function ObjectSpec(ts: seq<Token>, p: nat): (r: Result<Parsed<J.Json>, ParseError>)
    requires ValidStream(ts) && 0 < p < |ts|
    ensures r.Ok? ==> p < r.value.next < |ts| && r.value.value.JObject?
    decreases |ts| - p + 1, 1
  {
    if ts[p].kind == RightBrace then Ok(Parsed(J.JObject([]), p + 1))
    else
      var first :- InsertElemSpec(ts, p, []);
      ObjectTail(ts, first.next, first.value)
  }

  /** The loop of parse_object at q, with the members collected so far. */
  function ObjectTail(ts: seq<Token>, q: nat, ms: seq<J.Member>): (r: Result<Parsed<J.Json>, ParseError>)
    requires ValidStream(ts) && 0 < q < |ts|
    ensures r.Ok? ==> q < r.value.next < |ts| && r.value.value.JObject?
    decreases |ts| - q, 5
  {
    var t := ts[q];
    if t.kind != Eof && t.kind != RightBrace then
      if t.kind != Comma then Err(ParseError(t, ObjectComma))
      else
        var m :- InsertElemSpec(ts, q + 1, ms);
        ObjectTail(ts, m.next, m.value)
    else if t.kind == RightBrace then Ok(Parsed(J.JObject(ms), q + 1))
    else Err(ParseError(t, ObjectBrace))
  }

  /** parse_object_elem at p: a String key token, a Colon, an element. The
      key token is returned for the duplicate-key message. */
  function MemberSpec(ts: seq<Token>, p: nat): (r: Result<Parsed<(J.Member, Token)>, ParseError>)
    requires ValidStream(ts) && p < |ts|
    ensures r.Ok? ==> p + 2 <= r.value.next < |ts|
    ensures r.Ok? ==> ts[p].kind == String && r.value.value.1 == ts[p] && r.value.value.0.key == ts[p].literal.s
    decreases |ts| - p, 3
  {
    if ts[p].kind != String then Err(ParseError(ts[p], KeyNotString))
    else if ts[p + 1].kind != Colon then
      Err(ParseError(ts[p + 1], MissingColon))
    else
      var v :- ElementSpec(ts, p + 2);
      Ok(Parsed((J.Member(ts[p].literal.s, v.value), ts[p]), v.next))
  }

  /** insert_object_elem at p into the members ms collected so far. */
  function InsertElemSpec(ts: seq<Token>, p: nat, ms: seq<J.Member>): (r: Result<Parsed<seq<J.Member>>, ParseError>)
    requires ValidStream(ts) && p < |ts|
    ensures r.Ok? ==> p < r.value.next < |ts|
    decreases |ts| - p, 4
  {
    var m :- MemberSpec(ts, p);
    var (kv, keyToken) := m.value;
    match J.Insert(ms, kv.key, kv.value)
    case None => Err(ParseError(keyToken, DuplicateKey(kv.key)))
    case Some(ms') => Ok(Parsed(ms', m.next))
  }

  /** Parser(ts).parse(): one element, then Eof. */
  function ParseSpec(ts: seq<Token>): (r: Result<J.Json, ParseError>)
    requires ValidStream(ts)
  {
    if ts[0].kind == Eof then Err(ParseError(ts[0], EmptyString))
    else
      var e :- ElementSpec(ts, 0);
      if ts[e.next].kind != Eof then Err(ParseError(ts[e.next], TrailingToken))
      else Ok(e.value)
  }

  // ---------------------------------------------------------------------
  // One step of each parse function, case by case

  /** parse_array after its bracket: empty, or a first element and the loop. */
  lemma ArrayOpens(ts: seq<Token>, p: nat)
    requires ValidStream(ts) && 0 < p < |ts| && ts[p].kind != RightBracket
    ensures ts[p].kind != Eof || p > 0
    ensures ElementSpec(ts, p).Err? ==> ArraySpec(ts, p) == Err(ElementSpec(ts, p).error)
    ensures ElementSpec(ts, p).Ok? ==>
              ArraySpec(ts, p) == ArrayTail(ts, ElementSpec(ts, p).value.next, [ElementSpec(ts, p).value.value])
  {
  }

  /** One turn of the parse_array loop at q. */
  lemma ArrayTailUnfold(ts: seq<Token>, q: nat, elems: seq<J.Json>)
    requires ValidStream(ts) && 0 < q < |ts|
    ensures ts[q].kind == RightBracket ==> ArrayTail(ts, q, elems) == Ok(Parsed(J.JArray(elems), q + 1))
    ensures ts[q].kind == Eof ==> ArrayTail(ts, q, elems) == Err(ParseError(ts[q], ArrayBracket))
    ensures ts[q].kind != Eof && ts[q].kind != RightBracket && ts[q].kind != Comma ==>
              ArrayTail(ts, q, elems) == Err(ParseError(ts[q], ArrayComma))
    ensures ts[q].kind == Comma ==> q + 1 < |ts|
    ensures ts[q].kind == Comma && ElementSpec(ts, q + 1).Err? ==>
              ArrayTail(ts, q, elems) == Err(ElementSpec(ts, q + 1).error)
    ensures ts[q].kind == Comma && ElementSpec(ts, q + 1).Ok? ==>
              ArrayTail(ts, q, elems)
              == ArrayTail(ts, ElementSpec(ts, q + 1).value.next, elems + [ElementSpec(ts, q + 1).value.value])
  {
  }

  /** parse_object after its brace: empty, or a first member and the loop. */
  lemma ObjectOpens(ts: seq<Token>, p: nat)
    requires ValidStream(ts) && 0 < p < |ts| && ts[p].kind != RightBrace
    ensures InsertElemSpec(ts, p, []).Err? ==> ObjectSpec(ts, p) == Err(InsertElemSpec(ts, p, []).error)
    ensures InsertElemSpec(ts, p, []).Ok? ==>
              ObjectSpec(ts, p)
              == ObjectTail(ts, InsertElemSpec(ts, p, []).value.next, InsertElemSpec(ts, p, []).value.value)
  {
  }

  /** One turn of the parse_object loop at q. */
  lemma ObjectTailUnfold(ts: seq<Token>, q: nat, ms: seq<J.Member>)
    requires ValidStream(ts) && 0 < q < |ts|
    ensures ts[q].kind == RightBrace ==> ObjectTail(ts, q, ms) == Ok(Parsed(J.JObject(ms), q + 1))
    ensures ts[q].kind == Eof ==> ObjectTail(ts, q, ms) == Err(ParseError(ts[q], ObjectBrace))
    ensures ts[q].kind != Eof && ts[q].kind != RightBrace && ts[q].kind != Comma ==>
              ObjectTail(ts, q, ms) == Err(ParseError(ts[q], ObjectComma))
    ensures ts[q].kind == Comma ==> q + 1 < |ts|
    ensures ts[q].kind == Comma && InsertElemSpec(ts, q + 1, ms).Err? ==>
              ObjectTail(ts, q, ms) == Err(InsertElemSpec(ts, q + 1, ms).error)
    ensures ts[q].kind == Comma && InsertElemSpec(ts, q + 1, ms).Ok? ==>
              ObjectTail(ts, q, ms)
              == ObjectTail(ts, InsertElemSpec(ts, q + 1, ms).value.next, InsertElemSpec(ts, q + 1, ms).value.value)
  {
  }

  /** A parse method returned what the parse function gives, and on success
      left the cursor where the function says. */
  ghost predicate Agrees<T>(spec: Result<Parsed<T>, ParseError>, r: Result<T, ParseError>, cursor: nat) {
    match spec
    case Ok(p) => r == Ok(p.value) && cursor == p.next
    case Err(e) => r == Err(e)
  }

  // ---------------------------------------------------------------------
  // The parser object

  class Parser {
    const tokens: seq<Token>
    var current: nat

    /** The cursor is on a token; the array ends with Eof. */
    ghost predicate Valid()
      reads this
    {
      ValidStream(tokens) && current < |tokens|
    }

    constructor (tokens: seq<Token>)
      requires ValidStream(tokens)
      ensures Valid() && this.tokens == tokens && current == 0
    {
      this.tokens := tokens;
      current := 0;
    }

    /** Parser::parse */
    method Parse() returns (r: Result<J.Json, ParseError>)
      requires Valid() && current == 0
      modifies this
      ensures Valid()
      ensures r == ParseSpec(tokens)
      ensures r.Ok? ==> tokens[current].kind == Eof
    {
      if !IsNotEnd() {
        return Err(ParseError(Peek(), EmptyString));
      }
      var res :- ParseElement();
      if IsNotEnd() {
        return Err(ParseError(Peek(), TrailingToken));
      }
      r := Ok(res);
    }

    /** Parser::parse_element */
    method ParseElement() returns (r: Result<J.Json, ParseError>)
      requires Valid() && (current > 0 || tokens[current].kind != Eof)
      modifies this
      ensures Valid() && Agrees(ElementSpec(tokens, old(current)), r, current)
      decreases |tokens| - current, 2
    {
      var isArray := Match(LeftBracket);
      if isArray {
        r := ParseArray();
        return;
      }
      var isObject := Match(LeftBrace);
      if isObject {
        r := ParseObject();
        return;
      }
      r := ParseLiteral();
    }

    /** Parser::parse_literal */
    method ParseLiteral() returns (r: Result<J.Json, ParseError>)
      requires Valid() && (current > 0 || tokens[current].kind != Eof)
      modifies this
      ensures Valid() && Agrees(LiteralSpec(tokens, old(current)), r, current)
    {
      var token := Advance();
      match token.kind
      case Null => r := Ok(J.JNull);
      case True => r := Ok(J.JBool(true));
      case False => r := Ok(J.JBool(false));
      case Number => r := Ok(J.JNumber(token.literal.lexeme));
      case String => r := Ok(J.JString(token.literal.s));
      case _ => r := Err(ParseError(Previous(), InvalidLiteral));
    }

    /** Parser::parse_array, called just after the opening bracket. */
    method ParseArray() returns (r: Result<J.Json, ParseError>)
      requires Valid() && current > 0
      modifies this
      ensures Valid() && Agrees(ArraySpec(tokens, old(current)), r, current)
      decreases |tokens| - current + 1, 0
    {
      ghost var p0 := current;
      var elems: seq<J.Json> := [];
      var closed := Match(RightBracket);
      if closed {
        return Ok(J.JArray(elems));
      }
      ArrayOpens(tokens, p0);
      var first :- ParseElement();
      elems := [first];
      while IsNotEnd() && !Check(RightBracket)
        invariant Valid() && old(current) <= current
        invariant ArraySpec(tokens, old(current)) == ArrayTail(tokens, current, elems)
        decreases |tokens| - current
      {
        ArrayTailUnfold(tokens, current, elems);
        var comma :- Consume(Comma, ArrayComma);
        var e :- ParseElement();
        elems := elems + [e];
      }
      ArrayTailUnfold(tokens, current, elems);
      var closing :- Consume(RightBracket, ArrayBracket);
      r := Ok(J.JArray(elems));
    }

    /** Parser::parse_object, called just after the opening brace. */
    method ParseObject() returns (r: Result<J.Json, ParseError>)
      requires Valid() && current > 0
      modifies this
      ensures Valid() && Agrees(ObjectSpec(tokens, old(current)), r, current)
      decreases |tokens| - current + 1, 1
    {
      ghost var p0 := current;
      var members: seq<J.Member> := [];
      var closed := Match(RightBrace);
      if closed {
        return Ok(J.JObject(members));
      }
      ObjectOpens(tokens, p0);
      members :- InsertObjectElem(members);
      while IsNotEnd() && !Check(RightBrace)
        invariant Valid() && old(current) < current
        invariant ObjectSpec(tokens, old(current)) == ObjectTail(tokens, current, members)
        decreases |tokens| - current
      {
        ObjectTailUnfold(tokens, current, members);
        var comma :- Consume(Comma, ObjectComma);
        members :- InsertObjectElem(members);
      }
      ObjectTailUnfold(tokens, current, members);
      var closing :- Consume(RightBrace, ObjectBrace);
      r := Ok(J.JObject(members));
    }

    /** Parser::parse_object_elem */
    method ParseObjectElem() returns (r: Result<(J.Member, Token), ParseError>)
      requires Valid()
      modifies this
      ensures Valid() && Agrees(MemberSpec(tokens, old(current)), r, current)
      decreases |tokens| - current, 3
    {
      var keyToken :- Consume(String, KeyNotString);
      var key := keyToken.literal.s;
      var colon :- Consume(Colon, MissingColon);
      var value :- ParseElement();
      r := Ok((J.Member(key, value), keyToken));
    }

    /** Parser::insert_object_elem: the map is passed in and the updated
        map returned; a key already present is an error at its token. */
    method InsertObjectElem(members: seq<J.Member>) returns (r: Result<seq<J.Member>, ParseError>)
      requires Valid()
      modifies this
      ensures Valid() && Agrees(InsertElemSpec(tokens, old(current), members), r, current)
      decreases |tokens| - current, 4
    {
      var elem :- ParseObjectElem();
      var (kv, keyToken) := elem;
      var inserted := J.Insert(members, kv.key, kv.value);
      if inserted.None? {
        return Err(ParseError(keyToken, DuplicateKey(kv.key)));
      }
      r := Ok(inserted.value);
    }

    /** Parser::is_not_end */
    predicate IsNotEnd()
      reads this
      requires Valid()
    {
      tokens[current].kind != Eof
    }

    /** Parser::match: advance when the current token has kind k. */
    method Match(k: TokenKind) returns (matched: bool)
      requires Valid() && k != Eof
      modifies this
      ensures Valid()
      ensures matched == (old(tokens[current].kind) == k)
      ensures current == if matched then old(current) + 1 else old(current)
    {
      if Peek().kind == k {
        var _ := Advance();
        return true;
      }
      return false;
    }

    /** Parser::check */
    predicate Check(k: TokenKind)
      reads this
      requires Valid()
    {
      Peek().kind == k
    }

    /** Parser::advance: move forward unless at Eof, and return the token
        just passed (at Eof, the one before it). */
    method Advance() returns (t: Token)
      requires Valid() && (current > 0 || tokens[current].kind != Eof)
      modifies this
      ensures Valid()
      ensures current == if old(tokens[current].kind) != Eof then old(current) + 1 else old(current)
      ensures 0 < current && t == tokens[current - 1]
    {
      if IsNotEnd() {
        current := current + 1;
      }
      t := tokens[current - 1];
    }

    /** Parser::peek */
    function Peek(): (t: Token)
      reads this
      requires Valid()
      ensures t == tokens[current]
    {
      tokens[current]
    }

    /** Parser::previous */
    function Previous(): (t: Token)
      reads this
      requires Valid() && current > 0
      ensures t == tokens[current - 1]
    {
      tokens[current - 1]
    }

    /** Parser::consume: advance past a token of kind k and return it, or
        fail at the current token, without moving. */
    method Consume(k: TokenKind, reason: Reason) returns (r: Result<Token, ParseError>)
      requires Valid() && k != Eof
      modifies this
      ensures Valid()
      ensures old(tokens[current].kind) == k ==> r == Ok(old(tokens[current])) && current == old(current) + 1
      ensures old(tokens[current].kind) != k ==> r == Err(ParseError(old(tokens[current]), reason)) && current == old(current)
    {
      if Check(k) {
        var t := Advance();
        return Ok(t);
      }
      return Err(ParseError(Peek(), reason));
    }
  }
}
