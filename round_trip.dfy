/** The parser reads back what a value's tokens say (src/Parser.cpp): any
    well-formed value, spelled as tokens and followed by Eof, parses to
    itself. The spelling is stated twice: as a relation on a token stream
    that looks only at kinds and literals, as the parser does, and as the
    token sequence a value is written as; the second is an instance of the
    first. */
module RoundTrip {
  import opened Wrappers
  import opened Tokens
  import opened Parsing
  import J = JsonValue

  // ---------------------------------------------------------------------
  // How many tokens a value takes

  function Width(j: J.Json): nat
    decreases j
  {
    match j
    case JArray(es) => if es == [] then 2 else 1 + Width(es[0]) + ElementsWidth(es[1..]) + 1
    case JObject(ms) => if ms == [] then 2 else 1 + MemberWidth(ms[0]) + MembersWidth(ms[1..]) + 1
    case _ => 1
  }

  /** The elements after the first, each after its comma. */
  function ElementsWidth(es: seq<J.Json>): nat
    decreases es
  {
    if es == [] then 0 else 1 + Width(es[0]) + ElementsWidth(es[1..])
  }

  function MemberWidth(m: J.Member): nat
    decreases m
  {
    2 + Width(m.value)
  }

  /** The members after the first, each after its comma. */
  function MembersWidth(ms: seq<J.Member>): nat
    decreases ms
  {
    if ms == [] then 0 else 1 + MemberWidth(ms[0]) + MembersWidth(ms[1..])
  }

  // ---------------------------------------------------------------------
  // The tokens of a value, by kind and literal, at any positions

  /** The tokens of ts from p on spell j: a literal token for a scalar, and
      for a container its opening token, the elements or members separated
      by commas, and its closing token. */
  predicate Spells(ts: seq<Token>, p: nat, j: J.Json)
    decreases j
  {
    p < |ts| &&
    match j
    case JNull => ts[p].kind == Null
    case JBool(b) => ts[p].kind == (if b then True else False)
    case JNumber(n) => ts[p].kind == Number && ts[p].literal == LNum(n)
    case JString(s) => ts[p].kind == String && ts[p].literal == LStr(s)
    case JArray(es) =>
      ts[p].kind == LeftBracket &&
      if es == [] then p + 1 < |ts| && ts[p + 1].kind == RightBracket
      else Spells(ts, p + 1, es[0]) && SpellsElements(ts, p + 1 + Width(es[0]), es[1..])
    case JObject(ms) =>
      ts[p].kind == LeftBrace &&
      if ms == [] then p + 1 < |ts| && ts[p + 1].kind == RightBrace
      else SpellsMember(ts, p + 1, ms[0]) && SpellsMembers(ts, p + 1 + MemberWidth(ms[0]), ms[1..])
  }

  /** From q on: each remaining element after a comma, then the closing
      bracket. */
  predicate SpellsElements(ts: seq<Token>, q: nat, es: seq<J.Json>)
    decreases es
  {
    q < |ts| &&
    if es == [] then ts[q].kind == RightBracket
    else ts[q].kind == Comma && Spells(ts, q + 1, es[0]) && SpellsElements(ts, q + 1 + Width(es[0]), es[1..])
  }

  /** A member: its key as a String token, a Colon, its value. */
  predicate SpellsMember(ts: seq<Token>, p: nat, m: J.Member)
    decreases m
  {
    p + 1 < |ts| && ts[p].kind == String && ts[p].literal == LStr(m.key) && ts[p + 1].kind == Colon
    && Spells(ts, p + 2, m.value)
  }

  /** From q on: each remaining member after a comma, then the closing
      brace. */
  predicate SpellsMembers(ts: seq<Token>, q: nat, ms: seq<J.Member>)
    decreases ms
  {
    q < |ts| &&
    if ms == [] then ts[q].kind == RightBrace
    else ts[q].kind == Comma && SpellsMember(ts, q + 1, ms[0]) && SpellsMembers(ts, q + 1 + MemberWidth(ms[0]), ms[1..])
  }

  /** The first token of a value opens it. */
  lemma SpellsOpens(ts: seq<Token>, p: nat, j: J.Json)
    requires Spells(ts, p, j)
    ensures ts[p].kind != Eof && ts[p].kind != RightBracket && ts[p].kind != RightBrace
  {
  }

  /** Every element of a list is well formed. */
  predicate AllWellFormed(es: seq<J.Json>) {
    forall i :: 0 <= i < |es| ==> J.WellFormed(es[i])
  }

  /** Every member's value is well formed. */
  predicate ValuesWellFormed(ms: seq<J.Member>) {
    forall i :: 0 <= i < |ms| ==> J.WellFormed(ms[i].value)
  }

  /** WellFormed of a container, element by element. */
  lemma WellFormedParts(j: J.Json)
    requires J.WellFormed(j)
    ensures j.JArray? ==> AllWellFormed(j.elems)
    ensures j.JObject? ==> J.Sorted(j.members) && ValuesWellFormed(j.members)
  {
  }

  lemma AllWellFormedTail(es: seq<J.Json>)
    requires AllWellFormed(es) && es != []
    ensures J.WellFormed(es[0]) && AllWellFormed(es[1..])
  {
    forall i | 0 <= i < |es[1..]| ensures J.WellFormed(es[1..][i]) {
      assert es[1..][i] == es[i + 1];
    }
  }

  lemma ValuesWellFormedTail(ms: seq<J.Member>)
    requires ValuesWellFormed(ms) && ms != []
    ensures J.WellFormed(ms[0].value) && ValuesWellFormed(ms[1..])
  {
    forall i | 0 <= i < |ms[1..]| ensures J.WellFormed(ms[1..][i].value) {
      assert ms[1..][i] == ms[i + 1];
    }
  }

  /** Moving the first remaining item to the items read so far. */
  lemma ShiftOne<T>(done: seq<T>, rest: seq<T>)
    requires rest != []
    ensures (done + [rest[0]]) + rest[1..] == done + rest
  {
  }

  // ---------------------------------------------------------------------
  // The parse functions on a spelled value

  /** parse_element on the tokens of a well-formed value reads that value
      and stops right after its last token. */
  lemma {:induction false} ElementRoundTrip(j: J.Json, ts: seq<Token>, p: nat)
    requires ValidStream(ts) && J.WellFormed(j) && Spells(ts, p, j) && p + Width(j) < |ts|
    ensures ts[p].kind != Eof && ts[p].kind != RightBracket
    ensures ElementSpec(ts, p) == Ok(Parsed(j, p + Width(j)))
    decreases j, 1
  {
    SpellsOpens(ts, p, j);
    if j.JArray? {
      ArrayElement(j, ts, p);
    } else if j.JObject? {
      ObjectElement(j, ts, p);
    } else {
      ScalarRoundTrip(j, ts, p);
    }
  }

  /** parse_element at the tokens of an array. */
  lemma {:induction false} ArrayElement(j: J.Json, ts: seq<Token>, p: nat)
    requires j.JArray? && ValidStream(ts) && J.WellFormed(j) && Spells(ts, p, j) && p + Width(j) < |ts|
    ensures ElementSpec(ts, p) == Ok(Parsed(j, p + Width(j)))
    decreases j, 0
  {
    WellFormedParts(j);
    ElementOpensArray(ts, p);
    ArrayRoundTrip(j.elems, ts, p + 1);
  }

  /** parse_element at the tokens of an object. */
  lemma {:induction false} ObjectElement(j: J.Json, ts: seq<Token>, p: nat)
    requires j.JObject? && ValidStream(ts) && J.WellFormed(j) && Spells(ts, p, j) && p + Width(j) < |ts|
    ensures ElementSpec(ts, p) == Ok(Parsed(j, p + Width(j)))
    decreases j, 0
  {
    WellFormedParts(j);
    ElementOpensObject(ts, p);
    ObjectRoundTrip(j.members, ts, p + 1);
  }

  /** A scalar is a single token, which parse_literal reads. */
  lemma ScalarRoundTrip(j: J.Json, ts: seq<Token>, p: nat)
    requires !j.JArray? && !j.JObject?
    requires ValidStream(ts) && Spells(ts, p, j) && p + 1 < |ts|
    ensures ElementSpec(ts, p) == Ok(Parsed(j, p + Width(j)))
  {
  }

  /** parse_element at an opening bracket. */
  lemma ElementOpensArray(ts: seq<Token>, p: nat)
    requires ValidStream(ts) && p + 1 < |ts| && ts[p].kind == LeftBracket
    ensures ElementSpec(ts, p) == ArraySpec(ts, p + 1)
  {
  }

  /** parse_element at an opening brace. */
  lemma ElementOpensObject(ts: seq<Token>, p: nat)
    requires ValidStream(ts) && p + 1 < |ts| && ts[p].kind == LeftBrace
    ensures ElementSpec(ts, p) == ObjectSpec(ts, p + 1)
  {
  }

  /** parse_array, after the bracket, on the tokens of an array. */
  lemma {:induction false} ArrayRoundTrip(es: seq<J.Json>, ts: seq<Token>, p: nat)
    requires 0 < p && AllWellFormed(es) && ValidStream(ts)
    requires Spells(ts, p - 1, J.JArray(es)) && p - 1 + Width(J.JArray(es)) < |ts|
    ensures ArraySpec(ts, p) == Ok(Parsed(J.JArray(es), p - 1 + Width(J.JArray(es))))
    decreases es, 3
  {
    if es == [] {
      ArrayEmpty(ts, p);
    } else {
      AllWellFormedTail(es);
      ArrayNonEmpty(es, ts, p);
    }
  }

  /** parse_array at the closing bracket of an empty array. */
  lemma ArrayEmpty(ts: seq<Token>, p: nat)
    requires ValidStream(ts) && 0 < p < |ts| && ts[p].kind == RightBracket
    ensures ArraySpec(ts, p) == Ok(Parsed(J.JArray([]), p + 1))
  {
  }

  lemma {:induction false} ArrayNonEmpty(es: seq<J.Json>, ts: seq<Token>, p: nat)
    requires 0 < p && es != [] && J.WellFormed(es[0]) && AllWellFormed(es[1..]) && ValidStream(ts)
    requires Spells(ts, p, es[0]) && SpellsElements(ts, p + Width(es[0]), es[1..])
    requires p + Width(es[0]) + ElementsWidth(es[1..]) + 1 < |ts|
    ensures ArraySpec(ts, p) == Ok(Parsed(J.JArray(es), p + Width(es[0]) + ElementsWidth(es[1..]) + 1))
    decreases es, 2
  {
    assert es == [es[0]] + es[1..];
    ElementsRoundTrip(es, [es[0]], es[1..], ts, p + Width(es[0]));
    ArrayFirst(es, ts, p);
  }

  /** parse_array after its bracket reads the first element and enters its
      loop. */
  lemma {:induction false} ArrayFirst(es: seq<J.Json>, ts: seq<Token>, p: nat)
    requires es != [] && J.WellFormed(es[0]) && ValidStream(ts) && 0 < p
    requires Spells(ts, p, es[0]) && p + Width(es[0]) < |ts|
    ensures ArraySpec(ts, p) == ArrayTail(ts, p + Width(es[0]), [es[0]])
    decreases es, 1
  {
    ElementRoundTrip(es[0], ts, p);
    ArrayOpensWith(ts, p, es[0], p + Width(es[0]));
  }

  /** The parse_array loop on the remaining elements, each after a comma,
      and the closing bracket, with the elements read so far. */
  lemma {:induction false} ElementsRoundTrip(es: seq<J.Json>, done: seq<J.Json>, rest: seq<J.Json>, ts: seq<Token>, q: nat)
    requires es == done + rest && AllWellFormed(rest) && ValidStream(ts) && 0 < q
    requires SpellsElements(ts, q, rest) && q + ElementsWidth(rest) + 1 < |ts|
    ensures ArrayTail(ts, q, done) == Ok(Parsed(J.JArray(es), q + ElementsWidth(rest) + 1))
    decreases rest, 2
  {
    if rest == [] {
      assert es == done;
      ArrayTailClose(ts, q, done);
    } else {
      AllWellFormedTail(rest);
      ElementsCons(es, done, rest, ts, q);
    }
  }

  /** An element left: the comma, the element, and the loop on the rest. */
  lemma {:induction false} ElementsCons(es: seq<J.Json>, done: seq<J.Json>, rest: seq<J.Json>, ts: seq<Token>, q: nat)
    requires es == done + rest && rest != [] && J.WellFormed(rest[0]) && AllWellFormed(rest[1..])
    requires ValidStream(ts) && 0 < q < |ts| && ts[q].kind == Comma
    requires Spells(ts, q + 1, rest[0]) && SpellsElements(ts, q + 1 + Width(rest[0]), rest[1..])
    requires q + 1 + Width(rest[0]) + ElementsWidth(rest[1..]) + 1 < |ts|
    ensures ArrayTail(ts, q, done) == Ok(Parsed(J.JArray(es), q + 1 + Width(rest[0]) + ElementsWidth(rest[1..]) + 1))
    decreases rest, 1
  {
    ArrayTailElement(done, rest, ts, q);
    ShiftOne(done, rest);
    ElementsRoundTrip(es, done + [rest[0]], rest[1..], ts, q + 1 + Width(rest[0]));
  }

  /** One turn of the parse_array loop: a comma, then the tokens of the
      next element. */
  lemma {:induction false} ArrayTailElement(done: seq<J.Json>, rest: seq<J.Json>, ts: seq<Token>, q: nat)
    requires rest != [] && J.WellFormed(rest[0]) && ValidStream(ts) && 0 < q && q < |ts| && ts[q].kind == Comma
    requires Spells(ts, q + 1, rest[0]) && q + 1 + Width(rest[0]) < |ts|
    ensures ArrayTail(ts, q, done) == ArrayTail(ts, q + 1 + Width(rest[0]), done + [rest[0]])
    decreases rest, 0
  {
    ElementRoundTrip(rest[0], ts, q + 1);
    ArrayTailStep(ts, q, done, rest[0], q + 1 + Width(rest[0]));
  }

  /** parse_object_elem on the tokens of a member. */
  lemma {:induction false} MemberRoundTrip(m: J.Member, ts: seq<Token>, p: nat)
    requires J.WellFormed(m.value) && ValidStream(ts)
    requires SpellsMember(ts, p, m) && p + MemberWidth(m) < |ts|
    ensures MemberSpec(ts, p) == Ok(Parsed((m, ts[p]), p + MemberWidth(m)))
    decreases m, 1
  {
    ElementRoundTrip(m.value, ts, p + 2);
    MemberStep(ts, p, m, p + MemberWidth(m));
  }

  /** parse_object_elem at a key and a colon, with the value read. */
  lemma MemberStep(ts: seq<Token>, p: nat, m: J.Member, next: nat)
    requires ValidStream(ts) && p + 2 < |ts|
    requires ts[p].kind == String && ts[p].literal == LStr(m.key) && ts[p + 1].kind == Colon
    requires ElementSpec(ts, p + 2) == Ok(Parsed(m.value, next))
    ensures MemberSpec(ts, p) == Ok(Parsed((m, ts[p]), next))
  {
  }

  /** parse_object, after the brace, on the tokens of an object. */
  lemma {:induction false} ObjectRoundTrip(ms: seq<J.Member>, ts: seq<Token>, p: nat)
    requires 0 < p && J.Sorted(ms) && ValuesWellFormed(ms) && ValidStream(ts)
    requires Spells(ts, p - 1, J.JObject(ms)) && p - 1 + Width(J.JObject(ms)) < |ts|
    ensures ObjectSpec(ts, p) == Ok(Parsed(J.JObject(ms), p - 1 + Width(J.JObject(ms))))
    decreases ms, 3
  {
    if ms == [] {
      ObjectEmpty(ts, p);
    } else {
      ValuesWellFormedTail(ms);
      ObjectNonEmpty(ms, ts, p);
    }
  }

  /** parse_object at the closing brace of an empty object. */
  lemma ObjectEmpty(ts: seq<Token>, p: nat)
    requires ValidStream(ts) && 0 < p < |ts| && ts[p].kind == RightBrace
    ensures ObjectSpec(ts, p) == Ok(Parsed(J.JObject([]), p + 1))
  {
  }

  lemma {:induction false} ObjectNonEmpty(ms: seq<J.Member>, ts: seq<Token>, p: nat)
    requires 0 < p && ms != [] && J.Sorted(ms) && J.WellFormed(ms[0].value) && ValuesWellFormed(ms[1..])
    requires ValidStream(ts)
    requires SpellsMember(ts, p, ms[0]) && SpellsMembers(ts, p + MemberWidth(ms[0]), ms[1..])
    requires p + MemberWidth(ms[0]) + MembersWidth(ms[1..]) + 1 < |ts|
    ensures ObjectSpec(ts, p) == Ok(Parsed(J.JObject(ms), p + MemberWidth(ms[0]) + MembersWidth(ms[1..]) + 1))
    decreases ms, 2
  {
    ObjectFirst(ms, ts, p);
    assert ms == [ms[0]] + ms[1..];
    MembersRoundTrip(ms, [ms[0]], ms[1..], ts, p + MemberWidth(ms[0]));
  }

  /** parse_object after its brace reads the first member into the empty
      object and enters its loop. */
  lemma {:induction false} ObjectFirst(ms: seq<J.Member>, ts: seq<Token>, p: nat)
    requires ms != [] && J.WellFormed(ms[0].value) && ValidStream(ts) && 0 < p
    requires SpellsMember(ts, p, ms[0]) && p + MemberWidth(ms[0]) < |ts|
    ensures ObjectSpec(ts, p) == ObjectTail(ts, p + MemberWidth(ms[0]), [ms[0]])
    decreases ms, 1
  {
    MemberRoundTrip(ms[0], ts, p);
    ObjectOpensWith(ts, p, ms[0], p + MemberWidth(ms[0]));
  }

  /** The parse_object loop on the remaining members, each after a comma,
      and the closing brace, with the members read so far. Since the keys
      ascend, each insert appends. */
  lemma {:induction false} MembersRoundTrip(ms: seq<J.Member>, done: seq<J.Member>, rest: seq<J.Member>, ts: seq<Token>, q: nat)
    requires ms == done + rest && J.Sorted(ms) && ValuesWellFormed(rest) && ValidStream(ts) && 0 < q
    requires SpellsMembers(ts, q, rest) && q + MembersWidth(rest) + 1 < |ts|
    ensures ObjectTail(ts, q, done) == Ok(Parsed(J.JObject(ms), q + MembersWidth(rest) + 1))
    decreases rest, 2
  {
    if rest == [] {
      assert ms == done;
      ObjectTailClose(ts, q, done);
    } else {
      ValuesWellFormedTail(rest);
      MembersCons(ms, done, rest, ts, q);
    }
  }

  /** A member left: the comma, the member, and the loop on the rest. */
  lemma {:induction false} MembersCons(ms: seq<J.Member>, done: seq<J.Member>, rest: seq<J.Member>, ts: seq<Token>, q: nat)
    requires ms == done + rest && rest != [] && J.Sorted(ms) && J.WellFormed(rest[0].value) && ValuesWellFormed(rest[1..])
    requires ValidStream(ts) && 0 < q < |ts| && ts[q].kind == Comma
    requires SpellsMember(ts, q + 1, rest[0]) && SpellsMembers(ts, q + 1 + MemberWidth(rest[0]), rest[1..])
    requires q + 1 + MemberWidth(rest[0]) + MembersWidth(rest[1..]) + 1 < |ts|
    ensures ObjectTail(ts, q, done) == Ok(Parsed(J.JObject(ms), q + 1 + MemberWidth(rest[0]) + MembersWidth(rest[1..]) + 1))
    decreases rest, 1
  {
    ObjectTailMember(done, rest, ts, q);
    ShiftOne(done, rest);
    MembersRoundTrip(ms, done + [rest[0]], rest[1..], ts, q + 1 + MemberWidth(rest[0]));
  }

  /** One turn of the parse_object loop: a comma, then the tokens of the
      next member, whose key is above every key read so far. */
  lemma {:induction false} ObjectTailMember(done: seq<J.Member>, rest: seq<J.Member>, ts: seq<Token>, q: nat)
    requires rest != [] && J.Sorted(done + rest) && J.WellFormed(rest[0].value)
    requires ValidStream(ts) && 0 < q && q < |ts| && ts[q].kind == Comma
    requires SpellsMember(ts, q + 1, rest[0]) && q + 1 + MemberWidth(rest[0]) < |ts|
    ensures ObjectTail(ts, q, done) == ObjectTail(ts, q + 1 + MemberWidth(rest[0]), done + [rest[0]])
    decreases rest, 0
  {
    MemberRoundTrip(rest[0], ts, q + 1);
    J.InsertNextOfSorted(done, rest);
    ObjectTailStep(ts, q, done, rest[0], q + 1 + MemberWidth(rest[0]), done + [rest[0]]);
  }

  // One step of each parse function, each with only the facts it needs.

  /** parse_array after its bracket, at an element. */
  lemma ArrayOpensWith(ts: seq<Token>, p: nat, e: J.Json, next: nat)
    requires ValidStream(ts) && 0 < p < |ts| && ts[p].kind != RightBracket
    requires ElementSpec(ts, p) == Ok(Parsed(e, next))
    ensures 0 < next < |ts|
    ensures ArraySpec(ts, p) == ArrayTail(ts, next, [e])
  {
  }

  /** parse_object after its brace, at a member. */
  lemma ObjectOpensWith(ts: seq<Token>, p: nat, m: J.Member, next: nat)
    requires ValidStream(ts) && 0 < p < |ts|
    requires MemberSpec(ts, p) == Ok(Parsed((m, ts[p]), next))
    ensures 0 < next < |ts|
    ensures ObjectSpec(ts, p) == ObjectTail(ts, next, [m])
  {
    assert ts[p].kind == String;
    assert J.Insert([], m.key, m.value) == Some([m]);
  }

  /** The parse_array loop at a comma followed by an element. */
  lemma ArrayTailStep(ts: seq<Token>, q: nat, elems: seq<J.Json>, e: J.Json, next: nat)
    requires ValidStream(ts) && 0 < q && q + 1 < |ts| && ts[q].kind == Comma
    requires ElementSpec(ts, q + 1) == Ok(Parsed(e, next))
    ensures 0 < next < |ts|
    ensures ArrayTail(ts, q, elems) == ArrayTail(ts, next, elems + [e])
  {
  }

  /** The parse_array loop at the closing bracket. */
  lemma ArrayTailClose(ts: seq<Token>, q: nat, elems: seq<J.Json>)
    requires ValidStream(ts) && 0 < q < |ts| && ts[q].kind == RightBracket
    ensures ArrayTail(ts, q, elems) == Ok(Parsed(J.JArray(elems), q + 1))
  {
  }

  /** The parse_object loop at a comma followed by a member whose key is
      new. */
  lemma ObjectTailStep(ts: seq<Token>, q: nat, done: seq<J.Member>, m: J.Member, next: nat, done': seq<J.Member>)
    requires ValidStream(ts) && 0 < q && q + 1 < |ts| && ts[q].kind == Comma
    requires MemberSpec(ts, q + 1) == Ok(Parsed((m, ts[q + 1]), next))
    requires J.Insert(done, m.key, m.value) == Some(done')
    ensures 0 < next < |ts|
    ensures ObjectTail(ts, q, done) == ObjectTail(ts, next, done')
  {
  }

  /** The parse_object loop at the closing brace. */
  lemma ObjectTailClose(ts: seq<Token>, q: nat, ms: seq<J.Member>)
    requires ValidStream(ts) && 0 < q < |ts| && ts[q].kind == RightBrace
    ensures ObjectTail(ts, q, ms) == Ok(Parsed(J.JObject(ms), q + 1))
  {
  }

  /** Parser::parse on a stream that spells a well-formed value and then
      ends gives that value back. */
  lemma ParseSpelled(j: J.Json, ts: seq<Token>)
    requires J.WellFormed(j) && ValidStream(ts)
    requires Spells(ts, 0, j) && Width(j) < |ts| && ts[Width(j)].kind == Eof
    ensures ParseSpec(ts) == Ok(j)
  {
    ElementRoundTrip(j, ts, 0);
  }

  // ---------------------------------------------------------------------
  // The token sequence of a value

  /** A token at no particular position. */
  function Tok(kind: TokenKind, literal: Literal): Token {
    Token(0, 0, kind, literal)
  }

  /** The tokens j is written as, positions aside: one token per scalar,
      brackets and braces around the parts, commas and colons between them.
      TextRoundTrip.TextTokens shows that the scan of the text of j gives
      exactly these when no string or key of j holds a quote and each
      number prints as itself. */
  function Emit(j: J.Json): seq<Token>
    decreases j
  {
    match j
    case JNull => [Tok(Null, LNone)]
    case JBool(b) => [Tok(if b then True else False, LNone)]
    case JNumber(n) => [Tok(Number, LNum(n))]
    case JString(s) => [Tok(String, LStr(s))]
    case JArray(es) =>
      if es == [] then [Tok(LeftBracket, LNone), Tok(RightBracket, LNone)]
      else [Tok(LeftBracket, LNone)] + Emit(es[0]) + EmitElements(es[1..]) + [Tok(RightBracket, LNone)]
    case JObject(ms) =>
      if ms == [] then [Tok(LeftBrace, LNone), Tok(RightBrace, LNone)]
      else [Tok(LeftBrace, LNone)] + EmitMember(ms[0]) + EmitMembers(ms[1..]) + [Tok(RightBrace, LNone)]
  }

  function EmitElements(es: seq<J.Json>): seq<Token>
    decreases es
  {
    if es == [] then [] else [Tok(Comma, LNone)] + Emit(es[0]) + EmitElements(es[1..])
  }

  function EmitMember(m: J.Member): seq<Token>
    decreases m
  {
    [Tok(String, LStr(m.key)), Tok(Colon, LNone)] + Emit(m.value)
  }

  function EmitMembers(ms: seq<J.Member>): seq<Token>
    decreases ms
  {
    if ms == [] then [] else [Tok(Comma, LNone)] + EmitMember(ms[0]) + EmitMembers(ms[1..])
  }

  /** x occurs in ts from position a on. */
  predicate At(ts: seq<Token>, a: nat, x: seq<Token>) {
    a + |x| <= |ts| && forall i :: 0 <= i < |x| ==> ts[a + i] == x[i]
  }

  lemma AtSplit(ts: seq<Token>, a: nat, x: seq<Token>, y: seq<Token>)
    requires At(ts, a, x + y)
    ensures At(ts, a, x) && At(ts, a + |x|, y)
  {
    forall i | 0 <= i < |x| ensures ts[a + i] == x[i] {
      assert (x + y)[i] == x[i];
    }
    forall i | 0 <= i < |y| ensures ts[a + |x| + i] == y[i] {
      assert (x + y)[|x| + i] == y[i];
    }
  }

  lemma AtIndex(ts: seq<Token>, a: nat, x: seq<Token>, i: nat)
    requires At(ts, a, x) && i < |x|
    ensures ts[a + i] == x[i]
  {
  }

  /** x + y + z occurs at a: x, then y, then z. */
  lemma AtSplit3(ts: seq<Token>, a: nat, x: seq<Token>, y: seq<Token>, z: seq<Token>)
    requires At(ts, a, x + y + z)
    ensures At(ts, a, x) && At(ts, a + |x|, y) && At(ts, a + |x| + |y|, z)
  {
    AtSplit(ts, a, x + y, z);
    AtSplit(ts, a, x, y);
  }

  /** The number of tokens of a value is its width. */
  lemma {:induction false} EmitWidth(j: J.Json)
    ensures |Emit(j)| == Width(j)
    decreases j
  {
    match j
    case JArray(es) =>
      if es != [] {
        EmitWidth(es[0]);
        ElementsEmitWidth(es[1..]);
      }
    case JObject(ms) =>
      if ms != [] {
        MemberEmitWidth(ms[0]);
        MembersEmitWidth(ms[1..]);
      }
    case _ =>
  }

  lemma {:induction false} ElementsEmitWidth(es: seq<J.Json>)
    ensures |EmitElements(es)| == ElementsWidth(es)
    decreases es
  {
    if es != [] {
      EmitWidth(es[0]);
      ElementsEmitWidth(es[1..]);
    }
  }

  lemma {:induction false} MemberEmitWidth(m: J.Member)
    ensures |EmitMember(m)| == MemberWidth(m)
    decreases m
  {
    EmitWidth(m.value);
  }

  lemma {:induction false} MembersEmitWidth(ms: seq<J.Member>)
    ensures |EmitMembers(ms)| == MembersWidth(ms)
    decreases ms
  {
    if ms != [] {
      MemberEmitWidth(ms[0]);
      MembersEmitWidth(ms[1..]);
    }
  }

  /** Wherever the tokens of j occur, they spell j. */
  lemma {:induction false} EmitSpells(j: J.Json, ts: seq<Token>, p: nat)
    requires At(ts, p, Emit(j))
    ensures Spells(ts, p, j)
    decreases j, 1
  {
    if j.JArray? && j.elems != [] {
      ArrayEmitSpells(j, ts, p);
    } else if j.JObject? && j.members != [] {
      ObjectEmitSpells(j, ts, p);
    } else {
      AtIndex(ts, p, Emit(j), 0);
      if j.JArray? || j.JObject? {
        AtIndex(ts, p, Emit(j), 1);
      }
    }
  }

  lemma {:induction false} ArrayEmitSpells(j: J.Json, ts: seq<Token>, p: nat)
    requires j.JArray? && j.elems != [] && At(ts, p, Emit(j))
    ensures Spells(ts, p, j)
    decreases j, 0
  {
    var es := j.elems;
    AtSplit(ts, p, [Tok(LeftBracket, LNone)] + Emit(es[0]) + EmitElements(es[1..]), [Tok(RightBracket, LNone)]);
    AtSplit3(ts, p, [Tok(LeftBracket, LNone)], Emit(es[0]), EmitElements(es[1..]));
    EmitWidth(es[0]);
    ElementsEmitWidth(es[1..]);
    AtIndex(ts, p, [Tok(LeftBracket, LNone)], 0);
    EmitSpells(es[0], ts, p + 1);
    ElementsEmitSpells(es[1..], ts, p + 1 + Width(es[0]));
  }

  /** The tokens of the later elements, then a closing bracket. */
  lemma {:induction false} ElementsEmitSpells(es: seq<J.Json>, ts: seq<Token>, q: nat)
    requires At(ts, q, EmitElements(es) + [Tok(RightBracket, LNone)])
    ensures SpellsElements(ts, q, es)
    decreases es
  {
    if es == [] {
      AtIndex(ts, q, EmitElements(es) + [Tok(RightBracket, LNone)], 0);
    } else {
      assert EmitElements(es) + [Tok(RightBracket, LNone)]
          == [Tok(Comma, LNone)] + Emit(es[0]) + (EmitElements(es[1..]) + [Tok(RightBracket, LNone)]);
      AtSplit3(ts, q, [Tok(Comma, LNone)], Emit(es[0]), EmitElements(es[1..]) + [Tok(RightBracket, LNone)]);
      EmitWidth(es[0]);
      AtIndex(ts, q, [Tok(Comma, LNone)], 0);
      EmitSpells(es[0], ts, q + 1);
      ElementsEmitSpells(es[1..], ts, q + 1 + Width(es[0]));
    }
  }

  lemma {:induction false} ObjectEmitSpells(j: J.Json, ts: seq<Token>, p: nat)
    requires j.JObject? && j.members != [] && At(ts, p, Emit(j))
    ensures Spells(ts, p, j)
    decreases j, 0
  {
    var ms := j.members;
    AtSplit(ts, p, [Tok(LeftBrace, LNone)] + EmitMember(ms[0]) + EmitMembers(ms[1..]), [Tok(RightBrace, LNone)]);
    AtSplit3(ts, p, [Tok(LeftBrace, LNone)], EmitMember(ms[0]), EmitMembers(ms[1..]));
    MemberEmitWidth(ms[0]);
    MembersEmitWidth(ms[1..]);
    AtIndex(ts, p, [Tok(LeftBrace, LNone)], 0);
    MemberEmitSpells(ms[0], ts, p + 1);
    MembersEmitSpells(ms[1..], ts, p + 1 + MemberWidth(ms[0]));
  }

  lemma {:induction false} MemberEmitSpells(m: J.Member, ts: seq<Token>, p: nat)
    requires At(ts, p, EmitMember(m))
    ensures SpellsMember(ts, p, m)
    decreases m
  {
    AtSplit(ts, p, [Tok(String, LStr(m.key)), Tok(Colon, LNone)], Emit(m.value));
    AtIndex(ts, p, [Tok(String, LStr(m.key)), Tok(Colon, LNone)], 0);
    AtIndex(ts, p, [Tok(String, LStr(m.key)), Tok(Colon, LNone)], 1);
    EmitSpells(m.value, ts, p + 2);
  }

  /** The tokens of the later members, then a closing brace. */
  lemma {:induction false} MembersEmitSpells(ms: seq<J.Member>, ts: seq<Token>, q: nat)
    requires At(ts, q, EmitMembers(ms) + [Tok(RightBrace, LNone)])
    ensures SpellsMembers(ts, q, ms)
    decreases ms
  {
    if ms == [] {
      AtIndex(ts, q, EmitMembers(ms) + [Tok(RightBrace, LNone)], 0);
    } else {
      assert EmitMembers(ms) + [Tok(RightBrace, LNone)]
          == [Tok(Comma, LNone)] + EmitMember(ms[0]) + (EmitMembers(ms[1..]) + [Tok(RightBrace, LNone)]);
      AtSplit3(ts, q, [Tok(Comma, LNone)], EmitMember(ms[0]), EmitMembers(ms[1..]) + [Tok(RightBrace, LNone)]);
      MemberEmitWidth(ms[0]);
      AtIndex(ts, q, [Tok(Comma, LNone)], 0);
      MemberEmitSpells(ms[0], ts, q + 1);
      MembersEmitSpells(ms[1..], ts, q + 1 + MemberWidth(ms[0]));
    }
  }

  /** Every token carries the literal its kind calls for. */
  predicate Literals(x: seq<Token>) {
    forall i :: 0 <= i < |x| ==> LiteralMatchesKind(x[i])
  }

  lemma LiteralsConcat(x: seq<Token>, y: seq<Token>)
    requires Literals(x) && Literals(y)
    ensures Literals(x + y)
  {
    forall i | 0 <= i < |x + y| ensures LiteralMatchesKind((x + y)[i]) {
      if i < |x| {
        assert (x + y)[i] == x[i];
      } else {
        assert (x + y)[i] == y[i - |x|];
      }
    }
  }

  lemma {:induction false} EmitLiterals(j: J.Json)
    ensures Literals(Emit(j))
    decreases j
  {
    match j
    case JArray(es) =>
      if es != [] {
        EmitLiterals(es[0]);
        ElementsLiterals(es[1..]);
        LiteralsConcat([Tok(LeftBracket, LNone)], Emit(es[0]));
        LiteralsConcat([Tok(LeftBracket, LNone)] + Emit(es[0]), EmitElements(es[1..]));
        LiteralsConcat([Tok(LeftBracket, LNone)] + Emit(es[0]) + EmitElements(es[1..]), [Tok(RightBracket, LNone)]);
      }
    case JObject(ms) =>
      if ms != [] {
        MemberLiterals(ms[0]);
        MembersLiterals(ms[1..]);
        LiteralsConcat([Tok(LeftBrace, LNone)], EmitMember(ms[0]));
        LiteralsConcat([Tok(LeftBrace, LNone)] + EmitMember(ms[0]), EmitMembers(ms[1..]));
        LiteralsConcat([Tok(LeftBrace, LNone)] + EmitMember(ms[0]) + EmitMembers(ms[1..]), [Tok(RightBrace, LNone)]);
      }
    case _ =>
  }

  lemma {:induction false} ElementsLiterals(es: seq<J.Json>)
    ensures Literals(EmitElements(es))
    decreases es
  {
    if es != [] {
      EmitLiterals(es[0]);
      ElementsLiterals(es[1..]);
      LiteralsConcat([Tok(Comma, LNone)], Emit(es[0]));
      LiteralsConcat([Tok(Comma, LNone)] + Emit(es[0]), EmitElements(es[1..]));
    }
  }

  lemma {:induction false} MemberLiterals(m: J.Member)
    ensures Literals(EmitMember(m))
    decreases m
  {
    EmitLiterals(m.value);
    LiteralsConcat([Tok(String, LStr(m.key)), Tok(Colon, LNone)], Emit(m.value));
  }

  lemma {:induction false} MembersLiterals(ms: seq<J.Member>)
    ensures Literals(EmitMembers(ms))
    decreases ms
  {
    if ms != [] {
      MemberLiterals(ms[0]);
      MembersLiterals(ms[1..]);
      LiteralsConcat([Tok(Comma, LNone)], EmitMember(ms[0]));
      LiteralsConcat([Tok(Comma, LNone)] + EmitMember(ms[0]), EmitMembers(ms[1..]));
    }
  }

  /** The tokens of a well-formed value, followed by Eof, parse back to
      that value: Parser::parse inverts the writing of a value as tokens. */
  lemma ParseRoundTrip(j: J.Json)
    requires J.WellFormed(j)
    ensures ValidStream(Emit(j) + [Tok(Eof, LNone)]) && ParseSpec(Emit(j) + [Tok(Eof, LNone)]) == Ok(j)
  {
    var ts := Emit(j) + [Tok(Eof, LNone)];
    EmitLiterals(j);
    LiteralsConcat(Emit(j), [Tok(Eof, LNone)]);
    EmitWidth(j);
    AtSplit(ts, 0, Emit(j), [Tok(Eof, LNone)]);
    AtIndex(ts, Width(j), [Tok(Eof, LNone)], 0);
    EmitSpells(j, ts, 0);
    ParseSpelled(j, ts);
  }
}
