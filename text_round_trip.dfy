/** The text Json::to_string writes (src/JsonValue.cpp:134-174) goes back
    through parse_string (src/core.cpp:7-9) to the value it was written
    from, provided no string and no key contains a quote and every number is
    printed as its own lexeme. The proof goes through the scanner: the text
    scans to the value's tokens. RoundTrip then shows that those tokens
    parse back to the value. */
module TextRoundTrip {
  import opened Wrappers
  import opened Tokens
  import opened Scanning
  import opened ScanningProperties
  import opened Parsing
  import opened RoundTrip
  import J = JsonValue
  import Core

  // ---------------------------------------------------------------------
  // Which values survive the trip

  predicate NoQuote(t: string) {
    forall k :: 0 <= k < |t| ==> t[k] != '"'
  }

  /** A lexeme that scan_number reads back in one token: number characters
      only, and accepted by stod. */
  predicate NumberText(t: string) {
    |t| > 0 && (forall k :: 0 <= k < |t| ==> IsNumberChar(t[k])) && StodAccepts(t)
  }

  /** Every string and key of j is free of quotes, since to_string writes
      them raw between quotes. Every number is a lexeme that the printer
      writes back unchanged. */
  predicate Plain(j: J.Json, show: J.Num -> string)
    decreases j
  {
    match j
    case JNumber(n) => show(n) == n && NumberText(n)
    case JString(t) => NoQuote(t)
    case JArray(es) => forall i :: 0 <= i < |es| ==> Plain(es[i], show)
    case JObject(ms) => forall i :: 0 <= i < |ms| ==> NoQuote(ms[i].key) && Plain(ms[i].value, show)
    case _ => true
  }

  predicate AllPlain(es: seq<J.Json>, show: J.Num -> string) {
    forall i :: 0 <= i < |es| ==> Plain(es[i], show)
  }

  predicate MembersPlain(ms: seq<J.Member>, show: J.Num -> string) {
    forall i :: 0 <= i < |ms| ==> NoQuote(ms[i].key) && Plain(ms[i].value, show)
  }

  lemma AllPlainTail(es: seq<J.Json>, show: J.Num -> string)
    requires AllPlain(es, show) && es != []
    ensures Plain(es[0], show) && AllPlain(es[1..], show)
  {
    forall i | 0 <= i < |es[1..]| ensures Plain(es[1..][i], show) {
      assert es[1..][i] == es[i + 1];
    }
  }

  lemma MembersPlainTail(ms: seq<J.Member>, show: J.Num -> string)
    requires MembersPlain(ms, show) && ms != []
    ensures NoQuote(ms[0].key) && Plain(ms[0].value, show) && MembersPlain(ms[1..], show)
  {
    forall i | 0 <= i < |ms[1..]| ensures NoQuote(ms[1..][i].key) && Plain(ms[1..][i].value, show) {
      assert ms[1..][i] == ms[i + 1];
    }
  }

  // ---------------------------------------------------------------------
  // The text of a container, read from the front

  /** The parts after the first, each after its ", ". */
  function JoinRest(ps: seq<string>): string
    decreases |ps|
  {
    if ps == [] then "" else ", " + ps[0] + JoinRest(ps[1..])
  }

  lemma {:induction false} JoinRestSnoc(ps: seq<string>, x: string)
    ensures JoinRest(ps + [x]) == JoinRest(ps) + ", " + x
    decreases |ps|
  {
    if ps == [] {
      assert [x][1..] == [];
    } else {
      assert (ps + [x])[1..] == ps[1..] + [x];
      JoinRestSnoc(ps[1..], x);
    }
  }

  /** The fold of transform_reduce, read from its first part on. */
  lemma {:induction false} JoinFront(ps: seq<string>)
    requires |ps| > 0
    ensures J.Join(ps) == ps[0] + JoinRest(ps[1..])
    decreases |ps|
  {
    if |ps| > 1 {
      var init := ps[..|ps| - 1];
      JoinFront(init);
      assert ps[1..] == init[1..] + [ps[|ps| - 1]];
      JoinRestSnoc(init[1..], ps[|ps| - 1]);
    }
  }

  /** The text of the elements after the first, each after its ", ". */
  function ElementsText(es: seq<J.Json>, show: J.Num -> string): string
    decreases es
  {
    if es == [] then "" else ", " + J.SerializeTotal(es[0], show) + ElementsText(es[1..], show)
  }

  /** object_elem_ts: the key between quotes, ": ", the value. */
  function MemberText(m: J.Member, show: J.Num -> string): string {
    "\"" + m.key + "\"" + ": " + J.SerializeTotal(m.value, show)
  }

  /** The text of the members after the first, each after its ", ". */
  function MembersText(ms: seq<J.Member>, show: J.Num -> string): string
    decreases ms
  {
    if ms == [] then "" else ", " + MemberText(ms[0], show) + MembersText(ms[1..], show)
  }

  lemma {:induction false} ElementsRest(es: seq<J.Json>, show: J.Num -> string, parts: seq<string>, k: nat)
    requires |parts| == |es| && k <= |es|
    requires forall i :: 0 <= i < |es| ==> parts[i] == J.SerializeTotal(es[i], show)
    ensures JoinRest(parts[k..]) == ElementsText(es[k..], show)
    decreases |es| - k
  {
    if k < |es| {
      ElementsRest(es, show, parts, k + 1);
      assert parts[k..][1..] == parts[k + 1..];
      assert es[k..][1..] == es[k + 1..];
    }
  }

  lemma {:induction false} MembersRest(ms: seq<J.Member>, show: J.Num -> string, parts: seq<string>, k: nat)
    requires |parts| == |ms| && k <= |ms|
    requires forall i :: 0 <= i < |ms| ==> parts[i] == MemberText(ms[i], show)
    ensures JoinRest(parts[k..]) == MembersText(ms[k..], show)
    decreases |ms| - k
  {
    if k < |ms| {
      MembersRest(ms, show, parts, k + 1);
      assert parts[k..][1..] == parts[k + 1..];
      assert ms[k..][1..] == ms[k + 1..];
    }
  }

  /** A non-empty array is written `[ `, its first element, each further
      element after ", ", then ` ]`. */
  lemma ArrayText(es: seq<J.Json>, show: J.Num -> string)
    requires es != []
    ensures J.SerializeTotal(J.JArray(es), show)
         == "[ " + J.SerializeTotal(es[0], show) + ElementsText(es[1..], show) + " ]"
  {
    var parts := seq(|es|, i requires 0 <= i < |es| => J.SerializeTotal(es[i], show));
    assert J.SerializeTotal(J.JArray(es), show) == "[ " + J.Join(parts) + " ]";
    JoinFront(parts);
    ElementsRest(es, show, parts, 1);
  }

  /** A non-empty object is written `{ `, its first member, each further
      member after ", ", then ` }`. */
  lemma ObjectText(ms: seq<J.Member>, show: J.Num -> string)
    requires ms != []
    ensures J.SerializeTotal(J.JObject(ms), show)
         == "{ " + MemberText(ms[0], show) + MembersText(ms[1..], show) + " }"
  {
    var parts := seq(|ms|, i requires 0 <= i < |ms| =>
      J.Enclose(ms[i].key, "\"", "\"") + ": " + J.SerializeTotal(ms[i].value, show));
    assert J.SerializeTotal(J.JObject(ms), show) == "{ " + J.Join(parts) + " }";
    assert forall i :: 0 <= i < |ms| ==> parts[i] == MemberText(ms[i], show);
    JoinFront(parts);
    MembersRest(ms, show, parts, 1);
  }

  // ---------------------------------------------------------------------
  // A stretch of the scan, positions aside

  /** The tokens, positions aside. */
  function Strip(ts: seq<Token>): seq<Token> {
    seq(|ts|, k requires 0 <= k < |ts| => Tok(ts[k].kind, ts[k].literal))
  }

  lemma StripConcat(a: seq<Token>, b: seq<Token>)
    ensures Strip(a + b) == Strip(a) + Strip(b)
  {
    var l, r := Strip(a + b), Strip(a) + Strip(b);
    forall k | 0 <= k < |l| ensures l[k] == r[k] {
      if k < |a| {
        assert (a + b)[k] == a[k];
      } else {
        assert (a + b)[k] == b[k - |a|];
      }
    }
  }

  /** The scan_token calls from i end exactly at j: Some of the tokens read
      so far followed by those they emit, positions aside, or None when a
      call fails or reads past j. */
  function Chain(s: string, i: nat, j: nat, acc: seq<Token>): Option<seq<Token>>
    requires i <= j <= |s|
    decreases j - i
  {
    if i == j then Some(acc)
    else match ScanStep(s, i)
      case Err(_) => None
      case Ok(st) => if st.next > j then None else Chain(s, st.next, j, acc + Strip(st.emitted))
  }

  /** The scan_token calls from i end exactly at j and emit toks, positions
      aside, after whatever was read before. */
  ghost predicate Spans(s: string, i: nat, j: nat, toks: seq<Token>) {
    i <= j <= |s| && forall acc: seq<Token> :: Chain(s, i, j, acc) == Some(acc + toks)
  }

  lemma SpanEmpty(s: string, i: nat)
    requires i <= |s|
    ensures Spans(s, i, i, [])
  {
    forall acc: seq<Token> ensures Chain(s, i, i, acc) == Some(acc + []) {
      assert acc + [] == acc;
    }
  }

  /** One scan_token call, then the rest of the stretch. */
  lemma SpanStep(s: string, i: nat, j: nat, emitted: seq<Token>, k: nat, rest: seq<Token>)
    requires i < k <= j <= |s| && ScanStep(s, i) == Ok(Step(emitted, k)) && Spans(s, k, j, rest)
    ensures Spans(s, i, j, Strip(emitted) + rest)
  {
    forall acc: seq<Token> ensures Chain(s, i, j, acc) == Some(acc + (Strip(emitted) + rest)) {
      assert Chain(s, i, j, acc) == Chain(s, k, j, acc + Strip(emitted));
      assert acc + Strip(emitted) + rest == acc + (Strip(emitted) + rest);
    }
  }

  /** A stretch that ends at j goes on from j as the stretch from j does. */
  lemma {:induction false} ChainPrefix(s: string, i: nat, j: nat, k: nat, acc: seq<Token>, x: seq<Token>)
    requires i <= j <= k <= |s| && Chain(s, i, j, acc) == Some(x)
    ensures Chain(s, i, k, acc) == Chain(s, j, k, x)
    decreases j - i
  {
    if i < j {
      var st := ScanStep(s, i).value;
      ChainPrefix(s, st.next, j, k, acc + Strip(st.emitted), x);
    }
  }

  /** Two stretches of the scan, one after the other, are one stretch. */
  lemma SpanConcat(s: string, i: nat, j: nat, k: nat, a: seq<Token>, b: seq<Token>)
    requires Spans(s, i, j, a) && Spans(s, j, k, b)
    ensures Spans(s, i, k, a + b)
  {
    forall acc: seq<Token> ensures Chain(s, i, k, acc) == Some(acc + (a + b)) {
      SpanConcatAt(s, i, j, k, a, b, acc);
      AppendAssoc(acc, a, b);
    }
  }

  lemma AppendAssoc(x: seq<Token>, y: seq<Token>, z: seq<Token>)
    ensures x + y + z == x + (y + z)
  {
  }

  lemma SpanConcatAt(s: string, i: nat, j: nat, k: nat, a: seq<Token>, b: seq<Token>, acc: seq<Token>)
    requires i <= j <= k <= |s|
    requires Chain(s, i, j, acc) == Some(acc + a) && Chain(s, j, k, acc + a) == Some(acc + a + b)
    ensures Chain(s, i, k, acc) == Some(acc + a + b)
  {
    ChainPrefix(s, i, j, k, acc, acc + a);
  }

  /** A stretch that reaches the end of the text is the scan from i: Eof
      follows its tokens. */
  lemma {:induction false} ChainTokenize(s: string, i: nat, emitted: seq<Token>, last: Position)
    requires i <= |s| && Chain(s, i, |s|, Strip(emitted)).Some?
    ensures TokenizeFrom(s, i, emitted, last).Ok?
    ensures Strip(TokenizeFrom(s, i, emitted, last).value) == Chain(s, i, |s|, Strip(emitted)).value + [Tok(Eof, LNone)]
    decreases |s| - i
  {
    var eof := Token(last.line, last.column, Eof, LNone);
    if i == |s| {
      StripConcat(emitted, [eof]);
      assert Strip([eof]) == [Tok(Eof, LNone)];
    } else {
      var st := ScanStep(s, i).value;
      StripConcat(emitted, st.emitted);
      ChainTokenize(s, st.next, emitted + st.emitted, PosAt(s, i));
    }
  }

  lemma SpanTokenize(s: string, toks: seq<Token>)
    requires Spans(s, 0, |s|, toks)
    ensures Tokenize(s).Ok? && Strip(Tokenize(s).value) == toks + [Tok(Eof, LNone)]
  {
    assert Strip([]) == [];
    assert Chain(s, 0, |s|, []) == Some([] + toks);
    assert [] + toks == toks;
    ChainTokenize(s, 0, [], Position(0, 0));
  }

  // ---------------------------------------------------------------------
  // The pieces of the text

  /** The text t stands in s from i on. */
  predicate TextAt(s: string, i: nat, t: string) {
    i + |t| <= |s| && forall k :: 0 <= k < |t| ==> s[i + k] == t[k]
  }

  lemma TextSplit(s: string, i: nat, a: string, b: string)
    requires TextAt(s, i, a + b)
    ensures TextAt(s, i, a) && TextAt(s, i + |a|, b)
  {
    forall k | 0 <= k < |a| ensures s[i + k] == a[k] {
      assert (a + b)[k] == a[k];
    }
    forall k | 0 <= k < |b| ensures s[i + |a| + k] == b[k] {
      assert (a + b)[|a| + k] == b[k];
    }
  }

  lemma TextChar(s: string, i: nat, t: string, k: nat)
    requires TextAt(s, i, t) && k < |t|
    ensures s[i + k] == t[k]
  {
  }

  lemma TextSlice(s: string, i: nat, t: string)
    requires TextAt(s, i, t)
    ensures s[i..i + |t|] == t
  {
  }

  /** What may follow a value in the text: the end, a comma or a blank. */
  predicate Delim(s: string, k: nat) {
    k >= |s| || s[k] == ',' || s[k] == ' '
  }

  /** One scan_token call that ends at j emits its tokens across i..j. */
  lemma OneSpan(s: string, i: nat, j: nat, t: seq<Token>)
    requires i < j <= |s| && ScanStep(s, i) == Ok(Step(t, j))
    ensures Spans(s, i, j, Strip(t))
  {
    SpanEmpty(s, j);
    SpanStep(s, i, j, t, j, []);
    assert Strip(t) + [] == Strip(t);
  }

  lemma CharSpan(s: string, i: nat, e: nat, kind: TokenKind)
    requires i < |s| && e == i + 1 && IsStructural(s[i]) && StructuralKind(s[i]) == kind
    ensures Spans(s, i, e, [Tok(kind, LNone)])
  {
    StructuralToken(s, i);
    var t := Token(PosAt(s, i).line, PosAt(s, i).column, kind, LNone);
    OneSpan(s, i, e, [t]);
    assert Strip([t]) == [Tok(kind, LNone)];
  }

  lemma BlankSpan(s: string, i: nat, e: nat)
    requires i < |s| && e == i + 1 && IsWhitespace(s[i])
    ensures Spans(s, i, e, [])
  {
    BlankSkipped(s, i);
    OneSpan(s, i, e, []);
    assert Strip([]) == [];
  }

  lemma KeywordSpan(s: string, i: nat, w: string, e: nat)
    requires w == "null" || w == "true" || w == "false"
    requires e == i + |w| && TextAt(s, i, w) && Delim(s, e)
    ensures Spans(s, i, e, [Tok(KeywordKind(w), LNone)])
  {
    TextSlice(s, i, w);
    KeywordStep(s, i, e);
    var t := Token(PosAt(s, i).line, PosAt(s, i).column, KeywordKind(w), LNone);
    OneSpan(s, i, e, [t]);
    assert Strip([t]) == [Tok(KeywordKind(w), LNone)];
  }

  lemma NumberSpan(s: string, i: nat, n: string, e: nat)
    requires NumberText(n) && e == i + |n| && TextAt(s, i, n) && Delim(s, e)
    ensures Spans(s, i, e, [Tok(Number, LNum(n))])
  {
    TextSlice(s, i, n);
    assert forall k :: i <= k < e ==> s[k] == n[k - i];
    NumberAt(s, i, e);
    var t := Token(PosAt(s, i).line, PosAt(s, i).column, Number, LNum(n));
    OneSpan(s, i, e, [t]);
    assert Strip([t]) == [Tok(Number, LNum(n))];
  }

  lemma StringSpan(s: string, i: nat, str: string, e: nat)
    requires NoQuote(str) && e == i + |str| + 2 && TextAt(s, i, "\"" + str + "\"")
    ensures Spans(s, i, e, [Tok(String, LStr(str))])
  {
    TextSplit(s, i, "\"" + str, "\"");
    TextSplit(s, i, "\"", str);
    TextSlice(s, i + 1, str);
    TextChar(s, i, "\"", 0);
    TextChar(s, i + 1 + |str|, "\"", 0);
    assert forall k :: i < k < i + |str| + 1 ==> s[k] == str[k - i - 1];
    StringAt(s, i, i + |str| + 1);
    var t := Token(PosAt(s, i).line, PosAt(s, i).column, String, LStr(str));
    OneSpan(s, i, e, [t]);
    assert Strip([t]) == [Tok(String, LStr(str))];
  }

  /** `[ `, the tokens x across c..a and y across a..b, then ` ]` up to e
      (or the same with braces): the brackets around x and y. */
  lemma Bracketed(s: string, i: nat, c: nat, a: nat, b: nat, e: nat, x: seq<Token>, y: seq<Token>,
                  open: TokenKind, close: TokenKind)
    requires c == i + 2 <= a <= b && e == b + 2 <= |s|
    requires (s[i], s[b + 1], open, close) == ('[', ']', LeftBracket, RightBracket)
          || (s[i], s[b + 1], open, close) == ('{', '}', LeftBrace, RightBrace)
    requires s[i + 1] == ' ' && s[b] == ' '
    requires Spans(s, c, a, x) && Spans(s, a, b, y)
    ensures Spans(s, i, e, [Tok(open, LNone)] + x + y + [Tok(close, LNone)])
  {
    var o, z := [Tok(open, LNone)], [Tok(close, LNone)];
    CharSpan(s, i, i + 1, open);
    BlankSpan(s, i + 1, c);
    BlankSpan(s, b, b + 1);
    CharSpan(s, b + 1, e, close);
    SpanConcat(s, i, i + 1, c, o, []);
    SpanConcat(s, b, b + 1, e, [], z);
    SpanConcat(s, c, a, b, x, y);
    assert o + [] == o && [] + z == z;
    SpanConcat(s, i, c, b, o, x + y);
    SpanConcat(s, i, b, e, o + (x + y), z);
    AppendAssoc(o, x, y);
  }

  /** `, ` then the tokens x across c..a, then the tokens y across a..e. */
  lemma CommaThen(s: string, q: nat, c: nat, a: nat, e: nat, x: seq<Token>, y: seq<Token>)
    requires c == q + 2 <= a <= e <= |s| && s[q] == ',' && s[q + 1] == ' '
    requires Spans(s, c, a, x) && Spans(s, a, e, y)
    ensures Spans(s, q, e, [Tok(Comma, LNone)] + x + y)
  {
    CharSpan(s, q, q + 1, Comma);
    BlankSpan(s, q + 1, c);
    SpanConcat(s, q, q + 1, c, [Tok(Comma, LNone)], []);
    assert [Tok(Comma, LNone)] + [] == [Tok(Comma, LNone)];
    SpanConcat(s, q, c, a, [Tok(Comma, LNone)], x);
    SpanConcat(s, q, a, e, [Tok(Comma, LNone)] + x, y);
  }

  // ---------------------------------------------------------------------
  // The text of a value scans to its tokens

  /** Wherever the text of j stands, up to e and followed there by the end,
      a comma or a blank, the scan reads exactly the tokens of j across it. */
  lemma {:induction false} ValueSpan(j: J.Json, show: J.Num -> string, s: string, i: nat, e: nat)
    requires Plain(j, show)
    requires e == i + |J.SerializeTotal(j, show)| && TextAt(s, i, J.SerializeTotal(j, show)) && Delim(s, e)
    ensures Spans(s, i, e, Emit(j))
    decreases j, 1
  {
    match j
    case JNull => KeywordSpan(s, i, "null", e);
    case JBool(b) => KeywordSpan(s, i, if b then "true" else "false", e);
    case JNumber(n) => NumberSpan(s, i, n, e);
    case JString(str) => StringSpan(s, i, str, e);
    case JArray(es) =>
      if es == [] {
        EmptySpan(s, i, "[]", LeftBracket, RightBracket);
      } else {
        ArraySpan(j, show, s, i, e);
      }
    case JObject(ms) =>
      if ms == [] {
        EmptySpan(s, i, "{}", LeftBrace, RightBrace);
      } else {
        ObjectSpan(j, show, s, i, e);
      }
  }

  lemma EmptySpan(s: string, i: nat, t: string, open: TokenKind, close: TokenKind)
    requires (t, open, close) == ("[]", LeftBracket, RightBracket) || (t, open, close) == ("{}", LeftBrace, RightBrace)
    requires TextAt(s, i, t)
    ensures Spans(s, i, i + 2, [Tok(open, LNone), Tok(close, LNone)])
  {
    TextChar(s, i, t, 0);
    TextChar(s, i, t, 1);
    CharSpan(s, i, i + 1, open);
    CharSpan(s, i + 1, i + 2, close);
    SpanConcat(s, i, i + 1, i + 2, [Tok(open, LNone)], [Tok(close, LNone)]);
    assert [Tok(open, LNone)] + [Tok(close, LNone)] == [Tok(open, LNone), Tok(close, LNone)];
  }

  lemma {:induction false} ArraySpan(j: J.Json, show: J.Num -> string, s: string, i: nat, e: nat)
    requires j.JArray? && j.elems != [] && Plain(j, show)
    requires e == i + |J.SerializeTotal(j, show)| && TextAt(s, i, J.SerializeTotal(j, show))
    ensures Spans(s, i, e, Emit(j))
    decreases j, 0
  {
    var es := j.elems;
    var first, rest := J.SerializeTotal(es[0], show), ElementsText(es[1..], show);
    ArrayText(es, show);
    TextSplit(s, i, "[ " + first + rest, " ]");
    TextSplit(s, i, "[ " + first, rest);
    TextSplit(s, i, "[ ", first);
    var c := i + 2;
    var a := c + |first|;
    var b := a + |rest|;
    TextChar(s, i, "[ ", 0);
    TextChar(s, i, "[ ", 1);
    TextChar(s, b, " ]", 0);
    TextChar(s, b, " ]", 1);
    assert Delim(s, a) by {
      if es[1..] != [] {
        assert rest[0] == ',';
      }
    }
    AllPlainTail(es, show);
    ValueSpan(es[0], show, s, c, a);
    ElementsSpan(es[1..], show, s, a, b);
    Bracketed(s, i, c, a, b, e, Emit(es[0]), EmitElements(es[1..]), LeftBracket, RightBracket);
    EmitArray(es);
  }

  lemma {:induction false} ElementsSpan(es: seq<J.Json>, show: J.Num -> string, s: string, q: nat, e: nat)
    requires AllPlain(es, show)
    requires e == q + |ElementsText(es, show)| && TextAt(s, q, ElementsText(es, show)) && Delim(s, e)
    ensures Spans(s, q, e, EmitElements(es))
    decreases es
  {
    if es == [] {
      SpanEmpty(s, q);
    } else {
      var first, rest := J.SerializeTotal(es[0], show), ElementsText(es[1..], show);
      TextSplit(s, q, ", " + first, rest);
      TextSplit(s, q, ", ", first);
      var c := q + 2;
      var a := c + |first|;
      TextChar(s, q, ", ", 0);
      TextChar(s, q, ", ", 1);
      assert Delim(s, a) by {
        if es[1..] != [] {
          assert rest[0] == ',';
        }
      }
      AllPlainTail(es, show);
      ValueSpan(es[0], show, s, c, a);
      ElementsSpan(es[1..], show, s, a, e);
      CommaThen(s, q, c, a, e, Emit(es[0]), EmitElements(es[1..]));
    }
  }

  lemma {:induction false} ObjectSpan(j: J.Json, show: J.Num -> string, s: string, i: nat, e: nat)
    requires j.JObject? && j.members != [] && Plain(j, show)
    requires e == i + |J.SerializeTotal(j, show)| && TextAt(s, i, J.SerializeTotal(j, show))
    ensures Spans(s, i, e, Emit(j))
    decreases j, 0
  {
    var ms := j.members;
    var first, rest := MemberText(ms[0], show), MembersText(ms[1..], show);
    ObjectText(ms, show);
    TextSplit(s, i, "{ " + first + rest, " }");
    TextSplit(s, i, "{ " + first, rest);
    TextSplit(s, i, "{ ", first);
    var c := i + 2;
    var a := c + |first|;
    var b := a + |rest|;
    TextChar(s, i, "{ ", 0);
    TextChar(s, i, "{ ", 1);
    TextChar(s, b, " }", 0);
    TextChar(s, b, " }", 1);
    assert Delim(s, a) by {
      if ms[1..] != [] {
        assert rest[0] == ',';
      }
    }
    assert MembersPlain(ms, show);
    MembersPlainTail(ms, show);
    MemberSpan(ms[0], show, s, c, a);
    MembersSpan(ms[1..], show, s, a, b);
    Bracketed(s, i, c, a, b, e, EmitMember(ms[0]), EmitMembers(ms[1..]), LeftBrace, RightBrace);
    EmitObject(ms);
  }

  lemma {:induction false} MemberSpan(m: J.Member, show: J.Num -> string, s: string, p: nat, e: nat)
    requires NoQuote(m.key) && Plain(m.value, show)
    requires e == p + |MemberText(m, show)| && TextAt(s, p, MemberText(m, show)) && Delim(s, e)
    ensures Spans(s, p, e, EmitMember(m))
    decreases m
  {
    var v := J.SerializeTotal(m.value, show);
    TextSplit(s, p, "\"" + m.key + "\"" + ": ", v);
    TextSplit(s, p, "\"" + m.key + "\"", ": ");
    var c := p + |m.key| + 2;
    var d := c + 2;
    TextChar(s, c, ": ", 0);
    TextChar(s, c, ": ", 1);
    MemberShape(m, show);
    var k, colon := [Tok(String, LStr(m.key))], [Tok(Colon, LNone)];
    StringSpan(s, p, m.key, c);
    CharSpan(s, c, c + 1, Colon);
    BlankSpan(s, c + 1, d);
    ValueSpan(m.value, show, s, d, e);
    SpanConcat(s, p, c, c + 1, k, colon);
    SpanConcat(s, c + 1, d, e, [], Emit(m.value));
    SpanConcat(s, p, c + 1, e, k + colon, [] + Emit(m.value));
  }

  lemma {:induction false} MembersSpan(ms: seq<J.Member>, show: J.Num -> string, s: string, q: nat, e: nat)
    requires MembersPlain(ms, show)
    requires e == q + |MembersText(ms, show)| && TextAt(s, q, MembersText(ms, show)) && Delim(s, e)
    ensures Spans(s, q, e, EmitMembers(ms))
    decreases ms
  {
    if ms == [] {
      SpanEmpty(s, q);
    } else {
      var first, rest := MemberText(ms[0], show), MembersText(ms[1..], show);
      TextSplit(s, q, ", " + first, rest);
      TextSplit(s, q, ", ", first);
      var c := q + 2;
      var a := c + |first|;
      TextChar(s, q, ", ", 0);
      TextChar(s, q, ", ", 1);
      assert Delim(s, a) by {
        if ms[1..] != [] {
          assert rest[0] == ',';
        }
      }
      MembersPlainTail(ms, show);
      MemberSpan(ms[0], show, s, c, a);
      MembersSpan(ms[1..], show, s, a, e);
      CommaThen(s, q, c, a, e, EmitMember(ms[0]), EmitMembers(ms[1..]));
    }
  }

  lemma MemberShape(m: J.Member, show: J.Num -> string)
    ensures |MemberText(m, show)| == |m.key| + 4 + |J.SerializeTotal(m.value, show)|
    ensures EmitMember(m) == [Tok(String, LStr(m.key))] + [Tok(Colon, LNone)] + ([] + Emit(m.value))
  {
  }

  lemma EmitArray(es: seq<J.Json>)
    requires es != []
    ensures Emit(J.JArray(es)) == [Tok(LeftBracket, LNone)] + Emit(es[0]) + EmitElements(es[1..]) + [Tok(RightBracket, LNone)]
  {
  }

  lemma EmitObject(ms: seq<J.Member>)
    requires ms != []
    ensures Emit(J.JObject(ms)) == [Tok(LeftBrace, LNone)] + EmitMember(ms[0]) + EmitMembers(ms[1..]) + [Tok(RightBrace, LNone)]
  {
  }

  // ---------------------------------------------------------------------
  // Spelling looks only at kinds and literals

  lemma {:induction false} SpellsStripped(ts: seq<Token>, p: nat, j: J.Json)
    requires Spells(Strip(ts), p, j)
    ensures Spells(ts, p, j)
    decreases j, 1
  {
    match j
    case JArray(es) =>
      if es != [] {
        SpellsStripped(ts, p + 1, es[0]);
        ElementsStripped(ts, p + 1 + Width(es[0]), es[1..]);
      }
    case JObject(ms) =>
      if ms != [] {
        MemberStripped(ts, p + 1, ms[0]);
        MembersStripped(ts, p + 1 + MemberWidth(ms[0]), ms[1..]);
      }
    case _ =>
  }

  lemma {:induction false} ElementsStripped(ts: seq<Token>, q: nat, es: seq<J.Json>)
    requires SpellsElements(Strip(ts), q, es)
    ensures SpellsElements(ts, q, es)
    decreases es
  {
    if es != [] {
      SpellsStripped(ts, q + 1, es[0]);
      ElementsStripped(ts, q + 1 + Width(es[0]), es[1..]);
    }
  }

  lemma {:induction false} MemberStripped(ts: seq<Token>, p: nat, m: J.Member)
    requires SpellsMember(Strip(ts), p, m)
    ensures SpellsMember(ts, p, m)
    decreases m
  {
    SpellsStripped(ts, p + 2, m.value);
  }

  lemma {:induction false} MembersStripped(ts: seq<Token>, q: nat, ms: seq<J.Member>)
    requires SpellsMembers(Strip(ts), q, ms)
    ensures SpellsMembers(ts, q, ms)
    decreases ms
  {
    if ms != [] {
      MemberStripped(ts, q + 1, ms[0]);
      MembersStripped(ts, q + 1 + MemberWidth(ms[0]), ms[1..]);
    }
  }

  // ---------------------------------------------------------------------
  // The round trip through the text

  /** The text of j scans to the tokens of j, positions aside, then Eof. */
  lemma TextTokens(j: J.Json, show: J.Num -> string)
    requires Plain(j, show)
    ensures var s := J.SerializeTotal(j, show);
            Tokenize(s).Ok? && Strip(Tokenize(s).value) == Emit(j) + [Tok(Eof, LNone)]
  {
    var s := J.SerializeTotal(j, show);
    assert TextAt(s, 0, s);
    ValueSpan(j, show, s, 0, |s|);
    SpanTokenize(s, Emit(j));
  }

  /** parse_string reads the text to_string writes back to the value it was
      written from, for every well-formed value whose strings and keys hold
      no quote and whose numbers print as themselves (with the empty
      containers written `[]` and `{}`). */
  lemma TextRoundTrip(j: J.Json, show: J.Num -> string)
    requires J.WellFormed(j) && Plain(j, show)
    ensures Core.ParseStringSpec(J.SerializeTotal(j, show)) == Ok(j)
  {
    var s := J.SerializeTotal(j, show);
    TextTokens(j, show);
    TokenizeShape(s);
    var ts := Tokenize(s).value;
    EmitWidth(j);
    var st := Strip(ts);
    assert At(st, 0, Emit(j) + [Tok(Eof, LNone)]);
    AtSplit(st, 0, Emit(j), [Tok(Eof, LNone)]);
    EmitSpells(j, st, 0);
    SpellsStripped(ts, 0, j);
    assert st[Width(j)] == Tok(Eof, LNone);
    ParseSpelled(j, ts);
  }

  /** The same for Json::to_string as written, wherever it is defined. */
  lemma SerializeRoundTrip(j: J.Json, show: J.Num -> string)
    requires J.WellFormed(j) && Plain(j, show) && J.NoEmptyContainers(j)
    ensures Core.ParseStringSpec(J.Serialize(j, show)) == Ok(j)
  {
    J.SerializeTotalAgrees(j, show);
    TextRoundTrip(j, show);
  }
}
