/** What the parser's functions promise (src/Parser.cpp): every value it
    returns keeps the map invariant in every object, the parse-level errors
    arise exactly where Parser::parse raises them, a member is rejected
    exactly when its key is already present. */
module ParsingProperties {
  import opened Wrappers
  import opened Tokens
  import opened Parsing
  import J = JsonValue

  // ---------------------------------------------------------------------
  // Soundness: the values returned are well formed, and the errors inside
  // an element are never the two that only parse() raises

  /** An error an element, array or object can fail with: not one of the
      two that only parse() raises, and at one of the tokens. */
  predicate Inner(ts: seq<Token>, e: ParseError) {
    e.reason != EmptyString && e.reason != TrailingToken && e.token in ts
  }

  lemma {:induction false} ElementSound(ts: seq<Token>, p: nat)
    requires ValidStream(ts) && p < |ts| && (p > 0 || ts[p].kind != Eof)
    ensures ElementSpec(ts, p).Ok? ==> J.WellFormed(ElementSpec(ts, p).value.value)
    ensures ElementSpec(ts, p).Err? ==> Inner(ts, ElementSpec(ts, p).error)
    decreases |ts| - p, 2
  {
    if ts[p].kind == LeftBracket {
      ArraySound(ts, p + 1);
    } else if ts[p].kind == LeftBrace {
      ObjectSound(ts, p + 1);
    }
  }

  lemma {:induction false} ArraySound(ts: seq<Token>, p: nat)
    requires ValidStream(ts) && 0 < p < |ts|
    ensures ArraySpec(ts, p).Ok? ==> J.WellFormed(ArraySpec(ts, p).value.value)
    ensures ArraySpec(ts, p).Err? ==> Inner(ts, ArraySpec(ts, p).error)
    decreases |ts| - p + 1, 0
  {
    if ts[p].kind != RightBracket {
      ArrayOpens(ts, p);
      ElementSound(ts, p);
      var e := ElementSpec(ts, p);
      if e.Ok? {
        ArrayTailSound(ts, e.value.next, [e.value.value]);
      }
    }
  }

  lemma {:induction false} ArrayTailSound(ts: seq<Token>, q: nat, elems: seq<J.Json>)
    requires ValidStream(ts) && 0 < q < |ts| && J.WellFormed(J.JArray(elems))
    ensures ArrayTail(ts, q, elems).Ok? ==> J.WellFormed(ArrayTail(ts, q, elems).value.value)
    ensures ArrayTail(ts, q, elems).Err? ==> Inner(ts, ArrayTail(ts, q, elems).error)
    decreases |ts| - q, 1
  {
    ArrayTailUnfold(ts, q, elems);
    if ts[q].kind == Comma {
      ElementSound(ts, q + 1);
      var e := ElementSpec(ts, q + 1);
      if e.Ok? {
        var elems' := elems + [e.value.value];
        assert J.WellFormed(J.JArray(elems')) by {
          assert forall i :: 0 <= i < |elems| ==> elems'[i] == elems[i];
        }
        ArrayTailSound(ts, e.value.next, elems');
      }
    }
  }

  lemma {:induction false} ObjectSound(ts: seq<Token>, p: nat)
    requires ValidStream(ts) && 0 < p < |ts|
    ensures ObjectSpec(ts, p).Ok? ==> J.WellFormed(ObjectSpec(ts, p).value.value)
    ensures ObjectSpec(ts, p).Err? ==> Inner(ts, ObjectSpec(ts, p).error)
    decreases |ts| - p + 1, 1
  {
    if ts[p].kind != RightBrace {
      ObjectOpens(ts, p);
      InsertElemSound(ts, p, []);
      var m := InsertElemSpec(ts, p, []);
      if m.Ok? {
        ObjectTailSound(ts, m.value.next, m.value.value);
      }
    }
  }

  lemma {:induction false} ObjectTailSound(ts: seq<Token>, q: nat, ms: seq<J.Member>)
    requires ValidStream(ts) && 0 < q < |ts| && J.WellFormed(J.JObject(ms))
    ensures ObjectTail(ts, q, ms).Ok? ==> J.WellFormed(ObjectTail(ts, q, ms).value.value)
    ensures ObjectTail(ts, q, ms).Err? ==> Inner(ts, ObjectTail(ts, q, ms).error)
    decreases |ts| - q, 5
  {
    ObjectTailUnfold(ts, q, ms);
    if ts[q].kind == Comma {
      InsertElemSound(ts, q + 1, ms);
      var m := InsertElemSpec(ts, q + 1, ms);
      if m.Ok? {
        ObjectTailSound(ts, m.value.next, m.value.value);
      }
    }
  }

  lemma {:induction false} MemberSound(ts: seq<Token>, p: nat)
    requires ValidStream(ts) && p < |ts|
    ensures MemberSpec(ts, p).Ok? ==> J.WellFormed(MemberSpec(ts, p).value.value.0.value)
    ensures MemberSpec(ts, p).Err? ==> Inner(ts, MemberSpec(ts, p).error)
    decreases |ts| - p, 3
  {
    if ts[p].kind == String && ts[p + 1].kind == Colon {
      ElementSound(ts, p + 2);
    }
  }

  lemma {:induction false} InsertElemSound(ts: seq<Token>, p: nat, ms: seq<J.Member>)
    requires ValidStream(ts) && p < |ts| && J.WellFormed(J.JObject(ms))
    ensures InsertElemSpec(ts, p, ms).Ok? ==> J.WellFormed(J.JObject(InsertElemSpec(ts, p, ms).value.value))
    ensures InsertElemSpec(ts, p, ms).Err? ==> Inner(ts, InsertElemSpec(ts, p, ms).error)
    decreases |ts| - p, 4
  {
    MemberSound(ts, p);
    var m := MemberSpec(ts, p);
    if m.Ok? {
      var kv := m.value.value.0;
      var ins := J.Insert(ms, kv.key, kv.value);
      if ins.Some? {
        J.InsertSorted(ms, kv.key, kv.value);
        J.InsertContents(ms, kv.key, kv.value);
        var r := ins.value;
        forall i | 0 <= i < |r| ensures J.WellFormed(r[i].value) {
          assert r[i] in r;
          if r[i] != kv {
            var n :| 0 <= n < |ms| && ms[n] == r[i];
          }
        }
      }
    }
  }

  /** Every value the parser returns is well formed: each object in it,
      however deeply nested, has strictly ascending and so distinct keys. */
  lemma ParseWellFormed(ts: seq<Token>)
    requires ValidStream(ts)
    ensures ParseSpec(ts).Ok? ==> J.WellFormed(ParseSpec(ts).value)
  {
    if ts[0].kind != Eof {
      ElementSound(ts, 0);
    }
  }

  /** Every error parse() raises names one of its tokens. */
  lemma ParseErrorToken(ts: seq<Token>)
    requires ValidStream(ts)
    ensures ParseSpec(ts).Err? ==> ParseSpec(ts).error.token in ts
  {
    if ts[0].kind != Eof {
      ElementSound(ts, 0);
    }
  }

  /** parse() fails with "Empty string" exactly when the first token is
      Eof, and the error names that token. */
  lemma EmptyStringIff(ts: seq<Token>)
    requires ValidStream(ts)
    ensures ParseSpec(ts).Err? && ParseSpec(ts).error.reason == EmptyString <==> ts[0].kind == Eof
    ensures ts[0].kind == Eof ==> ParseSpec(ts).error.token == ts[0]
  {
    if ts[0].kind != Eof {
      ElementSound(ts, 0);
    }
  }

  /** parse() fails with a trailing-token error exactly when a whole
      element was read and a token other than Eof follows it, and the
      error names that token. */
  lemma TrailingTokenIff(ts: seq<Token>)
    requires ValidStream(ts)
    ensures ParseSpec(ts).Err? && ParseSpec(ts).error.reason == TrailingToken
            <==> ts[0].kind != Eof && ElementSpec(ts, 0).Ok? && ts[ElementSpec(ts, 0).value.next].kind != Eof
    ensures ts[0].kind != Eof && ElementSpec(ts, 0).Ok? && ts[ElementSpec(ts, 0).value.next].kind != Eof ==>
              ParseSpec(ts).error.token == ts[ElementSpec(ts, 0).value.next]
  {
    if ts[0].kind != Eof {
      ElementSound(ts, 0);
    }
  }

  // ---------------------------------------------------------------------
  // The error cases inside arrays and objects

  /** A comma right before the closing bracket is read as the start of an
      element, so the bracket is reported as an invalid literal. */
  lemma TrailingCommaInArray(ts: seq<Token>, q: nat, elems: seq<J.Json>)
    requires ValidStream(ts) && 0 < q && q + 1 < |ts|
    requires ts[q].kind == Comma && ts[q + 1].kind == RightBracket
    ensures ArrayTail(ts, q, elems) == Err(ParseError(ts[q + 1], InvalidLiteral))
  {
    ArrayTailUnfold(ts, q, elems);
  }

  /** When the tokens end right after a comma, parse_literal reads the Eof
      without moving and reports the comma, the token before it. */
  lemma CommaThenEnd(ts: seq<Token>, q: nat, elems: seq<J.Json>)
    requires ValidStream(ts) && 0 < q && q + 1 < |ts|
    requires ts[q].kind == Comma && ts[q + 1].kind == Eof
    ensures ArrayTail(ts, q, elems) == Err(ParseError(ts[q], InvalidLiteral))
  {
    ArrayTailUnfold(ts, q, elems);
  }

  /** Where the array loop expects a comma or `]`, every other token but
      Eof is reported as a missing comma at that token: the start of a
      second element with nothing before it, and also a colon or a `}`. */
  lemma MissingComma(ts: seq<Token>, q: nat, elems: seq<J.Json>)
    requires ValidStream(ts) && 0 < q < |ts|
    requires ts[q].kind != Comma && ts[q].kind != RightBracket && ts[q].kind != Eof
    ensures ArrayTail(ts, q, elems) == Err(ParseError(ts[q], ArrayComma))
  {
    ArrayTailUnfold(ts, q, elems);
  }

  /** The key of a member is checked against the members read so far only
      after its value was parsed: a member whose key, colon and value are
      all fine is rejected exactly when its key is already present, and
      the error names the key's token. */
  lemma DuplicateKeyIff(ts: seq<Token>, p: nat, ms: seq<J.Member>)
    requires ValidStream(ts) && p < |ts| && J.Sorted(ms)
    requires MemberSpec(ts, p).Ok?
    ensures InsertElemSpec(ts, p, ms).Err? <==> ts[p].literal.s in J.Keys(ms)
    ensures InsertElemSpec(ts, p, ms).Err? ==>
              InsertElemSpec(ts, p, ms).error == ParseError(ts[p], DuplicateKey(ts[p].literal.s))
  {
    var kv := MemberSpec(ts, p).value.value.0;
    J.InsertSorted(ms, kv.key, kv.value);
  }

  /** A member whose key token is not a string fails at that token,
      whatever the members read so far. */
  lemma KeyMustBeString(ts: seq<Token>, p: nat, ms: seq<J.Member>)
    requires ValidStream(ts) && p < |ts| && ts[p].kind != String
    ensures InsertElemSpec(ts, p, ms) == Err(ParseError(ts[p], KeyNotString))
  {
  }
}
