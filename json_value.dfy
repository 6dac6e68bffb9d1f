/** The value model (include/JsonValue.h, src/JsonValue.cpp): a six-way
    tagged union, its type-checked accessors and its serialiser. */
module JsonValue {
  import opened Wrappers

  /** Json::Type, the six variants in declaration order. */
  datatype Type = Null | Boolean | Number | String | Array | Object

  /** A number, kept as the lexeme it was read from (number_t is a double,
      whose arithmetic is not modelled). */
  type Num = string

  /** Json. The constructor is the tag, so the tag always agrees with the
      active alternative of the payload. Objects are std::map: kept as
      members in strictly ascending key order (see Sorted). */
  datatype Json =
    | JNull
    | JBool(b: bool)
    | JNumber(n: Num)
    | JString(s: string)
    | JArray(elems: seq<Json>)
    | JObject(members: seq<Member>)

  /** object_elem_t, a key and its value. */
  datatype Member = Member(key: string, value: Json)

  /** Json::type() */
  function TypeOf(j: Json): Type {
    match j
    case JNull => Null
    case JBool(_) => Boolean
    case JNumber(_) => Number
    case JString(_) => String
    case JArray(_) => Array
    case JObject(_) => Object
  }

  // ---------------------------------------------------------------------
  // is_null, is_bool, is_number, is_string, is_array, is_object

  predicate IsNull(j: Json) ensures IsNull(j) <==> TypeOf(j) == Null { j.JNull? }
  predicate IsBool(j: Json) ensures IsBool(j) <==> TypeOf(j) == Boolean { j.JBool? }
  predicate IsNumber(j: Json) ensures IsNumber(j) <==> TypeOf(j) == Number { j.JNumber? }
  predicate IsString(j: Json) ensures IsString(j) <==> TypeOf(j) == String { j.JString? }
  predicate IsArray(j: Json) ensures IsArray(j) <==> TypeOf(j) == Array { j.JArray? }
  predicate IsObject(j: Json) ensures IsObject(j) <==> TypeOf(j) == Object { j.JObject? }

  /** The is_* predicate that asks about tag t. */
  predicate Is(j: Json, t: Type) {
    match t
    case Null => IsNull(j)
    case Boolean => IsBool(j)
    case Number => IsNumber(j)
    case String => IsString(j)
    case Array => IsArray(j)
    case Object => IsObject(j)
  }

  /** Exactly one of the six predicates holds of any value: the one for its
      own tag. */
  lemma ExactlyOneIs(j: Json)
    ensures Is(j, TypeOf(j))
    ensures forall t :: Is(j, t) ==> t == TypeOf(j)
  {
  }

  // ---------------------------------------------------------------------
  // Typed accessors and cast_exception

  /** to_string(Type), the name used in cast messages: a lower-case word. */
  function TypeName(t: Type): (r: string)
    ensures |r| > 0 && forall i :: 0 <= i < |r| ==> 'a' <= r[i] <= 'z'
  {
    match t
    case Null => "null"
    case Boolean => "boolean"
    case Number => "number"
    case String => "string"
    case Array => "array"
    case Object => "object"
  }

  /** cast_exception(from, to) */
  datatype CastError = CastError(from: Type, to: Type)

  /** The message of cast_exception: the source type's name after
      "Invalid cast from ", and the target type's name at the end. */
  function CastMessage(e: CastError): (r: string)
    ensures |r| == 22 + |TypeName(e.from)| + |TypeName(e.to)|
    ensures r[..18] == "Invalid cast from " && r[18..18 + |TypeName(e.from)|] == TypeName(e.from)
    ensures r[|r| - |TypeName(e.to)|..] == TypeName(e.to)
  {
    "Invalid cast from " + TypeName(e.from) + " to " + TypeName(e.to)
  }

  /** The six type names are pairwise distinct. */
  lemma TypeNamesDistinct(t: Type, u: Type)
    requires TypeName(t) == TypeName(u)
    ensures t == u
  {
    TypeNamePrefix(t, u);
  }

  /** No type name is a prefix of another. */
  lemma TypeNamePrefix(t: Type, u: Type)
    requires |TypeName(t)| <= |TypeName(u)| && TypeName(u)[..|TypeName(t)|] == TypeName(t)
    ensures t == u
  {
    var a, b := TypeName(t), TypeName(u);
    assert a[0] == b[..|a|][0] && a[2] == b[..|a|][2];
    FirstLettersTell(t, u);
  }

  /** No type name is a suffix of another. */
  lemma TypeNameSuffix(t: Type, u: Type)
    requires |TypeName(t)| <= |TypeName(u)| && TypeName(u)[|TypeName(u)| - |TypeName(t)|..] == TypeName(t)
    ensures t == u
  {
    var a, b := TypeName(t), TypeName(u);
    assert a[|a| - 1] == b[|b| - |a|..][|a| - 1];
    LastLetterTells(t, u);
  }

  /** The first and third letters of a type name tell the type. */
  lemma FirstLettersTell(t: Type, u: Type)
    requires TypeName(t)[0] == TypeName(u)[0] && TypeName(t)[2] == TypeName(u)[2]
    ensures t == u
  {
  }

  /** The last letter of a type name tells the type. */
  lemma LastLetterTells(t: Type, u: Type)
    requires TypeName(t)[|TypeName(t)| - 1] == TypeName(u)[|TypeName(u)| - 1]
    ensures t == u
  {
  }

  /** A cast message names both tags: two casts with the same message are
      the same cast. */
  lemma CastMessageInjective(e1: CastError, e2: CastError)
    requires CastMessage(e1) == CastMessage(e2)
    ensures e1 == e2
  {
    var r := CastMessage(e1);
    var a1, a2 := TypeName(e1.from), TypeName(e2.from);
    if |a1| <= |a2| {
      assert a2[..|a1|] == r[18..18 + |a1|];
      TypeNamePrefix(e1.from, e2.from);
    } else {
      assert a1[..|a2|] == r[18..18 + |a2|];
      TypeNamePrefix(e2.from, e1.from);
    }
    // The source types agree, so the target names have the same length.
    var b1, b2 := TypeName(e1.to), TypeName(e2.to);
    assert b2[|b2| - |b1|..] == r[|r| - |b1|..];
    TypeNameSuffix(e1.to, e2.to);
  }

  /** Json::boolean() */
  function GetBoolean(j: Json): (r: Result<bool, CastError>)
    ensures r.Ok? <==> IsBool(j)
    ensures r.Ok? ==> j == JBool(r.value)
    ensures r.Err? ==> r.error == CastError(TypeOf(j), Boolean)
  {
    if j.JBool? then Ok(j.b) else Err(CastError(TypeOf(j), Boolean))
  }

  /** Json::number() */
  function GetNumber(j: Json): (r: Result<Num, CastError>)
    ensures r.Ok? <==> IsNumber(j)
    ensures r.Ok? ==> j == JNumber(r.value)
    ensures r.Err? ==> r.error == CastError(TypeOf(j), Number)
  {
    if j.JNumber? then Ok(j.n) else Err(CastError(TypeOf(j), Number))
  }

  /** Json::string(), both the const and the mutable overload. */
  function GetString(j: Json): (r: Result<string, CastError>)
    ensures r.Ok? <==> IsString(j)
    ensures r.Ok? ==> j == JString(r.value)
    ensures r.Err? ==> r.error == CastError(TypeOf(j), String)
  {
    if j.JString? then Ok(j.s) else Err(CastError(TypeOf(j), String))
  }

  /** Json::array(), both overloads. */
  function GetArray(j: Json): (r: Result<seq<Json>, CastError>)
    ensures r.Ok? <==> IsArray(j)
    ensures r.Ok? ==> j == JArray(r.value)
    ensures r.Err? ==> r.error == CastError(TypeOf(j), Array)
  {
    if j.JArray? then Ok(j.elems) else Err(CastError(TypeOf(j), Array))
  }

  /** Json::object(), both overloads. */
  function GetObject(j: Json): (r: Result<seq<Member>, CastError>)
    ensures r.Ok? <==> IsObject(j)
    ensures r.Ok? ==> j == JObject(r.value)
    ensures r.Err? ==> r.error == CastError(TypeOf(j), Object)
  {
    if j.JObject? then Ok(j.members) else Err(CastError(TypeOf(j), Object))
  }

  /** Whether the accessor for tag t succeeds on j. */
  predicate CastSucceeds(j: Json, t: Type) {
    match t
    case Null => true
    case Boolean => GetBoolean(j).Ok?
    case Number => GetNumber(j).Ok?
    case String => GetString(j).Ok?
    case Array => GetArray(j).Ok?
    case Object => GetObject(j).Ok?
  }

  /** An accessor other than null's succeeds exactly when the value's own
      is_* predicate for that tag holds, that is when the tag matches. */
  lemma CastSucceedsIffIs(j: Json, t: Type)
    requires t != Null
    ensures CastSucceeds(j, t) <==> Is(j, t)
    ensures CastSucceeds(j, t) <==> t == TypeOf(j)
  {
  }

  // ---------------------------------------------------------------------
  // Constructors

  /** Json(Type): a value of the given type holding the default payload. */
  function OfType(t: Type): (j: Json)
    ensures TypeOf(j) == t
  {
    match t
    case Null => JNull
    case Boolean => JBool(false)
    case Number => JNumber("0")
    case String => JString("")
    case Array => JArray([])
    case Object => JObject([])
  }

  /** The payloads Json(Type) chooses, as the accessors read them back:
      false, 0, the empty string, the empty array and the empty object. */
  lemma OfTypeDefaults()
    ensures IsNull(OfType(Null))
    ensures GetBoolean(OfType(Boolean)) == Ok(false)
    ensures GetNumber(OfType(Number)) == Ok("0")
    ensures GetString(OfType(String)) == Ok("")
    ensures GetArray(OfType(Array)) == Ok([])
    ensures GetObject(OfType(Object)) == Ok([])
  {
  }

  /** The default constructor gives Null, and each payload constructor sets
      the tag of its payload, as the constructor tests assert. */
  lemma ConstructorTags(b: bool, n: Num, s: string, a: seq<Json>, o: seq<Member>)
    ensures TypeOf(JNull) == Null
    ensures TypeOf(JBool(b)) == Boolean && GetBoolean(JBool(b)) == Ok(b)
    ensures TypeOf(JNumber(n)) == Number && GetNumber(JNumber(n)) == Ok(n)
    ensures TypeOf(JString(s)) == String && GetString(JString(s)) == Ok(s)
    ensures TypeOf(JArray(a)) == Array && GetArray(JArray(a)) == Ok(a)
    ensures TypeOf(JObject(o)) == Object && GetObject(JObject(o)) == Ok(o)
  {
  }

  // ---------------------------------------------------------------------
  // object_t = std::map<string, Json>: keys ordered by std::less<string>

  /** std::less<std::string>: lexicographic order on character codes. */
  predicate StrLess(a: string, b: string) {
    if a == [] then b != []
    else if b == [] then false
    else if a[0] != b[0] then a[0] < b[0]
    else StrLess(a[1..], b[1..])
  }

  lemma {:induction false} StrLessIrreflexive(a: string)
    ensures !StrLess(a, a)
  {
    if a != [] { StrLessIrreflexive(a[1..]); }
  }

  lemma {:induction false} StrLessTransitive(a: string, b: string, c: string)
    requires StrLess(a, b) && StrLess(b, c)
    ensures StrLess(a, c)
  {
    if a != [] && b != [] && c != [] && a[0] == b[0] && b[0] == c[0] {
      StrLessTransitive(a[1..], b[1..], c[1..]);
    }
  }

  /** Any two distinct keys are ordered one way or the other. */
  lemma {:induction false} StrLessTotal(a: string, b: string)
    requires a != b
    ensures StrLess(a, b) || StrLess(b, a)
  {
    if a != [] && b != [] && a[0] == b[0] {
      assert a == [a[0]] + a[1..] && b == [b[0]] + b[1..];
      StrLessTotal(a[1..], b[1..]);
    }
  }

  lemma {:induction false} StrLessAsymmetric(a: string, b: string)
    requires StrLess(a, b)
    ensures !StrLess(b, a)
  {
    if a != [] && b != [] && a[0] == b[0] {
      StrLessAsymmetric(a[1..], b[1..]);
    }
  }

  /** The map invariant: keys strictly ascending, hence unique. */
  predicate Sorted(ms: seq<Member>) {
    forall i, j :: 0 <= i < j < |ms| ==> StrLess(ms[i].key, ms[j].key)
  }

  /** The keys of the members. */
  function Keys(ms: seq<Member>): set<string> {
    set i | 0 <= i < |ms| :: ms[i].key
  }

  /** The keys of a non-empty list: the first key and the keys after it. */
  lemma KeysCons(ms: seq<Member>)
    requires ms != []
    ensures Keys(ms) == {ms[0].key} + Keys(ms[1..])
  {
    forall k | k in Keys(ms) ensures k in {ms[0].key} + Keys(ms[1..]) {
      var i :| 0 <= i < |ms| && ms[i].key == k;
      if i > 0 { assert ms[1..][i - 1].key == k; }
    }
    forall k | k in Keys(ms[1..]) ensures k in Keys(ms) {
      var i :| 0 <= i < |ms[1..]| && ms[1..][i].key == k;
      assert ms[i + 1].key == k;
    }
  }

  /** map::find */
  function Lookup(ms: seq<Member>, k: string): (r: Option<Json>)
    ensures r.Some? <==> k in Keys(ms)
    ensures r.Some? ==> exists i :: 0 <= i < |ms| && ms[i] == Member(k, r.value)
  {
    if ms == [] then None
    else if ms[0].key == k then Some(ms[0].value)
    else Lookup(ms[1..], k)
  }

  /** In a sorted member list no key occurs twice. */
  lemma SortedKeysUnique(ms: seq<Member>)
    requires Sorted(ms)
    ensures forall i, j :: 0 <= i < |ms| && 0 <= j < |ms| && i != j ==> ms[i].key != ms[j].key
  {
    forall i, j | 0 <= i < |ms| && 0 <= j < |ms| && i != j
      ensures ms[i].key != ms[j].key
    {
      if i < j { StrLessIrreflexive(ms[i].key); } else { StrLessIrreflexive(ms[j].key); }
    }
  }

  /** map::insert(std::make_pair(k, v)) on a member list in key order: walk
      to the first key not below k; None when it is k (the map is left as it
      was, the earlier value kept), otherwise the list with the new member
      placed there. InsertSorted states what this means for a sorted list,
      the only kind the parser builds. */
  function Insert(ms: seq<Member>, k: string, v: Json): Option<seq<Member>> {
    if ms == [] then Some([Member(k, v)])
    else if ms[0].key == k then None
    else if StrLess(k, ms[0].key) then Some([Member(k, v)] + ms)
    else
      match Insert(ms[1..], k, v)
      case None => None
      case Some(rest) => Some([ms[0]] + rest)
  }

  /** Insert adds exactly its key, and fails only on a key already there. */
  lemma {:induction false} InsertKeys(ms: seq<Member>, k: string, v: Json)
    ensures Insert(ms, k, v).None? ==> k in Keys(ms)
    ensures Insert(ms, k, v).Some? ==> Keys(Insert(ms, k, v).value) == Keys(ms) + {k}
  {
    if ms == [] {
      assert Keys([Member(k, v)]) == {k} by { KeysCons([Member(k, v)]); }
    } else if ms[0].key == k {
      KeysCons(ms);
    } else if StrLess(k, ms[0].key) {
      var r := [Member(k, v)] + ms;
      assert r[1..] == ms;
      KeysCons(r);
    } else {
      InsertKeys(ms[1..], k, v);
      KeysCons(ms);
      match Insert(ms[1..], k, v)
      case None =>
      case Some(rest) =>
        var r := [ms[0]] + rest;
        assert Insert(ms, k, v).value == r;
        assert r[1..] == rest;
        KeysCons(r);
    }
  }

  /** In a sorted list the walk stops at a key already there. */
  lemma {:induction false} InsertPresent(ms: seq<Member>, k: string, v: Json)
    requires Sorted(ms) && k in Keys(ms)
    ensures Insert(ms, k, v).None?
  {
    if ms[0].key != k {
      var i :| 0 <= i < |ms| && ms[i].key == k;
      if StrLess(k, ms[0].key) {
        StrLessTransitive(k, ms[0].key, ms[i].key);
        StrLessIrreflexive(k);
      } else {
        assert Sorted(ms[1..]);
        assert ms[1..][i - 1].key == k;
        InsertPresent(ms[1..], k, v);
      }
    }
  }

  /** On a sorted list, insert fails exactly when the key is present, and
      otherwise keeps the list sorted and adds exactly the new key. */
  lemma {:induction false} InsertSorted(ms: seq<Member>, k: string, v: Json)
    requires Sorted(ms)
    ensures Insert(ms, k, v).None? <==> k in Keys(ms)
    ensures Insert(ms, k, v).Some? ==>
              Sorted(Insert(ms, k, v).value) && Keys(Insert(ms, k, v).value) == Keys(ms) + {k}
  {
    InsertKeys(ms, k, v);
    if k in Keys(ms) {
      InsertPresent(ms, k, v);
    } else if ms == [] {
    } else if StrLess(k, ms[0].key) {
      InsertBeforeHead(ms, k, v);
    } else {
      StrLessTotal(k, ms[0].key);
      assert Sorted(ms[1..]);
      InsertSorted(ms[1..], k, v);
      var rest := Insert(ms[1..], k, v).value;
      InsertAfterHead(ms, k, rest);
    }
  }

  /** What a successful insert holds: one member more, the new key bound to
      the new value, every other key bound as before, and nothing else. */
  lemma {:induction false} InsertContents(ms: seq<Member>, k: string, v: Json)
    requires Insert(ms, k, v).Some?
    ensures var r := Insert(ms, k, v).value;
            && |r| == |ms| + 1
            && Lookup(r, k) == Some(v)
            && (forall k' :: k' != k ==> Lookup(r, k') == Lookup(ms, k'))
            && (forall m :: m in r ==> m == Member(k, v) || m in ms)
  {
    if ms != [] && ms[0].key != k && !StrLess(k, ms[0].key) {
      StrLessTotal(k, ms[0].key);
      InsertContents(ms[1..], k, v);
      var rest := Insert(ms[1..], k, v).value;
      var r := Insert(ms, k, v).value;
      assert r == [ms[0]] + rest;
      forall m | m in r ensures m == Member(k, v) || m in ms {
        if m != ms[0] {
          assert m in rest;
        }
      }
      forall k' | k' != k ensures Lookup(r, k') == Lookup(ms, k') {
        if k' != ms[0].key {
          assert r[1..] == rest;
        }
      }
      assert r[1..] == rest;
    }
  }

  /** A key above every key present is appended: this is how members read
      in ascending order build up the list. */
  lemma {:induction false} InsertAtEnd(ms: seq<Member>, k: string, v: Json)
    requires forall i :: 0 <= i < |ms| ==> StrLess(ms[i].key, k)
    ensures Insert(ms, k, v) == Some(ms + [Member(k, v)])
  {
    if ms != [] {
      StrLessIrreflexive(k);
      StrLessAsymmetric(ms[0].key, k);
      assert forall i :: 0 <= i < |ms[1..]| ==> StrLess(ms[1..][i].key, k) by {
        forall i | 0 <= i < |ms[1..]| ensures StrLess(ms[1..][i].key, k) {
          assert ms[1..][i] == ms[i + 1];
        }
      }
      InsertAtEnd(ms[1..], k, v);
      assert [ms[0]] + (ms[1..] + [Member(k, v)]) == ms + [Member(k, v)];
    } else {
      assert ms + [Member(k, v)] == [Member(k, v)];
    }
  }

  /** Reading the members of a sorted list in order, each insert appends:
      the next member's key is above every key read so far. */
  lemma InsertNextOfSorted(done: seq<Member>, rest: seq<Member>)
    requires Sorted(done + rest) && rest != []
    ensures Insert(done, rest[0].key, rest[0].value) == Some(done + [rest[0]])
  {
    var ms := done + rest;
    forall i | 0 <= i < |done| ensures StrLess(done[i].key, rest[0].key) {
      assert done[i] == ms[i] && rest[0] == ms[|done|];
    }
    InsertAtEnd(done, rest[0].key, rest[0].value);
  }

  lemma InsertBeforeHead(ms: seq<Member>, k: string, v: Json)
    requires Sorted(ms) && ms != [] && StrLess(k, ms[0].key)
    ensures k !in Keys(ms)
    ensures Sorted([Member(k, v)] + ms)
  {
    var r := [Member(k, v)] + ms;
    forall i, j | 0 <= i < j < |r| ensures StrLess(r[i].key, r[j].key) {
      if i == 0 && j > 1 { StrLessTransitive(k, ms[0].key, ms[j - 1].key); }
    }
    if k in Keys(ms) {
      var i :| 0 <= i < |ms| && ms[i].key == k;
      if i == 0 { StrLessIrreflexive(k); }
      else {
        StrLessTransitive(k, ms[0].key, ms[i].key);
        StrLessIrreflexive(k);
      }
    }
  }

  lemma InsertAfterHead(ms: seq<Member>, k: string, rest: seq<Member>)
    requires Sorted(ms) && ms != [] && StrLess(ms[0].key, k)
    requires Sorted(rest) && Keys(rest) == Keys(ms[1..]) + {k}
    ensures Sorted([ms[0]] + rest)
  {
    var r := [ms[0]] + rest;
    forall i, j | 0 <= i < j < |r| ensures StrLess(r[i].key, r[j].key) {
      if i == 0 {
        assert r[j].key in Keys(rest);
        if r[j].key != k {
          var m :| 0 <= m < |ms[1..]| && ms[1..][m].key == r[j].key;
          assert ms[m + 1].key == r[j].key;
        }
      }
    }
  }

  /** Every object in the value, however deeply nested, keeps the map
      invariant. */
  predicate WellFormed(j: Json) {
    match j
    case JArray(es) => forall i :: 0 <= i < |es| ==> WellFormed(es[i])
    case JObject(ms) => Sorted(ms) && forall i :: 0 <= i < |ms| ==> WellFormed(ms[i].value)
    case _ => true
  }

  // ---------------------------------------------------------------------
  // Json::to_string

  /** enclose(str, beg, end) */
  function Enclose(s: string, beg: string, end: string): string
  {
    beg + s + end
  }

  /** The transform_reduce fold with separate_by_space: the first part
      as the initial value, then ", " and each further part in order. */
  function Join(parts: seq<string>): string
    requires |parts| > 0
  {
    if |parts| == 1 then parts[0] else Join(parts[..|parts| - 1]) + ", " + parts[|parts| - 1]
  }

  /** No array and no object in the value is empty. to_string starts its
      fold at `*v.begin()`, which is undefined for an empty container. */
  predicate NoEmptyContainers(j: Json) {
    match j
    case JArray(es) => |es| > 0 && forall i :: 0 <= i < |es| ==> NoEmptyContainers(es[i])
    case JObject(ms) => |ms| > 0 && forall i :: 0 <= i < |ms| ==> NoEmptyContainers(ms[i].value)
    case _ => true
  }

  /** Json::to_string as written. `showNumber` stands for writing a double
      to a stream. Strings and keys are written raw between quotes. */
  function Serialize(j: Json, showNumber: Num -> string): string
    requires NoEmptyContainers(j)
  {
    match j
    case JNull => "null"
    case JBool(b) => if b then "true" else "false"
    case JNumber(n) => showNumber(n)
    case JString(s) => Enclose(s, "\"", "\"")
    case JArray(es) =>
      Enclose(Join(seq(|es|, i requires 0 <= i < |es| => Serialize(es[i], showNumber))), "[ ", " ]")
    case JObject(ms) =>
      Enclose(Join(seq(|ms|, i requires 0 <= i < |ms| =>
        Enclose(ms[i].key, "\"", "\"") + ": " + Serialize(ms[i].value, showNumber))), "{ ", " }")
  }

  /** The fold adds one separator per part after the first. */
  lemma {:induction false} JoinLength(parts: seq<string>)
    requires |parts| > 0
    ensures |Join(parts)| == TotalLength(parts) + 2 * (|parts| - 1)
  {
    if |parts| > 1 {
      var init := parts[..|parts| - 1];
      JoinLength(init);
      TotalLengthSnoc(init, parts[|parts| - 1]);
      assert init + [parts[|parts| - 1]] == parts;
    }
  }

  function TotalLength(parts: seq<string>): nat {
    if parts == [] then 0 else |parts[0]| + TotalLength(parts[1..])
  }

  lemma {:induction false} TotalLengthSnoc(parts: seq<string>, last: string)
    ensures TotalLength(parts + [last]) == TotalLength(parts) + |last|
  {
    if parts != [] {
      assert (parts + [last])[1..] == parts[1..] + [last];
      TotalLengthSnoc(parts[1..], last);
    }
  }

  /** The fold starts with the first part: the text of the first element
      or member comes first. */
  lemma {:induction false} JoinStartsWithFirst(parts: seq<string>)
    requires |parts| > 0
    ensures |parts[0]| <= |Join(parts)| && Join(parts)[..|parts[0]|] == parts[0]
  {
    if |parts| > 1 {
      var init := parts[..|parts| - 1];
      JoinStartsWithFirst(init);
      assert init[0] == parts[0];
      var rest := ", " + parts[|parts| - 1];
      assert Join(parts) == Join(init) + rest;
      assert (Join(init) + rest)[..|parts[0]|] == Join(init)[..|parts[0]|];
    }
  }

  // ---------------------------------------------------------------------
  // Serialisation with empty containers

  /** to_string with the empty containers written as `[]` and `{}` instead
      of reading an element that is not there; on every other value it is
      Serialize. */
  function SerializeTotal(j: Json, showNumber: Num -> string): string {
    match j
    case JNull => "null"
    case JBool(b) => if b then "true" else "false"
    case JNumber(n) => showNumber(n)
    case JString(s) => Enclose(s, "\"", "\"")
    case JArray(es) =>
      if es == [] then "[]"
      else Enclose(Join(seq(|es|, i requires 0 <= i < |es| => SerializeTotal(es[i], showNumber))), "[ ", " ]")
    case JObject(ms) =>
      if ms == [] then "{}"
      else Enclose(Join(seq(|ms|, i requires 0 <= i < |ms| =>
        Enclose(ms[i].key, "\"", "\"") + ": " + SerializeTotal(ms[i].value, showNumber))), "{ ", " }")
  }

  /** Where to_string is defined, the total serialiser writes what it
      writes. */
  lemma {:induction false} SerializeTotalAgrees(j: Json, showNumber: Num -> string)
    requires NoEmptyContainers(j)
    ensures SerializeTotal(j, showNumber) == Serialize(j, showNumber)
    decreases j
  {
    match j
    case JArray(es) =>
      forall i | 0 <= i < |es| ensures SerializeTotal(es[i], showNumber) == Serialize(es[i], showNumber) {
        SerializeTotalAgrees(es[i], showNumber);
      }
      assert seq(|es|, i requires 0 <= i < |es| => SerializeTotal(es[i], showNumber))
          == seq(|es|, i requires 0 <= i < |es| => Serialize(es[i], showNumber));
    case JObject(ms) =>
      forall i | 0 <= i < |ms| ensures SerializeTotal(ms[i].value, showNumber) == Serialize(ms[i].value, showNumber) {
        SerializeTotalAgrees(ms[i].value, showNumber);
      }
      assert seq(|ms|, i requires 0 <= i < |ms| =>
               Enclose(ms[i].key, "\"", "\"") + ": " + SerializeTotal(ms[i].value, showNumber))
          == seq(|ms|, i requires 0 <= i < |ms| =>
               Enclose(ms[i].key, "\"", "\"") + ": " + Serialize(ms[i].value, showNumber));
    case _ =>
  }

  /** The first character of the text names the variant, whatever the
      number printer does: `n` null, `t` or `f` a boolean, a quote a
      string, a bracket an array and a brace an object. */
  lemma SerializeRevealsType(j: Json, showNumber: Num -> string)
    requires !j.JNumber?
    ensures var r := SerializeTotal(j, showNumber);
            |r| > 0
            && (r[0] == 'n' <==> j.JNull?)
            && (r[0] == 't' <==> j == JBool(true))
            && (r[0] == 'f' <==> j == JBool(false))
            && (r[0] == '"' <==> j.JString?)
            && (r[0] == '[' <==> j.JArray?)
            && (r[0] == '{' <==> j.JObject?)
  {
  }

  /** An array's text holds its first element's text right after `[ `. */
  lemma ArrayTextStartsWithFirst(es: seq<Json>, showNumber: Num -> string)
    requires es != []
    ensures var r := SerializeTotal(JArray(es), showNumber);
            var first := SerializeTotal(es[0], showNumber);
            2 + |first| <= |r| && r[..2] == "[ " && r[2..2 + |first|] == first
  {
    var parts := seq(|es|, i requires 0 <= i < |es| => SerializeTotal(es[i], showNumber));
    JoinStartsWithFirst(parts);
    var r := SerializeTotal(JArray(es), showNumber);
    assert r == "[ " + Join(parts) + " ]";
  }
}
