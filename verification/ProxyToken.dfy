/** The JSON form of a proxy user token. */
module ProxyToken {
  import opened Common
  import opened Json
  import JsonInput
  import JsonRoundTrip

  /** An optional field is set exactly when it is Some. */
  datatype X509Info = X509Info(subject: string, issuer: Option<string>)

  datatype ProxyUserToken = ProxyUserToken(
    x509: X509Info,
    issuedBy: string,
    issuedTo: string,
    issuedFor: Option<string>,
    notAfter: int,
    notBefore: Option<int>)

  datatype Failure = NotJson | NotAnObject | BadField(name: string)

  datatype Outcome = Ok(token: ProxyUserToken) | Failed(why: Failure)

  const X509 := "x509"
  const SUBJECT := "subject"
  const ISSUER := "issuer"
  const ISSUED_BY := "issuedBy"
  const ISSUED_TO := "issuedTo"
  const ISSUED_FOR := "issuedFor"
  const NOT_AFTER := "notAfter"
  const NOT_BEFORE := "notBefore"

  predicate InInt64(n: int) {
    INT64_MIN <= n <= INT64_MAX
  }

  /** What the Thrift type of a token guarantees. */
  predicate WellTyped(t: ProxyUserToken) {
    InInt64(t.notAfter) && (t.notBefore.Some? ==> InInt64(t.notBefore.value))
  }

  // ----- Writing -----

  /** A field to assign, or to leave out. */
  datatype Field = Field(key: string, value: Option<Value>)

  /** The object after the first `n` assignments. */
  function Assigned(fields: seq<Field>, n: nat): seq<Member>
    requires n <= |fields|
  {
    if n == 0 then []
    else if fields[n - 1].value.None? then Assigned(fields, n - 1)
    else Put(Assigned(fields, n - 1), fields[n - 1].key, fields[n - 1].value.value)
  }

  function OptionalString(s: Option<string>): Option<Value> {
    if s.Some? then Some(Str(s.value)) else None
  }

  function OptionalInt(n: Option<int>): Option<Value> {
    if n.Some? then Some(Int(n.value)) else None
  }

  function X509Fields(x: X509Info): seq<Field> {
    [Field(SUBJECT, Some(Str(x.subject))), Field(ISSUER, OptionalString(x.issuer))]
  }

  function X509Value(x: X509Info): Value {
    Obj(Assigned(X509Fields(x), 2))
  }

  function TokenFields(t: ProxyUserToken): seq<Field> {
    [Field(X509, Some(X509Value(t.x509))), Field(ISSUED_BY, Some(Str(t.issuedBy))),
     Field(ISSUED_TO, Some(Str(t.issuedTo))), Field(NOT_AFTER, Some(Int(t.notAfter))),
     Field(ISSUED_FOR, OptionalString(t.issuedFor)), Field(NOT_BEFORE, OptionalInt(t.notBefore))]
  }

  function TokenValue(t: ProxyUserToken): Value {
    Obj(Assigned(TokenFields(t), 6))
  }

  method SerializeX509(x: X509Info) returns (members: seq<Member>)
    ensures Obj(members) == X509Value(x)
  {
    ghost var fields := X509Fields(x);
    members := Put([], SUBJECT, Str(x.subject));
    assert Assigned(fields, 0) == [];
    assert members == Assigned(fields, 1);
    if x.issuer.Some? {
      members := Put(members, ISSUER, Str(x.issuer.value));
    }
    assert members == Assigned(fields, 2);
  }

  method SerializeProxyUserTokenToJson(token: ProxyUserToken) returns (text: string)
    ensures text == Serialized(TokenValue(token), -1)
  {
    ghost var fields := TokenFields(token);
    var x509 := SerializeX509(token.x509);
    var members := Put([], X509, Obj(x509));
    assert Assigned(fields, 0) == [];
    assert members == Assigned(fields, 1);
    members := Put(members, ISSUED_BY, Str(token.issuedBy));
    assert members == Assigned(fields, 2);
    members := Put(members, ISSUED_TO, Str(token.issuedTo));
    assert members == Assigned(fields, 3);
    members := Put(members, NOT_AFTER, Int(token.notAfter));
    assert members == Assigned(fields, 4);
    if token.issuedFor.Some? {
      members := Put(members, ISSUED_FOR, Str(token.issuedFor.value));
    }
    assert members == Assigned(fields, 5);
    if token.notBefore.Some? {
      members := Put(members, NOT_BEFORE, Int(token.notBefore.value));
    }
    assert members == Assigned(fields, 6);
    var sink := new JsonInput.Sink();
    sink.Serialize(Obj(members), -1);
    text := sink.out;
    assert "" + Serialized(TokenValue(token), -1) == Serialized(TokenValue(token), -1);
  }

  // ----- Reading -----

  /** Required fields in the order in which they are checked; the first bad one is reported. */
  function X509Of(v: Value): Outcome {
    if !v.Obj? then Failed(BadField(X509))
    else if !Get(v.members, SUBJECT).Str? then Failed(BadField(SUBJECT))
    else if !Get(v.members, ISSUER).Null? && !Get(v.members, ISSUER).Str? then Failed(BadField(ISSUER))
    else
      var issuer := Get(v.members, ISSUER);
      Ok(ProxyUserToken(X509Info(Get(v.members, SUBJECT).s, if issuer.Str? then Some(issuer.s) else None),
                        "", "", None, 0, None))
  }

  function TokenOf(v: Value): Outcome {
    if !v.Obj? then Failed(NotAnObject)
    else
      var issuedBy, issuedTo, issuedFor := Get(v.members, ISSUED_BY), Get(v.members, ISSUED_TO),
          Get(v.members, ISSUED_FOR);
      var notAfter, notBefore := Get(v.members, NOT_AFTER), Get(v.members, NOT_BEFORE);
      if !issuedBy.Str? then Failed(BadField(ISSUED_BY))
      else if !issuedTo.Str? then Failed(BadField(ISSUED_TO))
      else if !issuedFor.Null? && !issuedFor.Str? then Failed(BadField(ISSUED_FOR))
      else if !notAfter.Int? then Failed(BadField(NOT_AFTER))
      else if !notBefore.Null? && !notBefore.Int? then Failed(BadField(NOT_BEFORE))
      else
        match X509Of(Get(v.members, X509))
        case Failed(why) => Failed(why)
        case Ok(t) =>
          Ok(ProxyUserToken(t.x509, issuedBy.s, issuedTo.s, if issuedFor.Str? then Some(issuedFor.s) else None,
                            notAfter.n, if notBefore.Int? then Some(notBefore.n) else None))
  }

  function Deserialized(text: string): Outcome {
    var r := ParseValue(text);
    if r.ok then TokenOf(r.val) else Failed(NotJson)
  }

  method DeserializeProxyUserToken(text: string) returns (r: Outcome)
    ensures r == Deserialized(text)
  {
    var token := ProxyUserToken(X509Info("", None), "", "", None, 0, None);
    var inp := new JsonInput.Input(text);
    var ok, v := inp.Parse(JsonInput.Build);
    if !ok {
      return Failed(NotJson);
    }
    if !v.Obj? {
      return Failed(NotAnObject);
    }
    var issuedBy := Get(v.members, ISSUED_BY);
    if !issuedBy.Str? {
      return Failed(BadField(ISSUED_BY));
    }
    token := token.(issuedBy := issuedBy.s);
    var issuedTo := Get(v.members, ISSUED_TO);
    if !issuedTo.Str? {
      return Failed(BadField(ISSUED_TO));
    }
    token := token.(issuedTo := issuedTo.s);
    var issuedFor := Get(v.members, ISSUED_FOR);
    if !issuedFor.Null? {
      if !issuedFor.Str? {
        return Failed(BadField(ISSUED_FOR));
      }
      token := token.(issuedFor := Some(issuedFor.s));
    }
    var notAfter := Get(v.members, NOT_AFTER);
    if !notAfter.Int? {
      return Failed(BadField(NOT_AFTER));
    }
    token := token.(notAfter := notAfter.n);
    var notBefore := Get(v.members, NOT_BEFORE);
    if !notBefore.Null? {
      if !notBefore.Int? {
        return Failed(BadField(NOT_BEFORE));
      }
      token := token.(notBefore := Some(notBefore.n));
    }
    var x509 := Get(v.members, X509);
    if !x509.Obj? {
      return Failed(BadField(X509));
    }
    var subject := Get(x509.members, SUBJECT);
    if !subject.Str? {
      return Failed(BadField(SUBJECT));
    }
    token := token.(x509 := X509Info(subject.s, None));
    var issuer := Get(x509.members, ISSUER);
    if !issuer.Null? {
      if !issuer.Str? {
        return Failed(BadField(ISSUER));
      }
      token := token.(x509 := X509Info(subject.s, Some(issuer.s)));
    }
    return Ok(token);
  }

  // ----- Round trip -----

  ghost predicate DistinctKeys(fields: seq<Field>) {
    forall i, j | 0 <= i < j < |fields| :: fields[i].key != fields[j].key
  }

  lemma {:induction false} AssignedSorted(fields: seq<Field>, n: nat)
    requires n <= |fields|
    ensures Sorted(Assigned(fields, n))
  {
    if n > 0 {
      AssignedSorted(fields, n - 1);
      if fields[n - 1].value.Some? {
        JsonRoundTrip.PutSorted(Assigned(fields, n - 1), fields[n - 1].key, fields[n - 1].value.value);
      }
    }
  }

  /** Reading a key after `n` assignments gives its last assigned value, or null. */
  lemma {:induction false} GetAssigned(fields: seq<Field>, n: nat, i: nat)
    requires DistinctKeys(fields) && i < |fields| && n <= |fields|
    ensures Get(Assigned(fields, n), fields[i].key)
            == if i < n && fields[i].value.Some? then fields[i].value.value else Null
  {
    if n > 0 {
      var ms, last := Assigned(fields, n - 1), fields[n - 1];
      GetAssigned(fields, n - 1, i);
      if last.value.Some? {
        AssignedSorted(fields, n - 1);
        JsonRoundTrip.GetPut(ms, last.key, last.value.value, fields[i].key);
        assert i < n - 1 ==> fields[i].key != last.key;
        assert i > n - 1 ==> last.key != fields[i].key;
      }
    }
  }

  lemma {:induction false} AssignedPrintable(fields: seq<Field>, n: nat)
    requires DistinctKeys(fields) && n <= |fields|
    requires forall i | 0 <= i < |fields| && fields[i].value.Some? :: Printable(fields[i].value.value)
    ensures Printable(Obj(Assigned(fields, n)))
  {
    if n > 0 {
      AssignedPrintable(fields, n - 1);
      AssignedSorted(fields, n - 1);
      if fields[n - 1].value.Some? {
        var ms := Assigned(fields, n - 1);
        JsonRoundTrip.PutSorted(ms, fields[n - 1].key, fields[n - 1].value.value);
        forall i | 0 <= i < |Assigned(fields, n)| ensures Printable(Assigned(fields, n)[i].value) {
          assert Assigned(fields, n)[i] in ms ==> exists j | 0 <= j < |ms| :: ms[j] == Assigned(fields, n)[i];
        }
      }
    }
  }

  lemma KeysAreDistinct(t: ProxyUserToken)
    ensures DistinctKeys(TokenFields(t)) && DistinctKeys(X509Fields(t.x509))
  {
    assert ISSUED_BY[6] != ISSUED_TO[6] && ISSUED_BY[0] != NOT_AFTER[0];
    assert ISSUED_FOR[0] != NOT_BEFORE[0] && ISSUED_TO[0] != NOT_AFTER[0];
    assert |X509| == 4 && |SUBJECT| == 7 && |ISSUER| == 6;
  }

  lemma TokenIsPrintable(t: ProxyUserToken)
    requires WellTyped(t)
    ensures Printable(TokenValue(t))
  {
    KeysAreDistinct(t);
    AssignedPrintable(X509Fields(t.x509), 2);
    AssignedPrintable(TokenFields(t), 6);
  }

  lemma X509RoundTrip(x: X509Info)
    ensures X509Of(X509Value(x)) == Ok(ProxyUserToken(x, "", "", None, 0, None))
  {
    var fields := X509Fields(x);
    KeysAreDistinct(ProxyUserToken(x, "", "", None, 0, None));
    GetAssigned(fields, 2, 0);
    GetAssigned(fields, 2, 1);
    assert fields[0].key == SUBJECT && fields[1].key == ISSUER;
  }

  lemma TokenOfValue(t: ProxyUserToken)
    ensures TokenOf(TokenValue(t)) == Ok(t)
  {
    var fields := TokenFields(t);
    KeysAreDistinct(t);
    forall i | 0 <= i < 6
      ensures Get(Assigned(fields, 6), fields[i].key) == if fields[i].value.Some? then fields[i].value.value else Null
    {
      GetAssigned(fields, 6, i);
    }
    assert fields[0].key == X509 && fields[1].key == ISSUED_BY && fields[2].key == ISSUED_TO;
    assert fields[3].key == NOT_AFTER && fields[4].key == ISSUED_FOR && fields[5].key == NOT_BEFORE;
    X509RoundTrip(t.x509);
  }

  /** A token comes back from its own text, with the same optional fields set, whatever follows it. */
  lemma TokenRoundTrip(t: ProxyUserToken, rest: string)
    requires WellTyped(t)
    ensures Deserialized(Serialized(TokenValue(t), -1) + rest) == Ok(t)
  {
    TokenIsPrintable(t);
    JsonRoundTrip.RoundTrip(TokenValue(t), false, rest);
    TokenOfValue(t);
  }

  lemma {:induction false} GetIsWellFormed(ms: seq<Member>, key: string)
    requires forall i | 0 <= i < |ms| :: JsonRoundTrip.WellFormed(ms[i].value)
    ensures JsonRoundTrip.WellFormed(Get(ms, key))
  {
    if ms != [] && ms[0].key != key {
      GetIsWellFormed(ms[1..], key);
    }
  }

  /** Whatever text a token was accepted from, its own text gives the same token again: fields that
      were null, unknown or in another order make no difference. */
  lemma Reread(text: string)
    requires Deserialized(text).Ok?
    ensures WellTyped(Deserialized(text).token)
    ensures Deserialized(Serialized(TokenValue(Deserialized(text).token), -1)) == Deserialized(text)
  {
    var t, v := Deserialized(text).token, ParseValue(text).val;
    JsonRoundTrip.ParsedIsWellFormed(text);
    GetIsWellFormed(v.members, NOT_AFTER);
    GetIsWellFormed(v.members, NOT_BEFORE);
    TokenRoundTrip(t, "");
    assert Serialized(TokenValue(t), -1) + "" == Serialized(TokenValue(t), -1);
  }

  // ----- The members by their names -----

  /** Reading a token's object: required members are strings, the expiry an integer; the optional ones are
      null, which is what an absent member reads as, or of the right kind. */
  predicate IsRight(kind: Kind, v: Value) {
    match kind
    case Text => v.Str?
    case OptionalText => v.Null? || v.Str?
    case Number => v.Int?
    case OptionalNumber => v.Null? || v.Int?
    case Nested => v.Obj?
  }

  datatype Kind = Text | OptionalText | Number | OptionalNumber | Nested

  datatype Check = Check(name: string, kind: Kind)

  /** The members in the order in which they are looked at; the last two are those of the nested object. */
  const CHECKS := [
    Check("issuedBy", Text), Check("issuedTo", Text), Check("issuedFor", OptionalText), Check("notAfter", Number),
    Check("notBefore", OptionalNumber), Check("x509", Nested), Check("subject", Text), Check("issuer", OptionalText)]

  /** The value a check looks at; the nested object's members count as null until there is one. */
  function Looked(ms: seq<Member>, k: nat): Value
    requires k < 8
  {
    if k < 6 then Get(ms, CHECKS[k].name)
    else
      var x509 := Get(ms, "x509");
      if x509.Obj? then Get(x509.members, CHECKS[k].name) else Null
  }

  predicate Passes(ms: seq<Member>, k: nat)
    requires k < 8
  {
    IsRight(CHECKS[k].kind, Looked(ms, k))
  }

  /** A text is accepted exactly when it is an object all of whose members are right; otherwise the first
      wrong one is named. */
  lemma AcceptedIff(v: Value)
    ensures !v.Obj? ==> TokenOf(v) == Failed(NotAnObject)
    ensures v.Obj? ==> (TokenOf(v).Ok? <==> forall k | 0 <= k < 8 :: Passes(v.members, k))
    ensures v.Obj? && !TokenOf(v).Ok? ==>
              exists k | 0 <= k < 8 :: !Passes(v.members, k) && (forall i | 0 <= i < k :: Passes(v.members, i))
                                       && TokenOf(v) == Failed(BadField(CHECKS[k].name))
  {
    if v.Obj? {
      var ms := v.members;
      var k := if !Passes(ms, 0) then 0 else if !Passes(ms, 1) then 1 else if !Passes(ms, 2) then 2
               else if !Passes(ms, 3) then 3 else if !Passes(ms, 4) then 4 else if !Passes(ms, 5) then 5
               else if !Passes(ms, 6) then 6 else 7;
      assert forall i | 0 <= i < k :: Passes(ms, i);
      assert (forall i | 0 <= i < 8 :: Passes(ms, i)) ==>
          Passes(ms, 0) && Passes(ms, 1) && Passes(ms, 2) && Passes(ms, 3) && Passes(ms, 4) && Passes(ms, 5)
          && Passes(ms, 6) && Passes(ms, 7);
    }
  }

  /** The fields of an accepted token are its members; an optional one is set when its member is not null. */
  lemma AcceptedFields(v: Value)
    requires TokenOf(v).Ok?
    ensures var t, ms := TokenOf(v).token, v.members;
            && Get(ms, "issuedBy") == Str(t.issuedBy) && Get(ms, "issuedTo") == Str(t.issuedTo)
            && Get(ms, "issuedFor") == (if t.issuedFor.Some? then Str(t.issuedFor.value) else Null)
            && Get(ms, "notAfter") == Int(t.notAfter)
            && Get(ms, "notBefore") == (if t.notBefore.Some? then Int(t.notBefore.value) else Null)
            && Get(ms, "x509").Obj?
            && var inner := Get(ms, "x509").members;
               && Get(inner, "subject") == Str(t.x509.subject)
               && Get(inner, "issuer") == if t.x509.issuer.Some? then Str(t.x509.issuer.value) else Null
  {
  }

  lemma {:induction false} AssignedKeys(fields: seq<Field>, n: nat)
    requires n <= |fields|
    ensures forall m | m in Assigned(fields, n) :: exists i | 0 <= i < n :: fields[i].key == m.key
  {
    if n > 0 {
      AssignedKeys(fields, n - 1);
      AssignedSorted(fields, n - 1);
      var ms, last := Assigned(fields, n - 1), fields[n - 1];
      if last.value.Some? {
        JsonRoundTrip.PutSorted(ms, last.key, last.value.value);
        forall m | m in Assigned(fields, n) ensures exists i | 0 <= i < n :: fields[i].key == m.key {
          assert m in ms || m == Member(last.key, last.value.value);
        }
      }
    }
  }

  /** What is written: these members and no others, in map order; nothing for an unset field. */
  lemma WrittenMembers(t: ProxyUserToken)
    ensures var ms := TokenValue(t).members;
            && Sorted(ms) && TokenOf(TokenValue(t)) == Ok(t)
            && forall m | m in ms :: m.key in {"issuedBy", "issuedTo", "issuedFor", "notAfter", "notBefore", "x509"}
  {
    AssignedSorted(TokenFields(t), 6);
    AssignedKeys(TokenFields(t), 6);
    TokenOfValue(t);
  }

  lemma WrittenX509(t: ProxyUserToken)
    ensures var inner := X509Value(t.x509).members;
            && Sorted(inner) && Get(TokenValue(t).members, "x509") == Obj(inner)
            && forall m | m in inner :: m.key in {"subject", "issuer"}
  {
    AssignedSorted(X509Fields(t.x509), 2);
    AssignedKeys(X509Fields(t.x509), 2);
    KeysAreDistinct(t);
    GetAssigned(TokenFields(t), 6, 0);
  }
}
