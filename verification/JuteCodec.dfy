/** Reading undoes writing, for every schema; and what a read accepts is written back byte for byte
    exactly when no string length in it was negative. */
module JuteCodec {
  import opened Common
  import opened Bytes
  import opened Jute

  lemma Parts(a: seq<byte>, b: seq<byte>)
    ensures (a + b)[..|a|] == a && (a + b)[|a|..] == b
  {
  }

  lemma Signed32RoundTrip(n: int)
    requires 0 <= n < TWO_32
    ensures Unsigned32(Signed32(n)) == n
  {
  }

  lemma IntRoundTrip(i: int, rest: seq<byte>)
    requires -MAX_INT32 - 1 <= i <= MAX_INT32
    ensures DecodedInt(IntBytes(i) + rest) == Ok(i, rest)
  {
    Be32RoundTrip(Unsigned32(i));
    Parts(IntBytes(i), rest);
  }

  lemma Be64RoundTrip(n: int)
    requires 0 <= n < TWO_64
    ensures Be64Value(Be64(n)) == n
  {
    Parts(Be32(n / TWO_32), Be32(n % TWO_32));
    Be32RoundTrip(n / TWO_32);
    Be32RoundTrip(n % TWO_32);
  }

  lemma Be64Unique(b: seq<byte>)
    requires |b| == 8
    ensures Be64(Be64Value(b)) == b
  {
    Be32Unique(b[..4]);
    Be32Unique(b[4..]);
    Halves(Be32Value(b[..4]), Be32Value(b[4..]));
    assert b[..4] + b[4..] == b;
  }

  lemma Halves(high: int, low: int)
    requires 0 <= low < TWO_32
    ensures (high * TWO_32 + low) / TWO_32 == high && (high * TWO_32 + low) % TWO_32 == low
  {
  }

  lemma LongRoundTrip(l: int, rest: seq<byte>)
    requires -MAX_INT64 - 1 <= l <= MAX_INT64
    ensures DecodedLong(LongBytes(l) + rest) == Ok(l, rest)
  {
    Be64RoundTrip(Unsigned64(l));
    Parts(LongBytes(l), rest);
  }

  lemma StringRoundTrip(s: seq<byte>, rest: seq<byte>)
    requires |s| <= MAX_INT32
    ensures DecodedString(IntBytes(|s|) + s + rest) == Ok(s, rest)
  {
    Assoc(IntBytes(|s|), s, rest);
    IntRoundTrip(|s|, s + rest);
    Parts(s, rest);
    assert s == [] ==> s + rest == rest;
  }

  /** The value as a read leaves it: every bit set. */
  function Filled(v: Value): Value {
    match v
    case VVector(items) => VVector(seq(|items|, i requires 0 <= i < |items| => Filled(items[i])))
    case VRecord(fields, bits) =>
      VRecord(seq(|fields|, i requires 0 <= i < |fields| => Filled(fields[i])), AllSet(|bits|))
    case _ => v
  }

  function FilledAll(vs: seq<Value>): seq<Value> {
    seq(|vs|, i requires 0 <= i < |vs| => Filled(vs[i]))
  }

  lemma {:induction false} FilledKeepsComplete(v: Value)
    ensures Complete(v) ==> Filled(v) == v
    ensures Complete(Filled(v))
  {
    match v
    case VVector(items) =>
      forall i | 0 <= i < |items|
        ensures (Complete(items[i]) ==> Filled(items[i]) == items[i]) && Complete(Filled(items[i]))
      {
        FilledKeepsComplete(items[i]);
      }
      assert Complete(v) ==> Filled(v).items == items;
    case VRecord(fields, bits) =>
      forall i | 0 <= i < |fields|
        ensures (Complete(fields[i]) ==> Filled(fields[i]) == fields[i]) && Complete(Filled(fields[i]))
      {
        FilledKeepsComplete(fields[i]);
      }
      assert Complete(v) ==> Filled(v).fields == fields && AllSet(|bits|) == bits;
    case _ =>
  }

  /** Reading what was written gives the value, with every bit set, and exactly the bytes after it. */
  lemma {:induction false} RoundTrip(v: Value, t: Schema, rest: seq<byte>)
    requires HasSchema(v, t)
    ensures Decoded(t, Encoded(v, t) + rest) == Ok(Filled(v), rest)
    decreases v, 0
  {
    match t
    case TBool => assert ([if v.b then 1 else 0] + rest)[1..] == rest;
    case TInt => IntRoundTrip(v.i, rest);
    case TLong => LongRoundTrip(v.l, rest);
    case TString => StringRoundTrip(v.s, rest);
    case TVector(elem) =>
      Assoc(IntBytes(|v.items|), EncodedItems(v.items, elem), rest);
      IntRoundTrip(|v.items|, EncodedItems(v.items, elem) + rest);
      ItemsRoundTrip(v.items, elem, rest);
      assert Filled(v) == VVector(FilledAll(v.items));
    case TRecord(types) =>
      FieldsRoundTrip(v.fields, types, rest);
      assert Filled(v) == VRecord(FilledAll(v.fields), AllSet(|types|));
  }

  lemma FilledSplits(vs: seq<Value>)
    requires vs != []
    ensures [Filled(vs[0])] + FilledAll(vs[1..]) == FilledAll(vs)
  {
  }

  lemma {:induction false} ItemsRoundTrip(items: seq<Value>, elem: Schema, rest: seq<byte>)
    requires forall i | 0 <= i < |items| :: HasSchema(items[i], elem)
    ensures DecodedItems(elem, |items|, EncodedItems(items, elem) + rest) == Ok(FilledAll(items), rest)
    decreases items
  {
    if items == [] {
      assert [] + rest == rest && FilledAll(items) == [];
    } else {
      var later := EncodedItems(items[1..], elem) + rest;
      Assoc(Encoded(items[0], elem), EncodedItems(items[1..], elem), rest);
      RoundTrip(items[0], elem, later);
      ItemsRoundTrip(items[1..], elem, rest);
      FilledSplits(items);
      OneItemRead(elem, |items|, Encoded(items[0], elem) + later, Filled(items[0]), later, FilledAll(items[1..]), rest);
    }
  }

  lemma OneItemRead(elem: Schema, n: nat, b: seq<byte>, first: Value, later: seq<byte>, others: seq<Value>,
                    rest: seq<byte>)
    requires n > 0 && Decoded(elem, b) == Ok(first, later) && DecodedItems(elem, n - 1, later) == Ok(others, rest)
    ensures DecodedItems(elem, n, b) == Ok([first] + others, rest)
  {
  }

  lemma {:induction false} FieldsRoundTrip(fields: seq<Value>, types: seq<Schema>, rest: seq<byte>)
    requires |fields| == |types| && forall i | 0 <= i < |fields| :: HasSchema(fields[i], types[i])
    ensures DecodedFields(types, EncodedFields(fields, types) + rest) == Ok(FilledAll(fields), rest)
    decreases fields
  {
    if fields == [] {
      assert [] + rest == rest;
    } else {
      var later := EncodedFields(fields[1..], types[1..]) + rest;
      Assoc(Encoded(fields[0], types[0]), EncodedFields(fields[1..], types[1..]), rest);
      RoundTrip(fields[0], types[0], later);
      FieldsRoundTrip(fields[1..], types[1..], rest);
      FilledSplits(fields);
    }
  }

  // ----- Whatever a read accepts -----

  lemma {:induction false} ReadIsComplete(t: Schema, b: seq<byte>)
    requires Decoded(t, b).Ok?
    ensures HasSchema(Decoded(t, b).val, t) && Complete(Decoded(t, b).val)
    decreases t, 0
  {
    match t
    case TVector(elem) =>
      if DecodedInt(b).Ok? && DecodedInt(b).val >= 0 {
        ItemsAreComplete(elem, DecodedInt(b).val, DecodedInt(b).rest);
      }
    case TRecord(types) => FieldsAreComplete(types, b);
    case _ =>
  }

  lemma {:induction false} ItemsAreComplete(elem: Schema, n: nat, b: seq<byte>)
    requires DecodedItems(elem, n, b).Ok?
    ensures var vs := DecodedItems(elem, n, b).val;
            forall i | 0 <= i < |vs| :: HasSchema(vs[i], elem) && Complete(vs[i])
    decreases elem, n + 1
  {
    if n > 0 {
      ReadIsComplete(elem, b);
      ItemsAreComplete(elem, n - 1, Decoded(elem, b).rest);
    }
  }

  lemma {:induction false} FieldsAreComplete(types: seq<Schema>, b: seq<byte>)
    requires DecodedFields(types, b).Ok?
    ensures var vs := DecodedFields(types, b).val;
            forall i | 0 <= i < |vs| :: HasSchema(vs[i], types[i]) && Complete(vs[i])
    decreases types
  {
    if types != [] {
      ReadIsComplete(types[0], b);
      FieldsAreComplete(types[1..], Decoded(types[0], b).rest);
    }
  }

  lemma {:induction false} CompleteValidates(v: Value)
    requires Complete(v)
    ensures Validates(v)
  {
    if v.VRecord? {
      forall i | 0 <= i < |v.fields| ensures Validates(v.fields[i]) {
        CompleteValidates(v.fields[i]);
      }
    }
  }

  /** A value just read validates: it can be written at once. */
  lemma JustReadValidates(t: Schema, b: seq<byte>)
    requires Decoded(t, b).Ok?
    ensures Validates(Decoded(t, b).val)
  {
    ReadIsComplete(t, b);
    CompleteValidates(Decoded(t, b).val);
  }

  // ----- Writing back -----

  /** No string on the way has a negative length. */
  predicate Canonical(t: Schema, b: seq<byte>)
    decreases t, 0
  {
    match t
    case TString => DecodedInt(b).Ok? ==> DecodedInt(b).val >= 0
    case TVector(elem) =>
      DecodedInt(b).Ok? && DecodedInt(b).val >= 0 ==> CanonicalItems(elem, DecodedInt(b).val, DecodedInt(b).rest)
    case TRecord(types) => CanonicalFields(types, b)
    case _ => true
  }

  predicate CanonicalItems(elem: Schema, n: nat, b: seq<byte>)
    decreases elem, n + 1
  {
    n == 0 || (Canonical(elem, b) && (Decoded(elem, b).Ok? ==> CanonicalItems(elem, n - 1, Decoded(elem, b).rest)))
  }

  predicate CanonicalFields(types: seq<Schema>, b: seq<byte>)
    decreases types
  {
    types == []
    || (Canonical(types[0], b) && (Decoded(types[0], b).Ok? ==> CanonicalFields(types[1..], Decoded(types[0], b).rest)))
  }

  lemma IntReencodes(b: seq<byte>)
    requires DecodedInt(b).Ok?
    ensures IntBytes(DecodedInt(b).val) + DecodedInt(b).rest == b
  {
    Signed32RoundTrip(Be32Value(b[..4]));
    Be32Unique(b[..4]);
  }

  lemma LongReencodes(b: seq<byte>)
    requires DecodedLong(b).Ok?
    ensures LongBytes(DecodedLong(b).val) + DecodedLong(b).rest == b
  {
    Be64Unique(b[..8]);
  }

  lemma StringReencodes(b: seq<byte>)
    requires DecodedString(b).Ok?
    ensures |DecodedString(b).val| <= MAX_INT32
    ensures IntBytes(|DecodedString(b).val|) + DecodedString(b).val + DecodedString(b).rest == b
            <==> DecodedInt(b).val >= 0
  {
    var len, s, rest := DecodedInt(b).val, DecodedString(b).val, DecodedString(b).rest;
    IntReencodes(b);
    Assoc(IntBytes(|s|), s, rest);
    if len >= 0 {
      assert s + rest == DecodedInt(b).rest;
    } else {
      assert [] + rest == rest;
      if IntBytes(0) + rest == b {
        IntRoundTrip(0, rest);
      }
    }
  }

  /** Two encodings glued together, against the bytes they were read from. */
  lemma Glue(head: seq<byte>, tail: seq<byte>, rest: seq<byte>, middle: seq<byte>, b: seq<byte>)
    requires head + (tail + rest) == b ==> middle == tail + rest
    ensures head + tail + rest == b <==> head + middle == b && tail + rest == middle
  {
    Assoc(head, tail, rest);
  }

  /** What a read accepts is written back as the very bytes it came from exactly when no string in it
      had a negative length. */
  lemma {:induction false} Reencodes(t: Schema, b: seq<byte>)
    requires Decoded(t, b).Ok?
    ensures HasSchema(Decoded(t, b).val, t)
    ensures Encoded(Decoded(t, b).val, t) + Decoded(t, b).rest == b <==> Canonical(t, b)
    decreases t, 0
  {
    ReadIsComplete(t, b);
    match t
    case TBool => assert [b[0]] + b[1..] == b;
    case TInt => IntReencodes(b);
    case TLong => LongReencodes(b);
    case TString => StringReencodes(b);
    case TVector(elem) =>
      IntReencodes(b);
      ItemsReencode(elem, DecodedInt(b).val, DecodedInt(b).rest);
      VectorGlue(DecodedInt(b).val, EncodedItems(Decoded(t, b).val.items, elem), Decoded(t, b).rest,
                 DecodedInt(b).rest, b);
    case TRecord(types) => FieldsReencode(types, b);
  }

  lemma VectorGlue(len: nat, items: seq<byte>, rest: seq<byte>, middle: seq<byte>, b: seq<byte>)
    requires len <= MAX_INT32 && IntBytes(len) + middle == b
    ensures IntBytes(len) + items + rest == b <==> items + rest == middle
  {
    Assoc(IntBytes(len), items, rest);
    Parts(IntBytes(len), middle);
    Parts(IntBytes(len), items + rest);
  }

  lemma {:induction false} ItemsReencode(elem: Schema, n: nat, b: seq<byte>)
    requires DecodedItems(elem, n, b).Ok?
    ensures var vs := DecodedItems(elem, n, b).val; forall i | 0 <= i < |vs| :: HasSchema(vs[i], elem)
    ensures EncodedItems(DecodedItems(elem, n, b).val, elem) + DecodedItems(elem, n, b).rest == b
            <==> CanonicalItems(elem, n, b)
    decreases elem, n + 1
  {
    ItemsAreComplete(elem, n, b);
    if n == 0 {
      assert [] + b == b;
    } else {
      var first := Decoded(elem, b);
      var later := DecodedItems(elem, n - 1, first.rest);
      Reencodes(elem, b);
      ItemsReencode(elem, n - 1, first.rest);
      var head, tail := Encoded(first.val, elem), EncodedItems(later.val, elem);
      RoundTrip(first.val, elem, tail + later.rest);
      Glue(head, tail, later.rest, first.rest, b);
      OneMoreItem(elem, n, b);
    }
  }

  lemma OneMoreItem(elem: Schema, n: nat, b: seq<byte>)
    requires n > 0 && DecodedItems(elem, n, b).Ok?
    requires var vs := DecodedItems(elem, n, b).val; forall i | 0 <= i < |vs| :: HasSchema(vs[i], elem)
    ensures Decoded(elem, b).Ok? && HasSchema(Decoded(elem, b).val, elem)
    ensures var later := DecodedItems(elem, n - 1, Decoded(elem, b).rest);
            && later.Ok? && (forall i | 0 <= i < |later.val| :: HasSchema(later.val[i], elem))
            && later.rest == DecodedItems(elem, n, b).rest
            && EncodedItems(DecodedItems(elem, n, b).val, elem)
               == Encoded(Decoded(elem, b).val, elem) + EncodedItems(later.val, elem)
  {
    var first := Decoded(elem, b);
    var later := DecodedItems(elem, n - 1, first.rest);
    var vs := [first.val] + later.val;
    assert DecodedItems(elem, n, b).val == vs && vs[0] == first.val && vs[1..] == later.val;
    assert forall i | 0 <= i < |later.val| :: later.val[i] == vs[i + 1];
  }

  lemma {:induction false} FieldsReencode(types: seq<Schema>, b: seq<byte>)
    requires DecodedFields(types, b).Ok?
    ensures var vs := DecodedFields(types, b).val; forall i | 0 <= i < |vs| :: HasSchema(vs[i], types[i])
    ensures EncodedFields(DecodedFields(types, b).val, types) + DecodedFields(types, b).rest == b
            <==> CanonicalFields(types, b)
    decreases types
  {
    FieldsAreComplete(types, b);
    if types == [] {
      assert [] + b == b;
    } else {
      var first := Decoded(types[0], b);
      var later := DecodedFields(types[1..], first.rest);
      Reencodes(types[0], b);
      FieldsReencode(types[1..], first.rest);
      var head, tail := Encoded(first.val, types[0]), EncodedFields(later.val, types[1..]);
      RoundTrip(first.val, types[0], tail + later.rest);
      Glue(head, tail, later.rest, first.rest, b);
      assert ([first.val] + later.val)[1..] == later.val;
    }
  }

  /** A read string of negative length is not written back as it came. */
  lemma NegativeLengthIsLost()
    ensures var b := [255, 255, 255, 255];
            Decoded(TString, b) == Ok(VString([]), []) && Encoded(VString([]), TString) == [0, 0, 0, 0]
  {
    assert Be32Value([255, 255, 255, 255][..4]) == TWO_32 - 1;
  }

  // ----- Writing clears the bits -----

  /** The value as writing leaves it: every bit reset. */
  function Cleared(v: Value): Value {
    match v
    case VVector(items) => VVector(seq(|items|, i requires 0 <= i < |items| => Cleared(items[i])))
    case VRecord(fields, bits) =>
      VRecord(seq(|fields|, i requires 0 <= i < |fields| => Cleared(fields[i])), seq(|bits|, i => false))
    case _ => v
  }

  /** A record with a field cannot be written twice: the first time resets what validate looks at. */
  lemma SecondWriteFails(v: Value)
    requires v.VRecord? && v.bits != []
    ensures !Validates(Cleared(v))
  {
    assert !Cleared(v).bits[0];
  }

  /** The size of a Stat on the wire. */
  lemma StatSize(v: Value)
    requires HasSchema(v, STAT)
    ensures |Encoded(v, STAT)| == 68
  {
    FixedSize(v.fields, STAT.fields);
  }

  function Width(t: Schema): nat {
    if t.TInt? then 4 else 8
  }

  function Widths(types: seq<Schema>): nat {
    if types == [] then 0 else Width(types[0]) + Widths(types[1..])
  }

  lemma {:induction false} FixedSize(fields: seq<Value>, types: seq<Schema>)
    requires |fields| == |types| && forall i | 0 <= i < |fields| :: HasSchema(fields[i], types[i])
    requires forall i | 0 <= i < |types| :: types[i].TInt? || types[i].TLong?
    ensures |EncodedFields(fields, types)| == Widths(types)
    decreases |fields|
  {
    if fields != [] {
      FixedSize(fields[1..], types[1..]);
    }
  }
}
