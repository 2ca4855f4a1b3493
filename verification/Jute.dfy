/** The jute binary archive: values of any schema built from booleans, ints, longs, strings, vectors and
    records, their encoding and its inverse. */
module Jute {
  import opened Bytes

  datatype Schema =
    | TBool | TInt | TLong | TString
    | TVector(elem: Schema)
    | TRecord(fields: seq<Schema>)

  /** A record carries one bit per field, its bs_: the field has been set. */
  datatype Value =
    | VBool(b: bool)
    | VInt(i: int)
    | VLong(l: int)
    | VString(s: seq<byte>)
    | VVector(items: seq<Value>)
    | VRecord(fields: seq<Value>, bits: seq<bool>)

  const MAX_INT64: int := 0x7fff_ffff_ffff_ffff
  const TWO_64: int := 0x1_0000_0000_0000_0000

  // ----- A record of the protocol, as an instance -----

  const STAT := TRecord([TLong, TLong, TLong, TLong, TInt, TInt, TInt, TLong, TInt, TInt, TLong])

  /** The value has the type the schema describes. */
  ghost predicate HasSchema(v: Value, t: Schema)
    decreases v
  {
    match t
    case TBool => v.VBool?
    case TInt => v.VInt? && -MAX_INT32 - 1 <= v.i <= MAX_INT32
    case TLong => v.VLong? && -MAX_INT64 - 1 <= v.l <= MAX_INT64
    case TString => v.VString? && |v.s| <= MAX_INT32
    case TVector(elem) =>
      v.VVector? && |v.items| <= MAX_INT32 && forall i | 0 <= i < |v.items| :: HasSchema(v.items[i], elem)
    case TRecord(fields) =>
      && v.VRecord? && |v.fields| == |fields| == |v.bits|
      && forall i | 0 <= i < |fields| :: HasSchema(v.fields[i], fields[i])
  }

  /** validate: every bit is set, here and in the records that are fields. Items of vectors are not
      looked at. */
  predicate Validates(v: Value) {
    match v
    case VRecord(fields, bits) =>
      (forall i | 0 <= i < |bits| :: bits[i]) && (forall i | 0 <= i < |fields| :: Validates(fields[i]))
    case _ => true
  }

  /** Every record inside has every bit set. */
  ghost predicate Complete(v: Value) {
    match v
    case VVector(items) => forall i | 0 <= i < |items| :: Complete(items[i])
    case VRecord(fields, bits) =>
      (forall i | 0 <= i < |bits| :: bits[i]) && (forall i | 0 <= i < |fields| :: Complete(fields[i]))
    case _ => true
  }

  // ----- Bytes of a value -----

  function Unsigned64(l: int): (n: int)
    requires -MAX_INT64 - 1 <= l <= MAX_INT64
    ensures 0 <= n < TWO_64
  {
    if l >= 0 then l else l + TWO_64
  }

  function Signed64(n: int): (l: int)
    requires 0 <= n < TWO_64
    ensures -MAX_INT64 - 1 <= l <= MAX_INT64
  {
    if n <= MAX_INT64 then n else n - TWO_64
  }

  function Be64(n: int): (b: seq<byte>)
    requires 0 <= n < TWO_64
    ensures |b| == 8
  {
    Be32(n / TWO_32) + Be32(n % TWO_32)
  }

  function Be64Value(b: seq<byte>): (n: int)
    requires |b| == 8
    ensures 0 <= n < TWO_64
  {
    Be32Value(b[..4]) * TWO_32 + Be32Value(b[4..])
  }

  lemma HighDigits(n: nat)
    ensures n / TWO_32 / 0x100_0000 == n / 0x100_0000_0000_0000
    ensures n / TWO_32 / 0x1_0000 == n / 0x1_0000_0000_0000
    ensures n / TWO_32 / 0x100 == n / 0x100_0000_0000
  {
  }

  lemma Digit3(high: nat, low: nat)
    ensures (high * TWO_32 + low) / 0x100_0000 % 256 == low / 0x100_0000 % 256
  {
    var q := high * 0x100 + low / 0x100_0000;
    assert high * TWO_32 + low == q * 0x100_0000 + low % 0x100_0000;
    assert (high * TWO_32 + low) / 0x100_0000 == q;
  }

  lemma Digit2(high: nat, low: nat)
    ensures (high * TWO_32 + low) / 0x1_0000 % 256 == low / 0x1_0000 % 256
  {
    var q := high * 0x1_0000 + low / 0x1_0000;
    assert high * TWO_32 + low == q * 0x1_0000 + low % 0x1_0000;
    assert (high * TWO_32 + low) / 0x1_0000 == q;
  }

  lemma Digit1(high: nat, low: nat)
    ensures (high * TWO_32 + low) / 0x100 % 256 == low / 0x100 % 256
    ensures (high * TWO_32 + low) % 256 == low % 256
  {
    var q := high * 0x100_0000 + low / 0x100;
    assert high * TWO_32 + low == q * 0x100 + low % 0x100;
    assert (high * TWO_32 + low) / 0x100 == q;
  }

  lemma FirstFour(n: int, i: nat)
    requires 0 <= n < TWO_64 && i < 4
    ensures n / TWO_32 / Weight(3 - i) == n / Weight(7 - i)
  {
    Weights();
    HighDigits(n);
  }

  lemma LastFour(n: int, i: nat)
    requires 0 <= n < TWO_64 && 4 <= i < 8
    ensures n % TWO_32 / Weight(7 - i) % 256 == n / Weight(7 - i) % 256
  {
    Weights();
    var high, low := n / TWO_32, n % TWO_32;
    assert n == high * TWO_32 + low;
    Digit3(high, low);
    Digit2(high, low);
    Digit1(high, low);
  }

  /** Byte i of eight is the digit with 7 - i bytes behind it. */
  lemma Be64Digits(n: int, i: nat)
    requires 0 <= n < TWO_64 && i < 8
    ensures Be64(n)[i] as int == n / Weight(7 - i) % 256
  {
    if i < 4 {
      FirstFour(n, i);
      Be32Digits(n / TWO_32, i);
    } else {
      LastFour(n, i);
      Be32Digits(n % TWO_32, i - 4);
    }
  }

  /** 256 times as many of the next weight. */
  lemma HighWraps(l: int)
    ensures (l + TWO_64) / 0x100_0000_0000_0000 == l / 0x100_0000_0000_0000 + 0x100
    ensures (l + TWO_64) / 0x1_0000_0000_0000 == l / 0x1_0000_0000_0000 + 0x1_0000
    ensures (l + TWO_64) / 0x100_0000_0000 == l / 0x100_0000_0000 + 0x100_0000
    ensures (l + TWO_64) / TWO_32 == l / TWO_32 + TWO_32
  {
  }

  lemma LowWraps(l: int)
    ensures (l + TWO_64) / 0x100_0000 == l / 0x100_0000 + 0x100_0000_0000
    ensures (l + TWO_64) / 0x1_0000 == l / 0x1_0000 + 0x1_0000_0000_0000
    ensures (l + TWO_64) / 0x100 == l / 0x100 + 0x100_0000_0000_0000
  {
  }

  lemma Wraps64(l: int, i: nat)
    requires i < 8
    ensures (l + TWO_64) / Weight(7 - i) == l / Weight(7 - i) + 256 * Weight(i)
  {
    Weights();
    if i < 4 {
      HighWraps(l);
    } else {
      LowWraps(l);
    }
  }

  /** The bytes of a long, negative or not: two's complement, the most significant byte first. */
  lemma LongDigits(l: int, i: nat)
    requires -MAX_INT64 - 1 <= l <= MAX_INT64 && i < 8
    ensures LongBytes(l)[i] as int == l / Weight(7 - i) % 256
  {
    Be64Digits(Unsigned64(l), i);
    Wraps64(l, i);
    SameDigit(l / Weight(7 - i), Weight(i));
  }

  function IntBytes(i: int): (b: seq<byte>)
    requires -MAX_INT32 - 1 <= i <= MAX_INT32
    ensures |b| == 4
  {
    Be32(Unsigned32(i))
  }

  function LongBytes(l: int): (b: seq<byte>)
    requires -MAX_INT64 - 1 <= l <= MAX_INT64
    ensures |b| == 8
  {
    Be64(Unsigned64(l))
  }

  function Encoded(v: Value, ghost t: Schema): seq<byte>
    requires HasSchema(v, t)
    decreases v
  {
    match v
    case VBool(b) => [if b then 1 else 0]
    case VInt(i) => IntBytes(i)
    case VLong(l) => LongBytes(l)
    case VString(s) => IntBytes(|s|) + s
    case VVector(items) => IntBytes(|items|) + EncodedItems(items, t.elem)
    case VRecord(fields, _) => EncodedFields(fields, t.fields)
  }

  function EncodedItems(items: seq<Value>, ghost elem: Schema): seq<byte>
    requires forall i | 0 <= i < |items| :: HasSchema(items[i], elem)
    decreases items
  {
    if items == [] then [] else Encoded(items[0], elem) + EncodedItems(items[1..], elem)
  }

  function EncodedFields(fields: seq<Value>, ghost types: seq<Schema>): seq<byte>
    requires |fields| == |types| && forall i | 0 <= i < |fields| :: HasSchema(fields[i], types[i])
    decreases fields
  {
    if fields == [] then [] else Encoded(fields[0], types[0]) + EncodedFields(fields[1..], types[1..])
  }

  // ----- Reading -----

  datatype Result<T> = Ok(val: T, rest: seq<byte>) | Fail

  function DecodedInt(b: seq<byte>): Result<int> {
    if |b| < 4 then Fail else Ok(Signed32(Be32Value(b[..4])), b[4..])
  }

  function DecodedLong(b: seq<byte>): Result<int> {
    if |b| < 8 then Fail else Ok(Signed64(Be64Value(b[..8])), b[8..])
  }

  /** A length that is not positive gives the empty string. */
  function DecodedString(b: seq<byte>): Result<seq<byte>> {
    match DecodedInt(b)
    case Fail => Fail
    case Ok(len, rest) =>
      if len <= 0 then Ok([], rest) else if |rest| < len then Fail else Ok(rest[..len], rest[len..])
  }

  function AllSet(n: nat): (bits: seq<bool>)
    ensures |bits| == n && forall i | 0 <= i < n :: bits[i]
  {
    seq(n, i => true)
  }

  function Decoded(t: Schema, b: seq<byte>): Result<Value>
    decreases t, 0
  {
    match t
    case TBool => if |b| == 0 || b[0] > 1 then Fail else Ok(VBool(b[0] == 1), b[1..])
    case TInt => (match DecodedInt(b) case Fail => Fail case Ok(i, rest) => Ok(VInt(i), rest))
    case TLong => (match DecodedLong(b) case Fail => Fail case Ok(l, rest) => Ok(VLong(l), rest))
    case TString => (match DecodedString(b) case Fail => Fail case Ok(s, rest) => Ok(VString(s), rest))
    case TVector(elem) =>
      (match DecodedInt(b)
       case Fail => Fail
       case Ok(len, rest) =>
         if len < 0 then Fail
         else
           match DecodedItems(elem, len, rest)
           case Fail => Fail
           case Ok(items, rest') => Ok(VVector(items), rest'))
    case TRecord(fields) =>
      match DecodedFields(fields, b)
      case Fail => Fail
      case Ok(vs, rest) => Ok(VRecord(vs, AllSet(|fields|)), rest)
  }

  function DecodedItems(elem: Schema, n: nat, b: seq<byte>): (r: Result<seq<Value>>)
    ensures r.Ok? ==> |r.val| == n
    decreases elem, n + 1
  {
    if n == 0 then Ok([], b)
    else
      match Decoded(elem, b)
      case Fail => Fail
      case Ok(v, rest) =>
        match DecodedItems(elem, n - 1, rest)
        case Fail => Fail
        case Ok(vs, rest') => Ok([v] + vs, rest')
  }

  function DecodedFields(types: seq<Schema>, b: seq<byte>): (r: Result<seq<Value>>)
    ensures r.Ok? ==> |r.val| == |types|
    decreases types
  {
    if types == [] then Ok([], b)
    else
      match Decoded(types[0], b)
      case Fail => Fail
      case Ok(v, rest) =>
        match DecodedFields(types[1..], rest)
        case Fail => Fail
        case Ok(vs, rest') => Ok([v] + vs, rest')
  }
}
