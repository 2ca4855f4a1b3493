/** Which bytes a value is written as: in what order its parts stand, and the digits of its numbers. */
module JuteLayout {
  import opened Bytes
  import opened Common
  import opened Jute

  /** The first bytes are the number's digits in base 256, the most significant first; a negative
      number's are those of its two's complement. */
  ghost predicate StartsWith(b: seq<byte>, count: nat, n: int) {
    count <= |b| && forall i | 0 <= i < count :: b[i] as int == n / Weight(count - 1 - i) % 256
  }

  lemma IntDigits(i: int)
    requires -MAX_INT32 - 1 <= i <= MAX_INT32
    ensures StartsWith(IntBytes(i), 4, i)
  {
    forall k | 0 <= k < 4 ensures IntBytes(i)[k] as int == i / Weight(4 - 1 - k) % 256 {
      SignedDigits(i, k);
    }
  }

  lemma Longs(l: int)
    requires -MAX_INT64 - 1 <= l <= MAX_INT64
    ensures StartsWith(LongBytes(l), 8, l)
  {
    forall k | 0 <= k < 8 ensures LongBytes(l)[k] as int == l / Weight(8 - 1 - k) % 256 {
      LongDigits(l, k);
    }
  }

  /** One byte for a boolean, four for an int, eight for a long, and a length of four bytes before the bytes
      of a string and the items of a vector. */
  lemma Shapes(v: Value, t: Schema)
    requires HasSchema(v, t)
    ensures v.VBool? ==> Encoded(v, t) == [if v.b then 1 else 0]
    ensures v.VInt? ==> |Encoded(v, t)| == 4 && StartsWith(Encoded(v, t), 4, v.i)
    ensures v.VLong? ==> |Encoded(v, t)| == 8 && StartsWith(Encoded(v, t), 8, v.l)
    ensures v.VString? ==>
              |Encoded(v, t)| == 4 + |v.s| && StartsWith(Encoded(v, t), 4, |v.s|) && Encoded(v, t)[4..] == v.s
    ensures v.VVector? ==>
              && |Encoded(v, t)| == 4 + |EncodedItems(v.items, t.elem)| && StartsWith(Encoded(v, t), 4, |v.items|)
              && Encoded(v, t)[4..] == EncodedItems(v.items, t.elem)
  {
    match v {
      case VBool(_) =>
      case VInt(i) => IntDigits(i);
      case VLong(l) => Longs(l);
      case VString(s) =>
        IntDigits(|s|);
        LengthFirst(|s|, s);
      case VVector(items) =>
        IntDigits(|items|);
        LengthFirst(|items|, EncodedItems(items, t.elem));
      case VRecord(_, _) =>
    }
  }

  lemma LengthFirst(n: int, later: seq<byte>)
    requires 0 <= n <= MAX_INT32 && StartsWith(IntBytes(n), 4, n)
    ensures var b := IntBytes(n) + later; StartsWith(b, 4, n) && b[4..] == later
  {
    var b := IntBytes(n) + later;
    forall i | 0 <= i < 4 ensures b[i] as int == n / Weight(4 - 1 - i) % 256 {
      assert b[i] == IntBytes(n)[i];
    }
  }

  /** Items stand one behind the other, in their order. */
  lemma {:induction false} ItemsInOrder(items: seq<Value>, elem: Schema, k: nat)
    requires k < |items| && forall i | 0 <= i < |items| :: HasSchema(items[i], elem)
    ensures EncodedItems(items, elem)
            == EncodedItems(items[..k], elem) + (Encoded(items[k], elem) + EncodedItems(items[k + 1..], elem))
    decreases k
  {
    if k == 0 {
      assert items[..0] == [];
      Nothing(Encoded(items[0], elem) + EncodedItems(items[1..], elem));
    } else {
      ItemsInOrder(items[1..], elem, k - 1);
      assert items[1..][..k - 1] == items[..k][1..] && items[1..][k..] == items[k + 1..];
      Assoc(Encoded(items[0], elem), EncodedItems(items[..k][1..], elem),
              Encoded(items[k], elem) + EncodedItems(items[k + 1..], elem));
    }
  }

  /** And so do the fields of a record, in the order of the schema. */
  lemma {:induction false} FieldsInOrder(fields: seq<Value>, types: seq<Schema>, k: nat)
    requires |fields| == |types| && k < |fields| && forall i | 0 <= i < |fields| :: HasSchema(fields[i], types[i])
    ensures EncodedFields(fields, types)
            == EncodedFields(fields[..k], types[..k])
               + (Encoded(fields[k], types[k]) + EncodedFields(fields[k + 1..], types[k + 1..]))
    decreases k
  {
    if k == 0 {
      assert fields[..0] == [];
      Nothing(Encoded(fields[0], types[0]) + EncodedFields(fields[1..], types[1..]));
    } else {
      FieldsInOrder(fields[1..], types[1..], k - 1);
      assert fields[1..][..k - 1] == fields[..k][1..] && fields[1..][k..] == fields[k + 1..];
      assert types[1..][..k - 1] == types[..k][1..] && types[1..][k..] == types[k + 1..];
      Assoc(Encoded(fields[0], types[0]), EncodedFields(fields[..k][1..], types[..k][1..]),
              Encoded(fields[k], types[k]) + EncodedFields(fields[k + 1..], types[k + 1..]));
    }
  }

  lemma Nothing(b: seq<byte>)
    ensures [] + b == b
  {
  }
}
