/** The archives as the program runs them: streams that advance, byte swapping in place, loops over the
    items of a vector. */
module JuteArchive {
  import opened Common
  import opened Bytes
  import opened Jute
  import opened JuteCodec

  class OutStream {
    var bytes: seq<byte>

    constructor ()
      ensures bytes == []
    {
      bytes := [];
    }

    method Write(data: seq<byte>)
      modifies this
      ensures bytes == old(bytes) + data
    {
      bytes := bytes + data;
    }
  }

  class InStream {
    const data: seq<byte>
    var offset: nat

    ghost predicate Valid()
      reads this
    {
      offset <= |data|
    }

    ghost function Rest(): seq<byte>
      requires Valid()
      reads this
    {
      data[offset..]
    }

    constructor (data: seq<byte>)
      ensures Valid() && Rest() == data
    {
      this.data := data;
      offset := 0;
    }

    /** At most as many bytes as are left. */
    method Read(size: nat) returns (got: seq<byte>)
      requires Valid()
      modifies this
      ensures Valid() && got + Rest() == old(Rest())
      ensures |got| == if size <= |old(Rest())| then size else |old(Rest())|
    {
      var n := if size <= |data| - offset then size else |data| - offset;
      got := data[offset..offset + n];
      offset := offset + n;
    }
  }

  function Mirrored(b: seq<byte>): (m: seq<byte>)
    ensures |m| == |b|
  {
    seq(|b|, i requires 0 <= i < |b| => b[|b| - 1 - i])
  }

  /** An int64 as it lies in the memory of a little-endian or a big-endian host. */
  function LongInMemory(l: int, little: bool): (m: seq<byte>)
    requires -MAX_INT64 - 1 <= l <= MAX_INT64
    ensures |m| == 8
  {
    if little then Mirrored(LongBytes(l)) else LongBytes(l)
  }

  /** htonll swaps the eight bytes in place unless the host is big-endian already. */
  method Htonll(s: array<byte>, little: bool)
    requires s.Length == 8
    modifies s
    ensures s[..] == if little then Mirrored(old(s[..])) else old(s[..])
  {
    if !little {
      return;
    }
    var i := 0;
    while i < 4
      invariant 0 <= i <= 4
      invariant forall k | 0 <= k < i :: s[k] == old(s[7 - k]) && s[7 - k] == old(s[k])
      invariant forall k | i <= k < 8 - i :: s[k] == old(s[k])
    {
      var tmp := s[i];
      s[i] := s[8 - i - 1];
      s[8 - i - 1] := tmp;
      i := i + 1;
    }
  }

  method SerializeLong(l: int, little: bool, out: OutStream)
    requires -MAX_INT64 - 1 <= l <= MAX_INT64
    modifies out
    ensures out.bytes == old(out.bytes) + LongBytes(l)
  {
    var mem := LongInMemory(l, little);
    var num := new byte[8](i requires 0 <= i < 8 => mem[i]);
    assert num[..] == mem;
    Htonll(num, little);
    assert Mirrored(Mirrored(LongBytes(l))) == LongBytes(l);
    out.Write(num[..]);
  }

  method DeserializeLong(little: bool, stream: InStream) returns (ok: bool, l: int)
    requires stream.Valid()
    modifies stream
    ensures stream.Valid()
    ensures var r := DecodedLong(old(stream.Rest())); ok == r.Ok? && (ok ==> l == r.val && stream.Rest() == r.rest)
  {
    var got := stream.Read(8);
    if |got| != 8 {
      return false, 0;
    }
    var num := new byte[8](i requires 0 <= i < 8 => got[i]);
    assert num[..] == got;
    Htonll(num, little);
    // The host reads its own memory: mirrored once more on a little-endian one.
    var mem := if little then Mirrored(num[..]) else num[..];
    assert Mirrored(Mirrored(got)) == got;
    Parts(got, stream.Rest());
    return true, Signed64(Be64Value(mem));
  }

  method DeserializeInt(stream: InStream) returns (ok: bool, i: int)
    requires stream.Valid()
    modifies stream
    ensures stream.Valid()
    ensures var r := DecodedInt(old(stream.Rest())); ok == r.Ok? && (ok ==> i == r.val && stream.Rest() == r.rest)
  {
    var got := stream.Read(4);
    if |got| != 4 {
      return false, 0;
    }
    Parts(got, stream.Rest());
    return true, Signed32(Be32Value(got));
  }

  method SerializeString(s: seq<byte>, out: OutStream)
    requires |s| <= MAX_INT32
    modifies out
    ensures out.bytes == old(out.bytes) + (IntBytes(|s|) + s)
  {
    out.Write(IntBytes(|s|));
    if |s| > 0 {
      out.Write(s);
    }
    Assoc(old(out.bytes), IntBytes(|s|), s);
  }

  method DeserializeString(stream: InStream) returns (ok: bool, s: seq<byte>)
    requires stream.Valid()
    modifies stream
    ensures stream.Valid()
    ensures var r := DecodedString(old(stream.Rest())); ok == r.Ok? && (ok ==> s == r.val && stream.Rest() == r.rest)
  {
    s := [];
    var len;
    ok, len := DeserializeInt(stream);
    if ok && len > 0 {
      ghost var rest := stream.Rest();
      s := stream.Read(len);
      Parts(s, stream.Rest());
      ok := |s| == len;
    }
  }

  /** Writing succeeds exactly when every record inside has all its fields set; it resets them. */
  method Serialize(v: Value, ghost t: Schema, little: bool, out: OutStream) returns (ok: bool, after: Value)
    requires HasSchema(v, t)
    modifies out
    ensures ok <==> Complete(v)
    ensures ok ==> out.bytes == old(out.bytes) + Encoded(v, t) && after == Cleared(v)
    decreases v, 0
  {
    after := v;
    match v {
      case VBool(b) =>
        out.Write([if b then 1 else 0]);
        ok := true;
      case VInt(i) =>
        out.Write(IntBytes(i));
        ok := true;
      case VLong(l) =>
        SerializeLong(l, little, out);
        ok := true;
      case VString(s) =>
        SerializeString(s, out);
        ok := true;
      case VVector(items) =>
        ghost var start := out.bytes;
        out.Write(IntBytes(|items|));
        var cleared;
        ok, cleared := SerializeItems(items, t.elem, little, out);
        after := VVector(cleared);
        Assoc(start, IntBytes(|items|), EncodedItems(items, t.elem));
      case VRecord(fields, bits) =>
        if !Validates(v) {
          IncompleteIfInvalid(v);
          return false, v;
        }
        var cleared;
        ok, cleared := SerializeFields(fields, t.fields, little, out);
        after := VRecord(cleared, seq(|bits|, i => false));
    }
  }

  lemma IncompleteIfInvalid(v: Value)
    requires !Validates(v)
    ensures !Complete(v)
  {
    if Complete(v) {
      CompleteValidates(v);
    }
  }

  method SerializeItems(items: seq<Value>, ghost elem: Schema, little: bool, out: OutStream)
    returns (ok: bool, cleared: seq<Value>)
    requires forall i | 0 <= i < |items| :: HasSchema(items[i], elem)
    modifies out
    ensures ok <==> forall i | 0 <= i < |items| :: Complete(items[i])
    ensures ok ==> out.bytes == old(out.bytes) + EncodedItems(items, elem)
    ensures ok ==> |cleared| == |items| && forall i | 0 <= i < |items| :: cleared[i] == Cleared(items[i])
    decreases items, 1
  {
    cleared := [];
    var cur := 0;
    while cur < |items|
      invariant 0 <= cur <= |items| && |cleared| == cur
      invariant forall i | 0 <= i < cur :: Complete(items[i]) && cleared[i] == Cleared(items[i])
      invariant out.bytes + EncodedItems(items[cur..], elem) == old(out.bytes) + EncodedItems(items, elem)
    {
      ghost var before := out.bytes;
      var good, after := Serialize(items[cur], elem, little, out);
      if !good {
        return false, cleared;
      }
      assert items[cur..][1..] == items[cur + 1..];
      Assoc(before, Encoded(items[cur], elem), EncodedItems(items[cur + 1..], elem));
      cleared := cleared + [after];
      cur := cur + 1;
    }
    assert items[cur..] == [] && out.bytes + [] == out.bytes;
    ok := true;
  }

  /** One field after the other, as the generated code spells out. */
  method SerializeFields(fields: seq<Value>, ghost types: seq<Schema>, little: bool, out: OutStream)
    returns (ok: bool, cleared: seq<Value>)
    requires |fields| == |types| && forall i | 0 <= i < |fields| :: HasSchema(fields[i], types[i])
    modifies out
    ensures ok <==> forall i | 0 <= i < |fields| :: Complete(fields[i])
    ensures ok ==> out.bytes == old(out.bytes) + EncodedFields(fields, types)
    ensures ok ==> |cleared| == |fields| && forall i | 0 <= i < |fields| :: cleared[i] == Cleared(fields[i])
    decreases fields, 1
  {
    cleared := [];
    var k := 0;
    while k < |fields|
      invariant 0 <= k <= |fields| && |cleared| == k
      invariant forall i | 0 <= i < k :: Complete(fields[i]) && cleared[i] == Cleared(fields[i])
      invariant out.bytes + EncodedFields(fields[k..], types[k..]) == old(out.bytes) + EncodedFields(fields, types)
    {
      ghost var before := out.bytes;
      var good, after := Serialize(fields[k], types[k], little, out);
      if !good {
        return false, cleared;
      }
      assert fields[k..][1..] == fields[k + 1..] && types[k..][1..] == types[k + 1..];
      Assoc(before, Encoded(fields[k], types[k]), EncodedFields(fields[k + 1..], types[k + 1..]));
      cleared := cleared + [after];
      k := k + 1;
    }
    assert fields[k..] == [] && out.bytes + [] == out.bytes;
    ok := true;
  }

  method Deserialize(t: Schema, little: bool, stream: InStream) returns (ok: bool, v: Value)
    requires stream.Valid()
    modifies stream
    ensures stream.Valid()
    ensures var r := Decoded(t, old(stream.Rest())); ok == r.Ok? && (ok ==> v == r.val && stream.Rest() == r.rest)
    decreases t, 0
  {
    v := VBool(false);
    match t {
      case TBool =>
        var got := stream.Read(1);
        if |got| != 1 || got[0] > 1 {
          return false, v;
        }
        Parts(got, stream.Rest());
        return true, VBool(got[0] == 1);
      case TInt =>
        var i;
        ok, i := DeserializeInt(stream);
        v := VInt(i);
      case TLong =>
        var l;
        ok, l := DeserializeLong(little, stream);
        v := VLong(l);
      case TString =>
        var s;
        ok, s := DeserializeString(stream);
        v := VString(s);
      case TVector(elem) =>
        var len;
        ok, len := DeserializeInt(stream);
        if !ok || len < 0 {
          return false, v;
        }
        var items;
        ok, items := DeserializeItems(elem, len, little, stream);
        v := VVector(items);
      case TRecord(types) =>
        var fields;
        ok, fields := DeserializeFields(types, little, stream);
        v := VRecord(fields, AllSet(|types|));
    }
  }

  /** The index counts down while items are pushed to the back of the vector. */
  method DeserializeItems(elem: Schema, len: nat, little: bool, stream: InStream) returns (ok: bool, items: seq<Value>)
    requires stream.Valid()
    modifies stream
    ensures stream.Valid()
    ensures var r := DecodedItems(elem, len, old(stream.Rest()));
            ok == r.Ok? && (ok ==> items == r.val && stream.Rest() == r.rest)
    decreases elem, len + 1
  {
    items := [];
    var size: nat := len;
    ghost var goal := DecodedItems(elem, len, stream.Rest());
    assert goal.Ok? ==> [] + goal.val == goal.val;
    while size != 0
      invariant stream.Valid() && size <= len
      invariant var later := DecodedItems(elem, size, stream.Rest());
                goal == if later.Ok? then Ok(items + later.val, later.rest) else Fail
      decreases size
    {
      ghost var first := Decoded(elem, stream.Rest());
      var good, v := Deserialize(elem, little, stream);
      if !good {
        return false, items;
      }
      ghost var later := DecodedItems(elem, size - 1, stream.Rest());
      Pushed(items, v, if later.Ok? then later.val else []);
      items := items + [v];
      size := size - 1;
    }
    assert items + [] == items;
    ok := true;
  }

  lemma Pushed(items: seq<Value>, v: Value, later: seq<Value>)
    ensures items + [v] + later == items + ([v] + later)
  {
  }

  method DeserializeFields(types: seq<Schema>, little: bool, stream: InStream) returns (ok: bool, fields: seq<Value>)
    requires stream.Valid()
    modifies stream
    ensures stream.Valid()
    ensures var r := DecodedFields(types, old(stream.Rest()));
            ok == r.Ok? && (ok ==> fields == r.val && stream.Rest() == r.rest)
    decreases types, 1
  {
    fields := [];
    var k := 0;
    ghost var goal := DecodedFields(types, stream.Rest());
    assert types[0..] == types && (goal.Ok? ==> [] + goal.val == goal.val);
    while k < |types|
      invariant stream.Valid() && 0 <= k <= |types|
      invariant var later := DecodedFields(types[k..], stream.Rest());
                goal == if later.Ok? then Ok(fields + later.val, later.rest) else Fail
    {
      assert types[k..][1..] == types[k + 1..];
      var good, v := Deserialize(types[k], little, stream);
      if !good {
        return false, fields;
      }
      ghost var later := DecodedFields(types[k + 1..], stream.Rest());
      Pushed(fields, v, if later.Ok? then later.val else []);
      fields := fields + [v];
      k := k + 1;
    }
    assert fields + [] == fields;
    ok := true;
  }
}
