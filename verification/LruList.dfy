/** The cache as one list of entries, the least recently used first: what every operation means, and what
    runs of operations guarantee. */
module LruList {
  import opened Common

  /** The key type is a parameter of the program's template; only equality of keys matters. */
  datatype Key = Key(text: string)

  datatype Entry<V> = Entry(key: Key, value: V)

  /** The place of the least recent entry of a key; the length when there is none. */
  function Find<V>(l: seq<Entry<V>>, key: Key): (i: nat)
    ensures i <= |l| && (i < |l| ==> l[i].key == key)
    ensures forall j | 0 <= j < i :: l[j].key != key
  {
    if l == [] then 0 else if l[0].key == key then 0 else 1 + Find(l[1..], key)
  }

  /** The least recent entry of a key stands at this place. */
  ghost predicate LeastRecent<V>(l: seq<Entry<V>>, key: Key, i: nat) {
    i < |l| && l[i].key == key && forall j | 0 <= j < i :: l[j].key != key
  }

  function FindPair<V(==)>(l: seq<Entry<V>>, e: Entry<V>): (i: nat)
    ensures i <= |l| && (i < |l| ==> l[i] == e)
    ensures forall j | 0 <= j < i :: l[j] != e
  {
    if l == [] then 0 else if l[0] == e then 0 else 1 + FindPair(l[1..], e)
  }

  function Without<T>(l: seq<T>, i: nat): seq<T> {
    if i < |l| then l[..i] + l[i + 1..] else l
  }

  // ----- The operations -----

  /** get: the entry becomes the most recent one. */
  function Touched<V>(l: seq<Entry<V>>, key: Key): seq<Entry<V>> {
    var i := Find(l, key);
    if i < |l| then Without(l, i) + [l[i]] else l
  }

  function Looked<V>(l: seq<Entry<V>>, key: Key): Option<V> {
    var i := Find(l, key);
    if i < |l| then Some(l[i].value) else None
  }

  function Popped<V>(l: seq<Entry<V>>, key: Key): seq<Entry<V>> {
    Without(l, Find(l, key))
  }

  function PairRemoved<V(==)>(l: seq<Entry<V>>, e: Entry<V>): seq<Entry<V>> {
    Without(l, FindPair(l, e))
  }

  predicate Full<T>(l: seq<T>, capacity: nat) {
    capacity != 0 && |l| >= capacity
  }

  /** put: an equal pair goes first, then the least recent entry if the cache is full. */
  function Stored<V(==)>(l: seq<Entry<V>>, e: Entry<V>, capacity: nat): seq<Entry<V>> {
    var rest := PairRemoved(l, e);
    (if Full(rest, capacity) then rest[1..] else rest) + [e]
  }

  function KeyRemoved<V>(l: seq<Entry<V>>, key: Key): seq<Entry<V>> {
    if l == [] then [] else (if l[0].key == key then [] else [l[0]]) + KeyRemoved(l[1..], key)
  }

  /** getKey: the key of the least recent entry with the value. */
  function KeyOf<V(==)>(l: seq<Entry<V>>, value: V): Option<Key> {
    if l == [] then None else if l[0].value == value then Some(l[0].key) else KeyOf(l[1..], value)
  }

  /** What every operation keeps: no pair twice, and never more entries than the capacity. */
  ghost predicate Sound<V(!new)>(l: seq<Entry<V>>, capacity: nat) {
    Distinct(l) && (capacity != 0 ==> |l| <= capacity)
  }

  lemma WithoutDistinct<T>(l: seq<T>, i: nat)
    requires Distinct(l)
    ensures Distinct(Without(l, i)) && (i < |l| ==> l[i] !in Without(l, i))
    ensures forall x | x in Without(l, i) :: x in l
  {
  }

  lemma StoredIsSound<V(!new)>(l: seq<Entry<V>>, e: Entry<V>, capacity: nat)
    requires Sound(l, capacity)
    ensures Sound(Stored(l, e, capacity), capacity)
  {
    WithoutDistinct(l, FindPair(l, e));
    assert e !in PairRemoved(l, e);
  }

  lemma TouchedIsSound<V(!new)>(l: seq<Entry<V>>, key: Key, capacity: nat)
    requires Sound(l, capacity)
    ensures Sound(Touched(l, key), capacity)
    ensures forall e :: e in Touched(l, key) <==> e in l
  {
    var i := Find(l, key);
    WithoutDistinct(l, i);
    if i < |l| {
      assert l == l[..i] + [l[i]] + l[i + 1..];
    }
  }

  // ----- The values of one key -----

  function Values<V>(l: seq<Entry<V>>, key: Key): seq<V> {
    if l == [] then [] else (if l[0].key == key then [l[0].value] else []) + Values(l[1..], key)
  }

  lemma {:induction false} ValuesAppend<V>(a: seq<Entry<V>>, b: seq<Entry<V>>, key: Key)
    ensures Values(a + b, key) == Values(a, key) + Values(b, key)
  {
    if a == [] {
      assert a + b == b;
    } else {
      assert (a + b)[0] == a[0] && (a + b)[1..] == a[1..] + b;
      ValuesAppend(a[1..], b, key);
      Assoc(if a[0].key == key then [a[0].value] else [], Values(a[1..], key), Values(b, key));
    }
  }

  lemma {:induction false} NoValues<V>(l: seq<Entry<V>>, key: Key)
    requires forall i | 0 <= i < |l| :: l[i].key != key
    ensures Values(l, key) == []
  {
    if l != [] {
      NoValues(l[1..], key);
    }
  }

  lemma SplitAt<T>(l: seq<T>, i: nat)
    requires i < |l|
    ensures l == l[..i] + ([l[i]] + l[i + 1..])
  {
  }

  lemma ValuesOfOne<V>(e: Entry<V>, key: Key)
    ensures Values([e], key) == if e.key == key then [e.value] else []
  {
    assert Values([e][1..], key) == [];
  }

  /** Taking out an entry takes out its value, and nothing of another key. */
  lemma ValuesWithout<V>(l: seq<Entry<V>>, i: nat, key: Key)
    requires i < |l|
    ensures Values(l, key) == Values(l[..i], key) + (Values([l[i]], key) + Values(l[i + 1..], key))
    ensures Values(Without(l, i), key) == Values(l[..i], key) + Values(l[i + 1..], key)
  {
    SplitAt(l, i);
    ValuesAppend(l[..i], [l[i]] + l[i + 1..], key);
    ValuesAppend([l[i]], l[i + 1..], key);
    ValuesAppend(l[..i], l[i + 1..], key);
  }

  lemma ValuesMinusOne<V>(l: seq<Entry<V>>, i: nat, key: Key)
    requires i < |l| && l[i].key == key
    ensures multiset{l[i].value} + multiset(Values(Without(l, i), key)) == multiset(Values(l, key))
  {
    ValuesWithout(l, i, key);
    ValuesOfOne(l[i], key);
  }

  function Rotated<T>(s: seq<T>): seq<T> {
    if s == [] then [] else s[1..] + [s[0]]
  }

  lemma RotatedHead<T>(x: T, s: seq<T>)
    ensures Rotated([] + ([x] + s)) == [] + s + [x] && ([] + ([x] + s))[0] == x
  {
  }

  lemma DropNothing<T>(a: seq<T>, b: seq<T>)
    ensures a + ([] + b) == a + b && a + [] == a
  {
  }

  /** get serves the least recent value of the key and puts it last among them. */
  lemma TouchRotates<V>(l: seq<Entry<V>>, key: Key)
    ensures Looked(l, key) == (if Values(l, key) == [] then None else Some(Values(l, key)[0]))
    ensures Values(Touched(l, key), key) == Rotated(Values(l, key))
  {
    var i := Find(l, key);
    if i == |l| {
      NoValues(l, key);
    } else {
      NoValues(l[..i], key);
      ValuesWithout(l, i, key);
      ValuesOfOne(l[i], key);
      ValuesAppend(Without(l, i), [l[i]], key);
      RotatedHead(l[i].value, Values(l[i + 1..], key));
    }
  }

  /** Other keys keep their values in order. */
  lemma TouchLeavesOthers<V>(l: seq<Entry<V>>, key: Key, other: Key)
    requires other != key
    ensures Values(Touched(l, key), other) == Values(l, other)
  {
    var i := Find(l, key);
    if i < |l| {
      ValuesWithout(l, i, other);
      ValuesOfOne(l[i], other);
      ValuesAppend(Without(l, i), [l[i]], other);
      DropNothing(Values(l[..i], other), Values(l[i + 1..], other));
      DropNothing(Values(Without(l, i), other), []);
    }
  }

  /** put under another key leaves the values alone unless it evicts one of them. */
  lemma StoredElsewhere<V>(l: seq<Entry<V>>, e: Entry<V>, capacity: nat, key: Key)
    requires e.key != key && (Full(PairRemoved(l, e), capacity) ==> PairRemoved(l, e)[0].key != key)
    ensures Values(Stored(l, e, capacity), key) == Values(l, key)
  {
    var i, rest := FindPair(l, e), PairRemoved(l, e);
    if i < |l| {
      ValuesWithout(l, i, key);
      ValuesOfOne(l[i], key);
      DropNothing(Values(l[..i], key), Values(l[i + 1..], key));
    }
    assert Values(rest, key) == Values(l, key);
    var kept := if Full(rest, capacity) then rest[1..] else rest;
    assert Values(kept, key) == Values(rest, key);
    ValuesAppend(kept, [e], key);
    ValuesOfOne(e, key);
    DropNothing(Values(kept, key), []);
  }

  lemma {:induction false} KeyRemovedAppend<V>(a: seq<Entry<V>>, b: seq<Entry<V>>, key: Key)
    ensures KeyRemoved(a + b, key) == KeyRemoved(a, key) + KeyRemoved(b, key)
  {
    if a == [] {
      assert a + b == b;
    } else {
      assert (a + b)[0] == a[0] && (a + b)[1..] == a[1..] + b;
      KeyRemovedAppend(a[1..], b, key);
      Assoc(if a[0].key == key then [] else [a[0]], KeyRemoved(a[1..], key), KeyRemoved(b, key));
    }
  }

  lemma KeyRemovedWithout<V>(l: seq<Entry<V>>, i: nat, key: Key)
    requires i < |l| && l[i].key == key
    ensures KeyRemoved(Without(l, i), key) == KeyRemoved(l, key)
  {
    SplitAt(l, i);
    KeyRemovedAppend(l[..i], [l[i]] + l[i + 1..], key);
    KeyRemovedAppend([l[i]], l[i + 1..], key);
    KeyRemovedAppend(l[..i], l[i + 1..], key);
    assert KeyRemoved([l[i]][1..], key) == [] && [] + KeyRemoved(l[i + 1..], key) == KeyRemoved(l[i + 1..], key);
  }

  lemma {:induction false} KeyAbsent<V>(l: seq<Entry<V>>, key: Key)
    requires forall i | 0 <= i < |l| :: l[i].key != key
    ensures KeyRemoved(l, key) == l
  {
    if l != [] {
      KeyAbsent(l[1..], key);
    }
  }

  // ----- Runs -----

  datatype Op<V> = Get(key: Key) | Put(entry: Entry<V>)

  function Applied<V(==)>(l: seq<Entry<V>>, op: Op<V>, capacity: nat): seq<Entry<V>> {
    match op
    case Get(key) => Touched(l, key)
    case Put(e) => Stored(l, e, capacity)
  }

  function AppliedAll<V(==)>(l: seq<Entry<V>>, ops: seq<Op<V>>, capacity: nat): seq<Entry<V>>
    decreases |ops|
  {
    if ops == [] then l else AppliedAll(Applied(l, ops[0], capacity), ops[1..], capacity)
  }

  /** What the gets of one key return during a run. */
  function Served<V(==)>(l: seq<Entry<V>>, ops: seq<Op<V>>, capacity: nat, key: Key): seq<Option<V>>
    decreases |ops|
  {
    if ops == [] then []
    else
      (if ops[0] == Get(key) then [Looked(l, key)] else [])
      + Served(Applied(l, ops[0], capacity), ops[1..], capacity, key)
  }

  /** A put that neither belongs to the key nor evicts one of its entries. */
  predicate SparesKey<V>(rest: seq<Entry<V>>, put: Entry<V>, capacity: nat, key: Key) {
    put.key != key && (Full(rest, capacity) ==> rest[0].key != key)
  }

  /** No put of the run touches the key or evicts one of its entries. */
  predicate Undisturbed<V(==)>(l: seq<Entry<V>>, ops: seq<Op<V>>, capacity: nat, key: Key)
    decreases |ops|
  {
    ops == []
    || ((ops[0].Put? ==> SparesKey(PairRemoved(l, ops[0].entry), ops[0].entry, capacity, key))
        && Undisturbed(Applied(l, ops[0], capacity), ops[1..], capacity, key))
  }

  /** The `i`th value when the values are gone through round and round. */
  function Turn<T>(s: seq<T>, i: nat): T
    requires s != []
  {
    if i < |s| then s[i] else Turn(s, i - |s|)
  }

  lemma {:induction false} RotatedTurn<T>(s: seq<T>, i: nat)
    requires s != []
    ensures Turn(Rotated(s), i) == Turn(s, i + 1)
  {
    if i >= |s| {
      RotatedTurn(s, i - |s|);
    }
  }

  /** Fairness: whatever else happens to other keys in between, the gets of a key return its values one
      after the other, each once per cycle. */
  lemma {:induction false} GetsCycle<V>(l: seq<Entry<V>>, ops: seq<Op<V>>, capacity: nat, key: Key, i: nat)
    requires Undisturbed(l, ops, capacity, key) && Values(l, key) != [] && i < |Served(l, ops, capacity, key)|
    ensures Served(l, ops, capacity, key)[i] == Some(Turn(Values(l, key), i))
    decreases |ops|
  {
    var next, vals := Applied(l, ops[0], capacity), Values(l, key);
    var later := Served(next, ops[1..], capacity, key);
    ValuesStep(l, ops, capacity, key);
    if ops[0] == Get(key) {
      ServedFirst(Looked(l, key), later, i);
      if i > 0 {
        GetsCycle(next, ops[1..], capacity, key, i - 1);
        RotatedTurn(vals, i - 1);
      }
    } else {
      ServedLater(later);
      GetsCycle(next, ops[1..], capacity, key, i);
    }
  }

  lemma ServedLater<T>(later: seq<T>)
    ensures [] + later == later
  {
  }

  lemma ServedFirst<T>(first: T, later: seq<T>, i: nat)
    requires i < 1 + |later|
    ensures ([first] + later)[i] == if i == 0 then first else later[i - 1]
  {
  }

  /** What one operation of an undisturbed run does to the values of the key. */
  lemma ValuesStep<V>(l: seq<Entry<V>>, ops: seq<Op<V>>, capacity: nat, key: Key)
    requires ops != [] && Undisturbed(l, ops, capacity, key)
    ensures Values(Applied(l, ops[0], capacity), key)
            == if ops[0] == Get(key) then Rotated(Values(l, key)) else Values(l, key)
    ensures Values(l, key) != [] ==> Looked(l, key) == Some(Values(l, key)[0]) && Rotated(Values(l, key)) != []
  {
    TouchRotates(l, key);
    if ops[0].Put? {
      StoredElsewhere(l, ops[0].entry, capacity, key);
    } else if ops[0].key != key {
      TouchLeavesOthers(l, ops[0].key, key);
    }
  }

  lemma {:induction false} ValueIn<V>(l: seq<Entry<V>>, key: Key, v: V)
    ensures v in Values(l, key) <==> Entry(key, v) in l
  {
    if l != [] {
      ValueIn(l[1..], key, v);
      assert l == [l[0]] + l[1..];
    }
  }

  /** So the values of one cycle are all different. */
  lemma {:induction false} ValuesDistinct<V>(l: seq<Entry<V>>, key: Key)
    requires Distinct(l)
    ensures Distinct(Values(l, key))
  {
    if l != [] {
      ValuesDistinct(l[1..], key);
      if l[0].key == key {
        ValueIn(l[1..], key, l[0].value);
        assert l[0] !in l[1..];
      }
    }
  }

  /** A get takes an entry at most one place from the most recent end. */
  lemma SurvivesGet<V(!new)>(l: seq<Entry<V>>, key: Key, capacity: nat, i: nat) returns (j: nat)
    requires Sound(l, capacity) && i < |l|
    ensures Sound(Touched(l, key), capacity)
    ensures var t := Touched(l, key); j < |t| && t[j] == l[i] && |t| - 1 - j <= |l| - i
  {
    TouchedIsSound(l, key, capacity);
    var p := Find(l, key);
    j := if p == |l| || i < p then i else if i == p then |l| - 1 else i - 1;
  }

  /** So does a put, unless it evicts the entry. */
  lemma SurvivesPut<V(!new)>(l: seq<Entry<V>>, put: Entry<V>, capacity: nat, i: nat) returns (j: nat)
    requires Sound(l, capacity) && i < |l| && (capacity != 0 ==> |l| - 1 - i < capacity - 1)
    ensures Sound(Stored(l, put, capacity), capacity)
    ensures var t := Stored(l, put, capacity); j < |t| && t[j] == l[i] && |t| - 1 - j <= |l| - i
  {
    StoredIsSound(l, put, capacity);
    var t := Stored(l, put, capacity);
    var p := FindPair(l, put);
    var shift := if Full(PairRemoved(l, put), capacity) then 1 else 0;
    if i == p {
      j := |t| - 1;
    } else {
      j := (if i < p then i else i - 1) - shift;
    }
  }

  lemma SurvivesOne<V(!new)>(l: seq<Entry<V>>, op: Op<V>, capacity: nat, e: Entry<V>, i: nat)
    returns (j: nat)
    requires Sound(l, capacity) && i < |l| && l[i] == e && (capacity != 0 ==> |l| - 1 - i < capacity - 1)
    ensures Sound(Applied(l, op, capacity), capacity)
    ensures var t := Applied(l, op, capacity); j < |t| && t[j] == e && |t| - 1 - j <= |l| - i
  {
    if op.Get? {
      j := SurvivesGet(l, op.key, capacity, i);
    } else {
      j := SurvivesPut(l, op.entry, capacity, i);
    }
  }

  /** Survival: an entry outlives every run of puts and gets that is shorter than what the capacity leaves
      behind it. */
  lemma {:induction false} Survives<V(!new)>(l: seq<Entry<V>>, ops: seq<Op<V>>, capacity: nat, e: Entry<V>, i: nat)
    requires Sound(l, capacity) && i < |l| && l[i] == e
    requires capacity != 0 ==> |l| - 1 - i + |ops| <= capacity - 1
    ensures e in AppliedAll(l, ops, capacity)
    decreases |ops|
  {
    if ops != [] {
      var j := SurvivesOne(l, ops[0], capacity, e, i);
      Survives(Applied(l, ops[0], capacity), ops[1..], capacity, e, j);
    }
  }

  /** In particular an entry just put or got survives the next capacity - 1 puts and gets. */
  lemma JustUsedSurvives<V(!new)>(l: seq<Entry<V>>, first: Op<V>, ops: seq<Op<V>>, capacity: nat)
    requires Sound(l, capacity) && (first.Get? ==> Find(l, first.key) < |l|)
    requires capacity != 0 ==> |ops| <= capacity - 1
    ensures var used := if first.Get? then l[Find(l, first.key)] else first.entry;
            used in AppliedAll(Applied(l, first, capacity), ops, capacity)
  {
    var t := Applied(l, first, capacity);
    if first.Get? {
      TouchedIsSound(l, first.key, capacity);
    } else {
      StoredIsSound(l, first.entry, capacity);
    }
    Survives(t, ops, capacity, t[|t| - 1], |t| - 1);
  }
}
