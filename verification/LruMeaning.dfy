/** The operations of the cache's list, place by place: what the list is afterwards, without reference to
    how the place is found. */
module LruMeaning {
  import opened Common
  import opened LruList

  ghost predicate Absent<V>(l: seq<Entry<V>>, key: Key) {
    forall i | 0 <= i < |l| :: l[i].key != key
  }

  /** Without an entry of the key nothing happens. */
  lemma AbsentMeaning<V>(l: seq<Entry<V>>, key: Key)
    requires Absent(l, key)
    ensures Looked(l, key) == None && Touched(l, key) == l && Popped(l, key) == l
  {
    assert Find(l, key) == |l|;
  }

  /** Otherwise its least recent entry is served; get moves it to the end, pop takes it out. */
  lemma PresentMeaning<V>(l: seq<Entry<V>>, key: Key, i: nat)
    requires LeastRecent(l, key, i)
    ensures Looked(l, key) == Some(l[i].value)
    ensures Popped(l, key) == l[..i] + l[i + 1..]
    ensures Touched(l, key) == l[..i] + l[i + 1..] + [l[i]]
  {
    assert Find(l, key) == i;
  }

  /** A pair that is there moves to the end. */
  lemma StoredAgain<V(!new)>(l: seq<Entry<V>>, i: nat, capacity: nat)
    requires Sound(l, capacity) && i < |l|
    ensures Stored(l, l[i], capacity) == l[..i] + l[i + 1..] + [l[i]]
    ensures PairRemoved(l, l[i]) == l[..i] + l[i + 1..]
  {
    assert FindPair(l, l[i]) == i;
  }

  /** A new one goes to the end, at the cost of the least recent entry of all if the cache is full. */
  lemma StoredAnew<V(!new)>(l: seq<Entry<V>>, e: Entry<V>, capacity: nat)
    requires Sound(l, capacity) && e !in l
    ensures Stored(l, e, capacity) == if capacity != 0 && |l| == capacity then l[1..] + [e] else l + [e]
    ensures PairRemoved(l, e) == l
  {
    assert FindPair(l, e) == |l|;
  }

  /** remove(key) takes out the entries of the key and leaves the others, in their order. */
  lemma {:induction false} KeyRemovedMeaning<V>(l: seq<Entry<V>>, key: Key, other: Key)
    ensures Values(KeyRemoved(l, key), other) == if other == key then [] else Values(l, other)
    ensures forall e :: e in KeyRemoved(l, key) <==> e in l && e.key != key
  {
    if l != [] {
      KeyRemovedMeaning(l[1..], key, other);
      var rest := KeyRemoved(l[1..], key);
      if l[0].key != key {
        assert ([l[0]] + rest)[0] == l[0] && ([l[0]] + rest)[1..] == rest;
      } else {
        assert [] + rest == rest && [] + Values(l[1..], other) == Values(l[1..], other);
      }
      assert l == [l[0]] + l[1..];
    }
  }

  /** getKey answers the key of the first entry with the value. */
  lemma {:induction false} KeyOfMeaning<V>(l: seq<Entry<V>>, value: V, i: nat)
    requires i <= |l| && (forall j | 0 <= j < i :: l[j].value != value) && (i < |l| ==> l[i].value == value)
    ensures KeyOf(l, value) == if i < |l| then Some(l[i].key) else None
  {
    if i > 0 {
      KeyOfMeaning(l[1..], value, i - 1);
    }
  }
}
