/** The cache as the program keeps it: every entry is a node that stands both in an index by key and in a
    list by recency. Each method is proved to do to that list what module LruList says. */
module LruCache {
  import opened Common
  import opened LruList

  /** The recency list holds exactly the nodes, each once. */
  ghost predicate InOrder<V(!new)>(nodes: map<nat, Entry<V>>, right: seq<nat>) {
    && Distinct(right)
    && (forall i | 0 <= i < |right| :: right[i] in nodes)
    && (forall n | n in nodes :: n in right)
  }

  /** The key view holds exactly the nodes, each once and under its own key. */
  ghost predicate Indexed<V(!new)>(nodes: map<nat, Entry<V>>, left: map<Key, seq<nat>>) {
    && (forall k | k in left :: left[k] != [] && Distinct(left[k]))
    && (forall k, n | k in left && n in left[k] :: n in nodes && nodes[n].key == k)
    && (forall n | n in nodes :: nodes[n].key in left && n in left[nodes[n].key])
  }

  ghost predicate Below<V(!new)>(nodes: map<nat, Entry<V>>, next: nat) {
    forall n | n in nodes :: n < next
  }

  function Entries<V>(nodes: map<nat, Entry<V>>, right: seq<nat>): (l: seq<Entry<V>>)
    requires forall i | 0 <= i < |right| :: right[i] in nodes
    ensures |l| == |right| && forall i | 0 <= i < |l| :: l[i] == nodes[right[i]]
  {
    seq(|right|, i requires 0 <= i < |right| => nodes[right[i]])
  }

  lemma WithoutMembers<T>(s: seq<T>, i: nat, x: T)
    requires Distinct(s) && i < |s|
    ensures x in Without(s, i) <==> x in s && x != s[i]
  {
    if x in s && x != s[i] {
      var j :| 0 <= j < |s| && s[j] == x;
      assert Without(s, i)[if j < i then j else j - 1] == x;
    }
  }

  lemma EraseKeepsOrder<V(!new)>(nodes: map<nat, Entry<V>>, right: seq<nat>, i: nat)
    requires InOrder(nodes, right) && i < |right|
    ensures InOrder(nodes - {right[i]}, Without(right, i))
    ensures Entries(nodes - {right[i]}, Without(right, i)) == Without(Entries(nodes, right), i)
  {
    OrderWithout(nodes, right, i);
    EntriesWithout(nodes, right, i);
  }

  lemma OrderWithout<V(!new)>(nodes: map<nat, Entry<V>>, right: seq<nat>, i: nat)
    requires InOrder(nodes, right) && i < |right|
    ensures InOrder(nodes - {right[i]}, Without(right, i))
  {
    var rest := Without(right, i);
    WithoutDistinct(right, i);
    forall n | n in nodes - {right[i]} ensures n in rest {
      WithoutMembers(right, i, n);
    }
    forall j | 0 <= j < |rest| ensures rest[j] in nodes - {right[i]} {
      assert rest[j] in rest;
      WithoutMembers(right, i, rest[j]);
    }
  }

  lemma EntriesWithout<V(!new)>(nodes: map<nat, Entry<V>>, right: seq<nat>, i: nat)
    requires InOrder(nodes, right) && i < |right| && InOrder(nodes - {right[i]}, Without(right, i))
    ensures Entries(nodes - {right[i]}, Without(right, i)) == Without(Entries(nodes, right), i)
  {
    var rest := Without(right, i);
    forall j | 0 <= j < |rest|
      ensures Entries(nodes - {right[i]}, rest)[j] == Without(Entries(nodes, right), i)[j]
    {
      assert rest[j] == right[if j < i then j else j + 1];
    }
  }

  lemma RelocateKeepsOrder<V(!new)>(nodes: map<nat, Entry<V>>, right: seq<nat>, i: nat)
    requires InOrder(nodes, right) && i < |right|
    ensures InOrder(nodes, Without(right, i) + [right[i]])
    ensures Entries(nodes, Without(right, i) + [right[i]])
            == Without(Entries(nodes, right), i) + [Entries(nodes, right)[i]]
  {
    var n := right[i];
    EraseKeepsOrder(nodes, right, i);
    InsertKeepsOrder(nodes - {n}, Without(right, i), n, nodes[n]);
    assert (nodes - {n})[n := nodes[n]] == nodes;
  }

  lemma InsertKeepsOrder<V(!new)>(nodes: map<nat, Entry<V>>, right: seq<nat>, n: nat, e: Entry<V>)
    requires InOrder(nodes, right) && n !in nodes
    ensures InOrder(nodes[n := e], right + [n])
    ensures Entries(nodes[n := e], right + [n]) == Entries(nodes, right) + [e]
  {
  }

  /** The key view after a node has left it. */
  function Unindexed<V>(nodes: map<nat, Entry<V>>, left: map<Key, seq<nat>>, node: nat): map<Key, seq<nat>>
    requires node in nodes && nodes[node].key in left && node in left[nodes[node].key]
  {
    var key := nodes[node].key;
    var range := Without(left[key], PlaceOf(left[key], node));
    if range == [] then left - {key} else left[key := range]
  }

  lemma EraseKeepsIndex<V(!new)>(nodes: map<nat, Entry<V>>, left: map<Key, seq<nat>>, node: nat)
    requires Indexed(nodes, left) && node in nodes
    ensures Indexed(nodes - {node}, Unindexed(nodes, left, node))
  {
    var key := nodes[node].key;
    var q := PlaceOf(left[key], node);
    WithoutDistinct(left[key], q);
    forall n ensures n in Without(left[key], q) <==> n in left[key] && n != node {
      WithoutMembers(left[key], q, n);
    }
  }

  lemma InsertKeepsIndex<V(!new)>(nodes: map<nat, Entry<V>>, left: map<Key, seq<nat>>, n: nat, e: Entry<V>)
    requires Indexed(nodes, left) && n !in nodes
    ensures var range := if e.key in left then left[e.key] else [];
            Indexed(nodes[n := e], left[e.key := range + [n]])
  {
    var range := if e.key in left then left[e.key] else [];
    assert n !in range;
    assert Distinct(range + [n]);
    forall m ensures m in range + [n] <==> m in range || m == n {
    }
  }

  /** The two views hold the same nodes. */
  ghost predicate Agreeing<V(!new)>(nodes: map<nat, Entry<V>>, left: map<Key, seq<nat>>, right: seq<nat>, next: nat) {
    InOrder(nodes, right) && Indexed(nodes, left) && Below(nodes, next)
  }

  lemma EraseAgrees<V(!new)>(nodes: map<nat, Entry<V>>, left: map<Key, seq<nat>>, right: seq<nat>, next: nat, i: nat)
    requires Agreeing(nodes, left, right, next) && i < |right|
    ensures var node := right[i];
            && PlaceOf(right, node) == i
            && Agreeing(nodes - {node}, Unindexed(nodes, left, node), Without(right, i), next)
            && Entries(nodes - {node}, Without(right, i)) == Without(Entries(nodes, right), i)
  {
    EraseKeepsOrder(nodes, right, i);
    EraseKeepsIndex(nodes, left, right[i]);
    SamePlace(right, i);
  }

  lemma InsertAgrees<V(!new)>(nodes: map<nat, Entry<V>>, left: map<Key, seq<nat>>, right: seq<nat>, next: nat,
                              e: Entry<V>)
    requires Agreeing(nodes, left, right, next)
    ensures var range := if e.key in left then left[e.key] else [];
            && Agreeing(nodes[next := e], left[e.key := range + [next]], right + [next], next + 1)
            && Entries(nodes[next := e], right + [next]) == Entries(nodes, right) + [e]
  {
    assert next !in nodes;
    InsertKeepsOrder(nodes, right, next, e);
    InsertKeepsIndex(nodes, left, next, e);
  }

  class Cache<V(==, !new)> {
    const capacity: nat
    /** The entries, by node. */
    var nodes: map<nat, Entry<V>>
    /** The nodes of each key, in the order of the key view. */
    var left: map<Key, seq<nat>>
    /** All nodes, the least recently used first. */
    var right: seq<nat>
    var next: nat

    ghost predicate Agree()
      reads this
    {
      Agreeing(nodes, left, right, next)
    }

    /** The entries in order of recency. */
    ghost function List(): seq<Entry<V>>
      requires Agree()
      reads this
    {
      Entries(nodes, right)
    }

    ghost predicate Valid()
      reads this
    {
      Agree() && Sound(List(), capacity)
    }

    constructor (capacity: nat)
      ensures Valid() && List() == [] && this.capacity == capacity
    {
      this.capacity := capacity;
      nodes := map[];
      left := map[];
      right := [];
      next := 0;
    }

    /** equal_range of the key view. */
    function Range(key: Key): seq<nat>
      reads this
    {
      if key in left then left[key] else []
    }

    lemma NodeAt(i: nat)
      requires Agree() && i < |right|
      ensures right[i] in nodes && List()[i] == nodes[right[i]] && right[i] in Range(nodes[right[i]].key)
    {
    }

    method FindEntry(key: Key, value: V) returns (found: bool, node: nat)
      requires Valid()
      ensures var i := FindPair(List(), Entry(key, value));
              found == (i < |List()|) && (found ==> node == right[i])
    {
      var range := Range(key);
      var k := 0;
      while k < |range|
        invariant 0 <= k <= |range|
        invariant forall j | 0 <= j < k :: nodes[range[j]].value != value
      {
        if nodes[range[k]].value == value {
          FoundPair(key, value, range[k]);
          return true, range[k];
        }
        k := k + 1;
      }
      NoPair(key, value);
      return false, 0;
    }

    /** A node with the pair is the only one. */
    lemma FoundPair(key: Key, value: V, node: nat)
      requires Valid() && node in nodes && nodes[node] == Entry(key, value)
      ensures var i := FindPair(List(), Entry(key, value)); i < |List()| && right[i] == node
    {
      var i := FindPair(List(), Entry(key, value));
      var j := PlaceOf(right, node);
      assert List()[j] == Entry(key, value);
    }

    lemma NoPair(key: Key, value: V)
      requires Valid() && forall n | n in Range(key) :: nodes[n].value != value
      ensures FindPair(List(), Entry(key, value)) == |List()|
    {
      forall i | 0 <= i < |List()| ensures List()[i] != Entry(key, value) {
        NodeAt(i);
      }
    }

    /** The least recently used node of a key, by distance in the recency list. */
    method GetLruEntry(key: Key) returns (found: bool, node: nat)
      requires Valid()
      ensures var i := Find(List(), key); found == (i < |List()|) && (found ==> node == right[i])
    {
      if key !in left {
        NoKey(key);
        return false, 0;
      }
      node := Nearest(right, left[key]);
      NearestIsFirst(key, node);
      found := true;
    }

    lemma NoKey(key: Key)
      requires Valid() && key !in left
      ensures Find(List(), key) == |List()|
    {
      forall i | 0 <= i < |List()| ensures List()[i].key != key {
        NodeAt(i);
      }
    }

    lemma NearestIsFirst(key: Key, node: nat)
      requires Valid() && node in Range(key) && forall n | n in Range(key) :: PlaceOf(right, node) <= PlaceOf(right, n)
      ensures var i := Find(List(), key); i < |List()| && right[i] == node
    {
      var i, j := Find(List(), key), PlaceOf(right, node);
      assert List()[j].key == key;
      NodeAt(i);
      assert PlaceOf(right, right[i]) == i;
    }

    /** Moves the node to the end of the recency list. */
    method Relocate(node: nat, ghost i: nat)
      requires Agree() && i < |right| && right[i] == node
      modifies `right
      ensures Agree() && List() == Without(old(List()), i) + [old(List())[i]]
    {
      RelocateKeepsOrder(nodes, right, i);
      SamePlace(right, i);
      right := Without(right, PlaceOf(right, node)) + [node];
    }

    /** Takes a node out of both views. */
    method Erase(node: nat, ghost i: nat)
      requires Agree() && i < |right| && right[i] == node
      modifies `nodes, `left, `right
      ensures Agree() && List() == Without(old(List()), i)
    {
      EraseAgrees(nodes, left, right, next, i);
      var shorter, index, fewer := Without(right, PlaceOf(right, node)), Unindexed(nodes, left, node), nodes - {node};
      right, left, nodes := shorter, index, fewer;
    }

    /** Adds an entry at the end of both views. */
    method Insert(e: Entry<V>)
      requires Agree()
      modifies `nodes, `left, `right, `next
      ensures Agree() && List() == old(List()) + [e]
    {
      InsertAgrees(nodes, left, right, next, e);
      var index, more, longer := left[e.key := Range(e.key) + [next]], nodes[next := e], right + [next];
      left, nodes, right, next := index, more, longer, next + 1;
    }

    method Get(key: Key) returns (v: Option<V>)
      requires Valid()
      modifies this
      ensures Valid() && v == Looked(old(List()), key) && List() == Touched(old(List()), key)
    {
      TouchedIsSound(List(), key, capacity);
      var found, node := GetLruEntry(key);
      if !found {
        return None;
      }
      v := Some(nodes[node].value);
      Relocate(node, Find(List(), key));
    }

    method Pop(key: Key) returns (v: Option<V>)
      requires Valid()
      modifies this
      ensures Valid() && v == Looked(old(List()), key) && List() == Popped(old(List()), key)
    {
      WithoutDistinct(List(), Find(List(), key));
      var found, node := GetLruEntry(key);
      if !found {
        return None;
      }
      v := Some(nodes[node].value);
      Erase(node, Find(List(), key));
    }

    method Put(key: Key, value: V)
      requires Valid()
      modifies this
      ensures Valid() && List() == Stored(old(List()), Entry(key, value), capacity)
    {
      ghost var e := Entry(key, value);
      StoredIsSound(List(), e, capacity);
      WithoutDistinct(List(), FindPair(List(), e));
      var found, node := FindEntry(key, value);
      if found {
        Erase(node, FindPair(List(), e));
      }
      assert List() == PairRemoved(old(List()), e);
      EvictIfFull();
      Insert(Entry(key, value));
    }

    method EvictIfFull()
      requires Agree()
      modifies `nodes, `left, `right
      ensures Agree() && List() == if Full(old(List()), capacity) then old(List())[1..] else old(List())
    {
      if capacity != 0 && |right| >= capacity {
        Erase(right[0], 0);
      }
    }

    method RemovePair(key: Key, value: V) returns (removed: Option<V>)
      requires Valid()
      modifies this
      ensures Valid() && List() == PairRemoved(old(List()), Entry(key, value))
      ensures removed == if Entry(key, value) in old(List()) then Some(value) else None
    {
      ghost var e := Entry(key, value);
      WithoutDistinct(List(), FindPair(List(), e));
      var found, node := FindEntry(key, value);
      if !found {
        return None;
      }
      removed := Some(nodes[node].value);
      Erase(node, FindPair(List(), e));
    }

    /** Removes every entry of a key. */
    method RemoveKey(key: Key) returns (removed: seq<V>)
      requires Valid()
      modifies this
      ensures Valid() && List() == KeyRemoved(old(List()), key)
      ensures multiset(removed) == multiset(Values(old(List()), key))
    {
      removed := [];
      ghost var was := List();
      while key in left
        invariant Valid() && KeyRemoved(List(), key) == KeyRemoved(was, key)
        invariant multiset(removed) + multiset(Values(List(), key)) == multiset(Values(was, key))
        decreases |right|
      {
        var v := RemoveFirst(key);
        removed := removed + [v];
      }
      NoKey(key);
      NoValues(List(), key);
      KeyAbsent(List(), key);
    }

    method RemoveFirst(key: Key) returns (v: V)
      requires Valid() && key in left
      modifies this
      ensures Valid() && |right| < |old(right)| && KeyRemoved(List(), key) == KeyRemoved(old(List()), key)
      ensures multiset{v} + multiset(Values(List(), key)) == multiset(Values(old(List()), key))
    {
      var node := left[key][0];
      ghost var i, l := PlaceOf(right, node), List();
      v := nodes[node].value;
      WithoutDistinct(l, i);
      KeyRemovedWithout(l, i, key);
      ValuesMinusOne(l, i, key);
      Erase(node, i);
    }

    method GetKey(value: V) returns (key: Option<Key>)
      requires Valid()
      ensures key == KeyOf(List(), value)
    {
      var i := 0;
      while i < |right|
        invariant 0 <= i <= |right|
        invariant KeyOf(List()[i..], value) == KeyOf(List(), value)
      {
        if nodes[right[i]].value == value {
          return Some(nodes[right[i]].key);
        }
        i := i + 1;
      }
      key := None;
    }
  }

  /** std::distance from the beginning of a list. */
  function PlaceOf(s: seq<nat>, node: nat): (i: nat)
    requires node in s
    ensures i < |s| && s[i] == node
    ensures forall j | 0 <= j < i :: s[j] != node
  {
    if s[0] == node then 0 else 1 + PlaceOf(s[1..], node)
  }

  lemma SamePlace(s: seq<nat>, i: nat)
    requires Distinct(s) && i < |s|
    ensures PlaceOf(s, s[i]) == i
  {
  }

  /** The node of the range that comes first in the order. */
  method Nearest(order: seq<nat>, range: seq<nat>) returns (node: nat)
    requires range != [] && forall n | n in range :: n in order
    ensures node in range && forall n | n in range :: PlaceOf(order, node) <= PlaceOf(order, n)
  {
    node := range[0];
    var k := 0;
    while k < |range|
      invariant 0 <= k <= |range| && node in range
      invariant forall j | 0 <= j < k :: PlaceOf(order, node) <= PlaceOf(order, range[j])
    {
      if PlaceOf(order, range[k]) < PlaceOf(order, node) {
        node := range[k];
      }
      k := k + 1;
    }
  }
}
