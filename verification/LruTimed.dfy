/** The timed cache: values carry the second in which they were put, and are not served once they have
    expired. The clock, in microseconds, is a parameter of every operation. */
module LruTimed {
  import opened Common
  import opened LruList
  import LruCache

  const MICROS := 1_000_000

  datatype CacheValue<V> = CacheValue(timestamp: nat, value: V)

  /** Whole seconds only are kept. */
  function Stamped<V>(value: V, now: nat): CacheValue<V> {
    CacheValue(now / MICROS, value)
  }

  predicate Expired(timestamp: nat, expiration: nat, now: nat) {
    expiration != 0 && now >= (timestamp + expiration) * MICROS
  }

  /** The other way round: the time to live is not over. */
  predicate InTime(timestamp: nat, expiration: nat, now: nat) {
    expiration == 0 || now < (timestamp + expiration) * MICROS
  }

  type Items<V> = seq<Entry<CacheValue<V>>>

  // ----- The operations on the list -----

  predicate Live<V>(e: Entry<CacheValue<V>>, expiration: nat, now: nat) {
    !Expired(e.value.timestamp, expiration, now)
  }

  /** An expired entry is removed when it is met. */
  function Got<V(==)>(l: Items<V>, key: Key, expiration: nat, now: nat): Items<V> {
    var i := Find(l, key);
    if i < |l| && !Live(l[i], expiration, now) then PairRemoved(Touched(l, key), l[i]) else Touched(l, key)
  }

  /** What get and pop answer. */
  function Answer<V>(l: Items<V>, key: Key, expiration: nat, now: nat): Option<V> {
    var i := Find(l, key);
    if i < |l| && Live(l[i], expiration, now) then Some(l[i].value.value) else None
  }

  datatype Scan<V(==)> = Scan(key: Option<Key>, dead: set<Entry<CacheValue<V>>>)

  /** getKey looks through the list from the least recent end, past expired matches. */
  function Scanned<V(==)>(l: Items<V>, value: V, expiration: nat, now: nat): Scan<V> {
    if l == [] then Scan(None, {})
    else if l[0].value.value != value then Scanned(l[1..], value, expiration, now)
    else if Live(l[0], expiration, now) then Scan(Some(l[0].key), {})
    else
      var later := Scanned(l[1..], value, expiration, now);
      Scan(later.key, {l[0]} + later.dead)
  }

  function Dropped<T(==)>(l: seq<T>, dead: set<T>): seq<T> {
    if l == [] then [] else (if l[0] in dead then [] else [l[0]]) + Dropped(l[1..], dead)
  }

  /** The matches of remove(key, value): same key, same value, whatever their time. */
  function Matches<V(==)>(l: Items<V>, key: Key, value: V): set<Entry<CacheValue<V>>> {
    set e | e in l && e.key == key && e.value.value == value
  }

  /** Where the scan stands: the entries before `i` are done with, and `dead` are the expired matches
      among them. */
  ghost predicate Scanning<V>(l: Items<V>, i: nat, dead: set<Entry<CacheValue<V>>>, value: V, expiration: nat, now: nat)
    requires i <= |l|
  {
    var all, later := Scanned(l, value, expiration, now), Scanned(l[i..], value, expiration, now);
    all.key == later.key && all.dead == dead + later.dead
  }

  lemma ScanOne<V>(l: Items<V>, i: nat, dead: set<Entry<CacheValue<V>>>, value: V, expiration: nat, now: nat)
    requires i < |l| && Scanning(l, i, dead, value, expiration, now)
    ensures l[i].value.value == value && Live(l[i], expiration, now)
            ==> Scanned(l, value, expiration, now) == Scan(Some(l[i].key), dead)
    ensures l[i].value.value == value && !Live(l[i], expiration, now)
            ==> Scanning(l, i + 1, dead + {l[i]}, value, expiration, now)
    ensures l[i].value.value != value ==> Scanning(l, i + 1, dead, value, expiration, now)
  {
    assert l[i..][0] == l[i] && l[i..][1..] == l[i + 1..];
  }

  /** The least recent entry of the key is answered if and only if it has no expiration, or its time, in
      whole seconds, and the expiration together lie ahead. */
  ghost predicate ServesFresh<V>(l: Items<V>, key: Key, v: Option<V>, expiration: nat, now: nat) {
    && ((forall i | 0 <= i < |l| :: l[i].key != key) ==> v == None)
    && forall i: nat | LeastRecent(l, key, i) ::
         v == if InTime(l[i].value.timestamp, expiration, now) then Some(l[i].value.value) else None
  }

  /** The list without the least recent entry of the key. */
  ghost predicate LosesFirst<V>(l: seq<Entry<V>>, key: Key, t: seq<Entry<V>>) {
    forall i: nat | LeastRecent(l, key, i) :: t == l[..i] + l[i + 1..]
  }

  lemma AnswerMeaning<V>(l: Items<V>, key: Key, expiration: nat, now: nat)
    ensures ServesFresh(l, key, Answer(l, key, expiration, now), expiration, now)
    ensures LosesFirst(l, key, Popped(l, key))
  {
    forall i: nat | LeastRecent(l, key, i) ensures i == Find(l, key) {
    }
  }

  /** What is left when a get meets an expired entry. */
  lemma GotMeaning<V(!new)>(l: Items<V>, key: Key, expiration: nat, now: nat)
    requires Distinct(l)
    ensures Answer(l, key, expiration, now) == None ==> LosesFirst(l, key, Got(l, key, expiration, now))
  {
    var i := Find(l, key);
    forall k: nat | LeastRecent(l, key, k) ensures k == i {
    }
    if i < |l| && !Live(l[i], expiration, now) {
      WithoutDistinct(l, i);
      FoundAtEnd(Without(l, i), l[i]);
    }
  }

  // ----- Dropping one after the other -----

  lemma {:induction false} DroppedTwice<T>(l: seq<T>, a: set<T>, b: set<T>)
    ensures Dropped(Dropped(l, a), b) == Dropped(l, a + b)
  {
    if l != [] {
      DroppedTwice(l[1..], a, b);
      if l[0] !in a {
        assert ([l[0]] + Dropped(l[1..], a))[1..] == Dropped(l[1..], a);
      } else {
        assert [] + Dropped(l[1..], a) == Dropped(l[1..], a);
        assert [] + Dropped(l[1..], a + b) == Dropped(l[1..], a + b);
      }
    }
  }

  lemma {:induction false} DroppedNothing<T>(l: seq<T>, dead: set<T>)
    requires forall i | 0 <= i < |l| :: l[i] !in dead
    ensures Dropped(l, dead) == l
  {
    if l != [] {
      DroppedNothing(l[1..], dead);
    }
  }

  lemma WithoutLater<T>(x: T, l: seq<T>, i: nat)
    ensures Without([x] + l, i + 1) == [x] + Without(l, i)
    ensures Without([x] + l, 0) == l
  {
    var s := [x] + l;
    assert s[1..] == l && s[..0] == [];
    if i < |l| {
      assert s[..i + 1] == [x] + l[..i] && s[i + 2..] == l[i + 1..];
    }
  }

  lemma {:induction false} DroppedOne<V>(l: seq<Entry<V>>, e: Entry<V>)
    requires Distinct(l)
    ensures PairRemoved(l, e) == Dropped(l, {e})
  {
    if l != [] {
      var rest := l[1..];
      assert [l[0]] + rest == l;
      if l[0] == e {
        WithoutLater(e, rest, 0);
        DroppedNothing(rest, {e});
        assert [] + rest == rest;
      } else {
        DroppedOne(rest, e);
        PairRemovedLater(l, e);
      }
    }
  }

  lemma PairRemovedLater<V>(l: seq<Entry<V>>, e: Entry<V>)
    requires l != [] && l[0] != e
    ensures PairRemoved(l, e) == [l[0]] + PairRemoved(l[1..], e)
  {
    assert [l[0]] + l[1..] == l && FindPair(l, e) == 1 + FindPair(l[1..], e);
    WithoutLater(l[0], l[1..], FindPair(l[1..], e));
  }

  // ----- The cache -----

  class TimedCache<V(==, !new)> {
    const cache: LruCache.Cache<CacheValue<V>>
    const expiration: nat

    ghost predicate Valid()
      reads this, cache
    {
      cache.Valid()
    }

    ghost function List(): Items<V>
      requires Valid()
      reads this, cache
    {
      cache.List()
    }

    constructor (capacity: nat, expiration: nat)
      ensures Valid() && List() == [] && fresh(cache)
      ensures this.expiration == expiration && cache.capacity == capacity
    {
      cache := new LruCache.Cache(capacity);
      this.expiration := expiration;
    }

    method Get(key: Key, now: nat) returns (v: Option<V>)
      requires Valid()
      modifies cache
      ensures Valid() && v == Answer(old(List()), key, expiration, now)
              && List() == Got(old(List()), key, expiration, now)
      ensures ServesFresh(old(List()), key, v, expiration, now)
      ensures v == None ==> LosesFirst(old(List()), key, List())
    {
      v := None;
      AnswerMeaning(List(), key, expiration, now);
      GotMeaning(List(), key, expiration, now);
      var cached := cache.Get(key);
      if cached.Some? {
        if Expired(cached.value.timestamp, expiration, now) {
          var removed := cache.RemovePair(key, cached.value);
        } else {
          v := Some(cached.value.value);
        }
      }
    }

    method Pop(key: Key, now: nat) returns (v: Option<V>)
      requires Valid()
      modifies cache
      ensures Valid() && v == Answer(old(List()), key, expiration, now) && List() == Popped(old(List()), key)
      ensures ServesFresh(old(List()), key, v, expiration, now)
      ensures LosesFirst(old(List()), key, List())
    {
      v := None;
      AnswerMeaning(List(), key, expiration, now);
      var cached := cache.Pop(key);
      if cached.Some? && !Expired(cached.value.timestamp, expiration, now) {
        v := Some(cached.value.value);
      }
    }

    method Put(key: Key, value: V, now: nat)
      requires Valid()
      modifies cache
      ensures Valid() && List() == Stored(old(List()), Entry(key, Stamped(value, now)), cache.capacity)
      ensures List() != [] && List()[|List()| - 1] == Entry(key, CacheValue(now / MICROS, value))
    {
      cache.Put(key, Stamped(value, now));
    }

    /** Removes each entry of a set. */
    method RemoveAll(dead: set<Entry<CacheValue<V>>>)
      requires Valid()
      modifies cache
      ensures Valid() && List() == Dropped(old(List()), dead)
    {
      ghost var was, gone := List(), {};
      var left := dead;
      DroppedNothing(was, gone);
      while left != {}
        invariant Valid() && gone + left == dead && List() == Dropped(was, gone)
        decreases left
      {
        var e :| e in left;
        RemoveOne(e, was, gone);
        gone := gone + {e};
        left := left - {e};
      }
    }

    method RemoveOne(e: Entry<CacheValue<V>>, ghost was: Items<V>, ghost gone: set<Entry<CacheValue<V>>>)
      requires Valid() && List() == Dropped(was, gone)
      modifies cache
      ensures Valid() && List() == Dropped(was, gone + {e})
    {
      DroppedOne(List(), e);
      DroppedTwice(was, gone, {e});
      var removed := cache.RemovePair(e.key, e.value);
    }

    method GetKey(value: V, now: nat) returns (key: Option<Key>)
      requires Valid()
      modifies cache
      ensures Valid()
      ensures var r := Scanned(old(List()), value, expiration, now);
              key == r.key && List() == Dropped(old(List()), r.dead)
    {
      key := None;
      var dead: set<Entry<CacheValue<V>>> := {};
      var i := 0;
      ghost var l := List();
      assert l[0..] == l;
      while i < |cache.right|
        invariant Valid() && 0 <= i <= |cache.right| && key == None && List() == l && |l| == |cache.right|
        invariant Scanning(l, i, dead, value, expiration, now)
      {
        var e := cache.nodes[cache.right[i]];
        assert l[i] == e;
        ScanOne(l, i, dead, value, expiration, now);
        if e.value.value == value {
          if Expired(e.value.timestamp, expiration, now) {
            dead := dead + {e};
          } else {
            key := Some(e.key);
            break;
          }
        }
        i := i + 1;
      }
      RemoveAll(dead);
    }

    /** Whatever the time, every entry of the key with the value goes. */
    method RemoveValue(key: Key, value: V) returns (removed: set<Entry<CacheValue<V>>>)
      requires Valid()
      modifies cache
      ensures Valid() && removed == Matches(old(List()), key, value) && List() == Dropped(old(List()), removed)
    {
      removed := {};
      var range := cache.Range(key);
      var i := 0;
      while i < |range|
        invariant 0 <= i <= |range|
        invariant removed == set j | 0 <= j < i && cache.nodes[range[j]].value.value == value :: cache.nodes[range[j]]
      {
        if cache.nodes[range[i]].value.value == value {
          removed := removed + {cache.nodes[range[i]]};
        }
        i := i + 1;
      }
      RangeMatches(key, value, removed);
      RemoveAll(removed);
    }

    lemma RangeMatches(key: Key, value: V, found: set<Entry<CacheValue<V>>>)
      requires Valid()
      requires var range := cache.Range(key);
               found == set j | 0 <= j < |range| && cache.nodes[range[j]].value.value == value :: cache.nodes[range[j]]
      ensures found == Matches(List(), key, value)
    {
      forall e | e in Matches(List(), key, value) ensures e in found {
        var i :| 0 <= i < |List()| && List()[i] == e;
        cache.NodeAt(i);
      }
      forall e | e in found ensures e in Matches(List(), key, value) {
        var j :| 0 <= j < |cache.Range(key)| && cache.nodes[cache.Range(key)[j]] == e;
        var i := LruCache.PlaceOf(cache.right, cache.Range(key)[j]);
        cache.NodeAt(i);
      }
    }
  }

  // ----- getKey -----

  /** getKey answers the key of the least recent live match; the entries it removes are exactly the
      expired matches before that one. */
  lemma {:induction false} ScanMeaning<V>(l: Items<V>, value: V, expiration: nat, now: nat) returns (i: nat)
    ensures i <= |l|
    ensures Scanned(l, value, expiration, now).key
            == if i < |l| then Some(l[i].key) else None
    ensures i < |l| ==> l[i].value.value == value && InTime(l[i].value.timestamp, expiration, now)
    ensures forall j | 0 <= j < i && l[j].value.value == value :: !InTime(l[j].value.timestamp, expiration, now)
    ensures Scanned(l, value, expiration, now).dead == set j | 0 <= j < i && l[j].value.value == value :: l[j]
  {
    if l == [] || (l[0].value.value == value && Live(l[0], expiration, now)) {
      i := 0;
    } else {
      var k := ScanMeaning(l[1..], value, expiration, now);
      i := k + 1;
      var later := set j | 0 <= j < k && l[1..][j].value.value == value :: l[1..][j];
      var all := set j | 0 <= j < i && l[j].value.value == value :: l[j];
      forall e ensures e in all <==> e in later || (e == l[0] && l[0].value.value == value) {
        if e in later {
          var j :| 0 <= j < k && l[1..][j].value.value == value && l[1..][j] == e;
          assert l[j + 1] == e;
        }
        if e in all {
          var j :| 0 <= j < i && l[j].value.value == value && l[j] == e;
          if j > 0 {
            assert l[1..][j - 1] == e;
          }
        }
      }
    }
  }

  // ----- Runs -----

  datatype Op<V> =
    | Put(key: Key, value: V, now: nat) | Get(key: Key, now: nat) | Pop(key: Key, now: nat)
    | GetKey(value: V, now: nat) | RemoveKey(key: Key) | RemoveValue(key: Key, value: V)

  function Applied<V(==)>(l: Items<V>, op: Op<V>, capacity: nat, expiration: nat): Items<V> {
    match op
    case Put(key, value, now) => Stored(l, Entry(key, Stamped(value, now)), capacity)
    case Get(key, now) => Got(l, key, expiration, now)
    case Pop(key, now) => Popped(l, key)
    case GetKey(value, now) => Dropped(l, Scanned(l, value, expiration, now).dead)
    case RemoveKey(key) => KeyRemoved(l, key)
    case RemoveValue(key, value) => Dropped(l, Matches(l, key, value))
  }

  /** The list after a run on an empty cache. */
  function After<V(==)>(ops: seq<Op<V>>, capacity: nat, expiration: nat): Items<V> {
    if ops == [] then []
    else Applied(After(ops[..|ops| - 1], capacity, expiration), ops[|ops| - 1], capacity, expiration)
  }

  lemma {:induction false} DroppedMembers<T>(l: seq<T>, dead: set<T>)
    ensures forall x | x in Dropped(l, dead) :: x in l
  {
    if l != [] {
      DroppedMembers(l[1..], dead);
    }
  }

  lemma {:induction false} KeyRemovedMembers<V>(l: seq<Entry<V>>, key: Key)
    ensures forall x | x in KeyRemoved(l, key) :: x in l
  {
    if l != [] {
      KeyRemovedMembers(l[1..], key);
    }
  }

  lemma WithoutMembers<T>(l: seq<T>, i: nat)
    ensures forall x | x in Without(l, i) :: x in l
  {
  }

  /** Only a put brings anything in. */
  lemma NothingNew<V>(l: Items<V>, op: Op<V>, capacity: nat, expiration: nat, e: Entry<CacheValue<V>>)
    requires e in Applied(l, op, capacity, expiration)
    ensures e in l || (op.Put? && e == Entry(op.key, Stamped(op.value, op.now)))
  {
    match op
    case Put(key, value, now) => WithoutMembers(l, FindPair(l, Entry(key, Stamped(value, now))));
    case Get(key, now) =>
      WithoutMembers(l, Find(l, key));
      if Find(l, key) < |l| {
        WithoutMembers(Touched(l, key), FindPair(Touched(l, key), l[Find(l, key)]));
      }
    case Pop(key, now) => WithoutMembers(l, Find(l, key));
    case GetKey(value, now) => DroppedMembers(l, Scanned(l, value, expiration, now).dead);
    case RemoveKey(key) => KeyRemovedMembers(l, key);
    case RemoveValue(key, value) => DroppedMembers(l, Matches(l, key, value));
  }

  lemma {:induction false} CameFromAPut<V>(ops: seq<Op<V>>, capacity: nat, expiration: nat, e: Entry<CacheValue<V>>)
    returns (i: nat)
    requires e in After(ops, capacity, expiration)
    ensures i < |ops| && ops[i].Put? && ops[i].key == e.key && Stamped(ops[i].value, ops[i].now) == e.value
    decreases |ops|
  {
    var before, op := ops[..|ops| - 1], ops[|ops| - 1];
    NothingNew(After(before, capacity, expiration), op, capacity, expiration, e);
    if e in After(before, capacity, expiration) {
      i := CameFromAPut(before, capacity, expiration, e);
    } else {
      i := |ops| - 1;
    }
  }

  lemma Truncation(put: nat, expiration: nat, now: nat)
    requires now < (put / MICROS + expiration) * MICROS
    ensures now < put + expiration * MICROS
  {
  }

  /** Safety: after any run, what get or pop answers was put under that key less than the expiration
      ago, truncated seconds or not. */
  lemma NeverStale<V>(ops: seq<Op<V>>, capacity: nat, expiration: nat, key: Key, now: nat) returns (i: nat)
    requires expiration != 0 && Answer(After(ops, capacity, expiration), key, expiration, now).Some?
    ensures i < |ops| && ops[i].Put? && ops[i].key == key
    ensures Some(ops[i].value) == Answer(After(ops, capacity, expiration), key, expiration, now)
    ensures now < ops[i].now + expiration * MICROS
  {
    var l := After(ops, capacity, expiration);
    var e := l[Find(l, key)];
    i := CameFromAPut(ops, capacity, expiration, e);
    Truncation(ops[i].now, expiration, now);
  }

  // ----- Getting past expired entries -----

  function Gets<V(==)>(l: Items<V>, key: Key, expiration: nat, now: nat, n: nat): Items<V>
    decreases n
  {
    if n == 0 then l else Gets(Got(l, key, expiration, now), key, expiration, now, n - 1)
  }

  function ExpiredCount<V>(vals: seq<CacheValue<V>>, expiration: nat, now: nat): nat {
    if vals == [] then 0
    else (if Expired(vals[0].timestamp, expiration, now) then 1 else 0) + ExpiredCount(vals[1..], expiration, now)
  }

  lemma {:induction false} FoundAtEnd<V>(l: seq<Entry<V>>, e: Entry<V>)
    requires e !in l
    ensures FindPair(l + [e], e) == |l| && Without(l + [e], |l|) == l
  {
    if l != [] {
      assert (l + [e])[0] == l[0] && (l + [e])[1..] == l[1..] + [e];
      FoundAtEnd(l[1..], e);
    }
  }

  /** A get that meets an expired entry takes just that entry away. */
  lemma ExpiredIsDropped<V(!new)>(l: Items<V>, key: Key, expiration: nat, now: nat)
    requires Distinct(l) && Find(l, key) < |l| && !Live(l[Find(l, key)], expiration, now)
    ensures Distinct(Got(l, key, expiration, now))
    ensures Values(l, key) != [] && Values(l, key)[0] == l[Find(l, key)].value
    ensures Values(Got(l, key, expiration, now), key) == Values(l, key)[1..]
  {
    var i := Find(l, key);
    WithoutDistinct(l, i);
    var rest := Without(l, i);
    FoundAtEnd(rest, l[i]);
    assert Got(l, key, expiration, now) == rest;
    NoValues(l[..i], key);
    ValuesWithout(l, i, key);
    ValuesOfOne(l[i], key);
    assert [] + ([l[i].value] + Values(l[i + 1..], key)) == [l[i].value] + Values(l[i + 1..], key);
  }

  /** Of the gets of a key at one instant, the one after `j` others is the first to answer; it answers
      the key's value `j`, and those before it have expired. */
  ghost predicate Reached<V(!new)>(l: Items<V>, vals: seq<CacheValue<V>>, key: Key, expiration: nat, now: nat, j: nat) {
    && j < |vals| && j <= ExpiredCount(vals, expiration, now) && !Expired(vals[j].timestamp, expiration, now)
    && (forall i | 0 <= i < j :: Expired(vals[i].timestamp, expiration, now))
    && Answer(Gets(l, key, expiration, now, j), key, expiration, now) == Some(vals[j].value)
    && (forall i | 0 <= i < j :: Answer(Gets(l, key, expiration, now, i), key, expiration, now) == None)
  }

  /** With x expired entries under a key and a live one, x + 1 gets at one instant are enough: one of
      them answers the live value that comes first, and those before it answer nothing. */
  lemma {:induction false} LiveIsReached<V(!new)>(l: Items<V>, vals: seq<CacheValue<V>>, key: Key, expiration: nat,
                                                  now: nat, live: nat)
    returns (j: nat)
    requires Distinct(l) && vals == Values(l, key)
    requires live < |vals| && !Expired(vals[live].timestamp, expiration, now)
    ensures Reached(l, vals, key, expiration, now, j) && j <= live
    decreases |vals|
  {
    FirstGet(l, vals, key, expiration, now);
    if !Expired(vals[0].timestamp, expiration, now) {
      j := 0;
      ReachedAtOnce(l, vals, key, expiration, now);
    } else {
      var later := vals[1..];
      assert later[live - 1] == vals[live];
      var k := LiveIsReached(Got(l, key, expiration, now), later, key, expiration, now, live - 1);
      ReachedLater(l, vals, key, expiration, now, k);
      j := k + 1;
    }
  }

  /** What the first get answers, and the values left for the later ones. */
  lemma FirstGet<V(!new)>(l: Items<V>, vals: seq<CacheValue<V>>, key: Key, expiration: nat, now: nat)
    requires Distinct(l) && vals == Values(l, key) && vals != []
    ensures Answer(l, key, expiration, now)
            == if Expired(vals[0].timestamp, expiration, now) then None else Some(vals[0].value)
    ensures Expired(vals[0].timestamp, expiration, now)
            ==> Distinct(Got(l, key, expiration, now)) && vals[1..] == Values(Got(l, key, expiration, now), key)
  {
    FirstValue(l, key);
    if Expired(vals[0].timestamp, expiration, now) {
      ExpiredIsDropped(l, key, expiration, now);
    }
  }

  lemma ReachedAtOnce<V(!new)>(l: Items<V>, vals: seq<CacheValue<V>>, key: Key, expiration: nat, now: nat)
    requires vals != [] && !Expired(vals[0].timestamp, expiration, now)
    requires Answer(l, key, expiration, now) == Some(vals[0].value)
    ensures Reached(l, vals, key, expiration, now, 0)
  {
    assert Gets(l, key, expiration, now, 0) == l;
  }

  /** A get that answers nothing comes before the others. */
  lemma ReachedLater<V(!new)>(l: Items<V>, vals: seq<CacheValue<V>>, key: Key, expiration: nat, now: nat, k: nat)
    requires vals != [] && Expired(vals[0].timestamp, expiration, now) && Answer(l, key, expiration, now) == None
    requires Reached(Got(l, key, expiration, now), vals[1..], key, expiration, now, k)
    ensures Reached(l, vals, key, expiration, now, k + 1)
  {
    OneMoreGet(l, key, expiration, now, k);
    NoAnswerBefore(l, key, expiration, now, k);
    assert forall i | 0 < i <= k + 1 :: vals[1..][i - 1] == vals[i];
  }

  lemma OneMoreGet<V>(l: Items<V>, key: Key, expiration: nat, now: nat, k: nat)
    ensures Gets(l, key, expiration, now, k + 1) == Gets(Got(l, key, expiration, now), key, expiration, now, k)
  {
  }

  lemma FirstValue<V>(l: seq<Entry<V>>, key: Key)
    requires Values(l, key) != []
    ensures Find(l, key) < |l| && l[Find(l, key)].value == Values(l, key)[0]
  {
    TouchRotates(l, key);
  }

  /** The first get answers nothing, and the later ones are gets after it. */
  lemma NoAnswerBefore<V(!new)>(l: Items<V>, key: Key, expiration: nat, now: nat, k: nat)
    requires Answer(l, key, expiration, now) == None
    requires forall i | 0 <= i < k ::
               Answer(Gets(Got(l, key, expiration, now), key, expiration, now, i), key, expiration, now) == None
    ensures forall n | 0 <= n < k + 1 :: Answer(Gets(l, key, expiration, now, n), key, expiration, now) == None
  {
    forall n | 0 <= n < k + 1 ensures Answer(Gets(l, key, expiration, now, n), key, expiration, now) == None {
      if n > 0 {
        OneMoreGet(l, key, expiration, now, n - 1);
      }
    }
  }

  // ----- How long a value is served -----

  /** A value put at `put` and asked for at `now`, with nothing else under the key: it is served if and only
      if the cache has no expiration or the second of the put and the expiration lie ahead. */
  method PutAndGet<V(==, !new)>(cache: TimedCache<V>, key: Key, value: V, put: nat, now: nat) returns (v: Option<V>)
    requires cache.Valid() && forall i | 0 <= i < |cache.List()| :: cache.List()[i].key != key
    modifies cache.cache
    ensures cache.Valid()
    ensures v == if cache.expiration == 0 || now < (put / MICROS + cache.expiration) * MICROS then Some(value) else None
  {
    ghost var l, e := cache.List(), Entry(key, Stamped(value, put));
    OnlyOneOfKey(l, e, cache.cache.capacity);
    cache.Put(key, value, put);
    v := cache.Get(key, now);
  }

  lemma OnlyOneOfKey<V>(l: Items<V>, e: Entry<CacheValue<V>>, capacity: nat)
    requires forall i | 0 <= i < |l| :: l[i].key != e.key
    ensures var t := Stored(l, e, capacity); t != [] && LeastRecent(t, e.key, |t| - 1)
  {
    assert FindPair(l, e) == |l|;
  }

  /** So it is served for all of expiration - 1 seconds, and for none of the expiration. */
  lemma ServedFor(put: nat, expiration: nat, now: nat)
    requires expiration > 0
    ensures now <= put + (expiration - 1) * MICROS ==> now < (put / MICROS + expiration) * MICROS
    ensures now >= put + expiration * MICROS ==> !(now < (put / MICROS + expiration) * MICROS)
  {
  }
}
