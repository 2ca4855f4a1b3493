/** One-shot watches: three maps from paths to lists of watches, filled by successful requests and emptied
    by node events. */
module WatchManager {
  import opened Common

  /** A registration, by identity. */
  type Watch = nat

  type Watches = map<string, seq<Watch>>

  datatype ReturnCode = Ok | NoNode | OtherError

  datatype Event = SessionStateChanged | Created | DataChanged | ChildrenChanged | Removed

  datatype Kind = Exists | GetData | GetChildren

  /** The three maps. */
  datatype State = State(onExists: Watches, onData: Watches, onChildren: Watches)

  const EMPTY := State(map[], map[], map[])

  function At(m: Watches, path: string): seq<Watch> {
    if path in m then m[path] else []
  }

  ghost predicate NoEmptyLists(m: Watches) {
    forall p | p in m :: m[p] != []
  }

  ghost predicate Tidy(s: State) {
    NoEmptyLists(s.onExists) && NoEmptyLists(s.onData) && NoEmptyLists(s.onChildren)
  }

  function Added(m: Watches, path: string, w: Watch): Watches {
    m[path := At(m, path) + [w]]
  }

  /** Which map a registration goes to depends on the answer to its request. */
  function Activated(s: State, kind: Kind, path: string, w: Watch, rc: ReturnCode): State {
    match kind
    case Exists =>
      if rc == Ok then s.(onData := Added(s.onData, path, w))
      else if rc == NoNode then s.(onExists := Added(s.onExists, path, w))
      else s
    case GetData => if rc == Ok then s.(onData := Added(s.onData, path, w)) else s
    case GetChildren => if rc == Ok then s.(onChildren := Added(s.onChildren, path, w)) else s
  }

  predicate Activates(kind: Kind, rc: ReturnCode) {
    rc == Ok || (kind == Exists && rc == NoNode)
  }

  /** The maps an event empties at its path: later events empty fewer of them. */
  predicate Fires(event: Event, kind: Kind) {
    match event
    case SessionStateChanged => false
    case Created => true
    case DataChanged => kind != Exists
    case ChildrenChanged => kind == GetChildren
    case Removed => kind != Exists
  }

  function Fired(s: State, event: Event, path: string): State {
    State(if Fires(event, Exists) then s.onExists - {path} else s.onExists,
          if Fires(event, GetData) then s.onData - {path} else s.onData,
          if Fires(event, GetChildren) then s.onChildren - {path} else s.onChildren)
  }

  /** The watches a node event hands out. */
  function HandedOut(s: State, event: Event, path: string): seq<Watch> {
    (if Fires(event, Exists) then At(s.onExists, path) else [])
    + (if Fires(event, GetData) then At(s.onData, path) else [])
    + (if Fires(event, GetChildren) then At(s.onChildren, path) else [])
  }

  /** The same, event by event and map by map. */
  lemma FiredInFields(s: State, t: State, event: Event, path: string, watches: seq<Watch>)
    requires event != SessionStateChanged
    requires t.onExists == if event == Created then s.onExists - {path} else s.onExists
    requires t.onData == if event == ChildrenChanged then s.onData else s.onData - {path}
    requires t.onChildren == s.onChildren - {path}
    requires watches == (if event == Created then At(s.onExists, path) else [])
                        + (if event == ChildrenChanged then [] else At(s.onData, path)) + At(s.onChildren, path)
    ensures t == Fired(s, event, path) && watches == HandedOut(s, event, path)
  {
  }

  /** The paths of a map in some order; the order is the hash map's. */
  ghost predicate PathOrder(m: Watches, order: seq<string>) {
    Distinct(order) && forall p :: p in order <==> p in m
  }

  /** The lists of a map, one after the other. */
  function Listed(m: Watches, order: seq<string>): seq<Watch> {
    if order == [] then [] else Listed(m, order[..|order| - 1]) + At(m, order[|order| - 1])
  }

  ghost predicate IsListing(m: Watches, watches: seq<Watch>) {
    exists order | PathOrder(m, order) :: watches == Listed(m, order)
  }

  lemma {:induction false} ListedParts(m: Watches, a: seq<string>, b: seq<string>)
    ensures Listed(m, a + b) == Listed(m, a) + Listed(m, b)
    decreases |b|
  {
    if b == [] {
      assert a + b == a;
    } else {
      assert (a + b)[..|a + b| - 1] == a + b[..|b| - 1];
      ListedParts(m, a, b[..|b| - 1]);
    }
  }

  lemma OneListed(m: Watches, path: string)
    ensures Listed(m, [path]) == At(m, path)
  {
    assert [path][..0] == [];
    assert Listed(m, []) + At(m, path) == At(m, path);
  }

  lemma Around(order: seq<string>, i: nat)
    requires i < |order|
    ensures order == order[..i] + ([order[i]] + order[i + 1..])
  {
  }

  /** Each list is there once, whole and in its order, between the lists of the paths before and after. */
  lemma EachListOnce(m: Watches, order: seq<string>, i: nat)
    requires PathOrder(m, order) && i < |order|
    ensures order[i] in m
    ensures Listed(m, order) == Listed(m, order[..i]) + m[order[i]] + Listed(m, order[i + 1..])
  {
    var path, others := order[i], order[i + 1..];
    assert path in order;
    Around(order, i);
    ListedParts(m, order[..i], [path] + others);
    ListedParts(m, [path], others);
    OneListed(m, path);
    Assoc(Listed(m, order[..i]), At(m, path), Listed(m, others));
  }

  function Pending(s: State, path: string): multiset<Watch> {
    multiset(At(s.onExists, path)) + multiset(At(s.onData, path)) + multiset(At(s.onChildren, path))
  }

  // ----- The manager -----

  class Manager {
    var existsWatches: Watches
    var getDataWatches: Watches
    var getChildrenWatches: Watches
    var defaultWatch: Option<Watch>

    ghost function Maps(): State
      reads this
    {
      State(existsWatches, getDataWatches, getChildrenWatches)
    }

    constructor ()
      ensures Maps() == EMPTY && defaultWatch == None
    {
      existsWatches := map[];
      getDataWatches := map[];
      getChildrenWatches := map[];
      defaultWatch := None;
    }

    /** moveWatches: the list at the path, if there is one, leaves its map for the end of the other. */
    static method MoveWatches(from: Watches, path: string, to: seq<Watch>) returns (left: Watches, all: seq<Watch>)
      ensures left == from - {path} && all == to + At(from, path)
    {
      left := from;
      all := to;
      if path in from {
        all := all + from[path];
        left := left - {path};
      }
    }

    method GetWatches(event: Event, path: string) returns (watches: seq<Watch>)
      requires event != SessionStateChanged
      modifies this
      ensures defaultWatch == old(defaultWatch)
      // Only a creation empties the first map at the path, everything but a children event the second,
      // and every node event the third.
      ensures existsWatches == if event == Created then old(existsWatches) - {path} else old(existsWatches)
      ensures getDataWatches == if event == ChildrenChanged then old(getDataWatches) else old(getDataWatches) - {path}
      ensures getChildrenWatches == old(getChildrenWatches) - {path}
      // What the emptied maps held at the path is handed out, in the maps' order.
      ensures event == Created ==>
                watches == At(old(existsWatches), path) + At(old(getDataWatches), path)
                           + At(old(getChildrenWatches), path)
      ensures event == DataChanged || event == Removed ==>
                watches == At(old(getDataWatches), path) + At(old(getChildrenWatches), path)
      ensures event == ChildrenChanged ==> watches == At(old(getChildrenWatches), path)
      ensures Maps() == Fired(old(Maps()), event, path) && watches == HandedOut(old(Maps()), event, path)
    {
      watches := [];
      ghost var s := Maps();
      var created, changed := event == Created, event == Created || event == DataChanged;
      if created {
        existsWatches, watches := MoveWatches(existsWatches, path, watches);
      }
      if changed {
        getDataWatches, watches := MoveWatches(getDataWatches, path, watches);
      }
      if changed || event == ChildrenChanged {
        getChildrenWatches, watches := MoveWatches(getChildrenWatches, path, watches);
      }
      if event == Removed {
        getDataWatches, watches := MoveWatches(getDataWatches, path, watches);
        getChildrenWatches, watches := MoveWatches(getChildrenWatches, path, watches);
      }
      FiredInFields(s, Maps(), event, path, watches);
    }

    /** A session event copies every list, after the default watch, and takes none away. */
    method GetSessionWatches() returns (watches: seq<Watch>)
      ensures exists all, more, most | IsListing(existsWatches, all) && IsListing(getDataWatches, more)
                                       && IsListing(getChildrenWatches, most) ::
                watches == (if defaultWatch.Some? then [defaultWatch.value] else []) + all + more + most
    {
      var all := AllOf(existsWatches);
      var more := AllOf(getDataWatches);
      var most := AllOf(getChildrenWatches);
      watches := (if defaultWatch.Some? then [defaultWatch.value] else []) + all + more + most;
    }

    static method AllOf(m: Watches) returns (watches: seq<Watch>)
      ensures IsListing(m, watches)
    {
      watches := [];
      ghost var order := [];
      var left := m.Keys;
      while left != {}
        invariant left <= m.Keys && Distinct(order) && forall p :: p in order <==> p in m.Keys - left
        invariant watches == Listed(m, order)
        decreases left
      {
        var path :| path in left;
        assert path !in order && (order + [path])[..|order|] == order;
        assert forall i | 0 <= i < |order| :: order[i] in order;
        watches, order := watches + m[path], order + [path];
        left := left - {path};
      }
      assert PathOrder(m, order);
    }

    method AddToExistsWatches(path: string, w: Watch)
      modifies `existsWatches
      ensures existsWatches == Added(old(existsWatches), path, w)
    {
      existsWatches := AddWatch(existsWatches, path, w);
    }

    method AddToGetDataWatches(path: string, w: Watch)
      modifies `getDataWatches
      ensures getDataWatches == Added(old(getDataWatches), path, w)
    {
      getDataWatches := AddWatch(getDataWatches, path, w);
    }

    method AddToGetChildrenWatches(path: string, w: Watch)
      modifies `getChildrenWatches
      ensures getChildrenWatches == Added(old(getChildrenWatches), path, w)
    {
      getChildrenWatches := AddWatch(getChildrenWatches, path, w);
    }

    static method AddWatch(watches: Watches, path: string, w: Watch) returns (m: Watches)
      ensures m == Added(watches, path, w)
    {
      if path !in watches {
        m := watches[path := [w]];
        assert [] + [w] == [w];
      } else {
        m := watches[path := watches[path] + [w]];
      }
    }

    static method GetPaths(watches: Watches) returns (paths: seq<string>)
      ensures forall p :: p in paths <==> p in watches
      ensures forall i, j | 0 <= i < j < |paths| :: paths[i] != paths[j]
    {
      paths := [];
      var left := watches.Keys;
      while left != {}
        invariant left <= watches.Keys && forall p :: p in paths <==> p in watches.Keys - left
        invariant forall i, j | 0 <= i < j < |paths| :: paths[i] != paths[j]
        decreases left
      {
        var p :| p in left;
        assert p !in paths;
        assert forall i | 0 <= i < |paths| :: paths[i] in paths;
        paths := paths + [p];
        left := left - {p};
      }
    }

    /** activate, of the registration of a request. */
    method Activate(kind: Kind, path: string, w: Watch, rc: ReturnCode) returns (done: bool)
      modifies this
      ensures defaultWatch == old(defaultWatch)
      // The map that gets the watch gets it at the end of the path's list; the others stay.
      ensures done <==> rc == Ok || (rc == NoNode && kind == Exists)
      ensures existsWatches
              == if kind == Exists && rc == NoNode then old(existsWatches)[path := At(old(existsWatches), path) + [w]]
                 else old(existsWatches)
      ensures getDataWatches
              == if kind != GetChildren && rc == Ok
                 then old(getDataWatches)[path := At(old(getDataWatches), path) + [w]]
                 else old(getDataWatches)
      ensures getChildrenWatches
              == if kind == GetChildren && rc == Ok
                 then old(getChildrenWatches)[path := At(old(getChildrenWatches), path) + [w]]
                 else old(getChildrenWatches)
      ensures done == Activates(kind, rc) && Maps() == Activated(old(Maps()), kind, path, w, rc)
    {
      done := true;
      if kind == Exists && rc == Ok {
        AddToGetDataWatches(path, w);
      } else if kind == Exists && rc == NoNode {
        AddToExistsWatches(path, w);
      } else if kind == GetData && rc == Ok {
        AddToGetDataWatches(path, w);
      } else if kind == GetChildren && rc == Ok {
        AddToGetChildrenWatches(path, w);
      } else {
        done := false;
      }
    }

    /** The paths send_set_watches reports; it sends nothing when no watch is pending. */
    method SetWatchesRequest() returns (send: bool, existWatches: seq<string>, childWatches: seq<string>,
                                        dataWatches: seq<string>)
      requires Tidy(Maps())
      ensures forall p :: p in existWatches <==> At(existsWatches, p) != []
      ensures forall p :: p in childWatches <==> At(getChildrenWatches, p) != []
      ensures forall p :: p in dataWatches <==> At(getDataWatches, p) != []
      ensures send <==> exists p :: Pending(Maps(), p) != multiset{}
    {
      existWatches := GetPaths(existsWatches);
      childWatches := GetPaths(getChildrenWatches);
      dataWatches := GetPaths(getDataWatches);
      send := !(dataWatches == [] && existWatches == [] && childWatches == []);
      if send {
        var p := if dataWatches != [] then dataWatches[0]
                 else if existWatches != [] then existWatches[0]
                 else childWatches[0];
        assert p in dataWatches || p in existWatches || p in childWatches;
        var w := if p in dataWatches then getDataWatches[p][0]
                 else if p in existWatches then existsWatches[p][0]
                 else getChildrenWatches[p][0];
        assert w in Pending(Maps(), p);
      } else {
        forall p ensures Pending(Maps(), p) == multiset{} {
          assert p !in dataWatches && p !in existWatches && p !in childWatches;
        }
      }
    }
  }

  // ----- Runs -----

  datatype Op =
    | Activate(kind: Kind, path: string, watch: Watch, rc: ReturnCode)
    | Node(event: Event, path: string)
    | Session

  function Applied(s: State, op: Op): State {
    match op
    case Activate(kind, path, w, rc) => Activated(s, kind, path, w, rc)
    case Node(event, path) => Fired(s, event, path)
    case Session => s
  }

  function After(ops: seq<Op>): State {
    if ops == [] then EMPTY else Applied(After(ops[..|ops| - 1]), ops[|ops| - 1])
  }

  /** The watches activated at a path in a run. */
  function ActivatedAt(ops: seq<Op>, path: string): multiset<Watch> {
    if ops == [] then multiset{}
    else
      var op := ops[|ops| - 1];
      ActivatedAt(ops[..|ops| - 1], path)
      + if op.Activate? && op.path == path && Activates(op.kind, op.rc) then multiset{op.watch} else multiset{}
  }

  /** The watches handed out by the node events of a run at a path. */
  function HandedAt(ops: seq<Op>, path: string): multiset<Watch> {
    if ops == [] then multiset{}
    else
      var before, op := ops[..|ops| - 1], ops[|ops| - 1];
      HandedAt(before, path)
      + if op.Node? && op.path == path then multiset(HandedOut(After(before), op.event, path)) else multiset{}
  }

  lemma AddedCount(m: Watches, path: string, w: Watch, p: string)
    ensures multiset(At(Added(m, path, w), p)) == multiset(At(m, p)) + if p == path then multiset{w} else multiset{}
  {
  }

  lemma ActivateConserves(s: State, kind: Kind, at: string, w: Watch, rc: ReturnCode, path: string)
    ensures Pending(Activated(s, kind, at, w, rc), path)
            == Pending(s, path) + if at == path && Activates(kind, rc) then multiset{w} else multiset{}
  {
    AddedCount(s.onExists, at, w, path);
    AddedCount(s.onData, at, w, path);
    AddedCount(s.onChildren, at, w, path);
  }

  /** What one map loses is what it hands out. */
  lemma EmptiedConserves(m: Watches, fires: bool, path: string)
    ensures multiset(At(if fires then m - {path} else m, path)) + multiset(if fires then At(m, path) else [])
            == multiset(At(m, path))
  {
  }

  lemma Sum3(a: seq<Watch>, b: seq<Watch>, c: seq<Watch>)
    ensures multiset(a + b + c) == multiset(a) + multiset(b) + multiset(c)
  {
  }

  lemma SumParts(a: multiset<Watch>, b: multiset<Watch>, c: multiset<Watch>, x: multiset<Watch>, y: multiset<Watch>,
                 z: multiset<Watch>)
    ensures (a + b + c) + (x + y + z) == (a + x) + (b + y) + (c + z)
  {
  }

  lemma NodeConserves(s: State, event: Event, at: string, path: string)
    ensures Pending(Fired(s, event, at), path)
            + (if at == path then multiset(HandedOut(s, event, path)) else multiset{})
            == Pending(s, path)
  {
    if at == path {
      var t := Fired(s, event, path);
      var a := if Fires(event, Exists) then At(s.onExists, path) else [];
      var b := if Fires(event, GetData) then At(s.onData, path) else [];
      var c := if Fires(event, GetChildren) then At(s.onChildren, path) else [];
      EmptiedConserves(s.onExists, Fires(event, Exists), path);
      EmptiedConserves(s.onData, Fires(event, GetData), path);
      EmptiedConserves(s.onChildren, Fires(event, GetChildren), path);
      Sum3(a, b, c);
      SumParts(multiset(At(t.onExists, path)), multiset(At(t.onData, path)), multiset(At(t.onChildren, path)),
               multiset(a), multiset(b), multiset(c));
    } else {
      ElsewhereUntouched(s, event, at, path);
    }
  }

  lemma ElsewhereUntouched(s: State, event: Event, at: string, path: string)
    requires at != path
    ensures Pending(Fired(s, event, at), path) == Pending(s, path)
  {
    var t := Fired(s, event, at);
    assert At(t.onExists, path) == At(s.onExists, path) && At(t.onData, path) == At(s.onData, path);
    assert At(t.onChildren, path) == At(s.onChildren, path);
  }

  lemma Balance(p: multiset<Watch>, p': multiset<Watch>, h: multiset<Watch>, handed: multiset<Watch>,
                a: multiset<Watch>, added: multiset<Watch>)
    requires p + h == a && p' + handed == p + added
    ensures p' + (h + handed) == a + added
  {
    assert p' + (h + handed) == p' + handed + h;
  }

  /** Conservation: at every path, the watches activated are those still pending in the three maps
      together with those handed out by node events; session events change nothing. */
  lemma {:induction false} Conservation(ops: seq<Op>, path: string)
    ensures Pending(After(ops), path) + HandedAt(ops, path) == ActivatedAt(ops, path)
    decreases |ops|
  {
    if ops != [] {
      var before, op := ops[..|ops| - 1], ops[|ops| - 1];
      var s := After(before);
      Conservation(before, path);
      var activates := op.Activate? && op.path == path && Activates(op.kind, op.rc);
      var added := if activates then multiset{op.watch} else multiset{};
      var handed := if op.Node? && op.path == path then multiset(HandedOut(s, op.event, path)) else multiset{};
      if op.Activate? {
        ActivateConserves(s, op.kind, op.path, op.watch, op.rc, path);
      } else if op.Node? {
        NodeConserves(s, op.event, op.path, path);
      }
      Balance(Pending(s, path), Pending(After(ops), path), HandedAt(before, path), handed, ActivatedAt(before, path),
              added);
    }
  }

  /** So a watch activated once is either still pending or was handed out, once. */
  lemma ExactlyOnce(ops: seq<Op>, path: string, w: Watch)
    requires ActivatedAt(ops, path)[w] == 1
    ensures (Pending(After(ops), path)[w] == 1 && HandedAt(ops, path)[w] == 0)
            || (Pending(After(ops), path)[w] == 0 && HandedAt(ops, path)[w] == 1)
  {
    Conservation(ops, path);
    assert (Pending(After(ops), path) + HandedAt(ops, path))[w] == 1;
  }

  /** No path ever maps to an empty list. */
  lemma {:induction false} AlwaysTidy(ops: seq<Op>)
    ensures Tidy(After(ops))
    decreases |ops|
  {
    if ops != [] {
      AlwaysTidy(ops[..|ops| - 1]);
    }
  }
}
