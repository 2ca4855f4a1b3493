/** Creating a path node by node: the synchronous loop and the asynchronous delegate, against the tree of
    a server nobody else writes to. */
module PathCreation {
  import opened Common
  import opened PathText

  datatype ReturnCode = Ok | NoNode | NodeExists | NotEmpty

  /** The nodes of a tree, each as the parts of its path; the root is always there. */
  type Tree = set<seq<string>>

  ghost predicate Closed(tree: Tree) {
    forall n | n in tree :: n != [] && (|n| > 1 ==> n[..|n| - 1] in tree)
  }

  // ----- The server -----

  function Creation(tree: Tree, node: seq<string>): ReturnCode {
    if node in tree || node == [] then NodeExists
    else if |node| > 1 && node[..|node| - 1] !in tree then NoNode
    else Ok
  }

  predicate HasChildren(tree: Tree, node: seq<string>) {
    exists n | n in tree :: node < n
  }

  function Removal(tree: Tree, node: seq<string>): ReturnCode {
    if node !in tree then NoNode else if HasChildren(tree, node) then NotEmpty else Ok
  }

  class Server {
    var tree: Tree
    /** The paths of all create requests, in order. */
    ghost var creates: seq<string>

    constructor (tree: Tree)
      ensures this.tree == tree && creates == []
    {
      this.tree := tree;
      creates := [];
    }

    method Create(path: string) returns (rc: ReturnCode, created: string)
      modifies this
      ensures rc == Creation(old(tree), Split(path, false)) && creates == old(creates) + [path]
      ensures if rc == Ok then tree == old(tree) + {Split(path, false)} && created == path
              else tree == old(tree) && created == ""
    {
      var node := SplitPath(path, false);
      creates := creates + [path];
      rc := Creation(tree, node);
      if rc == Ok {
        tree := tree + {node};
        created := path;
      } else {
        created := "";
      }
    }

    method Remove(path: string) returns (rc: ReturnCode)
      modifies this
      ensures rc == Removal(old(tree), Split(path, false)) && creates == old(creates)
      ensures tree == if rc == Ok then old(tree) - {Split(path, false)} else old(tree)
    {
      var node := SplitPath(path, false);
      rc := Removal(tree, node);
      if rc == Ok {
        tree := tree - {node};
      }
    }
  }

  // ----- What creating a path means -----

  /** The node and all its ancestors. */
  function Prefixes(parts: seq<string>, n: nat): Tree
    requires n <= |parts|
  {
    set k | 1 <= k <= n :: parts[..k]
  }

  /** The requests for the first `n` nodes of a path. */
  function Requests(parts: seq<string>, n: nat): seq<string>
    requires n <= |parts|
  {
    if n == 0 then [] else Requests(parts, n - 1) + [Joined(parts[..n])]
  }

  function AfterRemoval(tree: Tree, parts: seq<string>): Tree {
    if Removal(tree, parts) == Ok then tree - {parts} else tree
  }

  lemma RemovalKeepsClosed(tree: Tree, parts: seq<string>)
    requires Closed(tree) && parts != []
    ensures Closed(AfterRemoval(tree, parts))
    ensures parts in AfterRemoval(tree, parts) <==> HasChildren(tree, parts)
    ensures AfterRemoval(tree, parts) + Prefixes(parts, |parts|) == tree + Prefixes(parts, |parts|)
  {
    var after := AfterRemoval(tree, parts);
    if HasChildren(tree, parts) {
      var n :| n in tree && parts < n;
      AncestorsThere(tree, n, |parts|);
      assert n[..|parts|] == parts;
    }
    forall n | n in after ensures n != [] && (|n| > 1 ==> n[..|n| - 1] in after) {
      if |n| > 1 && n[..|n| - 1] == parts {
        assert parts < n;
      }
    }
    assert parts[..|parts|] == parts;
    assert parts in Prefixes(parts, |parts|);
  }

  lemma {:induction false} AncestorsThere(tree: Tree, n: seq<string>, k: nat)
    requires Closed(tree) && n in tree && 1 <= k <= |n|
    ensures n[..k] in tree
    decreases |n| - k
  {
    if k == |n| {
      assert n[..k] == n;
    } else {
      AncestorsThere(tree, n, k + 1);
      assert n[..k + 1][..k] == n[..k];
    }
  }

  /** One create in turn: every node above it is there, so it is made unless it is there itself. */
  lemma CreateNext(tree: Tree, parts: seq<string>, k: nat)
    requires Closed(tree) && k < |parts| && parts != []
    ensures var t, node := tree + Prefixes(parts, k), parts[..k + 1];
            && Creation(t, node) == (if node in tree then NodeExists else Ok)
            && tree + Prefixes(parts, k + 1) == t + {node}
            && (Creation(t, node) != Ok ==> tree + Prefixes(parts, k + 1) == t)
  {
    var t, node := tree + Prefixes(parts, k), parts[..k + 1];
    assert Prefixes(parts, k + 1) == Prefixes(parts, k) + {node};
    assert forall j | 1 <= j <= k :: |parts[..j]| == j;
    if k > 0 {
      assert node[..k] == parts[..k] && parts[..k] in Prefixes(parts, k);
    }
  }

  lemma PlainPrefix(parts: seq<string>, k: nat)
    requires Plain(parts) && k <= |parts|
    ensures Plain(parts[..k]) && Split(Joined(parts[..k]), false) == parts[..k]
  {
    SplitJoined(parts[..k]);
  }

  lemma NextPath(parts: seq<string>, k: nat)
    requires k < |parts|
    ensures Joined(parts[..k]) + ([DELIM] + parts[k]) == Joined(parts[..k + 1])
  {
    JoinedGrows(parts[..k], parts[k]);
    assert parts[..k] + [parts[k]] == parts[..k + 1];
  }

  /** What one more create in turn comes to, for paths of plain parts. */
  lemma ParentFacts(parts: seq<string>, tree: Tree, k: nat, creates: seq<string>)
    requires Plain(parts) && Closed(tree) && k < |parts|
    ensures var path, t := Joined(parts[..k + 1]), tree + Prefixes(parts, k);
            && Split(path, false) == parts[..k + 1] && Creation(t, parts[..k + 1]) in {Ok, NodeExists}
            && tree + Prefixes(parts, k + 1) == (if Creation(t, parts[..k + 1]) == Ok then t + {parts[..k + 1]} else t)
            && creates + Requests(parts, k) + [path] == creates + Requests(parts, k + 1)
  {
    PlainPrefix(parts, k + 1);
    CreateNext(tree, parts, k);
    Assoc(creates, Requests(parts, k), [Joined(parts[..k + 1])]);
  }

  lemma NothingYet(parts: seq<string>, tree: Tree, creates: seq<string>)
    ensures tree + Prefixes(parts, 0) == tree && creates + Requests(parts, 0) == creates && Joined(parts[..0]) == ""
  {
  }

  // ----- The synchronous client -----

  datatype Outcome = Success | ZkError(rc: ReturnCode) | OutOfRange

  class SyncClient {
    const server: Server

    constructor (server: Server)
      ensures this.server == server
    {
      this.server := server;
    }

    /** The first `k` nodes are there, and they were requested in order. */
    ghost predicate CreatedUpTo(parts: seq<string>, tree: Tree, creates: seq<string>, k: nat)
      requires k <= |parts|
      reads server
    {
      server.tree == tree + Prefixes(parts, k) && server.creates == creates + Requests(parts, k)
    }

    method CreateParent(path: string, ghost parts: seq<string>, ghost tree: Tree, ghost creates: seq<string>,
                        ghost k: nat)
      returns (response: ReturnCode)
      requires k < |parts| && path == Joined(parts[..k]) + ([DELIM] + parts[k])
      modifies server
      ensures path == Joined(parts[..k + 1])
      ensures Plain(parts) && Closed(tree) && old(CreatedUpTo(parts, tree, creates, k))
              ==> (response == Ok || response == NodeExists) && CreatedUpTo(parts, tree, creates, k + 1)
    {
      NextPath(parts, k);
      if Plain(parts) && Closed(tree) {
        ParentFacts(parts, tree, k, creates);
      }
      var created;
      response, created := server.Create(path);
    }

    /** The nodes above the last one. */
    method CreateParents(paths: seq<string>, ghost tree: Tree) returns (failure: Option<ReturnCode>)
      requires paths != []
      modifies server
      ensures Plain(paths) && Closed(tree) && old(server.tree) == tree
              ==> failure == None && CreatedUpTo(paths, tree, old(server.creates), |paths| - 1)
    {
      ghost var expected, creates := Plain(paths) && Closed(tree) && server.tree == tree, server.creates;
      var pathToCreate := "";
      var i := 0;
      NothingYet(paths, tree, creates);
      while i < |paths| - 1
        invariant 0 <= i <= |paths| - 1 && pathToCreate == Joined(paths[..i])
        invariant expected ==> CreatedUpTo(paths, tree, creates, i)
      {
        pathToCreate := pathToCreate + ([DELIM] + paths[i]);
        var response := CreateParent(pathToCreate, paths, tree, creates, i);
        if response != Ok && response != NodeExists {
          return Some(response);
        }
        i := i + 1;
      }
      failure := None;
    }

    /** For an absolute path on any tree: the tree gains the node and its ancestors, requested in
        order from the top; it succeeds exactly when the node had no children to keep it from being
        removed first. A path without nodes is out of range. */
    method CreatePath(path: string) returns (outcome: Outcome)
      modifies server
      ensures var parts := Split(path, false);
              parts != [] && path == Joined(parts) && Closed(old(server.tree))
              ==> (server.creates == old(server.creates) + Requests(parts, |parts|)
                   && server.tree == old(server.tree) + Prefixes(parts, |parts|)
                   && outcome == if HasChildren(old(server.tree), parts) then ZkError(NodeExists) else Success)
      ensures Split(path, false) == [] ==> outcome == OutOfRange && server.creates == old(server.creates)
    {
      var paths := SplitPath(path, false);
      SplitIsPlain(path);
      ghost var expected := paths != [] && path == Joined(paths) && Closed(server.tree);
      ghost var tree := AfterRemoval(server.tree, paths);
      if expected {
        RemovalKeepsClosed(server.tree, paths);
      }
      var removed := server.Remove(path);
      if |paths| == 0 {
        return OutOfRange;
      }
      var failure := CreateParents(paths, tree);
      if failure.Some? {
        return ZkError(failure.value);
      }
      outcome := CreateLeaf(path, paths, tree, old(server.creates));
    }

    method CreateLeaf(path: string, ghost parts: seq<string>, ghost tree: Tree, ghost creates: seq<string>)
      returns (outcome: Outcome)
      requires parts == Split(path, false) && parts != []
      modifies server
      ensures path == Joined(parts) && Closed(tree) && old(CreatedUpTo(parts, tree, creates, |parts| - 1))
              ==> (CreatedUpTo(parts, tree, creates, |parts|)
                   && outcome == if parts in tree then ZkError(NodeExists) else Success)
    {
      assert parts[..|parts|] == parts;
      if Closed(tree) {
        CreateNext(tree, parts, |parts| - 1);
      }
      Assoc(creates, Requests(parts, |parts| - 1), [path]);
      var response, created := server.Create(path);
      outcome := if response != Ok then ZkError(response) else Success;
    }
  }

  // ----- The asynchronous client -----

  datatype Report = ReportOk | ReportError

  class CreatePathDelegate {
    const server: Server
    const principalPath: string
    /** What the principal callback has been told. */
    var reports: seq<Report>
    /** The create request under way. */
    var pending: Option<string>
    /** at() has thrown inside the callback. */
    var threw: bool

    constructor (server: Server, path: string)
      ensures this.server == server && principalPath == path && reports == [] && pending == None && !threw
    {
      this.server := server;
      principalPath := path;
      reports := [];
      pending := None;
      threw := false;
    }

    /** createPath of one node; `dispatched` says whether the request could be sent. */
    method CreateNode(path: string, dispatched: bool)
      modifies this
      ensures pending == (if dispatched then Some(path) else old(pending)) && threw == old(threw)
      ensures reports == if dispatched then old(reports) else old(reports) + [ReportError]
    {
      if dispatched {
        pending := Some(path);
      } else {
        reports := reports + [ReportError];
      }
    }

    /** createPath without arguments; answers false for the exception. */
    method Start(dispatched: bool) returns (ok: bool)
      modifies this
      // The exception is for a delimiter after a delimiter anywhere but at the very beginning.
      ensures !ok <==> exists i | 1 <= i < |principalPath| - 1 :: principalPath[i] == principalPath[i + 1] == '/'
      ensures if !ok then reports == old(reports) && pending == old(pending)
              else if Split(principalPath, false) == [] || !dispatched then
                reports == old(reports) + [ReportError] && pending == old(pending)
              else pending == Some([DELIM] + Split(principalPath, false)[0]) && reports == old(reports)
      ensures threw == old(threw)
    {
      DoubledIff(principalPath, 1);
      if Doubled(principalPath, 1) {
        return false;
      }
      ok := true;
      var pathNodes := SplitPath(principalPath, false);
      if |pathNodes| == 0 {
        reports := reports + [ReportError];
      } else {
        CreateNode([DELIM] + pathNodes[0], dispatched);
      }
    }

    /** The callback of one create request; `dispatched` is about the request it makes, if any. */
    method Process(rc: ReturnCode, requested: string, created: string, dispatched: bool)
      modifies this
      ensures Answered(rc, requested, created, dispatched, old(reports))
    {
      pending := None;
      if rc != Ok && rc != NodeExists {
        reports := reports + [ReportError];
      } else if created == principalPath {
        reports := reports + [ReportOk];
      } else if rc == Ok && created != requested {
        reports := reports + [ReportError];
      } else if rc == Ok && !(created <= principalPath) {
        reports := reports + [ReportError];
      } else {
        var done := SplitPath(requested, false);
        var nodes := SplitPath(principalPath, false);
        if |done| < |nodes| {
          CreateNode(requested + ([DELIM] + nodes[|done|]), dispatched);
        } else {
          threw := true;
        }
      }
    }

    twostate predicate Answered(rc: ReturnCode, requested: string, created: string, dispatched: bool,
                                before: seq<Report>)
      reads this
    {
      var n, nodes := |Split(requested, false)|, Split(principalPath, false);
      if rc != Ok && rc != NodeExists then reports == before + [ReportError] && pending == None && threw == old(threw)
      else if created == principalPath then reports == before + [ReportOk] && pending == None && threw == old(threw)
      else if rc == Ok && (created != requested || !(created <= principalPath)) then
        reports == before + [ReportError] && pending == None && threw == old(threw)
      else if n < |nodes| && !dispatched then
        reports == before + [ReportError] && pending == None && threw == old(threw)
      else if n < |nodes| then
        reports == before && pending == Some(requested + ([DELIM] + nodes[n])) && threw == old(threw)
      else reports == before && pending == None && threw
    }
  }

  function Min(a: nat, b: nat): nat {
    if a <= b then a else b
  }

  /** What has been reported when requests can be dispatched `limit` times: an error as soon as one
      cannot, and Ok for the last node unless that was there already. */
  function Told(parts: seq<string>, tree: Tree, limit: nat, answered: nat): seq<Report> {
    if answered < |parts| then (if limit <= answered then [ReportError] else [])
    else if parts in tree then []
    else [ReportOk]
  }

  /** After `done` callbacks, each with what the server answered. */
  ghost predicate Underway(delegate: CreatePathDelegate, limit: nat, done: nat, parts: seq<string>, tree: Tree,
                           creates: seq<string>)
    reads delegate, delegate.server
  {
    && done <= Min(limit, |parts|) && delegate.server.tree == tree + Prefixes(parts, done)
    && delegate.server.creates == creates + Requests(parts, done)
    && delegate.pending == (if done < Min(limit, |parts|) then Some(Joined(parts[..done + 1])) else None)
    && delegate.reports == Told(parts, tree, limit, done)
    && (delegate.threw <==> done == |parts| && parts in tree)
  }

  /** The callbacks of a delegate until no request is under way; dispatching a request fails after
      `limit` times. */
  method RunCallbacks(delegate: CreatePathDelegate, limit: nat, ghost parts: seq<string>, ghost tree: Tree)
    requires Plain(parts) && parts != [] && delegate.principalPath == Joined(parts) && Closed(tree)
    requires delegate.server.tree == tree && delegate.pending == if limit > 0 then Some(Joined(parts[..1])) else None
    requires delegate.reports == Told(parts, tree, limit, 0) && !delegate.threw
    modifies delegate, delegate.server
    ensures Underway(delegate, limit, Min(limit, |parts|), parts, tree, old(delegate.server.creates))
  {
    ghost var creates := delegate.server.creates;
    var done := 0;
    NothingYet(parts, tree, creates);
    while delegate.pending.Some?
      invariant Underway(delegate, limit, done, parts, tree, creates)
      decreases |parts| - done
    {
      Callback(delegate, limit, done, parts, tree, creates);
      done := done + 1;
    }
  }

  /** One create request and its callback. */
  method Callback(delegate: CreatePathDelegate, limit: nat, done: nat, ghost parts: seq<string>, ghost tree: Tree,
                  ghost creates: seq<string>)
    requires Plain(parts) && done < Min(limit, |parts|) && delegate.principalPath == Joined(parts) && Closed(tree)
    requires Underway(delegate, limit, done, parts, tree, creates)
    modifies delegate, delegate.server
    ensures Underway(delegate, limit, done + 1, parts, tree, creates)
  {
    var path := delegate.pending.value;
    PlainPrefix(parts, done + 1);
    SplitJoined(parts);
    LastPath(parts, done);
    CreateNext(tree, parts, done);
    Assoc(creates, Requests(parts, done), [path]);
    var rc, created := delegate.server.Create(path);
    delegate.Process(rc, path, created, done + 1 < limit);
    if done + 1 < |parts| {
      NextPath(parts, done + 1);
    } else {
      assert parts[..done + 1] == parts;
    }
  }

  lemma LastPath(parts: seq<string>, k: nat)
    requires Plain(parts) && k < |parts|
    ensures Joined(parts[..k + 1]) <= Joined(parts) && Joined(parts) != ""
    ensures Joined(parts[..k + 1]) == Joined(parts) <==> k + 1 == |parts|
  {
    JoinedIsPrefix(parts, k + 1);
    if k + 1 == |parts| {
      assert parts[..k + 1] == parts;
    } else if Joined(parts[..k + 1]) == Joined(parts) {
      PlainPrefix(parts, k + 1);
      SplitJoined(parts);
    }
  }

  lemma {:induction false} JoinedIsPrefix(parts: seq<string>, k: nat)
    requires k <= |parts|
    ensures Joined(parts[..k]) <= Joined(parts)
    decreases |parts| - k
  {
    if k == |parts| {
      assert parts[..k] == parts;
    } else {
      NextPath(parts, k);
      JoinedIsPrefix(parts, k + 1);
    }
  }

  /** The asynchronous creation of an absolute path, when requests can be dispatched `limit` times: the
      same requests in the same order as the synchronous loop, as many as can be dispatched. If all
      can, the tree is the same, and Ok is reported once exactly when that loop succeeds; when the node
      has children nothing is reported at all, the callback throws. If one cannot, an error is reported
      once. */
  method CreatePathAsync(server: Server, path: string, limit: nat) returns (delegate: CreatePathDelegate)
    requires var parts := Split(path, false);
             parts != [] && path == Joined(parts) && Closed(server.tree)
    modifies server
    ensures fresh(delegate) && delegate.pending == None
    ensures var parts, n := Split(path, false), Min(limit, |Split(path, false)|);
            && server.creates == old(server.creates) + Requests(parts, n)
            && server.tree == AfterRemoval(old(server.tree), parts) + Prefixes(parts, n)
            && if n < |parts| then delegate.reports == [ReportError] && !delegate.threw
               else if HasChildren(old(server.tree), parts) then delegate.reports == [] && delegate.threw
               else delegate.reports == [ReportOk] && !delegate.threw
    ensures var parts := Split(path, false);
            limit >= |parts| ==> server.tree == old(server.tree) + Prefixes(parts, |parts|)
  {
    ghost var parts := Split(path, false);
    ghost var tree := AfterRemoval(server.tree, parts);
    SplitIsPlain(path);
    RemovalKeepsClosed(server.tree, parts);
    NeverDoubled(parts);
    var removed := server.Remove(path);
    delegate := new CreatePathDelegate(server, path);
    var started := delegate.Start(limit > 0);
    assert parts[..1] == [parts[0]];
    FirstPath(parts[0]);
    RunCallbacks(delegate, limit, parts, tree);
  }

  /** For example at /a above /a/b: nothing is reported, the callback throws. */
  method SilentExample() returns (delegate: CreatePathDelegate)
    ensures delegate.reports == [] && delegate.threw && delegate.pending == None
  {
    var parts := ["a"];
    var path := [DELIM] + "a";
    var tree := {["a"], ["a", "b"]};
    FirstPath("a");
    assert "a"[0] as int == 97 && DELIM as int == 47;
    SplitJoined(parts);
    assert ["a", "b"][..1] == ["a"] && ["a"] < ["a", "b"];
    var server := new Server(tree);
    delegate := CreatePathAsync(server, path, 1);
  }

  lemma FirstPath(part: string)
    ensures Joined([part]) == [DELIM] + part
  {
    assert [part][1..] == [] && part + "" == part;
  }

  lemma NeverDoubled(parts: seq<string>)
    requires Plain(parts)
    ensures var s := Joined(parts); !exists i | 1 <= i < |s| - 1 :: s[i] == DELIM && s[i + 1] == DELIM
  {
    var s := Joined(parts);
    forall i | 1 <= i < |s| - 1 ensures !(s[i] == DELIM && s[i + 1] == DELIM) {
      JoinedNotDoubled(parts, i);
    }
  }
}
