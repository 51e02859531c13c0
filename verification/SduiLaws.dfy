/** The replica protocol of the server-driven UI tree: versions determine contents
    under any delivery, and when the client and the server agree. */
module SduiLaws {
  import opened Wrappers
  import opened SduiState

  // --------------------------------------------------------- deliveries in a chain

  datatype Delivery = SnapshotMessage(tree: Tree) | UpdateMessage(update: Update)

  function Deliver(r: Replica, d: Delivery): Replica {
    match d
    case SnapshotMessage(tree) => Snapshot(tree)
    case UpdateMessage(update) => Updated(r, update)
  }

  function DeliverAll(r: Replica, ds: seq<Delivery>): Replica {
    if ds == [] then r else Deliver(DeliverAll(r, ds[..|ds| - 1]), ds[|ds| - 1])
  }

  /** The states a replica goes through when it receives updates, each based on the
      version before it, in order. */
  datatype Chain = Chain(states: seq<Replica>, updates: seq<Update>)

  ghost predicate IsChain(c: Chain) {
    && |c.states| == |c.updates| + 1
    && forall i | 0 <= i < |c.updates| ::
         && c.updates[i].baseVersion == c.states[i].uiVersion
         && c.updates[i].newVersion > c.updates[i].baseVersion
         && c.states[i + 1] == Updated(c.states[i], c.updates[i])
  }

  ghost predicate IsUpdateOf(c: Chain, d: Delivery) {
    d.UpdateMessage? && exists i | 0 <= i < |c.updates| :: c.updates[i] == d.update
  }

  lemma {:induction false} VersionsIncrease(c: Chain, i: nat, j: nat)
    requires IsChain(c) && i < j < |c.states|
    ensures c.states[i].uiVersion < c.states[j].uiVersion
    decreases j
  {
    assert c.states[j] == Updated(c.states[j - 1], c.updates[j - 1]);
    if i < j - 1 {
      VersionsIncrease(c, i, j - 1);
    }
  }

  /** `picks` are increasing positions in `ds` of the updates from `from` to the
      end of the history. */
  ghost predicate DeliversRest(c: Chain, from: nat, ds: seq<Delivery>, picks: seq<nat>) {
    && from + |picks| == |c.updates|
    && (forall k | 0 <= k < |picks| :: picks[k] < |ds| && ds[picks[k]] == UpdateMessage(c.updates[from + k]))
    && (forall k, l | 0 <= k < l < |picks| :: picks[k] < picks[l])
  }

  /** A replica at state `i` or later stays there or advances, and a delivery of
      update `i` takes it past `i`. */
  lemma UpdateStep(c: Chain, i: nat, d: Delivery)
    requires IsChain(c) && i < |c.states| && IsUpdateOf(c, d)
    ensures exists k | i <= k < |c.states| :: Deliver(c.states[i], d) == c.states[k]
    ensures i < |c.updates| && d.update == c.updates[i] ==> Deliver(c.states[i], d) == c.states[i + 1]
  {
    var j :| 0 <= j < |c.updates| && c.updates[j] == d.update;
    if i < j {
      VersionsIncrease(c, i, j);
    } else if j < i {
      VersionsIncrease(c, j, i);
    } else {
      assert Deliver(c.states[i], d) == c.states[i + 1];
    }
  }

  /** How far the deliveries up to `n` must have brought the replica. */
  function PicksBefore(picks: seq<nat>, n: nat): nat {
    if picks == [] then 0
    else if picks[|picks| - 1] < n then |picks|
    else PicksBefore(picks[..|picks| - 1], n)
  }

  lemma {:induction false} PicksBeforeStep(picks: seq<nat>, n: nat)
    requires forall k, l | 0 <= k < l < |picks| :: picks[k] < picks[l]
    ensures var p := PicksBefore(picks, n);
            && p <= |picks| && (p < |picks| ==> picks[p] >= n)
            && PicksBefore(picks, n + 1) == (if p < |picks| && picks[p] == n then p + 1 else p)
    decreases |picks|
  {
    if picks != [] {
      var front := picks[..|picks| - 1];
      forall k, l | 0 <= k < l < |front|
        ensures front[k] < front[l]
      {
        assert picks[k] < picks[l];
      }
      PicksBeforeStep(front, n);
      if |picks| >= 2 {
        assert picks[|picks| - 2] < picks[|picks| - 1];
      }
      var p := PicksBefore(front, n);
      if p < |front| {
        assert front[p] == picks[p];
        assert picks[p] < picks[|picks| - 1];
      }
    }
  }

  lemma {:induction false} ReachesPicked(c: Chain, i: nat, ds: seq<Delivery>, picks: seq<nat>, n: nat) returns (k: nat)
    requires IsChain(c) && i < |c.states|
    requires forall d | d in ds :: IsUpdateOf(c, d)
    requires DeliversRest(c, i, ds, picks) && n <= |ds|
    ensures i + PicksBefore(picks, n) <= k < |c.states| && DeliverAll(c.states[i], ds[..n]) == c.states[k]
    decreases n
  {
    if n == 0 {
      k := i;
      NoPicksYet(picks);
    } else {
      var before := ReachesPicked(c, i, ds, picks, n - 1);
      assert ds[..n][..n - 1] == ds[..n - 1];
      k := PickedStep(c, i, ds, picks, n - 1, before);
    }
  }

  /** One more delivery, from state `before` on. */
  lemma PickedStep(c: Chain, i: nat, ds: seq<Delivery>, picks: seq<nat>, n: nat, before: nat) returns (k: nat)
    requires IsChain(c)
    requires DeliversRest(c, i, ds, picks) && n < |ds|
    requires forall d | d in ds :: IsUpdateOf(c, d)
    requires i + PicksBefore(picks, n) <= before < |c.states|
    ensures i + PicksBefore(picks, n + 1) <= k < |c.states| && Deliver(c.states[before], ds[n]) == c.states[k]
  {
    PicksBeforeStep(picks, n);
    assert ds[n] in ds;
    UpdateStep(c, before, ds[n]);
    k :| before <= k < |c.states| && Deliver(c.states[before], ds[n]) == c.states[k];
    var p := PicksBefore(picks, n);
    if p < |picks| && picks[p] == n && before == i + p {
      assert ds[picks[p]] == UpdateMessage(c.updates[i + p]);
      k := i + p + 1;
    }
  }

  lemma {:induction false} NoPicksYet(picks: seq<nat>)
    ensures PicksBefore(picks, 0) == 0
  {
    if picks != [] {
      NoPicksYet(picks[..|picks| - 1]);
    }
  }

  lemma {:induction false} AllPicked(picks: seq<nat>, n: nat)
    requires forall k | 0 <= k < |picks| :: picks[k] < n
    ensures PicksBefore(picks, n) == |picks|
  {
  }

  /** Convergence: whatever stale or duplicated updates come in between, a replica
      that receives the missing updates in order ends at the last state. */
  lemma Converges(c: Chain, i: nat, ds: seq<Delivery>, picks: seq<nat>)
    requires IsChain(c) && i < |c.states|
    requires forall d | d in ds :: IsUpdateOf(c, d)
    requires DeliversRest(c, i, ds, picks)
    ensures DeliverAll(c.states[i], ds) == c.states[|c.states| - 1]
  {
    var k := ReachesPicked(c, i, ds, picks, |ds|);
    AllPicked(picks, |ds|);
    assert ds[..|ds|] == ds;
  }

  // ------------------------------------------------------ the server's own copy

  function ReplaceOrPush(nodes: seq<Node>, node: Node): seq<Node> {
    if nodes == [] then [node]
    else if nodes[0].id == node.id then [node] + nodes[1..]
    else [nodes[0]] + ReplaceOrPush(nodes[1..], node)
  }

  function Retain(nodes: seq<Node>, removed: NodeId): seq<Node> {
    if nodes == [] then []
    else if nodes[0].id == removed then Retain(nodes[1..], removed)
    else [nodes[0]] + Retain(nodes[1..], removed)
  }

  /** `apply_update` of the server: it keeps the root id whatever is removed. */
  function ServerOperation(tree: Tree, operation: Operation): Tree {
    match operation
    case ReplaceRoot(rootId) => tree.(rootId := rootId)
    case ReplaceNode(node) => tree.(nodes := ReplaceOrPush(tree.nodes, node))
    case RemoveNode(nodeId) => tree.(nodes := Retain(tree.nodes, nodeId))
  }

  function ServerOperations(tree: Tree, operations: seq<Operation>): Tree {
    if operations == [] then tree
    else ServerOperation(ServerOperations(tree, operations[..|operations| - 1]), operations[|operations| - 1])
  }

  function ServerUpdated(tree: Tree, update: Update): Tree {
    ServerOperations(tree, update.operations).(uiVersion := update.newVersion)
  }

  ghost predicate DistinctIds(nodes: seq<Node>) {
    forall i, j | 0 <= i < j < |nodes| :: nodes[i].id != nodes[j].id
  }

  function IdsOf(nodes: seq<Node>): set<NodeId> {
    set i | 0 <= i < |nodes| :: nodes[i].id
  }

  /** Collecting from the front: with distinct ids the order does not matter. */
  lemma {:induction false} CollectFront(nodes: seq<Node>)
    requires nodes != [] && DistinctIds(nodes)
    ensures DistinctIds(nodes[1..])
    ensures nodes[0].id !in Collect(nodes[1..])
    ensures Collect(nodes) == Collect(nodes[1..])[nodes[0].id := nodes[0]]
    decreases |nodes|
  {
    var last := nodes[|nodes| - 1];
    if |nodes| > 1 {
      var front := nodes[..|nodes| - 1];
      CollectFront(front);
      assert front[1..] == nodes[1..][..|nodes[1..]| - 1];
      assert nodes[1..][|nodes[1..]| - 1] == last;
      assert nodes[0].id != last.id;
    } else {
      assert nodes[..0] == [];
    }
  }

  lemma {:induction false} CollectKeys(nodes: seq<Node>)
    ensures Collect(nodes).Keys == IdsOf(nodes)
  {
    if nodes != [] {
      var front, last := nodes[..|nodes| - 1], nodes[|nodes| - 1];
      CollectKeys(front);
      forall i | 0 <= i < |nodes|
        ensures nodes[i].id in Collect(nodes)
      {
        if i < |front| {
          assert front[i].id in IdsOf(front);
        }
      }
      forall id | id in Collect(nodes)
        ensures id in IdsOf(nodes)
      {
        if id != last.id {
          var i :| 0 <= i < |front| && front[i].id == id;
          assert nodes[i].id == id;
        }
      }
    }
  }

  /** Prepending a node of a new id. */
  lemma CollectCons(node: Node, rest: seq<Node>)
    requires DistinctIds(rest) && node.id !in Collect(rest)
    ensures DistinctIds([node] + rest)
    ensures Collect([node] + rest) == Collect(rest)[node.id := node]
  {
    var all := [node] + rest;
    CollectKeys(rest);
    forall i | 0 <= i < |rest|
      ensures rest[i].id != node.id
    {
      assert rest[i].id in IdsOf(rest);
    }
    forall i, j | 0 <= i < j < |all|
      ensures all[i].id != all[j].id
    {
      if i > 0 {
        assert all[i] == rest[i - 1] && all[j] == rest[j - 1];
      }
    }
    assert all[1..] == rest;
    CollectFront(all);
  }

  lemma {:induction false} ReplaceOrPushIsUpdate(nodes: seq<Node>, node: Node)
    requires DistinctIds(nodes)
    ensures DistinctIds(ReplaceOrPush(nodes, node))
    ensures Collect(ReplaceOrPush(nodes, node)) == Collect(nodes)[node.id := node]
    decreases |nodes|
  {
    if nodes == [] {
      CollectCons(node, []);
      assert [node] + [] == [node];
    } else {
      CollectFront(nodes);
      if nodes[0].id == node.id {
        CollectCons(node, nodes[1..]);
      } else {
        ReplaceOrPushIsUpdate(nodes[1..], node);
        CollectCons(nodes[0], ReplaceOrPush(nodes[1..], node));
      }
    }
  }

  lemma {:induction false} RetainIsRemoval(nodes: seq<Node>, removed: NodeId)
    requires DistinctIds(nodes)
    ensures DistinctIds(Retain(nodes, removed))
    ensures Collect(Retain(nodes, removed)) == Collect(nodes) - {removed}
    decreases |nodes|
  {
    if nodes != [] {
      var rest, first := nodes[1..], nodes[0];
      CollectFront(nodes);
      RetainIsRemoval(rest, removed);
      if first.id == removed {
        assert Collect(nodes) - {removed} == Collect(rest);
      } else {
        CollectCons(first, Retain(rest, removed));
        assert Collect(nodes) - {removed} == (Collect(rest) - {removed})[first.id := first];
      }
    }
  }

  /** The node maps always agree. */
  lemma {:induction false} ServerNodesAgree(tree: Tree, operations: seq<Operation>)
    requires DistinctIds(tree.nodes)
    ensures DistinctIds(ServerOperations(tree, operations).nodes)
    ensures Collect(ServerOperations(tree, operations).nodes) == ApplyOperations(Snapshot(tree), operations).nodes
    decreases |operations|
  {
    if operations != [] {
      var front := operations[..|operations| - 1];
      ServerNodesAgree(tree, front);
      var nodes := ServerOperations(tree, front).nodes;
      match operations[|operations| - 1]
      case ReplaceRoot(_) =>
      case ReplaceNode(node) => ReplaceOrPushIsUpdate(nodes, node);
      case RemoveNode(nodeId) => RetainIsRemoval(nodes, nodeId);
    }
  }

  /** The root in force before operation `k`. */
  function RootBefore(rootId: NodeId, operations: seq<Operation>, k: nat): NodeId
    requires k <= |operations|
  {
    if k == 0 then rootId
    else if operations[k - 1].ReplaceRoot? then operations[k - 1].rootId
    else RootBefore(rootId, operations, k - 1)
  }

  /** Some operation removes the root then in force, and no later one sets a root. */
  ghost predicate DropsRoot(rootId: NodeId, operations: seq<Operation>) {
    exists k | 0 <= k < |operations| :: DropsRootAt(rootId, operations, k)
  }

  ghost predicate DropsRootAt(rootId: NodeId, operations: seq<Operation>, k: nat)
    requires k < |operations|
  {
    && operations[k] == RemoveNode(RootBefore(rootId, operations, k))
    && forall j | k < j < |operations| :: !operations[j].ReplaceRoot?
  }

  lemma {:induction false} RootsCompared(tree: Tree, operations: seq<Operation>)
    ensures ServerOperations(tree, operations).rootId == RootBefore(tree.rootId, operations, |operations|)
    ensures ApplyOperations(Snapshot(tree), operations).rootId ==
            if DropsRoot(tree.rootId, operations) then None else Some(ServerOperations(tree, operations).rootId)
    decreases |operations|
  {
    if operations != [] {
      var n := |operations| - 1;
      var front, last := operations[..n], operations[n];
      RootsCompared(tree, front);
      RootBeforePrefix(tree.rootId, operations, n, n);
      DropsRootStep(tree.rootId, operations);
    }
  }

  lemma {:induction false} RootBeforePrefix(rootId: NodeId, operations: seq<Operation>, n: nat, k: nat)
    requires k <= n <= |operations|
    ensures RootBefore(rootId, operations[..n], k) == RootBefore(rootId, operations, k)
  {
    if k > 0 {
      RootBeforePrefix(rootId, operations, n, k - 1);
    }
  }

  lemma DropsRootAtPrefix(rootId: NodeId, operations: seq<Operation>, k: nat)
    requires k + 1 < |operations|
    ensures DropsRootAt(rootId, operations, k) <==>
            && !operations[|operations| - 1].ReplaceRoot?
            && DropsRootAt(rootId, operations[..|operations| - 1], k)
  {
    var front := operations[..|operations| - 1];
    RootBeforePrefix(rootId, operations, |front|, k);
    assert forall j | k < j < |front| :: operations[j] == front[j];
  }

  lemma DropsRootStep(rootId: NodeId, operations: seq<Operation>)
    requires operations != []
    ensures var n := |operations| - 1;
            DropsRoot(rootId, operations) <==>
              || operations[n] == RemoveNode(RootBefore(rootId, operations, n))
              || (!operations[n].ReplaceRoot? && DropsRoot(rootId, operations[..n]))
  {
    var n := |operations| - 1;
    assert DropsRootAt(rootId, operations, n) <==> operations[n] == RemoveNode(RootBefore(rootId, operations, n));
    forall k | 0 <= k < n
      ensures DropsRootAt(rootId, operations, k) <==>
              !operations[n].ReplaceRoot? && DropsRootAt(rootId, operations[..n], k)
    {
      DropsRootAtPrefix(rootId, operations, k);
    }
  }

  /** After a published update the client replica is the server's tree if and only
      if the update does not drop the root: the client forgets a removed root even
      when its node is put back, the server does not. */
  lemma ClientAgreesWithServer(tree: Tree, update: Update)
    requires DistinctIds(tree.nodes) && update.baseVersion == tree.uiVersion
    ensures Updated(Snapshot(tree), update) == Snapshot(ServerUpdated(tree, update))
       <==> !DropsRoot(tree.rootId, update.operations)
  {
    ServerNodesAgree(tree, update.operations);
    RootsCompared(tree, update.operations);
  }

  // ------------------------------------------------------- versions and contents

  /** What the server does to its tree: it advances it by a published update, or
      replaces it by another tree, of whatever version. */
  datatype ServerStep = Advance(update: Update) | Publish(tree: Tree)

  datatype History = History(first: Tree, steps: seq<ServerStep>)

  /** The server's tree after `i` steps. */
  function TreeAt(h: History, i: nat): Tree
    requires i <= |h.steps|
  {
    if i == 0 then h.first
    else
      match h.steps[i - 1]
      case Advance(update) => ServerUpdated(TreeAt(h, i - 1), update)
      case Publish(tree) => tree
  }

  /** Updates are based on the version they advance; trees have distinct node ids. */
  ghost predicate IsHistory(h: History) {
    && DistinctIds(h.first.nodes)
    && forall i | 0 <= i < |h.steps| :: IsServerStep(h, i)
  }

  ghost predicate IsServerStep(h: History, i: nat)
    requires i < |h.steps|
  {
    match h.steps[i]
    case Advance(update) => update.baseVersion == TreeAt(h, i).uiVersion && update.newVersion > update.baseVersion
    case Publish(tree) => DistinctIds(tree.nodes)
  }

  /** A message the server can have sent: one of its updates, or a snapshot of its tree
      at some moment. */
  ghost predicate IsSent(h: History, d: Delivery) {
    match d
    case SnapshotMessage(tree) => exists i | 0 <= i <= |h.steps| :: TreeAt(h, i) == tree
    case UpdateMessage(update) => exists i | 0 <= i < |h.steps| :: h.steps[i] == Advance(update)
  }

  ghost predicate AllSent(h: History, ds: seq<Delivery>) {
    forall d | d in ds :: IsSent(h, d)
  }

  /** The server never has two different trees of one version, nor one of version 0,
      which is that of the empty replica. */
  ghost predicate Coherent(h: History) {
    && (forall i | 0 <= i <= |h.steps| :: TreeAt(h, i).uiVersion > 0)
    && forall i, j | 0 <= i <= |h.steps| && 0 <= j <= |h.steps| && TreeAt(h, i).uiVersion == TreeAt(h, j).uiVersion ::
         Snapshot(TreeAt(h, i)) == Snapshot(TreeAt(h, j))
  }

  ghost predicate KeepsRootAt(h: History, i: nat)
    requires i < |h.steps|
  {
    h.steps[i].Advance? ==> !DropsRoot(TreeAt(h, i).rootId, h.steps[i].update.operations)
  }

  /** No published update drops the root. */
  ghost predicate KeepsRoots(h: History) {
    forall i | 0 <= i < |h.steps| :: KeepsRootAt(h, i)
  }

  /** The replica shows the server's tree of its version, whichever moment that was. */
  ghost predicate ShowsItsVersion(h: History, r: Replica) {
    forall i | 0 <= i <= |h.steps| && TreeAt(h, i).uiVersion == r.uiVersion :: r == Snapshot(TreeAt(h, i))
  }

  ghost predicate EmptyOrShown(h: History, r: Replica) {
    r == EMPTY || exists i | 0 <= i <= |h.steps| :: r == Snapshot(TreeAt(h, i))
  }

  lemma {:induction false} TreesHaveDistinctIds(h: History, i: nat)
    requires IsHistory(h) && i <= |h.steps|
    ensures DistinctIds(TreeAt(h, i).nodes)
  {
    if i > 0 {
      assert IsServerStep(h, i - 1);
      TreesHaveDistinctIds(h, i - 1);
      if h.steps[i - 1].Advance? {
        ServerNodesAgree(TreeAt(h, i - 1), h.steps[i - 1].update.operations);
      }
    }
  }

  /** An update that the client gets when it shows the tree it is based on. */
  lemma AdvanceAgrees(h: History, i: nat)
    requires IsHistory(h) && i < |h.steps| && h.steps[i].Advance?
    ensures Updated(Snapshot(TreeAt(h, i)), h.steps[i].update) == Snapshot(TreeAt(h, i + 1)) <==> KeepsRootAt(h, i)
    ensures Updated(Snapshot(TreeAt(h, i)), h.steps[i].update).uiVersion == TreeAt(h, i + 1).uiVersion
  {
    assert IsServerStep(h, i);
    TreesHaveDistinctIds(h, i);
    ClientAgreesWithServer(TreeAt(h, i), h.steps[i].update);
  }

  lemma DeliverAgrees(h: History, r: Replica, d: Delivery)
    requires IsHistory(h) && Coherent(h) && KeepsRoots(h) && EmptyOrShown(h, r) && IsSent(h, d)
    ensures EmptyOrShown(h, Deliver(r, d))
  {
    if d.UpdateMessage? {
      var j :| 0 <= j < |h.steps| && h.steps[j] == Advance(d.update);
      assert IsServerStep(h, j) && KeepsRootAt(h, j);
      AdvanceAgrees(h, j);
      if r != EMPTY && d.update.baseVersion == r.uiVersion {
        var i :| 0 <= i <= |h.steps| && r == Snapshot(TreeAt(h, i));
        assert Deliver(r, d) == Snapshot(TreeAt(h, j + 1));
      }
    }
  }

  /** The replica is empty or one of the server's trees. */
  lemma {:induction false} DeliverAllAgrees(h: History, ds: seq<Delivery>)
    requires IsHistory(h) && Coherent(h) && KeepsRoots(h) && AllSent(h, ds)
    ensures EmptyOrShown(h, DeliverAll(EMPTY, ds))
  {
    if ds != [] {
      var front := ds[..|ds| - 1];
      assert forall d | d in front :: d in ds;
      DeliverAllAgrees(h, front);
      assert ds[|ds| - 1] in ds;
      DeliverAgrees(h, DeliverAll(EMPTY, front), ds[|ds| - 1]);
    }
  }

  /** Under every loss, duplication and reordering of the messages of a history the
      replica is the server's tree of its version, if and only if the server never has
      two different trees of one version, none of version 0, and drops no root. */
  lemma VersionDeterminesContents(h: History)
    requires IsHistory(h)
    ensures (forall ds | AllSent(h, ds) :: ShowsItsVersion(h, DeliverAll(EMPTY, ds))) <==> Coherent(h) && KeepsRoots(h)
  {
    if Coherent(h) && KeepsRoots(h) {
      forall ds | AllSent(h, ds)
        ensures ShowsItsVersion(h, DeliverAll(EMPTY, ds))
      {
        DeliverAllAgrees(h, ds);
      }
    }
    if forall ds | AllSent(h, ds) :: ShowsItsVersion(h, DeliverAll(EMPTY, ds)) {
      forall i | 0 <= i <= |h.steps|
        ensures TreeAt(h, i).uiVersion > 0
        ensures ShowsItsVersion(h, Snapshot(TreeAt(h, i)))
      {
        assert AllSent(h, []);
        assert ShowsItsVersion(h, DeliverAll(EMPTY, []));
        OneSnapshot(h, i);
      }
      forall i | 0 <= i < |h.steps|
        ensures KeepsRootAt(h, i)
      {
        if h.steps[i].Advance? {
          SnapshotAndUpdate(h, i);
          AdvanceAgrees(h, i);
        }
      }
    }
  }

  lemma OneSnapshot(h: History, i: nat)
    requires i <= |h.steps|
    ensures var ds := [SnapshotMessage(TreeAt(h, i))]; AllSent(h, ds) && DeliverAll(EMPTY, ds) == Snapshot(TreeAt(h, i))
  {
  }

  lemma SnapshotAndUpdate(h: History, i: nat)
    requires i < |h.steps| && h.steps[i].Advance?
    ensures var ds := [SnapshotMessage(TreeAt(h, i)), UpdateMessage(h.steps[i].update)];
            AllSent(h, ds) && DeliverAll(EMPTY, ds) == Updated(Snapshot(TreeAt(h, i)), h.steps[i].update)
  {
    var ds := [SnapshotMessage(TreeAt(h, i)), UpdateMessage(h.steps[i].update)];
    OneSnapshot(h, i);
    assert ds[..1] == [SnapshotMessage(TreeAt(h, i))];
    assert DeliverAll(EMPTY, ds) == Deliver(DeliverAll(EMPTY, ds[..1]), ds[1]);
  }

  /** The losing input: the server replaces its tree by another one of the same version,
      as it does whenever a runtime publishes one.  Then the two snapshots leave two
      replicas of one version with different contents, and an update based on that
      version is accepted by both. */
  lemma RepublishedVersionIsAmbiguous(first: Tree, second: Tree, update: Update)
    requires DistinctIds(first.nodes) && DistinctIds(second.nodes)
    requires first.uiVersion == second.uiVersion && Snapshot(first) != Snapshot(second)
    requires update.baseVersion == first.uiVersion && update.newVersion > update.baseVersion
    ensures var h := History(first, [Publish(second), Advance(update)]);
            && IsHistory(h) && !Coherent(h)
            && AllSent(h, [SnapshotMessage(first)]) && !ShowsItsVersion(h, DeliverAll(EMPTY, [SnapshotMessage(first)]))
            && AllSent(h, [SnapshotMessage(first), UpdateMessage(update)])
            && DeliverAll(EMPTY, [SnapshotMessage(first), UpdateMessage(update)]).uiVersion == update.newVersion
  {
    var h := History(first, [Publish(second), Advance(update)]);
    assert TreeAt(h, 0) == first && TreeAt(h, 1) == second;
    assert IsServerStep(h, 0) && IsServerStep(h, 1);
    OneSnapshot(h, 0);
    var ds := [SnapshotMessage(first), UpdateMessage(update)];
    assert h.steps[1] == Advance(update);
    assert ds[..1] == [SnapshotMessage(first)];
    assert DeliverAll(EMPTY, ds) == Deliver(DeliverAll(EMPTY, ds[..1]), ds[1]);
  }

  /** The step from `i` publishes the tree again, or advances its version. */
  ghost predicate AdvancesAt(h: History, i: nat)
    requires i < |h.steps|
  {
    TreeAt(h, i + 1) == TreeAt(h, i) || TreeAt(h, i + 1).uiVersion > TreeAt(h, i).uiVersion
  }

  /** A server that advances the version whenever it changes its tree is coherent. */
  lemma AdvancingIsCoherent(h: History)
    requires h.first.uiVersion > 0 && forall i | 0 <= i < |h.steps| :: AdvancesAt(h, i)
    ensures Coherent(h)
  {
    forall i | 0 <= i <= |h.steps|
      ensures TreeAt(h, i).uiVersion > 0
    {
      NeverBack(h, 0, i);
    }
    forall i, j | 0 <= i <= |h.steps| && 0 <= j <= |h.steps| && TreeAt(h, i).uiVersion == TreeAt(h, j).uiVersion
      ensures TreeAt(h, i) == TreeAt(h, j)
    {
      NeverBack(h, if i < j then i else j, if i < j then j else i);
    }
  }

  lemma {:induction false} NeverBack(h: History, i: nat, j: nat)
    requires i <= j <= |h.steps| && forall k | 0 <= k < |h.steps| :: AdvancesAt(h, k)
    ensures TreeAt(h, i) == TreeAt(h, j) || TreeAt(h, i).uiVersion < TreeAt(h, j).uiVersion
    decreases j
  {
    if i < j {
      NeverBack(h, i, j - 1);
      assert AdvancesAt(h, j - 1);
    }
  }

  /** Updates alone never move the version back. */
  lemma {:induction false} UpdatesOnlyAdvance(h: History, r: Replica, ds: seq<Delivery>)
    requires IsHistory(h) && AllSent(h, ds) && forall d | d in ds :: d.UpdateMessage?
    ensures DeliverAll(r, ds).uiVersion >= r.uiVersion
  {
    if ds != [] {
      var front, last := ds[..|ds| - 1], ds[|ds| - 1];
      assert forall d | d in front :: d in ds;
      UpdatesOnlyAdvance(h, r, front);
      assert last in ds;
      var i :| 0 <= i < |h.steps| && h.steps[i] == Advance(last.update);
      assert IsServerStep(h, i);
    }
  }

  // ----------------------------------------------------- runs of published updates

  /** The version that a run of published updates ends at. */
  function LastVersion(version: nat, updates: seq<Update>): nat {
    if updates == [] then version else updates[|updates| - 1].newVersion
  }

  /** Updates published one after the other: each is based on the version before it. */
  predicate Published(version: nat, updates: seq<Update>) {
    updates == [] ||
    var front := updates[..|updates| - 1];
    Published(version, front) && updates[|updates| - 1].baseVersion == LastVersion(version, front)
  }

  function UpdatedAll(r: Replica, updates: seq<Update>): Replica {
    if updates == [] then r else Updated(UpdatedAll(r, updates[..|updates| - 1]), updates[|updates| - 1])
  }

  function ServerUpdatedAll(tree: Tree, updates: seq<Update>): Tree {
    if updates == [] then tree else ServerUpdated(ServerUpdatedAll(tree, updates[..|updates| - 1]), updates[|updates| - 1])
  }

  /** All their operations, in order. */
  function OperationsOf(updates: seq<Update>): seq<Operation> {
    if updates == [] then [] else OperationsOf(updates[..|updates| - 1]) + updates[|updates| - 1].operations
  }

  lemma {:induction false} ApplyMore(r: Replica, a: seq<Operation>, b: seq<Operation>)
    ensures ApplyOperations(r, a + b) == ApplyOperations(ApplyOperations(r, a), b)
    decreases |b|
  {
    if b == [] {
      assert a + b == a;
    } else {
      ApplyMore(r, a, b[..|b| - 1]);
      assert (a + b)[..|a + b| - 1] == a + b[..|b| - 1];
    }
  }

  lemma {:induction false} ServerMore(tree: Tree, a: seq<Operation>, b: seq<Operation>)
    ensures ServerOperations(tree, a + b) == ServerOperations(ServerOperations(tree, a), b)
    decreases |b|
  {
    if b == [] {
      assert a + b == a;
    } else {
      ServerMore(tree, a, b[..|b| - 1]);
      assert (a + b)[..|a + b| - 1] == a + b[..|b| - 1];
    }
  }

  lemma {:induction false} ApplyKeepsVersion(r: Replica, version: nat, operations: seq<Operation>)
    ensures ApplyOperations(r.(uiVersion := version), operations) == ApplyOperations(r, operations).(uiVersion := version)
    decreases |operations|
  {
    if operations != [] {
      ApplyKeepsVersion(r, version, operations[..|operations| - 1]);
    }
  }

  lemma {:induction false} ServerKeepsVersion(tree: Tree, version: nat, operations: seq<Operation>)
    ensures ServerOperations(tree.(uiVersion := version), operations) == ServerOperations(tree, operations).(uiVersion := version)
    decreases |operations|
  {
    if operations != [] {
      ServerKeepsVersion(tree, version, operations[..|operations| - 1]);
    }
  }

  lemma {:induction false} ClientRun(r: Replica, updates: seq<Update>)
    requires Published(r.uiVersion, updates)
    ensures UpdatedAll(r, updates) ==
            ApplyOperations(r, OperationsOf(updates)).(uiVersion := LastVersion(r.uiVersion, updates))
    decreases |updates|
  {
    if updates == [] {
      ApplyKeepsVersion(r, r.uiVersion, []);
    } else {
      var front, last := updates[..|updates| - 1], updates[|updates| - 1];
      ClientRun(r, front);
      ApplyMore(r, OperationsOf(front), last.operations);
      ApplyKeepsVersion(ApplyOperations(r, OperationsOf(front)), LastVersion(r.uiVersion, front), last.operations);
    }
  }

  lemma {:induction false} ServerRun(tree: Tree, updates: seq<Update>)
    ensures ServerUpdatedAll(tree, updates) ==
            ServerOperations(tree, OperationsOf(updates)).(uiVersion := LastVersion(tree.uiVersion, updates))
    decreases |updates|
  {
    if updates == [] {
      ServerKeepsVersion(tree, tree.uiVersion, []);
    } else {
      var front, last := updates[..|updates| - 1], updates[|updates| - 1];
      ServerRun(tree, front);
      ServerMore(tree, OperationsOf(front), last.operations);
      ServerKeepsVersion(ServerOperations(tree, OperationsOf(front)), LastVersion(tree.uiVersion, front), last.operations);
    }
  }

  /** Over a whole run of published updates the client ends with the server's tree if
      and only if no operation removes the root then in force without a later one, of
      the same or of a later update, setting a root. */
  lemma ClientAgreesOverRuns(tree: Tree, updates: seq<Update>)
    requires DistinctIds(tree.nodes) && Published(tree.uiVersion, updates)
    ensures UpdatedAll(Snapshot(tree), updates) == Snapshot(ServerUpdatedAll(tree, updates))
       <==> !DropsRoot(tree.rootId, OperationsOf(updates))
  {
    ClientRun(Snapshot(tree), updates);
    ServerRun(tree, updates);
    ServerNodesAgree(tree, OperationsOf(updates));
    RootsCompared(tree, OperationsOf(updates));
  }

  ghost predicate NodeAccepted(tree: Tree, documentId: nat, node: Node) {
    && (forall i: nat, child | IsChild(node.kind, i, child) :: child in IdsOf(tree.nodes))
    && (node.kind.EditorView? ==> node.kind.binding.documentId == documentId)
  }

  /** `validate_update` of the server, for the pane of `documentId`. */
  ghost predicate ServerAccepts(tree: Tree, documentId: nat, update: Update) {
    && update.baseVersion == tree.uiVersion && update.newVersion > update.baseVersion
    && forall operation | operation in update.operations ::
         match operation
         case ReplaceRoot(rootId) =>
           || rootId in IdsOf(tree.nodes)
           || exists other | other in update.operations :: other.ReplaceNode? && other.node.id == rootId
         case ReplaceNode(node) => NodeAccepted(tree, documentId, node)
         case RemoveNode(nodeId) => nodeId in IdsOf(tree.nodes)
  }

  /** Removing the root node and putting it back is accepted; it leaves the server's
      tree as it was and the client without a root. */
  lemma PuttingTheRootBackIsNotEnough(tree: Tree, documentId: nat, node: Node, version: nat)
    requires DistinctIds(tree.nodes) && node in tree.nodes && node.id == tree.rootId
    requires NodeAccepted(tree, documentId, node) && version > tree.uiVersion
    ensures var update := Update(tree.uiVersion, version, [RemoveNode(node.id), ReplaceNode(node)]);
            && ServerAccepts(tree, documentId, update)
            && Collect(ServerUpdated(tree, update).nodes) == Collect(tree.nodes)
            && ServerUpdated(tree, update).rootId == tree.rootId
            && Updated(Snapshot(tree), update).rootId == None
  {
    var operations := [RemoveNode(node.id), ReplaceNode(node)];
    ServerNodesAgree(tree, operations);
    RootsCompared(tree, operations);
    assert DropsRootAt(tree.rootId, operations, 0);
    CollectedNode(tree.nodes, node);
    assert operations[..1] == [RemoveNode(node.id)] && operations[..1][..0] == [];
    var client := Snapshot(tree);
    assert ApplyOperations(client, operations[..1]) == ApplyOperation(ApplyOperations(client, []), RemoveNode(node.id));
    assert ApplyOperations(client, operations).nodes == (Collect(tree.nodes) - {node.id})[node.id := node];
  }

  /** Nothing on the server keeps the node graph acyclic: making any node below the
      root its own child is accepted, and then the client's walk from the root ends
      within no number of nested calls. */
  lemma CyclesAreAccepted(tree: Tree, documentId: nat, node: Node, version: nat, path: seq<nat>)
    requires DistinctIds(tree.nodes) && node in tree.nodes && version > tree.uiVersion
    requires Leads(Collect(tree.nodes), tree.rootId, path, node.id)
    ensures var update := Update(tree.uiVersion, version, [ReplaceNode(Node(node.id, Stack([node.id])))]);
            && ServerAccepts(tree, documentId, update)
            && forall stack: nat :: !WalkEnds(Updated(Snapshot(tree), update), stack)
  {
    var loop := Node(node.id, Stack([node.id]));
    var operations := [ReplaceNode(loop)];
    var client := Snapshot(tree);
    assert operations[..0] == [];
    assert ApplyOperations(client, operations) == ApplyOperation(client, ReplaceNode(loop));
    var after := Updated(client, Update(tree.uiVersion, version, operations));
    forall stack: nat
      ensures !WalkEnds(after, stack)
    {
      LeadsToNode(client.nodes, tree.rootId, path, node.id);
      WalkIntoLoop(client.nodes, tree.rootId, path, node.id, stack);
    }
  }

  lemma {:induction false} WalkIntoLoop(nodes: NodeMap, id: NodeId, path: seq<nat>, looped: NodeId, stack: nat)
    requires NodeAt(nodes, id, path) == Some(looped)
    ensures !Ends(nodes[looped := Node(looped, Stack([looped]))], id, stack)
    decreases stack
  {
    var after := nodes[looped := Node(looped, Stack([looped]))];
    if stack > 0 {
      if id == looped {
        assert NodeAt(nodes, id, []) == Some(looped);
        WalkIntoLoop(nodes, id, [], looped, stack - 1);
        assert id in ChildrenOf(after[id].kind);
      } else {
        var child := ChildrenOf(nodes[id].kind)[path[0]];
        WalkIntoLoop(nodes, child, path[1..], looped, stack - 1);
        assert child in ChildrenOf(after[id].kind);
      }
    }
  }

  lemma {:induction false} CollectedNode(nodes: seq<Node>, node: Node)
    requires DistinctIds(nodes) && node in nodes
    ensures node.id in Collect(nodes) && Collect(nodes)[node.id] == node
    decreases |nodes|
  {
    CollectFront(nodes);
    if nodes[0] != node {
      CollectedNode(nodes[1..], node);
    }
  }
}
