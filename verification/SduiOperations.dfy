/** What a snapshot and a run of operations leave for each node id, read off the list
    itself (src/masonry_sdui.rs, src/server/sdui.rs). */
module SduiOperations {
  import opened Wrappers
  import opened SduiState
  import opened SduiLaws

  // -------------------------------------------------------------------- snapshots

  /** The last node of the list that has the id. */
  ghost predicate IsLastOf(nodes: seq<Node>, i: nat, id: NodeId)
    requires i < |nodes|
  {
    nodes[i].id == id && forall j | i < j < |nodes| :: nodes[j].id != id
  }

  /** A snapshot keeps, of the nodes with one id, the last. */
  lemma {:induction false} CollectKeepsLast(nodes: seq<Node>, id: NodeId, node: Node)
    ensures id in Collect(nodes) && Collect(nodes)[id] == node <==>
            exists i | 0 <= i < |nodes| :: IsLastOf(nodes, i, id) && nodes[i] == node
  {
    if nodes != [] {
      var n := |nodes| - 1;
      var front := nodes[..n];
      CollectKeepsLast(front, id, node);
      if nodes[n].id == id {
        assert IsLastOf(nodes, n, id);
      }
      forall i | 0 <= i < n
        ensures IsLastOf(nodes, i, id) <==> IsLastOf(front, i, id) && nodes[n].id != id
      {
        assert forall j | i < j < n :: front[j] == nodes[j];
      }
    }
  }

  // ------------------------------------------------------------------- operations

  predicate IsAbout(operation: Operation, id: NodeId) {
    match operation
    case ReplaceNode(node) => node.id == id
    case RemoveNode(removed) => removed == id
    case ReplaceRoot(_) => false
  }

  /** The last operation about the id. */
  ghost predicate IsLastAbout(operations: seq<Operation>, i: nat, id: NodeId)
    requires i < |operations|
  {
    IsAbout(operations[i], id) && forall j | i < j < |operations| :: !IsAbout(operations[j], id)
  }

  /** The last operation about an id decides its node; without one it stays. */
  ghost predicate Decided(before: NodeMap, operations: seq<Operation>, id: NodeId, node: Node) {
    if exists i | 0 <= i < |operations| :: IsAbout(operations[i], id)
    then exists i | 0 <= i < |operations| :: IsLastAbout(operations, i, id) && operations[i] == ReplaceNode(node)
    else id in before && before[id] == node
  }

  lemma DecidedStep(before: NodeMap, operations: seq<Operation>, id: NodeId, node: Node)
    requires operations != []
    ensures var n := |operations| - 1;
            Decided(before, operations, id, node) <==>
            if IsAbout(operations[n], id) then operations[n] == ReplaceNode(node)
            else Decided(before, operations[..n], id, node)
  {
    var n := |operations| - 1;
    var front := operations[..n];
    if IsAbout(operations[n], id) {
      assert IsLastAbout(operations, n, id);
    } else {
      forall i | 0 <= i < n
        ensures IsLastAbout(operations, i, id) <==> IsLastAbout(front, i, id)
      {
        assert forall j | i < j < n :: front[j] == operations[j];
      }
    }
  }

  /** After a run of operations the replica has exactly the nodes decided by it. */
  lemma {:induction false} NodesAreDecided(r: Replica, operations: seq<Operation>, id: NodeId, node: Node)
    ensures var nodes := ApplyOperations(r, operations).nodes;
            id in nodes && nodes[id] == node <==> Decided(r.nodes, operations, id, node)
    decreases |operations|
  {
    if operations != [] {
      NodesAreDecided(r, operations[..|operations| - 1], id, node);
      DecidedStep(r.nodes, operations, id, node);
    }
  }

  /** An operation that ends `root` being the root of the client. */
  predicate EndsRoot(operation: Operation, root: NodeId) {
    operation.ReplaceRoot? || operation == RemoveNode(root)
  }

  /** The root was set, by an operation or before them, and nothing ended it since. */
  ghost predicate IsRootAfter(before: Option<NodeId>, operations: seq<Operation>, root: NodeId) {
    || (before == Some(root) && forall j | 0 <= j < |operations| :: !EndsRoot(operations[j], root))
    || exists i | 0 <= i < |operations| :: SetsRoot(operations, i, root)
  }

  ghost predicate SetsRoot(operations: seq<Operation>, i: nat, root: NodeId)
    requires i < |operations|
  {
    operations[i] == ReplaceRoot(root) && forall j | i < j < |operations| :: !EndsRoot(operations[j], root)
  }

  lemma RootStep(before: Option<NodeId>, operations: seq<Operation>, root: NodeId)
    requires operations != []
    ensures var n := |operations| - 1;
            IsRootAfter(before, operations, root) <==>
            || operations[n] == ReplaceRoot(root)
            || (IsRootAfter(before, operations[..n], root) && !EndsRoot(operations[n], root))
  {
    var n := |operations| - 1;
    var front := operations[..n];
    if operations[n] == ReplaceRoot(root) {
      assert SetsRoot(operations, n, root);
    }
    forall i | 0 <= i < n
      ensures SetsRoot(operations, i, root) <==> SetsRoot(front, i, root) && !EndsRoot(operations[n], root)
    {
      assert forall j | i < j < n :: front[j] == operations[j];
    }
    assert forall j | 0 <= j < n :: front[j] == operations[j];
  }

  /** The root of the replica after a run of operations. */
  lemma {:induction false} RootIsDecided(r: Replica, operations: seq<Operation>, root: NodeId)
    ensures ApplyOperations(r, operations).rootId == Some(root) <==> IsRootAfter(r.rootId, operations, root)
    decreases |operations|
  {
    if operations != [] {
      RootIsDecided(r, operations[..|operations| - 1], root);
      RootStep(r.rootId, operations, root);
    }
  }

  // ------------------------------------------------------------- whole deliveries

  /** A snapshot replaces all there was, an update on its base has its operations decide
      and moves on to its version, and an update on another base changes nothing. */
  lemma DeliveryDecides(r: Replica, d: Delivery, id: NodeId, node: Node, root: NodeId)
    ensures var next := Deliver(r, d);
            match d
            case SnapshotMessage(tree) =>
              && next.uiVersion == tree.uiVersion && next.rootId == Some(tree.rootId)
              && (id in next.nodes && next.nodes[id] == node <==>
                  exists i | 0 <= i < |tree.nodes| :: IsLastOf(tree.nodes, i, id) && tree.nodes[i] == node)
            case UpdateMessage(update) =>
              if update.baseVersion != r.uiVersion then next == r
              else
                && next.uiVersion == update.newVersion
                && (next.rootId == Some(root) <==> IsRootAfter(r.rootId, update.operations, root))
                && (id in next.nodes && next.nodes[id] == node <==> Decided(r.nodes, update.operations, id, node))
  {
    match d
    case SnapshotMessage(tree) => CollectKeepsLast(tree.nodes, id, node);
    case UpdateMessage(update) =>
      NodesAreDecided(r, update.operations, id, node);
      RootIsDecided(r, update.operations, root);
  }
}
