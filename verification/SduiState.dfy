/** The client replica of the server-driven UI tree (src/masonry_sdui.rs,
    `SduiNativeState`) and the server's own copy (src/server/sdui.rs). */
module SduiState {
  import opened Wrappers

  type NodeId = nat

  datatype EditorBinding = EditorBinding(documentId: nat, expectedVersion: Option<nat>)
  datatype Direction = Row | Column

  datatype NodeKind =
    | Panel(title: string, children: seq<NodeId>)
    | Label(text: string)
    | Button(caption: string, command: string)
    | List(items: seq<string>)
    | EditorView(binding: EditorBinding)
    | Flex(direction: Direction, children: seq<NodeId>)
    | Stack(children: seq<NodeId>)

  datatype Node = Node(id: NodeId, kind: NodeKind)

  datatype Tree = Tree(uiVersion: nat, rootId: NodeId, nodes: seq<Node>)

  datatype Operation =
    | ReplaceRoot(rootId: NodeId)
    | ReplaceNode(node: Node)
    | RemoveNode(nodeId: NodeId)

  datatype Update = Update(baseVersion: nat, newVersion: nat, operations: seq<Operation>)

  type NodeMap = map<NodeId, Node>

  datatype Replica = Replica(uiVersion: nat, rootId: Option<NodeId>, nodes: NodeMap)

  const EMPTY := Replica(0, None, map[])

  function ChildrenOf(kind: NodeKind): seq<NodeId> {
    match kind
    case Panel(_, children) => children
    case Flex(_, children) => children
    case Stack(children) => children
    case _ => []
  }

  // ----------------------------------------------------------- snapshots, updates

  /** Collecting a node list into a map: the last node of an id wins. */
  function Collect(nodes: seq<Node>): NodeMap {
    if nodes == [] then map[]
    else
      var last := nodes[|nodes| - 1];
      Collect(nodes[..|nodes| - 1])[last.id := last]
  }

  function Snapshot(tree: Tree): Replica {
    Replica(tree.uiVersion, Some(tree.rootId), Collect(tree.nodes))
  }

  function ApplyOperation(r: Replica, operation: Operation): Replica {
    match operation
    case ReplaceRoot(rootId) => r.(rootId := Some(rootId))
    case ReplaceNode(node) => r.(nodes := r.nodes[node.id := node])
    case RemoveNode(nodeId) =>
      r.(nodes := r.nodes - {nodeId}, rootId := if r.rootId == Some(nodeId) then None else r.rootId)
  }

  function ApplyOperations(r: Replica, operations: seq<Operation>): Replica {
    if operations == [] then r
    else ApplyOperation(ApplyOperations(r, operations[..|operations| - 1]), operations[|operations| - 1])
  }

  /** An update whose base is another version is refused and changes nothing. */
  function Updated(r: Replica, update: Update): Replica {
    if update.baseVersion != r.uiVersion then r
    else ApplyOperations(r, update.operations).(uiVersion := update.newVersion)
  }

  // ------------------------------------------------------------ the editor binding

  /** The recursive walk from `id` ends within `stack` nested calls on present nodes. */
  predicate Ends(nodes: NodeMap, id: NodeId, stack: nat)
    decreases stack
  {
    id !in nodes ||
    (stack > 0 && forall child | child in ChildrenOf(nodes[id].kind) :: Ends(nodes, child, stack - 1))
  }

  predicate WalkEnds(r: Replica, stack: nat) {
    r.rootId.Some? ==> Ends(r.nodes, r.rootId.value, stack)
  }

  /** The editor views below `id` in preorder, dangling children skipped. */
  function Views(nodes: NodeMap, id: NodeId, stack: nat): seq<EditorBinding>
    requires Ends(nodes, id, stack)
    decreases stack, 0
  {
    if id !in nodes then []
    else
      match nodes[id].kind
      case EditorView(binding) => [binding]
      case _ => ViewsOfAll(nodes, ChildrenOf(nodes[id].kind), stack - 1)
  }

  function ViewsOfAll(nodes: NodeMap, ids: seq<NodeId>, stack: nat): seq<EditorBinding>
    requires forall id | id in ids :: Ends(nodes, id, stack)
    decreases stack, |ids| + 1
  {
    if ids == [] then []
    else
      assert ids[0] in ids;
      Views(nodes, ids[0], stack) + ViewsOfAll(nodes, ids[1..], stack)
  }

  /** Walking the children one by one from position `i`. */
  lemma ViewsStep(nodes: NodeMap, ids: seq<NodeId>, i: nat, stack: nat)
    requires i < |ids| && forall id | id in ids[i..] :: Ends(nodes, id, stack)
    ensures Ends(nodes, ids[i], stack) && forall id | id in ids[i + 1..] :: Ends(nodes, id, stack)
    ensures First(ViewsOfAll(nodes, ids[i..], stack)) ==
            Or(First(Views(nodes, ids[i], stack)), First(ViewsOfAll(nodes, ids[i + 1..], stack)))
  {
    assert ids[i..][0] == ids[i] && ids[i..][1..] == ids[i + 1..];
    assert ids[i] in ids[i..];
    forall id | id in ids[i + 1..]
      ensures id in ids[i..]
    {
      var k :| 0 <= k < |ids[i + 1..]| && ids[i + 1..][k] == id;
      assert ids[i..][k + 1] == id;
    }
  }

  function First(bindings: seq<EditorBinding>): Option<EditorBinding> {
    if bindings == [] then None else Some(bindings[0])
  }

  function Or(a: Option<EditorBinding>, b: Option<EditorBinding>): Option<EditorBinding> {
    if a.Some? then a else b
  }

  /** The kind of the node that a path of child positions leads to. */
  function KindAt(nodes: NodeMap, id: NodeId, path: seq<nat>): Option<NodeKind>
    decreases |path|
  {
    if id !in nodes then None
    else if path == [] then Some(nodes[id].kind)
    else
      var children := ChildrenOf(nodes[id].kind);
      if path[0] < |children| then KindAt(nodes, children[path[0]], path[1..]) else None
  }

  predicate FindsViewAt(nodes: NodeMap, id: NodeId, path: seq<nat>) {
    var kind := KindAt(nodes, id, path);
    kind.Some? && kind.value.EditorView?
  }

  /** Lexicographic order on paths: preorder. */
  predicate Before(p: seq<nat>, q: seq<nat>)
    decreases |p|
  {
    q != [] && (p == [] || p[0] < q[0] || (p[0] == q[0] && Before(p[1..], q[1..])))
  }

  /** `binding` is the one of the leftmost path that leads to an editor view. */
  ghost predicate IsFoundLeftmost(nodes: NodeMap, id: NodeId, path: seq<nat>, binding: EditorBinding) {
    && KindAt(nodes, id, path) == Some(EditorView(binding))
    && forall q | FindsViewAt(nodes, id, q) :: q == path || Before(path, q)
  }

  /** What the walk has to find. */
  ghost predicate IsFoundFirst(nodes: NodeMap, rootId: Option<NodeId>, binding: Option<EditorBinding>) {
    match rootId
    case None => binding == None
    case Some(id) =>
      match binding
      case None => forall path :: !FindsViewAt(nodes, id, path)
      case Some(b) => exists path :: IsFoundLeftmost(nodes, id, path, b)
  }

  lemma {:induction false} ViewsAreFoundFirst(nodes: NodeMap, id: NodeId, stack: nat)
    requires Ends(nodes, id, stack)
    ensures IsFoundFirst(nodes, Some(id), First(Views(nodes, id, stack)))
    decreases stack, 0
  {
    if id in nodes {
      var children := ChildrenOf(nodes[id].kind);
      if nodes[id].kind.EditorView? {
        assert IsFoundLeftmost(nodes, id, [], nodes[id].kind.binding) by {
          forall q | FindsViewAt(nodes, id, q)
            ensures q == []
          {
          }
        }
      } else {
        ChildViewsAreFound(nodes, children, stack - 1, id, 0);
        var first := First(Views(nodes, id, stack));
        if first.Some? {
          var path :| IsLeftmostFrom(nodes, id, 0, path, first.value);
          assert IsFoundLeftmost(nodes, id, path, first.value);
        }
      }
    } else {
      assert forall path :: !FindsViewAt(nodes, id, path);
    }
  }

  /** Among the paths that start at child position `start` or later. */
  ghost predicate IsFirstFrom(nodes: NodeMap, id: NodeId, start: nat, binding: Option<EditorBinding>) {
    match binding
    case None => forall q | FindsViewAt(nodes, id, q) && q != [] :: q[0] < start
    case Some(b) => exists path :: IsLeftmostFrom(nodes, id, start, path, b)
  }

  ghost predicate IsLeftmostFrom(nodes: NodeMap, id: NodeId, start: nat, path: seq<nat>, binding: EditorBinding) {
    && path != [] && path[0] >= start
    && KindAt(nodes, id, path) == Some(EditorView(binding))
    && forall q | FindsViewAt(nodes, id, q) && q != [] && q[0] >= start :: q == path || Before(path, q)
  }

  lemma {:induction false} ChildViewsAreFound(nodes: NodeMap, ids: seq<NodeId>, stack: nat, parent: NodeId, start: nat)
    requires forall id | id in ids :: Ends(nodes, id, stack)
    requires parent in nodes && start <= |ChildrenOf(nodes[parent].kind)|
    requires ids == ChildrenOf(nodes[parent].kind)[start..]
    ensures IsFirstFrom(nodes, parent, start, First(ViewsOfAll(nodes, ids, stack)))
    decreases stack, |ids| + 1
  {
    var children := ChildrenOf(nodes[parent].kind);
    if ids == [] {
      forall q | FindsViewAt(nodes, parent, q) && q != []
        ensures q[0] < start
      {
      }
    } else {
      assert ids[0] in ids && children[start] == ids[0];
      var own := First(Views(nodes, ids[0], stack));
      ViewsAreFoundFirst(nodes, ids[0], stack);
      if own.Some? {
        FirstInThisChild(nodes, parent, start, own.value);
      } else {
        ChildViewsAreFound(nodes, ids[1..], stack, parent, start + 1);
        assert ViewsOfAll(nodes, ids, stack) == [] + ViewsOfAll(nodes, ids[1..], stack);
        FirstInLaterChild(nodes, parent, start, First(ViewsOfAll(nodes, ids[1..], stack)));
      }
    }
  }

  lemma FirstInThisChild(nodes: NodeMap, parent: NodeId, start: nat, b: EditorBinding)
    requires parent in nodes && start < |ChildrenOf(nodes[parent].kind)|
    requires IsFoundFirst(nodes, Some(ChildrenOf(nodes[parent].kind)[start]), Some(b))
    ensures IsFirstFrom(nodes, parent, start, Some(b))
  {
    var child := ChildrenOf(nodes[parent].kind)[start];
    var tail :| IsFoundLeftmost(nodes, child, tail, b);
    var path := [start] + tail;
    assert path[1..] == tail;
    forall q | FindsViewAt(nodes, parent, q) && q != [] && q[0] >= start
      ensures q == path || Before(path, q)
    {
      if q[0] == start {
        assert FindsViewAt(nodes, child, q[1..]);
        assert q == [q[0]] + q[1..];
      }
    }
    assert IsLeftmostFrom(nodes, parent, start, path, b);
  }

  lemma FirstInLaterChild(nodes: NodeMap, parent: NodeId, start: nat, binding: Option<EditorBinding>)
    requires parent in nodes && start < |ChildrenOf(nodes[parent].kind)|
    requires IsFoundFirst(nodes, Some(ChildrenOf(nodes[parent].kind)[start]), None)
    requires IsFirstFrom(nodes, parent, start + 1, binding)
    ensures IsFirstFrom(nodes, parent, start, binding)
  {
    var child := ChildrenOf(nodes[parent].kind)[start];
    forall q | FindsViewAt(nodes, parent, q) && q != []
      ensures q[0] != start
    {
      if q[0] == start {
        assert FindsViewAt(nodes, child, q[1..]);
      }
    }
    if binding.Some? {
      var path :| IsLeftmostFrom(nodes, parent, start + 1, path, binding.value);
      assert IsLeftmostFrom(nodes, parent, start, path, binding.value);
    }
  }

  // ------------------------------------------------------ when the walk ends

  /** The node that a path of child positions leads to. */
  function NodeAt(nodes: NodeMap, id: NodeId, path: seq<nat>): Option<NodeId>
    decreases |path|
  {
    if id !in nodes then None
    else if path == [] then Some(id)
    else
      var children := ChildrenOf(nodes[id].kind);
      if path[0] < |children| then NodeAt(nodes, children[path[0]], path[1..]) else None
  }

  /** `back` leads from a node at the end of `path` to that node again. */
  predicate FindsCycleAt(nodes: NodeMap, id: NodeId, path: seq<nat>, back: seq<nat>) {
    var at := NodeAt(nodes, id, path);
    at.Some? && back != [] && NodeAt(nodes, at.value, back) == at
  }

  ghost predicate FindsCycle(nodes: NodeMap, id: NodeId) {
    exists path, back :: FindsCycleAt(nodes, id, path, back)
  }

  /** A walk that needs more than `stack` calls goes down a path of that length. */
  lemma {:induction false} LongPath(nodes: NodeMap, id: NodeId, stack: nat) returns (path: seq<nat>)
    requires !Ends(nodes, id, stack)
    ensures |path| == stack && NodeAt(nodes, id, path).Some?
    decreases stack
  {
    if stack == 0 {
      path := [];
    } else {
      var children := ChildrenOf(nodes[id].kind);
      var child :| child in children && !Ends(nodes, child, stack - 1);
      var i :| 0 <= i < |children| && children[i] == child;
      var rest := LongPath(nodes, child, stack - 1);
      path := [i] + rest;
      assert path[1..] == rest;
    }
  }

  lemma {:induction false} NodeAtConcat(nodes: NodeMap, id: NodeId, path: seq<nat>, more: seq<nat>)
    requires NodeAt(nodes, id, path).Some?
    ensures NodeAt(nodes, id, path + more) == NodeAt(nodes, NodeAt(nodes, id, path).value, more)
    decreases |path|
  {
    if path == [] {
      assert path + more == more;
    } else {
      assert (path + more)[1..] == path[1..] + more;
      NodeAtConcat(nodes, ChildrenOf(nodes[id].kind)[path[0]], path[1..], more);
    }
  }

  lemma {:induction false} NodeAtPrefix(nodes: NodeMap, id: NodeId, path: seq<nat>, k: nat)
    requires k <= |path| && NodeAt(nodes, id, path).Some?
    ensures NodeAt(nodes, id, path[..k]).Some? && NodeAt(nodes, id, path[..k]).value in nodes
    decreases k
  {
    if k > 0 {
      assert path[..k][1..] == path[1..][..k - 1];
      NodeAtPrefix(nodes, ChildrenOf(nodes[id].kind)[path[0]], path[1..], k - 1);
    }
  }

  /** More elements of a set than it has: two are the same. */
  lemma {:induction false} Pigeonhole(s: seq<NodeId>, keys: set<NodeId>) returns (i: nat, j: nat)
    requires |s| > |keys| && forall x | x in s :: x in keys
    ensures i < j < |s| && s[i] == s[j]
    decreases |s|
  {
    var first := s[0];
    assert first in s;
    if k :| 0 < k < |s| && s[k] == first {
      return 0, k;
    }
    i, j := Pigeonhole(s[1..], keys - {first});
    i, j := i + 1, j + 1;
  }

  /** A path through more nodes than there are goes through a cycle. */
  lemma LongPathsCycle(nodes: NodeMap, id: NodeId, path: seq<nat>)
    requires NodeAt(nodes, id, path).Some? && |path| >= |nodes|
    ensures FindsCycle(nodes, id)
  {
    forall k | 0 <= k <= |path|
      ensures NodeAt(nodes, id, path[..k]).Some? && NodeAt(nodes, id, path[..k]).value in nodes
    {
      NodeAtPrefix(nodes, id, path, k);
    }
    var visited := seq(|path| + 1, k requires 0 <= k <= |path| => NodeAt(nodes, id, path[..k]).value);
    assert |nodes.Keys| == |nodes|;
    var i, j := Pigeonhole(visited, nodes.Keys);
    NodeAtConcat(nodes, id, path[..i], path[i..j]);
    assert path[..i] + path[i..j] == path[..j];
    assert FindsCycleAt(nodes, id, path[..i], path[i..j]);
  }

  lemma {:induction false} EndsAlong(nodes: NodeMap, id: NodeId, path: seq<nat>, stack: nat)
    requires Ends(nodes, id, stack) && NodeAt(nodes, id, path).Some?
    ensures |path| < stack && Ends(nodes, NodeAt(nodes, id, path).value, stack - |path|)
    decreases |path|
  {
    if path != [] {
      var child := ChildrenOf(nodes[id].kind)[path[0]];
      assert child in ChildrenOf(nodes[id].kind);
      EndsAlong(nodes, child, path[1..], stack - 1);
    }
  }

  lemma {:induction false} CyclesDoNotEnd(nodes: NodeMap, id: NodeId, back: seq<nat>, stack: nat)
    requires back != [] && NodeAt(nodes, id, back) == Some(id)
    ensures !Ends(nodes, id, stack)
    decreases stack
  {
    if Ends(nodes, id, stack) {
      EndsAlong(nodes, id, back, stack);
      CyclesDoNotEnd(nodes, id, back, stack - |back|);
    }
  }

  lemma WalkEndsExactlyWithoutFoundCycles(nodes: NodeMap, id: NodeId)
    ensures Ends(nodes, id, |nodes|) <==> !FindsCycle(nodes, id)
    ensures (exists stack: nat :: Ends(nodes, id, stack)) <==> !FindsCycle(nodes, id)
  {
    if !Ends(nodes, id, |nodes|) {
      var path := LongPath(nodes, id, |nodes|);
      LongPathsCycle(nodes, id, path);
    }
    if FindsCycle(nodes, id) {
      var path, back :| FindsCycleAt(nodes, id, path, back);
      forall stack: nat
        ensures !Ends(nodes, id, stack)
      {
        if Ends(nodes, id, stack) {
          EndsAlong(nodes, id, path, stack);
          CyclesDoNotEnd(nodes, NodeAt(nodes, id, path).value, back, stack - |path|);
        }
      }
    }
  }

  // -------------------------------------------------- the node graph, written out

  /** `child` is the `i`-th child of a node of the kind. */
  predicate IsChild(kind: NodeKind, i: nat, child: NodeId) {
    match kind
    case Panel(_, children) => i < |children| && children[i] == child
    case Flex(_, children) => i < |children| && children[i] == child
    case Stack(children) => i < |children| && children[i] == child
    case Label(_) => false
    case Button(_, _) => false
    case List(_) => false
    case EditorView(_) => false
  }

  /** The walk descends by the child relation. */
  lemma DescendsToChildren(kind: NodeKind, i: nat, child: NodeId)
    ensures IsChild(kind, i, child) <==> i < |ChildrenOf(kind)| && ChildrenOf(kind)[i] == child
  {
  }

  /** A path of child positions leads from one present node to another. */
  ghost predicate Leads(nodes: NodeMap, id: NodeId, path: seq<nat>, at: NodeId)
    decreases |path|
  {
    && id in nodes
    && if path == [] then at == id
       else exists child | IsChild(nodes[id].kind, path[0], child) :: Leads(nodes, child, path[1..], at)
  }

  lemma {:induction false} LeadsToNode(nodes: NodeMap, id: NodeId, path: seq<nat>, at: NodeId)
    ensures Leads(nodes, id, path, at) <==> NodeAt(nodes, id, path) == Some(at)
    decreases |path|
  {
    if id in nodes && path != [] {
      var kind, i := nodes[id].kind, path[0];
      if child :| IsChild(kind, i, child) && Leads(nodes, child, path[1..], at) {
        DescendsToChildren(kind, i, child);
        LeadsToNode(nodes, child, path[1..], at);
      }
      if i < |ChildrenOf(kind)| {
        DescendsToChildren(kind, i, ChildrenOf(kind)[i]);
        LeadsToNode(nodes, ChildrenOf(kind)[i], path[1..], at);
      }
    }
  }

  lemma {:induction false} KindOfNode(nodes: NodeMap, id: NodeId, path: seq<nat>)
    ensures NodeAt(nodes, id, path).None? ==> KindAt(nodes, id, path) == None
    ensures NodeAt(nodes, id, path).Some? ==>
              NodeAt(nodes, id, path).value in nodes
              && KindAt(nodes, id, path) == Some(nodes[NodeAt(nodes, id, path).value].kind)
    decreases |path|
  {
    if id in nodes && path != [] && path[0] < |ChildrenOf(nodes[id].kind)| {
      KindOfNode(nodes, ChildrenOf(nodes[id].kind)[path[0]], path[1..]);
    }
  }

  /** The path leads to an editor view of the binding. */
  ghost predicate ViewAt(nodes: NodeMap, id: NodeId, path: seq<nat>, binding: EditorBinding) {
    exists at | Leads(nodes, id, path, at) :: at in nodes && nodes[at].kind == EditorView(binding)
  }

  lemma ViewIsFound(nodes: NodeMap, id: NodeId, path: seq<nat>, binding: EditorBinding)
    ensures ViewAt(nodes, id, path, binding) <==> KindAt(nodes, id, path) == Some(EditorView(binding))
  {
    KindOfNode(nodes, id, path);
    if at :| Leads(nodes, id, path, at) && at in nodes && nodes[at].kind == EditorView(binding) {
      LeadsToNode(nodes, id, path, at);
    }
    if NodeAt(nodes, id, path).Some? {
      LeadsToNode(nodes, id, path, NodeAt(nodes, id, path).value);
    }
  }

  /** `binding` is that of the leftmost path that leads to an editor view. */
  ghost predicate IsLeftmostView(nodes: NodeMap, id: NodeId, path: seq<nat>, binding: EditorBinding) {
    && ViewAt(nodes, id, path, binding)
    && forall q, other | ViewAt(nodes, id, q, other) :: q == path || Before(path, q)
  }

  /** What the derived binding has to be, without reference to any traversal. */
  ghost predicate IsFirstView(nodes: NodeMap, rootId: Option<NodeId>, binding: Option<EditorBinding>) {
    match rootId
    case None => binding == None
    case Some(id) =>
      match binding
      case None => forall path, other :: !ViewAt(nodes, id, path, other)
      case Some(b) => exists path :: IsLeftmostView(nodes, id, path, b)
  }

  lemma FoundIsFirst(nodes: NodeMap, id: NodeId, binding: Option<EditorBinding>)
    requires IsFoundFirst(nodes, Some(id), binding)
    ensures IsFirstView(nodes, Some(id), binding)
  {
    forall path, other
      ensures ViewAt(nodes, id, path, other) ==> FindsViewAt(nodes, id, path)
    {
      ViewIsFound(nodes, id, path, other);
    }
    if binding.Some? {
      var path :| IsFoundLeftmost(nodes, id, path, binding.value);
      ViewIsFound(nodes, id, path, binding.value);
      assert IsLeftmostView(nodes, id, path, binding.value);
    }
  }

  /** The first binding of the walk is that of the leftmost path to an editor view. */
  lemma ViewsAreLeftmost(nodes: NodeMap, id: NodeId, stack: nat)
    requires Ends(nodes, id, stack)
    ensures IsFirstView(nodes, Some(id), First(Views(nodes, id, stack)))
  {
    ViewsAreFoundFirst(nodes, id, stack);
    FoundIsFirst(nodes, id, First(Views(nodes, id, stack)));
  }

  /** `back` leads from a node at the end of `path` to that node again. */
  ghost predicate IsCycleAt(nodes: NodeMap, id: NodeId, path: seq<nat>, at: NodeId, back: seq<nat>) {
    Leads(nodes, id, path, at) && back != [] && Leads(nodes, at, back, at)
  }

  /** Some node reachable from `id` lies on a cycle. */
  ghost predicate HasCycle(nodes: NodeMap, id: NodeId) {
    exists path, at, back :: IsCycleAt(nodes, id, path, at, back)
  }

  lemma CycleIsFound(nodes: NodeMap, id: NodeId)
    ensures HasCycle(nodes, id) <==> FindsCycle(nodes, id)
  {
    if path, at, back :| IsCycleAt(nodes, id, path, at, back) {
      LeadsToNode(nodes, id, path, at);
      LeadsToNode(nodes, at, back, at);
      assert FindsCycleAt(nodes, id, path, back);
    }
    if path, back :| FindsCycleAt(nodes, id, path, back) {
      var at := NodeAt(nodes, id, path).value;
      LeadsToNode(nodes, id, path, at);
      LeadsToNode(nodes, at, back, at);
      assert IsCycleAt(nodes, id, path, at, back);
    }
  }

  /** The walk ends, within as many nested calls as there are nodes, if and only if no
      node reachable from its start lies on a cycle; otherwise it ends within no
      number of calls. */
  lemma WalkEndsExactlyWithoutCycles(nodes: NodeMap, id: NodeId)
    ensures Ends(nodes, id, |nodes|) <==> !HasCycle(nodes, id)
    ensures (exists stack: nat :: Ends(nodes, id, stack)) <==> !HasCycle(nodes, id)
  {
    WalkEndsExactlyWithoutFoundCycles(nodes, id);
    CycleIsFound(nodes, id);
  }

  // ------------------------------------------------------------ the client object

  class SduiNativeState {
    var uiVersion: nat
    var rootId: Option<NodeId>
    var nodes: NodeMap
    var editorBinding: Option<EditorBinding>
    var regionDirty: bool

    constructor ()
      ensures State() == EMPTY && editorBinding == None && regionDirty
    {
      uiVersion, rootId, nodes, editorBinding, regionDirty := 0, None, map[], None, true;
    }

    function State(): Replica
      reads this
    {
      Replica(uiVersion, rootId, nodes)
    }

    /** The derived binding agrees with the tree. */
    ghost predicate Valid()
      reads this
    {
      IsFirstView(nodes, rootId, editorBinding)
    }

    /** Replaces the replica, then walks it; `done` is false when the walk runs out of
        stack, which ends the process. */
    method ApplySnapshot(tree: Tree, stack: nat) returns (done: bool)
      modifies this
      ensures State() == Snapshot(tree)
      ensures done <==> WalkEnds(State(), stack)
      ensures done ==> Valid() && regionDirty
    {
      uiVersion := tree.uiVersion;
      rootId := Some(tree.rootId);
      nodes := Collect(tree.nodes);
      done := RebuildDerivedState(stack);
      if done {
        regionDirty := true;
      }
    }

    method ApplyUpdate(update: Update, stack: nat) returns (accepted: bool, done: bool)
      modifies this
      ensures accepted <==> update.baseVersion == old(uiVersion)
      ensures State() == Updated(old(State()), update)
      ensures done <==> accepted ==> WalkEnds(State(), stack)
      ensures accepted && done ==> Valid() && regionDirty
      ensures !accepted ==> editorBinding == old(editorBinding) && regionDirty == old(regionDirty)
    {
      if update.baseVersion != uiVersion {
        return false, true;
      }
      for i := 0 to |update.operations|
        invariant State() == ApplyOperations(old(State()), update.operations[..i])
      {
        assert update.operations[..i + 1][..i] == update.operations[..i];
        match update.operations[i] {
          case ReplaceRoot(newRoot) =>
            rootId := Some(newRoot);
          case ReplaceNode(node) =>
            nodes := nodes[node.id := node];
          case RemoveNode(nodeId) =>
            nodes := nodes - {nodeId};
            if rootId == Some(nodeId) {
              rootId := None;
            }
        }
      }
      assert update.operations[..|update.operations|] == update.operations;
      uiVersion := update.newVersion;
      done := RebuildDerivedState(stack);
      if done {
        regionDirty := true;
      }
      return true, done;
    }

    method RebuildDerivedState(stack: nat) returns (done: bool)
      modifies `editorBinding
      ensures done <==> WalkEnds(State(), stack)
      ensures done ==> Valid()
    {
      editorBinding := None;
      done := true;
      if rootId.Some? {
        done := FindEditorBinding(rootId.value, stack);
        if done {
          ViewsAreLeftmost(nodes, rootId.value, stack);
        }
      }
    }

    /** The recursive walk: it keeps the first binding it meets, and goes on. */
    method FindEditorBinding(nodeId: NodeId, stack: nat) returns (done: bool)
      modifies `editorBinding
      ensures done <==> Ends(nodes, nodeId, stack)
      ensures done ==> editorBinding == Or(old(editorBinding), First(Views(nodes, nodeId, stack)))
      decreases stack
    {
      if nodeId !in nodes {
        return true;
      }
      if stack == 0 {
        return false;
      }
      var kind := nodes[nodeId].kind;
      if kind.EditorView? {
        if editorBinding.None? {
          editorBinding := Some(kind.binding);
        }
        return true;
      }
      var children := ChildrenOf(kind);
      assert children[0..] == children;
      for i := 0 to |children|
        invariant forall k | 0 <= k < i :: Ends(nodes, children[k], stack - 1)
        invariant Ends(nodes, nodeId, stack) ==>
                    && (forall id | id in children[i..] :: Ends(nodes, id, stack - 1))
                    && Or(old(editorBinding), First(Views(nodes, nodeId, stack))) ==
                    Or(editorBinding, First(ViewsOfAll(nodes, children[i..], stack - 1)))
      {
        assert children[i] in children;
        if Ends(nodes, nodeId, stack) {
          ViewsStep(nodes, children, i, stack - 1);
        }
        done := FindEditorBinding(children[i], stack - 1);
        if !done {
          return false;
        }
      }
      return true;
    }
  }
}
