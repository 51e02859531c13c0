/** `PackageRegionWidget` (src/masonry_package_region.rs): wholesale and live
    reconciliation of a package component tree into a retained widget tree. */
module PackageRegion {
  import opened Wrappers
  import opened PackageUi
  import opened KeyedDiff
  import opened Rendering
  import opened Placement
  import opened RegionViews

  class PackageRegionWidget {
    var rootHash: Option<Hash>
    var rootPod: Option<Widget>
    var pods: map<Hash, PodRecord>
    var childKeys: map<Hash, seq<ChildKey>>
    var textInputIntents: map<WidgetId, Intent>
    var context: Context
    /** The next widget id the toolkit will hand out. */
    var nextId: WidgetId

    constructor (context: Context)
      ensures rootHash == None && rootPod == None && pods == map[] && childKeys == map[] && textInputIntents == map[]
      ensures this.context == context
    {
      rootHash, rootPod, pods, childKeys, textInputIntents := None, None, map[], map[], map[];
      this.context := context;
      nextId := 0;
    }

    /** The fields as one value, which the laws are about. */
    function State(): View
      reads this
    {
      View(rootHash, rootPod, pods, childKeys, textInputIntents, context, nextId)
    }

    ghost function Ix(): Index
      reads this
    {
      Index(pods, childKeys)
    }

    /** The region shows `tree` as it was reconciled under `shown`. */
    ghost predicate Valid(tree: Component, shown: Context)
      reads this
    {
      State().Valid(tree, shown)
    }

    /** `text_input_commit`: the stored intent of a live text area. */
    method TextInputCommit(area: WidgetId, value: string, ghost tree: Component, ghost shown: Context)
      returns (intent: Option<(Intent, string)>)
      requires Valid(tree, shown)
      ensures intent.Some? <==> LiveArea(rootPod.value, area)
      ensures intent.Some? ==>
                CommitsFrom(rootPod.value, area, intent.value.0) && intent.value.1 == value
    {
      IntentsAreLive(rootPod.value, area);
      if area !in textInputIntents {
        return None;
      }
      return Some((textInputIntents[area], value));
    }

    method SetRenderContext(context: Context)
      modifies `context
      ensures this.context == context
    {
      this.context := context;
    }

    // ------------------------------------------------------------------ building

    method FreshId() returns (id: WidgetId)
      modifies `nextId
      ensures id == old(nextId) && nextId == old(nextId) + 1
    {
      id := nextId;
      nextId := nextId + 1;
    }

    method BuildComponent(c: Component, depth: nat) returns (w: Widget)
      requires WellFormed(c)
      modifies `pods, `childKeys, `textInputIntents, `nextId
      ensures Grown(old(Ix()), old(nextId), Ix(), nextId, All(c))
      ensures forall h | h in pods && h !in old(pods) && pods[h].id == w.id :: h == c.hash
      ensures Shows(w, c, depth, context) && Starts(w, c)
      ensures Indexed(w, c, Ix())
      ensures SameOutside(old(Ix()), Ix(), All(c))
      ensures IdsWithin(w, old(nextId), nextId) && old(nextId) <= nextId
      ensures textInputIntents == old(textInputIntents) + Intents(w)
      decreases c, 3
    {
      var children := BuildColumn(c, depth);
      ghost var x, before, mid := Ix(), nextId, textInputIntents;
      var area := FreshId();
      var id := FreshId();
      w := Widget(id, BuiltBody(c, depth, context), BuiltLocal(c, area), children);
      BuiltLocalStarts(c, area);
      BuiltStarts(w, c);
      if c.kind.TextInput? && !c.disabled {
        textInputIntents := textInputIntents[area := w.body.intent.value];
      }
      pods := pods[c.hash := PodRecord(w.id, c.kind)];
      childKeys := childKeys[c.hash := Keys(c)];
      BuiltIsDone(w, c, depth, context, old(Ix()), x, Ix(), old(nextId), before, nextId, old(textInputIntents), mid);
    }

    /** The column of a component: one widget per rendered child, in order. */
    method BuildColumn(c: Component, depth: nat) returns (children: seq<Widget>)
      requires WellFormed(c)
      modifies `pods, `childKeys, `textInputIntents, `nextId
      ensures Grown(old(Ix()), old(nextId), Ix(), nextId, Below(c.children))
      ensures |children| == |Kids(c)|
      ensures ColumnInv(children, c, depth, context, old(Ix()), Ix(), old(nextId), nextId,
                        old(textInputIntents), textInputIntents)
      decreases c, 2
    {
      children := [];
      var kids := Kids(c);
      assert textInputIntents + IntentsOf([]) == textInputIntents;
      while |children| < |kids|
        invariant |children| <= |kids|
        invariant Grown(old(Ix()), old(nextId), Ix(), nextId, Below(c.children))
        invariant ColumnInv(children, c, depth, context, old(Ix()), Ix(), old(nextId), nextId,
                            old(textInputIntents), textInputIntents)
        decreases |kids| - |children|
      {
        ghost var x, next, mid := Ix(), nextId, textInputIntents;
        var kid := kids[|children|];
        KidIsBelow(c, |children|);
        var w := BuildKid(c, kid, KidDepth(c, KeyOf(kid), depth));
        GrownTrans(old(Ix()), old(nextId), x, next, Ix(), nextId, Below(c.children), KidHashes(kid), Below(c.children));
        ColumnStep(children, w, c, depth, context, old(Ix()), x, Ix(), old(nextId), next, nextId,
                   old(textInputIntents), mid, textInputIntents);
        children := children + [w];
      }
    }

    method BuildKid(parent: Component, kid: Kid, depth: nat) returns (w: Widget)
      requires kid.ChildKid? ==> WellFormed(kid.component)
      requires kid in Kids(parent)
      modifies `pods, `childKeys, `textInputIntents, `nextId
      ensures Grown(old(Ix()), old(nextId), Ix(), nextId, KidHashes(kid))
      ensures BuiltKid(w, parent, kid, depth, context, old(Ix()), Ix(), old(nextId), nextId,
                       old(textInputIntents), textInputIntents)
      decreases (if kid.ChildKid? then kid.component else parent), (if kid.ChildKid? then 4 else 0)
    {
      match kid {
        case ChildKid(component) =>
          w := BuildComponent(component, depth);
        case TitleKid =>
          var id := FreshId();
          w := Widget(id, TitleBody(parent, depth, context), NoLocal, []);
        case RowKid(item) =>
          var id := FreshId();
          w := Widget(id, RowFrom(parent, item, depth, context), NoLocal, []);
      }
    }

    /** `build_child`: the child a key stands for, built afresh. */
    method BuildChild(parent: Component, key: ChildKey, depth: nat, ghost position: nat) returns (w: Widget)
      requires WellFormed(parent) && position < |Kids(parent)| && key == KeyOf(Kids(parent)[position])
      modifies `pods, `childKeys, `textInputIntents, `nextId
      ensures Grown(old(Ix()), old(nextId), Ix(), nextId, KidHashes(Kids(parent)[position]))
      ensures BuiltKid(w, parent, Kids(parent)[position], depth, context, old(Ix()), Ix(), old(nextId), nextId,
                       old(textInputIntents), textInputIntents)
    {
      FindsKid(parent, position);
      KidIsBelow(parent, position);
      match key {
        case ComponentKey(hash, _) =>
          var found := FindChild(parent.children, hash);
          w := BuildKid(parent, ChildKid(found.value), depth);
        case TitleKey =>
          w := BuildKid(parent, TitleKid, depth);
        case RowKey(id) =>
          var found := FindItem(parent.items, id);
          w := BuildKid(parent, RowKid(found.value), depth);
      }
    }

    // ---------------------------------------------------------------- reconciling

    // The update of a widget is total: it may meet a widget that never rendered the
    // component, when the reuse test finds a foreign record.  What it then does is
    // only bounded by `Grown`; `ok` is false when the toolkit panics on a child index.
    // When `good`, the widget renders `o` of the same id and kind, and the update
    // reconciles it.

    /** Updates the widget of a component in place.  When `good` it renders `o`, under
        `before`; `base` are the indexes as the last reconcile left them. */
    method ReconcileComponent(w: Widget, c: Component, depth: nat, ghost good: bool,
        ghost o: Component, ghost before: Context, ghost base: Index, ghost bound: nat) returns (w': Widget, ok: bool)
      requires WellFormed(c)
      requires good ==> EnvOk(Env(w, o, c, depth, before, context, base, Ix(), bound, textInputIntents))
      requires good ==> IdsWithin(w, 0, nextId) && bound <= nextId
      modifies `pods, `childKeys, `textInputIntents, `nextId
      ensures Grown(old(Ix()), old(nextId), Ix(), nextId, Below(c.children))
      ensures w'.id == w.id
      ensures ok ==> UpdatedInPlace(w, c, depth, context, w')
      ensures Emptied(w, c, old(childKeys), w'.children, ok)
      ensures good ==> ok && Reconciled(w, o, w', c, depth, context, old(Ix()), Ix(), nextId, bound,
                                        old(textInputIntents), textInputIntents)
      decreases c, 5
    {
      ghost var e := Env(w, o, c, depth, before, context, base, Ix(), bound, textInputIntents);
      var children;
      children, ok := ReconcileColumn(w, c, depth, good, e);
      if !ok {
        return w.(children := children), false;
      }
      var body := UpdatedBody(w.body, c, depth, context);
      var local := KeptLocal(w.body, w.local, c);
      KeptLocalKeeps(w.body, w.local, c, local);
      w', ok := Widget(w.id, body, local, children), true;
      ghost var now := textInputIntents;
      if c.kind.TextInput? && body.InputBody? && local.InputState? && body.intent.Some? {
        textInputIntents := textInputIntents[local.area := body.intent.value];
      }
      if good {
        IdsWiden(w, 0, old(nextId), 0, nextId);
        ReadyIsReconciled(e, w', Ix(), nextId, now, textInputIntents);
      }
    }

    /** The children of a widget that has a column for the component; others keep theirs. */
    method ReconcileColumn(w: Widget, c: Component, depth: nat, ghost good: bool, ghost e: Env)
      returns (children: seq<Widget>, ok: bool)
      requires WellFormed(c) && e.w == w && e.c == c && e.depth == depth && e.context == context
      requires e.start == Ix() && e.had == textInputIntents
      requires good ==> EnvOk(e) && IdsWithin(w, 0, nextId) && e.bound <= nextId
      modifies `pods, `childKeys, `textInputIntents, `nextId
      ensures Grown(old(Ix()), old(nextId), Ix(), nextId, Below(c.children))
      ensures Emptied(w, c, old(childKeys), children, ok)
      ensures good ==> ok && ColumnReady(e, children, Ix(), nextId, textInputIntents)
      decreases c, 4
    {
      children, ok := w.children, true;
      if HasColumn(c.kind) && HoldsColumn(w.body, c.kind) {
        ContainerKeysAreKeys(c);
        children, ok := ReconcileFlexChildren(w.children, c, ContainerKeys(c), ColumnDepth(c.kind, depth), good, e);
      } else if good {
        NoColumn(e, nextId);
      }
    }

    /** Reconciles the column of a container against its new keys. */
    method ReconcileFlexChildren(children: seq<Widget>, parent: Component, newKeys: seq<ChildKey>, depth: nat,
        ghost good: bool, ghost e: Env) returns (flex: seq<Widget>, ok: bool)
      requires WellFormed(parent) && newKeys == Keys(parent)
      requires e.c == parent && children == e.w.children && e.context == context && depth == ColumnDepth(parent.kind, e.depth)
      requires e.start == Ix() && e.had == textInputIntents
      requires good ==> EnvOk(e) && AllWithin(children, nextId) && e.bound <= nextId
      modifies `pods, `childKeys, `textInputIntents, `nextId
      ensures Grown(old(Ix()), old(nextId), Ix(), nextId, Below(parent.children))
      ensures newKeys == [] ==> (ok <==> |Recorded(old(childKeys), parent)| <= |children|)
      ensures newKeys == [] && ok ==> flex == children[|Recorded(old(childKeys), parent)|..]
      ensures good ==> ok && ColumnReady(e, flex, Ix(), nextId, textInputIntents)
      decreases parent, 3
    {
      if good {
        OldKeys(e);
      }
      var oldKeys := Recorded(childKeys, parent);
      ghost var placed;
      if oldKeys == newKeys {
        flex, ok := UpdateAll(children, parent, newKeys, depth, good, e);
        placed := Ix();
      } else {
        flex, ok := PlaceAll(children, oldKeys, parent, newKeys, depth, good, e);
        placed := Ix();
        if ok {
          childKeys := childKeys[parent.hash := newKeys];
        }
      }
      if good {
        FinishedIsReady(e, flex, placed, Ix(), nextId, textInputIntents);
      }
    }

    /** The list is unchanged: every child is updated where it is. */
    method UpdateAll(children: seq<Widget>, parent: Component, newKeys: seq<ChildKey>, depth: nat,
        ghost good: bool, ghost e: Env) returns (flex: seq<Widget>, ok: bool)
      requires WellFormed(parent) && newKeys == Keys(parent)
      requires e.c == parent && children == e.w.children && e.context == context && depth == ColumnDepth(parent.kind, e.depth)
      requires e.start == Ix() && e.had == textInputIntents
      requires good ==> EnvOk(e) && AllWithin(children, nextId) && e.bound <= nextId && Keys(e.o) == newKeys
      modifies `pods, `childKeys, `textInputIntents, `nextId
      ensures Grown(old(Ix()), old(nextId), Ix(), nextId, Below(parent.children))
      ensures |newKeys| == 0 ==> ok && flex == children
      ensures good ==> ok && Finished(e, flex, Ix(), nextId) && textInputIntents == e.had + IntentsOf(flex)
      decreases parent, 2
    {
      flex := children;
      ghost var left: seq<nat> := [];
      if good {
        left := KeepAllStart(e, newKeys, nextId);
      }
      for i := 0 to |newKeys|
        invariant Grown(old(Ix()), old(nextId), Ix(), nextId, Below(parent.children))
        invariant good ==> PlaceInv(e, i, flex, newKeys, left, Ix(), nextId, textInputIntents)
        invariant i > 0 || flex == children
      {
        flex, ok, left := KeepTarget(flex, newKeys, parent, newKeys, i, depth, good, e, left, old(Ix()), old(nextId));
        if !ok {
          return flex, false;
        }
      }
      if good {
        PlaceEnd(e, flex, newKeys, left, Ix(), nextId, textInputIntents);
      }
      ok := true;
    }

    /** The keyed diff: prune what is gone, then place the new keys one by one. */
    method PlaceAll(children: seq<Widget>, oldKeys: seq<ChildKey>, parent: Component, newKeys: seq<ChildKey>, depth: nat,
        ghost good: bool, ghost e: Env) returns (flex: seq<Widget>, ok: bool)
      requires WellFormed(parent) && newKeys == Keys(parent)
      requires e.c == parent && children == e.w.children && e.context == context && depth == ColumnDepth(parent.kind, e.depth)
      requires e.start == Ix() && e.had == textInputIntents
      requires good ==> EnvOk(e) && AllWithin(children, nextId) && e.bound <= nextId && Keys(e.o) == oldKeys
      modifies `pods, `childKeys, `textInputIntents, `nextId
      ensures Grown(old(Ix()), old(nextId), Ix(), nextId, Below(parent.children))
      ensures newKeys == [] ==> (ok <==> |oldKeys| <= |children|)
      ensures newKeys == [] && ok ==> flex == children[|oldKeys|..]
      ensures good ==> ok && Finished(e, flex, Ix(), nextId) && textInputIntents == e.had + IntentsOf(flex)
      decreases parent, 2
    {
      if good {
        OldKeys(e);
      }
      var current;
      current, flex, ok := Prune(oldKeys, children, newKeys);
      if !ok {
        return;
      }
      ghost var left := Surviving(oldKeys, newKeys, 0);
      if good {
        PlaceStart(e, flex, current, left, nextId);
      }
      for target := 0 to |newKeys|
        invariant Grown(old(Ix()), old(nextId), Ix(), nextId, Below(parent.children))
        invariant good ==> PlaceInv(e, target, flex, current, left, Ix(), nextId, textInputIntents)
        invariant newKeys == [] ==> flex == children[|oldKeys|..]
      {
        if target < |current| && current[target] == newKeys[target] {
          flex, ok, left := KeepTarget(flex, current, parent, newKeys, target, depth, good, e, left, old(Ix()), old(nextId));
        } else {
          flex, current, ok, left :=
            BuildTarget(flex, current, parent, newKeys, target, depth, good, e, left, old(Ix()), old(nextId));
        }
        if !ok {
          return;
        }
      }
      if good {
        PlaceEnd(e, flex, current, left, Ix(), nextId, textInputIntents);
      }
      ok := true;
    }

    /** A child that is already where the new list wants it. */
    method KeepTarget(flex: seq<Widget>, current: seq<ChildKey>, parent: Component, newKeys: seq<ChildKey>, target: nat,
        depth: nat, ghost good: bool, ghost e: Env, ghost left: seq<nat>, ghost origin: Index, ghost first: nat)
      returns (flex': seq<Widget>, ok: bool, ghost left': seq<nat>)
      requires WellFormed(parent) && newKeys == Keys(parent)
      requires e.c == parent && e.context == context && depth == ColumnDepth(parent.kind, e.depth)
      requires target < |newKeys| && target < |current| && current[target] == newKeys[target]
      requires good ==> EnvOk(e) && PlaceInv(e, target, flex, current, left, Ix(), nextId, textInputIntents)
      requires Grown(origin, first, Ix(), nextId, Below(parent.children))
      modifies `pods, `childKeys, `textInputIntents, `nextId
      ensures Grown(origin, first, Ix(), nextId, Below(parent.children))
      ensures good ==> ok && PlaceInv(e, target + 1, flex', current, left', Ix(), nextId, textInputIntents)
      decreases parent, 0
    {
      ghost var p, x, next, had := 0, Ix(), nextId, textInputIntents;
      if good {
        KeptPosition(e, target, flex, current, left, x, nextId, textInputIntents);
        p := left[0];
      }
      flex', ok, left' := flex, true, left;
      if target < |flex| {
        var key := newKeys[target];
        KidIsBelow(parent, target);
        var w;
        w, ok := ReconcileChildInPlace(flex[target], parent, key, ChildDepth(key, depth, parent.kind.Panel?), target, good, e, p);
        GrownTrans(origin, first, x, next, Ix(), nextId, Below(parent.children), KidHashes(Kids(parent)[target]),
                   Below(parent.children));
        flex' := flex[target := w];
        if good {
          KeptIsPlaced(e, target, flex, current, left, x, next, had, w, Ix(), nextId, textInputIntents);
          left' := left[1..];
        }
      }
    }

    /** A child that is new, or survives further on: it is built afresh. */
    method BuildTarget(flex: seq<Widget>, current: seq<ChildKey>, parent: Component, newKeys: seq<ChildKey>, target: nat,
        depth: nat, ghost good: bool, ghost e: Env, ghost left: seq<nat>, ghost origin: Index, ghost first: nat)
      returns (flex': seq<Widget>, current': seq<ChildKey>, ok: bool, ghost left': seq<nat>)
      requires WellFormed(parent) && newKeys == Keys(parent)
      requires e.c == parent && e.context == context && depth == ColumnDepth(parent.kind, e.depth)
      requires target < |newKeys| && !(target < |current| && current[target] == newKeys[target])
      requires good ==> EnvOk(e) && PlaceInv(e, target, flex, current, left, Ix(), nextId, textInputIntents)
      requires Grown(origin, first, Ix(), nextId, Below(parent.children))
      modifies `pods, `childKeys, `textInputIntents, `nextId
      ensures Grown(origin, first, Ix(), nextId, Below(parent.children))
      ensures good ==> ok && PlaceInv(e, target + 1, flex', current', left', Ix(), nextId, textInputIntents)
      decreases parent, 0
    {
      ghost var x, next, had := Ix(), nextId, textInputIntents;
      flex', current', ok, left' := flex, current, false, left;
      var key := newKeys[target];
      KidIsBelow(parent, target);
      var from := Position(current, key);
      if good {
        SameLength(e, target, flex, current, left, x, next, had);
      }
      if from.Some? && from.value >= |flex| {
        return;
      }
      var w := BuildChild(parent, key, ChildDepth(key, depth, parent.kind.Panel?), target);
      GrownTrans(origin, first, x, next, Ix(), nextId, Below(parent.children), KidHashes(Kids(parent)[target]),
                 Below(parent.children));
      if good {
        flex', current', left' := BuiltIsPut(e, target, flex, current, left, x, next, had, w, Ix(), nextId, textInputIntents);
      }
      var placed, keyed := PutFound(flex, target, from, w), PutFound(current, target, from, key);
      if placed.Some? && keyed.Some? {
        flex', current', ok := placed.value, keyed.value, true;
      }
    }

    /** `reconcile_child_in_place`: updates a child from its parent's data. */
    method ReconcileChildInPlace(child: Widget, parent: Component, key: ChildKey, depth: nat, ghost target: nat,
        ghost good: bool, ghost e: Env, ghost p: nat) returns (child': Widget, ok: bool)
      requires WellFormed(parent) && target < |Keys(parent)| && Keys(parent)[target] == key
      requires e.c == parent && e.context == context
      requires good ==> KidBefore(e, p, target, child, depth, Ix(), nextId)
      modifies `pods, `childKeys, `textInputIntents, `nextId
      ensures Grown(old(Ix()), old(nextId), Ix(), nextId, KidHashes(Kids(parent)[target]))
      ensures good ==> ok && KidReconciled(e, p, target, child', old(Ix()), Ix(), nextId, old(textInputIntents), textInputIntents)
      decreases (if Kids(parent)[target].ChildKid? then Kids(parent)[target].component else parent),
                (if Kids(parent)[target].ChildKid? then 6 else -1)
    {
      ghost var x, next, had := Ix(), nextId, textInputIntents;
      if good {
        OldKid(e, p, target);
      }
      FindsKid(parent, target);
      KidIsBelow(parent, target);
      child', ok := child, true;
      match key {
        case ComponentKey(hash, _) =>
          var found := FindChild(parent.children, hash);
          ghost var o := if good then Kids(e.o)[p].component else parent;
          child', ok := ReconcileComponent(child, found.value, depth, good, o, e.before, e.base, e.bound);
          if good {
            ComponentReconciled(e, p, target, child, depth, child', x, Ix(), next, nextId, had, textInputIntents);
          }
          return;
        case TitleKey =>
          if child.body.LeafBody? {
            child' := child.(body := TitleBody(parent, depth, context));
          }
        case RowKey(id) =>
          var found := FindItem(parent.items, id);
          if child.body.RowBody? && found.Some? {
            child' := child.(body := RowFrom(parent, found.value, depth, context));
          }
      }
      if good {
        LeafReconciled(e, p, target, child, depth, child'.body, x, next, had);
      }
    }

    // ------------------------------------------------------------------ whole trees

    /** The wholesale rebuild. */
    method ReconcileTree(tree: Component)
      requires WellFormed(tree)
      modifies this
      ensures Valid(tree, context) && context == old(context)
      ensures Starts(rootPod.value, tree)
    {
      rootHash := Some(tree.hash);
      var root := RebuildRoot(tree);
      InstallRoot(tree, root);
    }

    predicate FindsForeignRecord(tree: Component)
      reads this
    {
      State().FindsForeignRecord(tree)
    }

    /** The live update, from any state. */
    method ReconcileTreeLive(tree: Component) returns (ok: bool)
      requires WellFormed(tree)
      modifies this
      ensures LiveStep(old(State()), tree, State(), ok)
    {
      ghost var v := State();
      ghost var valid := exists previous, shown :: v.Valid(previous, shown);
      ghost var previous, shown := tree, context;
      if valid {
        previous, shown :| v.Valid(previous, shown);
      }
      ok := Update(tree, valid, previous, shown);
      forall before, earlier | v.Valid(before, earlier)
        ensures LiveOutcome(v, before, tree, State(), ok)
      {
        OutcomeAgrees(v, previous, shown, before, earlier, tree, State(), ok);
      }
    }

    /** The live update when what it starts from is known. */
    method Update(tree: Component, ghost valid: bool, ghost previous: Component, ghost shown: Context) returns (ok: bool)
      requires WellFormed(tree)
      requires valid ==> State().RootShows(previous, shown)
      modifies this
      ensures context == old(context)
      ensures AnyStep(old(State()), tree, State(), ok)
      ensures valid ==> LiveOutcome(old(State()), previous, tree, State(), ok)
    {
      ghost var v := State();
      rootHash := Some(tree.hash);
      textInputIntents := map[];
      var root;
      root, ok := UpdateRoot(tree, valid, previous, shown);
      if ok {
        InstallRoot(tree, root);
      }
    }

    /** The two branches of the live update. */
    method UpdateRoot(tree: Component, ghost valid: bool, ghost previous: Component, ghost shown: Context)
      returns (root: Widget, ok: bool)
      requires WellFormed(tree) && textInputIntents == map[]
      requires valid ==> State().RootShows(previous, shown)
      modifies `pods, `childKeys, `textInputIntents, `nextId
      ensures old(State().Reusable(tree)) ==>
                && Emptied(rootPod.value, tree, old(childKeys), root.children, ok)
                && (ok ==>
                      && UpdatedInPlace(rootPod.value, tree, 0, context, root)
                      && tree.hash in pods && pods[tree.hash] == old(pods)[tree.hash])
      ensures !old(State().Reusable(tree)) ==>
                ok && Shows(root, tree, 0, context) && RootReady(tree, root) && root.id >= old(nextId) && Starts(root, tree)
      ensures valid && old(FindsForeignRecord(tree)) && ok ==> !Indexed(root, tree, Ix())
      ensures valid && !old(FindsForeignRecord(tree)) ==>
                && ok && rootPod.Some? && (Shows(root, tree, 0, context) <==> UpdateReplays(previous, tree))
                && RootReady(tree, root)
                && if tree.hash == previous.hash && tree.kind == previous.kind then
                     Kept(rootPod.value, previous, root, tree, old(nextId))
                   else root.id >= old(nextId) && Starts(root, tree)
    {
      ghost var good := valid && !FindsForeignRecord(tree);
      if good {
        OwnRecord(tree, previous, shown);
      }
      var reusable := rootPod.Some? && tree.hash in pods && pods[tree.hash].kind == tree.kind;
      if reusable {
        root, ok := ReuseRoot(tree, good, previous, shown);
      } else {
        root := RebuildRoot(tree);
        ok := true;
      }
    }

    /** A record that is not foreign is the root's own. */
    lemma OwnRecord(tree: Component, previous: Component, shown: Context)
      requires State().RootShows(previous, shown) && !FindsForeignRecord(tree)
      ensures tree.hash in pods && pods[tree.hash].kind == tree.kind <==>
              tree.hash == previous.hash && tree.kind == previous.kind
    {
    }

    /** The root to install is recorded, its intents are, and its id is no other's. */
    ghost predicate RootReady(tree: Component, root: Widget)
      reads this
    {
      && Indexed(root, tree, Ix()) && IdsWithin(root, 0, nextId) && textInputIntents == Intents(root)
      && forall h | h in pods && pods[h].id == root.id :: h == tree.hash
    }

    /** The end of a reconcile. */
    method InstallRoot(tree: Component, root: Widget)
      requires WellFormed(tree) && rootHash == Some(tree.hash)
      modifies `rootPod, `pods, `childKeys
      ensures rootPod == Some(root)
      ensures old(RootReady(tree, root)) ==> (Valid(tree, context) <==> Shows(root, tree, 0, context))
      ensures !Indexed(root, tree, old(Ix())) ==> !Valid(tree, context)
      ensures forall h | h in old(pods) && h in All(tree) :: h in pods && pods[h] == old(pods)[h]
    {
      rootPod := Some(root);
      ghost var before := Ix();
      Gc(tree);
      if Indexed(root, tree, before) {
        IndexedFrame(root, tree, before, Ix());
      } else if Indexed(root, tree, Ix()) {
        IndexedFrame(root, tree, Ix(), before);
      }
      assert forall h | h in All(tree) :: SameAt(before, Ix(), h);
    }

    /** The branch of the live update that keeps the root. */
    method ReuseRoot(tree: Component, ghost good: bool, ghost previous: Component, ghost shown: Context)
      returns (root: Widget, ok: bool)
      requires WellFormed(tree) && rootPod.Some?
      requires good ==> textInputIntents == map[]
      requires good ==>
                 State().RootShows(previous, shown) && tree.hash == previous.hash && tree.kind == previous.kind
      modifies `pods, `childKeys, `textInputIntents, `nextId
      ensures root.id == rootPod.value.id
      ensures tree.hash in old(pods) ==> tree.hash in pods && pods[tree.hash] == old(pods)[tree.hash]
      ensures ok ==> UpdatedInPlace(rootPod.value, tree, 0, context, root)
      ensures Emptied(rootPod.value, tree, old(childKeys), root.children, ok)
      ensures good ==> forall h | h in pods && pods[h].id == root.id :: h == tree.hash
      ensures good ==> ok && Reconciled(rootPod.value, previous, root, tree, 0, context, old(Ix()), Ix(), nextId, old(nextId),
                                        map[], textInputIntents)
      ensures good ==> textInputIntents == Intents(root)
    {
      assert AgreeOn(Ix(), Ix(), All(tree));
      root, ok := ReconcileComponent(rootPod.value, tree, 0, good, previous, shown, Ix(), nextId);
      MapNothing(Intents(root));
    }

    /** The branch of the live update that swaps the root. */
    method RebuildRoot(tree: Component) returns (root: Widget)
      requires WellFormed(tree)
      modifies `pods, `childKeys, `textInputIntents, `nextId
      ensures Shows(root, tree, 0, context) && Starts(root, tree) && Indexed(root, tree, Ix())
      ensures IdsWithin(root, 0, nextId) && old(nextId) <= root.id
      ensures textInputIntents == Intents(root)
      ensures forall h | h in pods && pods[h].id == root.id :: h == tree.hash
    {
      pods, childKeys, textInputIntents := map[], map[], map[];
      root := BuildComponent(tree, 0);
      IdsWiden(root, old(nextId), nextId, 0, nextId);
      MapNothing(Intents(root));
    }

    /** Drops the records of components no longer in the tree, and no others. */
    method Gc(tree: Component)
      requires WellFormed(tree)
      modifies `pods, `childKeys
      ensures pods.Keys == old(pods).Keys * All(tree) && childKeys.Keys == old(childKeys).Keys * All(tree)
      ensures AgreeOn(old(Ix()), Ix(), All(tree))
    {
      var reachable := Reachable(tree);
      pods := map h | h in pods && h in reachable :: pods[h];
      childKeys := map h | h in childKeys && h in reachable :: childKeys[h];
    }
  }

  /** The work-list walk of `gc`.  It ends on every tree, with the id hashes of the tree
      when they are distinct, and never with any other. */
  method Reachable(root: Component) returns (reachable: set<Hash>)
    ensures reachable <= All(root)
    ensures WellFormed(root) ==> reachable == All(root)
  {
    reachable := {};
    var stack := [root];
    BelowOne(root);
    while stack != []
      invariant reachable <= All(root) && Below(stack) <= All(root)
      invariant WellFormed(root) ==> Walked(root, stack, reachable)
      decreases |All(root) - reachable|, |stack|
    {
      var component := stack[|stack| - 1];
      StackTop(stack);
      if WellFormed(root) {
        WalkStep(root, stack, reachable);
      }
      stack := stack[..|stack| - 1];
      if component.hash !in reachable {
        ShrinksBy(All(root), reachable, component.hash);
        BelowConcat(stack, component.children);
        reachable := reachable + {component.hash};
        stack := stack + component.children;
      }
    }
  }

  lemma StackTop(stack: seq<Component>)
    requires stack != []
    ensures var rest, last := stack[..|stack| - 1], stack[|stack| - 1];
            Below(stack) == Below(rest) + All(last) && last.hash in All(last) && Below(last.children) <= All(last)
  {
    var rest, last := stack[..|stack| - 1], stack[|stack| - 1];
    assert stack == rest + [last];
    BelowConcat(rest, [last]);
    BelowOne(last);
  }

  /** The work list and the hashes seen so far partition the tree. */
  ghost predicate Walked(root: Component, stack: seq<Component>, reachable: set<Hash>) {
    WellFormedAll(stack) && Below(stack) !! reachable && All(root) == Below(stack) + reachable
  }

  lemma WalkStep(root: Component, stack: seq<Component>, reachable: set<Hash>)
    requires stack != [] && Walked(root, stack, reachable)
    ensures var component := stack[|stack| - 1];
            && component.hash !in reachable
            && Walked(root, stack[..|stack| - 1] + component.children, reachable + {component.hash})
  {
    var rest, component := stack[..|stack| - 1], stack[|stack| - 1];
    SplitLast(stack);
    BelowConcat(rest, component.children);
    MoveHash(Below(rest), Below(component.children), component.hash, reachable);
  }

  lemma MoveHash(rest: set<Hash>, below: set<Hash>, hash: Hash, reachable: set<Hash>)
    requires rest + ({hash} + below) !! reachable && rest !! {hash} + below && hash !in below
    ensures hash !in reachable && rest !! below
    ensures rest + below !! reachable + {hash}
    ensures rest + ({hash} + below) + reachable == rest + below + (reachable + {hash})
  {
    assert hash in rest + ({hash} + below);
  }

  lemma MapNothing(m: map<WidgetId, Intent>)
    ensures map[] + m == m
  {
  }

  lemma ShrinksBy(all: set<Hash>, before: set<Hash>, hash: Hash)
    requires hash in all && hash !in before
    ensures |all - (before + {hash})| < |all - before|
  {
    assert all - before == (all - (before + {hash})) + {hash};
  }

  lemma BelowOne(c: Component)
    ensures Below([c]) == All(c)
    ensures WellFormed(c) ==> WellFormedAll([c])
  {
    assert [c][1..] == [];
  }

  lemma {:induction false} BelowConcat(a: seq<Component>, b: seq<Component>)
    ensures Below(a + b) == Below(a) + Below(b)
    ensures WellFormedAll(a + b) <==> WellFormedAll(a) && WellFormedAll(b) && Below(a) !! Below(b)
  {
    if a == [] {
      assert a + b == b;
    } else {
      assert (a + b)[1..] == a[1..] + b;
      BelowConcat(a[1..], b);
    }
  }

  /** The last component of a work list, with its children still to come. */
  lemma SplitLast(stack: seq<Component>)
    requires stack != [] && WellFormedAll(stack)
    ensures var rest, last := stack[..|stack| - 1], stack[|stack| - 1];
            && Below(stack) == Below(rest) + All(last)
            && WellFormedAll(rest) && WellFormed(last) && Below(rest) !! All(last)
  {
    var rest, last := stack[..|stack| - 1], stack[|stack| - 1];
    assert stack == rest + [last];
    BelowConcat(rest, [last]);
    BelowOne(last);
    assert [last][0] == last;
  }
}
