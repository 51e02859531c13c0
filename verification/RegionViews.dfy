/** The state of a package region as a value, what it means that a region shows a
    tree, and what one reconcile does to it (src/masonry_package_region.rs). */
module RegionViews {
  import opened Wrappers
  import opened PackageUi
  import opened KeyedDiff
  import opened Rendering

  datatype View = View(
    rootHash: Option<Hash>,
    rootPod: Option<Widget>,
    pods: map<Hash, PodRecord>,
    childKeys: map<Hash, seq<ChildKey>>,
    textInputIntents: map<WidgetId, Intent>,
    context: Context,
    nextId: WidgetId
  ) {
    ghost function Ix(): Index {
      Index(pods, childKeys)
    }

    /** What an update relies on of a region that shows `tree`. */
    ghost predicate RootShows(tree: Component, shown: Context) {
      && WellFormed(tree) && rootPod.Some?
      && Shows(rootPod.value, tree, 0, shown) && Indexed(rootPod.value, tree, Ix())
      && IdsWithin(rootPod.value, 0, nextId)
      && forall h | h in pods && pods[h].id == rootPod.value.id :: h == tree.hash
    }

    /** The region shows `tree` as it was reconciled under `shown`: the rendering,
        both indexes and the commit intents agree. */
    ghost predicate Valid(tree: Component, shown: Context) {
      && rootHash == Some(tree.hash)
      && RootShows(tree, shown)
      && pods.Keys <= All(tree) && childKeys.Keys <= All(tree)
      && textInputIntents == Intents(rootPod.value)
    }

    /** The reuse test: a root, and a record of the new root's id and kind. */
    predicate Reusable(tree: Component) {
      rootPod.Some? && tree.hash in pods && pods[tree.hash].kind == tree.kind
    }

    /** The record that the reuse test finds is another component's. */
    predicate FindsForeignRecord(tree: Component) {
      Reusable(tree) && pods[tree.hash].id != rootPod.value.id
    }
  }

  /** When the root widget is kept, everything that survives in place replays. */
  ghost predicate UpdateReplays(before: Component, after: Component) {
    before.hash == after.hash && before.kind == after.kind ==> Replays(before, after)
  }

  /** The keys recorded for a component. */
  function Recorded(keys: map<Hash, seq<ChildKey>>, c: Component): seq<ChildKey> {
    if c.hash in keys then keys[c.hash] else []
  }

  /** The children that updating a widget to a component without children takes from
      the front of its column: as many as keys are recorded for the component. */
  function Dropped(w: Widget, c: Component, keys: map<Hash, seq<ChildKey>>): nat {
    if HasColumn(c.kind) && HoldsColumn(w.body, c.kind) then |Recorded(keys, c)| else 0
  }

  /** The column of any widget after an update to a component without children, whatever
      the widget rendered before; `ok` is false when the toolkit panics. */
  ghost predicate Emptied(w: Widget, c: Component, keys: map<Hash, seq<ChildKey>>, children: seq<Widget>, ok: bool) {
    Keys(c) == [] ==>
      && (ok <==> Dropped(w, c, keys) <= |w.children|)
      && (ok ==>
            && |children| == |w.children| - Dropped(w, c, keys)
            && forall i | 0 <= i < |children| :: children[i] == w.children[i + Dropped(w, c, keys)])
  }

  /** What else an in-place update does to any widget. */
  ghost predicate UpdatedInPlace(w: Widget, c: Component, depth: nat, context: Context, w': Widget) {
    w'.id == w.id && w'.body == UpdatedBody(w.body, c, depth, context) && IsKept(w.body, w.local, c, w'.local)
  }

  /** The live update from a region that shows `previous`: it shows `tree` if and only
      if the record the reuse test finds is not another component's and everything that
      survives in place replays; without a foreign record, what survives keeps its
      widgets when the root is kept, and the root is new otherwise. */
  ghost predicate LiveOutcome(v: View, previous: Component, tree: Component, v': View, ok: bool)
    requires v.rootPod.Some?
  {
    && (ok && v'.Valid(tree, v.context) <==> !v.FindsForeignRecord(tree) && UpdateReplays(previous, tree))
    && (!v.FindsForeignRecord(tree) ==>
          && ok && v'.rootPod.Some?
          && if tree.hash == previous.hash && tree.kind == previous.kind then
               Kept(v.rootPod.value, previous, v'.rootPod.value, tree, v.nextId)
             else v'.rootPod.value.id >= v.nextId && Starts(v'.rootPod.value, tree))
  }

  /** What one live update does from any state; `ok` is false when the toolkit panics. */
  ghost predicate AnyStep(v: View, tree: Component, v': View, ok: bool) {
    && v'.context == v.context
    && (ok ==> v'.rootHash == Some(tree.hash) && v'.rootPod.Some?)
    && (v.Reusable(tree) && ok ==>
          && UpdatedInPlace(v.rootPod.value, tree, 0, v.context, v'.rootPod.value)
          && tree.hash in v'.pods && v'.pods[tree.hash] == v.pods[tree.hash])
    && (v.Reusable(tree) ==>
          Emptied(v.rootPod.value, tree, v.childKeys, if ok then v'.rootPod.value.children else [], ok))
    && (!v.Reusable(tree) ==>
          ok && v'.Valid(tree, v.context) && v'.rootPod.value.id >= v.nextId && Starts(v'.rootPod.value, tree))
  }

  /** One live update: in addition, its outcome for every tree the region may show. */
  ghost predicate LiveStep(v: View, tree: Component, v': View, ok: bool) {
    && AnyStep(v, tree, v', ok)
    && forall previous, shown | v.Valid(previous, shown) :: LiveOutcome(v, previous, tree, v', ok)
  }

  // ------------------------------------------- the tree that a region shows is known

  /** Components of one id recorded by one widget have the same keys. */
  lemma KeysAgree(w: Widget, a: Component, b: Component, x: Index, i: nat)
    requires Indexed(w, a, x) && Indexed(w, b, x) && a.hash == b.hash
    ensures Keys(a) == Keys(b) && |Kids(a)| == |Kids(b)| == |w.children|
    ensures i < |w.children| ==>
              && (Kids(a)[i].ChildKid? <==> Kids(b)[i].ChildKid?)
              && (Kids(a)[i].ChildKid? ==>
                    && Kids(a)[i].component.hash == Kids(b)[i].component.hash
                    && Indexed(w.children[i], Kids(a)[i].component, x)
                    && Indexed(w.children[i], Kids(b)[i].component, x))
  {
    if i < |w.children| {
      assert Keys(a)[i] == Keys(b)[i];
    }
  }

  /** So it does not matter which of them an update replays. */
  lemma {:induction false} ReplaysAgree(w: Widget, a: Component, b: Component, x: Index, c: Component)
    requires Indexed(w, a, x) && Indexed(w, b, x) && a.hash == b.hash
    ensures Replays(a, c) ==> Replays(b, c)
    decreases c
  {
    if Replays(a, c) {
      forall j | 0 <= j < |Kids(c)|
        ensures KidReplays(b, c, j)
      {
        assert KidReplays(a, c, j);
        forall i | 0 <= i < |Kids(b)| && Keys(b)[i] == Keys(c)[j] && Stays(Keys(b), Keys(c), i, j)
          ensures KidReplaysAt(b, i, c, j)
        {
          KeysAgree(w, a, b, x, i);
          assert KidReplaysAt(a, i, c, j);
          if Kids(b)[i].ChildKid? && Kids(c)[j].ChildKid? {
            ReplaysAgree(w.children[i], Kids(a)[i].component, Kids(b)[i].component, x, Kids(c)[j].component);
          }
        }
      }
    }
  }

  lemma {:induction false} KeptAgree(w: Widget, a: Component, b: Component, x: Index, w': Widget, c: Component, bound: nat)
    requires Indexed(w, a, x) && Indexed(w, b, x) && a.hash == b.hash
    requires Kept(w, a, w', c, bound)
    ensures Kept(w, b, w', c, bound)
    decreases c
  {
    KeysAgree(w, a, b, x, 0);
    forall j | 0 <= j < |w'.children|
      ensures KidKept(w, b, w'.children[j], c, j, bound)
    {
      assert KidKept(w, a, w'.children[j], c, j, bound);
      forall i | 0 <= i < |w.children| && Keys(b)[i] == Keys(c)[j]
        ensures if !Stays(Keys(b), Keys(c), i, j) then IsFresh(w'.children[j], c, j, bound)
                else if Kids(b)[i].ChildKid? && Kids(c)[j].ChildKid? then
                  Kept(w.children[i], Kids(b)[i].component, w'.children[j], Kids(c)[j].component, bound)
                else w'.children[j] == w.children[i].(body := w'.children[j].body)
      {
        KeysAgree(w, a, b, x, i);
        if Stays(Keys(b), Keys(c), i, j) && Kids(b)[i].ChildKid? && Kids(c)[j].ChildKid? {
          KeptAgree(w.children[i], Kids(a)[i].component, Kids(b)[i].component, x, w'.children[j], Kids(c)[j].component,
                    bound);
        }
      }
    }
  }

  /** The outcome of an update does not depend on which tree the region is said to show. */
  lemma OutcomeAgrees(v: View, a: Component, sa: Context, b: Component, sb: Context, tree: Component, v': View, ok: bool)
    requires v.Valid(a, sa) && v.Valid(b, sb) && LiveOutcome(v, a, tree, v', ok)
    ensures LiveOutcome(v, b, tree, v', ok)
  {
    var w := v.rootPod.value;
    ReplaysAgree(w, a, b, v.Ix(), tree);
    ReplaysAgree(w, b, a, v.Ix(), tree);
    if !v.FindsForeignRecord(tree) && tree.hash == a.hash && tree.kind == a.kind {
      KeptAgree(w, a, b, v.Ix(), v'.rootPod.value, tree, v.nextId);
    }
  }

  /** When only containers have children, the indexes are defined on exactly the
      components of the tree. */
  lemma IndexesAreExact(v: View, tree: Component, shown: Context)
    requires v.Valid(tree, shown) && OnlyContainersHaveChildren(tree)
    ensures v.pods.Keys == All(tree) && v.childKeys.Keys == All(tree)
  {
    IndexIsDetermined(v.rootPod.value, v.rootPod.value, tree, v.Ix(), v.Ix());
    assert forall h | h in All(tree) :: SameEntry(v.Ix(), v.Ix(), h);
  }
}
