/** The life of a hosted region (src/masonry_package_region.rs): `sync_panels` and
    `sync_overlays` build a region once and reconcile it in place from then on. */
module PackageHosting {
  import opened Wrappers
  import opened PackageUi
  import opened Rendering
  import opened RegionViews
  import opened RetainedState
  import opened PackageRegion

  /** The render context and the component tree of one synchronization. */
  datatype Sync = Sync(context: Context, tree: Component)

  /** The state a synchronization leaves; `ok` is false when the toolkit panicked. */
  datatype Outcome = Outcome(view: View, ok: bool)

  // --------------------------------------------------------------- the reuse test

  /** When only containers have children, the reuse test finds a foreign record exactly
      when a component below the old root has the new root's id and kind. */
  lemma ForeignExactlyWhenBelow(v: View, before: Component, shown: Context, after: Component)
    requires v.Valid(before, shown) && OnlyContainersHaveChildren(before)
    ensures v.FindsForeignRecord(after) <==> OccursBelow(before, after.hash, after.kind)
  {
    if after.hash in All(before) {
      OccursAsRecorded(v.rootPod.value, before, v.Ix(), after.hash, after.kind);
    }
    if OccursBelow(before, after.hash, after.kind) {
      var i :| 0 <= i < |before.children| && Occurs(before.children[i], after.hash, after.kind);
      OccursInside(before.children[i], after.hash, after.kind);
      ChildIsBelow(before.children, i);
    }
    assert after.hash in v.pods ==> after.hash in All(before);
  }

  /** What a live update needs: the new root is not a component below the old one, and
      what survives in place replays. */
  ghost predicate Follows(before: Component, after: Component) {
    !OccursBelow(before, after.hash, after.kind) && UpdateReplays(before, after)
  }

  // ------------------------------------------------------------------ hosting runs

  /** One synchronization of one panel: a rebuild when it is new, a live update under
      the new context when it is hosted. */
  ghost predicate SyncStep(hosted: Option<View>, sync: Sync, outcome: Outcome) {
    match hosted
    case None =>
      && outcome.ok && outcome.view.Valid(sync.tree, sync.context) && outcome.view.context == sync.context
      && Starts(outcome.view.rootPod.value, sync.tree)
    case Some(v) => LiveStep(v.(context := sync.context), sync.tree, outcome.view, outcome.ok)
  }

  /** What a history of synchronizations leaves, one after the other, up to a panic; in
      between the user does anything. */
  ghost predicate IsHosting(history: seq<Sync>, run: seq<Outcome>) {
    && 0 < |run| <= |history|
    && (forall i | 0 <= i < |run| :: HostingStep(history, run, i))
    && (|run| < |history| ==> !run[|run| - 1].ok)
  }

  ghost predicate HostingStep(history: seq<Sync>, run: seq<Outcome>, i: nat)
    requires i < |run| <= |history|
  {
    if i == 0 then SyncStep(None, history[0], run[0])
    else run[i - 1].ok && exists u :: UserStep(run[i - 1].view, u) && SyncStep(Some(u), history[i], run[i])
  }

  ghost predicate ShowsAt(history: seq<Sync>, run: seq<Outcome>, i: nat)
    requires i < |run| <= |history|
  {
    run[i].ok && run[i].view.Valid(history[i].tree, history[i].context)
  }

  /** The region shows every tree, under its context, right after it was synchronized. */
  ghost predicate ShowsEach(history: seq<Sync>, run: seq<Outcome>) {
    |run| == |history| && forall i | 0 <= i < |run| :: ShowsAt(history, run, i)
  }

  ghost predicate Admissible(history: seq<Sync>) {
    forall i | 0 < i < |history| :: Follows(history[i - 1].tree, history[i].tree)
  }

  ghost predicate Trees(history: seq<Sync>) {
    forall i | 0 <= i < |history| :: WellFormed(history[i].tree) && OnlyContainersHaveChildren(history[i].tree)
  }

  lemma ShownExactlyWhenItFollows(v: View, last: Sync, sync: Sync, outcome: Outcome)
    requires v.Valid(last.tree, last.context) && OnlyContainersHaveChildren(last.tree)
    requires exists u :: UserStep(v, u) && SyncStep(Some(u), sync, outcome)
    ensures outcome.ok && outcome.view.Valid(sync.tree, sync.context) <==> Follows(last.tree, sync.tree)
  {
    var u :| UserStep(v, u) && SyncStep(Some(u), sync, outcome);
    UserStepIsValid(v, u, last.tree, last.context);
    var start := u.(context := sync.context);
    assert start.Valid(last.tree, last.context) by {
      assert start.Ix() == u.Ix();
    }
    ForeignExactlyWhenBelow(start, last.tree, last.context, sync.tree);
  }

  /** In every hosting run the region shows each tree right after it was synchronized if
      and only if every tree follows from the one before it. */
  lemma {:induction false} ShownExactlyWhenAdmissible(history: seq<Sync>, run: seq<Outcome>)
    requires Trees(history) && IsHosting(history, run)
    ensures ShowsEach(history, run) <==> Admissible(history)
  {
    if ShowsEach(history, run) {
      forall i | 0 < i < |history|
        ensures Follows(history[i - 1].tree, history[i].tree)
      {
        assert ShowsAt(history, run, i - 1) && ShowsAt(history, run, i) && HostingStep(history, run, i);
        ShownExactlyWhenItFollows(run[i - 1].view, history[i - 1], history[i], run[i]);
      }
    }
    if Admissible(history) {
      forall i | 0 <= i < |run|
        ensures ShowsAt(history, run, i)
      {
        AdmissibleShows(history, run, i);
      }
      assert ShowsAt(history, run, |run| - 1);
    }
  }

  lemma {:induction false} AdmissibleShows(history: seq<Sync>, run: seq<Outcome>, i: nat)
    requires Trees(history) && IsHosting(history, run) && Admissible(history) && i < |run|
    ensures ShowsAt(history, run, i)
    decreases i
  {
    assert HostingStep(history, run, i);
    if i > 0 {
      AdmissibleShows(history, run, i - 1);
      ShownExactlyWhenItFollows(run[i - 1].view, history[i - 1], history[i], run[i]);
    }
  }

  /** One synchronization of one panel, hosted already or not. */
  method SyncPanel(hosted: Option<PackageRegionWidget>, sync: Sync) returns (region: PackageRegionWidget, ok: bool)
    requires WellFormed(sync.tree)
    modifies if hosted.Some? then {hosted.value} else {}
    ensures if hosted.Some? then region == hosted.value else fresh(region)
    ensures SyncStep(old(if hosted.Some? then Some(hosted.value.State()) else None), sync, Outcome(region.State(), ok))
  {
    if hosted.Some? {
      region := hosted.value;
      region.SetRenderContext(sync.context);
      ok := region.ReconcileTreeLive(sync.tree);
    } else {
      region := new PackageRegionWidget(sync.context);
      region.ReconcileTree(sync.tree);
      ok := true;
    }
  }

  /** Every history of synchronizations is a hosting run of the region. */
  method SyncHistory(history: seq<Sync>) returns (region: PackageRegionWidget, ghost run: seq<Outcome>)
    requires history != [] && forall i | 0 <= i < |history| :: WellFormed(history[i].tree)
    ensures fresh(region)
    ensures IsHosting(history, run) && region.State() == run[|run| - 1].view
  {
    var ok;
    region, ok := SyncPanel(None, history[0]);
    run := [Outcome(region.State(), ok)];
    var i := 1;
    while ok && i < |history|
      invariant fresh(region)
      invariant 1 <= i == |run| <= |history|
      invariant forall k | 0 <= k < |run| :: HostingStep(history, run, k)
      invariant run[|run| - 1] == Outcome(region.State(), ok)
    {
      region, ok := SyncPanel(Some(region), history[i]);
      HostingGrows(history, run, Outcome(region.State(), ok));
      run := run + [Outcome(region.State(), ok)];
      i := i + 1;
    }
  }

  lemma HostingGrows(history: seq<Sync>, run: seq<Outcome>, next: Outcome)
    requires 0 < |run| < |history| && forall k | 0 <= k < |run| :: HostingStep(history, run, k)
    requires run[|run| - 1].ok && SyncStep(Some(run[|run| - 1].view), history[|run|], next)
    ensures forall k | 0 <= k < |run| + 1 :: HostingStep(history, run + [next], k)
  {
    var last := run[|run| - 1].view;
    assert UserStep(last, last) by {
      if last.rootPod.Some? {
        TouchedReflexive(last.rootPod.value);
      }
    }
    forall k | 0 <= k < |run| + 1
      ensures HostingStep(history, run + [next], k)
    {
      assert k < |run| ==> HostingStep(history, run, k);
    }
  }

  // --------------------------------------------------------------- the losing input

  lemma PromotedChildIsForeign(v: View, before: Component, shown: Context, i: nat, after: Component)
    requires v.Valid(before, shown) && OnlyContainersHaveChildren(before)
    requires i < |before.children| && after.hash == before.children[i].hash && after.kind == before.children[i].kind
    ensures v.FindsForeignRecord(after)
    ensures Recorded(v.childKeys, after) == Keys(before.children[i])
    ensures |v.rootPod.value.children| == |Kids(before)| > 0
  {
    assert Occurs(before.children[i], after.hash, after.kind);
    ForeignExactlyWhenBelow(v, before, shown, after);
    var k := if before.kind.Panel? && before.title.Some? then i + 1 else i;
    assert Kids(before)[k] == ChildKid(before.children[i]);
    assert Indexed(v.rootPod.value.children[k], before.children[i], v.Ix());
  }

  /** Making a child of the old root the new root loses the indexes: the region does not
      show the new tree with them. */
  lemma PromotedChildIsLost(v: View, before: Component, shown: Context, i: nat, after: Component, v': View, ok: bool)
    requires v.Valid(before, shown) && OnlyContainersHaveChildren(before) && LiveStep(v, after, v', ok)
    requires i < |before.children| && after.hash == before.children[i].hash && after.kind == before.children[i].kind
    ensures !(ok && v'.Valid(after, v.context))
  {
    PromotedChildIsForeign(v, before, shown, i, after);
    assert LiveOutcome(v, before, after, v', ok);
  }

  /** The old root's widget has a column that the new root's kind is reconciled in. */
  predicate TakesOver(w: Widget, after: Component) {
    HasColumn(after.kind) && HoldsColumn(w.body, after.kind)
  }

  /** When the promoted child becomes a root without children, what is on screen is known:
      the old root's widget, updated as far as its type allows, without as many of its
      first children as the promoted child had.  The toolkit panics if there are not so
      many; the rendering alone is right if and only if there are no more and the widget is
      of the right type. */
  lemma PromotedChildOnScreen(v: View, before: Component, shown: Context, i: nat, after: Component, v': View, ok: bool)
    requires v.Valid(before, shown) && OnlyContainersHaveChildren(before) && LiveStep(v, after, v', ok)
    requires i < |before.children| && after.hash == before.children[i].hash && after.kind == before.children[i].kind
    requires Keys(after) == []
    ensures var w := v.rootPod.value;
            var n := if TakesOver(w, after) then |Kids(before.children[i])| else 0;
            && (ok <==> n <= |Kids(before)|)
            && (ok ==> v'.rootPod.value.id == w.id && v'.rootPod.value.children == w.children[n..])
            && (ok ==>
                  (Shows(v'.rootPod.value, after, 0, v.context) <==>
                   && n == |Kids(before)| && UpdatedBody(w.body, after, 0, v.context) == BuiltBody(after, 0, v.context)
                   && LocalFits(w.local, after.kind)))
  {
    PromotedChildIsForeign(v, before, shown, i, after);
    var w := v.rootPod.value;
    var n := if TakesOver(w, after) then |Kids(before.children[i])| else 0;
    assert n == Dropped(w, after, v.childKeys);
    EmptiedMeans(w, after, v.childKeys, if ok then v'.rootPod.value.children else [], ok);
    if ok {
      ChildlessShows(v'.rootPod.value, after, v.context);
    }
  }

  lemma EmptiedMeans(w: Widget, c: Component, keys: map<Hash, seq<ChildKey>>, children: seq<Widget>, ok: bool)
    requires Emptied(w, c, keys, children, ok) && Keys(c) == []
    ensures ok <==> Dropped(w, c, keys) <= |w.children|
    ensures ok ==> children == w.children[Dropped(w, c, keys)..]
  {
  }

  lemma ChildlessShows(w: Widget, c: Component, context: Context)
    requires Keys(c) == []
    ensures Shows(w, c, 0, context) <==>
              w.children == [] && w.body == BuiltBody(c, 0, context) && LocalFits(w.local, c.kind)
  {
  }

  /** A promoted empty row: the region goes on showing the old root's children. */
  method PromoteChild(region: PackageRegionWidget, before: Component, shown: Context, i: nat, after: Component)
    returns (ok: bool)
    requires region.Valid(before, shown) && OnlyContainersHaveChildren(before) && WellFormed(after)
    requires i < |before.children| && before.children[i].kind.Flex? && before.children[i].children == []
    requires after.kind.Flex? && after.children == [] && after.hash == before.children[i].hash
    modifies region
    ensures ok && region.rootPod.Some?
    ensures region.rootPod.value.children == old(region.rootPod).value.children != []
    ensures !Shows(region.rootPod.value, after, 0, region.context)
  {
    ghost var v := region.State();
    ok := region.ReconcileTreeLive(after);
    PromotedChildOnScreen(v, before, shown, i, after, region.State(), ok);
  }

  /** Live reconciliation refines the rebuild: a region that reached a tree by any
      history and one rebuilt from that tree have the same rendering and, where only
      containers have children, the same indexes, up to widget ids. */
  lemma LiveAgreesWithRebuild(live: View, rebuilt: View, tree: Component, context: Context)
    requires live.Valid(tree, context) && rebuilt.Valid(tree, context)
    ensures SameRendering(live.rootPod.value, rebuilt.rootPod.value)
    ensures OnlyContainersHaveChildren(tree) ==>
              && live.childKeys == rebuilt.childKeys
              && live.pods.Keys == rebuilt.pods.Keys
              && forall h | h in live.pods :: live.pods[h].kind == rebuilt.pods[h].kind
  {
    RenderingIsUnique(live.rootPod.value, rebuilt.rootPod.value, tree, 0, context);
    if OnlyContainersHaveChildren(tree) {
      IndexesAreExact(live, tree, context);
      IndexesAreExact(rebuilt, tree, context);
      IndexIsDetermined(live.rootPod.value, rebuilt.rootPod.value, tree, live.Ix(), rebuilt.Ix());
      assert forall h | h in All(tree) :: SameEntry(live.Ix(), rebuilt.Ix(), h);
    }
  }
}
