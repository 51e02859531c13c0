/** The user's state and live updates (src/masonry_package_region.rs): what the user
    does leaves a region as valid as it was, the choices of dropdowns stay within their
    items, an update with the tree that is already shown changes nothing, and when a
    field shows the server's text. */
module RetainedState {
  import opened PackageUi
  import opened KeyedDiff
  import opened Rendering
  import opened RegionViews

  // ---------------------------------------------------------------- what users change

  /** Any change of the user's state; the text area stays the one it is. */
  predicate LocalTouched(before: Local, after: Local) {
    match before
    case NoLocal => after.NoLocal?
    case CollapseState(_) => after.CollapseState?
    case ModalState(_) => after.ModalState?
    case DropdownState(_, _) => after.DropdownState?
    case InputState(area, _, _) => after.InputState? && after.area == area
  }

  ghost predicate Touched(w: Widget, u: Widget) {
    && u.id == w.id && u.body == w.body && LocalTouched(w.local, u.local) && |u.children| == |w.children|
    && forall i | 0 <= i < |w.children| :: Touched(w.children[i], u.children[i])
  }

  /** Anything the user does between two synchronizations. */
  ghost predicate UserStep(v: View, u: View) {
    && u == v.(rootPod := u.rootPod) && (u.rootPod.Some? <==> v.rootPod.Some?)
    && (v.rootPod.Some? ==> Touched(v.rootPod.value, u.rootPod.value))
  }

  lemma {:induction false} TouchedReflexive(w: Widget)
    ensures Touched(w, w)
  {
    forall i | 0 <= i < |w.children|
      ensures Touched(w.children[i], w.children[i])
    {
      TouchedReflexive(w.children[i]);
    }
  }

  lemma {:induction false} TouchedShows(w: Widget, u: Widget, c: Component, depth: nat, context: Context)
    requires Touched(w, u) && Shows(w, c, depth, context)
    ensures Shows(u, c, depth, context)
    decreases c
  {
    forall i | 0 <= i < |w.children|
      ensures ShowsKid(u.children[i], c, Kids(c)[i], KidDepth(c, KeyOf(Kids(c)[i]), depth), context)
    {
      if Kids(c)[i].ChildKid? {
        TouchedShows(w.children[i], u.children[i], Kids(c)[i].component, KidDepth(c, KeyOf(Kids(c)[i]), depth), context);
      }
    }
  }

  lemma {:induction false} TouchedIndexed(w: Widget, u: Widget, c: Component, x: Index)
    requires Touched(w, u) && Indexed(w, c, x)
    ensures Indexed(u, c, x)
    decreases c
  {
    forall i | 0 <= i < |w.children| && Kids(c)[i].ChildKid?
      ensures Indexed(u.children[i], Kids(c)[i].component, x)
    {
      TouchedIndexed(w.children[i], u.children[i], Kids(c)[i].component, x);
    }
  }

  lemma {:induction false} TouchedIds(w: Widget, u: Widget, low: nat, high: nat)
    requires Touched(w, u) && IdsWithin(w, low, high)
    ensures IdsWithin(u, low, high)
  {
    forall i | 0 <= i < |w.children|
      ensures IdsWithin(u.children[i], low, high)
    {
      TouchedIds(w.children[i], u.children[i], low, high);
    }
  }

  lemma {:induction false} TouchedIntents(w: Widget, u: Widget)
    requires Touched(w, u)
    ensures Intents(u) == Intents(w)
    decreases w, 1
  {
    TouchedIntentsOf(w, u, |w.children|);
    assert w.children[..|w.children|] == w.children && u.children[..|w.children|] == u.children;
  }

  lemma {:induction false} TouchedIntentsOf(w: Widget, u: Widget, n: nat)
    requires Touched(w, u) && n <= |w.children|
    ensures IntentsOf(u.children[..n]) == IntentsOf(w.children[..n])
    decreases w, 0, n
  {
    if n > 0 {
      TouchedIntentsOf(w, u, n - 1);
      TouchedIntents(w.children[n - 1], u.children[n - 1]);
      assert w.children[..n] == w.children[..n - 1] + [w.children[n - 1]];
      assert u.children[..n] == u.children[..n - 1] + [u.children[n - 1]];
      IntentsAppend(w.children[..n - 1], w.children[n - 1]);
      IntentsAppend(u.children[..n - 1], u.children[n - 1]);
    }
  }

  /** What a region shows does not depend on what the user does. */
  lemma UserStepIsValid(v: View, u: View, tree: Component, shown: Context)
    requires UserStep(v, u) && v.Valid(tree, shown)
    ensures u.Valid(tree, shown)
  {
    var w, w' := v.rootPod.value, u.rootPod.value;
    TouchedShows(w, w', tree, 0, shown);
    TouchedIndexed(w, w', tree, v.Ix());
    TouchedIds(w, w', 0, v.nextId);
    TouchedIntents(w, w');
  }

  // ----------------------------------------------------------------- dropdown choices

  /** Every dropdown of the tree has chosen one of its items, or 0 when it has none. */
  ghost predicate ChoicesFit(w: Widget) {
    && OwnChoiceFits(w)
    && forall i | 0 <= i < |w.children| :: ChoicesFit(w.children[i])
  }

  predicate OwnChoiceFits(w: Widget) {
    w.body.DropdownBody? && w.local.DropdownState? ==>
      w.local.chosen < |w.body.entries| || (w.local.chosen == 0 && w.body.entries == [])
  }

  lemma {:induction false} StartsFit(w: Widget, c: Component, depth: nat, context: Context)
    requires Shows(w, c, depth, context) && Starts(w, c)
    ensures ChoicesFit(w)
    decreases c
  {
    forall i | 0 <= i < |w.children|
      ensures ChoicesFit(w.children[i])
    {
      if Kids(c)[i].ChildKid? {
        StartsFit(w.children[i], Kids(c)[i].component, KidDepth(c, KeyOf(Kids(c)[i]), depth), context);
      }
    }
  }

  lemma KidStartFits(w: Widget, c: Component, i: nat, depth: nat, context: Context)
    requires i < |Kids(c)| && ShowsKid(w, c, Kids(c)[i], depth, context) && KidStarts(w, c, Kids(c)[i])
    ensures ChoicesFit(w)
  {
    if Kids(c)[i].ChildKid? {
      StartsFit(w, Kids(c)[i].component, depth, context);
    }
  }

  lemma {:induction false} KeptFits(w: Widget, o: Component, w': Widget, c: Component, bound: nat, depth: nat,
      context: Context)
    requires Kept(w, o, w', c, bound) && Shows(w', c, depth, context)
    ensures ChoicesFit(w')
    decreases c
  {
    forall j | 0 <= j < |w'.children|
      ensures ChoicesFit(w'.children[j])
    {
      var kid, kidDepth := Kids(c)[j], KidDepth(c, KeyOf(Kids(c)[j]), depth);
      assert KidKept(w, o, w'.children[j], c, j, bound);
      if i :| 0 <= i < |w.children| && Keys(o)[i] == Keys(c)[j] && Stays(Keys(o), Keys(c), i, j) {
        assert KeyOf(Kids(o)[i]) == KeyOf(kid);
        if kid.ChildKid? {
          KeptFits(w.children[i], Kids(o)[i].component, w'.children[j], kid.component, bound, kidDepth, context);
        }
      } else {
        NotKeptIsFresh(w, o, w'.children[j], c, j, bound);
        KidStartFits(w'.children[j], c, j, kidDepth, context);
      }
    }
  }

  lemma NotKeptIsFresh(w: Widget, o: Component, kid': Widget, c: Component, j: nat, bound: nat)
    requires j < |Kids(c)| && |w.children| == |Kids(o)| && KidKept(w, o, kid', c, j, bound)
    requires forall i | 0 <= i < |w.children| && Keys(o)[i] == Keys(c)[j] :: !Stays(Keys(o), Keys(c), i, j)
    ensures IsFresh(kid', c, j, bound)
  {
    if Keys(c)[j] in Keys(o) {
      var i :| 0 <= i < |Keys(o)| && Keys(o)[i] == Keys(c)[j];
    }
  }

  /** After every live update that shows its tree, whatever was chosen before. */
  lemma ChoicesFitAfterUpdate(v: View, previous: Component, shown: Context, tree: Component, v': View, ok: bool)
    requires v.Valid(previous, shown) && LiveStep(v, tree, v', ok)
    requires ok && v'.Valid(tree, v.context)
    ensures ChoicesFit(v'.rootPod.value)
  {
    assert LiveOutcome(v, previous, tree, v', ok);
    if tree.hash == previous.hash && tree.kind == previous.kind {
      KeptFits(v.rootPod.value, previous, v'.rootPod.value, tree, v.nextId, 0, v.context);
    } else {
      StartsFit(v'.rootPod.value, tree, 0, v.context);
    }
  }

  // ------------------------------------------------------------------ the same tree

  /** The same widgets with the same states, up to what they paint from. */
  ghost predicate SameStates(a: Widget, b: Widget) {
    && a.id == b.id && a.local == b.local && |a.children| == |b.children|
    && forall i | 0 <= i < |a.children| :: SameStates(a.children[i], b.children[i])
  }

  lemma {:induction false} SameWidgets(a: Widget, b: Widget)
    requires SameStates(a, b) && SameRendering(a, b)
    ensures a == b
  {
    forall i | 0 <= i < |a.children|
      ensures a.children[i] == b.children[i]
    {
      SameWidgets(a.children[i], b.children[i]);
    }
    assert a.children == b.children;
  }

  /** Updating the widgets of a component with the same component leaves every state as
      it was if and only if every choice fits. */
  lemma {:induction false} SameTreeKeepsStatesExactly(w: Widget, c: Component, w': Widget, bound: nat, depth: nat,
      context: Context)
    requires WellFormed(c) && Shows(w, c, depth, context) && Kept(w, c, w', c, bound)
    ensures SameStates(w, w') <==> ChoicesFit(w)
    decreases c
  {
    assert w.local == w'.local <==> OwnChoiceFits(w);
    forall i | 0 <= i < |w.children|
      ensures SameStates(w.children[i], w'.children[i]) <==> ChoicesFit(w.children[i])
    {
      SameKid(w, c, w', bound, i);
      if Kids(c)[i].ChildKid? {
        KidIsBelow(c, i);
        SameTreeKeepsStatesExactly(w.children[i], Kids(c)[i].component, w'.children[i], bound,
                                   KidDepth(c, KeyOf(Kids(c)[i]), depth), context);
      }
    }
  }

  lemma SameKid(w: Widget, c: Component, w': Widget, bound: nat, i: nat)
    requires WellFormed(c) && Kept(w, c, w', c, bound) && i < |w.children|
    ensures if Kids(c)[i].ChildKid? then
              Kept(w.children[i], Kids(c)[i].component, w'.children[i], Kids(c)[i].component, bound)
            else w'.children[i] == w.children[i].(body := w'.children[i].body)
  {
    assert KidKept(w, c, w'.children[i], c, i, bound);
    KeysDistinct(c);
    assert Stays(Keys(c), Keys(c), i, i);
  }

  lemma {:induction false} SameStatesReflexive(w: Widget)
    ensures SameStates(w, w)
  {
    forall i | 0 <= i < |w.children|
      ensures SameStates(w.children[i], w.children[i])
    {
      SameStatesReflexive(w.children[i]);
    }
  }

  /** The widgets of a component determine its records. */
  lemma {:induction false} SameRecords(w: Widget, c: Component, x: Index, y: Index)
    requires OnlyContainersHaveChildren(c) && Indexed(w, c, x) && Indexed(w, c, y)
    ensures AgreeOn(x, y, All(c))
    decreases c
  {
    forall h | h in All(c)
      ensures SameAt(x, y, h)
    {
      if h != c.hash {
        var i := InSomeChild(c.children, h);
        var k := if c.kind.Panel? && c.title.Some? then i + 1 else i;
        assert Kids(c)[k] == ChildKid(c.children[i]);
        SameRecords(w.children[k], c.children[i], x, y);
      }
    }
  }

  /** A live update with the tree that is shown, under the same context, shows it again;
      it changes no widget if and only if every choice fits, and then no field but the
      source of ids. */
  lemma SameTreeChangesNothingExactly(v: View, tree: Component, v': View, ok: bool)
    requires v.Valid(tree, v.context) && LiveStep(v, tree, v', ok)
    requires Replays(tree, tree) && OnlyContainersHaveChildren(tree)
    ensures ok && v'.Valid(tree, v.context)
    ensures v'.rootPod == v.rootPod <==> ChoicesFit(v.rootPod.value)
    ensures v'.rootPod == v.rootPod ==> v' == v.(nextId := v'.nextId)
  {
    SameTreeStates(v, tree, v.context, v', ok);
    var w, w' := v.rootPod.value, v'.rootPod.value;
    RenderingIsUnique(w, w', tree, 0, v.context);
    SameStatesReflexive(w);
    if SameStates(w, w') {
      SameWidgets(w, w');
      SameRecords(w, tree, v.Ix(), v'.Ix());
      IndexesAreExact(v, tree, v.context);
      IndexesAreExact(v', tree, v.context);
      assert forall h | h in All(tree) :: SameAt(v.Ix(), v'.Ix(), h);
      assert v'.pods == v.pods && v'.childKeys == v.childKeys;
    }
  }

  /** The same under any context, for the states. */
  lemma SameTreeStates(v: View, tree: Component, shown: Context, v': View, ok: bool)
    requires v.Valid(tree, shown) && LiveStep(v, tree, v', ok)
    ensures ok && v'.rootPod.Some? && (v'.Valid(tree, v.context) <==> Replays(tree, tree))
    ensures SameStates(v.rootPod.value, v'.rootPod.value) <==> ChoicesFit(v.rootPod.value)
  {
    assert LiveOutcome(v, tree, tree, v', ok);
    SameTreeKeepsStatesExactly(v.rootPod.value, tree, v'.rootPod.value, v.nextId, 0, shown);
  }

  // ------------------------------------------------------------------- text fields

  /** After an update an idle field shows the server's text if and only if it did before
      or the server's text changed since the field last saw it. */
  lemma FieldShowsServerTextExactly(before: Body, local: Local, c: Component, after: Local)
    requires local.InputState? && !local.focused && IsKept(before, local, c, after)
    ensures after.InputState?
    ensures after.areaText == ServerText(c) <==> ServerTextChanged(before, c) || local.areaText == ServerText(c)
  {
  }

  /** A change that comes while the field is being edited is never adopted: once the user
      has left the field, updates with the same text keep what the user typed. */
  lemma MissedTextIsNeverAdopted(w: Widget, c: Component, depth: nat, context: Context, left: Local, after: Local)
    requires c.kind.TextInput? && w.body.InputBody? && w.local.InputState? && w.local.focused
    requires left == w.local.(focused := false)
    requires IsKept(UpdatedBody(w.body, c, depth, context), left, c, after)
    ensures IsKept(w.body, w.local, c, w.local)
    ensures after == left && after.areaText == w.local.areaText
  {
  }
}
