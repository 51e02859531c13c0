/** When a widget tree renders a component tree, and when the identity indexes of
    the reconciler describe it. */
module Rendering {
  import opened Wrappers
  import opened Sequences
  import opened PackageUi
  import opened KeyedDiff

  // ------------------------------------------------------------ component trees

  /** The id hashes of a component and everything below it. */
  ghost function All(c: Component): set<Hash> {
    {c.hash} + Below(c.children)
  }

  ghost function Below(children: seq<Component>): set<Hash> {
    if children == [] then {} else All(children[0]) + Below(children[1..])
  }

  /** Id hashes are distinct throughout the tree, and rows of a list have distinct ids. */
  ghost predicate WellFormed(c: Component) {
    && c.hash !in Below(c.children)
    && WellFormedAll(c.children)
    && (c.kind.List? ==> forall i, j | 0 <= i < j < |c.items| :: c.items[i].id != c.items[j].id)
  }

  ghost predicate WellFormedAll(children: seq<Component>) {
    children == [] || (WellFormed(children[0]) && WellFormedAll(children[1..]) && All(children[0]) !! Below(children[1..]))
  }

  lemma {:induction false} ChildIsBelow(children: seq<Component>, i: nat)
    requires i < |children|
    ensures All(children[i]) <= Below(children)
    ensures WellFormedAll(children) ==> WellFormed(children[i])
  {
    if i > 0 {
      ChildIsBelow(children[1..], i - 1);
    }
  }

  lemma {:induction false} ChildrenDisjoint(children: seq<Component>, i: nat, j: nat)
    requires WellFormedAll(children) && i < j < |children|
    ensures All(children[i]) !! All(children[j])
    ensures children[i].hash != children[j].hash
  {
    if i > 0 {
      ChildrenDisjoint(children[1..], i - 1, j - 1);
    } else {
      ChildIsBelow(children[1..], j - 1);
      assert children[j].hash in All(children[j]) && children[0].hash in All(children[0]);
    }
  }

  /** The hashes a rendered child can touch. */
  ghost function KidHashes(kid: Kid): set<Hash> {
    if kid.ChildKid? then All(kid.component) else {}
  }

  lemma KidIsBelow(c: Component, i: nat)
    requires WellFormed(c) && i < |Kids(c)|
    ensures KidHashes(Kids(c)[i]) <= Below(c.children)
    ensures Kids(c)[i].ChildKid? ==> WellFormed(Kids(c)[i].component)
  {
    if Kids(c)[i].ChildKid? {
      var k :| 0 <= k < |c.children| && c.children[k] == Kids(c)[i].component;
      ChildIsBelow(c.children, k);
    }
  }

  lemma KidsDisjoint(c: Component, i: nat, j: nat)
    requires WellFormed(c) && i < j < |Kids(c)|
    ensures KidHashes(Kids(c)[i]) !! KidHashes(Kids(c)[j])
    ensures KeyOf(Kids(c)[i]) != KeyOf(Kids(c)[j])
  {
    if c.kind.Panel? && c.title.Some? {
      if i > 0 {
        ChildrenDisjoint(c.children, i - 1, j - 1);
      }
    } else if IsContainer(c.kind) {
      ChildrenDisjoint(c.children, i, j);
    }
  }

  lemma KeysDistinct(c: Component)
    requires WellFormed(c)
    ensures Distinct(Keys(c))
  {
    forall i, j | 0 <= i < j < |Keys(c)|
      ensures Keys(c)[i] != Keys(c)[j]
    {
      KidsDisjoint(c, i, j);
    }
  }

  // ------------------------------------------------------------------- rendering

  /** `w` renders `c` at `depth`: the right kind and properties all the way down,
      the children in order, up to widget ids and local state. */
  ghost predicate Shows(w: Widget, c: Component, depth: nat, context: Context)
    decreases c, 1
  {
    && w.body == BuiltBody(c, depth, context)
    && LocalFits(w.local, c.kind)
    && |w.children| == |Kids(c)|
    && forall i | 0 <= i < |w.children| ::
         ShowsKid(w.children[i], c, Kids(c)[i], KidDepth(c, KeyOf(Kids(c)[i]), depth), context)
  }

  ghost predicate ShowsKid(w: Widget, parent: Component, kid: Kid, depth: nat, context: Context)
    decreases (if kid.ChildKid? then kid.component else parent), (if kid.ChildKid? then 2 else 0)
  {
    match kid
    case TitleKid => w.body == TitleBody(parent, depth, context) && w.children == []
    case RowKid(item) => w.body == RowFrom(parent, item, depth, context) && w.children == []
    case ChildKid(c) => Shows(w, c, depth, context)
  }

  /** The widgets of a component that was built afresh: every state is the starting one. */
  ghost predicate Starts(w: Widget, c: Component)
    decreases c, 1
  {
    && IsStart(w.local, c)
    && |w.children| == |Kids(c)|
    && forall i | 0 <= i < |w.children| :: KidStarts(w.children[i], c, Kids(c)[i])
  }

  ghost predicate KidStarts(w: Widget, parent: Component, kid: Kid)
    decreases (if kid.ChildKid? then kid.component else parent), (if kid.ChildKid? then 2 else 0)
  {
    if kid.ChildKid? then Starts(w, kid.component) else w.local == NoLocal && w.children == []
  }

  /** The same rendering up to ids and local state. */
  ghost predicate SameRendering(a: Widget, b: Widget) {
    && a.body == b.body
    && |a.children| == |b.children|
    && forall i | 0 <= i < |a.children| :: SameRendering(a.children[i], b.children[i])
  }

  /** A tree has one rendering. */
  lemma {:induction false} RenderingIsUnique(a: Widget, b: Widget, c: Component, depth: nat, context: Context)
    requires Shows(a, c, depth, context) && Shows(b, c, depth, context)
    ensures SameRendering(a, b)
    decreases c
  {
    forall i | 0 <= i < |a.children|
      ensures SameRendering(a.children[i], b.children[i])
    {
      var kid := Kids(c)[i];
      if kid.ChildKid? {
        RenderingIsUnique(a.children[i], b.children[i], kid.component, KidDepth(c, KeyOf(kid), depth), context);
      }
    }
  }

  // --------------------------------------------------------------------- indexes

  datatype PodRecord = PodRecord(id: WidgetId, kind: Kind)

  /** The two side indexes by id hash. */
  datatype Index = Index(pods: map<Hash, PodRecord>, keys: map<Hash, seq<ChildKey>>)

  ghost predicate SameAt(a: Index, b: Index, h: Hash) {
    && (h in a.pods <==> h in b.pods) && (h in a.pods ==> a.pods[h] == b.pods[h])
    && (h in a.keys <==> h in b.keys) && (h in a.keys ==> a.keys[h] == b.keys[h])
  }

  ghost predicate AgreeOn(a: Index, b: Index, hashes: set<Hash>) {
    forall h | h in hashes :: SameAt(a, b, h)
  }

  ghost predicate SameOutside(a: Index, b: Index, hashes: set<Hash>) {
    forall h: Hash | h !in hashes :: SameAt(a, b, h)
  }

  /** Every rendered component is recorded with its live widget and its child keys. */
  ghost predicate Indexed(w: Widget, c: Component, x: Index)
    decreases c
  {
    && c.hash in x.pods && x.pods[c.hash] == PodRecord(w.id, c.kind)
    && c.hash in x.keys && x.keys[c.hash] == Keys(c)
    && |w.children| == |Kids(c)|
    && forall i | 0 <= i < |w.children| ::
         Kids(c)[i].ChildKid? ==> Indexed(w.children[i], Kids(c)[i].component, x)
  }

  ghost predicate IndexedKid(w: Widget, kid: Kid, x: Index) {
    kid.ChildKid? ==> Indexed(w, kid.component, x)
  }

  /** The records of a component depend only on the hashes of its tree. */
  lemma {:induction false} IndexedFrame(w: Widget, c: Component, x: Index, y: Index)
    requires WellFormed(c) && Indexed(w, c, x) && AgreeOn(x, y, All(c))
    ensures Indexed(w, c, y)
    decreases c
  {
    assert c.hash in All(c) && SameAt(x, y, c.hash);
    forall i | 0 <= i < |w.children| && Kids(c)[i].ChildKid?
      ensures Indexed(w.children[i], Kids(c)[i].component, y)
    {
      KidIsBelow(c, i);
      assert forall h | h in All(Kids(c)[i].component) :: h in All(c);
      IndexedFrame(w.children[i], Kids(c)[i].component, x, y);
    }
  }

  /** Between two moments only records of the given components appear or change, and
      each that does has an id handed out in between. */
  ghost predicate Grown(x: Index, next: nat, y: Index, later: nat, hashes: set<Hash>) {
    && next <= later
    && (forall h | h in x.pods && h !in hashes :: h in y.pods)
    && (forall h | h in y.pods ::
          (h in x.pods && y.pods[h] == x.pods[h]) || (h in hashes && next <= y.pods[h].id < later))
  }

  lemma GrownTrans(x: Index, next: nat, y: Index, later: nat, z: Index, last: nat, a: set<Hash>, b: set<Hash>, c: set<Hash>)
    requires Grown(x, next, y, later, a) && Grown(y, later, z, last, b) && a <= c && b <= c
    ensures Grown(x, next, z, last, c)
  {
  }

  lemma SameOutsideTrans(a: Index, b: Index, c: Index, h1: set<Hash>, h2: set<Hash>, hashes: set<Hash>)
    requires SameOutside(a, b, h1) && SameOutside(b, c, h2)
    requires h1 <= hashes && h2 <= hashes
    ensures SameOutside(a, c, hashes)
  {
    forall h: Hash | h !in hashes
      ensures SameAt(a, c, h)
    {
      assert SameAt(a, b, h) && SameAt(b, c, h);
    }
  }

  lemma AgreeAfter(base: Index, a: Index, b: Index, touched: set<Hash>, hashes: set<Hash>)
    requires AgreeOn(base, a, hashes) && SameOutside(a, b, touched) && touched !! hashes
    ensures AgreeOn(base, b, hashes)
  {
    forall h | h in hashes
      ensures SameAt(base, b, h)
    {
      assert SameAt(base, a, h) && SameAt(a, b, h);
    }
  }

  /** Recording one component. */
  function Record(x: Index, c: Component, id: WidgetId): Index {
    Index(x.pods[c.hash := PodRecord(id, c.kind)], x.keys[c.hash := Keys(c)])
  }

  /** Components that render no children have none. */
  ghost predicate OnlyContainersHaveChildren(c: Component) {
    && (c.children != [] ==> IsContainer(c.kind))
    && forall i | 0 <= i < |c.children| :: OnlyContainersHaveChildren(c.children[i])
  }

  ghost predicate SameEntry(x: Index, y: Index, h: Hash) {
    && h in x.pods && h in y.pods && x.pods[h].kind == y.pods[h].kind
    && h in x.keys && h in y.keys && x.keys[h] == y.keys[h]
  }

  /** Then every component of the tree is rendered, so every one is recorded, with
      the same kind and child keys by every index of it. */
  lemma {:induction false} IndexIsDetermined(a: Widget, b: Widget, c: Component, x: Index, y: Index)
    requires OnlyContainersHaveChildren(c) && Indexed(a, c, x) && Indexed(b, c, y)
    ensures forall h | h in All(c) :: SameEntry(x, y, h)
    decreases c
  {
    forall h | h in All(c)
      ensures SameEntry(x, y, h)
    {
      if h != c.hash {
        var i := InSomeChild(c.children, h);
        var k := if c.kind.Panel? && c.title.Some? then i + 1 else i;
        assert Kids(c)[k] == ChildKid(c.children[i]);
        IndexIsDetermined(a.children[k], b.children[k], c.children[i], x, y);
      }
    }
  }

  /** A component of the given id hash and kind occurs in the tree. */
  ghost predicate Occurs(c: Component, h: Hash, kind: Kind) {
    (c.hash == h && c.kind == kind) || exists i | 0 <= i < |c.children| :: Occurs(c.children[i], h, kind)
  }

  ghost predicate OccursBelow(c: Component, h: Hash, kind: Kind) {
    exists i | 0 <= i < |c.children| :: Occurs(c.children[i], h, kind)
  }

  lemma {:induction false} OccursInside(c: Component, h: Hash, kind: Kind)
    requires Occurs(c, h, kind)
    ensures h in All(c)
  {
    if !(c.hash == h && c.kind == kind) {
      var i :| 0 <= i < |c.children| && Occurs(c.children[i], h, kind);
      OccursInside(c.children[i], h, kind);
      ChildIsBelow(c.children, i);
    }
  }

  lemma OccursAtRoot(c: Component, kind: Kind)
    requires WellFormed(c)
    ensures Occurs(c, c.hash, kind) <==> c.kind == kind
  {
    forall i | 0 <= i < |c.children|
      ensures !Occurs(c.children[i], c.hash, kind)
    {
      ChildIsBelow(c.children, i);
      if Occurs(c.children[i], c.hash, kind) {
        OccursInside(c.children[i], c.hash, kind);
      }
    }
  }

  lemma OccursInOneChild(c: Component, i: nat, h: Hash, kind: Kind)
    requires WellFormed(c) && i < |c.children| && h in All(c.children[i])
    ensures Occurs(c, h, kind) <==> Occurs(c.children[i], h, kind)
  {
    ChildIsBelow(c.children, i);
    forall j | 0 <= j < |c.children| && Occurs(c.children[j], h, kind)
      ensures j == i
    {
      OccursInside(c.children[j], h, kind);
      if j < i {
        ChildrenDisjoint(c.children, j, i);
      } else if i < j {
        ChildrenDisjoint(c.children, i, j);
      }
    }
  }

  /** The records tell the kind of every component of the tree. */
  lemma {:induction false} OccursAsRecorded(w: Widget, c: Component, x: Index, h: Hash, kind: Kind)
    requires WellFormed(c) && OnlyContainersHaveChildren(c) && Indexed(w, c, x)
    requires h in All(c)
    ensures h in x.pods && (Occurs(c, h, kind) <==> x.pods[h].kind == kind)
    decreases c
  {
    if h == c.hash {
      OccursAtRoot(c, kind);
    } else {
      var i := InSomeChild(c.children, h);
      var k := if c.kind.Panel? && c.title.Some? then i + 1 else i;
      assert Kids(c)[k] == ChildKid(c.children[i]);
      ChildIsBelow(c.children, i);
      OccursAsRecorded(w.children[k], c.children[i], x, h, kind);
      OccursInOneChild(c, i, h, kind);
    }
  }

  lemma {:induction false} InSomeChild(children: seq<Component>, h: Hash) returns (i: nat)
    requires h in Below(children)
    ensures i < |children| && h in All(children[i])
  {
    if h in All(children[0]) {
      i := 0;
    } else {
      var k := InSomeChild(children[1..], h);
      i := k + 1;
    }
  }

  // ------------------------------------------------------------ commit intents

  /** The commit intents of the enabled text inputs of a widget tree, by the id of
      the text area. */
  function Intents(w: Widget): map<WidgetId, Intent> {
    (if w.body.InputBody? && w.local.InputState? && w.body.intent.Some?
     then map[w.local.area := w.body.intent.value] else map[]) + IntentsOf(w.children)
  }

  function IntentsOf(ws: seq<Widget>): map<WidgetId, Intent> {
    if ws == [] then map[] else IntentsOf(ws[..|ws| - 1]) + Intents(ws[|ws| - 1])
  }

  lemma IntentsAppend(ws: seq<Widget>, w: Widget)
    ensures IntentsOf(ws + [w]) == IntentsOf(ws) + Intents(w)
  {
    assert (ws + [w])[..|ws|] == ws;
  }

  /** An enabled text input of the tree has this text area and this intent. */
  ghost predicate CommitsFrom(w: Widget, area: WidgetId, intent: Intent) {
    || (w.body.InputBody? && w.local.InputState? && w.local.area == area && w.body.intent == Some(intent))
    || exists i | 0 <= i < |w.children| :: CommitsFrom(w.children[i], area, intent)
  }

  /** `area` is the text area of an enabled text input of the tree. */
  ghost predicate LiveArea(w: Widget, area: WidgetId) {
    exists intent :: CommitsFrom(w, area, intent)
  }

  /** The commit intents are keyed by exactly the live text areas, each with the intent of
      an input that has it. */
  lemma IntentsAreLive(w: Widget, area: WidgetId)
    ensures area in Intents(w) <==> LiveArea(w, area)
    ensures area in Intents(w) ==> CommitsFrom(w, area, Intents(w)[area])
  {
    IntentsCommit(w, area);
  }

  lemma {:induction false} IntentsCommit(w: Widget, area: WidgetId)
    ensures area in Intents(w) ==> CommitsFrom(w, area, Intents(w)[area])
    ensures forall intent | CommitsFrom(w, area, intent) :: area in Intents(w)
    decreases w, 1
  {
    IntentsOfCommit(w, |w.children|, area);
    assert w.children[..|w.children|] == w.children;
  }

  lemma {:induction false} IntentsOfCommit(w: Widget, n: nat, area: WidgetId)
    requires n <= |w.children|
    ensures var intents := IntentsOf(w.children[..n]);
            && (area in intents ==> exists i | 0 <= i < n :: CommitsFrom(w.children[i], area, intents[area]))
            && forall i, intent | 0 <= i < n && CommitsFrom(w.children[i], area, intent) :: area in intents
    decreases w, 0, n
  {
    if n > 0 {
      IntentsOfCommit(w, n - 1, area);
      IntentsCommit(w.children[n - 1], area);
      assert w.children[..n] == w.children[..n - 1] + [w.children[n - 1]];
      IntentsAppend(w.children[..n - 1], w.children[n - 1]);
    }
  }

  // ------------------------------------------------------------------- identity

  /** Every widget id of a tree is in `[low..high)`. */
  ghost predicate IdsWithin(w: Widget, low: nat, high: nat) {
    && low <= w.id < high
    && (w.local.InputState? ==> low <= w.local.area < high)
    && forall i | 0 <= i < |w.children| :: IdsWithin(w.children[i], low, high)
  }

  lemma {:induction false} IdsWiden(w: Widget, low: nat, high: nat, low': nat, high': nat)
    requires IdsWithin(w, low, high) && low' <= low && high <= high'
    ensures IdsWithin(w, low', high')
  {
    forall i | 0 <= i < |w.children|
      ensures IdsWithin(w.children[i], low', high')
    {
      IdsWiden(w.children[i], low, high, low', high');
    }
  }

  /** What a live update of `o` to `c` keeps: the widget's own id and, as `IsKept` says,
      its state; and, for the children, the widget of every child present in both lists
      whose surviving older siblings are all still ahead of it, while every other child
      is fresh. */
  ghost predicate Kept(w: Widget, o: Component, w': Widget, c: Component, bound: nat)
    decreases c, 1
  {
    && w'.id == w.id
    && IsKept(w.body, w.local, c, w'.local)
    && |w.children| == |Kids(o)| && |w'.children| == |Kids(c)|
    && forall j | 0 <= j < |w'.children| :: KidKept(w, o, w'.children[j], c, j, bound)
  }

  ghost predicate KidKept(w: Widget, o: Component, kid': Widget, c: Component, j: nat, bound: nat)
    requires j < |Kids(c)| && |w.children| == |Kids(o)|
    decreases c, 0
  {
    && (Keys(c)[j] !in Keys(o) ==> IsFresh(kid', c, j, bound))
    && forall i | 0 <= i < |w.children| && Keys(o)[i] == Keys(c)[j] ::
         if !Stays(Keys(o), Keys(c), i, j) then IsFresh(kid', c, j, bound)
         else if Kids(o)[i].ChildKid? && Kids(c)[j].ChildKid? then
           Kept(w.children[i], Kids(o)[i].component, kid', Kids(c)[j].component, bound)
         else kid' == w.children[i].(body := kid'.body)
  }

  /** A child that was built afresh. */
  ghost predicate IsFresh(kid': Widget, c: Component, j: nat, bound: nat)
    requires j < |Kids(c)|
  {
    kid'.id >= bound && KidStarts(kid', c, Kids(c)[j])
  }

  // ------------------------------------------------------- updates that rebuild

  /** Updating the rendering of `o` in place gives the bodies a rebuild of `c` gives:
      every component that survives in place is replayable. */
  ghost predicate Replays(o: Component, c: Component)
    decreases c, 1
  {
    Replayable(c) && forall j | 0 <= j < |Kids(c)| :: KidReplays(o, c, j)
  }

  ghost predicate KidReplays(o: Component, c: Component, j: nat)
    requires j < |Kids(c)|
    decreases c, 0
  {
    forall i | 0 <= i < |Kids(o)| && Keys(o)[i] == Keys(c)[j] && Stays(Keys(o), Keys(c), i, j) :: KidReplaysAt(o, i, c, j)
  }

  ghost predicate KidReplaysAt(o: Component, i: nat, c: Component, j: nat)
    requires i < |Kids(o)| && j < |Kids(c)|
    decreases (if Kids(c)[j].ChildKid? then Kids(c)[j].component else c), (if Kids(c)[j].ChildKid? then 2 else -1)
  {
    Kids(o)[i].ChildKid? && Kids(c)[j].ChildKid? ==> Replays(Kids(o)[i].component, Kids(c)[j].component)
  }

  /** For each child of `c`, whether it replays. */
  ghost function KidsReplay(o: Component, c: Component): (shown: seq<bool>)
    ensures |shown| == |Kids(c)| && forall j | 0 <= j < |shown| :: shown[j] == KidReplays(o, c, j)
  {
    seq(|Kids(c)|, j requires 0 <= j < |Kids(c)| => KidReplays(o, c, j))
  }

  /** The children of a component that is built afresh are all shown. */
  ghost function KidsBuilt(c: Component): (shown: seq<bool>)
    ensures |shown| == |Kids(c)| && forall j | 0 <= j < |shown| :: shown[j]
  {
    seq(|Kids(c)|, j => true)
  }

  /** Exact identity preservation: a child present in both lists keeps its widget id
      if and only if every surviving sibling ahead of it in the old list is also ahead
      of it in the new one. */
  lemma IdentityIsKeptExactly(w: Widget, o: Component, w': Widget, c: Component, bound: nat, i: nat, j: nat)
    requires Kept(w, o, w', c, bound) && IdsWithin(w, 0, bound)
    requires i < |w.children| && j < |w'.children| && Keys(o)[i] == Keys(c)[j]
    ensures w'.children[j].id == w.children[i].id <==> Stays(Keys(o), Keys(c), i, j)
  {
    assert KidKept(w, o, w'.children[j], c, j, bound);
    assert IdsWithin(w.children[i], 0, bound);
  }

  /** When the new list only deletes and inserts, every surviving child keeps its
      widget id. */
  lemma PureInsertDeleteKeepsIdentity(w: Widget, o: Component, w': Widget, c: Component, bound: nat, i: nat, j: nat)
    requires WellFormed(o) && WellFormed(c)
    requires Kept(w, o, w', c, bound) && IdsWithin(w, 0, bound)
    requires i < |w.children| && j < |w'.children| && Keys(o)[i] == Keys(c)[j]
    requires forall q, r, k, l | 0 <= q < r < |Keys(o)| && 0 <= k < |Keys(c)| && 0 <= l < |Keys(c)|
               && Keys(o)[q] == Keys(c)[k] && Keys(o)[r] == Keys(c)[l] :: k < l
    ensures w'.children[j].id == w.children[i].id
  {
    KeysDistinct(o);
    KeysDistinct(c);
    PureInsertDeleteKeepsAll(Keys(o), Keys(c), i, j);
    IdentityIsKeptExactly(w, o, w', c, bound, i, j);
  }
}
