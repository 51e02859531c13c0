/** The loop of `reconcile_flex_children` as a state predicate: what holds when the
    first `target` children are in place, and why each of its three branches keeps
    it. */
module Placement {
  import opened Wrappers
  import opened PackageUi
  import opened KeyedDiff
  import opened Rendering

  /** Looking a child up in its parent, as `children.iter().find` does. */
  function FindChild(children: seq<Component>, hash: Hash): Option<Component> {
    if children == [] then None
    else if children[0].hash == hash then Some(children[0])
    else FindChild(children[1..], hash)
  }

  function FindItem(items: seq<Item>, id: string): Option<Item> {
    if items == [] then None
    else if items[0].id == id then Some(items[0])
    else FindItem(items[1..], id)
  }

  lemma {:induction false} FindsChild(children: seq<Component>, i: nat)
    requires WellFormedAll(children) && i < |children|
    ensures FindChild(children, children[i].hash) == Some(children[i])
  {
    if i > 0 {
      ChildrenDisjoint(children, 0, i);
      FindsChild(children[1..], i - 1);
    }
  }

  lemma {:induction false} FindsItem(items: seq<Item>, i: nat)
    requires forall j, k | 0 <= j < k < |items| :: items[j].id != items[k].id
    requires i < |items|
    ensures FindItem(items, items[i].id) == Some(items[i])
  {
    if i > 0 {
      FindsItem(items[1..], i - 1);
    }
  }

  /** The child a key of a well-formed parent stands for. */
  lemma FindsKid(c: Component, i: nat)
    requires WellFormed(c) && i < |Kids(c)|
    ensures Kids(c)[i].ChildKid? ==> FindChild(c.children, Kids(c)[i].component.hash) == Some(Kids(c)[i].component)
    ensures Kids(c)[i].RowKid? ==> FindItem(c.items, Kids(c)[i].item.id) == Some(Kids(c)[i].item)
  {
    var kid := Kids(c)[i];
    if kid.ChildKid? {
      var k :| 0 <= k < |c.children| && c.children[k] == kid.component;
      FindsChild(c.children, k);
    } else if kid.RowKid? {
      var k :| 0 <= k < |c.items| && c.items[k] == kid.item;
      FindsItem(c.items, k);
    }
  }

  lemma MapAssociative<K, V>(a: map<K, V>, b: map<K, V>, c: map<K, V>)
    ensures a + b + c == a + (b + c)
  {
  }

  // ------------------------------------------------------------- finished children

  /** Child `i` of `c` is indexed, and is rendered exactly if `shown`. */
  ghost predicate KidDone(w: Widget, c: Component, i: nat, depth: nat, context: Context, x: Index, shown: bool)
    requires i < |Kids(c)|
  {
    && (ShowsKid(w, c, Kids(c)[i], KidDepth(c, KeyOf(Kids(c)[i]), depth), context) <==> shown)
    && IndexedKid(w, Kids(c)[i], x)
  }

  /** The first `|ws|` children of `c` are indexed, and rendered exactly if `shown`. */
  ghost predicate ColumnDone(ws: seq<Widget>, shown: seq<bool>, c: Component, depth: nat, context: Context, x: Index) {
    && |ws| <= |Kids(c)| == |shown|
    && forall i | 0 <= i < |ws| :: KidDone(ws[i], c, i, depth, context, x, shown[i])
  }

  lemma KidFrame(w: Widget, c: Component, i: nat, j: nat, x: Index, y: Index)
    requires WellFormed(c) && i < j < |Kids(c)|
    requires IndexedKid(w, Kids(c)[i], x) && SameOutside(x, y, KidHashes(Kids(c)[j]))
    ensures IndexedKid(w, Kids(c)[i], y)
  {
    if Kids(c)[i].ChildKid? {
      KidsDisjoint(c, i, j);
      KidIsBelow(c, i);
      assert AgreeOn(x, y, All(Kids(c)[i].component));
      IndexedFrame(w, Kids(c)[i].component, x, y);
    }
  }

  lemma EarlierKidDone(ws: seq<Widget>, i: nat, shown: seq<bool>, c: Component, depth: nat, context: Context,
      x: Index, y: Index)
    requires WellFormed(c) && ColumnDone(ws, shown, c, depth, context, x) && i < |ws| < |Kids(c)|
    requires SameOutside(x, y, KidHashes(Kids(c)[|ws|]))
    ensures KidDone(ws[i], c, i, depth, context, y, shown[i])
  {
    KidFrame(ws[i], c, i, |ws|, x, y);
  }

  /** Finishing the next child leaves the earlier ones finished. */
  lemma ColumnGrows(ws: seq<Widget>, w: Widget, shown: seq<bool>, c: Component, depth: nat, context: Context,
      x: Index, y: Index)
    requires WellFormed(c) && ColumnDone(ws, shown, c, depth, context, x) && |ws| < |Kids(c)|
    requires SameOutside(x, y, KidHashes(Kids(c)[|ws|]))
    requires KidDone(w, c, |ws|, depth, context, y, shown[|ws|])
    ensures ColumnDone(ws + [w], shown, c, depth, context, y)
  {
    forall i | 0 <= i < |ws|
      ensures KidDone(ws[i], c, i, depth, context, y, shown[i])
    {
      EarlierKidDone(ws, i, shown, c, depth, context, x, y);
    }
    assert ColumnDone(ws, shown, c, depth, context, y);
    ColumnSnoc(ws, w, shown, c, depth, context, y);
  }

  lemma ColumnSnoc(ws: seq<Widget>, w: Widget, shown: seq<bool>, c: Component, depth: nat, context: Context, y: Index)
    requires ColumnDone(ws, shown, c, depth, context, y) && |ws| < |Kids(c)|
    requires KidDone(w, c, |ws|, depth, context, y, shown[|ws|])
    ensures ColumnDone(ws + [w], shown, c, depth, context, y)
  {
    var longer := ws + [w];
    forall i | 0 <= i < |longer|
      ensures KidDone(longer[i], c, i, depth, context, y, shown[i])
    {
      assert i < |ws| ==> longer[i] == ws[i];
    }
  }

  // ---------------------------------------------------------------- the loop state

  /** What is fixed during one `reconcile_flex_children`: the parent's widget and old
      component, its new component and depth, the contexts, the indexes before the
      whole reconcile and before this call, a bound on all earlier ids, and the commit
      intents recorded before this call. */
  datatype Env = Env(w: Widget, o: Component, c: Component, depth: nat, before: Context, context: Context,
                     base: Index, start: Index, bound: nat, had: map<WidgetId, Intent>)

  ghost predicate EnvOk(e: Env) {
    && WellFormed(e.o) && WellFormed(e.c) && e.o.kind == e.c.kind && e.o.hash == e.c.hash
    && Shows(e.w, e.o, e.depth, e.before) && Indexed(e.w, e.o, e.base)
    && AgreeOn(e.base, e.start, All(e.c))
  }

  ghost predicate AllWithin(ws: seq<Widget>, high: nat) {
    forall i | 0 <= i < |ws| :: IdsWithin(ws[i], 0, high)
  }

  /** From `target` on, the working list has the old children at positions `left`. */
  ghost predicate LeftAre(e: Env, flex: seq<Widget>, target: nat, left: seq<nat>) {
    && |flex| == target + |left| && (forall j | 0 <= j < |left| :: left[j] < |e.w.children|)
    && forall j | 0 <= j < |left| :: flex[target + j] == e.w.children[left[j]]
  }

  /** The first `target` children have the right identities. */
  ghost predicate AllKept(e: Env, flex: seq<Widget>, target: nat) {
    && target <= |flex| && target <= |Kids(e.c)| && |e.w.children| == |Kids(e.o)|
    && forall j | 0 <= j < target :: KidKept(e.w, e.o, flex[j], e.c, j, e.bound)
  }

  /** The working lists of the pass. */
  ghost predicate ListsInv(e: Env, target: nat, flex: seq<Widget>, current: seq<ChildKey>, left: seq<nat>, next: nat) {
    && DiffInv(Keys(e.o), Keys(e.c), target, current, left)
    && |flex| == |current| && |e.w.children| == |Keys(e.o)|
    && LeftAre(e, flex, target, left)
    && AllKept(e, flex, target)
    && AllWithin(flex, next)
    && e.bound <= next
  }

  /** What the finished children have left in the region. */
  ghost predicate DoneInv(e: Env, target: nat, done: seq<Widget>, x: Index, now: map<WidgetId, Intent>) {
    && ColumnDone(done, KidsReplay(e.o, e.c), e.c, e.depth, e.context, x)
    && SameOutside(e.start, x, Below(e.c.children))
    && now == e.had + IntentsOf(done)
    && Untouched(e, target, x)
  }

  ghost predicate PlaceInv(e: Env, target: nat, flex: seq<Widget>, current: seq<ChildKey>, left: seq<nat>,
                           x: Index, next: nat, now: map<WidgetId, Intent>) {
    && ListsInv(e, target, flex, current, left, next)
    && target <= |flex| && DoneInv(e, target, flex[..target], x, now)
  }

  /** Nothing of the children from `target` on has been recorded yet. */
  ghost predicate Untouched(e: Env, target: nat, x: Index) {
    forall j | target <= j < |Kids(e.c)| :: AgreeOn(e.base, x, KidHashes(Kids(e.c)[j]))
  }

  lemma UntouchedNext(e: Env, target: nat, x: Index, y: Index)
    requires WellFormed(e.c) && target < |Kids(e.c)|
    requires Untouched(e, target, x) && SameOutside(x, y, KidHashes(Kids(e.c)[target]))
    ensures Untouched(e, target + 1, y)
  {
    forall j | target + 1 <= j < |Kids(e.c)|
      ensures AgreeOn(e.base, y, KidHashes(Kids(e.c)[j]))
    {
      KidsDisjoint(e.c, target, j);
      AgreeAfter(e.base, x, y, KidHashes(Kids(e.c)[target]), KidHashes(Kids(e.c)[j]));
    }
  }

  /** What building or updating child `target` has achieved. */
  ghost predicate Placed(e: Env, target: nat, w: Widget, x: Index, y: Index, next: nat, later: nat)
    requires target < |Kids(e.c)| && |e.w.children| == |Kids(e.o)|
  {
    && KidDone(w, e.c, target, e.depth, e.context, y, KidReplays(e.o, e.c, target))
    && SameOutside(x, y, KidHashes(Kids(e.c)[target]))
    && IdsWithin(w, 0, later) && next <= later
    && KidKept(e.w, e.o, w, e.c, target, e.bound)
  }

  /** The working lists once child `target` is in place: `w` follows the prefix, and
      the rest are the old children still to be placed. */
  ghost predicate Rearranged(e: Env, target: nat, flex: seq<Widget>, w: Widget,
      flex': seq<Widget>, current': seq<ChildKey>, left': seq<nat>)
    requires |e.w.children| == |Keys(e.o)|
  {
    && DiffInv(Keys(e.o), Keys(e.c), target + 1, current', left')
    && target <= |flex| && |flex'| == |current'| && flex'[..target] == flex[..target] && flex'[target] == w
    && (forall j | target < j < |flex'| :: flex'[j] in flex)
    && LeftAre(e, flex', target + 1, left')
  }

  /** Putting the finished child at `target` in front of the rest. */
  lemma PlaceChild(e: Env, target: nat, flex: seq<Widget>, current: seq<ChildKey>, left: seq<nat>, x: Index, next: nat,
      had: map<WidgetId, Intent>, w: Widget, y: Index, later: nat,
      flex': seq<Widget>, current': seq<ChildKey>, left': seq<nat>, now: map<WidgetId, Intent>)
    requires EnvOk(e) && PlaceInv(e, target, flex, current, left, x, next, had)
    requires now == had + Intents(w)
    requires target < |Keys(e.c)|
    requires Placed(e, target, w, x, y, next, later)
    requires Rearranged(e, target, flex, w, flex', current', left')
    ensures PlaceInv(e, target + 1, flex', current', left', y, later, now)
  {
    PrefixNext(flex, flex', target, w);
    ListsAfter(e, target, flex, current, left, next, w, later, flex', current', left');
    DoneAfter(e, target, flex[..target], x, had, w, y, now);
  }

  lemma PrefixNext<T>(a: seq<T>, b: seq<T>, target: nat, x: T)
    requires target <= |a| && target < |b| && b[..target] == a[..target] && b[target] == x
    ensures b[..target + 1] == a[..target] + [x]
  {
  }

  lemma ListsAfter(e: Env, target: nat, flex: seq<Widget>, current: seq<ChildKey>, left: seq<nat>, next: nat,
      w: Widget, later: nat, flex': seq<Widget>, current': seq<ChildKey>, left': seq<nat>)
    requires ListsInv(e, target, flex, current, left, next) && target < |Keys(e.c)|
    requires IdsWithin(w, 0, later) && next <= later && KidKept(e.w, e.o, w, e.c, target, e.bound)
    requires Rearranged(e, target, flex, w, flex', current', left')
    ensures ListsInv(e, target + 1, flex', current', left', later)
  {
    PlacedIds(target, flex, flex', next, later);
    PlacedKept(e, target, flex, flex');
  }

  lemma DoneAfter(e: Env, target: nat, done: seq<Widget>, x: Index, had: map<WidgetId, Intent>, w: Widget, y: Index,
      now: map<WidgetId, Intent>)
    requires WellFormed(e.c) && target < |Kids(e.c)| && |done| == target && DoneInv(e, target, done, x, had)
    requires KidDone(w, e.c, target, e.depth, e.context, y, KidReplays(e.o, e.c, target))
    requires SameOutside(x, y, KidHashes(Kids(e.c)[target])) && now == had + Intents(w)
    ensures DoneInv(e, target + 1, done + [w], y, now)
  {
    ChildRecorded(e, target, done, w, x, y);
    IntentsOneMore(e.had, done, w);
  }

  lemma IntentsOneMore(had: map<WidgetId, Intent>, done: seq<Widget>, w: Widget)
    ensures had + IntentsOf(done + [w]) == had + IntentsOf(done) + Intents(w)
  {
    IntentsAppend(done, w);
    MapAssociative(had, IntentsOf(done), Intents(w));
  }

  /** The finished prefix and the indexes after child `target`. */
  lemma ChildRecorded(e: Env, target: nat, done: seq<Widget>, w: Widget, x: Index, y: Index)
    requires WellFormed(e.c) && target < |Kids(e.c)| && |done| == target
    requires ColumnDone(done, KidsReplay(e.o, e.c), e.c, e.depth, e.context, x)
    requires KidDone(w, e.c, target, e.depth, e.context, y, KidReplays(e.o, e.c, target))
    requires SameOutside(x, y, KidHashes(Kids(e.c)[target])) && SameOutside(e.start, x, Below(e.c.children))
    requires Untouched(e, target, x)
    ensures ColumnDone(done + [w], KidsReplay(e.o, e.c), e.c, e.depth, e.context, y)
    ensures SameOutside(e.start, y, Below(e.c.children))
    ensures Untouched(e, target + 1, y)
  {
    UntouchedNext(e, target, x, y);
    ColumnGrows(done, w, KidsReplay(e.o, e.c), e.c, e.depth, e.context, x, y);
    KidIsBelow(e.c, target);
    SameOutsideTrans(e.start, x, y, Below(e.c.children), KidHashes(Kids(e.c)[target]), Below(e.c.children));
  }

  lemma PlacedIds(target: nat, flex: seq<Widget>, flex': seq<Widget>, next: nat, later: nat)
    requires AllWithin(flex, next) && next <= later && target < |flex'| && target <= |flex|
    requires flex'[..target] == flex[..target] && IdsWithin(flex'[target], 0, later)
    requires forall j | target < j < |flex'| :: flex'[j] in flex
    ensures AllWithin(flex', later)
  {
    forall j | 0 <= j < |flex'|
      ensures IdsWithin(flex'[j], 0, later)
    {
      if j < target {
        assert flex'[j] == flex'[..target][j] == flex[..target][j] == flex[j];
        IdsWiden(flex[j], 0, next, 0, later);
      } else if j > target {
        var k :| 0 <= k < |flex| && flex[k] == flex'[j];
        IdsWiden(flex[k], 0, next, 0, later);
      }
    }
  }

  lemma PlacedKept(e: Env, target: nat, flex: seq<Widget>, flex': seq<Widget>)
    requires target < |Kids(e.c)| && AllKept(e, flex, target)
    requires target < |flex'| && flex'[..target] == flex[..target]
    requires KidKept(e.w, e.o, flex'[target], e.c, target, e.bound)
    ensures AllKept(e, flex', target + 1)
  {
    forall j | 0 <= j < target
      ensures flex'[j] == flex[j]
    {
      assert flex'[j] == flex'[..target][j] == flex[..target][j];
    }
  }

  /** First branch: the surviving child is in place and was updated. */
  lemma PlaceKept(e: Env, target: nat, flex: seq<Widget>, current: seq<ChildKey>, left: seq<nat>, x: Index, next: nat,
      now: map<WidgetId, Intent>, w: Widget, y: Index, later: nat)
    requires EnvOk(e) && PlaceInv(e, target, flex, current, left, x, next, now)
    requires target < |Keys(e.c)| && target < |current| && current[target] == Keys(e.c)[target]
    requires Placed(e, target, w, x, y, next, later)
    ensures left != []
    ensures PlaceInv(e, target + 1, flex[target := w], current, left[1..], y, later, now + Intents(w))
  {
    KeepRearranges(e, target, flex, current, left, w);
    PlaceChild(e, target, flex, current, left, x, next, now, w, y, later, flex[target := w], current, left[1..],
               now + Intents(w));
  }

  lemma KeepRearranges(e: Env, target: nat, flex: seq<Widget>, current: seq<ChildKey>, left: seq<nat>, w: Widget)
    requires WellFormed(e.o) && WellFormed(e.c)
    requires DiffInv(Keys(e.o), Keys(e.c), target, current, left)
    requires |flex| == |current| && |e.w.children| == |Keys(e.o)|
    requires LeftAre(e, flex, target, left)
    requires target < |Keys(e.c)| && target < |current| && current[target] == Keys(e.c)[target]
    ensures left != [] && Rearranged(e, target, flex, w, flex[target := w], current, left[1..])
  {
    KeysDistinct(e.o);
    KeysDistinct(e.c);
    DiffKeep(Keys(e.o), Keys(e.c), target, current, left);
    KeptList(flex, target, w);
    KeptChildren(e, flex, target, left, w);
  }

  lemma KeptList(flex: seq<Widget>, target: nat, w: Widget)
    requires target < |flex|
    ensures var next := flex[target := w];
            && next[..target] == flex[..target] && next[target] == w
            && forall j | target < j < |next| :: next[j] in flex
  {
  }

  lemma KeptChildren(e: Env, flex: seq<Widget>, target: nat, left: seq<nat>, w: Widget)
    requires LeftAre(e, flex, target, left) && left != []
    ensures LeftAre(e, flex[target := w], target + 1, left[1..])
  {
    var rest := left[1..];
    forall j | 0 <= j < |rest|
      ensures rest[j] == left[j + 1] && flex[target := w][target + 1 + j] == flex[target + (j + 1)]
    {
    }
  }

  /** The state of the pass once the built child is put in, wherever its key was
      found. */
  ghost predicate PutIn(e: Env, target: nat, flex: seq<Widget>, current: seq<ChildKey>, left: seq<nat>,
      w: Widget, y: Index, later: nat, now: map<WidgetId, Intent>, found: Option<nat>)
    requires target < |Keys(e.c)|
  {
    && |flex| == |current| && FitsPut(current, target, found)
    && (found.Some? ==> found.value - target < |left|)
    && PlaceInv(e, target + 1, Put(flex, target, found, w), Put(current, target, found, Keys(e.c)[target]),
                LeftAfter(left, target, found), y, later, now)
  }

  /** Second branch: the surviving child is further on; a fresh one replaces it. */
  lemma PlaceMoved(e: Env, target: nat, flex: seq<Widget>, current: seq<ChildKey>, left: seq<nat>, x: Index, next: nat,
      had: map<WidgetId, Intent>, from: nat, w: Widget, y: Index, later: nat, now: map<WidgetId, Intent>)
    requires EnvOk(e) && PlaceInv(e, target, flex, current, left, x, next, had)
    requires now == had + Intents(w)
    requires target < |Keys(e.c)| && target < from < |current|
    requires Keys(e.o)[left[from - target]] == Keys(e.c)[target]
    requires Placed(e, target, w, x, y, next, later)
    ensures PutIn(e, target, flex, current, left, w, y, later, now, Some(from))
  {
    MoveRearranges(e, target, flex, current, left, from, w);
    PlaceChild(e, target, flex, current, left, x, next, had, w, y, later, Put(flex, target, Some(from), w),
               Put(current, target, Some(from), Keys(e.c)[target]), LeftAfter(left, target, Some(from)), now);
  }

  lemma MoveRearranges(e: Env, target: nat, flex: seq<Widget>, current: seq<ChildKey>, left: seq<nat>, from: nat, w: Widget)
    requires WellFormed(e.o) && WellFormed(e.c)
    requires DiffInv(Keys(e.o), Keys(e.c), target, current, left)
    requires |flex| == |current| && |e.w.children| == |Keys(e.o)|
    requires LeftAre(e, flex, target, left)
    requires target < |Keys(e.c)| && target < from < |current|
    requires Keys(e.o)[left[from - target]] == Keys(e.c)[target]
    ensures Rearranged(e, target, flex, w, Put(flex, target, Some(from), w),
                       Put(current, target, Some(from), Keys(e.c)[target]), LeftAfter(left, target, Some(from)))
  {
    KeysDistinct(e.o);
    KeysDistinct(e.c);
    DiffMove(Keys(e.o), Keys(e.c), target, current, left, from);
    MovedList(flex, from, target, w);
    MovedChildren(e.w.children, flex, left, target, from, w);
  }

  lemma MovedList(flex: seq<Widget>, from: nat, target: nat, w: Widget)
    requires target < from < |flex|
    ensures var next := Put(flex, target, Some(from), w);
            && |next| == |flex| && next[..target] == flex[..target] && next[target] == w
            && forall j | target < j < |next| :: next[j] in flex
  {
    MovedMeaning(flex, from, target, w);
  }

  lemma MovedChildren(was: seq<Widget>, flex: seq<Widget>, left: seq<nat>, target: nat, from: nat, w: Widget)
    requires target < from < |flex| && |flex| == target + |left|
    requires forall j | 0 <= j < |left| :: left[j] < |was| && flex[target + j] == was[left[j]]
    ensures var next, rest := Put(flex, target, Some(from), w), LeftAfter(left, target, Some(from));
            forall j | 0 <= j < |rest| :: rest[j] < |was| && next[target + 1 + j] == was[rest[j]]
  {
    var next, rest := Moved(flex, from, target, w), Drop(left, from - target);
    MovedMeaning(flex, from, target, w);
    forall j | 0 <= j < |rest|
      ensures rest[j] < |was| && next[target + 1 + j] == was[rest[j]]
    {
      var k := if j < from - target then j else j + 1;
      assert rest[j] == left[k] && next[target + 1 + j] == flex[target + k];
    }
  }

  /** Third branch: the child is new. */
  lemma PlaceNew(e: Env, target: nat, flex: seq<Widget>, current: seq<ChildKey>, left: seq<nat>, x: Index, next: nat,
      had: map<WidgetId, Intent>, w: Widget, y: Index, later: nat, now: map<WidgetId, Intent>)
    requires EnvOk(e) && PlaceInv(e, target, flex, current, left, x, next, had)
    requires now == had + Intents(w)
    requires target < |Keys(e.c)| && Keys(e.c)[target] !in current
    requires Placed(e, target, w, x, y, next, later)
    ensures PutIn(e, target, flex, current, left, w, y, later, now, None)
  {
    InsertRearranges(e, target, flex, current, left, w);
    PlaceChild(e, target, flex, current, left, x, next, had, w, y, later, Put(flex, target, None, w),
               Put(current, target, None, Keys(e.c)[target]), LeftAfter(left, target, None), now);
  }

  lemma InsertRearranges(e: Env, target: nat, flex: seq<Widget>, current: seq<ChildKey>, left: seq<nat>, w: Widget)
    requires WellFormed(e.o) && WellFormed(e.c)
    requires DiffInv(Keys(e.o), Keys(e.c), target, current, left)
    requires |flex| == |current| && |e.w.children| == |Keys(e.o)|
    requires LeftAre(e, flex, target, left)
    requires target < |Keys(e.c)| && Keys(e.c)[target] !in current
    ensures Rearranged(e, target, flex, w, Put(flex, target, None, w),
                       Put(current, target, None, Keys(e.c)[target]), LeftAfter(left, target, None))
  {
    KeysDistinct(e.o);
    KeysDistinct(e.c);
    DiffInsert(Keys(e.o), Keys(e.c), target, current, left);
    InsertedMeaning(flex, target, w);
    forall j | 0 <= j < |left|
      ensures Inserted(flex, target, w)[target + 1 + j] == e.w.children[left[j]]
    {
      assert Inserted(flex, target, w)[target + 1 + j] == flex[target + j];
    }
  }

  /** The state in which the placement pass starts. */
  lemma PlaceStart(e: Env, flex: seq<Widget>, current: seq<ChildKey>, left: seq<nat>, next: nat)
    requires EnvOk(e) && AllWithin(e.w.children, next) && e.bound <= next
    requires left == Surviving(Keys(e.o), Keys(e.c), 0)
    requires current == Pick(Keys(e.o), left) && |e.w.children| == |Keys(e.o)| && flex == Pick(e.w.children, left)
    ensures PlaceInv(e, 0, flex, current, left, e.start, next, e.had)
  {
    DiffStart(Keys(e.o), Keys(e.c));
    assert e.had + IntentsOf(flex[..0]) == e.had;
    forall j | 0 <= j < |Kids(e.c)|
      ensures AgreeOn(e.base, e.start, KidHashes(Kids(e.c)[j]))
    {
      KidIsBelow(e.c, j);
      assert forall h | h in KidHashes(Kids(e.c)[j]) :: h in All(e.c);
    }
  }

  /** What the placement pass leaves. */
  lemma PlaceEnd(e: Env, flex: seq<Widget>, current: seq<ChildKey>, left: seq<nat>, x: Index, next: nat,
      now: map<WidgetId, Intent>)
    requires EnvOk(e) && PlaceInv(e, |Keys(e.c)|, flex, current, left, x, next, now)
    ensures |flex| == |Kids(e.c)| && current == Keys(e.c)
    ensures Finished(e, flex, x, next) && now == e.had + IntentsOf(flex)
  {
    DiffDone(Keys(e.o), Keys(e.c), current, left);
    assert flex[..|Keys(e.c)|] == flex;
  }

  /** The state in which an update of an unchanged list starts. */
  lemma KeepAllStart(e: Env, keys: seq<ChildKey>, next: nat) returns (left: seq<nat>)
    requires EnvOk(e) && AllWithin(e.w.children, next) && e.bound <= next
    requires keys == Keys(e.o) == Keys(e.c)
    ensures PlaceInv(e, 0, e.w.children, keys, left, e.start, next, e.had)
  {
    left := Surviving(keys, keys, 0);
    PruneNothing(keys, keys);
    PruneNothing(keys, e.w.children);
    PlaceStart(e, e.w.children, keys, left, next);
  }

  /** The old key list of the parent is what its index entry says. */
  lemma OldKeys(e: Env)
    requires EnvOk(e)
    ensures e.c.hash in e.start.keys && e.start.keys[e.c.hash] == Keys(e.o)
    ensures e.c.hash in e.start.pods && e.start.pods[e.c.hash] == PodRecord(e.w.id, e.c.kind)
    ensures |e.w.children| == |Keys(e.o)|
  {
    assert e.c.hash in All(e.c) && SameAt(e.base, e.start, e.c.hash);
  }

  /** What is known of a surviving child before its update. */
  lemma OldKid(e: Env, p: nat, target: nat)
    requires EnvOk(e) && p < |Keys(e.o)| && target < |Keys(e.c)| && Keys(e.o)[p] == Keys(e.c)[target]
    ensures |e.w.children| == |Keys(e.o)|
    ensures ShowsKid(e.w.children[p], e.o, Kids(e.o)[p], KidDepth(e.c, Keys(e.c)[target], e.depth), e.before)
    ensures IndexedKid(e.w.children[p], Kids(e.o)[p], e.base)
    ensures Kids(e.o)[p].ChildKid? ==>
              && Kids(e.c)[target].ChildKid?
              && WellFormed(Kids(e.o)[p].component) && WellFormed(Kids(e.c)[target].component)
              && Kids(e.o)[p].component.kind == Kids(e.c)[target].component.kind
              && Kids(e.o)[p].component.hash == Kids(e.c)[target].component.hash
    ensures Kids(e.o)[p].TitleKid? <==> Kids(e.c)[target].TitleKid?
    ensures Kids(e.o)[p].RowKid? <==> Kids(e.c)[target].RowKid?
  {
    KidIsBelow(e.o, p);
    KidIsBelow(e.c, target);
    assert KeyOf(Kids(e.o)[p]) == Keys(e.o)[p] && KeyOf(Kids(e.c)[target]) == Keys(e.c)[target];
  }

  lemma FreshKid(e: Env, target: nat, w: Widget)
    requires target < |Keys(e.c)| && |e.w.children| == |Keys(e.o)| && IsFresh(w, e.c, target, e.bound)
    requires forall i | 0 <= i < |Keys(e.o)| && Keys(e.o)[i] == Keys(e.c)[target] :: !Stays(Keys(e.o), Keys(e.c), i, target)
    ensures KidKept(e.w, e.o, w, e.c, target, e.bound) && KidReplays(e.o, e.c, target)
  {
  }

  lemma SurvivingKid(e: Env, target: nat, p: nat, w: Widget)
    requires WellFormed(e.o) && target < |Keys(e.c)| && p < |Keys(e.o)| && |e.w.children| == |Keys(e.o)|
    requires Keys(e.o)[p] == Keys(e.c)[target] && Stays(Keys(e.o), Keys(e.c), p, target)
    requires if Kids(e.o)[p].ChildKid? && Kids(e.c)[target].ChildKid? then
               Kept(e.w.children[p], Kids(e.o)[p].component, w, Kids(e.c)[target].component, e.bound)
             else w == e.w.children[p].(body := w.body)
    ensures KidKept(e.w, e.o, w, e.c, target, e.bound)
    ensures KidReplays(e.o, e.c, target) <==> KidReplaysAt(e.o, p, e.c, target)
  {
    KeysDistinct(e.o);
    assert Keys(e.o)[p] in Keys(e.o);
    assert forall i | 0 <= i < |Keys(e.o)| && Keys(e.o)[i] == Keys(e.c)[target] :: i == p;
  }

  /** `KeepTarget` after its update. */
  lemma KeptIsPlaced(e: Env, target: nat, flex: seq<Widget>, current: seq<ChildKey>, left: seq<nat>, x: Index, next: nat,
      had: map<WidgetId, Intent>, w: Widget, y: Index, later: nat, now: map<WidgetId, Intent>)
    requires EnvOk(e) && PlaceInv(e, target, flex, current, left, x, next, had) && next <= later
    requires target < |Keys(e.c)| && target < |current| && current[target] == Keys(e.c)[target]
    requires left != [] && left[0] < |Keys(e.o)| && Keys(e.o)[left[0]] == Keys(e.c)[target]
    requires Stays(Keys(e.o), Keys(e.c), left[0], target)
    requires KidReconciled(e, left[0], target, w, x, y, later, had, now)
    ensures PlaceInv(e, target + 1, flex[target := w], current, left[1..], y, later, now)
  {
    SurvivingKid(e, target, left[0], w);
    PlaceKept(e, target, flex, current, left, x, next, had, w, y, later);
  }

  // ------------------------------------------------------------ finishing a widget

  /** The commit intent of a widget built or updated from `c`. */
  lemma OwnIntents(c: Component, w: Widget, depth: nat, context: Context)
    requires if c.kind.TextInput? then w.body == BuiltBody(c, depth, context) else !w.body.InputBody?
    requires LocalFits(w.local, c.kind) && |w.children| == |Kids(c)|
    ensures Intents(w) ==
            if c.kind.TextInput? && !c.disabled then map[w.local.area := w.body.intent.value] else IntentsOf(w.children)
    ensures c.kind.TextInput? ==> w.children == [] && w.local.InputState?
  {
    if c.kind.TextInput? {
      assert w.children == [];
    }
    assert map[] + IntentsOf(w.children) == IntentsOf(w.children);
  }

  /** A component whose column is finished is indexed once it is recorded, and rendered
      exactly if its body and its children are. */
  lemma RecordedIsDone(w: Widget, shown: seq<bool>, c: Component, depth: nat, context: Context, x: Index, y: Index)
    requires WellFormed(c) && LocalFits(w.local, c.kind)
    requires |w.children| == |Kids(c)| && ColumnDone(w.children, shown, c, depth, context, x)
    requires c.hash in y.pods && y.pods[c.hash] == PodRecord(w.id, c.kind)
    requires c.hash in y.keys && y.keys[c.hash] == Keys(c)
    requires SameOutside(x, y, {c.hash})
    ensures Indexed(w, c, y)
    ensures Shows(w, c, depth, context) <==>
            w.body == BuiltBody(c, depth, context) && forall i | 0 <= i < |Kids(c)| :: shown[i]
  {
    forall i | 0 <= i < |w.children|
      ensures ShowsKid(w.children[i], c, Kids(c)[i], KidDepth(c, KeyOf(Kids(c)[i]), depth), context) <==> shown[i]
      ensures Kids(c)[i].ChildKid? ==> Indexed(w.children[i], Kids(c)[i].component, y)
    {
      assert KidDone(w.children[i], c, i, depth, context, x, shown[i]);
      if Kids(c)[i].ChildKid? {
        KidIsBelow(c, i);
        assert c.hash !in KidHashes(Kids(c)[i]);
        assert AgreeOn(x, y, All(Kids(c)[i].component));
        IndexedFrame(w.children[i], Kids(c)[i].component, x, y);
      }
    }
  }

  lemma WidenAll(ws: seq<Widget>, low: nat, high: nat, high': nat)
    requires high <= high' && forall i | 0 <= i < |ws| :: IdsWithin(ws[i], low, high)
    ensures forall i | 0 <= i < |ws| :: IdsWithin(ws[i], low, high')
  {
    forall i | 0 <= i < |ws|
      ensures IdsWithin(ws[i], low, high')
    {
      IdsWiden(ws[i], low, high, low, high');
    }
  }

  /** The column is finished: rendered, indexed and with the right identities. */
  ghost predicate Finished(e: Env, flex: seq<Widget>, x: Index, next: nat) {
    && |flex| == |Kids(e.c)| && |e.w.children| == |Kids(e.o)|
    && ColumnDone(flex, KidsReplay(e.o, e.c), e.c, e.depth, e.context, x)
    && (forall j | 0 <= j < |flex| :: KidKept(e.w, e.o, flex[j], e.c, j, e.bound))
    && SameOutside(e.start, x, Below(e.c.children))
    && AllWithin(flex, next)
  }

  /** What updating the widget of `o` in place to `c` achieves. */
  ghost predicate Reconciled(w: Widget, o: Component, w': Widget, c: Component, depth: nat, context: Context,
      x: Index, y: Index, next: nat, bound: nat, had: map<WidgetId, Intent>, now: map<WidgetId, Intent>) {
    && (Shows(w', c, depth, context) <==> Replays(o, c))
    && Indexed(w', c, y)
    && SameOutside(x, y, All(c))
    && IdsWithin(w', 0, next)
    && Kept(w, o, w', c, bound)
    && now == had + Intents(w')
  }

  /** What updating a surviving child in place achieves. */
  ghost predicate KidReconciled(e: Env, p: nat, target: nat, w': Widget, x: Index, y: Index, next: nat,
      had: map<WidgetId, Intent>, now: map<WidgetId, Intent>)
    requires p < |Kids(e.o)| && target < |Kids(e.c)| && |e.w.children| == |Kids(e.o)|
  {
    && KidDone(w', e.c, target, e.depth, e.context, y, KidReplaysAt(e.o, p, e.c, target))
    && SameOutside(x, y, KidHashes(Kids(e.c)[target]))
    && IdsWithin(w', 0, next)
    && now == had + Intents(w')
    && if Kids(e.o)[p].ChildKid? && Kids(e.c)[target].ChildKid? then
         Kept(e.w.children[p], Kids(e.o)[p].component, w', Kids(e.c)[target].component, e.bound)
       else w' == e.w.children[p].(body := w'.body)
  }

  /** The state in which a surviving child is updated. */
  ghost predicate KidBefore(e: Env, p: nat, target: nat, child: Widget, depth: nat, x: Index, next: nat) {
    && EnvOk(e) && Untouched(e, target, x)
    && p < |Keys(e.o)| && target < |Keys(e.c)| && Keys(e.o)[p] == Keys(e.c)[target]
    && |e.w.children| == |Keys(e.o)| && child == e.w.children[p]
    && depth == KidDepth(e.c, Keys(e.c)[target], e.depth)
    && IdsWithin(child, 0, next) && e.bound <= next
  }

  /** The column is finished and its keys are recorded. */
  ghost predicate ColumnReady(e: Env, flex: seq<Widget>, x: Index, next: nat, now: map<WidgetId, Intent>) {
    && |flex| == |Kids(e.c)| && |e.w.children| == |Kids(e.o)|
    && ColumnDone(flex, KidsReplay(e.o, e.c), e.c, e.depth, e.context, x)
    && (forall j | 0 <= j < |flex| :: KidKept(e.w, e.o, flex[j], e.c, j, e.bound))
    && SameOutside(e.start, x, All(e.c))
    && e.c.hash in x.pods && e.c.hash in e.start.pods && x.pods[e.c.hash] == e.start.pods[e.c.hash]
    && e.c.hash in x.keys && x.keys[e.c.hash] == Keys(e.c)
    && AllWithin(flex, next)
    && now == e.had + IntentsOf(flex)
  }

  lemma FinishedIsReady(e: Env, flex: seq<Widget>, x: Index, y: Index, next: nat, now: map<WidgetId, Intent>)
    requires EnvOk(e) && Finished(e, flex, x, next) && now == e.had + IntentsOf(flex)
    requires y.pods == x.pods
    requires y.keys == x.keys[e.c.hash := Keys(e.c)] || (y.keys == x.keys && Keys(e.o) == Keys(e.c))
    ensures ColumnReady(e, flex, y, next, now)
  {
    RecordKeys(e, flex, x, y);
  }

  /** Recording the parent's new keys after its column is finished. */
  lemma RecordKeys(e: Env, flex: seq<Widget>, x: Index, y: Index)
    requires EnvOk(e) && |flex| == |Kids(e.c)| && ColumnDone(flex, KidsReplay(e.o, e.c), e.c, e.depth, e.context, x)
    requires SameOutside(e.start, x, Below(e.c.children))
    requires y.pods == x.pods
    requires y.keys == x.keys[e.c.hash := Keys(e.c)] || (y.keys == x.keys && Keys(e.o) == Keys(e.c))
    ensures ColumnDone(flex, KidsReplay(e.o, e.c), e.c, e.depth, e.context, y)
    ensures SameOutside(e.start, y, All(e.c))
    ensures e.c.hash in y.pods && e.c.hash in e.start.pods && y.pods[e.c.hash] == e.start.pods[e.c.hash]
    ensures e.c.hash in y.keys && y.keys[e.c.hash] == Keys(e.c)
  {
    OldKeys(e);
    assert SameAt(e.start, x, e.c.hash);
    assert SameOutside(x, y, {e.c.hash});
    SameOutsideTrans(e.start, x, y, Below(e.c.children), {e.c.hash}, All(e.c));
    forall i | 0 <= i < |flex|
      ensures KidDone(flex[i], e.c, i, e.depth, e.context, y, KidReplays(e.o, e.c, i))
    {
      assert KidDone(flex[i], e.c, i, e.depth, e.context, x, KidsReplay(e.o, e.c)[i]);
      if Kids(e.c)[i].ChildKid? {
        KidIsBelow(e.c, i);
        assert AgreeOn(x, y, All(Kids(e.c)[i].component));
        IndexedFrame(flex[i], Kids(e.c)[i].component, x, y);
      }
    }
  }

  /** The old position of a child that is in place. */
  lemma KeptPosition(e: Env, target: nat, flex: seq<Widget>, current: seq<ChildKey>, left: seq<nat>, x: Index, next: nat,
      now: map<WidgetId, Intent>)
    requires EnvOk(e) && PlaceInv(e, target, flex, current, left, x, next, now)
    requires target < |Keys(e.c)| && target < |current| && current[target] == Keys(e.c)[target]
    ensures left != [] && left[0] < |Keys(e.o)| && Keys(e.o)[left[0]] == Keys(e.c)[target]
    ensures flex[target] == e.w.children[left[0]]
    ensures Stays(Keys(e.o), Keys(e.c), left[0], target)
  {
    KeysDistinct(e.o);
    KeysDistinct(e.c);
    DiffKeep(Keys(e.o), Keys(e.c), target, current, left);
    assert flex[target + 0] == e.w.children[left[0]];
  }

  /** The old position of a child that survives further on. */
  lemma MovedPosition(e: Env, target: nat, flex: seq<Widget>, current: seq<ChildKey>, left: seq<nat>, x: Index, next: nat,
      now: map<WidgetId, Intent>, from: nat)
    requires EnvOk(e) && PlaceInv(e, target, flex, current, left, x, next, now)
    requires target < |Keys(e.c)| && from < |current| && current[from] == Keys(e.c)[target]
    requires target < |current| ==> current[target] != Keys(e.c)[target]
    ensures target < from && left[from - target] < |Keys(e.o)|
    ensures Keys(e.o)[left[from - target]] == Keys(e.c)[target]
    ensures !Stays(Keys(e.o), Keys(e.c), left[from - target], target)
  {
    KeysDistinct(e.o);
    KeysDistinct(e.c);
    MoveFindsSurvivor(Keys(e.o), Keys(e.c), target, current, left, from);
  }

  lemma FreshMoved(e: Env, target: nat, p: nat, w: Widget)
    requires WellFormed(e.o) && target < |Keys(e.c)| && p < |Keys(e.o)| && |e.w.children| == |Keys(e.o)|
    requires Keys(e.o)[p] == Keys(e.c)[target] && !Stays(Keys(e.o), Keys(e.c), p, target)
    requires IsFresh(w, e.c, target, e.bound)
    ensures KidKept(e.w, e.o, w, e.c, target, e.bound) && KidReplays(e.o, e.c, target)
  {
    KeysDistinct(e.o);
    assert forall i | 0 <= i < |Keys(e.o)| && Keys(e.o)[i] == Keys(e.c)[target] :: i == p;
    FreshKid(e, target, w);
  }

  lemma FreshNew(e: Env, target: nat, flex: seq<Widget>, current: seq<ChildKey>, left: seq<nat>, x: Index, next: nat,
      now: map<WidgetId, Intent>, w: Widget)
    requires EnvOk(e) && PlaceInv(e, target, flex, current, left, x, next, now)
    requires target < |Keys(e.c)| && Keys(e.c)[target] !in current
    requires IsFresh(w, e.c, target, e.bound)
    ensures KidKept(e.w, e.o, w, e.c, target, e.bound) && KidReplays(e.o, e.c, target)
  {
    KeysDistinct(e.o);
    KeysDistinct(e.c);
    DiffInsert(Keys(e.o), Keys(e.c), target, current, left);
    assert forall i | 0 <= i < |Keys(e.o)| :: Keys(e.o)[i] in Keys(e.o);
    FreshKid(e, target, w);
  }

  // ------------------------------------------------------------- building afresh

  /** The state of `BuildColumn`'s loop. */
  ghost predicate ColumnInv(ws: seq<Widget>, c: Component, depth: nat, context: Context, start: Index, x: Index,
                            low: nat, next: nat, had: map<WidgetId, Intent>, now: map<WidgetId, Intent>) {
    && ColumnDone(ws, KidsBuilt(c), c, depth, context, x) && ColumnStarts(ws, c)
    && SameOutside(start, x, Below(c.children))
    && (forall i | 0 <= i < |ws| :: IdsWithin(ws[i], low, next))
    && low <= next
    && now == had + IntentsOf(ws)
  }

  /** The children built so far start afresh. */
  ghost predicate ColumnStarts(ws: seq<Widget>, c: Component) {
    |ws| <= |Kids(c)| && forall i | 0 <= i < |ws| :: KidStarts(ws[i], c, Kids(c)[i])
  }

  /** A fresh child: finished, recorded, with ids of its own. */
  ghost predicate BuiltKid(w: Widget, parent: Component, kid: Kid, depth: nat, context: Context, x: Index, y: Index,
                           next: nat, later: nat, had: map<WidgetId, Intent>, now: map<WidgetId, Intent>) {
    && ShowsKid(w, parent, kid, depth, context) && KidStarts(w, parent, kid) && IndexedKid(w, kid, y)
    && SameOutside(x, y, KidHashes(kid))
    && IdsWithin(w, next, later) && next <= later
    && now == had + Intents(w)
  }

  lemma ColumnStep(ws: seq<Widget>, w: Widget, c: Component, depth: nat, context: Context, start: Index, x: Index,
      y: Index, low: nat, next: nat, later: nat, had: map<WidgetId, Intent>, mid: map<WidgetId, Intent>,
      now: map<WidgetId, Intent>)
    requires WellFormed(c) && |ws| < |Kids(c)|
    requires ColumnInv(ws, c, depth, context, start, x, low, next, had, mid)
    requires var kid := Kids(c)[|ws|];
             BuiltKid(w, c, kid, KidDepth(c, KeyOf(kid), depth), context, x, y, next, later, mid, now)
    ensures ColumnInv(ws + [w], c, depth, context, start, y, low, later, had, now)
  {
    KidIsBelow(c, |ws|);
    ColumnGrows(ws, w, KidsBuilt(c), c, depth, context, x, y);
    SameOutsideTrans(start, x, y, Below(c.children), KidHashes(Kids(c)[|ws|]), Below(c.children));
    IntentsAppend(ws, w);
    MapAssociative(had, IntentsOf(ws), Intents(w));
    WidenAll(ws, low, next, later);
    IdsWiden(w, next, later, low, later);
  }

  lemma BuiltStarts(w: Widget, c: Component)
    requires IsStart(w.local, c) && |w.children| == |Kids(c)| && ColumnStarts(w.children, c)
    ensures Starts(w, c)
  {
  }

  lemma BuiltIsDone(w: Widget, c: Component, depth: nat, context: Context, start: Index, x: Index, y: Index,
      low: nat, next: nat, later: nat, had: map<WidgetId, Intent>, mid: map<WidgetId, Intent>)
    requires WellFormed(c) && w.body == BuiltBody(c, depth, context) && LocalFits(w.local, c.kind)
    requires |w.children| == |Kids(c)|
    requires ColumnInv(w.children, c, depth, context, start, x, low, next, had, mid)
    requires y == Record(x, c, w.id)
    requires next <= w.id < later && (w.local.InputState? ==> next <= w.local.area < later)
    ensures Shows(w, c, depth, context) && Indexed(w, c, y)
    ensures SameOutside(start, y, All(c))
    ensures IdsWithin(w, low, later)
    ensures (if c.kind.TextInput? && !c.disabled then mid[w.local.area := w.body.intent.value] else mid) == had + Intents(w)
  {
    RecordedIsDone(w, KidsBuilt(c), c, depth, context, x, y);
    BuiltOutside(start, x, y, c);
    WidenAll(w.children, low, next, later);
    BuiltIntents(w, c, depth, context, had, mid);
  }

  lemma BuiltOutside(start: Index, x: Index, y: Index, c: Component)
    requires SameOutside(start, x, Below(c.children)) && SameOutside(x, y, {c.hash})
    ensures SameOutside(start, y, All(c))
  {
    SameOutsideTrans(start, x, y, Below(c.children), {c.hash}, All(c));
  }

  lemma BuiltIntents(w: Widget, c: Component, depth: nat, context: Context, had: map<WidgetId, Intent>,
      mid: map<WidgetId, Intent>)
    requires w.body == BuiltBody(c, depth, context) && LocalFits(w.local, c.kind) && |w.children| == |Kids(c)|
    requires mid == had + IntentsOf(w.children)
    ensures (if c.kind.TextInput? && !c.disabled then mid[w.local.area := w.body.intent.value] else mid) == had + Intents(w)
  {
    OwnIntents(c, w, depth, context);
    assert IntentsOf([]) == map[];
  }

  /** What an in-place update makes of body and local state. */
  lemma UpdatedParts(e: Env, body: Body, local: Local)
    requires EnvOk(e)
    requires body == UpdatedBody(e.w.body, e.c, e.depth, e.context) && IsKept(e.w.body, e.w.local, e.c, local)
    ensures body == BuiltBody(e.c, e.depth, e.context) <==> Replayable(e.c)
    ensures if e.c.kind.TextInput? then body == BuiltBody(e.c, e.depth, e.context) else !body.InputBody?
    ensures LocalFits(local, e.c.kind)
    ensures local.InputState? ==> e.w.local.InputState? && local.area == e.w.local.area
  {
    UpdateAgreesWithBuild(e.o, e.c, e.depth, e.before, e.context);
  }

  lemma UpdatedShows(e: Env, w': Widget, x: Index)
    requires EnvOk(e) && w'.id == e.w.id && LocalFits(w'.local, e.c.kind)
    requires w'.body == BuiltBody(e.c, e.depth, e.context) <==> Replayable(e.c)
    requires |w'.children| == |Kids(e.c)| && ColumnDone(w'.children, KidsReplay(e.o, e.c), e.c, e.depth, e.context, x)
    requires e.c.hash in x.pods && x.pods[e.c.hash] == PodRecord(e.w.id, e.c.kind)
    requires e.c.hash in x.keys && x.keys[e.c.hash] == Keys(e.c)
    ensures (Shows(w', e.c, e.depth, e.context) <==> Replays(e.o, e.c)) && Indexed(w', e.c, x)
  {
    RecordedIsDone(w', KidsReplay(e.o, e.c), e.c, e.depth, e.context, x, x);
    assert forall j | 0 <= j < |Kids(e.c)| :: KidsReplay(e.o, e.c)[j] <==> KidReplays(e.o, e.c, j);
  }

  /** A survivor whose column is finished and whose records are in place. */
  lemma UpdatedIsDone(e: Env, w': Widget, x: Index, next: nat)
    requires EnvOk(e) && w'.id == e.w.id
    requires w'.body == UpdatedBody(e.w.body, e.c, e.depth, e.context)
    requires IsKept(e.w.body, e.w.local, e.c, w'.local)
    requires |w'.children| == |Kids(e.c)| && ColumnDone(w'.children, KidsReplay(e.o, e.c), e.c, e.depth, e.context, x)
    requires forall j | 0 <= j < |w'.children| :: KidKept(e.w, e.o, w'.children[j], e.c, j, e.bound)
    requires e.c.hash in x.pods && x.pods[e.c.hash] == PodRecord(e.w.id, e.c.kind)
    requires e.c.hash in x.keys && x.keys[e.c.hash] == Keys(e.c)
    requires IdsWithin(e.w, 0, next) && AllWithin(w'.children, next)
    ensures (Shows(w', e.c, e.depth, e.context) <==> Replays(e.o, e.c)) && Indexed(w', e.c, x)
    ensures IdsWithin(w', 0, next)
    ensures Kept(e.w, e.o, w', e.c, e.bound)
    ensures Intents(w') ==
            if e.c.kind.TextInput? && !e.c.disabled then map[w'.local.area := w'.body.intent.value]
            else IntentsOf(w'.children)
  {
    UpdatedParts(e, w'.body, w'.local);
    UpdatedShows(e, w', x);
    OwnIntents(e.c, w', e.depth, e.context);
  }

  /** A component without a column is ready at once. */
  lemma NoColumn(e: Env, next: nat)
    requires EnvOk(e) && IdsWithin(e.w, 0, next)
    requires !(HasColumn(e.c.kind) && HoldsColumn(e.w.body, e.c.kind))
    ensures ColumnReady(e, e.w.children, e.start, next, e.had)
  {
    OldKeys(e);
    assert e.w.children == [];
    assert e.had + IntentsOf([]) == e.had;
  }

  /** A widget whose column is ready is reconciled. */
  lemma ReadyIsReconciled(e: Env, w': Widget, x: Index, next: nat, mid: map<WidgetId, Intent>, now: map<WidgetId, Intent>)
    requires EnvOk(e) && w'.id == e.w.id && IdsWithin(e.w, 0, next)
    requires w'.body == UpdatedBody(e.w.body, e.c, e.depth, e.context)
    requires IsKept(e.w.body, e.w.local, e.c, w'.local)
    requires ColumnReady(e, w'.children, x, next, mid)
    requires now == if e.c.kind.TextInput? && w'.body.InputBody? && w'.local.InputState? && w'.body.intent.Some?
                    then mid[w'.local.area := w'.body.intent.value] else mid
    ensures Reconciled(e.w, e.o, w', e.c, e.depth, e.context, e.start, x, next, e.bound, e.had, now)
  {
    OldKeys(e);
    UpdatedParts(e, w'.body, w'.local);
    UpdatedIsDone(e, w', x, next);
    if e.c.kind.TextInput? {
      assert w'.children == [] && e.had + IntentsOf([]) == e.had;
    }
  }

  /** The pieces `KeepTarget` and `BuildTarget` hand to the placement lemmas. */
  lemma BuiltIsPlaced(e: Env, target: nat, w: Widget, x: Index, y: Index, next: nat, later: nat,
      had: map<WidgetId, Intent>, now: map<WidgetId, Intent>)
    requires EnvOk(e) && target < |Kids(e.c)| && |e.w.children| == |Kids(e.o)|
    requires var kid := Kids(e.c)[target];
             BuiltKid(w, e.c, kid, KidDepth(e.c, KeyOf(kid), e.depth), e.context, x, y, next, later, had, now)
    requires KidKept(e.w, e.o, w, e.c, target, e.bound) && KidReplays(e.o, e.c, target)
    ensures Placed(e, target, w, x, y, next, later)
  {
    IdsWiden(w, next, later, 0, later);
  }

  /** A child for position `target` was just built, its key not being in place. */
  ghost predicate JustBuilt(e: Env, target: nat, flex: seq<Widget>, current: seq<ChildKey>, left: seq<nat>, x: Index,
      next: nat, had: map<WidgetId, Intent>, w: Widget, y: Index, later: nat, now: map<WidgetId, Intent>) {
    && EnvOk(e) && PlaceInv(e, target, flex, current, left, x, next, had)
    && target < |Keys(e.c)| && (target < |current| ==> current[target] != Keys(e.c)[target])
    && var kid := Kids(e.c)[target];
       BuiltKid(w, e.c, kid, KidDepth(e.c, KeyOf(kid), e.depth), e.context, x, y, next, later, had, now)
  }

  lemma BuiltMovedIsPlaced(e: Env, target: nat, flex: seq<Widget>, current: seq<ChildKey>, left: seq<nat>, x: Index,
      next: nat, had: map<WidgetId, Intent>, w: Widget, y: Index, later: nat, now: map<WidgetId, Intent>, from: nat)
    requires JustBuilt(e, target, flex, current, left, x, next, had, w, y, later, now)
    requires from < |current| && current[from] == Keys(e.c)[target]
    ensures target < from && from - target < |left| && left[from - target] < |Keys(e.o)|
    ensures Keys(e.o)[left[from - target]] == Keys(e.c)[target]
    ensures |e.w.children| == |Kids(e.o)| && Placed(e, target, w, x, y, next, later)
    ensures now == had + Intents(w)
  {
    MovedPosition(e, target, flex, current, left, x, next, had, from);
    FreshMoved(e, target, left[from - target], w);
    BuiltIsPlaced(e, target, w, x, y, next, later, had, now);
  }

  lemma PlaceBuiltMoved(e: Env, target: nat, flex: seq<Widget>, current: seq<ChildKey>, left: seq<nat>, x: Index,
      next: nat, had: map<WidgetId, Intent>, w: Widget, y: Index, later: nat, now: map<WidgetId, Intent>, from: nat)
    requires JustBuilt(e, target, flex, current, left, x, next, had, w, y, later, now)
    requires from < |current| && current[from] == Keys(e.c)[target]
    ensures PutIn(e, target, flex, current, left, w, y, later, now, Some(from))
  {
    BuiltMovedIsPlaced(e, target, flex, current, left, x, next, had, w, y, later, now, from);
    PlaceMoved(e, target, flex, current, left, x, next, had, from, w, y, later, now);
  }

  lemma PlaceBuiltNew(e: Env, target: nat, flex: seq<Widget>, current: seq<ChildKey>, left: seq<nat>, x: Index,
      next: nat, had: map<WidgetId, Intent>, w: Widget, y: Index, later: nat, now: map<WidgetId, Intent>)
    requires JustBuilt(e, target, flex, current, left, x, next, had, w, y, later, now)
    requires Position(current, Keys(e.c)[target]).None?
    ensures PutIn(e, target, flex, current, left, w, y, later, now, Position(current, Keys(e.c)[target]))
  {
    FreshNew(e, target, flex, current, left, x, next, had, w);
    BuiltIsPlaced(e, target, w, x, y, next, later, had, now);
    PlaceNew(e, target, flex, current, left, x, next, had, w, y, later, now);
  }

  /** A child that was just built goes to its position. */
  lemma PlaceBuilt(e: Env, target: nat, flex: seq<Widget>, current: seq<ChildKey>, left: seq<nat>, x: Index,
      next: nat, had: map<WidgetId, Intent>, w: Widget, y: Index, later: nat, now: map<WidgetId, Intent>)
    requires JustBuilt(e, target, flex, current, left, x, next, had, w, y, later, now)
    ensures PutIn(e, target, flex, current, left, w, y, later, now, Position(current, Keys(e.c)[target]))
  {
    if Position(current, Keys(e.c)[target]).Some? {
      PlaceBuiltMoved(e, target, flex, current, left, x, next, had, w, y, later, now,
                      Position(current, Keys(e.c)[target]).value);
    } else {
      PlaceBuiltNew(e, target, flex, current, left, x, next, had, w, y, later, now);
    }
  }

  /** `BuildTarget` after its build: both lists take the child in, and the invariant
      holds of them. */
  lemma BuiltIsPut(e: Env, target: nat, flex: seq<Widget>, current: seq<ChildKey>, left: seq<nat>, x: Index,
      next: nat, had: map<WidgetId, Intent>, w: Widget, y: Index, later: nat, now: map<WidgetId, Intent>)
    returns (flex': seq<Widget>, current': seq<ChildKey>, left': seq<nat>)
    requires JustBuilt(e, target, flex, current, left, x, next, had, w, y, later, now)
    ensures var found := Position(current, Keys(e.c)[target]);
            && (found.Some? ==> found.value < |flex|)
            && PutFound(flex, target, found, w) == Some(flex')
            && PutFound(current, target, found, Keys(e.c)[target]) == Some(current')
    ensures PlaceInv(e, target + 1, flex', current', left', y, later, now)
  {
    var found := Position(current, Keys(e.c)[target]);
    PlaceBuilt(e, target, flex, current, left, x, next, had, w, y, later, now);
    PutFoundPuts(flex, target, found, w);
    PutFoundPuts(current, target, found, Keys(e.c)[target]);
    flex', current' := Put(flex, target, found, w), Put(current, target, found, Keys(e.c)[target]);
    left' := LeftAfter(left, target, found);
  }

  lemma SameLength(e: Env, target: nat, flex: seq<Widget>, current: seq<ChildKey>, left: seq<nat>, x: Index, next: nat,
      now: map<WidgetId, Intent>)
    requires PlaceInv(e, target, flex, current, left, x, next, now)
    ensures |flex| == |current|
  {
  }

  /** A surviving component that was reconciled. */
  lemma ComponentReconciled(e: Env, p: nat, target: nat, child: Widget, depth: nat, w': Widget, x: Index, y: Index,
      next: nat, later: nat, had: map<WidgetId, Intent>, now: map<WidgetId, Intent>)
    requires KidBefore(e, p, target, child, depth, x, next)
    requires Kids(e.o)[p].ChildKid? && Kids(e.c)[target].ChildKid?
    requires Reconciled(child, Kids(e.o)[p].component, w', Kids(e.c)[target].component, depth, e.context, x, y, later,
                        e.bound, had, now)
    ensures KidReconciled(e, p, target, w', x, y, later, had, now)
  {
  }

  /** A surviving title or row that was updated. */
  lemma LeafReconciled(e: Env, p: nat, target: nat, child: Widget, depth: nat, body: Body, x: Index, next: nat,
      had: map<WidgetId, Intent>)
    requires KidBefore(e, p, target, child, depth, x, next)
    requires match Kids(e.c)[target]
             case ChildKid(_) => false
             case TitleKid => body == if child.body.LeafBody? then TitleBody(e.c, depth, e.context) else child.body
             case RowKid(item) => body == if child.body.RowBody? then RowFrom(e.c, item, depth, e.context) else child.body
    ensures KidReconciled(e, p, target, child.(body := body), x, x, next, had, had)
  {
    OldKid(e, p, target);
    assert child.children == [] && map[] + IntentsOf([]) == map[];
    assert had + map[] == had;
  }
}
