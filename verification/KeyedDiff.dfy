/** The keyed child-list diff of `reconcile_flex_children`
    (src/masonry_package_region.rs), on keys alone.

    `before` is the old key list and `after` the new one.  While the loop stands at
    position `target`, the working list is the new prefix followed by the old
    children still to be placed, in their old order; `left` lists their old
    positions. */
module KeyedDiff {
  import opened Wrappers
  import opened Sequences

  ghost predicate Increasing(s: seq<nat>) {
    forall i, j | 0 <= i < j < |s| :: s[i] < s[j]
  }

  /** Among the first `n` old positions, `left` has those whose keys are wanted. */
  predicate Selects<T(==)>(before: seq<T>, wanted: seq<T>, left: seq<nat>, n: nat)
    requires n <= |before|
  {
    n == 0 || (Selects(before, wanted, left, n - 1) && (n - 1 in left <==> before[n - 1] in wanted))
  }

  /** The old positions whose keys are still wanted from `target` on. */
  ghost predicate StillWanted<T(!new)>(before: seq<T>, after: seq<T>, target: nat, left: seq<nat>)
    requires target <= |after|
  {
    Selects(before, after[target..], left, |before|)
  }

  lemma {:induction false} SelectedAt<T(!new)>(before: seq<T>, wanted: seq<T>, left: seq<nat>, n: nat, p: nat)
    requires p < n <= |before| && Selects(before, wanted, left, n)
    ensures p in left <==> before[p] in wanted
  {
    if p < n - 1 {
      SelectedAt(before, wanted, left, n - 1, p);
    }
  }

  lemma {:induction false} SelectsFrom<T(!new)>(before: seq<T>, wanted: seq<T>, left: seq<nat>, n: nat)
    requires n <= |before| && forall p | 0 <= p < n :: p in left <==> before[p] in wanted
    ensures Selects(before, wanted, left, n)
  {
    if n > 0 {
      SelectsFrom(before, wanted, left, n - 1);
    }
  }

  lemma WantedMeans<T(!new)>(before: seq<T>, after: seq<T>, target: nat, left: seq<nat>)
    requires target <= |after| && forall j | 0 <= j < |left| :: left[j] < |before|
    ensures StillWanted(before, after, target, left) <==>
            forall p :: p in left <==> 0 <= p < |before| && before[p] in after[target..]
  {
    if StillWanted(before, after, target, left) {
      forall p
        ensures p in left <==> 0 <= p < |before| && before[p] in after[target..]
      {
        if 0 <= p < |before| {
          SelectedAt(before, after[target..], left, |before|, p);
        }
      }
    }
    if forall p :: p in left <==> 0 <= p < |before| && before[p] in after[target..] {
      SelectsFrom(before, after[target..], left, |before|);
    }
  }

  ghost predicate DiffInv<T(!new)>(before: seq<T>, after: seq<T>, target: nat, current: seq<T>, left: seq<nat>) {
    && target <= |after|
    && |current| == target + |left|
    && current[..target] == after[..target]
    && Increasing(left)
    && StillWanted(before, after, target, left)
    && forall j | 0 <= j < |left| :: left[j] < |before| && current[target + j] == before[left[j]]
  }

  /** A surviving child stays in place when every survivor ahead of it in the old
      list is also ahead of it in the new one. */
  ghost predicate Stays<T(!new)>(before: seq<T>, after: seq<T>, p: nat, target: nat)
    requires p < |before| && target < |after|
  {
    forall q | 0 <= q < p && before[q] in after :: before[q] in after[..target]
  }

  // ------------------------------------------------------------- removal pass

  /** The old positions from `from` on whose keys survive. */
  function Surviving<T(==)>(before: seq<T>, after: seq<T>, from: nat): (left: seq<nat>)
    requires from <= |before|
    ensures forall j | 0 <= j < |left| :: from <= left[j] < |before|
    decreases |before| - from
  {
    if from == |before| then []
    else (if before[from] in after then [from] else []) + Surviving(before, after, from + 1)
  }

  lemma IncreasingCons(first: nat, rest: seq<nat>)
    requires Increasing(rest) && forall j | 0 <= j < |rest| :: first < rest[j]
    ensures Increasing([first] + rest)
  {
  }

  lemma MemberCons(first: nat, rest: seq<nat>, p: int)
    ensures p in [first] + rest <==> p == first || p in rest
  {
  }

  lemma {:induction false} SurvivingIncreases<T(!new)>(before: seq<T>, after: seq<T>, from: nat)
    requires from <= |before|
    ensures Increasing(Surviving(before, after, from))
    decreases |before| - from
  {
    if from < |before| {
      SurvivingIncreases(before, after, from + 1);
      SurvivingStep(before, after, from);
      IncreasingCons(from, Surviving(before, after, from + 1));
    }
  }

  lemma {:induction false} SurvivingMember<T>(before: seq<T>, after: seq<T>, from: nat, p: int)
    requires from <= |before|
    ensures p in Surviving(before, after, from) <==> from <= p < |before| && before[p] in after
    decreases |before| - from
  {
    if from < |before| {
      SurvivingMember(before, after, from + 1, p);
      SurvivingStep(before, after, from);
      MemberCons(from, Surviving(before, after, from + 1), p);
    }
  }

  lemma SurvivingMeaning<T(!new)>(before: seq<T>, after: seq<T>)
    ensures Increasing(Surviving(before, after, 0))
    ensures forall p :: p in Surviving(before, after, 0) <==> 0 <= p < |before| && before[p] in after
  {
    SurvivingIncreases(before, after, 0);
    forall p
      ensures p in Surviving(before, after, 0) <==> 0 <= p < |before| && before[p] in after
    {
      SurvivingMember(before, after, 0, p);
    }
  }

  /** The elements of `s` at the given positions. */
  function Pick<T>(s: seq<T>, positions: seq<nat>): (picked: seq<T>)
    requires forall j | 0 <= j < |positions| :: positions[j] < |s|
    ensures |picked| == |positions|
    ensures forall j | 0 <= j < |positions| :: picked[j] == s[positions[j]]
  {
    seq(|positions|, j requires 0 <= j < |positions| => s[positions[j]])
  }

  /** One position of the removal pass, on one of the parallel lists: the element
      at `i` stays or goes. */
  lemma PruneRound<T>(s: seq<T>, i: nat, left: seq<nat>)
    requires i < |s| && forall j | 0 <= j < |left| :: left[j] < |s|
    ensures var working := s[..i + 1] + Pick(s, left);
            && working == s[..i] + Pick(s, [i] + left)
            && working[..i] + working[i + 1..] == s[..i] + Pick(s, left)
  {
    assert Pick(s, [i] + left) == [s[i]] + Pick(s, left);
  }

  /** The removal pass has come down to position `i`. */
  ghost predicate Pruned<T(!new)>(list: seq<T>, i: nat, left: seq<nat>, working: seq<T>) {
    && i <= |list| && (forall j | 0 <= j < |left| :: left[j] < |list|)
    && working == list[..i] + Pick(list, left)
  }

  lemma PruneKeeps<T(!new)>(list: seq<T>, i: nat, left: seq<nat>, working: seq<T>)
    requires Pruned(list, i + 1, left, working)
    ensures Pruned(list, i, [i] + left, working)
  {
    PruneRound(list, i, left);
  }

  lemma PruneDrops<T(!new)>(list: seq<T>, i: nat, left: seq<nat>, working: seq<T>)
    requires Pruned(list, i + 1, left, working)
    ensures i < |working| && Pruned(list, i, left, working[..i] + working[i + 1..])
  {
    PruneRound(list, i, left);
  }

  /** With nothing to keep, the pass has taken the children from `i` to `n` away; it
      stops at once when there are fewer than `n`. */
  ghost predicate FrontPruned<W(!new)>(n: nat, children: seq<W>, i: nat, kept: seq<W>) {
    i <= n && kept == if n <= |children| then children[..i] + children[n..] else children
  }

  lemma FrontPrunedStart<W(!new)>(n: nat, children: seq<W>)
    ensures FrontPruned(n, children, n, children)
  {
    if n <= |children| {
      assert children == children[..n] + children[n..];
    }
  }

  lemma FrontPrunedStep<W(!new)>(n: nat, children: seq<W>, i: nat, kept: seq<W>)
    requires FrontPruned(n, children, i + 1, kept) && n <= |children|
    ensures i < |kept| && FrontPruned(n, children, i, kept[..i] + kept[i + 1..])
  {
    assert kept[..i] + kept[i + 1..] == children[..i] + children[n..];
  }

  lemma FrontPrunedEnd<W(!new)>(n: nat, children: seq<W>, kept: seq<W>)
    requires FrontPruned(n, children, 0, kept) && n <= |children|
    ensures kept == children[n..]
  {
  }

  /** The downward removal pass over the keys and the children of a column; it fails
      when a child to be removed is not there, which cannot happen on parallel lists. */
  method Prune<T(==, !new), W(!new)>(before: seq<T>, children: seq<W>, after: seq<T>)
    returns (current: seq<T>, kept: seq<W>, ok: bool)
    ensures |before| == |children| ==>
              && ok && current == Pick(before, Surviving(before, after, 0))
              && kept == Pick(children, Surviving(before, after, 0))
    ensures after == [] ==> (ok <==> |before| <= |children|)
    ensures after == [] && ok ==> current == [] && kept == children[|before|..]
  {
    current, kept := before, children;
    ghost var left, parallel := [], |before| == |children|;
    ghost var nothing := after == [] && |before| <= |children|;
    FrontPrunedStart(|before|, children);
    for i := |before| downto 0
      invariant left == Surviving(before, after, i)
      invariant Pruned(before, i, left, current)
      invariant parallel ==> Pruned(children, i, left, kept)
      invariant nothing ==> FrontPruned(|before|, children, i, kept)
      invariant after == [] ==> left == [] && (nothing || (i == |before| && kept == children))
    {
      SurvivingStep(before, after, i);
      if before[i] !in after {
        PruneDrops(before, i, left, current);
        if parallel {
          PruneDrops(children, i, left, kept);
        }
        if nothing {
          FrontPrunedStep(|before|, children, i, kept);
        }
        if i >= |kept| {
          return current, kept, false;
        }
        kept := kept[..i] + kept[i + 1..];
        current := current[..i] + current[i + 1..];
      } else {
        PruneKeeps(before, i, left, current);
        if parallel {
          PruneKeeps(children, i, left, kept);
        }
        left := [i] + left;
      }
    }
    PrunedAll(before, left, current);
    if parallel {
      PrunedAll(children, left, kept);
    }
    if nothing {
      FrontPrunedEnd(|before|, children, kept);
    }
    ok := true;
  }

  lemma PrunedAll<T(!new)>(list: seq<T>, left: seq<nat>, working: seq<T>)
    requires Pruned(list, 0, left, working)
    ensures working == Pick(list, left)
  {
  }

  lemma SurvivingStep<T>(before: seq<T>, after: seq<T>, i: nat)
    requires i < |before|
    ensures Surviving(before, after, i) ==
            if before[i] in after then [i] + Surviving(before, after, i + 1) else Surviving(before, after, i + 1)
  {
  }

  lemma {:induction false} SurvivingAll<T(!new)>(keys: seq<T>, from: nat)
    requires from <= |keys|
    ensures Surviving(keys, keys, from) == seq(|keys| - from, i requires 0 <= i < |keys| - from => from + i)
    decreases |keys| - from
  {
    if from < |keys| {
      SurvivingAll(keys, from + 1);
    }
  }

  /** When nothing goes, nothing is pruned. */
  lemma PruneNothing<T(!new), W>(keys: seq<T>, children: seq<W>)
    requires |keys| == |children|
    ensures Pick(keys, Surviving(keys, keys, 0)) == keys
    ensures Pick(children, Surviving(keys, keys, 0)) == children
  {
    SurvivingAll(keys, 0);
  }

  lemma DiffStart<T(!new)>(before: seq<T>, after: seq<T>)
    ensures var left := Surviving(before, after, 0);
            DiffInv(before, after, 0, Pick(before, left), left)
  {
    SurvivingMeaning(before, after);
    assert after[0..] == after;
    WantedMeans(before, after, 0, Surviving(before, after, 0));
  }

  // ---------------------------------------------------------- placement pass

  lemma TailMembers<T(!new)>(after: seq<T>, target: nat)
    requires Distinct(after) && target < |after|
    ensures forall k :: k in after[target..] <==> k == after[target] || k in after[target + 1..]
    ensures after[target] !in after[target + 1..] && after[target] !in after[..target]
  {
    assert after[target..] == [after[target]] + after[target + 1..];
  }

  /** The child is already where the new list wants it. */
  lemma DiffKeep<T(!new)>(before: seq<T>, after: seq<T>, target: nat, current: seq<T>, left: seq<nat>)
    requires Distinct(before) && Distinct(after)
    requires DiffInv(before, after, target, current, left)
    requires target < |after| && target < |current| && current[target] == after[target]
    ensures left != [] && before[left[0]] == after[target]
    ensures DiffInv(before, after, target + 1, current, left[1..])
    ensures Stays(before, after, left[0], target)
  {
    TailMembers(after, target);
    var rest := left[1..];
    WantedMeans(before, after, target, left);
    WantedMeans(before, after, target + 1, rest);
    FirstIsMember(left);
    assert left == [left[0]] + rest;
    assert forall j | 0 <= j < |rest| :: rest[j] == left[j + 1];
    assert current[..target + 1] == after[..target + 1];
    forall q | 0 <= q < left[0] && before[q] in after
      ensures before[q] in after[..target]
    {
      assert q !in left;
      assert after == after[..target] + after[target..];
    }
  }

  /** The working list once the child at `from` is taken out and put in at
      `target`. */
  function Moved<T>(current: seq<T>, from: nat, target: nat, key: T): seq<T>
    requires target < from < |current|
  {
    Inserted(current[..from] + current[from + 1..], target, key)
  }

  lemma MovedMeaning<T>(current: seq<T>, from: nat, target: nat, key: T)
    requires target < from < |current|
    ensures var next := Moved(current, from, target, key);
            && |next| == |current| && next[..target] == current[..target] && next[target] == key
            && forall j | target < j < |next| :: next[j] == current[if j <= from then j - 1 else j]
  {
  }

  /** The working list once a new child is put in at `target`. */
  function Inserted<T>(current: seq<T>, target: nat, key: T): seq<T>
    requires target <= |current|
  {
    current[..target] + [key] + current[target..]
  }

  predicate FitsPut<T>(list: seq<T>, target: nat, found: Option<nat>) {
    match found
    case Some(from) => target < from < |list|
    case None => target <= |list|
  }

  /** One child goes to `target`: taken out first if its key was found further on. */
  function Put<T>(list: seq<T>, target: nat, found: Option<nat>, key: T): seq<T>
    requires FitsPut(list, target, found)
  {
    match found
    case Some(from) => Moved(list, from, target, key)
    case None => Inserted(list, target, key)
  }

  /** The old positions still to be placed after that. */
  function LeftAfter(left: seq<nat>, target: nat, found: Option<nat>): seq<nat>
    requires found.Some? ==> 0 <= found.value - target < |left|
  {
    match found
    case Some(from) => Drop(left, from - target)
    case None => left
  }

  lemma InsertedMeaning<T>(current: seq<T>, target: nat, key: T)
    requires target <= |current|
    ensures var next := Inserted(current, target, key);
            && |next| == |current| + 1 && next[..target] == current[..target] && next[target] == key
            && forall j | target < j < |next| :: next[j] == current[j - 1]
  {
  }

  function Drop(left: seq<nat>, m: nat): seq<nat>
    requires m < |left|
  {
    left[..m] + left[m + 1..]
  }

  lemma MoveFindsSurvivor<T(!new)>(before: seq<T>, after: seq<T>, target: nat, current: seq<T>, left: seq<nat>, from: nat)
    requires Distinct(before) && Distinct(after)
    requires DiffInv(before, after, target, current, left)
    requires target < |after| && from < |current| && current[from] == after[target]
    requires target < |current| ==> current[target] != after[target]
    ensures target < from && before[left[from - target]] == after[target]
    ensures !Stays(before, after, left[from - target], target)
  {
    TailMembers(after, target);
    WantedMeans(before, after, target, left);
    assert forall i | 0 <= i < target :: current[i] == current[..target][i];
    assert left[0] in left && left[0] < left[from - target];
    NotAhead(after, target, before[left[0]]);
  }

  lemma MoveKeepsWanted<T(!new)>(before: seq<T>, after: seq<T>, target: nat, left: seq<nat>, m: nat)
    requires Distinct(before) && Distinct(after)
    requires target < |after| && StillWanted(before, after, target, left) && Increasing(left)
    requires forall j | 0 <= j < |left| :: left[j] < |before|
    requires m < |left| && before[left[m]] == after[target]
    ensures StillWanted(before, after, target + 1, Drop(left, m))
    ensures Increasing(Drop(left, m))
  {
    TailMembers(after, target);
    WantedMeans(before, after, target, left);
    WantedMeans(before, after, target + 1, Drop(left, m));
    forall p
      ensures p in Drop(left, m) <==> 0 <= p < |before| && before[p] in after[target + 1..]
    {
      WithoutPosition(left, m, p);
    }
  }

  /** The child is further on among the survivors: it is taken out and built anew. */
  lemma DiffMove<T(!new)>(before: seq<T>, after: seq<T>, target: nat, current: seq<T>, left: seq<nat>, from: nat)
    requires Distinct(before) && Distinct(after)
    requires DiffInv(before, after, target, current, left)
    requires target < |after| && target < from < |current|
    requires before[left[from - target]] == after[target]
    ensures DiffInv(before, after, target + 1, Put(current, target, Some(from), after[target]),
                    LeftAfter(left, target, Some(from)))
  {
    var m := from - target;
    var next, rest := Put(current, target, Some(from), after[target]), LeftAfter(left, target, Some(from));
    MoveKeepsWanted(before, after, target, left, m);
    MovedMeaning(current, from, target, after[target]);
    assert next[..target + 1] == after[..target + 1];
    forall j | 0 <= j < |rest|
      ensures rest[j] < |before| && next[target + 1 + j] == before[rest[j]]
    {
      var k := if j < m then j else j + 1;
      assert rest[j] == left[k];
    }
  }

  /** A key wanted from `target` on is not among the keys placed before. */
  lemma NotAhead<T(!new)>(after: seq<T>, target: nat, key: T)
    requires Distinct(after) && target <= |after| && key in after[target..]
    ensures key in after && key !in after[..target]
  {
    var i :| 0 <= i < |after[target..]| && after[target..][i] == key;
    assert after[target + i] == key;
  }

  lemma WithoutPosition(left: seq<nat>, m: nat, p: int)
    requires Increasing(left) && m < |left|
    ensures p in Drop(left, m) <==> p in left && p != left[m]
  {
    if p in left && p != left[m] {
      var j :| 0 <= j < |left| && left[j] == p;
      assert Drop(left, m)[if j < m then j else j - 1] == p;
    }
  }

  lemma OldKeyIsCurrent<T(!new)>(before: seq<T>, after: seq<T>, target: nat, current: seq<T>, left: seq<nat>, p: nat)
    requires DiffInv(before, after, target, current, left)
    requires p < |before| && before[p] in after[target..]
    ensures before[p] in current
  {
    WantedMeans(before, after, target, left);
    var j :| 0 <= j < |left| && left[j] == p;
    assert current[target + j] == before[p];
  }

  /** The child is new: it is built and inserted. */
  lemma DiffInsert<T(!new)>(before: seq<T>, after: seq<T>, target: nat, current: seq<T>, left: seq<nat>)
    requires Distinct(before) && Distinct(after)
    requires DiffInv(before, after, target, current, left)
    requires target < |after| && after[target] !in current
    ensures after[target] !in before
    ensures DiffInv(before, after, target + 1, Put(current, target, None, after[target]), LeftAfter(left, target, None))
  {
    TailMembers(after, target);
    if p: nat :| p < |before| && before[p] == after[target] {
      OldKeyIsCurrent(before, after, target, current, left, p);
    }
    WantedMeans(before, after, target, left);
    WantedMeans(before, after, target + 1, left);
    var next := Inserted(current, target, after[target]);
    assert next[..target + 1] == after[..target + 1];
    forall j | 0 <= j < |left|
      ensures next[target + 1 + j] == before[left[j]]
    {
      assert next[target + 1 + j] == current[target + j];
    }
  }

  lemma FirstIsMember(left: seq<nat>)
    ensures left != [] ==> left[0] in left
  {
  }

  /** Nothing is left over at the end: the working list is the new list. */
  lemma DiffDone<T(!new)>(before: seq<T>, after: seq<T>, current: seq<T>, left: seq<nat>)
    requires DiffInv(before, after, |after|, current, left)
    ensures current == after && left == []
  {
    assert after[|after|..] == [];
    WantedMeans(before, after, |after|, left);
    FirstIsMember(left);
    assert current[..|after|] == current;
  }

  /** When the new list only deletes and inserts, every survivor stays. */
  lemma PureInsertDeleteKeepsAll<T(!new)>(before: seq<T>, after: seq<T>, p: nat, target: nat)
    requires Distinct(before) && Distinct(after)
    requires p < |before| && target < |after| && before[p] == after[target]
    requires forall q, r, k, l | 0 <= q < r < |before| && 0 <= k < |after| && 0 <= l < |after|
               && before[q] == after[k] && before[r] == after[l] :: k < l
    ensures Stays(before, after, p, target)
  {
    forall q | 0 <= q < p && before[q] in after
      ensures before[q] in after[..target]
    {
      var k :| 0 <= k < |after| && after[k] == before[q];
      assert k < target;
      assert after[..target][k] == before[q];
    }
  }

  /** The position of a key, as `iter().position` finds it. */
  function Position<T(==)>(keys: seq<T>, key: T): (r: Option<nat>)
    ensures r.Some? ==> r.value < |keys| && keys[r.value] == key
    ensures r.None? ==> key !in keys
  {
    if keys == [] then None
    else if keys[0] == key then Some(0)
    else
      match Position(keys[1..], key)
      case None => None
      case Some(i) => Some(i + 1)
  }

  // ------------------------------------------------ the whole pass on key lists

  /** One position of the placement pass; `None` when it inserts outside the list,
      which the toolkit answers with a panic. */
  function PlaceStep<T(==)>(current: seq<T>, target: nat, key: T): Option<seq<T>> {
    if target < |current| && current[target] == key then Some(current)
    else PutFound(current, target, Position(current, key), key)
  }

  /** A key that is not in place goes to `target`, from where it was found. */
  function PutFound<T>(current: seq<T>, target: nat, found: Option<nat>, key: T): Option<seq<T>>
    requires found.Some? ==> found.value < |current|
  {
    var rest := if found.Some? then current[..found.value] + current[found.value + 1..] else current;
    if target > |rest| then None else Some(Inserted(rest, target, key))
  }

  /** The placement pass on the working list. */
  function PlacePass<T(==)>(current: seq<T>, after: seq<T>, target: nat): Option<seq<T>>
    requires target <= |after|
    decreases |after| - target
  {
    if target == |after| then Some(current)
    else
      match PlaceStep(current, target, after[target])
      case None => None
      case Some(next) => PlacePass(next, after, target + 1)
  }

  /** The diff: prune, then place. */
  function DiffKeys<T(==)>(before: seq<T>, after: seq<T>): Option<seq<T>> {
    PlacePass(Pick(before, Surviving(before, after, 0)), after, 0)
  }

  lemma PutFoundPuts<T>(current: seq<T>, target: nat, found: Option<nat>, key: T)
    requires FitsPut(current, target, found)
    ensures PutFound(current, target, found, key) == Some(Put(current, target, found, key))
  {
  }

  /** A key that is not in place is put in place, wherever it is found. */
  lemma PutKeepsInv<T(!new)>(before: seq<T>, after: seq<T>, target: nat, current: seq<T>, left: seq<nat>, found: Option<nat>)
    requires Distinct(before) && Distinct(after)
    requires DiffInv(before, after, target, current, left) && target < |after|
    requires !(target < |current| && current[target] == after[target])
    requires found == Position(current, after[target])
    ensures FitsPut(current, target, found) && (found.Some? ==> found.value - target < |left|)
    ensures DiffInv(before, after, target + 1, Put(current, target, found, after[target]), LeftAfter(left, target, found))
  {
    match found
    case Some(from) =>
      MoveFindsSurvivor(before, after, target, current, left, from);
      DiffMove(before, after, target, current, left, from);
    case None =>
      DiffInsert(before, after, target, current, left);
  }

  /** With distinct keys one position never panics and keeps the invariant. */
  lemma StepKeepsInv<T(!new)>(before: seq<T>, after: seq<T>, target: nat, current: seq<T>, left: seq<nat>)
    returns (next: seq<T>, rest: seq<nat>)
    requires Distinct(before) && Distinct(after)
    requires DiffInv(before, after, target, current, left) && target < |after|
    ensures PlaceStep(current, target, after[target]) == Some(next)
    ensures DiffInv(before, after, target + 1, next, rest)
  {
    var key := after[target];
    if target < |current| && current[target] == key {
      DiffKeep(before, after, target, current, left);
      next, rest := current, left[1..];
    } else {
      var found := Position(current, key);
      PutKeepsInv(before, after, target, current, left, found);
      PutFoundPuts(current, target, found, key);
      next, rest := Put(current, target, found, key), LeftAfter(left, target, found);
    }
  }

  lemma {:induction false} PassReaches<T(!new)>(before: seq<T>, after: seq<T>, target: nat, current: seq<T>, left: seq<nat>)
    requires Distinct(before) && Distinct(after)
    requires DiffInv(before, after, target, current, left)
    ensures PlacePass(current, after, target) == Some(after)
    decreases |after| - target
  {
    if target == |after| {
      DiffDone(before, after, current, left);
    } else {
      var next, rest := StepKeepsInv(before, after, target, current, left);
      PassReaches(before, after, target + 1, next, rest);
    }
  }

  lemma InsertDistinct<T(!new)>(s: seq<T>, target: nat, key: T)
    requires Distinct(s) && key !in s && target <= |s|
    ensures Distinct(Inserted(s, target, key))
  {
    InsertedMeaning(s, target, key);
    var next := Inserted(s, target, key);
    forall i, j | 0 <= i < j < |next|
      ensures next[i] != next[j]
    {
      assert i < target ==> next[i] == next[..target][i] == s[i];
      assert j < target ==> next[j] == next[..target][j] == s[j];
    }
  }

  lemma RemoveDistinct<T(!new)>(s: seq<T>, from: nat)
    requires Distinct(s) && from < |s|
    ensures Distinct(s[..from] + s[from + 1..]) && s[from] !in s[..from] + s[from + 1..]
  {
  }

  lemma StepKeepsDistinct<T(!new)>(current: seq<T>, target: nat, key: T)
    requires Distinct(current) && PlaceStep(current, target, key).Some?
    ensures Distinct(PlaceStep(current, target, key).value)
  {
    if !(target < |current| && current[target] == key) {
      match Position(current, key) {
        case Some(from) =>
          RemoveDistinct(current, from);
          InsertDistinct(current[..from] + current[from + 1..], target, key);
        case None =>
          InsertDistinct(current, target, key);
      }
    }
  }

  lemma {:induction false} PassKeepsDistinct<T(!new)>(current: seq<T>, after: seq<T>, target: nat)
    requires Distinct(current) && target <= |after|
    requires PlacePass(current, after, target).Some?
    ensures Distinct(PlacePass(current, after, target).value)
    decreases |after| - target
  {
    if target < |after| {
      StepKeepsDistinct(current, target, after[target]);
      PassKeepsDistinct(PlaceStep(current, target, after[target]).value, after, target + 1);
    }
  }

  lemma PickDistinct<T(!new)>(s: seq<T>, positions: seq<nat>)
    requires Distinct(s) && Increasing(positions)
    requires forall j | 0 <= j < |positions| :: positions[j] < |s|
    ensures Distinct(Pick(s, positions))
  {
  }

  /** From a list without duplicates, the diff stays in range and ends with exactly
      the new list if and only if the new list has no duplicates. */
  lemma DiffIsRightExactlyForDistinctKeys<T(!new)>(before: seq<T>, after: seq<T>)
    requires Distinct(before)
    ensures DiffKeys(before, after) == Some(after) <==> Distinct(after)
  {
    var left := Surviving(before, after, 0);
    SurvivingMeaning(before, after);
    if Distinct(after) {
      DiffStart(before, after);
      PassReaches(before, after, 0, Pick(before, left), left);
    }
    if DiffKeys(before, after) == Some(after) {
      PickDistinct(before, left);
      PassKeepsDistinct(Pick(before, left), after, 0);
    }
  }

  /** A repeated key: the second one is taken out of the prefix and inserted past
      the end. */
  lemma RepeatedKeyPanics<T(!new)>(a: T, b: T)
    requires a != b
    ensures DiffKeys([a, b], [a, a]) == None
  {
    var before, after := [a, b], [a, a];
    assert Surviving(before, after, 2) == [];
    assert Surviving(before, after, 1) == [];
    assert Surviving(before, after, 0) == [0];
    assert Pick(before, [0]) == [a];
    assert Position([a], a) == Some(0);
    assert [a][..0] + [a][1..] == [];
    assert PlacePass([a], after, 1) == None;
  }
}
