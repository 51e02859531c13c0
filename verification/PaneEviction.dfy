/** Which retained document a full store gives up, from the history of a run
    (src/editor/document_session.rs, src/masonry_pane_document.rs). */
module PaneEviction {
  import opened Sequences
  import opened DocumentSessions
  import opened PaneDocument
  import opened PaneLaws
  import opened PaneReopen

  /** The list has `a` somewhere before `b`. */
  ghost predicate InOrder(ids: seq<DocumentId>, a: DocumentId, b: DocumentId) {
    exists k, l | 0 <= k < l < |ids| :: ids[k] == a && ids[l] == b
  }

  /** `next` lists ids of `before` in their order, and then possibly those of `added`. */
  ghost predicate KeepsOrder(before: seq<DocumentId>, next: seq<DocumentId>, added: seq<DocumentId>) {
    forall a, b | InOrder(next, a, b) :: a !in added && (b !in added ==> InOrder(before, a, b))
  }

  lemma WithoutKeepsOrder(ids: seq<DocumentId>, id: DocumentId)
    ensures KeepsOrder(ids, Without(ids, id), [])
  {
    var rest := Without(ids, id);
    forall a, b | InOrder(rest, a, b)
      ensures InOrder(ids, a, b)
    {
      var i, j :| 0 <= i < j < |rest| && rest[i] == a && rest[j] == b;
      var k, l := WithoutOrder(ids, id, i, j);
    }
  }

  lemma KeepsOrderTwice(a: seq<DocumentId>, b: seq<DocumentId>, c: seq<DocumentId>, first: seq<DocumentId>,
      second: seq<DocumentId>)
    requires KeepsOrder(a, b, first) && KeepsOrder(b, c, second) && (first == [] || second == [])
    ensures KeepsOrder(a, c, first + second)
  {
  }

  lemma AddedLast(ids: seq<DocumentId>, id: DocumentId)
    ensures KeepsOrder(ids, Without(ids, id) + [id], [id])
  {
    var rest := Without(ids, id);
    WithoutKeepsOrder(ids, id);
    var next := rest + [id];
    forall a, b | InOrder(next, a, b)
      ensures a != id && (b != id ==> InOrder(ids, a, b))
    {
      var i, j :| 0 <= i < j < |next| && next[i] == a && next[j] == b;
      assert a == rest[i] && a in rest;
      assert j < |rest| ==> b == rest[j] && InOrder(rest, a, b);
    }
  }

  lemma {:induction false} EvictKeepsOrder(s: Store)
    ensures KeepsOrder(s.lru, Evict(s).0.lru, [])
    decreases |s.lru|
  {
    if OverCeiling(s) {
      EvictKeepsOrder(DropOldest(s));
      forall a, b | InOrder(s.lru[1..], a, b)
        ensures InOrder(s.lru, a, b)
      {
        var k, l :| 0 <= k < l < |s.lru[1..]| && s.lru[1..][k] == a && s.lru[1..][l] == b;
        assert s.lru[k + 1] == a && s.lru[l + 1] == b;
      }
    }
  }

  lemma StashKeepsOrder(p: Pane, sync: SyncSnapshot)
    ensures KeepsOrder(p.store.lru, Stash(p, sync).store.lru, [p.surface.documentId])
  {
    var id, session := p.surface.documentId, StashedSession(p, sync);
    AddedLast(p.store.lru, id);
    EvictKeepsOrder(Put(p.store, id, session));
    KeepsOrderTwice(p.store.lru, Put(p.store, id, session).lru, Stash(p, sync).store.lru, [id], []);
  }

  /** The document a step stashes, if it stashes one. */
  function StashedBy(p: Pane, event: Event): seq<DocumentId> {
    if Stashes(p, event, p.surface.documentId) then [p.surface.documentId] else []
  }

  /** A step keeps the retained documents in order and lists the one it stashes last. */
  lemma StepKeepsOrder(p: Pane, event: Event)
    ensures KeepsOrder(p.store.lru, Step(p, event).store.lru, StashedBy(p, event))
  {
    match event
    case DocumentOpened(metadata, text, sync) =>
      if p.hasOpened && !IsDuplicateOpen(p, metadata) {
        StashKeepsOrder(p, sync);
        var stashed := Stash(p, sync).store;
        WithoutKeepsOrder(stashed.lru, metadata.documentId);
        KeepsOrderTwice(p.store.lru, stashed.lru, Remove(stashed, metadata.documentId).lru,
                        [p.surface.documentId], []);
      }
    case ActivateDocument(id, sync) =>
      if p.hasOpened && id != p.surface.documentId {
        ActivationKeepsOrder(p, id, sync);
      }
    case _ =>
  }

  lemma ActivationKeepsOrder(p: Pane, id: DocumentId, sync: SyncSnapshot)
    requires p.hasOpened && id != p.surface.documentId
    ensures KeepsOrder(p.store.lru, Activated(p, id, sync).store.lru,
                       if id in p.store.sessions then [p.surface.documentId] else [])
  {
    var removed := p.(store := Remove(p.store, id));
    WithoutKeepsOrder(p.store.lru, id);
    if id in p.store.sessions {
      StashKeepsOrder(removed, sync);
      KeepsOrderTwice(p.store.lru, removed.store.lru, Activated(p, id, sync).store.lru, [], [p.surface.documentId]);
    }
  }

  // ------------------------------------------------------------------- whole runs

  /** The list is in the order of the last stash. */
  ghost predicate InStashOrder(run: Run, n: nat)
    requires n <= |run.events| < |run.states|
  {
    forall a, b | InOrder(run.states[n].store.lru, a, b) :: LastStash(run, n, a) < LastStash(run, n, b)
  }

  /** In every reachable state the retained documents are listed from the one stashed
      longest ago to the one stashed last. */
  lemma {:induction false} ListedInStashOrder(run: Run, n: nat)
    requires IsRun(run) && n <= |run.events|
    ensures InStashOrder(run, n)
  {
    if n > 0 {
      ListedInStashOrder(run, n - 1);
      PartitionAlways(run, n);
      forall a, b | InOrder(run.states[n].store.lru, a, b)
        ensures LastStash(run, n, a) < LastStash(run, n, b)
      {
        StashedLater(run, n, a, b);
      }
    }
  }

  lemma StashedLater(run: Run, n: nat, a: DocumentId, b: DocumentId)
    requires IsRun(run) && 0 < n <= |run.events| && InStashOrder(run, n - 1)
    requires Ordered(run.states[n].store) && InOrder(run.states[n].store.lru, a, b)
    ensures LastStash(run, n, a) < LastStash(run, n, b)
  {
    assert IsStep(run, n - 1);
    StepKeepsOrder(run.states[n - 1], run.events[n - 1]);
    assert a in run.states[n].store.lru;
    RetainedSinceStash(run, n, a);
  }

  /** The oldest of a list in stash order. */
  lemma FirstIsOldest(run: Run, n: nat, id: DocumentId)
    requires n <= |run.events| < |run.states| && InStashOrder(run, n)
    requires run.states[n].store.lru != [] && id in run.states[n].store.lru && id != run.states[n].store.lru[0]
    ensures LastStash(run, n, run.states[n].store.lru[0]) < LastStash(run, n, id)
  {
    var lru := run.states[n].store.lru;
    var l :| 0 <= l < |lru| && lru[l] == id;
    assert InOrder(lru, lru[0], lru[l]);
  }

  /** `oldest` is the retained document whose last stash lies furthest back. */
  ghost predicate IsOldest(run: Run, n: nat, oldest: DocumentId)
    requires n <= |run.events| < |run.states|
  {
    && oldest in run.states[n].store.sessions
    && forall id | id in run.states[n].store.sessions && id != oldest :: LastStash(run, n, oldest) < LastStash(run, n, id)
  }

  /** What a store gives up when a step stashes a document: nothing while fewer than 63 are
      retained, and otherwise, with a forced close, the one whose last stash lies furthest
      back; an activation gives up nothing. */
  lemma GivesUpLeastRecentlyStashed(run: Run, n: nat) returns (oldest: DocumentId)
    requires IsRun(run) && n < |run.events| && Stashes(run.states[n], run.events[n], run.states[n].surface.documentId)
    ensures if run.events[n].DocumentOpened? && |run.states[n].store.sessions| == 63 then
              && IsOldest(run, n, oldest)
              && run.states[n + 1].closes == run.states[n].closes + [CloseAttempt(oldest, true)]
            else run.states[n + 1].closes == run.states[n].closes
  {
    var p := run.states[n];
    PartitionAlways(run, n);
    assert IsStep(run, n);
    oldest := 0;
    match run.events[n]
    case DocumentOpened(metadata, text, sync) =>
      if |p.store.sessions| == 63 {
        StashWhenFull(p, sync);
        oldest := p.store.lru[0];
        OldestIsFirst(run, n);
        assert Forced([oldest]) == [CloseAttempt(oldest, true)];
      } else {
        StashWithRoom(p, sync);
      }
    case ActivateDocument(id, sync) => ActivationSwaps(p, id, sync);
  }

  lemma OldestIsFirst(run: Run, n: nat)
    requires IsRun(run) && n <= |run.events| && run.states[n].store.lru != []
    ensures IsOldest(run, n, run.states[n].store.lru[0])
  {
    PartitionAlways(run, n);
    ListedInStashOrder(run, n);
    var store := run.states[n].store;
    assert store.lru[0] in store.lru;
    forall id | id in store.sessions && id != store.lru[0]
      ensures LastStash(run, n, store.lru[0]) < LastStash(run, n, id)
    {
      assert id in store.lru;
      FirstIsOldest(run, n, id);
    }
  }
}
