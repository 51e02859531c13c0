/** Safety of a pane's documents over whole runs of opens, switches, server events,
    reconnects and closes. */
module PaneLaws {
  import opened Wrappers
  import opened DocumentSessions
  import opened PaneDocument

  // ----------------------------------------------------------------- partition

  /** The active document is not retained, every retained entry holds the document
      it is keyed by, and a pane without an opened document retains nothing. */
  ghost predicate PaneOk(p: Pane) {
    && StoreOk(p.store)
    && (p.hasOpened ==> p.surface.documentId !in p.store.sessions)
    && (!p.hasOpened ==> p.store.sessions == map[])
    && (forall id | id in p.store.sessions :: p.store.sessions[id].surface.documentId == id)
  }

  /** A pane as created: blank, or with the initial document of a connection. */
  ghost predicate IsStart(p: Pane) {
    && p.store == NO_SESSIONS && p.closes == [] && p.activePath == None && !p.pendingResync
    && p.queue
  }

  /** A run of a pane: the states it goes through and what happens. */
  datatype Run = Run(states: seq<Pane>, events: seq<Event>)

  ghost predicate IsRun(run: Run) {
    && |run.states| == |run.events| + 1
    && IsStart(run.states[0])
    && forall i | 0 <= i < |run.events| :: IsStep(run, i)
  }

  ghost predicate IsStep(run: Run, i: nat)
    requires i < |run.events| && |run.states| == |run.events| + 1
  {
    run.states[i + 1] == Step(run.states[i], run.events[i])
  }

  /** Every sequence of events is a run. */
  lemma {:induction false} EveryOrderIsARun(start: Pane, events: seq<Event>) returns (run: Run)
    requires IsStart(start)
    ensures IsRun(run) && run.states[0] == start && run.events == events
  {
    if events == [] {
      return Run([start], []);
    }
    var n := |events| - 1;
    var front := EveryOrderIsARun(start, events[..n]);
    run := Run(front.states + [Step(front.states[n], events[n])], events);
    forall i | 0 <= i < |events|
      ensures IsStep(run, i)
    {
      assert i < n ==> IsStep(front, i);
    }
  }

  /** The session under which the active document is stashed. */
  function ActiveSession(p: Pane, sync: SyncSnapshot): Session {
    Stamped(p.store, StashedSession(p, sync))
  }

  /** With room in the store, stashing only adds the active document. */
  lemma StashWithRoom(p: Pane, sync: SyncSnapshot)
    requires PaneOk(p) && p.hasOpened && |p.store.sessions| < MAX_RETAINED
    ensures Stash(p, sync).store.sessions == p.store.sessions[p.surface.documentId := ActiveSession(p, sync)]
    ensures Stash(p, sync).closes == p.closes
  {
    InsertWithRoom(p.store, p.surface.documentId, StashedSession(p, sync));
    assert p.closes + Forced([]) == p.closes;
  }

  /** Stashing into a full store drops the oldest session and closes its document. */
  lemma StashWhenFull(p: Pane, sync: SyncSnapshot)
    requires PaneOk(p) && p.hasOpened && |p.store.sessions| == MAX_RETAINED
    ensures p.store.lru != [] && p.store.lru[0] in p.store.sessions
    ensures Stash(p, sync).store.sessions ==
            (p.store.sessions - {p.store.lru[0]})[p.surface.documentId := ActiveSession(p, sync)]
    ensures p.queue ==> Stash(p, sync).closes == p.closes + Forced([p.store.lru[0]])
  {
    InsertWhenFull(p.store, p.surface.documentId, StashedSession(p, sync));
  }

  /** In every case the active document is then retained. */
  lemma StashRetains(p: Pane, sync: SyncSnapshot)
    requires PaneOk(p) && p.hasOpened
    ensures p.surface.documentId in Stash(p, sync).store.sessions
    ensures Stash(p, sync).store.sessions[p.surface.documentId] == ActiveSession(p, sync)
  {
    InsertMeaning(p.store, p.surface.documentId, StashedSession(p, sync));
  }

  lemma StashStoreOk(p: Pane, sync: SyncSnapshot)
    requires PaneOk(p) && p.hasOpened
    ensures StoreOk(Stash(p, sync).store)
  {
    InsertMeaning(p.store, p.surface.documentId, StashedSession(p, sync));
  }

  lemma StashOk(p: Pane, sync: SyncSnapshot)
    requires PaneOk(p) && p.hasOpened
    ensures StoreOk(Stash(p, sync).store)
    ensures forall id | id in Stash(p, sync).store.sessions ::
              && Stash(p, sync).store.sessions[id].surface.documentId == id
              && (id == p.surface.documentId || id in p.store.sessions)
  {
    StashStoreOk(p, sync);
    if |p.store.sessions| < MAX_RETAINED {
      StashWithRoom(p, sync);
    } else {
      StashWhenFull(p, sync);
    }
  }

  lemma OpenedOk(p: Pane, metadata: Metadata, text: string, sync: SyncSnapshot)
    requires PaneOk(p)
    ensures PaneOk(Opened(p, metadata, text, sync))
  {
    if p.hasOpened && !IsDuplicateOpen(p, metadata) {
      StashOk(p, sync);
      RemoveOk(Stash(p, sync).store, metadata.documentId);
    }
  }

  lemma ActivatedOk(p: Pane, id: DocumentId, sync: SyncSnapshot)
    requires PaneOk(p)
    ensures PaneOk(Activated(p, id, sync))
  {
    RemoveOk(p.store, id);
    if p.hasOpened && id != p.surface.documentId {
      StashOk(p.(store := Remove(p.store, id)), sync);
    }
  }

  lemma WithSessionOk(p: Pane, id: DocumentId, session: Session)
    requires PaneOk(p) && id in p.store.sessions
    requires session.lastActivatedOrder == p.store.sessions[id].lastActivatedOrder
    requires session.surface.documentId == id
    ensures PaneOk(WithSession(p, id, session))
  {
    SizeMore(p.store.sessions, id, session);
  }

  lemma StepOk(p: Pane, event: Event)
    requires PaneOk(p)
    ensures PaneOk(Step(p, event))
  {
    match event
    case DocumentOpened(metadata, text, sync) => OpenedOk(p, metadata, text, sync);
    case ActivateDocument(id, sync) => ActivatedOk(p, id, sync);
    case EditAck(id, version) =>
      if id != p.surface.documentId && id in p.store.sessions {
        WithSessionOk(p, id, Step(p, event).store.sessions[id]);
      }
    case ResyncSnapshot(id, version, text) =>
      if p.hasOpened && id != p.surface.documentId && id in p.store.sessions {
        WithSessionOk(p, id, Step(p, event).store.sessions[id]);
      }
    case DocumentReloaded(metadata, text) =>
      if metadata.documentId != p.surface.documentId && metadata.documentId in p.store.sessions {
        WithSessionOk(p, metadata.documentId, Step(p, event).store.sessions[metadata.documentId]);
      }
    case DocumentSaved(id, version, dirty) =>
      if id != p.surface.documentId && id in p.store.sessions {
        WithSessionOk(p, id, Step(p, event).store.sessions[id]);
      }
    case Edit(_) =>
    case Reconnect =>
    case ClosePane =>
  }

  /** A consistent pane with an edit queue. */
  ghost predicate Live(p: Pane) {
    PaneOk(p) && p.queue
  }

  lemma QueueStays(p: Pane, event: Event)
    ensures p.queue ==> Step(p, event).queue
  {
  }

  lemma StepLive(p: Pane, event: Event)
    requires Live(p)
    ensures Live(Step(p, event))
  {
    StepOk(p, event);
    QueueStays(p, event);
  }

  /** The partition holds in every reachable state. */
  lemma {:induction false} PartitionAlways(run: Run, n: nat)
    requires IsRun(run) && n <= |run.events|
    ensures Live(run.states[n]) && |run.states[n].store.sessions| <= 63
  {
    if n > 0 {
      PartitionAlways(run, n - 1);
      assert IsStep(run, n - 1);
      StepLive(run.states[n - 1], run.events[n - 1]);
    }
  }

  // -------------------------------------------------------------- no lost document

  predicate Holds(p: Pane, id: DocumentId) {
    p.hasOpened && (p.surface.documentId == id || id in p.store.sessions)
  }

  predicate CloseAttemptedSince(p: Pane, from: nat, id: DocumentId) {
    exists k | from <= k < |p.closes| :: p.closes[k].documentId == id
  }

  lemma ClosesGrow(p: Pane, event: Event)
    ensures |p.closes| <= |Step(p, event).closes|
    ensures forall k | 0 <= k < |p.closes| :: Step(p, event).closes[k] == p.closes[k]
  {
  }

  lemma ForcedLogged(before: seq<CloseAttempt>, ids: seq<DocumentId>, id: DocumentId)
    requires id in ids
    ensures exists k | |before| <= k < |before + Forced(ids)| :: (before + Forced(ids))[k].documentId == id
  {
    var i :| 0 <= i < |ids| && ids[i] == id;
    assert (before + Forced(ids))[|before| + i].documentId == id;
  }

  /** Stashing keeps every document or attempts to close it. */
  lemma StashKeeps(p: Pane, sync: SyncSnapshot, id: DocumentId)
    requires PaneOk(p) && p.queue && Holds(p, id)
    ensures var next := Stash(p, sync);
            id in next.store.sessions || CloseAttemptedSince(next, |p.closes|, id)
  {
    if |p.store.sessions| < MAX_RETAINED {
      StashWithRoom(p, sync);
    } else {
      StashWhenFull(p, sync);
      AttemptedInLog(p.closes, [p.store.lru[0]], Stash(p, sync), id);
    }
  }

  lemma ClosedLogs(p: Pane, id: DocumentId)
    requires PaneOk(p) && p.queue && Holds(p, id)
    ensures CloseAttemptedSince(Closed(p), |p.closes|, id)
  {
    var closes := Closed(p).closes;
    if id == p.surface.documentId {
      assert closes[|p.closes|].documentId == id;
    } else {
      var first := p.closes + [CloseAttempt(p.surface.documentId, false)];
      ForcedLogged(first, p.store.lru, id);
      assert closes == first + Forced(p.store.lru);
      var k :| |first| <= k < |closes| && closes[k].documentId == id;
    }
  }

  lemma OpenedKeeps(p: Pane, metadata: Metadata, text: string, sync: SyncSnapshot, id: DocumentId)
    requires Live(p) && Holds(p, id)
    ensures var next := Opened(p, metadata, text, sync);
            Holds(next, id) || CloseAttemptedSince(next, |p.closes|, id)
  {
    if !IsDuplicateOpen(p, metadata) {
      StashKeeps(p, sync, id);
      assert Opened(p, metadata, text, sync).closes == Stash(p, sync).closes;
    }
  }

  lemma ActivatedKeeps(p: Pane, other: DocumentId, sync: SyncSnapshot, id: DocumentId)
    requires Live(p) && Holds(p, id)
    ensures Holds(Activated(p, other, sync), id)
  {
    if other != p.surface.documentId && other in p.store.sessions {
      ActivationSwaps(p, other, sync);
    }
  }

  predicate OnlyUpdates(event: Event) {
    !event.DocumentOpened? && !event.ActivateDocument? && !event.ClosePane?
  }

  lemma UpdatesKeep(p: Pane, event: Event, id: DocumentId)
    requires Holds(p, id) && OnlyUpdates(event)
    ensures Holds(Step(p, event), id)
  {
  }

  lemma StepKeepsDocument(p: Pane, event: Event, id: DocumentId)
    requires Live(p) && Holds(p, id)
    ensures Holds(Step(p, event), id) || CloseAttemptedSince(Step(p, event), |p.closes|, id)
  {
    match event
    case DocumentOpened(metadata, text, sync) => OpenedKeeps(p, metadata, text, sync, id);
    case ActivateDocument(other, sync) => ActivatedKeeps(p, other, sync, id);
    case ClosePane => ClosedLogs(p, id);
    case _ => UpdatesKeep(p, event, id);
  }

  lemma AttemptedLater(p: Pane, event: Event, from: nat, id: DocumentId)
    requires CloseAttemptedSince(p, from, id)
    ensures CloseAttemptedSince(Step(p, event), from, id)
  {
    ClosesGrow(p, event);
    var k :| from <= k < |p.closes| && p.closes[k].documentId == id;
    assert Step(p, event).closes[k].documentId == id;
  }

  lemma AttemptedFrom(p: Pane, from: nat, later: nat, id: DocumentId)
    requires from <= later && CloseAttemptedSince(p, later, id)
    ensures CloseAttemptedSince(p, from, id)
  {
  }

  /** A document is held, or a close has been attempted since `from`. */
  ghost predicate Accounted(p: Pane, from: nat, id: DocumentId) {
    Holds(p, id) || CloseAttemptedSince(p, from, id)
  }

  lemma StaysAccounted(p: Pane, event: Event, from: nat, id: DocumentId)
    requires Live(p) && from <= |p.closes| && Accounted(p, from, id)
    ensures Accounted(Step(p, event), from, id)
  {
    if Holds(p, id) {
      StepKeepsDocument(p, event, id);
      if CloseAttemptedSince(Step(p, event), |p.closes|, id) {
        AttemptedFrom(Step(p, event), from, |p.closes|, id);
      }
    } else {
      AttemptedLater(p, event, from, id);
    }
  }

  lemma StepStaysAccounted(run: Run, n: nat, from: nat, id: DocumentId)
    requires IsRun(run) && n < |run.events|
    requires from <= |run.states[n].closes| && Accounted(run.states[n], from, id)
    ensures Accounted(run.states[n + 1], from, id)
  {
    PartitionAlways(run, n);
    assert IsStep(run, n);
    StaysAccounted(run.states[n], run.events[n], from, id);
  }

  lemma {:induction false} HeldUntilClosed(run: Run, i: nat, n: nat, id: DocumentId)
    requires IsRun(run) && i <= n <= |run.events|
    requires Holds(run.states[i], id)
    ensures Accounted(run.states[n], |run.states[i].closes|, id)
    decreases n
  {
    if i < n {
      HeldUntilClosed(run, i, n - 1, id);
      ClosesOnlyGrow(run, i, n - 1);
      StepStaysAccounted(run, n - 1, |run.states[i].closes|, id);
    }
  }

  lemma ClosesGrowAt(run: Run, n: nat)
    requires IsRun(run) && n < |run.events|
    ensures |run.states[n].closes| <= |run.states[n + 1].closes|
  {
    assert IsStep(run, n);
    ClosesGrow(run.states[n], run.events[n]);
  }

  lemma {:induction false} ClosesOnlyGrow(run: Run, i: nat, n: nat)
    requires IsRun(run) && i <= n <= |run.events|
    ensures |run.states[i].closes| <= |run.states[n].closes|
    decreases n
  {
    if i < n {
      ClosesOnlyGrow(run, i, n - 1);
      ClosesGrowAt(run, n - 1);
    }
  }

  /** No document is lost: after any run, each document that some step opened is
      active, retained, or a close was attempted for it after that step. */
  lemma NoLostDocument(run: Run, i: nat, n: nat)
    requires IsRun(run)
    requires i < n <= |run.events| && run.events[i].DocumentOpened?
    ensures var id := run.events[i].metadata.documentId;
            || Holds(run.states[n], id)
            || CloseAttemptedSince(run.states[n], |run.states[i + 1].closes|, id)
  {
    assert IsStep(run, i);
    OpenedIsHeld(run.states[i], run.events[i].metadata, run.events[i].text, run.events[i].sync);
    HeldUntilClosed(run, i + 1, n, run.events[i].metadata.documentId);
  }

  lemma OpenedIsHeld(p: Pane, metadata: Metadata, text: string, sync: SyncSnapshot)
    ensures Holds(Opened(p, metadata, text, sync), metadata.documentId)
  {
  }

  // ------------------------------------------------- what opening and switching do

  lemma AttemptedInLog(before: seq<CloseAttempt>, ids: seq<DocumentId>, p: Pane, id: DocumentId)
    requires p.closes == before + Forced(ids)
    ensures CloseAttemptedSince(p, |before|, id) <==> id in ids
  {
    if id in ids {
      ForcedLogged(before, ids, id);
    }
  }

  /** Opening a document closes that same document on the server exactly when its
      stale copy is the oldest of a full store: the stash evicts before the stale
      copy is dropped. */
  lemma OpeningClosesItself(p: Pane, metadata: Metadata, text: string, sync: SyncSnapshot)
    requires PaneOk(p) && p.queue
    ensures CloseAttemptedSince(Opened(p, metadata, text, sync), |p.closes|, metadata.documentId)
       <==> && p.hasOpened && |p.store.sessions| == 63
            && p.store.lru != [] && p.store.lru[0] == metadata.documentId
  {
    var next := Opened(p, metadata, text, sync);
    if p.hasOpened && |p.store.sessions| == MAX_RETAINED {
      StashWhenFull(p, sync);
      if !IsDuplicateOpen(p, metadata) {
        AttemptedInLog(p.closes, [p.store.lru[0]], next, metadata.documentId);
      }
    } else if p.hasOpened {
      StashWithRoom(p, sync);
    }
  }

  /** The same open documents with the same text and dirty flags. */
  ghost predicate SameDocuments(p: Pane, q: Pane) {
    && p.surface == q.surface && p.dirty == q.dirty && p.closes == q.closes
    && p.store.sessions.Keys == q.store.sessions.Keys
    && forall id | id in p.store.sessions ::
         && p.store.sessions[id].surface == q.store.sessions[id].surface
         && p.store.sessions[id].dirty == q.store.sessions[id].dirty
  }

  /** What `ActivationSwaps` says, as a relation between the panes. */
  ghost predicate Swapped(p: Pane, id: DocumentId, next: Pane) {
    && id in p.store.sessions
    && next.surface == p.store.sessions[id].surface && next.dirty == p.store.sessions[id].dirty
    && next.closes == p.closes
    && next.store.sessions.Keys == p.store.sessions.Keys - {id} + {p.surface.documentId}
    && next.store.sessions[p.surface.documentId].surface == p.surface
    && next.store.sessions[p.surface.documentId].dirty == p.dirty
    && forall other | other in p.store.sessions && other != id ::
         other in next.store.sessions && next.store.sessions[other] == p.store.sessions[other]
  }

  /** Switching to a retained document makes exactly that document active with its
      own text and dirty flag, retains the previous one with its, leaves every other
      session alone, and never attempts a close. */
  lemma ActivationSwaps(p: Pane, id: DocumentId, sync: SyncSnapshot)
    requires PaneOk(p) && p.hasOpened && id in p.store.sessions
    ensures Activated(p, id, sync).hasOpened && Activated(p, id, sync).surface.documentId == id
    ensures Activated(p, id, sync).activePath == p.activePath
    ensures Swapped(p, id, Activated(p, id, sync))
  {
    var removed := p.(store := Remove(p.store, id));
    RemoveOk(p.store, id);
    StashWithRoom(removed, sync);
  }

  lemma SwappedTwice(p: Pane, id: DocumentId, there: Pane, again: Pane)
    requires Swapped(p, id, there) && Swapped(there, p.surface.documentId, again)
    requires there.surface.documentId == id && p.surface.documentId !in p.store.sessions
    ensures SameDocuments(p, again)
  {
  }

  /** Switching away and back restores the active document and the retained ones. */
  lemma SwitchingBackRestores(p: Pane, id: DocumentId, sync: SyncSnapshot, back: SyncSnapshot)
    requires PaneOk(p) && p.hasOpened && id in p.store.sessions
    ensures SameDocuments(p, Activated(Activated(p, id, sync), p.surface.documentId, back))
  {
    var there := Activated(p, id, sync);
    ActivationSwaps(p, id, sync);
    ActivatedOk(p, id, sync);
    ActivationSwaps(there, p.surface.documentId, back);
    SwappedTwice(p, id, there, Activated(there, p.surface.documentId, back));
  }

  // ------------------------------------------------------------ unsaved edits

  datatype Content = Content(text: string, dirty: bool)

  /** The text and dirty flag a pane has for a document. */
  function ContentOf(p: Pane, id: DocumentId): Option<Content> {
    if !p.hasOpened then None
    else if p.surface.documentId == id then Some(Content(p.surface.text, p.dirty))
    else if id in p.store.sessions then
      Some(Content(p.store.sessions[id].surface.text, p.store.sessions[id].dirty))
    else None
  }

  /** Events that are about a document's content: local edits of it, and server
      messages that name it. */
  predicate Addresses(p: Pane, event: Event, id: DocumentId) {
    match event
    case DocumentOpened(metadata, _, _) => metadata.documentId == id
    case Edit(_) => p.surface.documentId == id
    case ResyncSnapshot(other, _, _) => other == id
    case DocumentReloaded(metadata, _) => metadata.documentId == id
    case DocumentSaved(other, _, _) => other == id
    case _ => false
  }

  lemma StashKeepsContent(p: Pane, sync: SyncSnapshot, id: DocumentId)
    requires Live(p) && Holds(p, id)
    requires !CloseAttemptedSince(Stash(p, sync), |p.closes|, id)
    ensures var sessions := Stash(p, sync).store.sessions;
            id in sessions && ContentOf(p, id) == Some(Content(sessions[id].surface.text, sessions[id].dirty))
  {
    StashKeeps(p, sync, id);
    if |p.store.sessions| < MAX_RETAINED {
      StashWithRoom(p, sync);
    } else {
      StashWhenFull(p, sync);
    }
  }

  lemma OpeningKeepsContent(p: Pane, metadata: Metadata, text: string, sync: SyncSnapshot, id: DocumentId)
    requires Live(p) && Holds(p, id) && metadata.documentId != id
    requires !CloseAttemptedSince(Opened(p, metadata, text, sync), |p.closes|, id)
    ensures ContentOf(Opened(p, metadata, text, sync), id) == ContentOf(p, id)
  {
    if !IsDuplicateOpen(p, metadata) {
      assert Opened(p, metadata, text, sync).closes == Stash(p, sync).closes;
      StashKeepsContent(p, sync, id);
    }
  }

  /** Edits are not lost by switching: a step that neither addresses a document nor
      attempts to close it leaves its text and dirty flag as they were. */
  lemma ContentIsStable(p: Pane, event: Event, id: DocumentId)
    requires Live(p) && Holds(p, id)
    requires !Addresses(p, event, id)
    requires !CloseAttemptedSince(Step(p, event), |p.closes|, id)
    ensures ContentOf(Step(p, event), id) == ContentOf(p, id)
  {
    match event
    case DocumentOpened(metadata, text, sync) => OpeningKeepsContent(p, metadata, text, sync, id);
    case ActivateDocument(other, sync) =>
      if other != p.surface.documentId && other in p.store.sessions {
        ActivationSwaps(p, other, sync);
      }
    case ClosePane => ClosedLogs(p, id);
    case _ =>
  }

  /** No step from `i` up to `n` is about the content of the document. */
  ghost predicate Unaddressed(run: Run, i: nat, n: nat, id: DocumentId)
    requires i <= n <= |run.events| < |run.states|
  {
    forall j | i <= j < n :: !Addresses(run.states[j], run.events[j], id)
  }

  lemma UnaddressedBefore(run: Run, i: nat, n: nat, id: DocumentId)
    requires i <= n < |run.events| < |run.states| && Unaddressed(run, i, n + 1, id)
    ensures Unaddressed(run, i, n, id)
  {
  }

  /** A held document that no step addresses and no close is attempted for keeps its
      text and dirty flag. */
  lemma {:induction false} ContentSurvivesRuns(run: Run, i: nat, n: nat, id: DocumentId)
    requires IsRun(run) && i <= n <= |run.events|
    requires Holds(run.states[i], id) && Unaddressed(run, i, n, id)
    requires !CloseAttemptedSince(run.states[n], |run.states[i].closes|, id)
    ensures Holds(run.states[n], id)
    ensures ContentOf(run.states[n], id) == ContentOf(run.states[i], id)
    decreases n
  {
    HeldUntilClosed(run, i, n, id);
    if i < n {
      ClosesOnlyGrow(run, i, n - 1);
      NotAttemptedAt(run, n - 1, |run.states[i].closes|, id);
      UnaddressedBefore(run, i, n - 1, id);
      ContentSurvivesRuns(run, i, n - 1, id);
      ContentStaysAt(run, i, n - 1, id);
    }
  }

  /** Opening a document that is held keeps what the pane has of it only when nothing
      is reloaded or the server has the same: a retained copy is never restored. */
  lemma OpeningKeepsContentExactly(p: Pane, metadata: Metadata, text: string, sync: SyncSnapshot)
    requires PaneOk(p) && Holds(p, metadata.documentId)
    ensures ContentOf(Opened(p, metadata, text, sync), metadata.documentId) == ContentOf(p, metadata.documentId)
       <==> || IsDuplicateOpen(p, metadata)
            || ContentOf(p, metadata.documentId) == Some(Content(text, metadata.dirty))
  {
  }

  /** The losing input: a is opened and edited, b is opened, a is opened again. */
  lemma ReopeningLosesEdits(run: Run, a: Metadata, b: Metadata, edited: string)
    requires IsRun(run) && run.states[0] == BLANK_PANE && a.documentId != b.documentId
    requires |run.events| == 4
    requires run.events[0].DocumentOpened? && run.events[0].metadata == a
    requires run.events[1] == Edit(edited)
    requires run.events[2].DocumentOpened? && run.events[2].metadata == b
    requires run.events[3].DocumentOpened? && run.events[3].metadata == a
    ensures ContentOf(run.states[3], a.documentId) == Some(Content(edited, true))
    ensures ContentOf(run.states[4], a.documentId) == Some(Content(run.events[3].text, a.dirty))
    ensures !CloseAttemptedSince(run.states[4], 0, a.documentId)
  {
    assert IsStep(run, 0) && IsStep(run, 1) && IsStep(run, 2) && IsStep(run, 3);
    PartitionAlways(run, 2);
    PartitionAlways(run, 3);
    StashWithRoom(run.states[2], run.events[2].sync);
    StashWithRoom(run.states[3], run.events[3].sync);
  }

  /** The pane holds the document with unsaved edits. */
  predicate HoldsUnsaved(p: Pane, id: DocumentId) {
    ContentOf(p, id).Some? && ContentOf(p, id).value.dirty
  }

  /** The guard asks exactly whether the active document has unsaved edits. */
  lemma GuardAsksAboutActive(p: Pane)
    requires p.hasOpened
    ensures MayClose(p) <==> !HoldsUnsaved(p, p.surface.documentId)
  {
  }

  /** Closing a pane whose guard passed drops the unsaved edits of exactly the dirty
      retained documents, each with a forced close. */
  lemma ClosingDrops(p: Pane, id: DocumentId)
    requires PaneOk(p) && MayClose(p)
    ensures HoldsUnsaved(p, id) <==> id in p.store.sessions && p.store.sessions[id].dirty
    ensures ContentOf(Closed(p), id) == None
    ensures HoldsUnsaved(p, id) && p.queue ==> CloseAttempt(id, true) in Closed(p).closes
  {
    if HoldsUnsaved(p, id) && p.queue {
      assert id in p.store.lru;
      var i :| 0 <= i < |p.store.lru| && p.store.lru[i] == id;
      assert Forced(p.store.lru)[i] == CloseAttempt(id, true);
    }
  }

  /** After the guard has passed, closing the pane drops no unsaved edits if and only if
      no retained document has any: the guard asks about the active one only. */
  lemma GuardedCloseIsSafeExactly(p: Pane)
    requires PaneOk(p) && MayClose(p)
    ensures (forall id | HoldsUnsaved(p, id) :: HoldsUnsaved(Closed(p), id))
       <==> forall id | id in p.store.sessions :: !p.store.sessions[id].dirty
  {
    forall id: DocumentId
      ensures HoldsUnsaved(p, id) <==> id in p.store.sessions && p.store.sessions[id].dirty
      ensures !HoldsUnsaved(Closed(p), id)
    {
      ClosingDrops(p, id);
    }
    if id :| id in p.store.sessions && p.store.sessions[id].dirty {
      assert HoldsUnsaved(p, id);
    }
  }

  /** The losing input: a is opened and edited, b is opened, the pane is closed.  The
      guard passes, and the edit is dropped with a forced close. */
  lemma GuardMissesRetainedEdits(run: Run, a: Metadata, b: Metadata, edited: string)
    requires IsRun(run) && run.states[0] == BLANK_PANE && a.documentId != b.documentId && !b.dirty
    requires |run.events| == 4
    requires run.events[0].DocumentOpened? && run.events[0].metadata == a
    requires run.events[1] == Edit(edited)
    requires run.events[2].DocumentOpened? && run.events[2].metadata == b
    requires run.events[3] == ClosePane
    ensures ContentOf(run.states[3], a.documentId) == Some(Content(edited, true)) && MayClose(run.states[3])
    ensures ContentOf(run.states[4], a.documentId) == None
    ensures CloseAttempt(a.documentId, true) in run.states[4].closes
  {
    assert IsStep(run, 0) && IsStep(run, 1) && IsStep(run, 2) && IsStep(run, 3);
    PartitionAlways(run, 2);
    PartitionAlways(run, 3);
    StashWithRoom(run.states[2], run.events[2].sync);
    ClosingDrops(run.states[3], a.documentId);
  }

  lemma NotAttemptedAt(run: Run, n: nat, from: nat, id: DocumentId)
    requires IsRun(run) && n < |run.events| && from <= |run.states[n].closes|
    requires !CloseAttemptedSince(run.states[n + 1], from, id)
    ensures !CloseAttemptedSince(run.states[n], from, id)
    ensures !CloseAttemptedSince(run.states[n + 1], |run.states[n].closes|, id)
  {
    assert IsStep(run, n);
    NotAttemptedBefore(run.states[n], run.events[n], from, id);
  }

  lemma ContentStaysAt(run: Run, i: nat, n: nat, id: DocumentId)
    requires IsRun(run) && i <= n < |run.events|
    requires Holds(run.states[n], id) && Unaddressed(run, i, n + 1, id)
    requires !CloseAttemptedSince(run.states[n + 1], |run.states[n].closes|, id)
    ensures ContentOf(run.states[n + 1], id) == ContentOf(run.states[n], id)
  {
    PartitionAlways(run, n);
    assert !Addresses(run.states[n], run.events[n], id);
    assert IsStep(run, n);
    ContentIsStable(run.states[n], run.events[n], id);
  }

  lemma NotAttemptedBefore(p: Pane, event: Event, from: nat, id: DocumentId)
    requires from <= |p.closes|
    requires !CloseAttemptedSince(Step(p, event), from, id)
    ensures !CloseAttemptedSince(p, from, id) && !CloseAttemptedSince(Step(p, event), |p.closes|, id)
  {
    if CloseAttemptedSince(p, from, id) {
      AttemptedLater(p, event, from, id);
    }
    if CloseAttemptedSince(Step(p, event), |p.closes|, id) {
      AttemptedFrom(Step(p, event), from, |p.closes|, id);
    }
  }

  // ------------------------------------------------- which opens take effect

  /** A reconnect came, and no open or pane close after it. */
  ghost predicate Reconnected(events: seq<Event>, n: nat)
    requires n <= |events|
  {
    exists k | 0 <= k < n :: ReconnectedAt(events, k, n)
  }

  ghost predicate ReconnectedAt(events: seq<Event>, k: nat, n: nat)
    requires k < n <= |events|
  {
    events[k].Reconnect? && forall m | k < m < n :: !events[m].DocumentOpened? && !events[m].ClosePane?
  }

  lemma ReconnectedStep(events: seq<Event>, n: nat)
    requires n < |events|
    ensures Reconnected(events, n + 1) <==>
            || events[n].Reconnect?
            || (Reconnected(events, n) && !events[n].DocumentOpened? && !events[n].ClosePane?)
  {
    if events[n].Reconnect? {
      assert ReconnectedAt(events, n, n + 1);
    }
    if k :| 0 <= k < n && ReconnectedAt(events, k, n) && !events[n].DocumentOpened? && !events[n].ClosePane? {
      assert ReconnectedAt(events, k, n + 1);
    }
    var next := n + 1;
    if k :| 0 <= k < next && ReconnectedAt(events, k, next) {
      assert k < n ==> ReconnectedAt(events, k, n);
    }
  }

  /** An open after a reconnect is never ignored, so it ends the wait for one. */
  lemma ResyncStep(p: Pane, event: Event)
    ensures Step(p, event).pendingResync <==>
            event.Reconnect? || (p.pendingResync && !event.DocumentOpened? && !event.ClosePane?)
  {
  }

  lemma {:induction false} ResyncMeansReconnected(run: Run, n: nat)
    requires IsRun(run) && n <= |run.events|
    ensures run.states[n].pendingResync <==> Reconnected(run.events, n)
  {
    if n > 0 {
      ResyncMeansReconnected(run, n - 1);
      assert IsStep(run, n - 1);
      ResyncStep(run.states[n - 1], run.events[n - 1]);
      ReconnectedStep(run.events, n - 1);
    }
  }

  /** The pane shows the document of the message as the server sent it. */
  predicate Installed(p: Pane, metadata: Metadata, text: string) {
    && p.hasOpened && p.surface == Surface(metadata.documentId, metadata.version, text) && p.dirty == metadata.dirty
    && p.activePath == Some((metadata.workspaceRootId, metadata.path))
  }

  /** Over whole runs: an open is ignored if and only if it names the active document of
      a pane with an opened document and no reconnect came since the last open or close;
      every other open installs the server's state. */
  lemma OpenIsIgnoredExactly(run: Run, n: nat)
    requires IsRun(run) && n < |run.events| && run.events[n].DocumentOpened?
    ensures var before, after, metadata := run.states[n], run.states[n + 1], run.events[n].metadata;
            var repeated := before.hasOpened && before.surface.documentId == metadata.documentId
                            && !Reconnected(run.events, n);
            && (after == before <==> repeated)
            && (!repeated ==> Installed(after, metadata, run.events[n].text))
  {
    ResyncMeansReconnected(run, n);
    assert IsStep(run, n);
    ResyncStep(run.states[n], run.events[n]);
  }

  // ------------------------------------------------------------- recorded paths

  /** The identity of the last document whose open took effect since the last pane
      close. */
  function LastOpened(run: Run, n: nat): Option<Identity>
    requires n <= |run.events| < |run.states|
  {
    if n == 0 then None
    else
      var before := LastOpened(run, n - 1);
      match run.events[n - 1]
      case DocumentOpened(metadata, _, _) =>
        if IsDuplicateOpen(run.states[n - 1], metadata) then before
        else Some((metadata.workspaceRootId, metadata.path))
      case ClosePane => None
      case _ => before
  }

  lemma PathStep(p: Pane, event: Event)
    ensures Step(p, event).activePath ==
            match event
            case DocumentOpened(metadata, _, _) =>
              if IsDuplicateOpen(p, metadata) then p.activePath else Some((metadata.workspaceRootId, metadata.path))
            case ClosePane => None
            case _ => p.activePath
  {
  }

  /** The recorded path follows opens, not activations. */
  lemma {:induction false} RecordedPathIsLastOpened(run: Run, n: nat)
    requires IsRun(run) && n <= |run.events|
    ensures run.states[n].activePath == LastOpened(run, n)
  {
    if n > 0 {
      RecordedPathIsLastOpened(run, n - 1);
      assert IsStep(run, n - 1);
      PathStep(run.states[n - 1], run.events[n - 1]);
    }
  }

  /** A stashed document is retained under the recorded path, whatever its own. */
  lemma StashedUnderRecordedPath(p: Pane, metadata: Metadata, text: string, sync: SyncSnapshot)
    requires PaneOk(p) && p.hasOpened && metadata.documentId != p.surface.documentId
    requires p.activePath.Some?
    ensures var sessions := Opened(p, metadata, text, sync).store.sessions;
            && p.surface.documentId in sessions
            && (sessions[p.surface.documentId].workspaceRootId, sessions[p.surface.documentId].path)
               == p.activePath.value
  {
    StashRetains(p, sync);
  }
}
