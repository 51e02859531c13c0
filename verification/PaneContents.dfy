/** What a pane has of each document: a server message means the same for the active
    document and for a retained one (src/masonry_pane_document.rs). */
module PaneContents {
  import opened Wrappers
  import opened DocumentSessions
  import opened PaneDocument
  import opened PaneLaws
  import opened PaneReopen

  datatype Document = Document(version: nat, text: string, dirty: bool)

  /** What the pane has of a document, active or retained. */
  function DocumentOf(p: Pane, id: DocumentId): Option<Document> {
    if !p.hasOpened then None
    else if p.surface.documentId == id then Some(Document(p.surface.version, p.surface.text, p.dirty))
    else if id in p.store.sessions then
      var session := p.store.sessions[id];
      Some(Document(session.surface.version, session.surface.text, session.dirty))
    else None
  }

  /** What an event makes of a document, wherever the pane holds it; `active` says whether
      the user edits it, `ignored` whether an open of it is taken for a repetition. */
  function After(doc: Document, event: Event, id: DocumentId, active: bool, ignored: bool): Document {
    match event
    case DocumentOpened(metadata, text, _) =>
      if metadata.documentId == id && !ignored then Document(metadata.version, text, metadata.dirty) else doc
    case Edit(text) => if active then Document(doc.version, text, true) else doc
    case EditAck(other, version) => if other == id then doc.(version := version) else doc
    case ResyncSnapshot(other, version, text) => if other == id then Document(version, text, false) else doc
    case DocumentReloaded(metadata, text) =>
      if metadata.documentId == id then Document(metadata.version, text, metadata.dirty) else doc
    case DocumentSaved(other, version, dirty) =>
      if other == id then doc.(version := version, dirty := dirty) else doc
    case ActivateDocument(_, _) => doc
    case Reconnect => doc
    case ClosePane => doc
  }

  // ------------------------------------------------------------------- one step

  lemma StashKeepsDocument(p: Pane, sync: SyncSnapshot, id: DocumentId)
    requires Live(p) && Holds(p, id)
    requires !CloseAttemptedSince(Stash(p, sync), |p.closes|, id)
    ensures var sessions := Stash(p, sync).store.sessions;
            && id in sessions
            && DocumentOf(p, id) ==
               Some(Document(sessions[id].surface.version, sessions[id].surface.text, sessions[id].dirty))
  {
    StashKeeps(p, sync, id);
    if |p.store.sessions| < MAX_RETAINED {
      StashWithRoom(p, sync);
    } else {
      StashWhenFull(p, sync);
    }
  }

  lemma OpenedDocument(p: Pane, metadata: Metadata, text: string, sync: SyncSnapshot, id: DocumentId)
    requires Live(p) && Holds(p, id)
    requires !CloseAttemptedSince(Opened(p, metadata, text, sync), |p.closes|, id)
    ensures DocumentOf(Opened(p, metadata, text, sync), id) ==
            if metadata.documentId == id && !IsDuplicateOpen(p, metadata)
            then Some(Document(metadata.version, text, metadata.dirty)) else DocumentOf(p, id)
  {
    if !IsDuplicateOpen(p, metadata) && metadata.documentId != id {
      assert Opened(p, metadata, text, sync).closes == Stash(p, sync).closes;
      StashKeepsDocument(p, sync, id);
    }
  }

  /** A step makes of a held document what the event says, unless the pane is closed or
      its close is attempted. */
  lemma DocumentStep(p: Pane, event: Event, id: DocumentId)
    requires Live(p) && Holds(p, id)
    requires !CloseAttemptedSince(Step(p, event), |p.closes|, id)
    ensures var ignored := event.DocumentOpened? && IsDuplicateOpen(p, event.metadata);
            DocumentOf(p, id).Some? && DocumentOf(Step(p, event), id) ==
            Some(After(DocumentOf(p, id).value, event, id, p.surface.documentId == id, ignored))
  {
    match event
    case DocumentOpened(metadata, text, sync) => OpenedDocument(p, metadata, text, sync, id);
    case ActivateDocument(other, sync) =>
      if other != p.surface.documentId && other in p.store.sessions {
        ActivationSwaps(p, other, sync);
      }
    case ClosePane => ClosedLogs(p, id);
    case _ =>
  }

  /** Only an open takes a document in. */
  lemma HeldOnlyAfterOpen(p: Pane, event: Event, id: DocumentId)
    requires Live(p) && Holds(Step(p, event), id)
    ensures Holds(p, id) || (event.DocumentOpened? && event.metadata.documentId == id)
  {
    match event
    case DocumentOpened(metadata, text, sync) =>
      if p.hasOpened && !IsDuplicateOpen(p, metadata) {
        StashOk(p, sync);
      }
    case ActivateDocument(other, sync) =>
      if p.hasOpened && other != p.surface.documentId && other in p.store.sessions {
        ActivationSwaps(p, other, sync);
      }
    case _ =>
  }

  // ------------------------------------------------------------------- whole runs

  /** An open at step `m` repeats the active document, and no reconnect asked for it. */
  ghost predicate IsRepeated(run: Run, m: nat)
    requires m < |run.events| < |run.states|
  {
    && run.events[m].DocumentOpened? && run.states[m].hasOpened
    && run.states[m].surface.documentId == run.events[m].metadata.documentId && !Reconnected(run.events, m)
  }

  /** What the steps from `i` up to `n` make of a document. */
  ghost function AfterAll(run: Run, i: nat, n: nat, id: DocumentId, doc: Document): Document
    requires i <= n <= |run.events| < |run.states|
  {
    if n == i then doc
    else After(AfterAll(run, i, n - 1, id, doc), run.events[n - 1], id,
               run.states[n - 1].surface.documentId == id, IsRepeated(run, n - 1))
  }

  lemma DocumentStepAt(run: Run, n: nat, id: DocumentId)
    requires IsRun(run) && n < |run.events| && Holds(run.states[n], id)
    requires !CloseAttemptedSince(run.states[n + 1], |run.states[n].closes|, id)
    ensures DocumentOf(run.states[n], id).Some? && DocumentOf(run.states[n + 1], id) ==
            Some(After(DocumentOf(run.states[n], id).value, run.events[n], id, run.states[n].surface.documentId == id,
                       IsRepeated(run, n)))
  {
    PartitionAlways(run, n);
    ResyncMeansReconnected(run, n);
    assert IsStep(run, n);
    DocumentStep(run.states[n], run.events[n], id);
  }

  /** Over whole runs: as long as no close is attempted for it, a held document is what
      the events since have made of it, however often it was stashed and activated. */
  lemma {:induction false} DocumentFollowsEvents(run: Run, i: nat, n: nat, id: DocumentId)
    requires IsRun(run) && i <= n <= |run.events|
    requires Holds(run.states[i], id) && !CloseAttemptedSince(run.states[n], |run.states[i].closes|, id)
    ensures DocumentOf(run.states[i], id).Some? && Holds(run.states[n], id)
    ensures DocumentOf(run.states[n], id) == Some(AfterAll(run, i, n, id, DocumentOf(run.states[i], id).value))
    decreases n
  {
    HeldUntilClosed(run, i, n, id);
    if i < n {
      ClosesOnlyGrow(run, i, n - 1);
      NotAttemptedAt(run, n - 1, |run.states[i].closes|, id);
      DocumentFollowsEvents(run, i, n - 1, id);
      DocumentStepAt(run, n - 1, id);
    }
  }

  // ------------------------------------------------- what is known of retained edits

  /** The edits among `before` that are of the document. */
  lemma {:induction false} PendingOfMeaning(before: seq<PendingEdit>, id: DocumentId)
    ensures forall edit :: edit in PendingOf(before, id) <==> edit in before && edit.documentId == id
    ensures (forall edit | edit in before :: edit.documentId == id) ==> PendingOf(before, id) == before
  {
    if before != [] {
      PendingOfMeaning(before[1..], id);
    }
  }

  /** The confirmed version and the pending edits of a retained document. */
  function SyncOf(session: Session): SyncSnapshot {
    SyncSnapshot(session.confirmedVersion, session.pending)
  }

  /** What an event leaves of the pending edits of a retained document. */
  ghost predicate SyncAfter(before: SyncSnapshot, event: Event, id: DocumentId, after: SyncSnapshot) {
    match event
    case EditAck(other, version) =>
      if other == id then after.confirmedVersion == version && after.pending == PendingOf(before.pending, id)
      else after == before
    case ResyncSnapshot(other, version, _) => after == if other == id then SyncSnapshot(version, []) else before
    case DocumentReloaded(metadata, _) =>
      after == if metadata.documentId == id then SyncSnapshot(metadata.version, []) else before
    case DocumentSaved(other, version, _) =>
      after == if other == id then SyncSnapshot(version, before.pending) else before
    case _ => after == before
  }

  /** The snapshot of the edit queue that comes with a step that may stash. */
  function SnapshotOf(event: Event): SyncSnapshot
    requires event.DocumentOpened? || event.ActivateDocument?
  {
    if event.DocumentOpened? then event.sync else event.activateSync
  }

  lemma StashedSync(p: Pane, sync: SyncSnapshot, id: DocumentId)
    requires Live(p) && p.hasOpened && id in Stash(p, sync).store.sessions
    ensures if id == p.surface.documentId then SyncOf(Stash(p, sync).store.sessions[id]) == sync
            else id in p.store.sessions && Stash(p, sync).store.sessions[id] == p.store.sessions[id]
  {
    if |p.store.sessions| < MAX_RETAINED {
      StashWithRoom(p, sync);
    } else {
      StashWhenFull(p, sync);
    }
  }

  lemma OpenedSync(p: Pane, metadata: Metadata, text: string, sync: SyncSnapshot, id: DocumentId)
    requires Live(p) && p.hasOpened && !IsDuplicateOpen(p, metadata)
    requires id in Opened(p, metadata, text, sync).store.sessions
    ensures var session := Opened(p, metadata, text, sync).store.sessions[id];
            if id == p.surface.documentId then SyncOf(session) == sync
            else id in p.store.sessions && session == p.store.sessions[id]
  {
    StashedSync(p, sync, id);
  }

  lemma ActivatedSync(p: Pane, other: DocumentId, sync: SyncSnapshot, id: DocumentId)
    requires Live(p) && p.hasOpened && other != p.surface.documentId && other in p.store.sessions
    requires id in Activated(p, other, sync).store.sessions
    ensures var session := Activated(p, other, sync).store.sessions[id];
            if id == p.surface.documentId then SyncOf(session) == sync
            else id in p.store.sessions && session == p.store.sessions[id]
  {
    RemoveOk(p.store, other);
    StashedSync(p.(store := Remove(p.store, other)), sync, id);
  }

  lemma MessageSync(p: Pane, event: Event, id: DocumentId)
    requires Live(p) && OnlyUpdates(event) && id in Step(p, event).store.sessions
    ensures id in p.store.sessions
    ensures SyncAfter(SyncOf(p.store.sessions[id]), event, id, SyncOf(Step(p, event).store.sessions[id]))
  {
  }

  /** A document is retained with what the edit queue knew when it was stashed, and from
      then on only messages that name it change that. */
  lemma RetainedSync(p: Pane, event: Event, id: DocumentId)
    requires Live(p) && id in Step(p, event).store.sessions
    ensures var after := SyncOf(Step(p, event).store.sessions[id]);
            if Stashes(p, event, id) then after == SnapshotOf(event)
            else id in p.store.sessions && SyncAfter(SyncOf(p.store.sessions[id]), event, id, after)
  {
    match event
    case DocumentOpened(metadata, text, sync) =>
      if p.hasOpened && !IsDuplicateOpen(p, metadata) {
        OpenedSync(p, metadata, text, sync, id);
      }
    case ActivateDocument(other, sync) =>
      if p.hasOpened && other != p.surface.documentId && other in p.store.sessions {
        ActivatedSync(p, other, sync, id);
      }
    case ClosePane =>
    case _ => MessageSync(p, event, id);
  }

  // ---------------------------------------------------------------- closing a pane

  lemma ListedIsRetained(s: Store, k: nat)
    requires Ordered(s) && k < |s.lru|
    ensures s.lru[k] in s.sessions
  {
    var id := s.lru[k];
    assert id in s.lru;
  }

  /** Closing a pane sends one close for each document it holds and for no other; it is
      forced exactly for the retained ones. */
  lemma ClosePaneSends(p: Pane)
    requires Live(p)
    ensures var sent := Closed(p).closes[|p.closes|..];
            && Closed(p).closes == p.closes + sent
            && (forall k | 0 <= k < |sent| ::
                  Holds(p, sent[k].documentId) && (sent[k].force <==> sent[k].documentId != p.surface.documentId))
            && (forall k, l | 0 <= k < l < |sent| :: sent[k].documentId != sent[l].documentId)
            && (forall id | Holds(p, id) :: exists k | 0 <= k < |sent| :: sent[k].documentId == id)
    ensures !Closed(p).hasOpened && Closed(p).store.sessions == map[]
  {
    var active := if p.hasOpened then [CloseAttempt(p.surface.documentId, false)] else [];
    var sent := Closed(p).closes[|p.closes|..];
    assert sent == active + Forced(p.store.lru);
    forall k | 0 <= k < |p.store.lru|
      ensures p.store.lru[k] in p.store.sessions
    {
      ListedIsRetained(p.store, k);
    }
    forall k | |active| <= k < |sent|
      ensures sent[k] == CloseAttempt(p.store.lru[k - |active|], true) && sent[k].documentId in p.store.sessions
    {
      assert p.store.lru[k - |active|] in p.store.lru;
    }
    forall id | Holds(p, id)
      ensures exists k | 0 <= k < |sent| :: sent[k].documentId == id
    {
      if id == p.surface.documentId {
        assert sent[0].documentId == id;
      } else {
        var i :| 0 <= i < |p.store.lru| && p.store.lru[i] == id;
        assert sent[|active| + i].documentId == id;
      }
    }
  }
}
