/** One pane's documents: the active one and the retained ones
    (src/masonry_pane_document.rs, `PaneDocumentView`).

    `Step` specifies every operation on pane states, the class has the operations
    as written, and PaneLaws.dfy reasons about whole runs. */
module PaneDocument {
  import opened Wrappers
  import opened Sequences
  import opened DocumentSessions

  datatype Metadata = Metadata(documentId: DocumentId, version: nat, workspaceRootId: nat, path: string, dirty: bool)

  /** What the edit queue knows about a document when it is stashed. */
  datatype SyncSnapshot = SyncSnapshot(confirmedVersion: nat, pending: seq<PendingEdit>)

  /** A `CloseDocument` message handed to the edit queue. */
  datatype CloseAttempt = CloseAttempt(documentId: DocumentId, force: bool)

  type Identity = (nat, string)

  /** `queue` says whether the view has an edit queue; `closes` logs the close
      messages handed to it. */
  datatype Pane = Pane(
    surface: Surface,
    hasOpened: bool,
    dirty: bool,
    activePath: Option<Identity>,
    pendingResync: bool,
    queue: bool,
    store: Store,
    closes: seq<CloseAttempt>
  )

  const BLANK_PANE := Pane(BLANK_SURFACE, false, false, None, false, true, NO_SESSIONS, [])

  datatype Event =
    | DocumentOpened(metadata: Metadata, text: string, sync: SyncSnapshot)
    | ActivateDocument(documentId: DocumentId, activateSync: SyncSnapshot)
    | Edit(newText: string)
    | EditAck(ackId: DocumentId, ackVersion: nat)
    | ResyncSnapshot(snapshotId: DocumentId, snapshotVersion: nat, snapshotText: string)
    | DocumentReloaded(reloaded: Metadata, reloadedText: string)
    | DocumentSaved(savedId: DocumentId, savedVersion: nat, savedDirty: bool)
    | Reconnect
    | ClosePane

  function Forced(ids: seq<DocumentId>): seq<CloseAttempt> {
    seq(|ids|, i requires 0 <= i < |ids| => CloseAttempt(ids[i], true))
  }

  function Confirm(surface: Surface, id: DocumentId, version: nat): Surface {
    if surface.documentId == id then surface.(version := version) else surface
  }

  function PendingOf(pending: seq<PendingEdit>, id: DocumentId): seq<PendingEdit> {
    if pending == [] then []
    else (if pending[0].documentId == id then [pending[0]] else []) + PendingOf(pending[1..], id)
  }

  function StashedSession(p: Pane, sync: SyncSnapshot): Session {
    var (root, path) := if p.activePath.Some? then p.activePath.value else (0, "");
    var known := if p.queue then sync else SyncSnapshot(p.surface.version, []);
    Session(p.surface, p.dirty, known.confirmedVersion, known.pending, 0, root, path)
  }

  /** Moves the active document into the store; whatever the store evicts is
      closed on the server. */
  function Stash(p: Pane, sync: SyncSnapshot): Pane {
    var (store, evicted) := Insert(p.store, p.surface.documentId, StashedSession(p, sync));
    p.(surface := BLANK_SURFACE, store := store, closes := p.closes + if p.queue then Forced(evicted) else [])
  }

  /** Opening the active document again changes nothing, unless the connection is
      new. */
  predicate IsDuplicateOpen(p: Pane, metadata: Metadata) {
    p.hasOpened && metadata.documentId == p.surface.documentId && !p.pendingResync
  }

  function Opened(p: Pane, metadata: Metadata, text: string, sync: SyncSnapshot): Pane {
    if IsDuplicateOpen(p, metadata) then p
    else
      var stashed := if p.hasOpened then Stash(p, sync) else p;
      var store := if p.hasOpened then Remove(stashed.store, metadata.documentId) else stashed.store;
      stashed.(
        store := store,
        surface := Surface(metadata.documentId, metadata.version, text),
        hasOpened := true,
        dirty := metadata.dirty,
        activePath := Some((metadata.workspaceRootId, metadata.path)),
        pendingResync := false)
  }

  function Activated(p: Pane, id: DocumentId, sync: SyncSnapshot): Pane {
    if !p.hasOpened || id == p.surface.documentId then p
    else if id !in p.store.sessions then p.(store := Remove(p.store, id))
    else
      var retained := p.store.sessions[id];
      Stash(p.(store := Remove(p.store, id)), sync).(surface := retained.surface, dirty := retained.dirty)
  }

  function WithSession(p: Pane, id: DocumentId, session: Session): Pane {
    p.(store := p.store.(sessions := p.store.sessions[id := session]))
  }

  /** `guard_pane_close`: the pane may close; only the active document is asked about. */
  predicate MayClose(p: Pane) {
    !p.dirty
  }

  function Closed(p: Pane): Pane {
    var active := if p.hasOpened then [CloseAttempt(p.surface.documentId, false)] else [];
    var attempts := if p.queue then active + Forced(p.store.lru) else [];
    p.(surface := BLANK_SURFACE, hasOpened := false, dirty := false, activePath := None, pendingResync := false,
       store := Clear(p.store), closes := p.closes + attempts)
  }

  /** The identity under which a session is retained. */
  function IdentityOf(session: Session): Identity {
    (session.workspaceRootId, session.path)
  }

  predicate HasPath(documents: seq<Identity>, path: string) {
    exists i | 0 <= i < |documents| :: documents[i].1 == path
  }

  /** Adds the identities whose path is not empty and not listed yet. */
  function AddAll(documents: seq<Identity>, more: seq<Identity>): seq<Identity>
    decreases |more|
  {
    if more == [] then documents
    else
      AddAll(if more[0].1 != "" && !HasPath(documents, more[0].1) then documents + [more[0]] else documents, more[1..])
  }

  /** The retained ids in the order in which the session map yields them. */
  ghost predicate Enumerates(order: seq<DocumentId>, sessions: SessionMap) {
    Distinct(order) && forall id :: id in order <==> id in sessions
  }

  function Identities(sessions: SessionMap, order: seq<DocumentId>): (all: seq<Identity>)
    requires forall id | id in order :: id in sessions
    ensures |all| == |order|
    ensures forall i | 0 <= i < |order| :: order[i] in sessions && all[i] == IdentityOf(sessions[order[i]])
  {
    if order == [] then []
    else
      var first := order[0];
      assert first in order;
      [IdentityOf(sessions[first])] + Identities(sessions, order[1..])
  }

  /** The recorded path of the active document, if it has one. */
  function ActiveIdentity(p: Pane): seq<Identity> {
    if p.activePath.Some? && p.activePath.value.1 != "" then [p.activePath.value] else []
  }

  /** The identities a reconnected pane opens again. */
  function ForReopen(p: Pane, order: seq<DocumentId>): seq<Identity>
    requires forall id | id in order :: id in p.store.sessions
  {
    AddAll(ActiveIdentity(p), Identities(p.store.sessions, order))
  }

  function Step(p: Pane, event: Event): Pane {
    match event
    case DocumentOpened(metadata, text, sync) => Opened(p, metadata, text, sync)
    case ActivateDocument(id, sync) => Activated(p, id, sync)
    case Edit(text) => p.(surface := p.surface.(text := text), dirty := true)
    case EditAck(id, version) =>
      if id == p.surface.documentId then p.(surface := Confirm(p.surface, id, version))
      else if id in p.store.sessions then
        var session := p.store.sessions[id];
        WithSession(p, id, session.(surface := Confirm(session.surface, id, version), confirmedVersion := version,
                                    pending := PendingOf(session.pending, id)))
      else p
    case ResyncSnapshot(id, version, text) =>
      if p.hasOpened && id != p.surface.documentId then
        if id in p.store.sessions then
          WithSession(p, id, p.store.sessions[id].(surface := Surface(id, version, text), confirmedVersion := version,
                                                   pending := [], dirty := false))
        else p
      else p.(surface := Surface(id, version, text), dirty := false)
    case DocumentReloaded(metadata, text) =>
      var id := metadata.documentId;
      var surface := Surface(id, metadata.version, text);
      if id != p.surface.documentId then
        if id in p.store.sessions then
          WithSession(p, id, p.store.sessions[id].(surface := surface, confirmedVersion := metadata.version,
                                                   pending := [], dirty := metadata.dirty))
        else p
      else p.(surface := surface, dirty := metadata.dirty)
    case DocumentSaved(id, version, dirty) =>
      if id != p.surface.documentId then
        if id in p.store.sessions then
          var session := p.store.sessions[id];
          WithSession(p, id, session.(surface := Confirm(session.surface, id, version), confirmedVersion := version,
                                      dirty := dirty))
        else p
      else p.(surface := Confirm(p.surface, id, version), dirty := dirty)
    case Reconnect => p.(queue := true, pendingResync := true)
    case ClosePane => Closed(p)
  }

  // -------------------------------------------------------------- as it is written

  class PaneDocumentView {
    const sessions: DocumentSessionStore
    var editor: Surface
    var hasOpenedDocument: bool
    var dirty: bool
    var activeDocumentPath: Option<Identity>
    var pendingReconnectResync: bool
    var editQueue: bool
    var closeLog: seq<CloseAttempt>

    constructor ()
      ensures State() == BLANK_PANE && fresh(sessions)
    {
      sessions := new DocumentSessionStore();
      editor, hasOpenedDocument, dirty, activeDocumentPath := BLANK_SURFACE, false, false, None;
      pendingReconnectResync, editQueue, closeLog := false, true, [];
    }

    function State(): Pane
      reads this, sessions
    {
      Pane(editor, hasOpenedDocument, dirty, activeDocumentPath, pendingReconnectResync, editQueue,
           sessions.State(), closeLog)
    }

    method StashActiveSession(sync: SyncSnapshot)
      modifies this, sessions
      ensures State() == Stash(old(State()), sync)
    {
      var documentId := editor.documentId;
      var known := if editQueue then sync else SyncSnapshot(editor.version, []);
      var outgoing := editor;
      editor := BLANK_SURFACE;
      var identity := if activeDocumentPath.Some? then activeDocumentPath.value else (0, "");
      var session := Session(outgoing, dirty, known.confirmedVersion, known.pending, 0, identity.0, identity.1);
      var evicted := sessions.InsertSession(documentId, session);
      if editQueue {
        ForceCloseAll(evicted);
      }
    }

    /** Hands one forced close per id to the edit queue. */
    method ForceCloseAll(ids: seq<DocumentId>)
      modifies `closeLog
      ensures closeLog == old(closeLog) + Forced(ids)
    {
      for i := 0 to |ids|
        invariant closeLog == old(closeLog) + Forced(ids[..i])
      {
        closeLog := closeLog + [CloseAttempt(ids[i], true)];
        assert Forced(ids[..i + 1]) == Forced(ids[..i]) + [CloseAttempt(ids[i], true)];
      }
      assert ids[..|ids|] == ids;
    }

    method OpenDocumentSession(metadata: Metadata, text: string, sync: SyncSnapshot) returns (changed: bool)
      modifies this, sessions
      ensures State() == Opened(old(State()), metadata, text, sync)
      ensures changed <==> !IsDuplicateOpen(old(State()), metadata)
    {
      if hasOpenedDocument && metadata.documentId == editor.documentId && !pendingReconnectResync {
        return false;
      }
      if hasOpenedDocument {
        StashActiveSession(sync);
        var _ := sessions.RemoveSession(metadata.documentId);
      }
      editor := Surface(metadata.documentId, metadata.version, text);
      hasOpenedDocument := true;
      activeDocumentPath := Some((metadata.workspaceRootId, metadata.path));
      pendingReconnectResync := false;
      dirty := metadata.dirty;
      return true;
    }

    method ActivateSession(id: DocumentId, sync: SyncSnapshot) returns (changed: bool)
      modifies this, sessions
      ensures State() == Activated(old(State()), id, sync)
      ensures changed <==> old(hasOpenedDocument && id != editor.documentId && id in sessions.sessions)
    {
      if !hasOpenedDocument {
        return false;
      }
      if id == editor.documentId {
        return false;
      }
      var retained := sessions.RemoveSession(id);
      if retained.None? {
        return false;
      }
      StashActiveSession(sync);
      editor := retained.value.surface;
      dirty := retained.value.dirty;
      return true;
    }

    method NoteEditAck(id: DocumentId, version: nat)
      modifies this, sessions
      ensures State() == Step(old(State()), Event.EditAck(id, version))
    {
      if id != editor.documentId {
        if id in sessions.sessions {
          var session := sessions.sessions[id];
          sessions.UpdateSession(id, session.(surface := Confirm(session.surface, id, version),
                                              confirmedVersion := version, pending := PendingOf(session.pending, id)));
        }
        return;
      }
      editor := Confirm(editor, id, version);
    }

    method LoadResync(id: DocumentId, version: nat, text: string)
      modifies this, sessions
      ensures State() == Step(old(State()), Event.ResyncSnapshot(id, version, text))
    {
      if hasOpenedDocument && id != editor.documentId {
        if id in sessions.sessions {
          var session := sessions.sessions[id];
          sessions.UpdateSession(id, session.(surface := Surface(id, version, text), confirmedVersion := version,
                                              pending := [], dirty := false));
        }
        return;
      }
      editor := Surface(id, version, text);
      dirty := false;
    }

    method ReloadDocument(metadata: Metadata, text: string)
      modifies this, sessions
      ensures State() == Step(old(State()), Event.DocumentReloaded(metadata, text))
    {
      var id := metadata.documentId;
      if id != editor.documentId {
        if id in sessions.sessions {
          var session := sessions.sessions[id];
          sessions.UpdateSession(id, session.(surface := Surface(id, metadata.version, text),
                                              confirmedVersion := metadata.version, pending := [],
                                              dirty := metadata.dirty));
        }
        return;
      }
      editor := Surface(id, metadata.version, text);
      dirty := metadata.dirty;
    }

    method NoteSaved(id: DocumentId, version: nat, stillDirty: bool)
      modifies this, sessions
      ensures State() == Step(old(State()), Event.DocumentSaved(id, version, stillDirty))
    {
      if id != editor.documentId {
        if id in sessions.sessions {
          var session := sessions.sessions[id];
          sessions.UpdateSession(id, session.(surface := Confirm(session.surface, id, version),
                                              confirmedVersion := version, dirty := stillDirty));
        }
        return;
      }
      editor := Confirm(editor, id, version);
      dirty := stillDirty;
    }

    method ReconnectQueue()
      modifies this
      ensures State() == Step(old(State()), Event.Reconnect)
    {
      editQueue := true;
      pendingReconnectResync := true;
    }

    method DocumentsForReopen(order: seq<DocumentId>) returns (documents: seq<Identity>)
      requires Enumerates(order, sessions.sessions)
      ensures documents == ForReopen(State(), order)
    {
      documents := [];
      if activeDocumentPath.Some? && activeDocumentPath.value.1 != "" {
        documents := documents + [activeDocumentPath.value];
      }
      ghost var all := Identities(sessions.sessions, order);
      assert all[0..] == all && documents == ActiveIdentity(State());
      for i := 0 to |order|
        invariant AddAll(documents, all[i..]) == ForReopen(State(), order)
      {
        var identity := IdentityOf(sessions.sessions[order[i]]);
        assert all[i..][0] == identity && all[i..][1..] == all[i + 1..];
        if identity.1 != "" && !HasPath(documents, identity.1) {
          documents := documents + [identity];
        }
      }
    }

    method GuardPaneClose() returns (mayClose: bool)
      ensures mayClose <==> MayClose(State())
    {
      if !dirty {
        return true;
      }
      return false;
    }

    method CloseAll()
      modifies this, sessions
      ensures State() == Closed(old(State()))
    {
      var retained := sessions.lru;
      ghost var active := if hasOpenedDocument then [CloseAttempt(editor.documentId, false)] else [];
      if editQueue {
        assert closeLog + active + Forced(retained) == closeLog + (active + Forced(retained));
        if hasOpenedDocument {
          closeLog := closeLog + [CloseAttempt(editor.documentId, false)];
        }
        ForceCloseAll(retained);
      }
      sessions.ClearSessions();
      activeDocumentPath := None;
      pendingReconnectResync := false;
      editor := BLANK_SURFACE;
      dirty := false;
      hasOpenedDocument := false;
    }
  }
}
