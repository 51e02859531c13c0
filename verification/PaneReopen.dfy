/** Under which identity a document is retained, and which documents a reconnected pane
    opens again. */
module PaneReopen {
  import opened Wrappers
  import opened Sequences
  import opened DocumentSessions
  import opened PaneDocument
  import opened PaneLaws

  // ------------------------------------------------------- retained identities

  /** A step that moves the document from active to retained. */
  predicate Stashes(p: Pane, event: Event, id: DocumentId) {
    && p.hasOpened && p.surface.documentId == id
    && match event
       case DocumentOpened(metadata, _, _) => !IsDuplicateOpen(p, metadata)
       case ActivateDocument(other, _) => other != id && other in p.store.sessions
       case _ => false
  }

  /** A step that opens the document anew. */
  predicate OpensAnew(p: Pane, event: Event, id: DocumentId) {
    event.DocumentOpened? && event.metadata.documentId == id && !IsDuplicateOpen(p, event.metadata)
  }

  /** The last step before `n` that stashed the document. */
  function LastStash(run: Run, n: nat, id: DocumentId): (m: nat)
    requires n <= |run.events| < |run.states|
    ensures m <= n
  {
    if n == 0 then 0
    else if Stashes(run.states[n - 1], run.events[n - 1], id) then n - 1
    else LastStash(run, n - 1, id)
  }

  /** The identity with which the document was last opened since the last pane close. */
  function OwnIdentity(run: Run, n: nat, id: DocumentId): Option<Identity>
    requires n <= |run.events| < |run.states|
  {
    if n == 0 then None
    else
      var event := run.events[n - 1];
      if OpensAnew(run.states[n - 1], event, id) then Some((event.metadata.workspaceRootId, event.metadata.path))
      else if event.ClosePane? then None
      else OwnIdentity(run, n - 1, id)
  }

  function RecordedOr(path: Option<Identity>): Identity {
    if path.Some? then path.value else (0, "")
  }

  /** The identity under which `id` is retained after a step from `p` to `next`. */
  ghost predicate IdentityKept(p: Pane, next: Pane, id: DocumentId, stashed: bool)
    requires id in next.store.sessions
  {
    if stashed then IdentityOf(next.store.sessions[id]) == RecordedOr(p.activePath)
    else id in p.store.sessions && IdentityOf(next.store.sessions[id]) == IdentityOf(p.store.sessions[id])
  }

  lemma OpenedIdentity(p: Pane, metadata: Metadata, text: string, sync: SyncSnapshot, id: DocumentId)
    requires PaneOk(p) && id in Opened(p, metadata, text, sync).store.sessions
    ensures metadata.documentId == id ==> IsDuplicateOpen(p, metadata)
    ensures IdentityKept(p, Opened(p, metadata, text, sync), id, Stashes(p, DocumentOpened(metadata, text, sync), id))
  {
    if p.hasOpened && !IsDuplicateOpen(p, metadata) {
      StashedIdentity(p, sync, id);
    }
  }

  lemma ActivatedIdentity(p: Pane, other: DocumentId, sync: SyncSnapshot, id: DocumentId)
    requires PaneOk(p) && id in Activated(p, other, sync).store.sessions
    ensures IdentityKept(p, Activated(p, other, sync), id, Stashes(p, ActivateDocument(other, sync), id))
  {
    if p.hasOpened && other != p.surface.documentId && other in p.store.sessions {
      RemoveOk(p.store, other);
      StashedIdentity(p.(store := Remove(p.store, other)), sync, id);
    }
  }

  /** What one step does to the identity of a session that is retained after it. */
  lemma IdentityStep(p: Pane, event: Event, id: DocumentId)
    requires PaneOk(p) && id in Step(p, event).store.sessions
    ensures !OpensAnew(p, event, id) && !event.ClosePane?
    ensures IdentityKept(p, Step(p, event), id, Stashes(p, event, id))
  {
    match event
    case DocumentOpened(metadata, text, sync) => OpenedIdentity(p, metadata, text, sync, id);
    case ActivateDocument(other, sync) => ActivatedIdentity(p, other, sync, id);
    case _ => OtherIdentity(p, event, id);
  }

  /** Every other step leaves the identities alone. */
  lemma OtherIdentity(p: Pane, event: Event, id: DocumentId)
    requires PaneOk(p) && !event.DocumentOpened? && !event.ActivateDocument? && id in Step(p, event).store.sessions
    ensures !event.ClosePane?
    ensures id in p.store.sessions && IdentityOf(Step(p, event).store.sessions[id]) == IdentityOf(p.store.sessions[id])
  {
  }

  lemma StashedIdentity(p: Pane, sync: SyncSnapshot, id: DocumentId)
    requires PaneOk(p) && p.hasOpened && id in Stash(p, sync).store.sessions
    ensures if id == p.surface.documentId then
              IdentityOf(Stash(p, sync).store.sessions[id]) == RecordedOr(p.activePath)
            else id in p.store.sessions && Stash(p, sync).store.sessions[id] == p.store.sessions[id]
  {
    if |p.store.sessions| < MAX_RETAINED {
      StashWithRoom(p, sync);
    } else {
      StashWhenFull(p, sync);
    }
  }

  /** A retained document is retained under the identity recorded when it was last
      stashed, and was not opened or closed since. */
  lemma {:induction false} RetainedSinceStash(run: Run, n: nat, id: DocumentId)
    requires IsRun(run) && n <= |run.events|
    requires id in run.states[n].store.sessions
    ensures var m := LastStash(run, n, id);
            && m < n && Stashes(run.states[m], run.events[m], id)
            && IdentityOf(run.states[n].store.sessions[id]) == RecordedOr(run.states[m].activePath)
            && OwnIdentity(run, n, id) == OwnIdentity(run, m, id)
  {
    assert n > 0;
    PartitionAlways(run, n - 1);
    assert IsStep(run, n - 1);
    IdentityStep(run.states[n - 1], run.events[n - 1], id);
    if !Stashes(run.states[n - 1], run.events[n - 1], id) {
      RetainedSinceStash(run, n - 1, id);
    }
  }

  lemma {:induction false} OpenedMeansRecorded(run: Run, n: nat, id: DocumentId)
    requires n <= |run.events| < |run.states| && OwnIdentity(run, n, id).Some?
    ensures LastOpened(run, n).Some?
  {
    if !OpensAnew(run.states[n - 1], run.events[n - 1], id) {
      OpenedMeansRecorded(run, n - 1, id);
    }
  }

  /** A retained document carries its own identity if and only if, when it was last
      stashed, the last open of the pane had been with that identity: activating a
      document and then stashing it retains it under the path of another. */
  lemma RetainedUnderOwnIdentityExactly(run: Run, n: nat, id: DocumentId)
    requires IsRun(run) && n <= |run.events|
    requires id in run.states[n].store.sessions && OwnIdentity(run, n, id).Some?
    ensures var m := LastStash(run, n, id);
            (Some(IdentityOf(run.states[n].store.sessions[id])) == OwnIdentity(run, n, id)
             <==> LastOpened(run, m) == OwnIdentity(run, m, id))
  {
    var m := LastStash(run, n, id);
    RetainedSinceStash(run, n, id);
    OpenedMeansRecorded(run, m, id);
    RecordedPathIsLastOpened(run, m);
  }

  // ------------------------------------------------------------------- reopening

  /** An identity is the first of its path in a list. */
  ghost predicate FirstOfPath(list: seq<Identity>, d: Identity) {
    exists k | 0 <= k < |list| :: list[k] == d && forall m | 0 <= m < k :: list[m].1 != d.1
  }

  /** Adding lists exactly what was listed and the first new identity of each path
      that was not. */
  lemma {:induction false} AddsFirstOfPath(documents: seq<Identity>, more: seq<Identity>, d: Identity)
    ensures d in AddAll(documents, more) <==>
            d in documents || (d.1 != "" && !HasPath(documents, d.1) && FirstOfPath(more, d))
    decreases |more|
  {
    if more != [] {
      var first, rest := more[0], more[1..];
      var next := AddOne(documents, first);
      AddsFirstOfPath(next, rest, d);
      assert more == [first] + rest;
      FirstOfPathCons(first, rest, d);
      AddsOne(documents, first, d);
    }
  }

  function AddOne(documents: seq<Identity>, first: Identity): seq<Identity> {
    if first.1 != "" && !HasPath(documents, first.1) then documents + [first] else documents
  }

  lemma AddsOne(documents: seq<Identity>, first: Identity, d: Identity)
    ensures d in AddOne(documents, first) <==> d in documents || (d == first && d.1 != "" && !HasPath(documents, d.1))
    ensures HasPath(AddOne(documents, first), d.1) <==>
              HasPath(documents, d.1) || (d.1 == first.1 && d.1 != "")
  {
    HasPathAppend(documents, first, d.1);
  }

  lemma FirstOfPathCons(first: Identity, rest: seq<Identity>, d: Identity)
    ensures FirstOfPath([first] + rest, d) <==> first == d || (first.1 != d.1 && FirstOfPath(rest, d))
  {
    var list := [first] + rest;
    if first == d {
      assert list[0] == d;
    }
    if FirstOfPath(list, d) && first != d {
      var k :| 0 <= k < |list| && list[k] == d && forall m | 0 <= m < k :: list[m].1 != d.1;
      assert rest[k - 1] == d && forall m | 0 <= m < k - 1 :: rest[m] == list[m + 1];
      assert list[0].1 != d.1;
    }
    if first.1 != d.1 && FirstOfPath(rest, d) {
      var k :| 0 <= k < |rest| && rest[k] == d && forall m | 0 <= m < k :: rest[m].1 != d.1;
      assert list[k + 1] == d;
    }
  }

  lemma HasPathAppend(documents: seq<Identity>, d: Identity, path: string)
    ensures HasPath(documents + [d], path) <==> HasPath(documents, path) || d.1 == path
  {
    var longer := documents + [d];
    assert longer[|documents|] == d;
    if HasPath(documents, path) {
      var i :| 0 <= i < |documents| && documents[i].1 == path;
      assert longer[i].1 == path;
    }
  }

  /** The identity is recorded, and no other entry is recorded under its path with
      another workspace root. */
  ghost predicate RecordedAlone(p: Pane, d: Identity) {
    || p.activePath == Some(d)
    || (&& (p.activePath.Some? ==> p.activePath.value.1 != d.1)
        && (exists x | x in p.store.sessions :: IdentityOf(p.store.sessions[x]) == d)
        && (forall y | y in p.store.sessions :: p.store.sessions[y].path == d.1 ==> IdentityOf(p.store.sessions[y]) == d))
  }

  lemma ListedIn(p: Pane, order: seq<DocumentId>, d: Identity)
    requires Enumerates(order, p.store.sessions) && d.1 != ""
    ensures d in ForReopen(p, order) <==>
            || p.activePath == Some(d)
            || ((p.activePath.Some? ==> p.activePath.value.1 != d.1) && FirstOfPath(Identities(p.store.sessions, order), d))
  {
    AddsFirstOfPath(ActiveIdentity(p), Identities(p.store.sessions, order), d);
    if p.activePath.Some? && p.activePath.value.1 == d.1 {
      assert ActiveIdentity(p)[0].1 == d.1;
    }
  }

  /** A least index with a property. */
  lemma {:induction false} FirstIndexOfPath(list: seq<Identity>, path: string, k: nat) returns (first: nat)
    requires k < |list| && list[k].1 == path
    ensures first <= k && list[first].1 == path && forall m | 0 <= m < first :: list[m].1 != path
    decreases k
  {
    if m :| 0 <= m < k && list[m].1 == path {
      first := FirstIndexOfPath(list, path, m);
    } else {
      first := k;
    }
  }

  lemma AloneIsFirst(p: Pane, order: seq<DocumentId>, d: Identity, x: DocumentId)
    requires Enumerates(order, p.store.sessions)
    requires x in p.store.sessions && IdentityOf(p.store.sessions[x]) == d
    requires forall y | y in p.store.sessions :: p.store.sessions[y].path == d.1 ==> IdentityOf(p.store.sessions[y]) == d
    ensures FirstOfPath(Identities(p.store.sessions, order), d)
  {
    var list := Identities(p.store.sessions, order);
    var k :| 0 <= k < |order| && order[k] == x;
    assert list[k] == d;
    var first := FirstIndexOfPath(list, d.1, k);
    var y := order[first];
    assert p.store.sessions[y].path == d.1;
    assert list[first] == d;
  }

  /** An order of the retained ids that begins with a given one. */
  lemma OrderFrom(p: Pane, y: DocumentId) returns (order: seq<DocumentId>)
    requires PaneOk(p) && y in p.store.sessions
    ensures Enumerates(order, p.store.sessions) && order != [] && order[0] == y
  {
    var rest := Without(p.store.lru, y);
    WithoutDistinct(p.store.lru, y);
    order := [y] + rest;
    forall i, j | 0 <= i < j < |order|
      ensures order[i] != order[j]
    {
      assert order[j] == rest[j - 1] && rest[j - 1] in rest;
    }
    forall id
      ensures id in order <==> id in p.store.sessions
    {
      assert id in order <==> id == y || id in rest;
      assert id in rest <==> id in p.store.lru && id != y;
    }
  }

  /** Which documents a reconnected pane opens again: an identity is listed, in whatever
      order the session map yields its entries, if and only if it is recorded and alone
      under its path; the list is deduplicated by path alone. */
  lemma ReopenedExactlyWhenRecordedAlone(p: Pane, d: Identity)
    requires PaneOk(p)
    ensures (forall order | Enumerates(order, p.store.sessions) :: d in ForReopen(p, order))
       <==> d.1 != "" && RecordedAlone(p, d)
  {
    if d.1 != "" && RecordedAlone(p, d) {
      forall order | Enumerates(order, p.store.sessions)
        ensures d in ForReopen(p, order)
      {
        EveryOrderLists(p, order, d);
      }
    } else {
      var order := SomeOrderMisses(p, d);
    }
  }

  lemma EveryOrderLists(p: Pane, order: seq<DocumentId>, d: Identity)
    requires PaneOk(p) && d.1 != "" && RecordedAlone(p, d) && Enumerates(order, p.store.sessions)
    ensures d in ForReopen(p, order)
  {
    ListedIn(p, order, d);
    if p.activePath != Some(d) {
      var x :| x in p.store.sessions && IdentityOf(p.store.sessions[x]) == d;
      AloneIsFirst(p, order, d, x);
    }
  }

  lemma SomeOrderMisses(p: Pane, d: Identity) returns (order: seq<DocumentId>)
    requires PaneOk(p) && (d.1 == "" || !RecordedAlone(p, d))
    ensures Enumerates(order, p.store.sessions) && d !in ForReopen(p, order)
  {
    if d.1 == "" {
      order := p.store.lru;
      AddsFirstOfPath(ActiveIdentity(p), Identities(p.store.sessions, order), d);
    } else if y :| y in p.store.sessions && p.store.sessions[y].path == d.1 && IdentityOf(p.store.sessions[y]) != d {
      order := OrderFrom(p, y);
      ListedIn(p, order, d);
      var list := Identities(p.store.sessions, order);
      assert list[0] == IdentityOf(p.store.sessions[y]);
    } else {
      order := p.store.lru;
      ListedIn(p, order, d);
      if p.activePath.None? || p.activePath.value.1 != d.1 {
        NotRecordedNotListed(p, order, d);
      }
    }
  }

  lemma NotRecordedNotListed(p: Pane, order: seq<DocumentId>, d: Identity)
    requires Enumerates(order, p.store.sessions)
    requires forall x | x in p.store.sessions :: IdentityOf(p.store.sessions[x]) != d
    ensures !FirstOfPath(Identities(p.store.sessions, order), d)
  {
    var list := Identities(p.store.sessions, order);
    forall k | 0 <= k < |list|
      ensures list[k] != d
    {
      var x := order[k];
      assert x in p.store.sessions;
    }
  }

  lemma OpenedWithRoom(p: Pane, metadata: Metadata, text: string, sync: SyncSnapshot)
    requires PaneOk(p) && p.hasOpened && |p.store.sessions| < MAX_RETAINED
    requires metadata.documentId != p.surface.documentId && metadata.documentId !in p.store.sessions
    ensures var next := Opened(p, metadata, text, sync);
            && next.hasOpened && next.surface.documentId == metadata.documentId
            && next.activePath == Some((metadata.workspaceRootId, metadata.path))
            && next.store.sessions == p.store.sessions[p.surface.documentId := ActiveSession(p, sync)]
            && IdentityOf(ActiveSession(p, sync)) == RecordedOr(p.activePath)
  {
    StashWithRoom(p, sync);
    var stashed := Stash(p, sync).store.sessions;
    assert stashed - {metadata.documentId} == stashed;
  }

  /** A run that opens a, opens b, activates a, and opens c. */
  ghost predicate ActivatesBetweenOpens(run: Run, a: Metadata, b: Metadata, c: Metadata) {
    && IsRun(run) && run.states[0] == BLANK_PANE && |run.events| == 4
    && run.events[0].DocumentOpened? && run.events[0].metadata == a
    && run.events[1].DocumentOpened? && run.events[1].metadata == b
    && run.events[2].ActivateDocument? && run.events[2].documentId == a.documentId
    && run.events[3].DocumentOpened? && run.events[3].metadata == c
    && a.documentId != b.documentId && a.documentId != c.documentId && b.documentId != c.documentId
  }

  lemma BothOpen(run: Run, a: Metadata, b: Metadata, c: Metadata)
    requires ActivatesBetweenOpens(run, a, b, c)
    ensures var p := run.states[2];
            && PaneOk(p) && p.hasOpened && p.surface.documentId == b.documentId
            && p.activePath == Some((b.workspaceRootId, b.path))
            && p.store.sessions.Keys == {a.documentId}
  {
    assert IsStep(run, 0) && IsStep(run, 1);
    PartitionAlways(run, 1);
    OpenedWithRoom(run.states[1], b, run.events[1].text, run.events[1].sync);
    PartitionAlways(run, 2);
  }

  lemma SwitchedBack(run: Run, a: Metadata, b: Metadata, c: Metadata)
    requires ActivatesBetweenOpens(run, a, b, c)
    ensures var p := run.states[3];
            && PaneOk(p) && p.hasOpened && p.surface.documentId == a.documentId
            && p.activePath == Some((b.workspaceRootId, b.path))
            && p.store.sessions.Keys == {b.documentId}
            && IdentityOf(p.store.sessions[b.documentId]) == (b.workspaceRootId, b.path)
  {
    BothOpen(run, a, b, c);
    assert IsStep(run, 2);
    ActivationSwaps(run.states[2], a.documentId, run.events[2].activateSync);
    ActivatedIdentity(run.states[2], a.documentId, run.events[2].activateSync, b.documentId);
    PartitionAlways(run, 3);
  }

  lemma BothUnderOnePath(run: Run, a: Metadata, b: Metadata, c: Metadata)
    requires ActivatesBetweenOpens(run, a, b, c)
    ensures var p := run.states[4];
            && p.hasOpened && p.activePath == Some((c.workspaceRootId, c.path))
            && p.store.sessions.Keys == {a.documentId, b.documentId}
            && IdentityOf(p.store.sessions[a.documentId]) == (b.workspaceRootId, b.path)
            && IdentityOf(p.store.sessions[b.documentId]) == (b.workspaceRootId, b.path)
  {
    SwitchedBack(run, a, b, c);
    assert IsStep(run, 3);
    OpenedWithRoom(run.states[3], c, run.events[3].text, run.events[3].sync);
  }

  lemma OwnOfFirst(run: Run, a: Metadata, b: Metadata, c: Metadata)
    requires ActivatesBetweenOpens(run, a, b, c)
    ensures OwnIdentity(run, 4, a.documentId) == Some((a.workspaceRootId, a.path))
  {
    assert OpensAnew(run.states[0], run.events[0], a.documentId);
    assert OwnIdentity(run, 1, a.documentId) == Some((a.workspaceRootId, a.path));
    assert OwnIdentity(run, 2, a.documentId) == OwnIdentity(run, 1, a.documentId);
    assert OwnIdentity(run, 3, a.documentId) == OwnIdentity(run, 2, a.documentId);
  }

  /** The losing input: open a, open b, activate a, open c.  Both a and b are then
      retained under the path of b, and a reconnect opens c and b but not a. */
  lemma ActivatedDocumentIsNotReopened(run: Run, a: Metadata, b: Metadata, c: Metadata, order: seq<DocumentId>)
    requires ActivatesBetweenOpens(run, a, b, c)
    requires a.path != b.path && a.path != c.path && a.path != ""
    requires Enumerates(order, run.states[4].store.sessions)
    ensures Holds(run.states[4], a.documentId)
    ensures OwnIdentity(run, 4, a.documentId) == Some((a.workspaceRootId, a.path))
    ensures (a.workspaceRootId, a.path) !in ForReopen(run.states[4], order)
  {
    BothUnderOnePath(run, a, b, c);
    OwnOfFirst(run, a, b, c);
    ListedIn(run.states[4], order, (a.workspaceRootId, a.path));
    NotRecordedNotListed(run.states[4], order, (a.workspaceRootId, a.path));
  }
}
