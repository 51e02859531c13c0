/** The bounded store of inactive document sessions
    (src/editor/document_session.rs). */
module DocumentSessions {
  import opened Wrappers
  import opened Sequences

  type DocumentId = int

  /** The parts of an `EditorSurface` that travel with a document. */
  datatype Surface = Surface(documentId: DocumentId, version: nat, text: string)

  const BLANK_SURFACE := Surface(0, 0, "")

  datatype PendingEdit = PendingEdit(documentId: DocumentId, transaction: nat)

  datatype Session = Session(
    surface: Surface,
    dirty: bool,
    confirmedVersion: nat,
    pending: seq<PendingEdit>,
    lastActivatedOrder: nat,
    workspaceRootId: nat,
    path: string
  )

  const CLIENT_DOCUMENT_SESSION_MAX: nat := 64

  /** The active document is not in the store. */
  const MAX_RETAINED: nat := CLIENT_DOCUMENT_SESSION_MAX - 1

  const CLOCK_MAX: nat := 0xFFFF_FFFF_FFFF_FFFF

  type SessionMap = map<DocumentId, Session>

  /** `lru` lists the retained ids, oldest first. */
  datatype Store = Store(sessions: SessionMap, lru: seq<DocumentId>, clock: nat)

  const NO_SESSIONS := Store(map[], [], 0)

  function Tick(clock: nat): nat {
    if clock < CLOCK_MAX then clock + 1 else clock
  }

  function Put(s: Store, id: DocumentId, session: Session): Store {
    var clock := Tick(s.clock);
    Store(s.sessions[id := session.(lastActivatedOrder := clock)], Without(s.lru, id) + [id], clock)
  }

  predicate OverCeiling(s: Store) {
    |s.sessions| > MAX_RETAINED && s.lru != []
  }

  function DropOldest(s: Store): Store
    requires s.lru != []
  {
    s.(sessions := s.sessions - {s.lru[0]}, lru := s.lru[1..])
  }

  function Dropped(s: Store): seq<DocumentId>
    requires s.lru != []
  {
    if s.lru[0] in s.sessions then [s.lru[0]] else []
  }

  /** Drops oldest sessions until the ceiling holds; the dropped ids in order. */
  function Evict(s: Store): (Store, seq<DocumentId>)
    decreases |s.lru|
  {
    if OverCeiling(s) then
      var later := Evict(DropOldest(s));
      (later.0, Dropped(s) + later.1)
    else (s, [])
  }

  function Insert(s: Store, id: DocumentId, session: Session): (Store, seq<DocumentId>) {
    Evict(Put(s, id, session))
  }

  function Remove(s: Store, id: DocumentId): Store {
    s.(sessions := s.sessions - {id}, lru := Without(s.lru, id))
  }

  function Clear(s: Store): Store {
    s.(sessions := map[], lru := [])
  }

  // ---------------------------------------------------------------- invariant

  /** The list enumerates the retained ids, oldest stamp first. */
  ghost predicate Ordered(s: Store) {
    && Distinct(s.lru)
    && (forall id :: id in s.lru <==> id in s.sessions)
    && (forall id | id in s.sessions :: s.sessions[id].lastActivatedOrder <= s.clock)
    && (forall i, j | 0 <= i < j < |s.lru| ::
          s.sessions[s.lru[i]].lastActivatedOrder <= s.sessions[s.lru[j]].lastActivatedOrder)
  }

  ghost predicate StoreOk(s: Store) {
    Ordered(s) && |s.sessions| <= MAX_RETAINED
  }

  /** Removing an id keeps the relative order of the others. */
  lemma {:induction false} WithoutOrder(ids: seq<DocumentId>, id: DocumentId, i: nat, j: nat) returns (k: nat, l: nat)
    requires i < j < |Without(ids, id)|
    ensures k < l < |ids| && ids[k] == Without(ids, id)[i] && ids[l] == Without(ids, id)[j]
    decreases |ids|
  {
    if ids[0] == id {
      k, l := WithoutOrder(ids[1..], id, i, j);
      k, l := k + 1, l + 1;
    } else if i == 0 {
      k := 0;
      assert Without(ids, id)[j] == Without(ids[1..], id)[j - 1];
      assert Without(ids[1..], id)[j - 1] in Without(ids[1..], id);
      l :| 0 <= l < |ids[1..]| && ids[1..][l] == Without(ids[1..], id)[j - 1];
      l := l + 1;
    } else {
      k, l := WithoutOrder(ids[1..], id, i - 1, j - 1);
      k, l := k + 1, l + 1;
    }
  }

  lemma RemoveOrdered(s: Store, id: DocumentId)
    requires Ordered(s)
    ensures Ordered(Remove(s, id))
  {
    var rest := Without(s.lru, id);
    WithoutDistinct(s.lru, id);
    forall i, j | 0 <= i < j < |rest|
      ensures s.sessions[rest[i]].lastActivatedOrder <= s.sessions[rest[j]].lastActivatedOrder
    {
      var k, l := WithoutOrder(s.lru, id, i, j);
    }
    assert forall x | x in rest :: x in s.sessions && x != id;
  }

  lemma PutOrdered(s: Store, id: DocumentId, session: Session)
    requires Ordered(s)
    ensures Ordered(Put(s, id, session))
  {
    RemoveOrdered(s, id);
    var rest := Without(s.lru, id);
    var next := Put(s, id, session);
    forall i | 0 <= i < |rest|
      ensures next.lru[i] == rest[i] && rest[i] != id && rest[i] in s.sessions
    {
      assert rest[i] in rest;
    }
    assert next.lru[|rest|] == id;
    forall i, j | 0 <= i < j < |next.lru|
      ensures next.sessions[next.lru[i]].lastActivatedOrder <= next.sessions[next.lru[j]].lastActivatedOrder
    {
      if j < |rest| {
        assert Remove(s, id).sessions[rest[i]].lastActivatedOrder <= Remove(s, id).sessions[rest[j]].lastActivatedOrder;
      }
    }
  }

  lemma SizeLess(m: SessionMap, id: DocumentId)
    ensures |m - {id}| == if id in m then |m| - 1 else |m|
  {
    if id in m {
      assert (m - {id}).Keys == m.Keys - {id};
    } else {
      assert m - {id} == m;
    }
  }

  lemma SizeMore(m: SessionMap, id: DocumentId, session: Session)
    ensures |m[id := session]| == if id in m then |m| else |m| + 1
  {
    if id in m {
      assert m[id := session].Keys == m.Keys;
    } else {
      assert m[id := session].Keys == m.Keys + {id};
    }
  }

  lemma OldestOrdered(s: Store)
    requires Ordered(s) && s.lru != []
    ensures Ordered(DropOldest(s))
  {
    var id, rest := s.lru[0], s.lru[1..];
    forall i | 0 <= i < |rest|
      ensures rest[i] == s.lru[i + 1] && rest[i] != id
    {
    }
    assert forall x | x in s.lru :: x == id || x in rest;
  }

  function Stamped(s: Store, session: Session): Session {
    session.(lastActivatedOrder := Tick(s.clock))
  }

  lemma InsertWithRoom(s: Store, id: DocumentId, session: Session)
    requires StoreOk(s)
    requires id in s.sessions || |s.sessions| < MAX_RETAINED
    ensures Insert(s, id, session) == (Put(s, id, session), [])
    ensures StoreOk(Put(s, id, session))
  {
    PutOrdered(s, id, session);
    SizeMore(s.sessions, id, Stamped(s, session));
  }

  /** The store after a new id is put in front of a full list. */
  lemma PutNew(s: Store, id: DocumentId, session: Session)
    requires Ordered(s) && id !in s.sessions && s.lru != []
    ensures var put := Put(s, id, session);
            && put.lru == s.lru + [id] && put.lru[0] == s.lru[0] && s.lru[0] in s.sessions
            && |put.sessions| == |s.sessions| + 1
            && put.sessions - {s.lru[0]} == (s.sessions - {s.lru[0]})[id := Stamped(s, session)]
  {
    NewIdAppended(s, id);
    SizeMore(s.sessions, id, Stamped(s, session));
    assert s.lru[0] in s.lru;
  }

  lemma InsertWhenFull(s: Store, id: DocumentId, session: Session)
    requires StoreOk(s)
    requires id !in s.sessions && |s.sessions| == MAX_RETAINED
    ensures s.lru != [] && s.lru[0] in s.sessions
    ensures Insert(s, id, session).1 == [s.lru[0]]
    ensures StoreOk(Insert(s, id, session).0)
    ensures Insert(s, id, session).0.sessions == (s.sessions - {s.lru[0]})[id := Stamped(s, session)]
  {
    SomeRetained(s);
    PutNew(s, id, session);
    PutOrdered(s, id, session);
    EvictFull(Put(s, id, session));
  }

  /** One insertion into a store within its ceiling evicts at most one session:
      the least recently stashed one, exactly when the store is full and the id is
      new. */
  lemma InsertMeaning(s: Store, id: DocumentId, session: Session)
    requires StoreOk(s)
    ensures StoreOk(Insert(s, id, session).0)
    ensures id in s.sessions || |s.sessions| < MAX_RETAINED ==>
              && Insert(s, id, session).1 == []
              && Insert(s, id, session).0.sessions == s.sessions[id := Stamped(s, session)]
    ensures id !in s.sessions && |s.sessions| == MAX_RETAINED ==>
              && s.lru != [] && s.lru[0] in s.sessions
              && Insert(s, id, session).1 == [s.lru[0]]
              && Insert(s, id, session).0.sessions == (s.sessions - {s.lru[0]})[id := Stamped(s, session)]
              && forall x | x in s.sessions ::
                   s.sessions[s.lru[0]].lastActivatedOrder <= s.sessions[x].lastActivatedOrder
    ensures s.clock < CLOCK_MAX ==>
              forall x | x in s.sessions :: s.sessions[x].lastActivatedOrder < Stamped(s, session).lastActivatedOrder
  {
    if id in s.sessions || |s.sessions| < MAX_RETAINED {
      InsertWithRoom(s, id, session);
    } else {
      InsertWhenFull(s, id, session);
      OldestStamp(s);
    }
  }

  /** Evicting from a store one over the ceiling. */
  lemma EvictFull(s: Store)
    requires Ordered(s) && |s.sessions| == MAX_RETAINED + 1
    ensures s.lru != []
    ensures Evict(s) == (DropOldest(s), [s.lru[0]])
    ensures StoreOk(DropOldest(s))
  {
    SomeRetained(s);
    OldestOrdered(s);
    assert s.lru[0] in s.lru;
    SizeLess(s.sessions, s.lru[0]);
    EvictOnce(s);
  }

  lemma EvictOnce(s: Store)
    requires OverCeiling(s) && !OverCeiling(DropOldest(s)) && s.lru[0] in s.sessions
    ensures Evict(s) == (DropOldest(s), [s.lru[0]])
  {
    assert Evict(DropOldest(s)) == (DropOldest(s), []);
    assert Dropped(s) + [] == [s.lru[0]];
  }

  lemma NewIdAppended(s: Store, id: DocumentId)
    requires Ordered(s) && id !in s.sessions
    ensures Without(s.lru, id) == s.lru
  {
    WithoutAbsent(s.lru, id);
  }

  lemma SomeRetained(s: Store)
    requires Ordered(s) && |s.sessions| > 0
    ensures s.lru != []
  {
    assert forall id | id in s.sessions :: id in s.lru;
  }

  lemma OldestStamp(s: Store)
    requires Ordered(s) && s.lru != []
    ensures s.lru[0] in s.sessions
    ensures forall x | x in s.sessions ::
              s.sessions[s.lru[0]].lastActivatedOrder <= s.sessions[x].lastActivatedOrder
  {
    var first := s.lru[0];
    assert first in s.lru && first in s.sessions;
    forall x | x in s.sessions
      ensures s.sessions[s.lru[0]].lastActivatedOrder <= s.sessions[x].lastActivatedOrder
    {
      assert x in s.lru;
      var i :| 0 <= i < |s.lru| && s.lru[i] == x;
    }
  }

  lemma RemoveOk(s: Store, id: DocumentId)
    requires StoreOk(s)
    ensures StoreOk(Remove(s, id))
    ensures |Remove(s, id).sessions| == if id in s.sessions then |s.sessions| - 1 else |s.sessions|
  {
    RemoveOrdered(s, id);
    SizeLess(s.sessions, id);
  }

  /** An eviction some of whose drops are already done. */
  function WithEarlier(earlier: seq<DocumentId>, result: (Store, seq<DocumentId>)): (Store, seq<DocumentId>) {
    (result.0, earlier + result.1)
  }

  lemma EvictRound(earlier: seq<DocumentId>, s: Store)
    requires OverCeiling(s)
    ensures WithEarlier(earlier, Evict(s)) == WithEarlier(earlier + Dropped(s), Evict(DropOldest(s)))
  {
    Associate(earlier, Dropped(s), Evict(DropOldest(s)).1);
  }

  // -------------------------------------------------------------- as it is written

  class DocumentSessionStore {
    var sessions: SessionMap
    var lru: seq<DocumentId>
    var activationClock: nat

    constructor ()
      ensures State() == NO_SESSIONS
    {
      sessions, lru, activationClock := map[], [], 0;
    }

    function State(): Store
      reads this
    {
      Store(sessions, lru, activationClock)
    }

    method InsertSession(id: DocumentId, session: Session) returns (evicted: seq<DocumentId>)
      modifies this
      ensures (State(), evicted) == Insert(old(State()), id, session)
    {
      activationClock := Tick(activationClock);
      var stamped := session.(lastActivatedOrder := activationClock);
      lru := Without(lru, id);
      lru := lru + [id];
      sessions := sessions[id := stamped];
      evicted := EvictIfNeeded();
    }

    method EvictIfNeeded() returns (evicted: seq<DocumentId>)
      modifies this
      ensures (State(), evicted) == Evict(old(State()))
    {
      evicted := [];
      ghost var goal := Evict(State());
      assert [] + goal.1 == goal.1;
      while |sessions| > MAX_RETAINED && lru != []
        invariant goal == WithEarlier(evicted, Evict(State()))
        decreases |lru|
      {
        EvictRound(evicted, State());
        ghost var next, dropped := DropOldest(State()), evicted + Dropped(State());
        var id := lru[0];
        lru := lru[1..];
        if id in sessions {
          evicted := evicted + [id];
        }
        sessions := sessions - {id};
        assert State() == next && evicted == dropped;
      }
      assert evicted + [] == evicted;
    }

    method RemoveSession(id: DocumentId) returns (removed: Option<Session>)
      modifies this
      ensures State() == Remove(old(State()), id)
      ensures removed == if id in old(sessions) then Some(old(sessions)[id]) else None
    {
      removed := if id in sessions then Some(sessions[id]) else None;
      lru := Without(lru, id);
      sessions := sessions - {id};
    }

    /** Writes back a session borrowed by `get_mut`. */
    method UpdateSession(id: DocumentId, session: Session)
      requires id in sessions
      modifies `sessions
      ensures sessions == old(sessions)[id := session]
    {
      sessions := sessions[id := session];
    }

    method ClearSessions()
      modifies this
      ensures State() == Clear(old(State()))
    {
      sessions, lru := map[], [];
    }
  }
}
