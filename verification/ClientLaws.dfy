/** Safety of the client's bookkeeping over whole runs: every interleaving of the
    atomic steps is a sequence of events, and each law speaks of all of them. */
module ClientLaws {
  import opened Sequences
  import opened JsonRpc
  import opened LspClient

  /** A run of the client: the states it goes through, what happens, and what each
      step returns or throws. */
  datatype Run = Run(states: seq<ClientState>, events: seq<Event>, outputs: seq<Output>)

  ghost predicate IsRun(run: Run) {
    && |run.states| == |run.events| + 1 && |run.outputs| == |run.events|
    && run.states[0] == CREATED
    && forall i | 0 <= i < |run.events| :: IsStep(run, i)
  }

  ghost predicate IsStep(run: Run, i: nat)
    requires i < |run.events| == |run.outputs| && |run.states| == |run.events| + 1
  {
    (run.states[i + 1], run.outputs[i]) == Next(run.states[i], run.events[i])
  }

  lemma StepOf(run: Run, i: nat)
    requires IsRun(run) && i < |run.events|
    ensures (run.states[i + 1], run.outputs[i]) == Next(run.states[i], run.events[i])
  {
    assert IsStep(run, i);
  }

  /** Every sequence of events is a run. */
  lemma {:induction false} EveryOrderIsARun(events: seq<Event>) returns (run: Run)
    ensures IsRun(run) && run.events == events
  {
    if events == [] {
      return Run([CREATED], [], []);
    }
    var n := |events| - 1;
    var front := EveryOrderIsARun(events[..n]);
    var (state, output) := Next(front.states[n], events[n]);
    run := Run(front.states + [state], events, front.outputs + [output]);
    forall i | 0 <= i < |events|
      ensures IsStep(run, i)
    {
      assert i < n ==> IsStep(front, i);
    }
  }

  // ---------------------------------------------------------------- invariant

  /** Pending, completed and cancelled ids are pairwise disjoint and all issued;
      at most eight are pending and at most 64 are tombstones. */
  ghost predicate Inv(s: ClientState) {
    && (forall id | id in s.pending :: 1 <= id < s.nextId && id !in s.completed && id !in s.cancelled)
    && (forall id | id in s.completed :: 1 <= id < s.nextId && id !in s.cancelled)
    && (forall id | id in s.cancelled :: 1 <= id < s.nextId)
    && Distinct(s.cancelled)
    && |s.pending| <= 8
    && |s.cancelled| <= 64
    && 1 <= s.nextId
  }

  lemma MapLess(m: map<int, string>, id: int)
    ensures |m - {id}| <= |m|
  {
    assert (m - {id}).Keys <= m.Keys;
    SubsetSize((m - {id}).Keys, m.Keys);
  }

  lemma SubsetSize(a: set<int>, b: set<int>)
    requires a <= b
    ensures |a| <= |b|
  {
    assert a * (b - a) == {};
    assert b == a + (b - a);
  }

  lemma MapMore(m: map<int, string>, id: int, v: string)
    requires id !in m
    ensures |m[id := v]| == |m| + 1
  {
    assert m[id := v].Keys == m.Keys + {id};
  }

  /** With at most 65 ids one eviction suffices. */
  lemma EvictOnce(ids: seq<int>)
    requires |ids| <= MAX_CANCELLED_TOMBSTONES + 1
    ensures Evict(ids) == if |ids| > MAX_CANCELLED_TOMBSTONES then ids[1..] else ids
  {
  }

  lemma CancelKeepsInv(s: ClientState, id: int)
    requires Inv(s)
    ensures Inv(Next(s, CancelRequest(id)).0)
  {
    if id in s.pending {
      MapLess(s.pending, id);
      var longer := s.cancelled + [id];
      EvictOnce(longer);
      assert Distinct(longer);
      assert forall x | x in Evict(longer) :: x in longer;
    }
  }

  lemma SendKeepsInv(s: ClientState, m: string)
    requires Inv(s)
    ensures Inv(Next(s, SendRequest(m)).0)
  {
    MapMore(s.pending, s.nextId, m);
  }

  lemma DispatchKeepsInv(s: ClientState, message: Message)
    requires Inv(s)
    ensures Inv(Dispatch(s, message).0)
  {
    if "id" in message && message["id"].Int? {
      MapLess(s.pending, message["id"].n);
      WithoutDistinct(s.cancelled, message["id"].n);
    }
  }

  lemma StepKeepsInv(s: ClientState, event: Event)
    requires Inv(s)
    ensures Inv(Next(s, event).0)
  {
    match event
    case SendRequest(m) =>
      SendKeepsInv(s, m);
    case SendFailed(id) =>
      MapLess(s.pending, id);
    case CancelRequest(id) =>
      CancelKeepsInv(s, id);
    case Receive(message) =>
      DispatchKeepsInv(s, message);
    case AwaitResponse(_) =>
    case ShutDown =>
  }

  /** The invariant holds after every run. */
  lemma {:induction false} InvAlways(run: Run, n: nat)
    requires IsRun(run)
    requires n <= |run.events|
    ensures Inv(run.states[n])
  {
    if n > 0 {
      InvAlways(run, n - 1);
      StepOf(run, n - 1);
      StepKeepsInv(run.states[n - 1], run.events[n - 1]);
    }
  }

  // --------------------------------------------------------- life of a request

  /** How far the life of an id has come: not issued, pending, answered or
      cancelled, over. */
  function Stage(s: ClientState, id: int): nat {
    if id >= s.nextId then 0
    else if id in s.pending then 1
    else if id in s.completed || id in s.cancelled then 2
    else 3
  }

  lemma {:induction false} EvictSubset(ids: seq<int>, id: int)
    ensures id in Evict(ids) ==> id in ids
  {
    if |ids| > MAX_CANCELLED_TOMBSTONES {
      EvictSubset(ids[1..], id);
    }
  }

  /** What one step may do to the life of an id. */
  ghost predicate Advances(s: ClientState, next: ClientState, id: int) {
    && Stage(next, id) >= Stage(s, id)
    && (Stage(s, id) >= 2 && id in next.completed ==> id in s.completed)
    && (Stage(s, id) >= 2 && id in next.cancelled ==> id in s.cancelled)
  }

  lemma CancelAdvances(s: ClientState, cancelled: int, id: int)
    requires Inv(s)
    ensures Advances(s, Next(s, CancelRequest(cancelled)).0, id)
  {
    EvictSubset(Insert(s.cancelled, cancelled), id);
  }

  lemma DispatchAdvances(s: ClientState, message: Message, id: int)
    requires Inv(s)
    ensures Advances(s, Dispatch(s, message).0, id)
  {
  }

  lemma AwaitAdvances(s: ClientState, awaited: int, id: int)
    requires Inv(s)
    ensures Advances(s, Next(s, AwaitResponse(awaited)).0, id)
  {
  }

  lemma StageStep(s: ClientState, event: Event, id: int)
    requires Inv(s)
    ensures Advances(s, Next(s, event).0, id)
  {
    match event
    case CancelRequest(cancelled) => CancelAdvances(s, cancelled, id);
    case Receive(message) => DispatchAdvances(s, message, id);
    case AwaitResponse(awaited) => AwaitAdvances(s, awaited, id);
    case SendRequest(m) => SendAdvances(s, m, id);
    case SendFailed(_) =>
    case ShutDown =>
  }

  lemma SendAdvances(s: ClientState, m: string, id: int)
    requires Inv(s)
    ensures Advances(s, Next(s, SendRequest(m)).0, id)
  {
  }

  /** A request never moves backwards, and once it has left the pending map it
      enters neither of the other two collections. */
  lemma {:induction false} StagesAdvance(run: Run, i: nat, j: nat, id: int)
    requires IsRun(run)
    requires i <= j <= |run.events|
    ensures Advances(run.states[i], run.states[j], id)
    decreases j - i
  {
    if i < j {
      StagesAdvance(run, i, j - 1, id);
      StepAdvances(run, j - 1, id);
      AdvancesTransitive(run.states[i], run.states[j - 1], run.states[j], id);
    }
  }

  lemma StepAdvances(run: Run, i: nat, id: int)
    requires IsRun(run)
    requires i < |run.events|
    ensures Advances(run.states[i], run.states[i + 1], id)
  {
    InvAlways(run, i);
    StepOf(run, i);
    StageStep(run.states[i], run.events[i], id);
  }

  lemma AdvancesTransitive(a: ClientState, b: ClientState, c: ClientState, id: int)
    requires Advances(a, b, id) && Advances(b, c, id)
    ensures Advances(a, c, id)
  {
  }

  lemma NextIdStep(run: Run, i: nat)
    requires IsRun(run) && i < |run.events|
    ensures run.states[i].nextId <= run.states[i + 1].nextId
    ensures run.outputs[i].Requested? ==> run.outputs[i].id == run.states[i].nextId < run.states[i + 1].nextId
  {
    StepOf(run, i);
  }

  /** Ids are issued in increasing order, so none is reused. */
  lemma IdsAreFresh(run: Run, i: nat, j: nat)
    requires IsRun(run)
    requires i < j < |run.events|
    requires run.outputs[i].Requested? && run.outputs[j].Requested?
    ensures run.outputs[i].id < run.outputs[j].id
  {
    NextIdStep(run, i);
    NextIdGrows(run, i + 1, j);
    NextIdStep(run, j);
  }

  lemma {:induction false} NextIdGrows(run: Run, i: nat, j: nat)
    requires IsRun(run)
    requires i <= j <= |run.events|
    ensures run.states[i].nextId <= run.states[j].nextId
    decreases j - i
  {
    if i < j {
      NextIdGrows(run, i, j - 1);
      NextIdStep(run, j - 1);
    }
  }

  /** A result is handed to at most one caller. */
  lemma AtMostOnce(run: Run, i: nat, j: nat)
    requires IsRun(run)
    requires i < j < |run.events|
    requires run.outputs[i].Resolved? && run.outputs[j].Resolved?
    ensures run.outputs[i].id != run.outputs[j].id
  {
    var id := run.outputs[i].id;
    ResolveEnds(run, i);
    ResolveEnds(run, j);
    StagesAdvance(run, i + 1, j, id);
  }

  lemma CancelMovesOn(run: Run, i: nat)
    requires IsRun(run)
    requires i < |run.events| && run.outputs[i].Cancelled?
    ensures Stage(run.states[i], run.outputs[i].id) == 1
    ensures Stage(run.states[i + 1], run.outputs[i].id) >= 2
    ensures run.outputs[i].id !in run.states[i + 1].completed
  {
    StepOf(run, i);
    InvAlways(run, i);
  }

  lemma ResolveEnds(run: Run, j: nat)
    requires IsRun(run)
    requires j < |run.events| && run.outputs[j].Resolved?
    ensures run.outputs[j].id in run.states[j].completed
    ensures Stage(run.states[j + 1], run.outputs[j].id) == 3
  {
    StepOf(run, j);
    InvAlways(run, j);
  }

  /** A request whose cancellation succeeded is never delivered, neither before
      nor after. */
  lemma CancelledIsNeverDelivered(run: Run, i: nat, j: nat)
    requires IsRun(run)
    requires i < |run.events| && j < |run.events|
    requires run.outputs[i].Cancelled? && run.outputs[j].Resolved?
    ensures run.outputs[i].id != run.outputs[j].id
  {
    var id := run.outputs[i].id;
    CancelMovesOn(run, i);
    ResolveEnds(run, j);
    if i < j {
      StagesAdvance(run, i + 1, j, id);
    } else if j < i {
      StagesAdvance(run, j + 1, i, id);
    }
  }

  ghost predicate AnsweredBy(run: Run, i: nat, id: int, reply: Reply)
    requires i < |run.events| == |run.outputs|
  {
    && run.events[i].Receive?
    && IsResponse(run.events[i].message)
    && run.events[i].message["id"] == Int(id)
    && Says(run.events[i].message, reply)
    && run.outputs[i] == Completed(id, reply)
  }

  lemma {:induction false} CompletedWasAnswered(run: Run, n: nat, id: int) returns (i: nat)
    requires IsRun(run)
    requires n <= |run.events| && id in run.states[n].completed
    ensures i < n
    ensures AnsweredBy(run, i, id, run.states[n].completed[id])
  {
    var before := run.states[n - 1];
    StepOf(run, n - 1);
    if id in before.completed && before.completed[id] == run.states[n].completed[id] {
      i := CompletedWasAnswered(run, n - 1, id);
    } else {
      i := n - 1;
      ValidateMeansFourKinds(run.events[n - 1].message);
      ReplySays(run.events[n - 1].message, run.states[n].completed[id]);
    }
  }

  /** What a caller receives is the answer of the one response that carried its
      id while it was pending. */
  lemma DeliveredIsTheAnswer(run: Run, j: nat) returns (i: nat)
    requires IsRun(run)
    requires j < |run.events| && run.outputs[j].Resolved?
    ensures i < j
    ensures AnsweredBy(run, i, run.outputs[j].id, run.outputs[j].reply)
    ensures forall result ::
              run.outputs[j].reply == Returned(result) <==>
              IsSuccess(run.events[i].message) && run.events[i].message["result"] == result
    ensures forall error ::
              run.outputs[j].reply == Raised(error) <==>
              IsFailure(run.events[i].message) && run.events[i].message["error"] == error
  {
    StepOf(run, j);
    i := CompletedWasAnswered(run, j, run.outputs[j].id);
    ValidateMeansFourKinds(run.events[i].message);
  }

  lemma AnswerSettles(s: ClientState, message: Message)
    requires Inv(s) && IsResponse(message)
    requires Dispatch(s, message).1.Completed? || Dispatch(s, message).1.Absorbed?
    ensures message["id"].Int?
    ensures Stage(Dispatch(s, message).0, message["id"].n) >= 2
    ensures message["id"].n !in Dispatch(s, message).0.cancelled
  {
    ValidateMeansFourKinds(message);
  }

  /** After a response to an id has been accepted or absorbed, every further
      response to it is an error that changes nothing. */
  lemma DuplicatesAreRejected(run: Run, i: nat, j: nat)
    requires IsRun(run)
    requires i < j < |run.events|
    requires run.events[i].Receive? && IsResponse(run.events[i].message)
    requires run.events[j].Receive? && IsResponse(run.events[j].message)
    requires run.events[i].message["id"] == run.events[j].message["id"]
    requires run.outputs[i].Completed? || run.outputs[i].Absorbed?
    ensures run.outputs[j] == UnknownResponse
    ensures run.states[j + 1] == run.states[j]
  {
    StepOf(run, i);
    StepOf(run, j);
    InvAlways(run, i);
    AnswerSettles(run.states[i], run.events[i].message);
    StagesAdvance(run, i + 1, j, run.events[i].message["id"].n);
    UnknownExactlyWhenNotHeld(run.states[j], run.events[j].message);
  }

  /** A response is an error, and changes nothing, exactly when its id is neither
      pending nor a held tombstone. */
  lemma UnknownExactlyWhenNotHeld(s: ClientState, message: Message)
    requires IsResponse(message)
    ensures var known := message["id"].Int? && (message["id"].n in s.pending || message["id"].n in s.cancelled);
            && (Dispatch(s, message).1 == UnknownResponse <==> !known)
            && (!known ==> Dispatch(s, message).0 == s)
  {
    ValidateMeansFourKinds(message);
  }

  // ---------------------------------------------------------------- tombstones

  /** How one step changes the list of cancelled ids not answered since. */
  function UnansweredAfter(before: seq<int>, event: Event, output: Output): seq<int> {
    match event
    case CancelRequest(id) => if output.Cancelled? then before + [id] else before
    case Receive(message) =>
      if IsResponse(message) && message["id"].Int? then Without(before, message["id"].n) else before
    case _ => before
  }

  /** After `n` steps, the cancelled ids not answered since, in the order of
      cancellation. */
  function Unanswered(run: Run, n: nat): seq<int>
    requires n <= |run.events| == |run.outputs|
  {
    if n == 0 then [] else UnansweredAfter(Unanswered(run, n - 1), run.events[n - 1], run.outputs[n - 1])
  }

  predicate IsSuffix(suffix: seq<int>, whole: seq<int>) {
    |suffix| <= |whole| && whole[|whole| - |suffix|..] == suffix
  }

  lemma {:induction false} WithoutConcat(a: seq<int>, b: seq<int>, id: int)
    ensures Without(a + b, id) == Without(a, id) + Without(b, id)
  {
    if a == [] {
      assert a + b == b;
    } else {
      assert (a + b)[1..] == a[1..] + b;
      WithoutConcat(a[1..], b, id);
    }
  }

  lemma WithoutSuffix(suffix: seq<int>, whole: seq<int>, id: int)
    requires IsSuffix(suffix, whole)
    ensures IsSuffix(Without(suffix, id), Without(whole, id))
  {
    var front := whole[..|whole| - |suffix|];
    assert whole == front + suffix;
    WithoutConcat(front, suffix, id);
  }

  lemma CancelKeepsSuffix(s: ClientState, id: int, whole: seq<int>)
    requires Inv(s) && IsSuffix(s.cancelled, whole) && id in s.pending
    ensures IsSuffix(Next(s, CancelRequest(id)).0.cancelled, whole + [id])
  {
    EvictOnce(s.cancelled + [id]);
  }

  lemma DispatchKeepsSuffix(s: ClientState, message: Message, whole: seq<int>)
    requires Inv(s) && IsSuffix(s.cancelled, whole)
    ensures IsSuffix(Dispatch(s, message).0.cancelled,
                     UnansweredAfter(whole, Receive(message), Dispatch(s, message).1))
  {
    ValidateMeansFourKinds(message);
    if IsResponse(message) && message["id"].Int? {
      var id := message["id"].n;
      WithoutSuffix(s.cancelled, whole, id);
      if id !in s.cancelled {
        WithoutAbsent(s.cancelled, id);
      }
    }
  }

  lemma StepKeepsSuffix(s: ClientState, event: Event, whole: seq<int>)
    requires Inv(s) && IsSuffix(s.cancelled, whole)
    ensures IsSuffix(Next(s, event).0.cancelled, UnansweredAfter(whole, event, Next(s, event).1))
  {
    match event
    case CancelRequest(id) =>
      if id in s.pending {
        CancelKeepsSuffix(s, id, whole);
      }
    case Receive(message) => DispatchKeepsSuffix(s, message, whole);
    case _ => OthersKeepTombstones(s, event, whole);
  }

  lemma OthersKeepTombstones(s: ClientState, event: Event, whole: seq<int>)
    requires !event.CancelRequest? && !event.Receive?
    ensures Next(s, event).0.cancelled == s.cancelled && UnansweredAfter(whole, event, Next(s, event).1) == whole
  {
  }

  /** The tombstones are always a suffix, in cancel order, of the cancelled ids
      not yet answered. */
  lemma {:induction false} TombstonesAreASuffix(run: Run, n: nat)
    requires IsRun(run)
    requires n <= |run.events|
    ensures IsSuffix(run.states[n].cancelled, Unanswered(run, n))
  {
    if n > 0 {
      TombstonesAreASuffix(run, n - 1);
      InvAlways(run, n - 1);
      StepOf(run, n - 1);
      StepKeepsSuffix(run.states[n - 1], run.events[n - 1], Unanswered(run, n - 1));
    }
  }

  /** How many ids stand after the last occurrence of `id`. */
  function Newer(ids: seq<int>, id: int): nat {
    if ids == [] || ids[|ids| - 1] == id then 0 else 1 + Newer(ids[..|ids| - 1], id)
  }

  /** A suffix has an id exactly when it is longer than what stands after it. */
  lemma {:induction false} NewerSelects(suffix: seq<int>, whole: seq<int>, id: int)
    requires IsSuffix(suffix, whole) && id in whole
    ensures id in suffix <==> Newer(whole, id) < |suffix|
    decreases |whole|
  {
    if suffix != [] && whole[|whole| - 1] != id {
      var shorter, front := suffix[..|suffix| - 1], whole[..|whole| - 1];
      assert whole == front + [whole[|whole| - 1]] && suffix == shorter + [whole[|whole| - 1]];
      NewerSelects(shorter, front, id);
    }
  }

  /** A step that delivers a response to `id`. */
  predicate Answers(event: Event, id: int) {
    event.Receive? && IsResponse(event.message) && event.message["id"] == Int(id)
  }

  lemma HeldAfterCancel(s: ClientState, other: int, id: int, whole: seq<int>)
    requires Inv(s) && IsSuffix(s.cancelled, whole) && other in s.pending
    requires id in s.cancelled || id == other
    ensures id in Next(s, CancelRequest(other)).0.cancelled <==> Newer(whole + [other], id) < MAX_CANCELLED_TOMBSTONES
  {
    var longer := s.cancelled + [other];
    EvictOnce(longer);
    CancelKeepsSuffix(s, other, whole);
    NewerSelects(Evict(longer), whole + [other], id);
    if |longer| <= MAX_CANCELLED_TOMBSTONES {
      assert IsSuffix(longer, whole + [other]);
    }
  }

  /** A held tombstone survives a step that does not answer it exactly when fewer than
      64 unanswered cancellations stand after it then. */
  lemma HeldAfterStep(s: ClientState, event: Event, id: int, whole: seq<int>)
    requires Inv(s) && IsSuffix(s.cancelled, whole) && id in s.cancelled
    requires !Answers(event, id)
    ensures id in Next(s, event).0.cancelled <==>
            Newer(UnansweredAfter(whole, event, Next(s, event).1), id) < MAX_CANCELLED_TOMBSTONES
  {
    if event.CancelRequest? && event.id in s.pending {
      HeldAfterCancel(s, event.id, id, whole);
    } else {
      var next := Next(s, event).0;
      StepKeepsInv(s, event);
      StepKeepsSuffix(s, event, whole);
      StillHeld(s, event, id);
      NewerSelects(next.cancelled, UnansweredAfter(whole, event, Next(s, event).1), id);
    }
  }

  lemma StillHeld(s: ClientState, event: Event, id: int)
    requires id in s.cancelled && !Answers(event, id)
    requires event.CancelRequest? ==> event.id !in s.pending
    ensures id in Next(s, event).0.cancelled
  {
    if event.Receive? {
      ValidateMeansFourKinds(event.message);
    }
  }

  lemma CancelStep(run: Run, i: nat)
    requires IsRun(run)
    requires i < |run.events| && run.outputs[i].Cancelled?
    ensures var id := run.outputs[i].id;
            && id in run.states[i + 1].cancelled && id !in run.states[i + 1].pending
            && Stage(run.states[i + 1], id) == 2
            && Newer(Unanswered(run, i + 1), id) == 0
  {
    InvAlways(run, i);
    StepOf(run, i);
    InvAlways(run, i + 1);
    TombstonesAreASuffix(run, i);
    HeldAfterCancel(run.states[i], run.outputs[i].id, run.outputs[i].id, Unanswered(run, i));
  }

  /** Since step `i`, never as many as 64 unanswered cancellations stood after `id`. */
  ghost predicate StaysRecent(run: Run, i: nat, n: nat, id: int)
    requires i < n <= |run.events| == |run.outputs|
  {
    forall m | i < m <= n :: Newer(Unanswered(run, m), id) < 64
  }

  lemma StaysRecentStep(run: Run, i: nat, n: nat, id: int)
    requires i < n < |run.events| == |run.outputs|
    ensures StaysRecent(run, i, n + 1, id) <==>
            StaysRecent(run, i, n, id) && Newer(Unanswered(run, n + 1), id) < MAX_CANCELLED_TOMBSTONES
  {
  }

  lemma HeldOneMoreStep(run: Run, n: nat, id: int)
    requires IsRun(run)
    requires n < |run.events| && !Answers(run.events[n], id) && Stage(run.states[n], id) >= 2
    ensures id in run.states[n + 1].cancelled <==>
            id in run.states[n].cancelled && Newer(Unanswered(run, n + 1), id) < MAX_CANCELLED_TOMBSTONES
  {
    if id in run.states[n].cancelled {
      InvAlways(run, n);
      TombstonesAreASuffix(run, n);
      StepOf(run, n);
      HeldAfterStep(run.states[n], run.events[n], id, Unanswered(run, n));
    } else {
      StepAdvances(run, n, id);
    }
  }

  /** A tombstone whose reply has not come is still held exactly when at no time 64
      later unanswered cancellations stood after it. */
  lemma {:induction false} TombstoneWindow(run: Run, i: nat, n: nat)
    requires IsRun(run)
    requires i < n <= |run.events| && run.outputs[i].Cancelled?
    requires forall j | i < j < n :: !Answers(run.events[j], run.outputs[i].id)
    ensures run.outputs[i].id in run.states[n].cancelled <==> StaysRecent(run, i, n, run.outputs[i].id)
    decreases n
  {
    var id := run.outputs[i].id;
    CancelStep(run, i);
    if n > i + 1 {
      TombstoneWindow(run, i, n - 1);
      StagesAdvance(run, i + 1, n - 1, id);
      HeldOneMoreStep(run, n - 1, id);
      StaysRecentStep(run, i, n - 1, id);
    }
  }

  lemma ReplyToCancelled(s: ClientState, message: Message, id: int)
    requires IsResponse(message) && message["id"] == Int(id)
    requires id !in s.pending
    ensures Dispatch(s, message).1 == if id in s.cancelled then Absorbed(id) else UnknownResponse
  {
    ValidateMeansFourKinds(message);
  }

  /** The first late reply to a cancelled request is absorbed exactly when at no time
      64 later unanswered cancellations stood after it; otherwise it is an error. */
  lemma LateReplyIsAbsorbed(run: Run, i: nat, j: nat)
    requires IsRun(run)
    requires i < j < |run.events| && run.outputs[i].Cancelled?
    requires Answers(run.events[j], run.outputs[i].id)
    requires forall k | i < k < j :: !Answers(run.events[k], run.outputs[i].id)
    ensures run.outputs[j] ==
            if StaysRecent(run, i, j, run.outputs[i].id) then Absorbed(run.outputs[i].id) else UnknownResponse
  {
    var id := run.outputs[i].id;
    TombstoneWindow(run, i, j);
    CancelStep(run, i);
    StagesAdvance(run, i + 1, j, id);
    StepOf(run, j);
    ReplyToCancelled(run.states[j], run.events[j].message, id);
  }
}
