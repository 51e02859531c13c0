/** What the client answers its caller, from the history of a run alone: which requests
    are outstanding and which replies have arrived is read off the steps, and every
    outcome is decided by it (packages/lsp-shared/client.js). */
module ClientHistory {
  import opened JsonRpc
  import opened LspClient
  import opened ClientLaws

  /** A step after which the request is no longer outstanding. */
  predicate EndsPending(event: Event, id: int) {
    match event
    case SendFailed(other) => other == id
    case CancelRequest(other) => other == id
    case ShutDown => true
    case _ => Answers(event, id)
  }

  /** A step after which an arrived reply is no longer there. */
  predicate EndsArrived(event: Event, id: int) {
    event == AwaitResponse(id) || event.ShutDown?
  }

  /** The request was issued, and nothing ended it since. */
  ghost predicate Outstanding(run: Run, n: nat, id: int)
    requires n <= |run.events| == |run.outputs|
  {
    exists k | 0 <= k < n :: OutstandingSince(run, k, n, id)
  }

  ghost predicate OutstandingSince(run: Run, k: nat, n: nat, id: int)
    requires k < n <= |run.events| == |run.outputs|
  {
    run.outputs[k] == Requested(id) && forall m | k < m < n :: !EndsPending(run.events[m], id)
  }

  /** A response came while the request was outstanding, and nobody took it since. */
  ghost predicate Arrived(run: Run, n: nat, id: int)
    requires n <= |run.events| == |run.outputs|
  {
    exists k | 0 <= k < n :: ArrivedSince(run, k, n, id)
  }

  ghost predicate ArrivedSince(run: Run, k: nat, n: nat, id: int)
    requires k < n <= |run.events| == |run.outputs|
  {
    && Answers(run.events[k], id) && Outstanding(run, k, id)
    && forall m | k < m < n :: !EndsArrived(run.events[m], id)
  }

  // ----------------------------------------------------------- one step of history

  lemma OutstandingStep(run: Run, n: nat, id: int)
    requires n < |run.events| == |run.outputs|
    ensures Outstanding(run, n + 1, id) <==>
            run.outputs[n] == Requested(id) || (Outstanding(run, n, id) && !EndsPending(run.events[n], id))
  {
    var next := n + 1;
    if run.outputs[n] == Requested(id) {
      assert OutstandingSince(run, n, next, id);
    }
    if k :| 0 <= k < n && OutstandingSince(run, k, n, id) && !EndsPending(run.events[n], id) {
      assert OutstandingSince(run, k, next, id);
    }
    if k :| 0 <= k < next && OutstandingSince(run, k, next, id) {
      assert k < n ==> OutstandingSince(run, k, n, id);
    }
  }

  lemma ArrivedStep(run: Run, n: nat, id: int)
    requires n < |run.events| == |run.outputs|
    ensures Arrived(run, n + 1, id) <==>
            || (Answers(run.events[n], id) && Outstanding(run, n, id))
            || (Arrived(run, n, id) && !EndsArrived(run.events[n], id))
  {
    var next := n + 1;
    if Answers(run.events[n], id) && Outstanding(run, n, id) {
      assert ArrivedSince(run, n, next, id);
    }
    if k :| 0 <= k < n && ArrivedSince(run, k, n, id) && !EndsArrived(run.events[n], id) {
      assert ArrivedSince(run, k, next, id);
    }
    if k :| 0 <= k < next && ArrivedSince(run, k, next, id) {
      assert k < n ==> ArrivedSince(run, k, n, id);
    }
  }

  // ------------------------------------------------------------ one step of the client

  lemma DispatchHolds(s: ClientState, message: Message, id: int)
    requires Inv(s)
    ensures id in Dispatch(s, message).0.pending <==> id in s.pending && !Answers(Receive(message), id)
    ensures id in Dispatch(s, message).0.completed <==>
            (id in s.pending && Answers(Receive(message), id)) || id in s.completed
  {
    ValidateMeansFourKinds(message);
  }

  lemma StepHolds(s: ClientState, event: Event, id: int)
    requires Inv(s)
    ensures id in Next(s, event).0.pending <==>
            Next(s, event).1 == Requested(id) || (id in s.pending && !EndsPending(event, id))
    ensures id in Next(s, event).0.completed <==>
            (id in s.pending && Answers(event, id)) || (id in s.completed && !EndsArrived(event, id))
  {
    if event.Receive? {
      DispatchHolds(s, event.message, id);
    }
  }

  /** The two maps hold exactly the outstanding requests and the arrived replies. */
  lemma {:induction false} HistoryIsState(run: Run, n: nat, id: int)
    requires IsRun(run) && n <= |run.events|
    ensures id in run.states[n].pending <==> Outstanding(run, n, id)
    ensures id in run.states[n].completed <==> Arrived(run, n, id)
  {
    if n > 0 {
      HistoryIsState(run, n - 1, id);
      InvAlways(run, n - 1);
      StepOf(run, n - 1);
      StepHolds(run.states[n - 1], run.events[n - 1], id);
      OutstandingStep(run, n - 1, id);
      ArrivedStep(run, n - 1, id);
    }
  }

  // ------------------------------------------------------------------- outcomes

  /** How many requests were issued. */
  function Issued(run: Run, n: nat): nat
    requires n <= |run.outputs|
  {
    if n == 0 then 0 else Issued(run, n - 1) + if run.outputs[n - 1].Requested? then 1 else 0
  }

  /** The ids of the outstanding requests. */
  ghost function OutstandingIds(run: Run, n: nat): set<int>
    requires n <= |run.events| == |run.outputs|
  {
    set id | 1 <= id <= Issued(run, n) && Outstanding(run, n, id)
  }

  lemma {:induction false} IdsAreConsecutive(run: Run, n: nat)
    requires IsRun(run) && n <= |run.events|
    ensures run.states[n].nextId == Issued(run, n) + 1
  {
    if n > 0 {
      IdsAreConsecutive(run, n - 1);
      StepOf(run, n - 1);
    }
  }

  lemma PendingAreOutstanding(run: Run, n: nat)
    requires IsRun(run) && n <= |run.events|
    ensures run.states[n].pending.Keys == OutstandingIds(run, n)
  {
    InvAlways(run, n);
    IdsAreConsecutive(run, n);
    forall id
      ensures id in run.states[n].pending.Keys <==> id in OutstandingIds(run, n)
    {
      HistoryIsState(run, n, id);
    }
  }

  /** A request is refused exactly without a method or while eight are outstanding, and
      gets the next number otherwise. */
  lemma SendOutcome(run: Run, n: nat)
    requires IsRun(run) && n < |run.events| && run.events[n].SendRequest?
    ensures run.outputs[n] ==
            if run.events[n].rpcMethod == "" then InvalidMethod
            else if |OutstandingIds(run, n)| >= 8 then TooManyRequests
            else Requested(Issued(run, n) + 1)
    ensures |OutstandingIds(run, n)| <= 8
  {
    StepOf(run, n);
    InvAlways(run, n);
    IdsAreConsecutive(run, n);
    PendingAreOutstanding(run, n);
    assert |run.states[n].pending| == |run.states[n].pending.Keys|;
  }

  /** Cancelling succeeds exactly for an outstanding request. */
  lemma CancelOutcome(run: Run, n: nat)
    requires IsRun(run) && n < |run.events| && run.events[n].CancelRequest?
    ensures run.outputs[n] ==
            if Outstanding(run, n, run.events[n].id) then Cancelled(run.events[n].id) else NotPending
  {
    StepOf(run, n);
    HistoryIsState(run, n, run.events[n].id);
  }

  /** A caller that waits gets the reply exactly when it has arrived, goes on waiting
      exactly while the request is outstanding, and gives up exactly otherwise. */
  lemma AwaitOutcome(run: Run, n: nat)
    requires IsRun(run) && n < |run.events| && run.events[n].AwaitResponse?
    ensures var id, output := run.events[n].id, run.outputs[n];
            && (output.Resolved? <==> Arrived(run, n, id)) && (output.Resolved? ==> output.id == id)
            && (output == Waiting <==> Outstanding(run, n, id))
            && (output == RequestCancelled <==> !Arrived(run, n, id) && !Outstanding(run, n, id))
  {
    StepOf(run, n);
    InvAlways(run, n);
    HistoryIsState(run, n, run.events[n].id);
  }

  /** A message of the server: what is not of the four kinds is refused, a call is handed
      on, and a response completes exactly an outstanding request, with what it says. */
  lemma ReceiveOutcome(run: Run, n: nat)
    requires IsRun(run) && n < |run.events| && run.events[n].Receive?
    ensures var message, output := run.events[n].message, run.outputs[n];
            && (output.Invalid? <==> !IsRequest(message) && !IsNotification(message) && !IsResponse(message))
            && (output == FromServer <==> IsRequest(message) || IsNotification(message))
            && (output.Completed? <==>
                IsResponse(message) && message["id"].Int? && Outstanding(run, n, message["id"].n))
            && (output.Completed? ==> message["id"] == Int(output.id) && Says(message, output.reply))
    ensures !run.outputs[n].Completed? && !run.outputs[n].Absorbed? ==> run.states[n + 1] == run.states[n]
  {
    var message := run.events[n].message;
    StepOf(run, n);
    InvAlways(run, n);
    ValidateMeansFourKinds(message);
    if IsResponse(message) && message["id"].Int? {
      HistoryIsState(run, n, message["id"].n);
      ReplySays(message, ReplyOf(message));
    }
  }
}
