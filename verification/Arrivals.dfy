/** Receiving under all interleavings (packages/lsp-shared/client.js:98-144).

    `receiveBytes` yields at an `await` after every message, and several calls of it can
    be under way at once.  So every message of every call is dispatched in a step of its
    own, in the order of its call, with any steps of the client and of other calls in
    between. */
module Arrivals {
  import opened Utf8
  import opened Framing
  import opened FramingLaws
  import opened FrameRoundTrip
  import opened JsonRpc
  import opened LspClient
  import opened Delivery
  import opened Rejections

  /** A `receiveBytes` call that still has the messages from `next` to `end` of the log
      to dispatch. */
  datatype Call = Call(next: nat, end: nat)

  /** The log has every message the decoder has delivered, `outputs` what every step of
      the client has reported. */
  datatype Wire = Wire(
    decoder: DecoderState,
    client: ClientState,
    log: seq<Message>,
    calls: seq<Call>,
    outputs: seq<Output>
  )

  datatype Happening =
    | Arrive(bytes: seq<Byte>)
    | Handle(call: nat)
    | Other(event: Event)

  function Started(client: ClientState): Wire {
    Wire(INITIAL, client, [], [], [])
  }

  predicate CanHandle(w: Wire, k: nat) {
    k < |w.calls| && w.calls[k].next < w.calls[k].end <= |w.log|
  }

  function Happens(limits: Limits<Message>, w: Wire, h: Happening): Wire {
    match h
    case Arrive(bytes) =>
      (match PushChunk(limits, w.decoder, bytes)
       case Thrown(_, rest) => w.(decoder := rest)
       case Delivered(messages, rest) =>
         w.(decoder := rest, log := w.log + messages, calls := w.calls + [Call(|w.log|, |w.log| + |messages|)]))
    case Handle(k) =>
      if !CanHandle(w, k) then w
      else
        var call := w.calls[k];
        var (client, output) := Dispatch(w.client, w.log[call.next]);
        var after := if IsRejection(output) then Call(call.end, call.end) else Call(call.next + 1, call.end);
        w.(client := client, calls := w.calls[k := after], outputs := w.outputs + [output])
    case Other(event) =>
      if event.Receive? then w
      else
        var (client, output) := Next(w.client, event);
        w.(client := client, outputs := w.outputs + [output])
  }

  function HappensAll(limits: Limits<Message>, w: Wire, hs: seq<Happening>): Wire
    decreases |hs|
  {
    if hs == [] then w else HappensAll(limits, Happens(limits, w, hs[0]), hs[1..])
  }

  /** The chunks that arrive, in order. */
  function Arrived(hs: seq<Happening>): seq<seq<Byte>> {
    if hs == [] then []
    else (if hs[0].Arrive? then [hs[0].bytes] else []) + Arrived(hs[1..])
  }

  /** The client itself abandons the request. */
  predicate GivesUp(h: Happening, id: int) {
    h.Other? && (h.event == CancelRequest(id) || h.event == SendFailed(id) || h.event == ShutDown)
  }

  ghost predicate KeepsAll(h: Happening, responses: seq<Message>)
    requires AreResponses(responses)
  {
    forall i | 0 <= i < |responses| :: !GivesUp(h, IdOf(responses[i]))
  }

  ghost predicate NoneGivenUp(hs: seq<Happening>, responses: seq<Message>)
    requires AreResponses(responses)
  {
    forall h | h in hs :: KeepsAll(h, responses)
  }

  /** Some call has yet to dispatch message `i` of the log. */
  ghost predicate Waits(w: Wire, i: nat) {
    exists k | 0 <= k < |w.calls| :: w.calls[k].next <= i < w.calls[k].end
  }

  /** The response completed its request with its own reply, which is held until a
      caller has got it. */
  ghost predicate Answered(w: Wire, response: Message)
    requires IsResponse(response) && response["id"].Int?
  {
    exists reply | Says(response, reply) :: AnsweredWith(w, IdOf(response), reply)
  }

  predicate AnsweredWith(w: Wire, id: int, reply: Reply) {
    && Completed(id, reply) in w.outputs
    && ((id in w.client.completed && w.client.completed[id] == reply) || Resolved(id, reply) in w.outputs)
  }

  lemma AnsweredMeans(w: Wire, response: Message)
    requires IsResponse(response) && response["id"].Int?
    ensures Answered(w, response) <==> AnsweredWith(w, IdOf(response), ReplyOf(response))
  {
    ReplySays(response, ReplyOf(response));
    if reply :| Says(response, reply) && AnsweredWith(w, IdOf(response), reply) {
      ReplySays(response, reply);
    }
  }

  ghost predicate CallsOk(w: Wire) {
    && (forall k | 0 <= k < |w.calls| :: w.calls[k].next <= w.calls[k].end <= |w.log|)
    && (forall k, l | 0 <= k < l < |w.calls| :: w.calls[k].end <= w.calls[l].next)
  }

  ghost predicate Awaited(s: ClientState, response: Message)
    requires IsResponse(response) && response["id"].Int?
  {
    IdOf(response) in s.pending && IdOf(response) !in s.cancelled
  }

  ghost predicate DistinctResponses(responses: seq<Message>) {
    AreResponses(responses) && forall i, j | 0 <= i < j < |responses| :: IdOf(responses[i]) != IdOf(responses[j])
  }

  /** Every response so far is answered or still to be dispatched, and every one that is
      not answered is awaited. */
  ghost predicate Going(w: Wire, responses: seq<Message>) {
    && DistinctResponses(responses)
    && |w.log| <= |responses| && w.log == responses[..|w.log|]
    && CallsOk(w)
    && (forall o | o in w.outputs :: !IsRejection(o))
    && forall i | 0 <= i < |responses| :: Settled(w, responses, i)
  }

  ghost predicate Settled(w: Wire, responses: seq<Message>, i: nat)
    requires i < |responses| && AreResponses(responses)
  {
    if i < |w.log| && !Waits(w, i) then Answered(w, responses[i]) else Awaited(w.client, responses[i])
  }

  lemma ArriveKeeps(limits: Limits<Message>, w: Wire, bytes: seq<Byte>, responses: seq<Message>)
    requires Going(w, responses)
    requires PushChunk(limits, w.decoder, bytes).Delivered?
    requires var log := Happens(limits, w, Arrive(bytes)).log; |log| <= |responses| && log == responses[..|log|]
    ensures Going(Happens(limits, w, Arrive(bytes)), responses)
  {
    var next := Happens(limits, w, Arrive(bytes));
    assert next.calls == w.calls + [Call(|w.log|, |next.log|)];
    forall i | 0 <= i < |responses|
      ensures Settled(next, responses, i)
    {
      assert Settled(w, responses, i);
      ArrivedWaits(w, next, i);
    }
  }

  /** The messages of a new call wait. */
  lemma ArrivedWaits(w: Wire, next: Wire, i: nat)
    requires next.calls == w.calls + [Call(|w.log|, |next.log|)]
    ensures Waits(next, i) <==> Waits(w, i) || |w.log| <= i < |next.log|
  {
    var n := |w.calls|;
    assert next.calls[n] == Call(|w.log|, |next.log|);
    if Waits(w, i) {
      var k :| 0 <= k < n && w.calls[k].next <= i < w.calls[k].end;
      assert next.calls[k].next <= i < next.calls[k].end;
    }
    if Waits(next, i) {
      var k :| 0 <= k < |next.calls| && next.calls[k].next <= i < next.calls[k].end;
      assert k < n ==> w.calls[k].next <= i < w.calls[k].end;
    }
  }

  lemma HandleKeeps(limits: Limits<Message>, w: Wire, k: nat, responses: seq<Message>)
    requires Going(w, responses) && CanHandle(w, k)
    ensures Going(Happens(limits, w, Handle(k)), responses)
  {
    var next := Happens(limits, w, Handle(k));
    var at := w.calls[k].next;
    assert Waits(w, at) && Settled(w, responses, at);
    DispatchAnswer(w.client, responses[at]);
    assert next.calls == w.calls[k := Call(at + 1, w.calls[k].end)];
    var done := Completed(IdOf(responses[at]), ReplyOf(responses[at]));
    assert next.outputs == w.outputs + [done];
    forall i | 0 <= i < |responses|
      ensures Settled(next, responses, i)
    {
      assert Settled(w, responses, i);
      HandledWaits(w, next, k, i);
      AnsweredMeans(w, responses[i]);
      AnsweredMeans(next, responses[i]);
      if i == at {
        assert done in next.outputs;
      } else {
        assert IdOf(responses[i]) != IdOf(responses[at]);
        assert forall o | o in w.outputs :: o in next.outputs;
      }
    }
  }

  /** Handling a message takes just it off the list of waiting ones. */
  lemma HandledWaits(w: Wire, next: Wire, k: nat, i: nat)
    requires CallsOk(w) && CanHandle(w, k)
    requires next.calls == w.calls[k := Call(w.calls[k].next + 1, w.calls[k].end)]
    ensures Waits(next, i) <==> Waits(w, i) && i != w.calls[k].next
  {
    if Waits(w, i) && i != w.calls[k].next {
      var l :| 0 <= l < |w.calls| && w.calls[l].next <= i < w.calls[l].end;
      assert next.calls[l].next <= i < next.calls[l].end;
    }
    if Waits(next, i) {
      var l :| 0 <= l < |next.calls| && next.calls[l].next <= i < next.calls[l].end;
      assert w.calls[l].next <= i < w.calls[l].end;
      assert l < k ==> w.calls[l].end <= w.calls[k].next;
      assert k < l ==> w.calls[k].end <= w.calls[l].next;
    }
  }

  lemma OtherKeeps(limits: Limits<Message>, w: Wire, event: Event, responses: seq<Message>)
    requires Going(w, responses) && KeepsAll(Other(event), responses)
    ensures Going(Happens(limits, w, Other(event)), responses)
  {
    var next := Happens(limits, w, Other(event));
    if !event.Receive? {
      OtherIsNoRejection(w.client, event);
      forall i | 0 <= i < |responses|
        ensures Settled(next, responses, i)
      {
        assert Settled(w, responses, i);
        assert !GivesUp(Other(event), IdOf(responses[i]));
        assert Waits(next, i) <==> Waits(w, i);
        if i < |w.log| && !Waits(w, i) {
          AnsweredStays(w, event, next, responses[i]);
        } else {
          AwaitedStays(w.client, event, responses[i]);
        }
      }
    }
  }

  lemma OtherIsNoRejection(s: ClientState, event: Event)
    requires !event.Receive?
    ensures !IsRejection(Next(s, event).1)
  {
  }

  lemma AwaitedStays(s: ClientState, event: Event, response: Message)
    requires IsResponse(response) && response["id"].Int?
    requires !event.Receive? && Awaited(s, response) && !GivesUp(Other(event), IdOf(response))
    ensures Awaited(Next(s, event).0, response)
  {
    if event.CancelRequest? && event.id in s.pending {
      EvictIsFewer(Insert(s.cancelled, event.id));
    }
  }

  lemma {:induction false} EvictIsFewer(ids: seq<int>)
    ensures forall x | x in Evict(ids) :: x in ids
    decreases |ids|
  {
    if |ids| > MAX_CANCELLED_TOMBSTONES {
      EvictIsFewer(ids[1..]);
    }
  }

  lemma AnsweredStays(w: Wire, event: Event, next: Wire, response: Message)
    requires IsResponse(response) && response["id"].Int?
    requires !event.Receive? && Answered(w, response) && !GivesUp(Other(event), IdOf(response))
    requires next.client == Next(w.client, event).0 && next.outputs == w.outputs + [Next(w.client, event).1]
    ensures Answered(next, response)
  {
    AnsweredMeans(w, response);
    AnsweredMeans(next, response);
    assert forall o | o in w.outputs :: o in next.outputs;
    var id, reply := IdOf(response), ReplyOf(response);
    if event == AwaitResponse(id) && id in w.client.completed && w.client.completed[id] == reply {
      assert next.outputs[|w.outputs|] == Resolved(id, reply);
    }
  }

  /** What is still to arrive completes the log to the responses. */
  ghost predicate Completes(limits: Limits<Message>, w: Wire, hs: seq<Happening>, responses: seq<Message>) {
    var rest := PushAll(limits, w.decoder, Arrived(hs));
    rest.Delivered? && w.log + rest.messages == responses
  }

  lemma ArriveCompletes(limits: Limits<Message>, w: Wire, hs: seq<Happening>, responses: seq<Message>)
    requires hs != [] && hs[0].Arrive? && Completes(limits, w, hs, responses)
    ensures PushChunk(limits, w.decoder, hs[0].bytes).Delivered?
    ensures var next := Happens(limits, w, hs[0]);
            && Completes(limits, next, hs[1..], responses)
            && next.log == w.log + PushChunk(limits, w.decoder, hs[0].bytes).messages == responses[..|next.log|]
            && PushAll(limits, next.decoder, Arrived(hs[1..])).state == PushAll(limits, w.decoder, Arrived(hs)).state
  {
    ArrivedFirst(hs);
    PushFirst(limits, w.decoder, Arrived(hs));
    var first := PushChunk(limits, w.decoder, hs[0].bytes);
    var later := PushAll(limits, first.state, Arrived(hs[1..])).messages;
    Prefixes(w.log, first.messages, later);
  }

  lemma PushFirst(limits: Limits<Message>, decoder: DecoderState, chunks: seq<seq<Byte>>)
    requires chunks != [] && PushAll(limits, decoder, chunks).Delivered?
    ensures var first := PushChunk(limits, decoder, chunks[0]);
            && first.Delivered? && PushAll(limits, first.state, chunks[1..]).Delivered?
            && PushAll(limits, decoder, chunks).messages ==
               first.messages + PushAll(limits, first.state, chunks[1..]).messages
            && PushAll(limits, decoder, chunks).state == PushAll(limits, first.state, chunks[1..]).state
  {
  }

  lemma Prefixes(a: seq<Message>, b: seq<Message>, c: seq<Message>)
    ensures a + (b + c) == a + b + c && (a + b + c)[..|a + b|] == a + b
  {
  }

  /** One happening. */
  lemma GoesOnOnce(limits: Limits<Message>, w: Wire, hs: seq<Happening>, responses: seq<Message>)
    requires hs != [] && Going(w, responses) && KeepsAll(hs[0], responses) && Completes(limits, w, hs, responses)
    ensures var next := Happens(limits, w, hs[0]);
            && Going(next, responses) && Completes(limits, next, hs[1..], responses)
            && PushAll(limits, next.decoder, Arrived(hs[1..])).state == PushAll(limits, w.decoder, Arrived(hs)).state
  {
    match hs[0]
    case Arrive(bytes) =>
      ArriveCompletes(limits, w, hs, responses);
      ArriveKeeps(limits, w, bytes, responses);
    case Handle(k) =>
      if CanHandle(w, k) {
        HandleKeeps(limits, w, k, responses);
      }
      NothingArrives(hs);
    case Other(event) =>
      OtherKeeps(limits, w, event, responses);
      NothingArrives(hs);
  }

  lemma NothingArrives(hs: seq<Happening>)
    requires hs != [] && !hs[0].Arrive?
    ensures Arrived(hs) == Arrived(hs[1..])
  {
  }

  lemma {:induction false} GoesOn(limits: Limits<Message>, w: Wire, hs: seq<Happening>, responses: seq<Message>)
    requires Going(w, responses) && NoneGivenUp(hs, responses) && Completes(limits, w, hs, responses)
    ensures var end := HappensAll(limits, w, hs);
            && Going(end, responses) && end.log == responses
            && end.decoder == PushAll(limits, w.decoder, Arrived(hs)).state
    decreases |hs|
  {
    if hs != [] {
      assert hs[0] in hs && forall g | g in hs[1..] :: g in hs;
      GoesOnOnce(limits, w, hs, responses);
      GoesOn(limits, Happens(limits, w, hs[0]), hs[1..], responses);
    }
  }

  lemma ArrivedFirst(hs: seq<Happening>)
    requires hs != [] && hs[0].Arrive?
    ensures Arrived(hs) != [] && Arrived(hs)[0] == hs[0].bytes && Arrived(hs)[1..] == Arrived(hs[1..])
  {
  }

  /** End-to-end delivery under every interleaving: let the bytes of any frames that carry
      responses to distinct pending requests arrive in any pieces the decoder accepts, and
      let any steps of the client and of other receiving calls happen in between, as long
      as none of these requests is given up.  Then at every moment no message has been
      rejected, and every response is answered, with its own reply, unless its call has yet
      to dispatch it; so all are answered once every call is through. */
  lemma EndToEndInterleaved(limits: Limits<Message>, client: ClientState, frames: seq<Frame>, responses: seq<Message>,
      hs: seq<Happening>)
    requires AnswersPending(client, responses) && CarriesAll(limits, frames, responses)
    requires Flatten(Arrived(hs)) == Wires(frames) && PushAll(limits, INITIAL, Arrived(hs)).Delivered?
    requires NoneGivenUp(hs, responses)
    ensures var end := HappensAll(limits, Started(client), hs);
            && end.decoder == INITIAL && end.log == responses
            && (forall o | o in end.outputs :: !IsRejection(o))
            && (forall i | 0 <= i < |responses| ::
                  if Waits(end, i) then IdOf(responses[i]) in end.client.pending else Answered(end, responses[i]))
            && ((forall k | 0 <= k < |end.calls| :: end.calls[k].next == end.calls[k].end) ==>
                  forall i | 0 <= i < |responses| :: Answered(end, responses[i]))
  {
    FramesInPieces(limits, frames, responses, Arrived(hs));
    StartsGoing(limits, client, hs, responses);
    GoesOn(limits, Started(client), hs, responses);
    EndsSettled(HappensAll(limits, Started(client), hs), responses);
  }

  lemma StartsGoing(limits: Limits<Message>, client: ClientState, hs: seq<Happening>, responses: seq<Message>)
    requires AnswersPending(client, responses)
    requires PushAll(limits, INITIAL, Arrived(hs)) == Delivered(responses, INITIAL)
    ensures Going(Started(client), responses) && Completes(limits, Started(client), hs, responses)
  {
    assert [] + responses == responses;
    forall i | 0 <= i < |responses|
      ensures Settled(Started(client), responses, i)
    {
    }
  }

  lemma EndsSettled(end: Wire, responses: seq<Message>)
    requires Going(end, responses) && end.log == responses
    ensures forall i | 0 <= i < |responses| ::
              if Waits(end, i) then IdOf(responses[i]) in end.client.pending else Answered(end, responses[i])
    ensures (forall k | 0 <= k < |end.calls| :: end.calls[k].next == end.calls[k].end) ==>
              forall i | 0 <= i < |responses| :: Answered(end, responses[i])
  {
    forall i | 0 <= i < |responses|
      ensures if Waits(end, i) then IdOf(responses[i]) in end.client.pending else Answered(end, responses[i])
    {
      assert Settled(end, responses, i);
    }
  }

  // --------------------------------------------------- calls without interruption

  /** `n` times the next message of call `k`. */
  function Handles(k: nat, n: nat): seq<Happening> {
    if n == 0 then [] else [Handle(k)] + Handles(k, n - 1)
  }

  lemma FirstHandle(limits: Limits<Message>, w: Wire, k: nat, n: nat)
    requires n > 0
    ensures HappensAll(limits, w, Handles(k, n)) == HappensAll(limits, Happens(limits, w, Handle(k)), Handles(k, n - 1))
  {
    assert Handles(k, n)[0] == Handle(k) && Handles(k, n)[1..] == Handles(k, n - 1);
  }

  /** What is left when call `k` handles `n` messages and nothing else happens. */
  function CallAlone(limits: Limits<Message>, w: Wire, k: nat, n: nat): (DecoderState, ClientState) {
    var end := HappensAll(limits, w, Handles(k, n));
    (end.decoder, end.client)
  }

  /** The messages that call `k` has yet to dispatch. */
  ghost predicate HasLeft(w: Wire, k: nat, messages: seq<Message>) {
    && k < |w.calls| && w.calls[k].next + |messages| == w.calls[k].end <= |w.log|
    && forall i | 0 <= i < |messages| :: w.log[w.calls[k].next + i] == messages[i]
  }

  lemma {:induction false} UninterruptedHandles(limits: Limits<Message>, w: Wire, k: nat, messages: seq<Message>)
    requires HasLeft(w, k, messages)
    ensures CallAlone(limits, w, k, |messages|) == (w.decoder, DispatchAll(w.client, messages).0)
    decreases |messages|
  {
    if messages != [] {
      var next, rest := Happens(limits, w, Handle(k)), messages[1..];
      FirstHandle(limits, w, k, |messages|);
      if IsRejection(Dispatch(w.client, messages[0]).1) {
        NothingToHandle(limits, next, k, |rest|);
      } else {
        UninterruptedHandles(limits, next, k, rest);
      }
    }
  }

  lemma {:induction false} NothingToHandle(limits: Limits<Message>, w: Wire, k: nat, n: nat)
    requires !CanHandle(w, k)
    ensures HappensAll(limits, w, Handles(k, n)) == w
    decreases n
  {
    if n > 0 {
      FirstHandle(limits, w, k, n);
      NothingToHandle(limits, w, k, n - 1);
    }
  }

  lemma ArrivedCall(limits: Limits<Message>, w: Wire, bytes: seq<Byte>)
    requires PushChunk(limits, w.decoder, bytes).Delivered?
    ensures var Delivered(messages, rest) := PushChunk(limits, w.decoder, bytes);
            var arrived := Happens(limits, w, Arrive(bytes));
            && arrived.client == w.client && arrived.decoder == rest
            && |arrived.log| == |w.log| + |messages| && HasLeft(arrived, |w.calls|, messages)
  {
  }

  lemma ReceiptOf(limits: Limits<Message>, decoder: DecoderState, client: ClientState, bytes: seq<Byte>)
    ensures var receipt, pushed := ReceiveBytes(limits, decoder, client, bytes), PushChunk(limits, decoder, bytes);
            && receipt.decoder == pushed.state
            && receipt.client == if pushed.Delivered? then DispatchAll(client, pushed.messages).0 else client
  {
  }

  /** A call during which nothing else happens is `ReceiveBytes`. */
  lemma UninterruptedCall(limits: Limits<Message>, w: Wire, bytes: seq<Byte>)
    ensures var arrived := Happens(limits, w, Arrive(bytes));
            var receipt := ReceiveBytes(limits, w.decoder, w.client, bytes);
            CallAlone(limits, arrived, |w.calls|, |arrived.log| - |w.log|) == (receipt.decoder, receipt.client)
  {
    ReceiptOf(limits, w.decoder, w.client, bytes);
    var arrived := Happens(limits, w, Arrive(bytes));
    if PushChunk(limits, w.decoder, bytes).Delivered? {
      ArrivedCall(limits, w, bytes);
      UninterruptedHandles(limits, arrived, |w.calls|, PushChunk(limits, w.decoder, bytes).messages);
    } else {
      assert arrived.log == w.log && arrived.client == w.client;
    }
  }
}
