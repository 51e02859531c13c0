/** The request, cancel and response bookkeeping of `LspClient`
    (packages/lsp-shared/client.js).

    Everything a method does between two `await`s is one atomic step.  `Next`
    specifies every such step on client states, the methods of the class are the
    steps as written, and ClientLaws.dfy reasons about all interleavings. */
module LspClient {
  import opened Wrappers
  import opened Sequences
  import opened Utf8
  import opened Framing
  import opened JsonRpc

  const MAX_PENDING_REQUESTS: nat := 8
  const MAX_CANCELLED_TOMBSTONES: nat := 64

  /** An entry of the completed map: a result, or an error to throw. */
  datatype Reply = Returned(result: Json) | Raised(error: Json)

  function ReplyOf(message: Message): Reply
    requires IsResponse(message)
  {
    if "error" in message then Raised(message["error"]) else Returned(message["result"])
  }

  /** What a response says: a success its result, a failure its error. */
  predicate Says(message: Message, reply: Reply) {
    match reply
    case Returned(result) => IsSuccess(message) && message["result"] == result
    case Raised(error) => IsFailure(message) && message["error"] == error
  }

  /** A response is stored as what it says, and it says one thing. */
  lemma ReplySays(message: Message, reply: Reply)
    requires IsResponse(message)
    ensures Says(message, reply) <==> reply == ReplyOf(message)
  {
  }

  /** `cancelled` is a JavaScript set, which iterates in insertion order. */
  datatype ClientState = ClientState(
    nextId: int,
    pending: map<int, string>,
    completed: map<int, Reply>,
    cancelled: seq<int>
  )

  const CREATED := ClientState(1, map[], map[], [])

  datatype Event =
    | SendRequest(rpcMethod: string)
    | SendFailed(id: int)
    | CancelRequest(id: int)
    | Receive(message: Message)
    | AwaitResponse(id: int)
    | ShutDown

  datatype Output =
    | InvalidMethod
    | TooManyRequests
    | Requested(id: int)
    | Forgotten
    | NotPending
    | Cancelled(id: int)
    | Invalid(violation: Violation)
    | FromServer
    | Absorbed(id: int)
    | UnknownResponse
    | Completed(id: int, reply: Reply)
    | Waiting
    | RequestCancelled
    | Resolved(id: int, reply: Reply)
    | Stopped

  function Insert(ids: seq<int>, id: int): seq<int> {
    if id in ids then ids else ids + [id]
  }

  /** Drops the oldest tombstones over the budget. */
  function Evict(ids: seq<int>): seq<int> {
    if |ids| > MAX_CANCELLED_TOMBSTONES then Evict(ids[1..]) else ids
  }

  /** The whole effect of dispatching one message. */
  function Dispatch(s: ClientState, message: Message): (ClientState, Output) {
    match Validate(message)
    case Some(violation) => (s, Invalid(violation))
    case None =>
      if "method" in message then (s, FromServer)
      else
        match message["id"] {
          case Int(id) =>
            if id in s.cancelled then (s.(cancelled := Without(s.cancelled, id)), Absorbed(id))
            else if id !in s.pending then (s, UnknownResponse)
            else
              (s.(pending := s.pending - {id}, completed := s.completed[id := ReplyOf(message)]),
               Completed(id, ReplyOf(message)))
          case _ => (s, UnknownResponse)
        }
  }

  function Next(s: ClientState, event: Event): (ClientState, Output) {
    match event
    case SendRequest(m) =>
      if m == "" then (s, InvalidMethod)
      else if |s.pending| >= MAX_PENDING_REQUESTS then (s, TooManyRequests)
      else (s.(nextId := s.nextId + 1, pending := s.pending[s.nextId := m]), Requested(s.nextId))
    case SendFailed(id) =>
      (s.(pending := s.pending - {id}), Forgotten)
    case CancelRequest(id) =>
      if id !in s.pending then (s, NotPending)
      else
        (s.(pending := s.pending - {id}, cancelled := Evict(Insert(s.cancelled, id))), Cancelled(id))
    case Receive(message) => Dispatch(s, message)
    case AwaitResponse(id) =>
      if id in s.completed then (s.(completed := s.completed - {id}), Resolved(id, s.completed[id]))
      else if id !in s.pending then (s, RequestCancelled)
      else (s, Waiting)
    case ShutDown => (s.(pending := map[], completed := map[]), Stopped)
  }

  // ------------------------------------------------------------- byte delivery

  /** Dispatches messages in order; a throw abandons the rest. */
  function DispatchAll(s: ClientState, messages: seq<Message>): (ClientState, Option<Output>)
    decreases |messages|
  {
    if messages == [] then (s, None)
    else
      var (next, output) := Dispatch(s, messages[0]);
      if output.Invalid? || output.UnknownResponse? then (next, Some(output))
      else DispatchAll(next, messages[1..])
  }

  datatype Receipt =
    | Received(decoder: DecoderState, client: ClientState)
    | FrameRejected(error: FrameError, decoder: DecoderState, client: ClientState)
    | MessageRejected(output: Output, decoder: DecoderState, client: ClientState)

  /** `receiveBytes` when nothing else runs between its messages. */
  function ReceiveBytes(limits: Limits<Message>, decoder: DecoderState, client: ClientState, bytes: seq<Byte>): Receipt {
    match PushChunk(limits, decoder, bytes)
    case Thrown(error, rest) => FrameRejected(error, rest, client)
    case Delivered(messages, rest) =>
      match DispatchAll(client, messages)
      case (next, None) => Received(rest, next)
      case (next, Some(output)) => MessageRejected(output, rest, next)
  }

  class LspClient {
    const decoder: FrameDecoder<Message>
    var nextId: int
    var pending: map<int, string>
    var completed: map<int, Reply>
    var cancelled: seq<int>

    constructor (limits: Limits<Message>)
      ensures State() == CREATED && fresh(decoder) && decoder.limits == limits && decoder.State() == INITIAL
    {
      decoder := new FrameDecoder(limits);
      nextId, pending, completed, cancelled := 1, map[], map[], [];
    }

    function State(): ClientState
      reads this
    {
      ClientState(nextId, pending, completed, cancelled)
    }

    /** `sendRequest` up to its `await`. */
    method SendRequest(m: string) returns (output: Output)
      modifies this
      ensures (State(), output) == Next(old(State()), Event.SendRequest(m))
    {
      if |m| == 0 {
        return InvalidMethod;
      }
      if |pending| >= MAX_PENDING_REQUESTS {
        return TooManyRequests;
      }
      var id := nextId;
      nextId := nextId + 1;
      pending := pending[id := m];
      return Requested(id);
    }

    /** The handler `sendRequest` runs when sending is rejected. */
    method SendFailed(id: int) returns (output: Output)
      modifies this
      ensures (State(), output) == Next(old(State()), Event.SendFailed(id))
    {
      pending := pending - {id};
      return Forgotten;
    }

    /** `cancelRequest` up to its `await`. */
    method CancelRequest(id: int) returns (output: Output)
      modifies this
      ensures (State(), output) == Next(old(State()), Event.CancelRequest(id))
    {
      if id !in pending {
        return NotPending;
      }
      pending := pending - {id};
      cancelled := Insert(cancelled, id);
      ghost var inserted := cancelled;
      while |cancelled| > MAX_CANCELLED_TOMBSTONES
        invariant pending == old(pending) - {id} && nextId == old(nextId) && completed == old(completed)
        invariant Evict(cancelled) == Evict(inserted)
      {
        cancelled := cancelled[1..];
      }
      return Output.Cancelled(id);
    }

    method DispatchMessage(message: Message) returns (output: Output)
      modifies this
      ensures (State(), output) == Dispatch(old(State()), message)
    {
      var violation := Validate(message);
      if violation.Some? {
        return Invalid(violation.value);
      }
      ValidateMeansFourKinds(message);
      if "method" in message {
        return FromServer;
      }
      if !message["id"].Int? {
        return UnknownResponse;
      }
      var id := message["id"].n;
      if id in cancelled {
        cancelled := Without(cancelled, id);
        return Absorbed(id);
      }
      if id !in pending {
        return UnknownResponse;
      }
      pending := pending - {id};
      completed := completed[id := ReplyOf(message)];
      return Completed(id, ReplyOf(message));
    }

    /** One pass of the loop in `response`. */
    method AwaitResponse(id: int) returns (output: Output)
      modifies this
      ensures (State(), output) == Next(old(State()), Event.AwaitResponse(id))
    {
      if id !in completed {
        if id !in pending {
          return RequestCancelled;
        }
        return Waiting;
      }
      var reply := completed[id];
      completed := completed - {id};
      return Resolved(id, reply);
    }

    /** The `finally` block of `shutdown`. */
    method ShutDown() returns (output: Output)
      modifies this
      ensures (State(), output) == Next(old(State()), Event.ShutDown)
    {
      pending := map[];
      completed := map[];
      return Stopped;
    }

    method ReceiveChunk(bytes: seq<Byte>) returns (receipt: Receipt)
      modifies this, decoder
      ensures receipt == ReceiveBytes(decoder.limits, old(decoder.State()), old(State()), bytes)
      ensures receipt.decoder == decoder.State() && receipt.client == State()
    {
      var outcome := decoder.Push(bytes);
      if outcome.Err? {
        return FrameRejected(outcome.error, decoder.State(), State());
      }
      var messages := outcome.value;
      assert messages[0..] == messages;
      for i := 0 to |messages|
        invariant DispatchAll(old(State()), messages) == DispatchAll(State(), messages[i..])
        invariant PushChunk(decoder.limits, old(decoder.State()), bytes) == Outcome.Delivered(messages, decoder.State())
      {
        ghost var before := State();
        var output := DispatchMessage(messages[i]);
        assert messages[i..][1..] == messages[i + 1..];
        if output.Invalid? || output.UnknownResponse? {
          assert DispatchAll(before, messages[i..]) == (State(), Some(output));
          return MessageRejected(output, decoder.State(), State());
        }
      }
      return Received(decoder.State(), State());
    }
  }
}
