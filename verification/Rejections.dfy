/** A `receiveBytes` call that rejects a message throws, and the messages behind it in
    the same chunk are lost although the decoder has consumed them
    (packages/lsp-shared/client.js:98-124).  A caller may go on reading after the throw;
    how the stream was cut then matters. */
module Rejections {
  import opened Utf8
  import opened Framing
  import opened FramingLaws
  import opened FrameRoundTrip
  import opened Sequences
  import opened JsonRpc
  import opened LspClient
  import opened Delivery

  predicate IsRejection(output: Output) {
    output.Invalid? || output.UnknownResponse?
  }

  /** Sequential `receiveBytes` calls whose caller goes on after a throw. */
  function ReceiveEach(limits: Limits<Message>, decoder: DecoderState, client: ClientState, chunks: seq<seq<Byte>>)
    : (DecoderState, ClientState)
    decreases |chunks|
  {
    if chunks == [] then (decoder, client)
    else
      var receipt := ReceiveBytes(limits, decoder, client, chunks[0]);
      ReceiveEach(limits, receipt.decoder, receipt.client, chunks[1..])
  }

  /** Dispatching every message, whatever happens to the others. */
  function DispatchEach(s: ClientState, messages: seq<Message>): ClientState
    decreases |messages|
  {
    if messages == [] then s else DispatchEach(Dispatch(s, messages[0]).0, messages[1..])
  }

  /** The messages behind the first rejected one. */
  function Lost(s: ClientState, messages: seq<Message>): seq<Message>
    decreases |messages|
  {
    if messages == [] then []
    else
      var (next, output) := Dispatch(s, messages[0]);
      if IsRejection(output) then messages[1..] else Lost(next, messages[1..])
  }

  /** Every message would leave the client as it is. */
  ghost predicate Harmless(s: ClientState, messages: seq<Message>) {
    forall m | m in messages :: Dispatch(s, m).0 == s
  }

  lemma {:induction false} DispatchEachConcat(s: ClientState, a: seq<Message>, b: seq<Message>)
    ensures DispatchEach(s, a + b) == DispatchEach(DispatchEach(s, a), b)
    decreases |a|
  {
    if a == [] {
      assert a + b == b;
    } else {
      assert (a + b)[1..] == a[1..] + b;
      DispatchEachConcat(Dispatch(s, a[0]).0, a[1..], b);
    }
  }

  /** A call dispatches all its messages but the lost ones. */
  lemma {:induction false} LostAreTheDifference(s: ClientState, messages: seq<Message>)
    ensures DispatchEach(DispatchAll(s, messages).0, Lost(s, messages)) == DispatchEach(s, messages)
    decreases |messages|
  {
    if messages != [] {
      var (next, output) := Dispatch(s, messages[0]);
      if !IsRejection(output) {
        LostAreTheDifference(next, messages[1..]);
      }
    }
  }

  lemma {:induction false} HarmlessDispatch(s: ClientState, messages: seq<Message>)
    requires Harmless(s, messages)
    ensures DispatchEach(s, messages) == s
    decreases |messages|
  {
    if messages != [] {
      assert messages[0] in messages;
      HarmlessDispatch(s, messages[1..]);
    }
  }

  /** How many requests still wait for a response. */
  function Open(s: ClientState): nat {
    |s.pending| + |s.cancelled|
  }

  lemma DispatchSettles(s: ClientState, message: Message)
    ensures Dispatch(s, message).0 == s || Open(Dispatch(s, message).0) < Open(s)
  {
    ValidateMeansFourKinds(message);
    if IsResponse(message) && message["id"].Int? {
      var id := message["id"].n;
      if id in s.cancelled {
        FewerWithout(s.cancelled, id);
      } else if id in s.pending {
        assert s.pending.Keys == (s.pending - {id}).Keys + {id};
        assert |s.pending.Keys| == |(s.pending - {id}).Keys| + 1;
      }
    }
  }

  lemma {:induction false} FewerWithout(ids: seq<int>, id: int)
    ensures |Without(ids, id)| <= |ids|
    ensures id in ids ==> |Without(ids, id)| < |ids|
  {
    if ids != [] {
      FewerWithout(ids[1..], id);
    }
  }

  lemma {:induction false} DispatchEachSettles(s: ClientState, messages: seq<Message>)
    ensures Open(DispatchEach(s, messages)) <= Open(s)
    ensures DispatchEach(s, messages) == s ==> Harmless(s, messages)
    decreases |messages|
  {
    if messages != [] {
      var next := Dispatch(s, messages[0]).0;
      DispatchSettles(s, messages[0]);
      DispatchEachSettles(next, messages[1..]);
    }
  }

  /** Of one call: the client ends as if every message had been dispatched if and only if
      none of the lost messages would have changed anything; in particular when the
      rejected message is the last of its chunk. */
  lemma OneCallLosesNothingExactly(s: ClientState, messages: seq<Message>)
    ensures DispatchAll(s, messages).0 == DispatchEach(s, messages)
       <==> Harmless(DispatchAll(s, messages).0, Lost(s, messages))
  {
    var end, lost := DispatchAll(s, messages).0, Lost(s, messages);
    LostAreTheDifference(s, messages);
    DispatchEachSettles(end, lost);
    if Harmless(end, lost) {
      HarmlessDispatch(end, lost);
    }
  }

  /** In no call does the decoder throw or a lost message matter. */
  ghost predicate LosesNothing(limits: Limits<Message>, decoder: DecoderState, client: ClientState, chunks: seq<seq<Byte>>)
    decreases |chunks|
  {
    chunks == [] ||
    match PushChunk(limits, decoder, chunks[0])
    case Thrown(_, _) => false
    case Delivered(messages, rest) =>
      && Harmless(DispatchAll(client, messages).0, Lost(client, messages))
      && LosesNothing(limits, rest, DispatchAll(client, messages).0, chunks[1..])
  }

  lemma {:induction false} ReceiveEachFactors(limits: Limits<Message>, decoder: DecoderState, client: ClientState,
      chunks: seq<seq<Byte>>)
    requires LosesNothing(limits, decoder, client, chunks)
    ensures PushAll(limits, decoder, chunks).Delivered?
    ensures var pushed := PushAll(limits, decoder, chunks);
            ReceiveEach(limits, decoder, client, chunks) == (pushed.state, DispatchEach(client, pushed.messages))
    decreases |chunks|
  {
    if chunks != [] {
      var Delivered(messages, rest) := PushChunk(limits, decoder, chunks[0]);
      var next := DispatchAll(client, messages).0;
      OneCallLosesNothingExactly(client, messages);
      ReceiveEachFactors(limits, rest, next, chunks[1..]);
      DispatchEachConcat(client, messages, PushAll(limits, rest, chunks[1..]).messages);
    }
  }

  /** When messages are rejected, the splitting still does not matter between calls
      that lose nothing that matters. */
  lemma SplittingStillDoesNotMatter(limits: Limits<Message>, decoder: DecoderState, client: ClientState,
      a: seq<seq<Byte>>, b: seq<seq<Byte>>)
    requires Quiet(limits, decoder) && Flatten(a) == Flatten(b)
    requires LosesNothing(limits, decoder, client, a) && LosesNothing(limits, decoder, client, b)
    ensures ReceiveEach(limits, decoder, client, a) == ReceiveEach(limits, decoder, client, b)
  {
    ReceiveEachFactors(limits, decoder, client, a);
    ReceiveEachFactors(limits, decoder, client, b);
    SplittingsAgree(limits, decoder, a, b);
  }

  // --------------------------------------------------------------- the losing input

  /** A response nobody waits for. */
  predicate Unexpected(s: ClientState, message: Message) {
    && IsResponse(message)
    && (message["id"].Int? ==> message["id"].n !in s.pending && message["id"].n !in s.cancelled)
  }

  lemma UnexpectedIsRejected(s: ClientState, message: Message)
    requires Unexpected(s, message)
    ensures Dispatch(s, message) == (s, UnknownResponse)
  {
    ValidateMeansFourKinds(message);
  }

  /** The losing input: an unexpected response, such as a reply past the tombstone
      window, and behind it the response to a pending request.  In one chunk the second
      is lost for ever and its request stays pending; in two it is completed. */
  lemma RejectionLosesTheRest(limits: Limits<Message>, s: ClientState, frames: seq<Frame>, late: Message, response: Message)
    requires Unexpected(s, late) && IsResponse(response) && response["id"].Int?
    requires IdOf(response) in s.pending && IdOf(response) !in s.cancelled
    requires |frames| == 2 && Carries(limits, frames[0], late) && Carries(limits, frames[1], response)
    requires DeliveredWhole(limits, frames)
    ensures ReceiveEach(limits, INITIAL, s, [Wires(frames)]) == (INITIAL, s)
    ensures ReceiveEach(limits, INITIAL, s, [Wires([frames[0]]), Wires([frames[1]])]) ==
            (INITIAL, Dispatch(s, response).0)
    ensures IdOf(response) in Dispatch(s, response).0.completed && IdOf(response) in s.pending
  {
    BothPushes(limits, frames, late, response);
    OnlyResponsesCount(s, late, response);
    DispatchAnswer(s, response);
    OneCall(limits, s, Wires(frames), [late, response]);
    OneCall(limits, s, Wires([frames[0]]), [late]);
    OneCall(limits, s, Wires([frames[1]]), [response]);
    TwoCalls(limits, s, Wires([frames[0]]), Wires([frames[1]]));
  }

  lemma BothPushes(limits: Limits<Message>, frames: seq<Frame>, late: Message, response: Message)
    requires |frames| == 2 && Carries(limits, frames[0], late) && Carries(limits, frames[1], response)
    requires DeliveredWhole(limits, frames)
    ensures PushChunk(limits, INITIAL, Wires(frames)) == Delivered([late, response], INITIAL)
    ensures PushChunk(limits, INITIAL, Wires([frames[0]])) == Delivered([late], INITIAL)
    ensures PushChunk(limits, INITIAL, Wires([frames[1]])) == Delivered([response], INITIAL)
  {
    WholePush(limits, frames, [late, response]);
    WholePush(limits, [frames[0]], [late]);
    WholePush(limits, [frames[1]], [response]);
  }

  lemma OnlyResponsesCount(s: ClientState, late: Message, response: Message)
    requires Unexpected(s, late)
    ensures DispatchAll(s, [late, response]).0 == s && DispatchAll(s, [late]).0 == s
    ensures DispatchAll(s, [response]).0 == Dispatch(s, response).0
  {
    UnexpectedIsRejected(s, late);
    assert [response][1..] == [];
  }

  lemma OneCall(limits: Limits<Message>, s: ClientState, chunk: seq<Byte>, messages: seq<Message>)
    requires PushChunk(limits, INITIAL, chunk) == Delivered(messages, INITIAL)
    ensures ReceiveEach(limits, INITIAL, s, [chunk]) == (INITIAL, DispatchAll(s, messages).0)
  {
    var receipt := ReceiveBytes(limits, INITIAL, s, chunk);
    assert [chunk][1..] == [];
    assert ReceiveEach(limits, receipt.decoder, receipt.client, []) == (receipt.decoder, receipt.client);
  }

  lemma TwoCalls(limits: Limits<Message>, s: ClientState, a: seq<Byte>, b: seq<Byte>)
    ensures var first := ReceiveEach(limits, INITIAL, s, [a]);
            ReceiveEach(limits, INITIAL, s, [a, b]) == ReceiveEach(limits, first.0, first.1, [b])
  {
    assert [a, b][1..] == [b] && [a][1..] == [];
  }

  /** Each of the frames, and all of them together, is accepted in one push. */
  predicate DeliveredWhole(limits: Limits<Message>, frames: seq<Frame>) {
    && PushChunk(limits, INITIAL, Wires(frames)).Delivered?
    && forall i | 0 <= i < |frames| :: PushChunk(limits, INITIAL, Wires([frames[i]])).Delivered?
  }

  lemma FlattenOne(chunk: seq<Byte>)
    ensures Flatten([chunk]) == chunk
  {
    var rest: seq<seq<Byte>> := [chunk][1..];
    assert Flatten([chunk]) == chunk + Flatten(rest);
  }

  lemma WholePush(limits: Limits<Message>, frames: seq<Frame>, messages: seq<Message>)
    requires CarriesAll(limits, frames, messages) && PushChunk(limits, INITIAL, Wires(frames)).Delivered?
    ensures PushChunk(limits, INITIAL, Wires(frames)) == Delivered(messages, INITIAL)
  {
    var chunk := Wires(frames);
    FlattenOne(chunk);
    var chunks: seq<seq<Byte>> := [chunk];
    FramesInPieces(limits, frames, messages, chunks);
    assert PushAll(limits, INITIAL, chunks[1..]) == Delivered([], INITIAL);
    var pushed := PushChunk(limits, INITIAL, chunk);
    assert pushed.messages + [] == pushed.messages;
  }
}
