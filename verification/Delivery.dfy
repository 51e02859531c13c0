/** From bytes to results: the frame decoder and the client together, under every
    way of cutting the server's byte stream into `receiveBytes` calls. */
module Delivery {
  import opened Wrappers
  import opened Utf8
  import opened Framing
  import opened FramingLaws
  import opened FrameRoundTrip
  import opened JsonRpc
  import opened LspClient

  /** Sequential `receiveBytes` calls, up to the first that throws. */
  function ReceiveAll(limits: Limits<Message>, decoder: DecoderState, client: ClientState, chunks: seq<seq<Byte>>): Receipt
    decreases |chunks|
  {
    if chunks == [] then Received(decoder, client)
    else
      match ReceiveBytes(limits, decoder, client, chunks[0])
      case Received(nextDecoder, nextClient) => ReceiveAll(limits, nextDecoder, nextClient, chunks[1..])
      case failed => failed
  }

  lemma {:induction false} DispatchAllConcat(s: ClientState, a: seq<Message>, b: seq<Message>)
    ensures DispatchAll(s, a + b) ==
            if DispatchAll(s, a).1.Some? then DispatchAll(s, a) else DispatchAll(DispatchAll(s, a).0, b)
    decreases |a|
  {
    if a == [] {
      assert a + b == b;
    } else {
      assert (a + b)[1..] == a[1..] + b;
      DispatchAllConcat(Dispatch(s, a[0]).0, a[1..], b);
    }
  }

  /** When no call throws, the calls together push all the bytes and dispatch all
      the messages. */
  lemma {:induction false} ReceiveAllFactors(limits: Limits<Message>, decoder: DecoderState, client: ClientState,
      chunks: seq<seq<Byte>>)
    ensures ReceiveAll(limits, decoder, client, chunks).Received? <==>
            && PushAll(limits, decoder, chunks).Delivered?
            && DispatchAll(client, PushAll(limits, decoder, chunks).messages).1.None?
    ensures ReceiveAll(limits, decoder, client, chunks).Received? ==>
            var pushed := PushAll(limits, decoder, chunks);
            ReceiveAll(limits, decoder, client, chunks) ==
            Received(pushed.state, DispatchAll(client, pushed.messages).0)
    decreases |chunks|
  {
    if chunks != [] {
      match PushChunk(limits, decoder, chunks[0])
      case Thrown(_, _) =>
      case Delivered(messages, rest) =>
        var next := DispatchAll(client, messages).0;
        ReceiveAllFactors(limits, rest, next, chunks[1..]);
        var later := PushAll(limits, rest, chunks[1..]);
        if later.Delivered? {
          DispatchAllConcat(client, messages, later.messages);
        }
    }
  }

  /** However one byte stream is split into calls that do not throw, the client
      and the decoder end in the same state. */
  lemma SplittingDoesNotMatter(limits: Limits<Message>, decoder: DecoderState, client: ClientState,
      a: seq<seq<Byte>>, b: seq<seq<Byte>>)
    requires Quiet(limits, decoder)
    requires Flatten(a) == Flatten(b)
    requires ReceiveAll(limits, decoder, client, a).Received? && ReceiveAll(limits, decoder, client, b).Received?
    ensures ReceiveAll(limits, decoder, client, a) == ReceiveAll(limits, decoder, client, b)
  {
    ReceiveAllFactors(limits, decoder, client, a);
    ReceiveAllFactors(limits, decoder, client, b);
    SplittingsAgree(limits, decoder, a, b);
  }

  // ------------------------------------------------------- responses to requests

  function IdOf(message: Message): int
    requires IsResponse(message) && message["id"].Int?
  {
    message["id"].n
  }

  ghost predicate AreResponses(messages: seq<Message>) {
    forall i | 0 <= i < |messages| :: IsResponse(messages[i]) && messages[i]["id"].Int?
  }

  /** Responses to distinct requests that are pending and not cancelled. */
  ghost predicate AnswersPending(s: ClientState, responses: seq<Message>) {
    && AreResponses(responses)
    && (forall i | 0 <= i < |responses| :: IdOf(responses[i]) in s.pending && IdOf(responses[i]) !in s.cancelled)
    && (forall i, j | 0 <= i < j < |responses| :: IdOf(responses[i]) != IdOf(responses[j]))
  }

  ghost function Ids(responses: seq<Message>): set<int>
    requires AreResponses(responses)
  {
    set i | 0 <= i < |responses| :: IdOf(responses[i])
  }

  /** Every response moved its id from pending to completed with its own reply;
      nothing else moved. */
  ghost predicate AllAnswered(before: ClientState, responses: seq<Message>, after: ClientState)
    requires AreResponses(responses)
  {
    && after.nextId == before.nextId && after.cancelled == before.cancelled
    && after.pending == before.pending - Ids(responses)
    && after.completed.Keys == before.completed.Keys + Ids(responses)
    && (forall i | 0 <= i < |responses| ::
          IdOf(responses[i]) in after.completed && Says(responses[i], after.completed[IdOf(responses[i])]))
    && (forall id | id in before.completed && id !in Ids(responses) :: after.completed[id] == before.completed[id])
  }

  lemma DispatchAnswer(s: ClientState, message: Message)
    requires IsResponse(message) && message["id"].Int?
    requires IdOf(message) in s.pending && IdOf(message) !in s.cancelled
    ensures Dispatch(s, message) ==
            (s.(pending := s.pending - {IdOf(message)}, completed := s.completed[IdOf(message) := ReplyOf(message)]),
             Completed(IdOf(message), ReplyOf(message)))
  {
    ValidateMeansFourKinds(message);
  }

  lemma {:induction false} DispatchAnswers(s: ClientState, responses: seq<Message>)
    requires AnswersPending(s, responses)
    ensures DispatchAll(s, responses).1.None?
    ensures AllAnswered(s, responses, DispatchAll(s, responses).0)
    decreases |responses|
  {
    if responses == [] {
      assert s.pending - {} == s.pending;
    } else {
      var first, rest := responses[0], responses[1..];
      DispatchAnswer(s, first);
      var next := Dispatch(s, first).0;
      assert AnswersPending(next, rest) by {
        forall i | 0 <= i < |rest|
          ensures rest[i] == responses[i + 1] && IdOf(rest[i]) != IdOf(first)
        {
        }
      }
      DispatchAnswers(next, rest);
      IdsSplit(responses);
      AnsweredOneMore(s, responses, DispatchAll(next, rest).0);
    }
  }

  lemma IdsSplit(responses: seq<Message>)
    requires responses != [] && AreResponses(responses)
    ensures AreResponses(responses[1..])
    ensures Ids(responses) == {IdOf(responses[0])} + Ids(responses[1..])
  {
    var rest := responses[1..];
    forall id | id in Ids(responses)
      ensures id == IdOf(responses[0]) || id in Ids(rest)
    {
      var i :| 0 <= i < |responses| && id == IdOf(responses[i]);
      assert i > 0 ==> rest[i - 1] == responses[i];
    }
    forall id | id in Ids(rest)
      ensures id in Ids(responses)
    {
      var i :| 0 <= i < |rest| && id == IdOf(rest[i]);
      assert rest[i] == responses[i + 1];
    }
  }

  lemma AnsweredOneMore(s: ClientState, responses: seq<Message>, after: ClientState)
    requires responses != [] && AnswersPending(s, responses)
    requires AreResponses(responses[1..])
    requires Ids(responses) == {IdOf(responses[0])} + Ids(responses[1..])
    requires AllAnswered(Dispatch(s, responses[0]).0, responses[1..], after)
    ensures AllAnswered(s, responses, after)
  {
    var first, rest := responses[0], responses[1..];
    DispatchAnswer(s, first);
    ReplySays(first, ReplyOf(first));
    assert IdOf(first) !in Ids(rest) by {
      forall i | 0 <= i < |rest|
        ensures IdOf(rest[i]) != IdOf(first)
      {
        assert rest[i] == responses[i + 1];
      }
    }
    forall i | 0 <= i < |responses|
      ensures IdOf(responses[i]) in after.completed && Says(responses[i], after.completed[IdOf(responses[i])])
    {
      if i > 0 {
        assert rest[i - 1] == responses[i];
      }
    }
    assert s.pending - {IdOf(first)} - Ids(rest) == s.pending - Ids(responses);
  }

  /** End-to-end delivery: let the bytes of any frames that carry responses to distinct
      pending requests arrive in any pieces.  The calls succeed if and only if the
      decoder accepts every piece, and then every request ends completed with its own
      reply and the decoder is at a frame boundary.  With short header blocks the
      decoder accepts every piece exactly when each is within the push budget on the
      residue before it. */
  lemma EndToEndDelivery(limits: Limits<Message>, client: ClientState, frames: seq<Frame>, responses: seq<Message>,
      chunks: seq<seq<Byte>>)
    requires AnswersPending(client, responses)
    requires CarriesAll(limits, frames, responses) && Flatten(chunks) == Wires(frames)
    ensures var receipt := ReceiveAll(limits, INITIAL, client, chunks);
            && (receipt.Received? <==> PushAll(limits, INITIAL, chunks).Delivered?)
            && (receipt.Received? ==> receipt.decoder == INITIAL && AllAnswered(client, responses, receipt.client))
            && (ShortFrames(limits, frames) ==> (receipt.Received? <==> ChunksFit(limits, INITIAL, chunks)))
  {
    FramesInPieces(limits, frames, responses, chunks);
    DispatchAnswers(client, responses);
    ReceiveAllFactors(limits, INITIAL, client, chunks);
  }

  /** In particular responses printed by `encodeFrame`, in pieces of bounded size. */
  lemma EncodedResponsesArrive(limits: Limits<Message>, client: ClientState, responses: seq<Message>,
      chunks: seq<seq<Byte>>)
    requires limits.json.Lawful() && Roomy(limits)
    requires AnswersPending(client, responses)
    requires EncodeAll(limits, responses) == Ok(Flatten(chunks))
    requires forall c | c in chunks :: |c| <= SafeChunk(limits)
    ensures var receipt := ReceiveAll(limits, INITIAL, client, chunks);
            receipt.Received? && receipt.decoder == INITIAL && AllAnswered(client, responses, receipt.client)
  {
    var frames := SmallPiecesFit(limits, responses, chunks);
    EndToEndDelivery(limits, client, frames, responses, chunks);
  }

  lemma SmallPiecesFit(limits: Limits<Message>, messages: seq<Message>, chunks: seq<seq<Byte>>) returns (frames: seq<Frame>)
    requires limits.json.Lawful() && Roomy(limits)
    requires EncodeAll(limits, messages) == Ok(Flatten(chunks))
    requires forall c | c in chunks :: |c| <= SafeChunk(limits)
    ensures CarriesAll(limits, frames, messages) && Flatten(chunks) == Wires(frames)
    ensures ShortFrames(limits, frames) && ChunksFit(limits, INITIAL, chunks)
  {
    frames := EncodedFramesCarry(limits, messages);
    var bytes := Flatten(chunks);
    assert [] + bytes == bytes && Wires(frames) + [] == bytes;
    DecodesFrames(limits, frames, messages, [], INITIAL);
    ShortFramesDrainShort(limits, frames, messages);
    SmallChunksFit(limits, INITIAL, chunks);
  }
}
