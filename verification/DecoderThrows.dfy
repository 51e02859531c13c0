/** When the decoder throws, what it has consumed then, and what becomes of a decoder
    that is pushed on after a throw (packages/lsp-shared/framing.js:75-111). */
module DecoderThrows {
  import opened Wrappers
  import opened Utf8
  import opened Framing
  import opened FramingLaws

  /** The body from `start` on is complete and no message. */
  ghost predicate BodyOffends<M(!new)>(limits: Limits<M>, tail: seq<Byte>, start: nat, length: nat, error: FrameError,
      rest: DecoderState) {
    && start + length <= |tail| && ReadBody(limits.json, tail[start..start + length]) == Err(error)
    && rest == DecoderState(tail[start + length..], None)
  }

  /** What makes the loop throw at a frame boundary: a header block that is too long or
      refused, which stays in the buffer, or a complete body that is no message, which is
      consumed with its header. */
  ghost predicate Offence<M(!new)>(limits: Limits<M>, tail: seq<Byte>, error: FrameError, rest: DecoderState) {
    var end := FirstIndex(tail, HEADER_END);
    if end < 0 then |tail| > limits.maxHeaderBytes && error == HeaderTooLarge && rest == DecoderState(tail, None)
    else if end > limits.maxHeaderBytes then error == HeaderTooLarge && rest == DecoderState(tail, None)
    else
      match ParseHeader(tail[..end], limits.maxFrameBytes)
      case Err(refused) => error == refused && rest == DecoderState(tail, None)
      case Ok(length) => BodyOffends(limits, tail, end + 4, length, error, rest)
  }

  lemma BodyFails<M(!new)>(limits: Limits<M>, tail: seq<Byte>, start: nat, length: nat, error: FrameError, rest: DecoderState)
    requires start <= |tail|
    ensures BodyStep(limits, DecoderState(tail[start..], Some(length))) == Fail(error, rest) <==>
            BodyOffends(limits, tail, start, length, error, rest)
  {
    if start + length <= |tail| {
      assert tail[start..][..length] == tail[start..start + length];
      assert tail[start..][length..] == tail[start + length..];
    }
  }

  lemma HeaderFails<M(!new)>(limits: Limits<M>, tail: seq<Byte>, refused: FrameError, error: FrameError, rest: DecoderState)
    requires HeaderStep(limits, DecoderState(tail, None)) == HeaderFailed(refused)
    ensures NextFrame(limits, DecoderState(tail, None)) == Fail(error, rest) <==>
            error == refused && rest == DecoderState(tail, None)
  {
  }

  lemma NextOfRead<M(!new)>(limits: Limits<M>, state: DecoderState, next: DecoderState)
    requires HeaderStep(limits, state) == HeaderRead(next)
    ensures NextFrame(limits, state) == BodyStep(limits, next)
  {
  }

  lemma OffenceFails<M(!new)>(limits: Limits<M>, tail: seq<Byte>, error: FrameError, rest: DecoderState)
    ensures Offence(limits, tail, error, rest) <==> NextFrame(limits, DecoderState(tail, None)) == Fail(error, rest)
  {
    var end, state := FirstIndex(tail, HEADER_END), DecoderState(tail, None);
    if end >= 0 {
      HeaderStepAt(limits, tail, end);
    }
    var round := HeaderStep(limits, state);
    if round.HeaderFailed? {
      HeaderFails(limits, tail, round.error, error, rest);
    } else if round.HeaderRead? {
      NextOfRead(limits, state, round.state);
      BodyFails(limits, tail, end + 4, round.state.bodyLength.value, error, rest);
    }
  }

  /** The stream is frames of these messages and then an offence. */
  ghost predicate OffendsAfter<M(!new)>(limits: Limits<M>, buffer: seq<Byte>, frames: seq<Frame>, messages: seq<M>,
      tail: seq<Byte>, error: FrameError, rest: DecoderState) {
    CarriesAll(limits, frames, messages) && buffer == Wires(frames) + tail && Offence(limits, tail, error, rest)
  }

  lemma {:induction false} OffenceThrows<M(!new)>(limits: Limits<M>, buffer: seq<Byte>, frames: seq<Frame>,
      messages: seq<M>, tail: seq<Byte>, error: FrameError, rest: DecoderState)
    requires OffendsAfter(limits, buffer, frames, messages, tail, error, rest)
    ensures Drain(limits, DecoderState(buffer, None)) == Thrown(error, rest)
    decreases |frames|
  {
    if frames == [] {
      assert buffer == tail;
      OffenceFails(limits, tail, error, rest);
    } else {
      var more := Wires(frames[1..]) + tail;
      OffenceThrows(limits, more, frames[1..], messages[1..], tail, error, rest);
      DrainFrame(limits, frames[0], messages[0], more);
      WiresSplit(frames, tail);
    }
  }

  lemma {:induction false} ThrowOffends<M(!new)>(limits: Limits<M>, buffer: seq<Byte>, error: FrameError, rest: DecoderState)
      returns (frames: seq<Frame>, messages: seq<M>, tail: seq<Byte>)
    requires Drain(limits, DecoderState(buffer, None)) == Thrown(error, rest)
    ensures OffendsAfter(limits, buffer, frames, messages, tail, error, rest)
    decreases |buffer|
  {
    match NextFrame(limits, DecoderState(buffer, None))
    case Fail(_, _) =>
      frames, messages, tail := [], [], buffer;
      assert buffer == [] + buffer;
      OffenceFails(limits, tail, error, rest);
    case Emit(message, next) =>
      var frame := EmittedFrame(limits, buffer);
      var more, later;
      more, later, tail := ThrowOffends(limits, next.buffer, error, rest);
      frames, messages := [frame] + more, [message] + later;
      WiresOneMore(frame, more, tail);
      CarriesOneMore(limits, frame, message, more, later);
  }

  /** The loop throws if and only if the bytes are frames, whose messages are then lost,
      followed by an offence; it throws that error and leaves what the offence says. */
  lemma ThrowsExactly<M(!new)>(limits: Limits<M>, buffer: seq<Byte>, error: FrameError, rest: DecoderState)
    ensures Drain(limits, DecoderState(buffer, None)) == Thrown(error, rest) <==>
            exists frames, messages: seq<M>, tail :: OffendsAfter(limits, buffer, frames, messages, tail, error, rest)
  {
    if Drain(limits, DecoderState(buffer, None)) == Thrown(error, rest) {
      var frames, messages, tail := ThrowOffends(limits, buffer, error, rest);
    }
    if frames, messages: seq<M>, tail :| OffendsAfter(limits, buffer, frames, messages, tail, error, rest) {
      OffenceThrows(limits, buffer, frames, messages, tail, error, rest);
    }
  }

  // ------------------------------------------------------------------- afterwards

  /** The state after pushing chunk after chunk, whatever is thrown. */
  function After<M(!new)>(limits: Limits<M>, state: DecoderState, chunks: seq<seq<Byte>>): DecoderState
    decreases |chunks|
  {
    if chunks == [] then state else After(limits, PushChunk(limits, state, chunks[0]).state, chunks[1..])
  }

  /** A complete header block that is refused is at the front. */
  predicate IsStuck<M(!new)>(limits: Limits<M>, state: DecoderState) {
    && state.bodyLength.None? && FirstIndex(state.buffer, HEADER_END) >= 0 && HeaderStep(limits, state).HeaderFailed?
  }

  lemma StuckStep<M(!new)>(limits: Limits<M>, state: DecoderState, chunk: seq<Byte>)
    requires IsStuck(limits, state)
    ensures PushChunk(limits, state, chunk).Thrown? && IsStuck(limits, PushChunk(limits, state, chunk).state)
    ensures PushChunk(limits, state, chunk).error == FrameTooLarge
         || PushChunk(limits, state, chunk).error == HeaderStep(limits, state).error
    ensures HeaderStep(limits, PushChunk(limits, state, chunk).state) == HeaderStep(limits, state)
  {
    if WithinBudget(limits, state, chunk) {
      HeaderStepExtend(limits, state, chunk);
      FirstIndexExtend(state.buffer, chunk, HEADER_END);
    }
  }

  /** Once a complete header block is refused, every later push throws, the same error
      or for want of room: the decoder never gets past it. */
  lemma {:induction false} StuckForEver<M(!new)>(limits: Limits<M>, state: DecoderState, chunks: seq<seq<Byte>>, chunk: seq<Byte>)
    requires IsStuck(limits, state)
    ensures var outcome := PushChunk(limits, After(limits, state, chunks), chunk);
            outcome.Thrown? && (outcome.error == FrameTooLarge || outcome.error == HeaderStep(limits, state).error)
    decreases |chunks|
  {
    if chunks == [] {
      StuckStep(limits, state, chunk);
    } else {
      StuckStep(limits, state, chunks[0]);
      StuckForEver(limits, PushChunk(limits, state, chunks[0]).state, chunks[1..], chunk);
    }
  }
}
