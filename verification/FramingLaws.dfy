/** Laws of the frame decoder: delivering a stream in pieces refines delivering
    it at once, the bytes are conserved, and encoding then decoding is the
    identity. */
module FramingLaws {
  import opened Wrappers
  import opened Utf8
  import opened Framing

  // ------------------------------------------------------------ searching

  /** A position found in a prefix is found in the whole. */
  lemma FirstIndexExtend(haystack: seq<int>, more: seq<int>, needle: seq<int>)
    requires FirstIndex(haystack, needle) >= 0
    ensures FirstIndex(haystack + more, needle) == FirstIndex(haystack, needle)
  {
    var i := FirstIndex(haystack, needle);
    var whole := haystack + more;
    forall j | 0 <= j <= i
      ensures OccursAt(whole, needle, j) <==> OccursAt(haystack, needle, j)
    {
      assert j + |needle| <= |haystack|;
      assert whole[j..j + |needle|] == haystack[j..j + |needle|];
    }
    assert OccursAt(whole, needle, i);
    assert FirstIndex(whole, needle) == i;
  }

  /** A prefix that stops before the first occurrence ends contains none. */
  lemma FirstIndexShort(haystack: seq<int>, cut: nat, needle: seq<int>)
    requires cut <= |haystack|
    requires FirstIndex(haystack, needle) < 0 || cut < FirstIndex(haystack, needle) + |needle|
    ensures FirstIndex(haystack[..cut], needle) < 0
  {
    var k := FirstIndex(haystack[..cut], needle);
    if k >= 0 {
      assert haystack[..cut][k..k + |needle|] == haystack[k..k + |needle|];
      assert OccursAt(haystack, needle, k);
    }
  }

  // ------------------------------------------------------- one round, extended

  /** The header step once the terminator is found at `end`. */
  lemma HeaderStepAt<M(!new)>(limits: Limits<M>, buffer: seq<Byte>, end: nat)
    requires FirstIndex(buffer, HEADER_END) == end
    ensures HeaderStep(limits, DecoderState(buffer, None)) ==
            if end > limits.maxHeaderBytes then HeaderFailed(HeaderTooLarge)
            else
              match ParseHeader(buffer[..end], limits.maxFrameBytes)
              case Err(error) => HeaderFailed(error)
              case Ok(length) => HeaderRead(DecoderState(buffer[end + 4..], Some(length)))
  {
  }

  /** Once its terminator has arrived, a header block is read, or refused, the
      same way whatever follows. */
  lemma HeaderStepExtend<M(!new)>(limits: Limits<M>, state: DecoderState, more: seq<Byte>)
    requires state.bodyLength.Some? || FirstIndex(state.buffer, HEADER_END) >= 0
    ensures HeaderStep(limits, Extend(state, more)) ==
            match HeaderStep(limits, state)
            case HeaderRead(next) => HeaderRead(Extend(next, more))
            case HeaderFailed(error) => HeaderFailed(error)
            case AwaitHeader => AwaitHeader
  {
    if state.bodyLength.None? {
      var end := FirstIndex(state.buffer, HEADER_END);
      var whole := state.buffer + more;
      FirstIndexExtend(state.buffer, more, HEADER_END);
      HeaderStepAt(limits, state.buffer, end);
      HeaderStepAt(limits, whole, end);
      assert whole[..end] == state.buffer[..end];
      assert whole[end + 4..] == state.buffer[end + 4..] + more;
    }
  }

  lemma BodyStepExtend<M(!new)>(limits: Limits<M>, state: DecoderState, more: seq<Byte>)
    requires state.bodyLength.Some? && state.bodyLength.value <= |state.buffer|
    ensures BodyStep(limits, Extend(state, more)) ==
            match BodyStep(limits, state)
            case Emit(message, rest) => Emit(message, Extend(rest, more))
            case Fail(error, rest) => Fail(error, Extend(rest, more))
            case Idle(rest) => Idle(rest)
  {
    var length := state.bodyLength.value;
    assert (state.buffer + more)[..length] == state.buffer[..length];
    assert (state.buffer + more)[length..] == state.buffer[length..] + more;
  }

  /** A round that emits does so whatever follows. */
  lemma EmitExtend<M(!new)>(limits: Limits<M>, state: DecoderState, more: seq<Byte>)
    requires NextFrame(limits, state).Emit?
    ensures NextFrame(limits, Extend(state, more)) ==
            Emit(NextFrame(limits, state).message, Extend(NextFrame(limits, state).state, more))
  {
    HeaderStepExtend(limits, state, more);
    BodyStepExtend(limits, HeaderStep(limits, state).state, more);
  }

  /** A round that waits has only moved past a header block: resuming it with
      more bytes is the same as having had them from the start. */
  lemma IdleExtend<M(!new)>(limits: Limits<M>, state: DecoderState, more: seq<Byte>)
    requires NextFrame(limits, state).Idle?
    ensures NextFrame(limits, Extend(state, more)) ==
            NextFrame(limits, Extend(NextFrame(limits, state).state, more))
  {
    if HeaderStep(limits, state).HeaderRead? {
      HeaderStepExtend(limits, state, more);
    }
  }

  lemma DrainOfNextFrame<M(!new)>(limits: Limits<M>, a: DecoderState, b: DecoderState)
    requires NextFrame(limits, a) == NextFrame(limits, b)
    ensures Drain(limits, a) == Drain(limits, b)
  {
  }

  /** Draining more bytes continues where the last drain stopped. */
  lemma {:induction false} DrainExtend<M(!new)>(limits: Limits<M>, state: DecoderState, more: seq<Byte>)
    requires Drain(limits, state).Delivered?
    ensures Drain(limits, Extend(state, more)) ==
            Prepend(Drain(limits, state).messages, Drain(limits, Extend(Drain(limits, state).state, more)))
    decreases |state.buffer|, Weight(state)
  {
    match NextFrame(limits, state)
    case Idle(rest) =>
      IdleExtend(limits, state, more);
      DrainOfNextFrame(limits, Extend(state, more), Extend(rest, more));
      PrependNothing(Drain(limits, Extend(rest, more)));
    case Emit(message, rest) =>
      EmitExtend(limits, state, more);
      DrainExtend(limits, rest, more);
      var tail := Drain(limits, rest);
      PrependTwice([message], tail.messages, Drain(limits, Extend(tail.state, more)));
  }

  lemma PrependNothing<M>(outcome: Outcome<M>)
    ensures Prepend([], outcome) == outcome
  {
    if outcome.Delivered? {
      assert [] + outcome.messages == outcome.messages;
    }
  }

  // ------------------------------------------------- between calls

  /** What every normal return leaves: no complete frame, at most
      `maxHeaderBytes` of an unfinished header block, less than the announced
      length of an unfinished body. */
  predicate Quiet<M(!new)>(limits: Limits<M>, state: DecoderState) {
    match state.bodyLength
    case None => FirstIndex(state.buffer, HEADER_END) < 0 && |state.buffer| <= limits.maxHeaderBytes
    case Some(length) => |state.buffer| < length <= limits.maxFrameBytes
  }

  predicate LengthInBudget<M(!new)>(limits: Limits<M>, state: DecoderState) {
    state.bodyLength.Some? ==> state.bodyLength.value <= limits.maxFrameBytes
  }

  /** Maximal progress: the loop stops only in a quiet state. */
  lemma {:induction false} DrainIsMaximal<M(!new)>(limits: Limits<M>, state: DecoderState)
    requires LengthInBudget(limits, state)
    requires Drain(limits, state).Delivered?
    ensures Quiet(limits, Drain(limits, state).state)
    ensures |Drain(limits, state).state.buffer| <= |state.buffer|
    decreases |state.buffer|, Weight(state)
  {
    match NextFrame(limits, state)
    case Idle(_) =>
    case Emit(_, rest) => DrainIsMaximal(limits, rest);
  }

  lemma QuietIsIdle<M(!new)>(limits: Limits<M>, state: DecoderState)
    requires Quiet(limits, state)
    ensures Drain(limits, state) == Delivered([], state)
  {
  }

  // ---------------------------------------------- delivering a stream in pieces

  /** A sequence of `push` calls that stops at the first throw. */
  function PushAll<M(!new)>(limits: Limits<M>, state: DecoderState, chunks: seq<seq<Byte>>): Outcome<M>
    decreases |chunks|
  {
    if chunks == [] then Delivered([], state)
    else
      match PushChunk(limits, state, chunks[0])
      case Thrown(error, rest) => Thrown(error, rest)
      case Delivered(messages, rest) => Prepend(messages, PushAll(limits, rest, chunks[1..]))
  }

  lemma ExtendTwice(state: DecoderState, a: seq<Byte>, b: seq<Byte>)
    ensures Extend(Extend(state, a), b) == Extend(state, a + b)
  {
    assert state.buffer + a + b == state.buffer + (a + b);
  }

  lemma ExtendNothing(state: DecoderState)
    ensures Extend(state, []) == state
  {
    assert state.buffer + [] == state.buffer;
  }

  /** If no call of a sequence throws, they deliver what one loop over all the
      bytes delivers, and leave the same state. */
  lemma {:induction false} PiecesAgree<M(!new)>(limits: Limits<M>, state: DecoderState, chunks: seq<seq<Byte>>)
    requires Quiet(limits, state)
    requires PushAll(limits, state, chunks).Delivered?
    ensures Drain(limits, Extend(state, Flatten(chunks))) == PushAll(limits, state, chunks)
    decreases |chunks|
  {
    if chunks == [] {
      ExtendNothing(state);
      QuietIsIdle(limits, state);
    } else {
      var first := Extend(state, chunks[0]);
      var rest := Drain(limits, first).state;
      DrainIsMaximal(limits, first);
      PiecesAgree(limits, rest, chunks[1..]);
      DrainExtend(limits, first, Flatten(chunks[1..]));
      ExtendTwice(state, chunks[0], Flatten(chunks[1..]));
    }
  }

  /** Two ways of splitting one stream that both run without a throw deliver the
      same messages and leave the same state. */
  lemma SplittingsAgree<M(!new)>(limits: Limits<M>, state: DecoderState, a: seq<seq<Byte>>, b: seq<seq<Byte>>)
    requires Quiet(limits, state)
    requires Flatten(a) == Flatten(b)
    requires PushAll(limits, state, a).Delivered? && PushAll(limits, state, b).Delivered?
    ensures PushAll(limits, state, a) == PushAll(limits, state, b)
  {
    PiecesAgree(limits, state, a);
    PiecesAgree(limits, state, b);
  }

  /** The next header block is complete but so long that it does not fit the budget
      while the last byte of its terminator is missing. */
  predicate LongAtStart<M(!new)>(limits: Limits<M>, state: DecoderState) {
    var end := FirstIndex(state.buffer, HEADER_END);
    state.bodyLength.None? && end >= 0 && end + 3 > limits.maxHeaderBytes
  }

  /** Every header block of the stream fits the budget even when its terminator is
      still incomplete, which is when the decoder last measures it. */
  predicate ShortHeaders<M(!new)>(limits: Limits<M>, state: DecoderState)
    decreases |state.buffer|, Weight(state)
  {
    && !LongAtStart(limits, state)
    && match NextFrame(limits, state)
       case Emit(_, rest) => ShortHeaders(limits, rest)
       case _ => true
  }

  /** A round that throws on a prefix of a stream that drains can only have run
      out of patience with an unfinished header block. */
  lemma FailOnPrefix<M(!new)>(limits: Limits<M>, state: DecoderState, more: seq<Byte>)
    requires NextFrame(limits, state).Fail?
    requires !NextFrame(limits, Extend(state, more)).Fail?
    ensures state.bodyLength.None? && |state.buffer| > limits.maxHeaderBytes
    ensures FirstIndex(state.buffer, HEADER_END) < 0
    ensures FirstIndex(state.buffer + more, HEADER_END) >= 0
  {
    if state.bodyLength.Some? || FirstIndex(state.buffer, HEADER_END) >= 0 {
      HeaderStepExtend(limits, state, more);
      if HeaderStep(limits, state).HeaderRead? {
        BodyStepExtend(limits, HeaderStep(limits, state).state, more);
      }
    }
  }

  lemma TerminatorBeyond(buffer: seq<Byte>, more: seq<Byte>)
    requires FirstIndex(buffer, HEADER_END) < 0 <= FirstIndex(buffer + more, HEADER_END)
    ensures |buffer| <= FirstIndex(buffer + more, HEADER_END) + 3
  {
    var end := FirstIndex(buffer + more, HEADER_END);
    if end + 4 <= |buffer| {
      assert (buffer + more)[end..end + 4] == buffer[end..end + 4];
      assert OccursAt(buffer, HEADER_END, end);
    }
  }

  /** With short headers, every prefix of a stream that drains drains too. */
  lemma {:induction false} PrefixDrains<M(!new)>(limits: Limits<M>, state: DecoderState, more: seq<Byte>)
    requires Drain(limits, Extend(state, more)).Delivered?
    requires ShortHeaders(limits, Extend(state, more))
    ensures Drain(limits, state).Delivered?
    decreases |state.buffer|, Weight(state)
  {
    var whole := Extend(state, more);
    match NextFrame(limits, state)
    case Idle(_) =>
    case Emit(_, rest) =>
      EmitExtend(limits, state, more);
      PrefixDrains(limits, rest, more);
    case Fail(_, _) =>
      FailOnPrefix(limits, state, more);
      TerminatorBeyond(state.buffer, more);
      assert LongAtStart(limits, whole);
      assert false;
  }

  lemma {:induction false} ShortHeadersAfter<M(!new)>(limits: Limits<M>, state: DecoderState, more: seq<Byte>)
    requires Drain(limits, state).Delivered?
    requires ShortHeaders(limits, Extend(state, more))
    ensures ShortHeaders(limits, Extend(Drain(limits, state).state, more))
    decreases |state.buffer|, Weight(state)
  {
    var whole := Extend(state, more);
    match NextFrame(limits, state)
    case Idle(rest) =>
      IdleExtend(limits, state, more);
    case Emit(_, rest) =>
      EmitExtend(limits, state, more);
      ShortHeadersAfter(limits, rest, more);
  }

  /** With short headers and a stream within the push budget, every splitting
      succeeds with the messages and the state of the single push. */
  lemma {:induction false} ChunkingIndependence<M(!new)>(limits: Limits<M>, state: DecoderState, chunks: seq<seq<Byte>>)
    requires Quiet(limits, state)
    requires PushChunk(limits, state, Flatten(chunks)).Delivered?
    requires ShortHeaders(limits, Extend(state, Flatten(chunks)))
    ensures PushAll(limits, state, chunks) == PushChunk(limits, state, Flatten(chunks))
    decreases |chunks|
  {
    if chunks == [] {
      ExtendNothing(state);
      QuietIsIdle(limits, state);
    } else {
      var first, later := Extend(state, chunks[0]), Flatten(chunks[1..]);
      ExtendTwice(state, chunks[0], later);
      PrefixDrains(limits, first, later);
      DrainIsMaximal(limits, first);
      DrainExtend(limits, first, later);
      ShortHeadersAfter(limits, first, later);
      ChunkingIndependence(limits, Drain(limits, first).state, chunks[1..]);
    }
  }

  /** Every chunk is within the push budget on top of what the chunks before it left. */
  predicate ChunksFit<M(!new)>(limits: Limits<M>, state: DecoderState, chunks: seq<seq<Byte>>)
    decreases |chunks|
  {
    chunks == [] ||
    (&& WithinBudget(limits, state, chunks[0])
     && ChunksFit(limits, Drain(limits, Extend(state, chunks[0])).state, chunks[1..]))
  }

  /** The push budget is the other reason to throw: a stream of any length with short
      header blocks is delivered in pieces if and only if every piece is within the
      budget on the residue before it, and then as one loop over it delivers it. */
  lemma {:induction false} DeliveredExactlyWhenChunksFit<M(!new)>(limits: Limits<M>, state: DecoderState,
      chunks: seq<seq<Byte>>)
    requires Quiet(limits, state)
    requires Drain(limits, Extend(state, Flatten(chunks))).Delivered?
    requires ShortHeaders(limits, Extend(state, Flatten(chunks)))
    ensures PushAll(limits, state, chunks).Delivered? <==> ChunksFit(limits, state, chunks)
    ensures ChunksFit(limits, state, chunks) ==>
              PushAll(limits, state, chunks) == Drain(limits, Extend(state, Flatten(chunks)))
    decreases |chunks|
  {
    if chunks == [] {
      ExtendNothing(state);
      QuietIsIdle(limits, state);
    } else {
      var first, later := Extend(state, chunks[0]), Flatten(chunks[1..]);
      ExtendTwice(state, chunks[0], later);
      PrefixDrains(limits, first, later);
      DrainIsMaximal(limits, first);
      DrainExtend(limits, first, later);
      ShortHeadersAfter(limits, first, later);
      DeliveredExactlyWhenChunksFit(limits, Drain(limits, first).state, chunks[1..]);
    }
  }

  /** Every read of up to `maxFrameBytes` bytes is within the push budget if and only
      if at most `maxHeaderBytes` + 4 bytes are buffered; a quiet decoder may hold
      more of an unfinished body. */
  lemma ReadsFitExactlyOnSmallResidues<M(!new)>(limits: Limits<M>, state: DecoderState)
    ensures (forall chunk: seq<Byte> | |chunk| <= limits.maxFrameBytes :: WithinBudget(limits, state, chunk))
       <==> |state.buffer| <= limits.maxHeaderBytes + |HEADER_END|
  {
    var longest: seq<Byte> := seq(limits.maxFrameBytes, i => 0);
    assert |longest| == limits.maxFrameBytes;
  }

  // ------------------------------------------------ the header condition is exact

  lemma FirstIndexOfPrefix(haystack: seq<int>, cut: nat, needle: seq<int>)
    requires 0 <= FirstIndex(haystack, needle) && FirstIndex(haystack, needle) + |needle| <= cut <= |haystack|
    ensures FirstIndex(haystack[..cut], needle) == FirstIndex(haystack, needle)
  {
    var front, i := haystack[..cut], FirstIndex(haystack, needle);
    assert front[i..i + |needle|] == haystack[i..i + |needle|];
    assert OccursAt(front, needle, i);
    FirstIndexExtend(front, haystack[cut..], needle);
    assert front + haystack[cut..] == haystack;
  }

  lemma HeaderStepOfPrefix<M(!new)>(limits: Limits<M>, buffer: seq<Byte>, cut: nat)
    requires HeaderStep(limits, DecoderState(buffer, None)).HeaderRead?
    requires FirstIndex(buffer, HEADER_END) + 4 <= cut <= |buffer|
    ensures var next := HeaderStep(limits, DecoderState(buffer, None)).state;
            var end := FirstIndex(buffer, HEADER_END);
            && |buffer| == end + 4 + |next.buffer|
            && HeaderStep(limits, DecoderState(buffer[..cut], None)) ==
               HeaderRead(DecoderState(next.buffer[..cut - end - 4], next.bodyLength))
  {
    var end := FirstIndex(buffer, HEADER_END);
    FirstIndexOfPrefix(buffer, cut, HEADER_END);
    HeaderStepAt(limits, buffer, end);
    HeaderStepAt(limits, buffer[..cut], end);
    assert buffer[..cut][..end] == buffer[..end];
    assert buffer[..cut][end + 4..] == buffer[end + 4..][..cut - end - 4];
  }

  lemma BodyStepConsumes<M(!new)>(limits: Limits<M>, state: DecoderState)
    requires state.bodyLength.Some? && BodyStep(limits, state).Emit?
    ensures var used := state.bodyLength.value;
            && used <= |state.buffer|
            && BodyStep(limits, state).state == DecoderState(state.buffer[used..], None)
            && BodyStep(limits, DecoderState(state.buffer[..used], state.bodyLength)) ==
               Emit(BodyStep(limits, state).message, INITIAL)
  {
    var used := state.bodyLength.value;
    assert state.buffer[..used][..used] == state.buffer[..used];
    assert state.buffer[..used][used..] == [];
  }

  /** A round that emits reads a prefix of the buffer and leaves the rest. */
  lemma EmitConsumes<M(!new)>(limits: Limits<M>, state: DecoderState) returns (used: nat)
    requires NextFrame(limits, state).Emit?
    ensures used <= |state.buffer|
    ensures NextFrame(limits, state).state == DecoderState(state.buffer[used..], None)
    ensures NextFrame(limits, DecoderState(state.buffer[..used], state.bodyLength)) ==
            Emit(NextFrame(limits, state).message, INITIAL)
  {
    var next := HeaderStep(limits, state).state;
    BodyStepConsumes(limits, next);
    used := next.bodyLength.value;
    if state.bodyLength.None? {
      var end := FirstIndex(state.buffer, HEADER_END);
      HeaderStepAt(limits, state.buffer, end);
      used := end + 4 + used;
      HeaderStepOfPrefix(limits, state.buffer, used);
      assert state.buffer[used..] == next.buffer[next.bodyLength.value..];
    }
  }

  /** A throw on the bytes that follow one whole frame. */
  lemma ThrowsThrough<M(!new)>(limits: Limits<M>, start: DecoderState, more: seq<Byte>)
    requires NextFrame(limits, start).Emit? && NextFrame(limits, start).state == INITIAL
    requires Drain(limits, DecoderState(more, None)).Thrown?
    ensures Drain(limits, Extend(start, more)).Thrown?
  {
    EmitExtend(limits, start, more);
    assert [] + more == more;
  }

  /** The first `used` bytes are exactly one frame, or what was missing of one, and
      `rest` is the decoder after it. */
  predicate StartsWithFrame<M(!new)>(limits: Limits<M>, state: DecoderState, used: nat, rest: DecoderState) {
    && used <= |state.buffer| && rest == DecoderState(state.buffer[used..], None)
    && var first := NextFrame(limits, DecoderState(state.buffer[..used], state.bodyLength));
       first.Emit? && first.state == INITIAL
  }

  /** A throw after one emitted message, seen from before it. */
  lemma ThrowsLater<M(!new)>(limits: Limits<M>, state: DecoderState, used: nat, rest: DecoderState, later: nat)
    returns (cut: nat)
    requires StartsWithFrame(limits, state, used, rest)
    requires ThrowsAt(limits, rest, later)
    ensures ThrowsAt(limits, state, cut)
  {
    cut := used + later;
    ThrowsAfter(limits, state, used, later);
  }

  lemma ThrowsAfter<M(!new)>(limits: Limits<M>, state: DecoderState, used: nat, later: nat)
    requires used + later <= |state.buffer|
    requires StartsWithFrame(limits, state, used, DecoderState(state.buffer[used..], None))
    requires Drain(limits, DecoderState(state.buffer[used..][..later], None)).Thrown?
    ensures Drain(limits, DecoderState(state.buffer[..used + later], state.bodyLength)).Thrown?
  {
    ThrowsThrough(limits, DecoderState(state.buffer[..used], state.bodyLength), state.buffer[used..][..later]);
    ExtendPrefix(state, used, later);
  }

  /** A prefix of the buffer, extended by the bytes that follow it. */
  lemma ExtendPrefix(state: DecoderState, used: nat, later: nat)
    requires used + later <= |state.buffer|
    ensures var more := state.buffer[used..][..later];
            && Extend(DecoderState(state.buffer[..used], state.bodyLength), more)
               == DecoderState(state.buffer[..used + later], state.bodyLength)
  {
    var more := state.buffer[used..][..later];
    assert state.buffer[..used] + more == state.buffer[..used + later];
  }

  /** The first `cut` bytes alone make the decoder throw. */
  predicate ThrowsAt<M(!new)>(limits: Limits<M>, state: DecoderState, cut: nat) {
    cut <= |state.buffer| && Drain(limits, DecoderState(state.buffer[..cut], state.bodyLength)).Thrown?
  }

  /** The stream is decoded, and some header block in it is long. */
  ghost predicate LongSomewhere<M(!new)>(limits: Limits<M>, state: DecoderState) {
    Drain(limits, state).Delivered? && !ShortHeaders(limits, state)
  }

  /** A long header block that lacks the last byte of its terminator. */
  lemma UnendedHeaderThrows<M(!new)>(limits: Limits<M>, state: DecoderState) returns (cut: nat)
    requires LongAtStart(limits, state)
    ensures ThrowsAt(limits, state, cut)
  {
    cut := FirstIndex(state.buffer, HEADER_END) + 3;
    FirstIndexShort(state.buffer, cut, HEADER_END);
  }

  /** If some header block of a stream is long, some prefix of the stream makes
      the decoder throw: the one that lacks the last byte of its terminator. */
  lemma {:induction false} LongHeaderThrows<M(!new)>(limits: Limits<M>, state: DecoderState) returns (cut: nat)
    requires LongSomewhere(limits, state)
    ensures ThrowsAt(limits, state, cut)
    decreases |state.buffer|, Weight(state), 1
  {
    if LongAtStart(limits, state) {
      cut := UnendedHeaderThrows(limits, state);
    } else {
      cut := LongHeaderBehind(limits, state);
    }
  }

  lemma {:induction false} LongHeaderBehind<M(!new)>(limits: Limits<M>, state: DecoderState) returns (cut: nat)
    requires LongSomewhere(limits, state) && !LongAtStart(limits, state)
    ensures ThrowsAt(limits, state, cut)
    decreases |state.buffer|, Weight(state), 0
  {
    var used, rest := LongHeaderAfterFrame(limits, state);
    var later := LongHeaderThrows(limits, rest);
    cut := ThrowsLater(limits, state, used, rest, later);
  }

  /** Without a long header block at its start, a stream begins with a whole frame
      and the long one comes after it. */
  lemma LongHeaderAfterFrame<M(!new)>(limits: Limits<M>, state: DecoderState) returns (used: nat, rest: DecoderState)
    requires LongSomewhere(limits, state) && !LongAtStart(limits, state)
    ensures StartsWithFrame(limits, state, used, rest) && LongSomewhere(limits, rest)
    ensures |rest.buffer| < |state.buffer| || (|rest.buffer| == |state.buffer| && Weight(rest) < Weight(state))
  {
    LongHeaderLater(limits, state);
    used := EmitConsumes(limits, state);
    rest := DecoderState(state.buffer[used..], None);
  }

  lemma LongHeaderLater<M(!new)>(limits: Limits<M>, state: DecoderState)
    requires Drain(limits, state).Delivered? && !ShortHeaders(limits, state)
    requires !LongAtStart(limits, state)
    ensures NextFrame(limits, state).Emit? && !ShortHeaders(limits, NextFrame(limits, state).state)
  {
  }

  lemma QuietPrefix<M(!new)>(limits: Limits<M>, state: DecoderState, stream: seq<Byte>, cut: nat)
    requires Quiet(limits, state) && cut <= |state.buffer|
    ensures Drain(limits, DecoderState((state.buffer + stream)[..cut], state.bodyLength)).Delivered?
  {
    assert (state.buffer + stream)[..cut] == state.buffer[..cut];
    if state.bodyLength.None? {
      FirstIndexShort(state.buffer, cut, HEADER_END);
    }
  }

  lemma SomeSplittingThrows<M(!new)>(limits: Limits<M>, state: DecoderState, stream: seq<Byte>)
    returns (chunks: seq<seq<Byte>>)
    requires Quiet(limits, state)
    requires PushChunk(limits, state, stream).Delivered?
    requires !ShortHeaders(limits, Extend(state, stream))
    ensures Flatten(chunks) == stream && PushAll(limits, state, chunks).Thrown?
  {
    var whole := Extend(state, stream);
    var cut := LongHeaderThrows(limits, whole);
    if cut <= |state.buffer| {
      QuietPrefix(limits, state, stream, cut);
    }
    var k := cut - |state.buffer|;
    assert whole.buffer[..cut] == state.buffer + stream[..k];
    chunks := [stream[..k], stream[k..]];
    FlattenTwo(stream[..k], stream[k..]);
    assert stream[..k] + stream[k..] == stream;
  }

  lemma FlattenTwo<T>(a: seq<T>, b: seq<T>)
    ensures Flatten([a, b]) == a + b
  {
    assert [a, b][1..] == [b];
    assert Flatten([b]) == b + Flatten([]);
  }

  /** The boundary at which chunking independence stops: a stream that one push
      accepts is accepted under every splitting if and only if each of its header
      blocks is at most `maxHeaderBytes - 3` bytes long. */
  lemma ChunkingIsIndependentExactlyForShortHeaders<M(!new)>(limits: Limits<M>, state: DecoderState, stream: seq<Byte>)
    requires Quiet(limits, state)
    requires PushChunk(limits, state, stream).Delivered?
    ensures ShortHeaders(limits, Extend(state, stream))
       <==> forall chunks: seq<seq<Byte>> | Flatten(chunks) == stream ::
              PushAll(limits, state, chunks) == PushChunk(limits, state, stream)
  {
    if ShortHeaders(limits, Extend(state, stream)) {
      forall chunks: seq<seq<Byte>> | Flatten(chunks) == stream
        ensures PushAll(limits, state, chunks) == PushChunk(limits, state, stream)
      {
        ChunkingIndependence(limits, state, chunks);
      }
    } else {
      var chunks := SomeSplittingThrows(limits, state, stream);
    }
  }

  // ------------------------------------------- what a stream of frames is

  /** A frame on the wire: its header block and its body. */
  datatype Frame = Frame(header: seq<Byte>, body: seq<Byte>)

  function Wire(frame: Frame): seq<Byte> {
    frame.header + HEADER_END + frame.body
  }

  function Wires(frames: seq<Frame>): seq<Byte> {
    if frames == [] then [] else Wire(frames[0]) + Wires(frames[1..])
  }

  /** A header block announcing `length`: within budget, and ended by the first
      blank line after its start. */
  ghost predicate Announces<M(!new)>(limits: Limits<M>, header: seq<Byte>, length: nat) {
    && FirstIndex(header + HEADER_END, HEADER_END) == |header|
    && |header| <= limits.maxHeaderBytes
    && ParseHeader(header, limits.maxFrameBytes) == Ok(length)
  }

  ghost predicate Carries<M(!new)>(limits: Limits<M>, frame: Frame, message: M) {
    && Announces(limits, frame.header, |frame.body|)
    && ReadBody(limits.json, frame.body) == Ok(message)
  }

  ghost predicate CarriesAll<M(!new)>(limits: Limits<M>, frames: seq<Frame>, messages: seq<M>) {
    && |frames| == |messages|
    && forall i | 0 <= i < |frames| :: Carries(limits, frames[i], messages[i])
  }

  /** What is left after the last complete frame: the unfinished header block, or
      the unfinished body once its header block is consumed. */
  ghost predicate Residue<M(!new)>(limits: Limits<M>, bytes: seq<Byte>, state: DecoderState) {
    match state.bodyLength
    case None => bytes == state.buffer && Quiet(limits, state)
    case Some(length) =>
      exists cut | 0 <= cut <= |bytes| ::
        && Announces(limits, bytes[..cut], length)
        && |state.buffer| < length
        && bytes == bytes[..cut] + HEADER_END + state.buffer
  }

  lemma AnnouncedStep<M(!new)>(limits: Limits<M>, header: seq<Byte>, length: nat, more: seq<Byte>)
    requires Announces(limits, header, length)
    ensures HeaderStep(limits, DecoderState(header + HEADER_END + more, None)) ==
            HeaderRead(DecoderState(more, Some(length)))
  {
    var whole := header + HEADER_END + more;
    FirstIndexExtend(header + HEADER_END, more, HEADER_END);
    HeaderStepAt(limits, whole, |header|);
    assert whole[..|header|] == header;
    assert whole[|header| + 4..] == more;
  }

  /** The converse: what the header step reads is announced. */
  lemma StepAnnounced<M(!new)>(limits: Limits<M>, buffer: seq<Byte>) returns (header: seq<Byte>)
    requires HeaderStep(limits, DecoderState(buffer, None)).HeaderRead?
    ensures var next := HeaderStep(limits, DecoderState(buffer, None)).state;
            && Announces(limits, header, next.bodyLength.value)
            && buffer == header + HEADER_END + next.buffer
  {
    var end := FirstIndex(buffer, HEADER_END);
    header := buffer[..end];
    HeaderStepAt(limits, buffer, end);
    FirstIndexOfPrefix(buffer, end + 4, HEADER_END);
    assert buffer[..end + 4] == header + HEADER_END;
    assert buffer == buffer[..end] + buffer[end..end + 4] + buffer[end + 4..];
  }

  lemma FrameStep<M(!new)>(limits: Limits<M>, frame: Frame, message: M, more: seq<Byte>)
    requires Carries(limits, frame, message)
    ensures NextFrame(limits, DecoderState(Wire(frame) + more, None)) == Emit(message, DecoderState(more, None))
  {
    assert Wire(frame) + more == frame.header + HEADER_END + (frame.body + more);
    AnnouncedStep(limits, frame.header, |frame.body|, frame.body + more);
    assert (frame.body + more)[..|frame.body|] == frame.body;
    assert (frame.body + more)[|frame.body|..] == more;
  }

  lemma DrainFrame<M(!new)>(limits: Limits<M>, frame: Frame, message: M, more: seq<Byte>)
    requires Carries(limits, frame, message)
    ensures Drain(limits, DecoderState(Wire(frame) + more, None)) == Prepend([message], Drain(limits, DecoderState(more, None)))
  {
    FrameStep(limits, frame, message, more);
  }

  lemma WiresSplit(frames: seq<Frame>, tail: seq<Byte>)
    requires frames != []
    ensures Wires(frames) + tail == Wire(frames[0]) + (Wires(frames[1..]) + tail)
  {
  }

  /** A residue is not decoded any further. */
  lemma ResidueStays<M(!new)>(limits: Limits<M>, tail: seq<Byte>, state: DecoderState)
    requires Residue(limits, tail, state)
    ensures Drain(limits, DecoderState(tail, None)) == Delivered([], state)
  {
    if state.bodyLength.Some? {
      var cut :| 0 <= cut <= |tail| && Announces(limits, tail[..cut], state.bodyLength.value)
        && tail == tail[..cut] + HEADER_END + state.buffer;
      AnnouncedStep(limits, tail[..cut], state.bodyLength.value, state.buffer);
    } else {
      QuietIsIdle(limits, state);
    }
  }

  /** Any concatenation of frames followed by a residue is decoded to exactly the
      messages the frames carry. */
  lemma {:induction false} DecodesFrames<M(!new)>(limits: Limits<M>, frames: seq<Frame>, messages: seq<M>,
      tail: seq<Byte>, state: DecoderState)
    requires CarriesAll(limits, frames, messages)
    requires Residue(limits, tail, state)
    ensures Drain(limits, DecoderState(Wires(frames) + tail, None)) == Delivered(messages, state)
    decreases |frames|
  {
    if frames == [] {
      assert [] + tail == tail;
      ResidueStays(limits, tail, state);
    } else {
      DecodesFrames(limits, frames[1..], messages[1..], tail, state);
      DrainFrame(limits, frames[0], messages[0], Wires(frames[1..]) + tail);
      WiresSplit(frames, tail);
      assert [messages[0]] + messages[1..] == messages;
    }
  }

  /** Conservation: whenever the loop ends normally, the bytes it was given are
      the frames of the messages it delivers followed by the residue it keeps. */
  lemma {:induction false} DeliveredBytes<M(!new)>(limits: Limits<M>, buffer: seq<Byte>)
    returns (frames: seq<Frame>, tail: seq<Byte>)
    requires Drain(limits, DecoderState(buffer, None)).Delivered?
    ensures var result := Drain(limits, DecoderState(buffer, None));
            && CarriesAll(limits, frames, result.messages)
            && Residue(limits, tail, result.state)
            && buffer == Wires(frames) + tail
    decreases |buffer|
  {
    var state := DecoderState(buffer, None);
    match NextFrame(limits, state)
    case Idle(rest) =>
      frames, tail := [], buffer;
      assert buffer == [] + buffer;
      IdleResidue(limits, buffer);
    case Emit(message, rest) =>
      var frame := EmittedFrame(limits, buffer);
      var more;
      more, tail := DeliveredBytes(limits, rest.buffer);
      frames := [frame] + more;
      WiresOneMore(frame, more, tail);
      CarriesOneMore(limits, frame, message, more, Drain(limits, rest).messages);
      assert Drain(limits, state) == Prepend([message], Drain(limits, rest));
  }

  lemma WiresOneMore(frame: Frame, frames: seq<Frame>, tail: seq<Byte>)
    ensures Wires([frame] + frames) + tail == Wire(frame) + (Wires(frames) + tail)
  {
    assert ([frame] + frames)[1..] == frames;
    assert Wire(frame) + Wires(frames) + tail == Wire(frame) + (Wires(frames) + tail);
  }

  lemma IdleResidue<M(!new)>(limits: Limits<M>, buffer: seq<Byte>)
    requires NextFrame(limits, DecoderState(buffer, None)).Idle?
    ensures Residue(limits, buffer, NextFrame(limits, DecoderState(buffer, None)).state)
  {
    var state := DecoderState(buffer, None);
    if HeaderStep(limits, state).HeaderRead? {
      var header := StepAnnounced(limits, buffer);
      assert buffer[..|header|] == header;
    }
  }

  lemma EmittedFrame<M(!new)>(limits: Limits<M>, buffer: seq<Byte>) returns (frame: Frame)
    requires NextFrame(limits, DecoderState(buffer, None)).Emit?
    ensures var round := NextFrame(limits, DecoderState(buffer, None));
            && Carries(limits, frame, round.message)
            && buffer == Wire(frame) + round.state.buffer
  {
    var next := HeaderStep(limits, DecoderState(buffer, None)).state;
    var header := StepAnnounced(limits, buffer);
    BodyStepConsumes(limits, next);
    var body := next.buffer[..next.bodyLength.value];
    frame := Frame(header, body);
    var rest := next.buffer[next.bodyLength.value..];
    assert next.buffer == body + rest;
    WireThen(frame, rest);
  }

  lemma WireThen(frame: Frame, rest: seq<Byte>)
    ensures frame.header + HEADER_END + (frame.body + rest) == Wire(frame) + rest
  {
  }

  lemma CarriesOneMore<M(!new)>(limits: Limits<M>, frame: Frame, message: M, frames: seq<Frame>, messages: seq<M>)
    requires Carries(limits, frame, message) && CarriesAll(limits, frames, messages)
    ensures CarriesAll(limits, [frame] + frames, [message] + messages)
  {
  }

  /** The incremental decoder computes the grammar: over a whole run of `push`
      calls that do not throw, the messages and the final state are the given
      ones if and only if the bytes are frames carrying those messages followed
      by that residue. */
  lemma RunDecodesGrammar<M(!new)>(limits: Limits<M>, chunks: seq<seq<Byte>>, messages: seq<M>, state: DecoderState)
    requires PushAll(limits, INITIAL, chunks).Delivered?
    ensures PushAll(limits, INITIAL, chunks) == Delivered(messages, state)
       <==> exists frames, tail :: CarriesAll(limits, frames, messages) && Residue(limits, tail, state)
                                && Flatten(chunks) == Wires(frames) + tail
  {
    var bytes := Flatten(chunks);
    assert Quiet(limits, INITIAL);
    PiecesAgree(limits, INITIAL, chunks);
    assert Extend(INITIAL, bytes) == DecoderState(bytes, None) by {
      assert [] + bytes == bytes;
    }
    if PushAll(limits, INITIAL, chunks) == Delivered(messages, state) {
      var frames, tail := DeliveredBytes(limits, bytes);
    }
    if exists frames, tail :: CarriesAll(limits, frames, messages) && Residue(limits, tail, state)
                           && bytes == Wires(frames) + tail {
      var frames, tail :| CarriesAll(limits, frames, messages) && Residue(limits, tail, state)
                       && bytes == Wires(frames) + tail;
      DecodesFrames(limits, frames, messages, tail, state);
    }
  }
}
