# Verification of the LSP wire stack, the package-UI reconciler, the pane sessions and the UI-tree replica

This project models four components of the editor in Dafny and proves how they
behave on every input, in every run and under every interleaving. Check it with
`dafny verify dfyconfig.toml`.

**LSP wire stack** (`packages/lsp-shared`).
`Utf8.dfy` has the hand-written UTF-8 codec over UTF-16 strings and proves it a
bijection onto the grammar of section 4 of RFC 3629. `Framing.dfy` has the
`Content-Length` framer: `encodeFrame`, the header parser and the `FrameDecoder`
class. `FramingLaws.dfy` proves that the incremental decoder computes a grammar
of frames, conserves bytes, makes maximal progress, and is independent of
chunking exactly when header blocks are short. `HeaderGrammar.dfy` spells the header
fields of the base protocol out as text and says what the parser makes of a line;
`FrameRoundTrip.dfy` proves the header parser against that grammar, and the frame round
trip; `HeaderErrors.dfy` says which error a header or a body is refused with, and
`DecoderThrows.dfy` exactly when the decoder throws and what becomes of it then.
`JsonRpc.dfy` and `LspClient.dfy` have message validation and the
request, cancel and response bookkeeping of `LspClient`; every stretch of code
between two awaits is one atomic step. `ClientLaws.dfy` proves laws of all
interleavings, `ClientHistory.dfy` decides every outcome from the history of a run, and
`Delivery.dfy` puts decoder and client together. `Rejections.dfy` is
about callers that go on reading after a rejected message, and `Arrivals.dfy` proves
delivery when every message of every `receiveBytes` call is a step of its own.

**Package-UI reconciler** (`src/masonry_package_region.rs`).
`KeyedDiff.dfy` has the keyed list diff on keys alone. `PackageUi.dfy` has
components, widget bodies, local state and what an in-place update does to each
kind; `Appearance.dfy` says what each kind paints, which children it renders and how deep,
without those functions. `Rendering.dfy` says what it means for a widget tree to show a component
tree, for the indexes to be right, and which identities an update keeps.
`Placement.dfy` has the invariant of the placement loop, `PackageRegion.dfy` the
class with its methods as they are written, total on every state. `RegionViews.dfy` has the
state of a region as a value and what one live update does to it, `RetainedState.dfy`
follows the state that the user changes through live updates, and `PackageHosting.dfy` runs of a hosted region: exactly which histories leave it, after every
step, showing what a rebuild shows.

**Pane document sessions** (`src/masonry_pane_document.rs`,
`src/editor/document_session.rs`). `DocumentSessions.dfy` has the session store
with its least-recently-used eviction, `PaneDocument.dfy` the pane, and
`PaneLaws.dfy` safety over whole runs: no document is lost, no unsaved edit is
lost by switching, exactly when opening a document closes that document, and exactly
when closing a pane drops nothing.
`PaneContents.dfy` says what a pane has of each document after any run, and what a pane
close sends; `PaneReopen.dfy` follows the recorded paths and says what a reconnect opens
again; `PaneEviction.dfy` says which retained document a full store gives up.

**UI-tree replica** (`src/masonry_sdui.rs`, `src/server/sdui.rs`).
`SduiState.dfy` has the client replica and its derived editor binding, proved
against a specification by paths of the written-out child relation. `SduiLaws.dfy` has the
replica protocol and compares the client with the server's own copy; `SduiOperations.dfy`
says what a snapshot or a run of operations leaves for each node id.

`Sequences.dfy` and `Wrappers.dfy` hold what several modules share. Each class
method is proved equal to a function on states or, in the reconciler, against the rendering
it must leave; the laws are about those functions, so that a law over all runs is a
law of the code.

## Where the code and its promises differ

- A header block of more than `maxHeaderBytes`-3 bytes is accepted in one push
  (`framing.js:91`) but refused when its terminator is split across pushes
  (`framing.js:86`). `ChunkingIsIndependentExactlyForShortHeaders` gives the
  exact condition.
- `pump` reads up to `maxFrameBytes` bytes at a time (`client.js:127`), but the
  push budget (`framing.js:77`) leaves less room while a large body is buffered, so
  that a legal read can throw: `LegalReadIsRefused`. `DeliveredExactlyWhenChunksFit`
  and `ReadsFitExactlyOnSmallResidues` give the exact conditions.
- The keyed diff needs distinct new keys: `DiffIsRightExactlyForDistinctKeys`,
  with `RepeatedKeyPanics` as the witness. Component trees are therefore
  required to have distinct id hashes, and a list distinct row ids.
- An unknown component kind is built as a placeholder and updated as a label.
  `UpdateAgreesWithBuild` gives the exact condition under which that is the same,
  and `Replays` carries it through a tree: only components that survive in place count.
- The reuse test of `reconcile_tree_live` looks up the kind recorded for the new
  root's id, whether or not that record is the root's. `ReconcileTreeLive` shows the
  new tree, with exact indexes and intents, if and only if the record is not another
  component's and what survives replays; `ShownExactlyWhenAdmissible` is the exact
  condition over every run of a hosted region. Making a child of the old root the new
  root always loses the indexes (`PromotedChildIsLost`). What is then on screen may still
  happen to be right: `PromotedChildOnScreen` says exactly when for a new root without
  children, and `PromoteChild` is an input for which it is not.
- A text field adopts a changed server text unless it is being edited
  (`masonry_package_region.rs:2572-2583`), but a change that comes while it is edited is
  never adopted later: `MissedTextIsNeverAdopted`. `FieldShowsServerTextExactly` says when
  an idle field shows the server's text.
- `open_document_session` never restores a retained copy, although
  `docs/wiki/modules/multi-document-sessions.md` says it does: it stashes the
  active document, drops the retained copy and loads the server's text. The
  model follows the code; `OpeningKeepsContentExactly` says when nothing is lost and
  `ReopeningLosesEdits` is a losing run. The stash runs first, so a full store may
  evict the very document being opened; `OpeningClosesItself` says exactly when.
- `activate_document` does not update the recorded path. `RetainedUnderOwnIdentityExactly`
  says when a retained document still carries its own identity, and
  `ReopenedExactlyWhenRecordedAlone` which identities a reconnect opens again;
  `ActivatedDocumentIsNotReopened` is a run after which a held document is not.
- `guard_pane_close` asks about the active document only, although `close_pane` relies on
  it not to drop unsaved edits and force-closes the retained ones:
  `GuardedCloseIsSafeExactly` gives the exact condition, `GuardMissesRetainedEdits` a
  losing run.
- A rejected message ends a `receiveBytes` call, and the messages behind it in the same
  chunk are lost although the decoder has consumed them (`client.js:99`).
  `OneCallLosesNothingExactly` says when that does not matter, and
  `RejectionLosesTheRest` is the losing input.
- The server replaces its tree without advancing the version
  (`src/server/sdui.rs:107-116`, with every published tree at version 1), so that a version
  does not determine the contents a client may hold. `VersionDeterminesContents` gives the
  exact condition on the server's history, `RepublishedVersionIsAmbiguous` the losing
  input.
- When an update removes the root node, the client forgets the root and the
  server does not; `ClientAgreesWithServer` and, over runs, `ClientAgreesOverRuns`
  give the exact condition.
- The server accepts cyclic node graphs, on which the client's walk for the editor
  binding recurses without end: `CyclesAreAccepted`. The walk is modelled with a
  bound on nested calls, at which the process ends; `WalkEndsExactlyWithoutCycles`
  gives the exact condition.

## Model

| member | source | states |
|---|---|---|
| Utf8.EncodeUtf8 | packages/lsp-shared/utf8.js:1-14 | the encoder loop, with its throw on an unpaired surrogate, computes `Encode` |
| Utf8.AppendScalar | packages/lsp-shared/utf8.js:8-11 | the four `bytes.push` cases append the section 3 (RFC 3629) encoding of one scalar |
| Utf8.DecodeStep | packages/lsp-shared/utf8.js:19-39 | one outer round of the decoder, with its loop over continuation bytes, computes `DecodeOne`: the scalar and its width, or which of the three errors is thrown |
| Utf8.DecodeUtf8 | packages/lsp-shared/utf8.js:16-47 | the whole decoder, including the chunked join, computes `Decode` |
| Utf8.JoinPoints | packages/lsp-shared/utf8.js:41-46 | joining the code points 4096 at a time gives the same string as joining them at once |
| Utf8.Utf8ByteLength | packages/lsp-shared/utf8.js:49-51 | succeeds exactly on well-formed UTF-16 and returns the length of the encoding |
| Utf8.DecodeAcceptsExactlyUtf8 | packages/lsp-shared/utf8.js:16-47 | a byte sequence is accepted if and only if it is in the grammar of section 4 of RFC 3629: no overlongs, no surrogates, nothing above U+10FFFF |
| Utf8.DecodeUndoesEncode | packages/lsp-shared/utf8.js:1-47 | encoding succeeds exactly on well-formed UTF-16, always gives UTF-8, and decoding gives the string back |
| Utf8.EncodeUndoesDecode | packages/lsp-shared/utf8.js:1-47 | every accepted byte sequence is re-encoded to itself |
| Utf8.DecodeOneSound | packages/lsp-shared/utf8.js:19-39 | one decoder round consumes exactly one grammar character, and re-encoding the scalar it reports gives those bytes |
| Utf8.DecodeOneOfEncodeScalar | packages/lsp-shared/utf8.js:1-39 | a decoder round on an encoded scalar followed by anything reports that scalar and its width |
| Utf8.ScanAcceptsWellFormed | packages/lsp-shared/utf8.js:4-7 | the scan by code points meets a lone surrogate if and only if the string is not well-formed UTF-16 (section 2.1 of RFC 2781) |
| Utf8.AsciiIsIdentity | packages/lsp-shared/utf8.js:1-47 | on ASCII both directions are the identity |
| Framing.IndexOf | packages/lsp-shared/framing.js:14-22 | the nested loops return the first occurrence, or -1 exactly when there is none |
| Framing.ParseHeaderBytes | packages/lsp-shared/framing.js:24-55 | the header parser computes `ParseHeader`: the announced length or the error thrown |
| Framing.AbsorbHeader | packages/lsp-shared/framing.js:29-49 | the loop over the lines, with its two variables, computes `AbsorbLines` |
| Framing.FrameDecoder.Push | packages/lsp-shared/framing.js:75-111 | `push` returns, throws and leaves the state that `PushChunk` says: budget check, drain loop, messages lost on a throw |
| Framing.FrameDecoder.Finish | packages/lsp-shared/framing.js:113-117 | succeeds exactly in the initial state |
| HeaderGrammar.TrimMeaning | packages/lsp-shared/framing.js:34-35 | `trim` takes exactly the ASCII white space around a text away |
| HeaderGrammar.ClassifyMeaning | packages/lsp-shared/framing.js:31-49 | a line is taken for a length or for a content type with a value if and only if its first colon stands behind that field name, in any case and with white space around it, and before that value |
| HeaderGrammar.ContentTypeMeaning | packages/lsp-shared/framing.js:42 | a content type is accepted if and only if, in any case, it is "application/vscode-jsonrpc", or that followed by white space, ";", white space and "charset=utf-8" |
| FrameRoundTrip.ParseHeaderMeaning | packages/lsp-shared/framing.js:24-55 | a header block is parsed to a length if and only if it is ASCII lines that are all known fields, with exactly one `Content-Length`, printed as that value is and within the budgets, and at most one `Content-Type`, of the protocol |
| FrameRoundTrip.SplitLinesMeaning | packages/lsp-shared/framing.js:31 | splitting at CRLF is the inverse of joining, and no line contains CRLF |
| FrameRoundTrip.DecimalIsCanonical | packages/lsp-shared/framing.js:37-40 | a text matches the decimal pattern if and only if it is the canonical print of its value |
| FrameRoundTrip.PrintedHeaderAnnounces | packages/lsp-shared/framing.js:24-64 | the header block `encodeFrame` prints contains no earlier terminator and parses back to the length |
| FrameRoundTrip.TypedHeaderMeaning | packages/lsp-shared/framing.js:24-55 | for every length within the budgets, a printed `Content-Length` line followed by a `Content-Type` line is parsed to that length if and only if the type is one of the protocol, white space around it aside |
| FrameRoundTrip.TypesAreRead | packages/lsp-shared/framing.js:42 | in particular with "application/vscode-jsonrpc" and with "application/vscode-jsonrpc; charset=utf-8", and not with "application/vscode-jsonrpc;" |
| HeaderErrors.HeaderIsRefusedWith | packages/lsp-shared/framing.js:24-55 | every refusal of a header and its error: bytes outside ASCII first, then the first line that is malformed, unknown, repeated or ill-valued, then a missing length, then one over the budgets |
| HeaderErrors.BodyMeaning | packages/lsp-shared/framing.js:95-108 | a body is a message if and only if it encodes a text that parses to an object, and which of the two errors is thrown otherwise |
| FrameRoundTrip.EncodedFrameCarries | packages/lsp-shared/framing.js:57-64 | an encoded message is a frame whose header announces the length of its body and whose body decodes and parses to the message |
| FrameRoundTrip.EncodeFrameRefuses | packages/lsp-shared/framing.js:57-64 | `encodeFrame` of an object succeeds if and only if the encoded body is within the frame budget, and which errors it throws |
| FrameRoundTrip.DefaultLimitsAreRoomy | packages/lsp-shared/framing.js:3-4 | the default limits, 1 MiB and 8 KiB, leave room for every printed header even with its terminator incomplete |
| FrameRoundTrip.FramesInPieces | packages/lsp-shared/framing.js:75-117 | frames in any pieces: whenever no push throws exactly the carried messages are delivered and `finish` then succeeds; with short header blocks no push throws if and only if every piece is within the push budget on the residue before it |
| FrameRoundTrip.EncodeThenDecode | packages/lsp-shared/framing.js:57-117 | of any list of messages, encoded and pushed in any pieces, exactly the list is delivered and the decoder left at a frame boundary if and only if every piece is within the push budget on the residue before it |
| FrameRoundTrip.SmallChunksFit | packages/lsp-shared/framing.js:77-91 | pieces of at most the smaller budget plus 4 bytes are always within the push budget |
| FrameRoundTrip.LegalReadIsRefused | packages/lsp-shared/framing.js:77-79 | after the header and all but one byte of a largest body, which are accepted, a read of at most `maxFrameBytes` but more than `maxHeaderBytes` + 5 bytes throws |
| FrameRoundTrip.EncodeThenDecodeAtOnce | packages/lsp-shared/framing.js:57-117 | the same for one push of a stream within the push budget, and for every splitting of it |
| FramingLaws.DrainExtend | packages/lsp-shared/framing.js:82-109 | draining a buffer, then draining what is left with more bytes, is draining everything at once, when the first drain does not throw |
| FramingLaws.DrainIsMaximal | packages/lsp-shared/framing.js:82-109 | a normal return leaves no complete frame: at most `maxHeaderBytes` without a terminator, or strictly less than the announced body |
| FramingLaws.PiecesAgree | packages/lsp-shared/framing.js:75-111 | pushes that do not throw deliver, together, what one drain of their concatenation delivers |
| FramingLaws.SplittingsAgree | packages/lsp-shared/framing.js:75-111 | any two splittings of a stream that both do not throw deliver the same messages and leave the same state |
| FramingLaws.ChunkingIndependence | packages/lsp-shared/framing.js:75-111 | with every header block at most `maxHeaderBytes`-3 bytes, a push that succeeds succeeds in every splitting, with the same result |
| FramingLaws.ChunkingIsIndependentExactlyForShortHeaders | packages/lsp-shared/framing.js:84-93 | from a quiet state, for a stream that one push decodes: every splitting succeeds with the same result if and only if every header block is at most `maxHeaderBytes`-3 bytes |
| FramingLaws.LongHeaderThrows | packages/lsp-shared/framing.js:86-91 | a stream that decodes but contains a longer header block has a prefix that makes the decoder throw |
| FramingLaws.DeliveredExactlyWhenChunksFit | packages/lsp-shared/framing.js:75-111 | a stream of any length with short header blocks that one drain decodes is delivered in pieces, with the same result, if and only if every piece is within the push budget on the residue before it |
| FramingLaws.ReadsFitExactlyOnSmallResidues | packages/lsp-shared/client.js:126-133 | every read of up to `maxFrameBytes` bytes is within the push budget if and only if at most `maxHeaderBytes` + 4 bytes are buffered |
| FramingLaws.DecodesFrames | packages/lsp-shared/framing.js:82-109 | any list of frames followed by a residue is decoded to exactly the carried messages and that residue |
| FramingLaws.DeliveredBytes | packages/lsp-shared/framing.js:82-109 | conservation: the bytes given are the frames of the emitted messages followed by the residue, with a consumed pending header counted |
| FramingLaws.RunDecodesGrammar | packages/lsp-shared/framing.js:75-111 | over a whole run that does not throw, the result is the given messages and state if and only if the bytes are frames of those messages followed by that residue |
| JsonRpc.ValidateMeansFourKinds | packages/lsp-shared/client.js:9-24 | a message is valid if and only if it is a request, notification, success or failure of JSON-RPC 2.0 (sections 4 and 5), and no message is of two kinds; which fault is reported first |
| DecoderThrows.ThrowsExactly | packages/lsp-shared/framing.js:82-109 | the loop throws if and only if the bytes are frames, whose messages are then lost, followed by a header block that is too long or refused, which stays in the buffer, or by a complete body that is no message, which is consumed |
| DecoderThrows.StuckForEver | packages/lsp-shared/framing.js:84-92 | once a complete header block is refused every later push throws, with the same error or for want of room |
| LspClient.LspClient.SendRequest | packages/lsp-shared/client.js:67-73 | the step before the await: refusals, the fresh id, the new pending entry |
| LspClient.LspClient.SendFailed | packages/lsp-shared/client.js:76-79 | the step after a rejected send forgets the request |
| LspClient.LspClient.CancelRequest | packages/lsp-shared/client.js:87-93 | the step before the await: pending to tombstone, with eviction of the oldest over 64 |
| LspClient.LspClient.DispatchMessage | packages/lsp-shared/client.js:102-124 | the synchronous bookkeeping of one message: validation, tombstones, pending to completed, unknown responses |
| LspClient.LspClient.AwaitResponse | packages/lsp-shared/client.js:135-144 | one pass of the loop: deliver and forget, give up, or keep waiting |
| LspClient.ReplySays | packages/lsp-shared/client.js:123 | a response is stored as a result to return if and only if it is a success with that result, and as an error to throw if and only if it is a failure with that error |
| LspClient.LspClient.ShutDown | packages/lsp-shared/client.js:233-234 | the two `clear` calls of the `finally` block empty pending and completed; the tombstones and the id counter are kept |
| LspClient.LspClient.ReceiveChunk | packages/lsp-shared/client.js:98-100 | decoding a chunk and dispatching its messages in order, up to the first throw, computes `ReceiveBytes`, when nothing else happens at the `await` after each message; `Arrivals` has the rest |
| ClientLaws.EveryOrderIsARun | packages/lsp-shared/client.js:67-144 | every order of the atomic steps is a run, so that the laws below range over all interleavings |
| ClientLaws.InvAlways | packages/lsp-shared/client.js:37-144 | in every interleaving pending, completed and cancelled ids are disjoint and issued, at most 8 are pending and at most 64 are tombstones |
| ClientLaws.IdsAreFresh | packages/lsp-shared/client.js:67-73 | ids are issued strictly increasing, so none is reused |
| ClientLaws.StagesAdvance | packages/lsp-shared/client.js:67-144 | a request only moves from unissued to pending to answered or cancelled to over, and enters the completed or cancelled collection only from pending |
| ClientLaws.AtMostOnce | packages/lsp-shared/client.js:135-144 | over a whole run each id hands its result to at most one caller |
| ClientLaws.CancelledIsNeverDelivered | packages/lsp-shared/client.js:87-144 | a request whose cancellation succeeded is delivered neither before nor after |
| ClientLaws.DeliveredIsTheAnswer | packages/lsp-shared/client.js:102-144 | what a caller gets answers an earlier response that carried its id: it is returned if and only if that was a success with this result, and thrown if and only if it was a failure with this error |
| ClientLaws.DuplicatesAreRejected | packages/lsp-shared/client.js:121-123 | after a response to an id was accepted or absorbed, every further one is an error that changes nothing |
| ClientLaws.UnknownExactlyWhenNotHeld | packages/lsp-shared/client.js:121-123 | a response is an error if and only if its id is neither pending nor a held tombstone, and then nothing changes |
| ClientLaws.TombstonesAreASuffix | packages/lsp-shared/client.js:87-121 | the tombstones are always a suffix, in cancel order, of the cancelled ids not yet answered |
| ClientLaws.TombstoneWindow | packages/lsp-shared/client.js:87-121 | a tombstone whose reply has not come is still held if and only if at no time since 64 later unanswered cancellations stood after it |
| ClientLaws.LateReplyIsAbsorbed | packages/lsp-shared/client.js:87-122 | the first late reply to a cancelled request is absorbed if and only if at no time in between 64 later unanswered cancellations stood after it; otherwise it is an error |
| ClientHistory.HistoryIsState | packages/lsp-shared/client.js:67-144 | in every run an id is pending if and only if it was issued and no failed send, cancellation, response or shutdown came since, and completed if and only if a response came while it was pending and nobody took it since |
| ClientHistory.SendOutcome | packages/lsp-shared/client.js:67-73 | a request is refused exactly without a method or while 8 requests are outstanding, and otherwise gets the number of requests issued so far plus 1 |
| ClientHistory.CancelOutcome | packages/lsp-shared/client.js:87-96 | a cancellation succeeds if and only if the request is outstanding |
| ClientHistory.AwaitOutcome | packages/lsp-shared/client.js:135-144 | a waiting caller gets the reply if and only if it has arrived, waits on if and only if the request is outstanding, and gives up otherwise |
| ClientHistory.ReceiveOutcome | packages/lsp-shared/client.js:102-124 | what is none of the four kinds is refused, requests and notifications are handed on, and a response completes exactly an outstanding request, with what it says; nothing else changes anything, tombstones aside |
| Delivery.ReceiveAllFactors | packages/lsp-shared/client.js:98-124 | sequential `receiveBytes` calls succeed exactly when the pushes and the dispatches do, and then compose |
| Delivery.SplittingDoesNotMatter | packages/lsp-shared/client.js:98-124 | however one byte stream is split into calls that do not throw, decoder and client end in the same state |
| Delivery.DispatchAnswers | packages/lsp-shared/client.js:102-124 | dispatching responses to distinct pending ids never throws and moves each id to completed, with the result or error that its own response says, and nothing else |
| Delivery.EndToEndDelivery | packages/lsp-shared/client.js:98-124 | the bytes of any frames that carry responses to distinct pending requests, in any pieces: the calls succeed if and only if the decoder accepts every piece, and then every request is completed with the result or error that its own response says; with short header blocks that is exactly when every piece is within the push budget on the residue before it |
| Delivery.EncodedResponsesArrive | packages/lsp-shared/client.js:98-124 | responses printed by `encodeFrame`, in pieces of at most the smaller budget plus 4 bytes, always arrive |
| Rejections.OneCallLosesNothingExactly | packages/lsp-shared/client.js:98-124 | of one call: the client ends as if every message of the chunk had been dispatched if and only if none of the messages behind the first rejected one would change anything; so in particular when the rejected one is the last |
| Rejections.ReceiveEachFactors | packages/lsp-shared/client.js:98-124 | calls whose caller goes on after a throw, and which lose nothing that matters, together push all the bytes and dispatch every message |
| Rejections.SplittingStillDoesNotMatter | packages/lsp-shared/client.js:98-124 | with messages rejected on the way, two splittings of a stream that lose nothing that matters end in the same decoder and client state |
| Rejections.RejectionLosesTheRest | packages/lsp-shared/client.js:99 | an unexpected response and behind it the response to a pending request: in one chunk the second is lost and its request stays pending, in two chunks it is completed |
| Arrivals.EndToEndInterleaved | packages/lsp-shared/client.js:98-144 | end-to-end delivery under every interleaving: whatever steps of the client and of other `receiveBytes` calls come between the messages, short of giving up these requests, no message is rejected, and each request is answered with the result or error that its own response says unless its call has yet to dispatch it |
| Arrivals.UninterruptedCall | packages/lsp-shared/client.js:98-100 | a call between whose messages nothing else happens is `ReceiveBytes` |
| KeyedDiff.Prune | src/masonry_package_region.rs:568-574 | the downward removal pass keeps exactly the surviving keys and their children, in order, when there is a child for every key; when nothing survives it takes as many children from the front as there are keys, and fails exactly when there are fewer |
| KeyedDiff.DiffKeep | src/masonry_package_region.rs:577-580 | a key already in place is the first survivor left, and every surviving older sibling ahead of it is already placed |
| KeyedDiff.DiffMove | src/masonry_package_region.rs:581-586 | taking out a later survivor and inserting it at the target keeps prefix and rest right |
| KeyedDiff.DiffInsert | src/masonry_package_region.rs:587-591 | a key not in the working list was not in the old list, and inserting it keeps prefix and rest right |
| KeyedDiff.MoveFindsSurvivor | src/masonry_package_region.rs:581 | the found position is past the target, and the child is one whose surviving older siblings are not all ahead of it |
| KeyedDiff.DiffDone | src/masonry_package_region.rs:575-593 | at the end the working list is the new key list with nothing left over |
| KeyedDiff.DiffIsRightExactlyForDistinctKeys | src/masonry_package_region.rs:568-593 | from distinct old keys, no index is out of range and the result is the new list if and only if the new keys are distinct |
| KeyedDiff.RepeatedKeyPanics | src/masonry_package_region.rs:581-586 | new keys `[a, a]` after `[a, b]` insert past the end of the list |
| PackageUi.UpdateAgreesWithBuild | src/masonry_package_region.rs:384-509 | updating the widget of the same id, kind and depth gives the body a rebuild gives, if and only if a component of unknown kind reads the same as placeholder and as label; covers the updates that are not told the depth |
| PackageUi.ContainerKeysAreKeys | src/masonry_package_region.rs:522-539 | the keys of a container are the keys of the children it is built with, in order |
| Appearance.BuiltPaints | src/masonry_package_region.rs:868-956 | a widget is built with exactly the body that paints its component: the first text present, the style, and an intent exactly when there is a command and the control is enabled |
| Appearance.UpdatedPaints | src/masonry_package_region.rs:407-511 | an update of a widget of the expected type paints the new component, with the depth that type keeps; a widget of another type is left alone |
| Appearance.RowPaints | src/masonry_package_region.rs:1299-1322 | a row shows its item and sends the item's command in the name of list and item, exactly when enabled |
| Appearance.KidsAre | src/masonry_package_region.rs:226-404 | a titled panel renders its title and then its children, the other containers their children, a list its items, every other kind nothing |
| Appearance.KidDepthIs | src/masonry_package_region.rs:596-606 | the components of a panel, a collapse and a modal are one level deeper, everything else at the depth of its parent |
| PackageUi.BuiltLocalStarts | src/masonry_package_region.rs:1860-1864 | a fresh widget is collapsed, without focus, closed at the first marked item or the first, and idle with the server's text |
| PackageUi.KeptLocalKeeps | src/masonry_package_region.rs:1875-1890 | an in-place update keeps expansion, focus and open flag; a choice stays if it is an index of the new items and is the last index, or 0, otherwise; a text changes only when idle and the server's text changed, and then to that text |
| Rendering.RenderingIsUnique | src/masonry_package_region.rs:226-404 | a tree has one rendering: two widget trees that show it have the same bodies and child order all the way down |
| Rendering.IdentityIsKeptExactly | src/masonry_package_region.rs:543-594 | after an update a child present in both lists has its old widget id if and only if every surviving sibling ahead of it in the old list is also ahead of it in the new one |
| Rendering.PureInsertDeleteKeepsIdentity | src/masonry_package_region.rs:543-594 | an update that only inserts and deletes keeps the widget id of every surviving child |
| Rendering.IndexIsDetermined | src/masonry_package_region.rs:395-402 | where only containers have children every component is recorded, with the same kind and child keys in every index of the tree |
| Rendering.IntentsAreLive | src/masonry_package_region.rs:137-149 | an id has a commit intent if and only if it is the text area of an enabled text input of the widget tree |
| PackageRegion.PackageRegionWidget.BuildComponent | src/masonry_package_region.rs:226-404 | the built widget shows the component, all its widgets are fresh and in their starting state, indexes and intents are extended by exactly its own |
| PackageRegion.PackageRegionWidget.BuildChild | src/masonry_package_region.rs:650-696 | the child a key stands for is built from the parent with fresh ids |
| PackageRegion.PackageRegionWidget.ReconcileComponent | src/masonry_package_region.rs:407-511 | on any widget: the id is kept, body and local state are updated as far as the type allows, only records below the component change, and a component without children takes as many children off as keys are recorded for it. On the widget of a component of the same id and kind: no panic, indexed, identities exactly as `Kept` says, and the component is shown if and only if everything that survives in place replays |
| PackageRegion.PackageRegionWidget.ReconcileFlexChildren | src/masonry_package_region.rs:543-594 | the column has the new children in order, each shown unless it survives and does not replay; a child keeps its widget if and only if it survives and every surviving sibling ahead of it in the old list is also ahead in the new one |
| PackageRegion.PackageRegionWidget.PlaceAll | src/masonry_package_region.rs:568-593 | after position `target` the first children are the new ones, finished, and the rest are the old ones still to be placed |
| PackageRegion.PackageRegionWidget.UpdateAll | src/masonry_package_region.rs:558-566 | an unchanged key list keeps every child where it is and updates it |
| PackageRegion.PackageRegionWidget.ReconcileChildInPlace | src/masonry_package_region.rs:608-647 | a surviving child keeps its identity and shows the new data at its depth, a component if and only if it replays |
| PackageRegion.PackageRegionWidget.ReconcileTree | src/masonry_package_region.rs:180-188 | the rebuild shows the tree with exact indexes and intents, every widget in its starting state |
| PackageRegion.PackageRegionWidget.ReconcileTreeLive | src/masonry_package_region.rs:192-222 | the step `LiveStep`, from any state. Of a region that shows a tree: afterwards the region shows the new tree, with exact indexes and intents, if and only if the reuse test does not find the record of a component other than the root, and everything that survives in place replays; when the root is reused, every surviving widget keeps its identity and, as `IsKept` says, its state, and every other is fresh and in its starting state, all exactly as `Kept` says. Of any region: what the reused root widget becomes, and that an unusable one is rebuilt |
| PackageRegion.PackageRegionWidget.UpdateRoot | src/masonry_package_region.rs:201-219 | the two branches: a foreign record leaves the root recorded under an id that is not its own; otherwise the root is ready to install |
| PackageRegion.PackageRegionWidget.InstallRoot | src/masonry_package_region.rs:216-221 | after the records are dropped the region is as the root and its records say |
| PackageRegion.PackageRegionWidget.ReuseRoot | src/masonry_package_region.rs:204-210 | the branch that keeps the root widget: its id and the record of the new root id stay |
| PackageRegion.PackageRegionWidget.RebuildRoot | src/masonry_package_region.rs:211-219 | the branch that swaps the root builds it with fresh ids and shows the tree |
| PackageRegion.PackageRegionWidget.Gc | src/masonry_package_region.rs:699-709 | exactly the records of components of the tree are kept, unchanged |
| PackageRegion.Reachable | src/masonry_package_region.rs:699-706 | the work-list walk ends on every tree, with exactly the ids of the tree when they are distinct |
| PackageRegion.PackageRegionWidget.TextInputCommit | src/masonry_package_region.rs:137-149 | an intent is returned if and only if the id is the text area of an enabled text input of the live tree |
| RegionViews.IndexesAreExact | src/masonry_package_region.rs:190-222 | where only containers have children both indexes are defined on exactly the components of the tree |
| RegionViews.OutcomeAgrees | src/masonry_package_region.rs:192-222 | what a live update does to a region is the same for every tree that the region can be said to show |
| RetainedState.UserStepIsValid | src/masonry_package_region.rs:178-222 | whatever the user expands, chooses, focuses or types, the region shows the tree it showed |
| RetainedState.ChoicesFitAfterUpdate | src/masonry_package_region.rs:1875-1890 | after every live update that shows its tree each dropdown has chosen one of its items, or 0 when it has none |
| RetainedState.SameTreeChangesNothingExactly | src/masonry_package_region.rs:192-222 | a live update with the tree that is shown, under the same context, leaves every widget, state, record and intent as it was if and only if each choice is an index of its items, or 0 when there are none |
| RetainedState.FieldShowsServerTextExactly | src/masonry_package_region.rs:2572-2583 | after an update an idle field shows the server's text if and only if it did before or that text changed |
| RetainedState.MissedTextIsNeverAdopted | src/masonry_package_region.rs:2572-2583 | a change that came while the field was edited is not adopted by later updates with the same text |
| PackageHosting.SyncPanel | src/masonry_package_region.rs:2812-2828 | one synchronization of a panel is a hosting step: rebuilt and shown when new, a live update under the new context when hosted |
| PackageHosting.ForeignExactlyWhenBelow | src/masonry_package_region.rs:201-203 | where only containers have children, the reuse test finds a foreign record if and only if a component below the old root has the new root id and kind |
| PackageHosting.PromoteChild | src/masonry_package_region.rs:192-222 | the losing input: after an empty row below the root becomes the root, the call returns and the region goes on showing the old root's children |
| PackageHosting.SyncHistory | src/masonry_package_region.rs:2780-2834 | synchronizing a history one tree after the other is a hosting run, up to a panic, and leaves the region in its last state |
| PackageHosting.ShownExactlyWhenAdmissible | src/masonry_package_region.rs:2780-2834 | in every hosting run, whatever the user does in between, the region shows each tree, with exact indexes and intents, right after it was synchronized if and only if each tree follows from the one before: no component below the old root has the new root id and kind, and what survives in place replays |
| PackageHosting.PromotedChildIsLost | src/masonry_package_region.rs:192-222 | after making a child of the old root the new root, the region does not show the tree with exact indexes |
| PackageHosting.PromotedChildOnScreen | src/masonry_package_region.rs:192-222 | and, when the new root has no children, exactly what is on screen: the old root's widget without as many of its first children as the promoted child had; the toolkit panics exactly when there are fewer, and the rendering is right if and only if there are no more and the widget is of the right type |
| PackageHosting.LiveAgreesWithRebuild | src/masonry_package_region.rs:178-222 | live reconcile refines rebuild: the same rendering and, where only containers have children, the same indexes, up to widget ids |
| DocumentSessions.InsertMeaning | src/editor/document_session.rs:85-207 | an insertion evicts nothing when there is room or the id is held, and otherwise exactly the least recently stashed session |
| DocumentSessions.RemoveOk | src/editor/document_session.rs:106-109 | removal takes out one id and keeps the order and the ceiling |
| DocumentSessions.DocumentSessionStore.InsertSession | src/editor/document_session.rs:85-95 | stamps, moves to the back of the order, and evicts as `Insert` says |
| DocumentSessions.DocumentSessionStore.EvictIfNeeded | src/editor/document_session.rs:190-207 | the eviction loop computes `Evict` |
| DocumentSessions.DocumentSessionStore.RemoveSession | src/editor/document_session.rs:106-109 | returns the session, if held, and removes it |
| PaneDocument.PaneDocumentView.OpenDocumentSession | src/masonry_pane_document.rs:928-1003 | the new state is `Opened`: duplicate opens ignored, the active document stashed, then the stale copy dropped |
| PaneDocument.PaneDocumentView.StashActiveSession | src/masonry_pane_document.rs:1005-1061 | the new state is `Stash`: the active document retained under the recorded path, every evicted one force-closed |
| PaneDocument.PaneDocumentView.ActivateSession | src/masonry_pane_document.rs:1064-1112 | the new state is `Activated`: the retained copy removed first, then the active one stashed |
| PaneDocument.PaneDocumentView.NoteEditAck | src/masonry_pane_document.rs:619-644 | an acknowledgement reaches the active surface or the retained session it names |
| PaneDocument.PaneDocumentView.LoadResync | src/masonry_pane_document.rs:650-692 | a resync replaces the active text or the retained session it names |
| PaneDocument.PaneDocumentView.ReloadDocument | src/masonry_pane_document.rs:1280-1328 | a reload replaces the active text or the retained session it names |
| PaneDocument.PaneDocumentView.NoteSaved | src/masonry_pane_document.rs:1236-1278 | a save confirmation reaches the active surface or the retained session it names |
| PaneDocument.PaneDocumentView.ReconnectQueue | src/masonry_pane_document.rs:469-473 | a reconnect installs a queue, forgets nothing, and makes the next open of the active document count |
| PaneDocument.PaneDocumentView.CloseAll | src/masonry_pane_document.rs:507-549 | closes the active document, force-closes every retained one and starts over |
| PaneDocument.PaneDocumentView.GuardPaneClose | src/masonry_pane_document.rs:451-460 | the pane may close exactly when the active document has no unsaved edits |
| PaneLaws.PartitionAlways | src/masonry_pane_document.rs:617-1112 | in every reachable state the active document is not retained, each entry holds the document it is keyed by, and a pane with nothing opened retains nothing |
| PaneLaws.NoLostDocument | src/masonry_pane_document.rs:928-1112 | in every run, a document that some step opened is active, retained, or has had a close attempted for it since |
| PaneLaws.HeldUntilClosed | src/masonry_pane_document.rs:507-1112 | the same from any moment at which the document is held |
| PaneLaws.OpeningClosesItself | src/masonry_pane_document.rs:947-950 | opening a document closes that same document on the server if and only if the store is full and its stale copy is the oldest entry |
| PaneLaws.OpenIsIgnoredExactly | src/masonry_pane_document.rs:928-1003 | over whole runs, from the events: an open is ignored if and only if it names the active document of a pane with an opened document and no reconnect came since the last open or pane close; every other open shows the id, version, text and dirty flag of the message |
| PaneLaws.ActivationSwaps | src/masonry_pane_document.rs:1064-1112 | activating a retained document makes exactly it active with its own text, retains the previous one, leaves the others alone and never attempts a close |
| PaneLaws.SwitchingBackRestores | src/masonry_pane_document.rs:1064-1112 | switching away and back restores the active document and every retained one |
| PaneLaws.ContentIsStable | src/masonry_pane_document.rs:617-1112 | a step that neither addresses a document nor attempts to close it leaves its text and dirty flag alone |
| PaneLaws.ContentSurvivesRuns | src/masonry_pane_document.rs:617-1112 | the same over whole runs: no unsaved edit is lost by switching |
| PaneContents.DocumentFollowsEvents | src/masonry_pane_document.rs:617-1112 | over whole runs: as long as no close is attempted for it, version, text and dirty flag of a held document are what the opens, edits and server messages about it made of them, however often it was stashed and activated |
| PaneContents.HeldOnlyAfterOpen | src/masonry_pane_document.rs:617-1112 | no step but an open of it makes the pane hold a document |
| PaneContents.RetainedSync | src/masonry_pane_document.rs:617-1061 | a document is retained with the confirmed version and pending edits known when it was stashed, and only server messages that name it change them afterwards |
| PaneContents.ClosePaneSends | src/masonry_pane_document.rs:507-549 | closing a pane sends one close for each document it holds and for no other, forced exactly for the retained ones, and leaves nothing held |
| PaneLaws.RecordedPathIsLastOpened | src/masonry_pane_document.rs:928-1112 | the recorded path is always that of the last open that took effect since the last pane close |
| PaneLaws.StashedUnderRecordedPath | src/masonry_pane_document.rs:1005-1061 | the stashed document is retained under the recorded path, whatever its own |
| PaneLaws.OpeningKeepsContentExactly | src/masonry_pane_document.rs:928-1003 | opening a held document keeps its text and dirty flag if and only if the open is a duplicate of the active one or the server has the same; a retained copy is never restored |
| PaneLaws.ReopeningLosesEdits | src/masonry_pane_document.rs:947-965 | open a, edit it, open b, open a again: the edit is gone, without a close |
| PaneLaws.GuardAsksAboutActive | src/masonry_pane_document.rs:451-460 | with a document open the guard passes if and only if the active document has no unsaved edits |
| PaneLaws.ClosingDrops | src/masonry_pane_document.rs:502-517 | closing a pane whose guard passed drops the unsaved edits of exactly the dirty retained documents, each with a forced close |
| PaneLaws.GuardedCloseIsSafeExactly | src/masonry_pane_document.rs:448-517 | after the guard has passed, closing the pane drops no unsaved edits if and only if no retained document has any |
| PaneLaws.GuardMissesRetainedEdits | src/masonry_pane_document.rs:451-517 | open a, edit it, open b, close the pane: the guard passes and the edit is dropped with a forced close |
| PaneReopen.RetainedSinceStash | src/masonry_pane_document.rs:1005-1061 | a retained document is retained under the path recorded when it was last stashed, and was not opened or closed since |
| PaneEviction.ListedInStashOrder | src/editor/document_session.rs:85-207 | in every reachable state the retained documents are listed from the one stashed longest ago to the one stashed last |
| PaneEviction.GivesUpLeastRecentlyStashed | src/editor/document_session.rs:190-207 | over whole runs, a step that stashes a document gives up nothing unless it is an open with 63 documents retained, and then exactly the one whose last stash lies furthest back, with a forced close |
| PaneReopen.RetainedUnderOwnIdentityExactly | src/masonry_pane_document.rs:1005-1112 | over whole runs: a retained document carries its own identity if and only if the last open before it was stashed was with that identity |
| PaneDocument.PaneDocumentView.DocumentsForReopen | src/masonry_pane_document.rs:487-500 | lists the active identity, then each retained identity whose path is not listed yet, skipping empty paths |
| PaneReopen.ReopenedExactlyWhenRecordedAlone | src/masonry_pane_document.rs:487-500 | an identity is listed, in whatever order the map yields its entries, if and only if it has a path, is recorded, and no entry that could come first has its path under another root |
| PaneReopen.ActivatedDocumentIsNotReopened | src/masonry_pane_document.rs:487-500 | open a, open b, activate a, open c: a is held but not listed for reopening |
| SduiState.SduiNativeState.ApplySnapshot | src/masonry_sdui.rs:226-235 | replaces the replica, of every tree; the walk finishes exactly when the stack suffices, and then the derived binding is right |
| SduiState.SduiNativeState.ApplyUpdate | src/masonry_sdui.rs:237-266 | refuses and changes nothing exactly when the base version differs; otherwise applies the operations in order, and the walk finishes exactly when the stack suffices, with the derived binding right |
| SduiState.SduiNativeState.RebuildDerivedState | src/masonry_sdui.rs:457-462 | finishes exactly when the walk ends within the stack, and then the binding is that of the first editor view |
| SduiState.SduiNativeState.FindEditorBinding | src/masonry_sdui.rs:464-485 | the recursive walk finishes exactly when it ends within the stack, and keeps the first binding of the preorder |
| SduiState.WalkEndsExactlyWithoutCycles | src/masonry_sdui.rs:464-485 | the walk ends, within as many nested calls as there are nodes, if and only if no node reachable from its start lies on a cycle; otherwise within no number of calls |
| SduiState.DescendsToChildren | src/masonry_sdui.rs:474-480 | the walk descends by the child relation written out on the node kinds: the listed ids of a panel, a flex and a stack, and nothing else |
| SduiState.ViewsAreLeftmost | src/masonry_sdui.rs:464-485 | the first binding in preorder is the one of the lexicographically least path to an editor view, dangling children skipped; there is none exactly when no path leads to one |
| SduiLaws.VersionDeterminesContents | src/masonry_sdui.rs:226-266 | over histories of published updates and replaced trees: under every loss, duplication and reordering of the messages the replica is the server's tree of its version, if and only if the server never has two different trees of one version, none of version 0, and no update that drops the root |
| SduiOperations.DeliveryDecides | src/masonry_sdui.rs:226-266 | a snapshot keeps, of the nodes of one id, the last; after an accepted update the last operation about an id decides its node, and the root is the last one set that nothing ended since; a refused update changes nothing |
| SduiLaws.RepublishedVersionIsAmbiguous | src/server/sdui.rs:107-116 | two different trees published with one version: a snapshot of each leaves two different replicas of that version, and an update based on the second is applied to the first |
| SduiLaws.AdvancingIsCoherent | src/server/sdui.rs:107-137 | a server that advances the version whenever it changes its tree never has two different trees of one version |
| SduiLaws.DeliverAllAgrees | src/masonry_sdui.rs:226-266 | under that condition the replica is always empty or one of the server's trees |
| SduiLaws.UpdatesOnlyAdvance | src/masonry_sdui.rs:237-266 | updates alone never move the version back |
| SduiLaws.Converges | src/masonry_sdui.rs:237-266 | a replica that receives the missing updates in order, with any stale ones between, ends at the last state |
| SduiLaws.ServerNodesAgree | src/server/sdui.rs:409-430 | client and server always have the same nodes |
| SduiLaws.RootsCompared | src/server/sdui.rs:409-430 | the server keeps its root whatever is removed; the client has that root unless the operations drop it |
| SduiLaws.ClientAgreesWithServer | src/server/sdui.rs:409-430 | after a published update client and server agree if and only if no operation removes the root then in force without a later operation setting one |
| SduiLaws.PuttingTheRootBackIsNotEnough | src/server/sdui.rs:185-226 | an accepted update that removes the root node and puts it back changes nothing on the server and leaves the client without a root |
| SduiLaws.ClientAgreesOverRuns | src/server/sdui.rs:409-430 | over a run of published updates client and server agree at the end if and only if no operation removes the root then in force without a later operation, of the same or a later update, setting one |
| SduiLaws.CyclesAreAccepted | src/server/sdui.rs:214-217 | an accepted update can make any node below the root its own child, and then the client walk from the root ends within no number of nested calls |

## Left out

- JSON parsing and printing: `parse` and `stringify` are a parameter pair; the
  round trips assume that parsing a printed object gives it back and that the
  printed text is well-formed UTF-16.
- JavaScript type checks (`push` of something that is not a `Uint8Array`,
  `sendRequest` with a method that is not a string): excluded by typing.
- Shifts and masks in the codec are written as division and remainder by powers
  of two; JavaScript numbers are unbounded integers, with the safe-integer check
  of the header parser written out.
- Notifications, server-request handlers, timeouts, the byte session and the
  event loop: foreign; any order of the atomic steps is allowed, also orders that
  the event loop would not produce.
- LspClient.LspClient.ReceiveChunk: dispatches the messages of a chunk without
  other steps in between; interleavings with other steps and other calls are covered by
  the runs of `ClientLaws` and by `Arrivals`, where each message is its own step.
- Arrivals.EndToEndInterleaved: for requests that the client does not give up meanwhile;
  replies to cancelled requests are the subject of `ClientLaws`.
- Document synchronization, positions and capabilities of `LspClient`: they rest
  on other modules and would add little to the bookkeeping.
- The hash of a component id is a field of the component: the hash function is
  not modelled, and distinct ids are assumed not to collide.
- Widgets are values, as each has one owner in Rust; there is no aliasing to
  lose. Ids are handed out by a counter. The inner column of a collapse or modal
  has no id of its own.
- The list of focusable widgets and the focus order of modals, which is documented
  to go stale, menus, accessibility, painting, layout, pointer and text events.
- The events by which the user changes widget state (expanding, choosing, typing): between
  two synchronizations of a hosting run any state may become any other of its kind.
- PackageRegion.PackageRegionWidget.ReconcileTreeLive: when the reuse test finds a
  foreign record and the new root has children, what the region then renders is not
  described beyond its root widget, only that the indexes are not those of the new tree;
  a child index outside a column is taken to end the call (`ok`).
- PackageHosting.ShownExactlyWhenAdmissible: for trees in which only containers have
  children; on others records of components that are not rendered outlive their tree, and
  the condition of `ReconcileTreeLive`, which has no such restriction, depends on them.
- Sync of several panels at once, removal of panels, overlays' anchors and
  z-order: each panel is its own region.
- Status text, display names, menus, diagnostics, undo history and the pending
  edits of the active surface in the pane; what the edit queue knows of a
  document when it is stashed is a parameter of the step.
- The view without an edit queue as a starting state of runs.
- The iteration order of retained documents at pane close is that of a hash map
  in the code; at close the model uses the order of the eviction list, for reopening
  every order.
- The activation clock saturates as in the code, at the largest 64-bit number.
- LspClient.LspClient.ShutDown: the two `clear` calls only; the `shutdown` request before
  them is an ordinary request, and the `state` field, the documents and the end of the
  session are not modelled.
- Slot geometry, visible texts, package-UI state and observations of the
  UI-tree client: derived data with no state of their own.
