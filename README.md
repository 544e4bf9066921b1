# XSLT output buffering handler

A Dafny model of the output buffering of the TransforMiiX XSLT processor,
`content/xslt/src/xslt/txBufferingHandler.cpp`. The processor does not always
know which output method it will use until some output has been produced.
Until it decides, it writes to a `txBufferingHandler`, which records every
output event as a typed transaction in a `txResultBuffer`. Once a real output
handler exists, `flushToHandler` replays the transactions to it in order.

The model has these parts:

- `Xpcom` holds result codes. `nsresult` is a 32-bit code, and
  `NS_SUCCEEDED` means its top bit is clear. It also holds 32-bit namespace
  ids and atoms, which are opaque identities.
- `Transactions` holds `Transaction`, one constructor per member of the
  `txTransactionType` enumeration, each with the payload of its subclass.
  - A character transaction stores only its length.
  - `Event` is one call of the output-handler interface.
  - `CharLength` is the summed length of the character transactions.
- `Sinks` holds `EventSink`, the real handler a buffer is flushed to. It
  records the calls it receives and answers each with a fixed function
  `respond` of the call's position and the call.
- `ResultBuffers` holds the class `ResultBuffer` (`mTransactions` and
  `mStringValue` as fields). It has `addTransaction`, `getLastTransaction`
  and the `flushToHandler` loop. `FlushTransaction` is the static
  `flushTransaction`, working on the sink.
- `BufferingHandlers` holds the class `BufferingHandler` (`mCanAddAttribute`
  and a possibly-null `mBuffer`), with every event method.
- `HandlerModel` states what one event method does to the handler's state
  (`Handle`) and what a run of calls does (`HandleAll`). Every method of
  `BufferingHandler` is proved equal to `Handle`, and the lemmas state the
  properties of `Handle`.
- `Replay` states what replay does, as the function `Flushed` of the number
  of transactions replayed. `FlushToHandler` is proved equal to it.
  `Transcript` is the call sequence replay issues when every call is
  accepted, and the lemmas relate the two.
- `RoundTrip` covers recording followed by replay. For a plain call
  sequence, buffering with every allocation succeeding keeps one
  transaction per call, and a handler that accepts every call receives the
  same sequence back. A plain sequence has no dropped attribute, no merged
  `characters` and no `endDocument`.
  - A dropped attribute or a merged `characters` call makes the replayed
    calls differ from the calls issued, but not the log. `Normalize` drops
    every attribute issued outside a start tag, and joins each `characters`
    onto a preceding kept one of the same mode. For any sequence without
    `endDocument`, buffered with every allocation succeeding, replay to a
    handler that accepts every call issues exactly the normalised calls.
    Buffering those again, with every allocation succeeding, records the
    same log.
  - `endDocument` is recorded but never replayed.

Allocation failure is a parameter `Alloc(newSucceeds, appendSucceeds)` of
each buffering call:
- `newSucceeds` says whether `new` of the transaction object returns
  non-null.
- `appendSucceeds` says whether `AppendElement` can grow the array.

A null `mBuffer` is a constructor argument.

`flushTransaction` has no case for `eEndDocumentTransaction`, so its result
variable is left uninitialised. The model issues no call for that
transaction and takes its result from a parameter `indeterminate`, indexed
by the transaction's position.

One might expect a failed buffering call to leave the log as it was. On
its new-transaction path, `characters` appends the text to `mStringValue`
before calling `addTransaction` (lines 286-287). When that append fails,
the text stays in the shared string with no transaction claiming it. The
model follows the code, and `HandlerModel.CharactersAppendFailure` and
`HandlerModel.HandleUnclaimed` state exactly this.

## Model

The event methods of lines 225-387 are modelled by the function
`HandlerModel.Handle`, one call at a time, and by `HandlerModel.HandleAll`
for a run of calls. The switch of `flushTransaction` (lines 426-507) is
`Replay.Dispatch`, and `Replay.Transcript` is the call sequence a whole
buffer replays to when every call is accepted. `RoundTrip.Normalize` is the
calls a buffer keeps of the calls it was given. The rows below name the
members whose contracts state what these functions do.

| member | source | states |
|---|---|---|
| Transactions.CharacterTransactionOf | content/xslt/src/xslt/txBufferingHandler.cpp:271-283 | the transaction `characters` creates has the no-escaping type exactly when `aDOE` is set, and its length is the length of the data |
| Transactions.Recorded | content/xslt/src/xslt/txBufferingHandler.cpp:225-387 | each buffering method other than `characters` records a transaction of a non-character type, carrying that call's own arguments; `endDocument` records a bare end-document transaction |
| Transactions.CharLengthUpdate | content/xslt/src/xslt/txBufferingHandler.cpp:276-279 | replacing a transaction in place, as the `mLength +=` of a merge does, changes the summed character length by exactly the difference of the two lengths |
| ResultBuffers.ResultBuffer.constructor | content/xslt/src/xslt/txBufferingHandler.cpp:389-392 | a new result buffer has no transactions and an empty shared string |
| ResultBuffers.ResultBuffer.AddTransaction | content/xslt/src/xslt/txBufferingHandler.cpp:402-409 | appends the transaction at the end and returns NS_OK, or returns NS_ERROR_OUT_OF_MEMORY with the list unchanged when the array cannot grow; the shared string is never touched |
| ResultBuffers.ResultBuffer.GetLastTransaction | content/xslt/src/xslt/txBufferingHandler.cpp:529-537 | null exactly when the list is empty, otherwise the final element |
| ResultBuffers.ResultBuffer.FlushToHandler | content/xslt/src/xslt/txBufferingHandler.cpp:514-527 | the handler receives exactly the calls of `Replay.Flush` after those it had already received, and the returned code is the result that replay ends with |
| ResultBuffers.FlushTransaction | content/xslt/src/xslt/txBufferingHandler.cpp:418-512 | issues the one call recorded in the transaction; a character transaction gets the next `mLength` characters of the shared string from the cursor, with its own escaping mode, and moves the cursor past them; the end-document transaction issues nothing and yields the uninitialised result; the boolean is `NS_SUCCEEDED` of the result |
| BufferingHandlers.BufferingHandler.constructor | content/xslt/src/xslt/txBufferingHandler.cpp:214-218 | the flag starts false and the buffer is empty, or null when its allocation failed |
| BufferingHandlers.BufferingHandler.AttributeAtom | content/xslt/src/xslt/txBufferingHandler.cpp:225-244 | the new state and result are those of `HandlerModel.Handle`; outside a start tag the call returns NS_OK and changes nothing |
| BufferingHandlers.BufferingHandler.Attribute | content/xslt/src/xslt/txBufferingHandler.cpp:246-262 | as `AttributeAtom`, for the overload with a string local name |
| BufferingHandlers.BufferingHandler.Characters | content/xslt/src/xslt/txBufferingHandler.cpp:264-288 | the new state and result are those of `HandlerModel.Handle`, covering both the merging path and the new-transaction path; with a buffer, the flag is false afterwards |
| BufferingHandlers.BufferingHandler.Comment | content/xslt/src/xslt/txBufferingHandler.cpp:290-301 | the new state and result are those of `HandlerModel.Handle`; with a buffer, the flag is false afterwards |
| BufferingHandlers.BufferingHandler.EndDocument | content/xslt/src/xslt/txBufferingHandler.cpp:303-313 | the new state and result are those of `HandlerModel.Handle`; the flag is unchanged |
| BufferingHandlers.BufferingHandler.EndElement | content/xslt/src/xslt/txBufferingHandler.cpp:315-327 | the new state and result are those of `HandlerModel.Handle`; with a buffer, the flag is false afterwards |
| BufferingHandlers.BufferingHandler.ProcessingInstruction | content/xslt/src/xslt/txBufferingHandler.cpp:329-342 | the new state and result are those of `HandlerModel.Handle`; with a buffer, the flag is false afterwards |
| BufferingHandlers.BufferingHandler.StartDocument | content/xslt/src/xslt/txBufferingHandler.cpp:344-354 | the new state and result are those of `HandlerModel.Handle`; the flag is unchanged |
| BufferingHandlers.BufferingHandler.StartElementAtom | content/xslt/src/xslt/txBufferingHandler.cpp:356-371 | the new state and result are those of `HandlerModel.Handle`; with a buffer, the flag is true afterwards |
| BufferingHandlers.BufferingHandler.StartElement | content/xslt/src/xslt/txBufferingHandler.cpp:373-387 | the new state and result are those of `HandlerModel.Handle`; with a buffer, the flag is true afterwards |
| HandlerModel.NoBufferNoChange | content/xslt/src/xslt/txBufferingHandler.cpp:225-387 | without a buffer, every event method returns NS_ERROR_OUT_OF_MEMORY and changes nothing, the flag included |
| HandlerModel.FlagTransitions | content/xslt/src/xslt/txBufferingHandler.cpp:264-387 | both `startElement` overloads set the flag; `characters`, `comment`, `processingInstruction` and `endElement` clear it; `startDocument`, `endDocument` and `attribute` keep it; this holds whatever the allocations do |
| HandlerModel.AttributeDropped | content/xslt/src/xslt/txBufferingHandler.cpp:232-235 | outside a start tag, either `attribute` overload returns NS_OK and leaves the transactions, the shared string and the flag unchanged |
| HandlerModel.AttributeRecorded | content/xslt/src/xslt/txBufferingHandler.cpp:226-262 | inside a start tag, an `attribute` call appends exactly its own transaction at the end and returns NS_OK when allocation succeeds; otherwise it returns NS_ERROR_OUT_OF_MEMORY and leaves the buffer unchanged; the text and flag are kept either way |
| HandlerModel.CallRecorded | content/xslt/src/xslt/txBufferingHandler.cpp:290-387 | in any state with a buffer, `comment`, `processingInstruction`, `endElement`, `startDocument`, `endDocument` and both `startElement` overloads append exactly their own transaction and return NS_OK when both allocations succeed; otherwise they return NS_ERROR_OUT_OF_MEMORY and leave the transactions and the text unchanged |
| HandlerModel.CharactersMerge | content/xslt/src/xslt/txBufferingHandler.cpp:271-281 | whatever the flag, when the last transaction is a character transaction of the same escaping mode, `characters` adds no transaction and clears the flag; it lengthens that one by the data's length, keeps every earlier one, appends the data to the shared string and returns NS_OK, whatever the allocations do |
| HandlerModel.CharactersNew | content/xslt/src/xslt/txBufferingHandler.cpp:283-287 | when the list is empty or ends in another type, a successful `characters` appends one character transaction of the data's length and mode after the unchanged earlier ones, and appends the data to the shared string |
| HandlerModel.CharactersNewFails | content/xslt/src/xslt/txBufferingHandler.cpp:283-284 | when the list is empty or ends in another type and `new txCharacterTransaction` returns null, `characters` returns NS_ERROR_OUT_OF_MEMORY, clears the flag and leaves the transactions and the shared string unchanged |
| HandlerModel.CharactersJoin | content/xslt/src/xslt/txBufferingHandler.cpp:264-288 | in any state with a buffer, `characters(a)` followed by `characters(b)` of the same mode, the first with its allocations succeeding, leaves the same state as the single call `characters(a + b)`; all three calls return NS_OK, whatever the allocations of the second call do |
| HandlerModel.CharactersAppendFailure | content/xslt/src/xslt/txBufferingHandler.cpp:283-287 | when `addTransaction` fails on that path, the result is NS_ERROR_OUT_OF_MEMORY and the transactions are unchanged, but the data has already been appended to the shared string |
| HandlerModel.TextOnlyFromCharacters | content/xslt/src/xslt/txBufferingHandler.cpp:225-387 | no event method other than `characters` touches the shared string |
| HandlerModel.HandleUnclaimed | content/xslt/src/xslt/txBufferingHandler.cpp:264-288 | every call keeps the summed character length within the shared string; the unclaimed rest of the string grows only on the stranding path of `characters`, by the data's length, and never when the call succeeds |
| HandlerModel.SuccessfulRunKeepsLengths | content/xslt/src/xslt/txBufferingHandler.cpp:277-287 | after any run of buffering calls that all succeed, the shared string exceeds the summed character length by exactly what it did before; from an empty buffer the two are equal |
| Replay.Dispatch | content/xslt/src/xslt/txBufferingHandler.cpp:426-507 | the switch issues a call for every transaction type except the end-document type, which has no case |
| Replay.DispatchRecorded | content/xslt/src/xslt/txBufferingHandler.cpp:426-507 | replaying the transaction recorded by any method other than `characters` and `endDocument` issues that method's original call again |
| Replay.Flushed | content/xslt/src/xslt/txBufferingHandler.cpp:514-527 | after any number of iterations, the cursor has moved past at most the text of the replayed transactions, and past exactly that text while no call has failed; every call but the last was accepted, and the last too unless replay failed |
| Replay.FlushEmpty | content/xslt/src/xslt/txBufferingHandler.cpp:517-526 | an empty buffer issues no call and returns NS_OK |
| Replay.FlushStopsAtFailure | content/xslt/src/xslt/txBufferingHandler.cpp:520-523 | once a call has failed, no later transaction changes the calls, the result or the cursor |
| Replay.FlushAdvance | content/xslt/src/xslt/txBufferingHandler.cpp:520-524 | one loop iteration adds exactly the next transaction's call and result, and moves the cursor by its text length; a failing iteration is where the whole replay ends |
| Replay.FlushFollowsTranscript | content/xslt/src/xslt/txBufferingHandler.cpp:514-527 | replay issues a prefix of the calls recorded, in stored order, and all of them when it ends successfully |
| Replay.FlushedCharacterSlice | content/xslt/src/xslt/txBufferingHandler.cpp:448-461 | the k-th transaction, when it is a character one, is replayed with the slice of the shared string that starts at the summed length of the earlier character transactions, has its own `mLength`, and has its own escaping mode |
| Replay.TranscriptText | content/xslt/src/xslt/txBufferingHandler.cpp:453-460 | the replayed character slices, in order, make up the prefix of the shared string that the character transactions claim |
| Replay.ReplayedTextIsSharedString | content/xslt/src/xslt/txBufferingHandler.cpp:448-461 | when the lengths add up to the shared string and replay succeeds, the replayed character data concatenate to exactly the shared string |
| Replay.FlushedResult | content/xslt/src/xslt/txBufferingHandler.cpp:509-511 | without end-document transactions, the result is the answer to the last call issued (NS_OK when none), and a successful replay issued one call per transaction |
| Replay.FlushStopsAtFirstRejection | content/xslt/src/xslt/txBufferingHandler.cpp:509-526 | when the handler first rejects the n-th recorded call, replay issues exactly the calls up to and including that one and returns its failure code |
| Replay.FlushAcceptedReplaysAll | content/xslt/src/xslt/txBufferingHandler.cpp:514-527 | when the handler accepts every call, replay issues every recorded call in order and returns the answer to the last one, or NS_OK for an empty buffer |
| RoundTrip.EncodeCharLength | content/xslt/src/xslt/txBufferingHandler.cpp:277-287 | the character transactions of a plain recording claim exactly the length of the calls' text |
| RoundTrip.DecodeEncode | content/xslt/src/xslt/txBufferingHandler.cpp:426-507 | replaying the one-for-one recording of calls without `endDocument`, against their text followed by anything, issues exactly those calls |
| RoundTrip.ReplayEncoded | content/xslt/src/xslt/txBufferingHandler.cpp:418-512 | the recording of calls without `endDocument` claims exactly their text, holds no end-document transaction, and replays to the same calls |
| RoundTrip.RecordStep | content/xslt/src/xslt/txBufferingHandler.cpp:225-387 | a call that keeps a sequence plain, with its allocations succeeding, moves the handler from the recording of the sequence to the recording of the longer one, and returns NS_OK |
| RoundTrip.RecordPlain | content/xslt/src/xslt/txBufferingHandler.cpp:225-387 | a plain call sequence issued to a fresh handler, with every allocation succeeding, leaves exactly one transaction per call and the concatenated character data in the buffer, and every call returns NS_OK |
| RoundTrip.ReplayAccepted | content/xslt/src/xslt/txBufferingHandler.cpp:514-527 | flushing the recording of calls without `endDocument` to a handler that accepts them all issues those calls and returns the answer to the last one, NS_OK for none |
| RoundTrip.RoundTrip | content/xslt/src/xslt/txBufferingHandler.cpp:225-527 | buffering a plain call sequence and flushing it to a handler that accepts every call delivers the same sequence to that handler |
| RoundTrip.RoundTripRejected | content/xslt/src/xslt/txBufferingHandler.cpp:509-526 | when the handler first rejects the n-th call of a buffered plain sequence, it receives the calls up to and including that one, and the flush returns that rejection |
| RoundTrip.NormalizeOpen | content/xslt/src/xslt/txBufferingHandler.cpp:225-387 | the calls a buffer keeps leave a start tag open exactly when the calls it was given do |
| RoundTrip.NormalizeText | content/xslt/src/xslt/txBufferingHandler.cpp:264-288 | joining `characters` calls keeps all of their text, in order |
| RoundTrip.KeepStep | content/xslt/src/xslt/txBufferingHandler.cpp:225-387 | one more call without `endDocument`, after a kept plain sequence, moves the handler from the recording of that sequence to the recording of the sequence with the call kept, dropped or joined, keeps it plain, and returns NS_OK |
| RoundTrip.RecordAny | content/xslt/src/xslt/txBufferingHandler.cpp:225-387 | any call sequence without `endDocument`, issued to a fresh handler with every allocation succeeding, returns NS_OK for every call and leaves exactly the recording of its normalised calls, which form a plain sequence |
| RoundTrip.LogRoundTrip | content/xslt/src/xslt/txBufferingHandler.cpp:225-527 | for any call sequence without `endDocument`, the buffer holds the recording of its normalised calls and all of its text; flushing it to a handler that accepts them delivers the normalised calls; buffering those in a fresh handler records the same log |
| RoundTrip.CharactersRunJoined | content/xslt/src/xslt/txBufferingHandler.cpp:275-281 | a non-empty run of `characters` calls of one escaping mode is kept as a single call with their concatenated data |
| RoundTrip.CharactersRunReplayed | content/xslt/src/xslt/txBufferingHandler.cpp:264-288 | such a run is buffered as one character transaction spanning its whole text, and replayed as one `characters` call with that text |
| RoundTrip.EndDocumentRecorded | content/xslt/src/xslt/txBufferingHandler.cpp:303-313 | `endDocument` after a plain sequence appends one bare end-document transaction, leaves the text and flag unchanged, keeps none of its result code, and returns NS_OK |
| RoundTrip.EndDocumentNotReplayed | content/xslt/src/xslt/txBufferingHandler.cpp:426-507 | flushing a recording that ends in `endDocument` to a handler that accepts everything delivers every call before it and nothing for it, and the flush returns the uninitialised result |
| RoundTrip.FlushThenEndDocument | content/xslt/src/xslt/txBufferingHandler.cpp:509-511 | after a successful replay, a trailing end-document transaction issues no call, keeps the cursor, and replaces the result with the uninitialised value |

## Left out

- Reference counting and memory management are not modelled: `MOZ_COUNT_CTOR`/`MOZ_COUNT_DTOR`, the `nsCOMPtr` atom lifetimes, and the destructor that deletes every transaction (lines 394-400). Atoms are opaque values.
- The handler is passed as `txAXMLEventHandler**` and re-read for each transaction (line 422). The model flushes to one fixed `EventSink`, since nothing in this file changes the pointer during replay.
- Escaping and serialisation inside the real output handler are not modelled. The handler is an external component, and its answers are the `respond` function.
- The result of replaying `eEndDocumentTransaction` is uninitialised memory in the source. The model takes it from the parameter `indeterminate` and proves nothing about its value.
- `endDocument`'s `aResult` is not stored by the source, so the model has nothing of it to replay.
- Allocation failure of `new` and of `AppendElement` is a per-call parameter, not a model of the allocator. `nsString::Append` on `mStringValue` returns nothing in this source and is modelled as always succeeding.
- `mLength` is a `PRUint32`, and the `+=` of a merge would wrap past 2^32 - 1 characters. The model's lengths are unbounded naturals, because a run of four gigacharacters in one text node is outside what the buffer is used for.
- `ResultBuffers.ResultBuffer.GetLastTransaction` does not model the conversion of `Length() - 1` to `PRInt32`, which misbehaves above 2^31 transactions. It returns the last element for every non-empty list.
- Transactions are values, not heap objects. The `mLength +=` on the object that `getLastTransaction` returned is modelled as replacing the last list element. This is the same effect, since the buffer exclusively owns its transactions and no other reference to them is kept.
- `Holder::mIter` is a character pointer in the source and a natural offset into the shared string in the model.
- `Replay.FlushedResult`, `Replay.TranscriptLength`, `Replay.FlushStopsAtFirstRejection`, `Replay.FlushAcceptedReplaysAll` and the `RoundTrip` replay lemmas state their facts only for logs without an end-document transaction, or with one at the end (`RoundTrip.EndDocumentNotReplayed`). `Replay.FlushFollowsTranscript` holds for every log. After that transaction the result is the uninitialised value, and nothing about later calls can be stated without knowing it.
- Strings in the source are UTF-16 `nsAString`s, and `aData.Length()` and `mLength` count UTF-16 code units. The model's strings are sequences of Dafny `char`s. No stated property depends on the element type, because the shared string is only ever cut at the boundaries that the recorded lengths themselves mark.
