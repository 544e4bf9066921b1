/**
 * Recording followed by replay. For a call sequence in which no attribute is
 * dropped, no `characters` merges and no `endDocument` occurs, buffering
 * with every allocation succeeding records one transaction per call, and
 * replaying the buffer to a handler that accepts every call issues the same
 * calls again (`RoundTrip`). A dropped attribute and a merged `characters`
 * call make the replayed calls differ from the calls issued, but not the
 * log: for any sequence without `endDocument`, buffered with every
 * allocation succeeding, replay to a handler that accepts every call issues
 * the calls that `Normalize` keeps, and buffering those again, with every
 * allocation succeeding, records the same log (`LogRoundTrip`). An
 * `endDocument` is recorded but never replayed.
 */
module RoundTrip {
  import opened Xpcom
  import opened Transactions
  import opened Replay
  import opened HandlerModel

  /** A handler whose buffer was allocated and which has seen no call yet. */
  const Fresh := HandlerState(false, Some(Log([], "")))

  /** Every allocation of every call succeeds. */
  predicate AllocationsSucceed(mems: seq<Alloc>) {
    forall i :: 0 <= i < |mems| ==> mems[i] == Unfailing
  }

  predicate AllOk(results: seq<Status>) {
    forall i :: 0 <= i < |results| ==> results[i] == NS_OK
  }

  /**
   * Whether an attribute may follow `events` issued to a fresh handler:
   * the last call that decides it is a start tag.
   */
  predicate StartTagOpen(events: seq<Event>)
    decreases |events|
  {
    if events == [] then false
    else
      var last := events[|events| - 1];
      if last.StartElement? || last.StartElementAtom? then true
      else if last.Characters? || last.Comment? || last.ProcessingInstruction? || last.EndElement? then false
      else StartTagOpen(events[..|events| - 1])
  }

  /**
   * Call sequences that buffering keeps one for one: every attribute
   * inside a start tag, no `characters` right after one of the same
   * escaping mode, and no `endDocument`.
   */
  predicate Plain(events: seq<Event>) {
    && (forall i :: 0 <= i < |events| && events[i].IsAttribute() ==> StartTagOpen(events[..i]))
    && (forall i :: 0 < i < |events| && events[i].Characters? ==>
          !(events[i - 1].Characters? && events[i - 1].doe == events[i].doe))
    && (forall i :: 0 <= i < |events| ==> !events[i].EndDocument?)
  }

  /** The transaction a call is recorded as when it neither merges nor is dropped. */
  function Encoded(e: Event): Transaction {
    if e.Characters? then CharacterTransactionOf(e.doe, |e.data|) else Recorded(e)
  }

  function Encode(events: seq<Event>): (ts: seq<Transaction>)
    ensures |ts| == |events|
    decreases |events|
  {
    if events == [] then [] else Encode(events[..|events| - 1]) + [Encoded(events[|events| - 1])]
  }

  /** The lengths of the encoded character transactions add up to the text of the `characters` calls. */
  lemma {:induction false} EncodeCharLength(events: seq<Event>)
    ensures CharLength(Encode(events)) == |CharacterData(events)|
    decreases |events|
  {
    if events != [] {
      var init := events[..|events| - 1];
      EncodeCharLength(init);
      CharLengthAppend(Encode(init), Encoded(events[|events| - 1]));
    }
  }

  lemma {:induction false} EncodeNoEndDocument(events: seq<Event>)
    requires forall i :: 0 <= i < |events| ==> !events[i].EndDocument?
    ensures NoEndDocument(Encode(events))
    decreases |events|
  {
    if events != [] {
      var n := |events| - 1;
      EncodeNoEndDocument(events[..n]);
      forall j | 0 <= j < |Encode(events)|
        ensures !Encode(events)[j].EndDocumentTransaction?
      {
        if j < n {
          assert Encode(events)[j] == Encode(events[..n])[j];
        }
      }
    }
  }

  /** Replaying the encoding of one call, with the cursor at the start of the call's text, gives back the call. */
  lemma DispatchEncoded(e: Event, text: string, cursor: nat)
    requires !e.EndDocument?
    requires e.Characters? ==> cursor + |e.data| <= |text| && text[cursor..cursor + |e.data|] == e.data
    requires cursor <= |text|
    ensures cursor + TextLength(Encoded(e)) <= |text|
    ensures Dispatch(Encoded(e), text, cursor) == Some(e)
  {
    if !e.Characters? {
      DispatchRecorded(e, text, cursor);
    }
  }

  /**
   * Decoding: replaying the encoding of calls without `endDocument`, over
   * a shared string that starts with their text, gives back the calls.
   */
  lemma {:induction false} DecodeEncode(events: seq<Event>, rest: string)
    requires forall i :: 0 <= i < |events| ==> !events[i].EndDocument?
    ensures CharLength(Encode(events)) <= |CharacterData(events) + rest|
    ensures Transcript(Encode(events), CharacterData(events) + rest) == events
    decreases |events|
  {
    EncodeCharLength(events);
    if events != [] {
      var n := |events| - 1;
      var init, e := events[..n], events[n];
      assert events == init + [e];
      var piece := if e.Characters? then e.data else "";
      DecodeText(init, e, rest);
      DecodeEncode(init, piece + rest);
      EncodeCharLength(init);
      DispatchEncoded(e, CharacterData(events) + rest, |CharacterData(init)|);
      EncodeSnoc(init, e);
      TranscriptSnoc(Encode(init), Encoded(e), CharacterData(events) + rest);
    }
  }

  /** The shared string after one more call: its text follows the earlier text. */
  lemma DecodeText(init: seq<Event>, e: Event, rest: string)
    ensures var piece := if e.Characters? then e.data else "";
            var text := CharacterData(init + [e]) + rest;
            var c := |CharacterData(init)|;
            && text == CharacterData(init) + (piece + rest)
            && c + |piece| <= |text|
            && text[c..c + |piece|] == piece
  {
    var piece := if e.Characters? then e.data else "";
    CharacterDataSnoc(init, e);
    SplitText(CharacterData(init), piece, rest);
  }

  /** Regrouping a three-part string, and finding its middle part where it starts. */
  lemma SplitText(d: string, piece: string, rest: string)
    ensures (d + piece) + rest == d + (piece + rest)
    ensures (d + (piece + rest))[|d|..|d| + |piece|] == piece
  {
    assert (d + (piece + rest))[|d|..|d| + |piece|] == (piece + rest)[..|piece|];
  }

  /** Replaying one more transaction appends its call, made at the cursor the earlier ones leave. */
  lemma TranscriptSnoc(ts: seq<Transaction>, t: Transaction, text: string)
    requires CharLength(ts) + TextLength(t) <= |text|
    ensures CharLength(ts + [t]) <= |text|
    ensures Transcript(ts + [t], text) == Transcript(ts, text) + Calls(Dispatch(t, text, CharLength(ts)))
  {
    CharLengthAppend(ts, t);
    assert (ts + [t])[..|ts|] == ts;
  }

  lemma PlainPrefix(events: seq<Event>, k: nat)
    requires Plain(events) && k <= |events|
    ensures Plain(events[..k])
  {
    forall i | 0 <= i < k
      ensures events[..k][..i] == events[..i]
    {
    }
  }

  /** One more call extends a run by one `Handle`. */
  lemma HandleAllSnoc(s: HandlerState, events: seq<Event>, mems: seq<Alloc>, e: Event, mem: Alloc)
    requires |mems| == |events|
    ensures var r := HandleAll(s, events, mems);
            var h := Handle(r.state, e, mem);
            HandleAll(s, events + [e], mems + [mem]) == Run(h.state, r.results + [h.rv])
  {
    assert (events + [e])[..|events|] == events;
    assert (mems + [mem])[..|mems|] == mems;
  }

  /** The state a fresh handler is in after the plain call sequence `events`. */
  function AfterPlain(events: seq<Event>): HandlerState {
    HandlerState(StartTagOpen(events), Some(Log(Encode(events), CharacterData(events))))
  }

  lemma EncodeSnoc(init: seq<Event>, e: Event)
    ensures Encode(init + [e]) == Encode(init) + [Encoded(e)]
  {
    assert (init + [e])[..|init|] == init;
  }

  lemma CharacterDataSnoc(init: seq<Event>, e: Event)
    ensures CharacterData(init + [e]) == CharacterData(init) + (if e.Characters? then e.data else "")
  {
    assert (init + [e])[..|init|] == init;
  }

  lemma StartTagOpenSnoc(init: seq<Event>, e: Event)
    ensures StartTagOpen(init + [e]) ==
              if e.StartElement? || e.StartElementAtom? then true
              else if e.Characters? || e.Comment? || e.ProcessingInstruction? || e.EndElement? then false
              else StartTagOpen(init)
  {
    assert (init + [e])[..|init|] == init;
  }

  /** One call of a plain sequence appends its encoding and its text, and succeeds. */
  lemma RecordStep(init: seq<Event>, e: Event)
    requires Plain(init + [e])
    ensures Handle(AfterPlain(init), e, Unfailing) == Handled(AfterPlain(init + [e]), NS_OK)
  {
    var n := |init|;
    var log := Log(Encode(init), CharacterData(init));
    EncodeSnoc(init, e);
    CharacterDataSnoc(init, e);
    StartTagOpenSnoc(init, e);
    if e.Characters? {
      if init != [] {
        assert (init + [e])[n - 1] == init[n - 1];
        EncodeSnoc(init[..n - 1], init[n - 1]);
        assert init[..n - 1] + [init[n - 1]] == init;
      }
      CharactersNew(log, StartTagOpen(init), e.data, e.doe);
    } else {
      assert CharacterData(init) + "" == CharacterData(init);
      if e.IsAttribute() {
        assert (init + [e])[..n] == init;
      }
    }
  }

  /**
   * Recording: a plain call sequence issued to a fresh handler with every
   * allocation succeeding returns NS_OK for every call and leaves exactly
   * its encoding and its text in the buffer, with the flag telling whether
   * a start tag is still open.
   */
  lemma {:induction false} RecordPlain(events: seq<Event>, mems: seq<Alloc>)
    requires Plain(events) && |mems| == |events| && AllocationsSucceed(mems)
    ensures HandleAll(Fresh, events, mems).state == AfterPlain(events)
    ensures AllOk(HandleAll(Fresh, events, mems).results)
    decreases |events|
  {
    if events != [] {
      var n := |events| - 1;
      var init, e := events[..n], events[n];
      PlainPrefix(events, n);
      RecordPlain(init, mems[..n]);
      assert init + [e] == events && mems[..n] + [mems[n]] == mems;
      HandleAllSnoc(Fresh, init, mems[..n], e, mems[n]);
      RecordStep(init, e);
    }
  }

  /**
   * The encoding of calls without `endDocument` decodes back to them: its
   * character lengths add up to exactly the calls' text, and replaying it
   * against that text issues the same calls.
   */
  lemma ReplayEncoded(events: seq<Event>)
    requires forall i :: 0 <= i < |events| ==> !events[i].EndDocument?
    ensures CharLength(Encode(events)) == |CharacterData(events)|
    ensures NoEndDocument(Encode(events))
    ensures Transcript(Encode(events), CharacterData(events)) == events
  {
    EncodeCharLength(events);
    EncodeNoEndDocument(events);
    DecodeEncode(events, "");
    assert CharacterData(events) + "" == CharacterData(events);
  }

  /**
   * Flushing the encoding of a run to a handler that accepts every call
   * issues exactly the run's events and returns the last call's result.
   */
  lemma ReplayAccepted(events: seq<Event>, respond: Responder, base: nat, indeterminate: Indeterminate)
    requires forall i :: 0 <= i < |events| ==> !events[i].EndDocument?
    requires AllAccepted(events, respond, base)
    ensures CharLength(Encode(events)) == |CharacterData(events)|
    ensures Flush(Encode(events), CharacterData(events), respond, base, indeterminate).calls == events
    ensures Flush(Encode(events), CharacterData(events), respond, base, indeterminate).result ==
              if events == [] then NS_OK else respond(base + |events| - 1, events[|events| - 1])
  {
    ReplayEncoded(events);
    FlushAcceptedTranscript(Encode(events), CharacterData(events), events, respond, base, indeterminate);
  }

  /** `FlushAcceptedReplaysAll` phrased for any buffer whose transcript is `events`. */
  lemma FlushAcceptedTranscript(ts: seq<Transaction>, text: string, events: seq<Event>, respond: Responder,
                                base: nat, indeterminate: Indeterminate)
    requires CharLength(ts) <= |text| && NoEndDocument(ts) && Transcript(ts, text) == events
    requires AllAccepted(events, respond, base)
    ensures Flush(ts, text, respond, base, indeterminate).calls == events
    ensures Flush(ts, text, respond, base, indeterminate).result ==
              if events == [] then NS_OK else respond(base + |events| - 1, events[|events| - 1])
  {
    FlushAcceptedReplaysAll(ts, text, respond, base, indeterminate);
  }

  /**
   * The round trip: a plain call sequence leaves its encoding in the
   * buffer, and a handler that accepts every call receives the same
   * sequence back when the buffer is flushed to it.
   */
  lemma RoundTrip(events: seq<Event>, mems: seq<Alloc>, respond: Responder, base: nat, indeterminate: Indeterminate)
    requires Plain(events) && |mems| == |events| && AllocationsSucceed(mems)
    requires AllAccepted(events, respond, base)
    ensures HandleAll(Fresh, events, mems).state.buffer == Some(Log(Encode(events), CharacterData(events)))
    ensures CharLength(Encode(events)) == |CharacterData(events)|
    ensures Flush(Encode(events), CharacterData(events), respond, base, indeterminate).calls == events
  {
    RecordPlain(events, mems);
    ReplayAccepted(events, respond, base, indeterminate);
  }

  /**
   * The round trip under a handler that rejects a call: the flush issues
   * the calls up to and including the first one rejected, and returns that
   * rejection.
   */
  lemma RoundTripRejected(events: seq<Event>, mems: seq<Alloc>, respond: Responder, base: nat,
                          indeterminate: Indeterminate, n: nat)
    requires Plain(events) && |mems| == |events| && AllocationsSucceed(mems)
    requires FirstRejected(events, respond, base, n)
    ensures HandleAll(Fresh, events, mems).state.buffer == Some(Log(Encode(events), CharacterData(events)))
    ensures CharLength(Encode(events)) == |CharacterData(events)|
    ensures Flush(Encode(events), CharacterData(events), respond, base, indeterminate).calls == events[..n + 1]
    ensures Flush(Encode(events), CharacterData(events), respond, base, indeterminate).result == respond(base + n, events[n])
  {
    RecordPlain(events, mems);
    ReplayEncoded(events);
    FlushStopsAtFirstRejection(Encode(events), CharacterData(events), respond, base, indeterminate, n);
  }

  /** Whether a plain sequence ends in `characters` does not depend on its text. */
  lemma PlainLastCharacters(events: seq<Event>, x: string, y: string, doe: bool)
    requires Plain(events + [Characters(x, doe)])
    ensures Plain(events + [Characters(y, doe)])
  {
    var u, v := events + [Characters(x, doe)], events + [Characters(y, doe)];
    forall i | 0 <= i < |v|
      ensures v[..i] == u[..i]
      ensures i < |events| ==> v[i] == u[i]
    {
    }
  }

  /** The buffer after `characters(a)` lengthened by `b` is the buffer after `characters(a + b)`. */
  lemma MergedLog(events: seq<Event>, a: string, b: string, doe: bool)
    ensures var ts := Encode(events + [Characters(a, doe)]);
            && ts != [] && IsCharacterOfType(ts[|ts| - 1], doe)
            && HandlerState(false, Some(Log(ts[|ts| - 1 := ts[|ts| - 1].(length := ts[|ts| - 1].length + |b|)],
                                            CharacterData(events + [Characters(a, doe)]) + b))) ==
                 AfterPlain(events + [Characters(a + b, doe)])
  {
    EncodeSnoc(events, Characters(a, doe));
    EncodeSnoc(events, Characters(a + b, doe));
    CharacterDataSnoc(events, Characters(a, doe));
    CharacterDataSnoc(events, Characters(a + b, doe));
    StartTagOpenSnoc(events, Characters(a + b, doe));
    var ts := Encode(events) + [CharacterTransactionOf(doe, |a|)];
    assert ts[|ts| - 1 := CharacterTransactionOf(doe, |a|).(length := |a| + |b|)] ==
             Encode(events) + [CharacterTransactionOf(doe, |a + b|)];
    assert (CharacterData(events) + a) + b == CharacterData(events) + (a + b);
  }

  /**
   * What a fresh handler keeps of a call sequence without `endDocument`:
   * an attribute issued while no start tag is open is dropped, and a
   * `characters` call right after a kept one of the same escaping mode is
   * joined onto it.
   */
  function Normalize(events: seq<Event>): seq<Event>
    decreases |events|
  {
    if events == [] then []
    else
      var init := events[..|events| - 1];
      Keep(Normalize(init), StartTagOpen(init), events[|events| - 1])
  }

  /** One more call added to the calls kept so far; `open` tells whether a start tag is open. */
  function Keep(kept: seq<Event>, open: bool, e: Event): seq<Event> {
    if e.IsAttribute() && !open then kept
    else if e.Characters? && kept != [] && kept[|kept| - 1].Characters? && kept[|kept| - 1].doe == e.doe then
      kept[..|kept| - 1] + [Characters(kept[|kept| - 1].data + e.data, e.doe)]
    else kept + [e]
  }

  /** Dropping and joining calls does not change whether a start tag is open. */
  lemma {:induction false} NormalizeOpen(events: seq<Event>)
    ensures StartTagOpen(Normalize(events)) == StartTagOpen(events)
    decreases |events|
  {
    if events != [] {
      var n := |events| - 1;
      var init, e := events[..n], events[n];
      var kept := Normalize(init);
      NormalizeOpen(init);
      assert events == init + [e];
      StartTagOpenSnoc(init, e);
      if e.IsAttribute() && !StartTagOpen(init) {
      } else if e.Characters? && kept != [] && kept[|kept| - 1].Characters? && kept[|kept| - 1].doe == e.doe {
        StartTagOpenSnoc(kept[..|kept| - 1], Characters(kept[|kept| - 1].data + e.data, e.doe));
      } else {
        StartTagOpenSnoc(kept, e);
      }
    }
  }

  /** Joining calls keeps the text of the `characters` calls, in order. */
  lemma {:induction false} NormalizeText(events: seq<Event>)
    ensures CharacterData(Normalize(events)) == CharacterData(events)
    decreases |events|
  {
    if events != [] {
      var n := |events| - 1;
      var init, e := events[..n], events[n];
      var kept := Normalize(init);
      NormalizeText(init);
      assert events == init + [e];
      CharacterDataSnoc(init, e);
      if e.IsAttribute() && !StartTagOpen(init) {
        assert CharacterData(init) + "" == CharacterData(init);
      } else if e.Characters? && kept != [] && kept[|kept| - 1].Characters? && kept[|kept| - 1].doe == e.doe {
        var p, x := kept[..|kept| - 1], kept[|kept| - 1];
        assert kept == p + [x];
        CharacterDataSnoc(p, x);
        CharacterDataSnoc(p, Characters(x.data + e.data, e.doe));
        SplitText(CharacterData(p), x.data, e.data);
      } else {
        CharacterDataSnoc(kept, e);
      }
    }
  }

  /** A call may extend a plain sequence when it is neither dropped nor joined. */
  lemma PlainSnoc(kept: seq<Event>, e: Event)
    requires Plain(kept) && !e.EndDocument?
    requires e.IsAttribute() ==> StartTagOpen(kept)
    requires e.Characters? && kept != [] ==> !(kept[|kept| - 1].Characters? && kept[|kept| - 1].doe == e.doe)
    ensures Plain(kept + [e])
  {
    var u := kept + [e];
    forall i | 0 <= i <= |kept|
      ensures u[..i] == kept[..i]
    {
    }
  }

  /**
   * One call issued after the kept calls `kept` leaves the state recording
   * `Keep` of them, and returns NS_OK.
   */
  lemma KeepStep(kept: seq<Event>, e: Event)
    requires Plain(kept) && !e.EndDocument?
    ensures Plain(Keep(kept, StartTagOpen(kept), e))
    ensures Handle(AfterPlain(kept), e, Unfailing) == Handled(AfterPlain(Keep(kept, StartTagOpen(kept), e)), NS_OK)
  {
    if e.IsAttribute() && !StartTagOpen(kept) {
      AttributeDropped(AfterPlain(kept), e, Unfailing);
    } else if e.Characters? && kept != [] && kept[|kept| - 1].Characters? && kept[|kept| - 1].doe == e.doe {
      var p, x := kept[..|kept| - 1], kept[|kept| - 1].data;
      assert kept == p + [Characters(x, e.doe)];
      JoinStep(p, x, e.data, e.doe);
    } else {
      PlainSnoc(kept, e);
      RecordStep(kept, e);
    }
  }

  /** The joining case of `KeepStep`: `characters` after a kept one of the same mode. */
  lemma JoinStep(p: seq<Event>, x: string, data: string, doe: bool)
    requires Plain(p + [Characters(x, doe)])
    ensures Plain(p + [Characters(x + data, doe)])
    ensures Handle(AfterPlain(p + [Characters(x, doe)]), Characters(data, doe), Unfailing) ==
              Handled(AfterPlain(p + [Characters(x + data, doe)]), NS_OK)
  {
    PlainLastCharacters(p, x, x + data, doe);
    EncodeSnoc(p, Characters(x, doe));
    CharacterDataSnoc(p, Characters(x, doe));
    MergedLog(p, x, data, doe);
  }

  /**
   * Recording any call sequence without `endDocument`: with every
   * allocation succeeding, every call returns NS_OK and the buffer holds
   * exactly the encoding and the text of the calls `Normalize` keeps,
   * which form a plain sequence.
   */
  lemma {:induction false} RecordAny(events: seq<Event>, mems: seq<Alloc>)
    requires forall i :: 0 <= i < |events| ==> !events[i].EndDocument?
    requires |mems| == |events| && AllocationsSucceed(mems)
    ensures Plain(Normalize(events))
    ensures HandleAll(Fresh, events, mems).state == AfterPlain(Normalize(events))
    ensures AllOk(HandleAll(Fresh, events, mems).results)
    decreases |events|
  {
    if events == [] {
      assert Normalize(events) == [];
    } else {
      var n := |events| - 1;
      var init, e := events[..n], events[n];
      RecordAny(init, mems[..n]);
      assert init + [e] == events && mems[..n] + [mems[n]] == mems;
      NormalizeOpen(init);
      HandleAllSnoc(Fresh, init, mems[..n], e, mems[n]);
      KeepStep(Normalize(init), e);
    }
  }

  /**
   * The round trip at the level of the buffer: whatever calls without
   * `endDocument` were buffered, a handler that accepts every call
   * receives the kept calls when the buffer is flushed to it, and
   * buffering those calls again in a fresh handler records the same log.
   */
  lemma LogRoundTrip(events: seq<Event>, mems: seq<Alloc>, respond: Responder, base: nat,
                     indeterminate: Indeterminate, mems2: seq<Alloc>)
    requires forall i :: 0 <= i < |events| ==> !events[i].EndDocument?
    requires |mems| == |events| && AllocationsSucceed(mems)
    requires AllAccepted(Normalize(events), respond, base)
    requires |mems2| == |Normalize(events)| && AllocationsSucceed(mems2)
    ensures var kept := Normalize(events);
            && HandleAll(Fresh, events, mems).state.buffer == Some(Log(Encode(kept), CharacterData(events)))
            && CharLength(Encode(kept)) == |CharacterData(events)|
            && Flush(Encode(kept), CharacterData(events), respond, base, indeterminate).calls == kept
            && HandleAll(Fresh, kept, mems2).state.buffer == HandleAll(Fresh, events, mems).state.buffer
  {
    var kept := Normalize(events);
    RecordAny(events, mems);
    NormalizeText(events);
    assert forall i :: 0 <= i < |kept| ==> !kept[i].EndDocument?;
    ReplayAccepted(kept, respond, base, indeterminate);
    RecordPlain(kept, mems2);
  }

  /** A run of `characters` calls of one escaping mode is kept as one call with their joined text. */
  lemma {:induction false} CharactersRunJoined(run: seq<Event>, doe: bool)
    requires run != []
    requires forall i :: 0 <= i < |run| ==> run[i].Characters? && run[i].doe == doe
    ensures Normalize(run) == [Characters(CharacterData(run), doe)]
    decreases |run|
  {
    var n := |run| - 1;
    var init, e := run[..n], run[n];
    assert run == init + [e];
    CharacterDataSnoc(init, e);
    if init == [] {
      assert CharacterData(init) + e.data == e.data;
    } else {
      CharactersRunJoined(init, doe);
    }
  }

  /**
   * A run of `characters` calls of one escaping mode is buffered as one
   * character transaction spanning their whole text, and replayed as one
   * `characters` call with that text.
   */
  lemma CharactersRunReplayed(run: seq<Event>, doe: bool, mems: seq<Alloc>, respond: Responder, base: nat,
                              indeterminate: Indeterminate)
    requires run != []
    requires forall i :: 0 <= i < |run| ==> run[i].Characters? && run[i].doe == doe
    requires |mems| == |run| && AllocationsSucceed(mems)
    requires Succeeded(respond(base, Characters(CharacterData(run), doe)))
    ensures HandleAll(Fresh, run, mems).state.buffer ==
              Some(Log([CharacterTransactionOf(doe, |CharacterData(run)|)], CharacterData(run)))
    ensures Flush([CharacterTransactionOf(doe, |CharacterData(run)|)], CharacterData(run), respond, base, indeterminate).calls ==
              [Characters(CharacterData(run), doe)]
  {
    var joined := [Characters(CharacterData(run), doe)];
    RecordAny(run, mems);
    CharactersRunJoined(run, doe);
    EncodeSnoc([], joined[0]);
    assert [] + [joined[0]] == joined;
    CharacterDataSnoc([], joined[0]);
    assert "" + CharacterData(run) == CharacterData(run);
    ReplayAccepted(joined, respond, base, indeterminate);
  }

  /** Replay up to `k` looks only at the first `k` transactions. */
  lemma {:induction false} FlushedPrefix(ts: seq<Transaction>, us: seq<Transaction>, text: string,
                                         respond: Responder, base: nat, indeterminate: Indeterminate, k: nat)
    requires k <= |ts| <= |us| && ts == us[..|ts|]
    requires CharLength(ts) <= |text| && CharLength(us) <= |text|
    ensures Flushed(ts, text, respond, base, indeterminate, k) == Flushed(us, text, respond, base, indeterminate, k)
    decreases k
  {
    if k > 0 {
      FlushedPrefix(ts, us, text, respond, base, indeterminate, k - 1);
      assert ts[k - 1] == us[k - 1];
    }
  }

  /** `endDocument` after a plain call sequence is recorded as a bare end-document transaction. */
  lemma EndDocumentRecorded(events: seq<Event>, mems: seq<Alloc>, result: Status)
    requires Plain(events) && |mems| == |events| + 1 && AllocationsSucceed(mems)
    ensures HandleAll(Fresh, events + [EndDocument(result)], mems).state ==
              HandlerState(StartTagOpen(events), Some(Log(Encode(events) + [EndDocumentTransaction], CharacterData(events))))
    ensures AllOk(HandleAll(Fresh, events + [EndDocument(result)], mems).results)
  {
    var n := |events|;
    RecordPlain(events, mems[..n]);
    assert mems[..n] + [mems[n]] == mems;
    EndDocumentAfter(Fresh, events, mems[..n], result);
  }

  /** A successful `endDocument` at the end of any run appends a bare end-document transaction. */
  lemma EndDocumentAfter(s: HandlerState, events: seq<Event>, mems: seq<Alloc>, result: Status)
    requires |mems| == |events| && HandleAll(s, events, mems).state.buffer.Some?
    ensures var r := HandleAll(s, events, mems);
            var log := r.state.buffer.value;
            HandleAll(s, events + [EndDocument(result)], mems + [Unfailing]) ==
              Run(HandlerState(r.state.canAddAttribute, Some(Log(log.transactions + [EndDocumentTransaction], log.text))),
                  r.results + [NS_OK])
  {
    var r := HandleAll(s, events, mems);
    HandleAllSnoc(s, events, mems, EndDocument(result), Unfailing);
    CallRecorded(r.state, EndDocument(result), Unfailing);
    FlagTransitions(r.state, EndDocument(result), Unfailing);
  }

  /**
   * `endDocument` is recorded but not replayed: a handler that accepts
   * every call receives the calls before the end-document transaction and
   * nothing for it, and the flush returns whatever the uninitialised result
   * of that transaction holds.
   */
  lemma EndDocumentNotReplayed(events: seq<Event>, respond: Responder, base: nat, indeterminate: Indeterminate)
    requires forall i :: 0 <= i < |events| ==> !events[i].EndDocument?
    requires AllAccepted(events, respond, base)
    ensures CharLength(Encode(events) + [EndDocumentTransaction]) == |CharacterData(events)|
    ensures Flush(Encode(events) + [EndDocumentTransaction], CharacterData(events), respond, base, indeterminate) ==
              Progress(events, indeterminate(|events|), |CharacterData(events)|)
  {
    var ts, text := Encode(events), CharacterData(events);
    ReplayAccepted(events, respond, base, indeterminate);
    var n := |events|;
    assert Succeeded(Flush(ts, text, respond, base, indeterminate).result) by {
      if n > 0 {
        assert Succeeded(respond(base + (n - 1), events[n - 1]));
      }
    }
    assert ts[..|ts|] == ts;
    FlushThenEndDocument(ts, text, respond, base, indeterminate);
  }

  /** After a replay that succeeded, an end-document transaction adds no call and sets the result. */
  lemma FlushThenEndDocument(ts: seq<Transaction>, text: string, respond: Responder, base: nat,
                             indeterminate: Indeterminate)
    requires CharLength(ts) <= |text|
    requires Succeeded(Flush(ts, text, respond, base, indeterminate).result)
    ensures CharLength(ts + [EndDocumentTransaction]) == CharLength(ts)
    ensures var p := Flush(ts, text, respond, base, indeterminate);
            Flush(ts + [EndDocumentTransaction], text, respond, base, indeterminate) ==
              Progress(p.calls, indeterminate(|ts|), p.cursor)
  {
    var us := ts + [EndDocumentTransaction];
    var p := Flush(ts, text, respond, base, indeterminate);
    assert CharLength(us) == CharLength(ts) by {
      CharLengthAppend(ts, EndDocumentTransaction);
    }
    assert Flushed(us, text, respond, base, indeterminate, |ts|) == p by {
      assert us[..|ts|] == ts;
      FlushedPrefix(ts, us, text, respond, base, indeterminate, |ts|);
    }
    FlushedStep(us, text, respond, base, indeterminate, |ts|);
    assert p.calls + Calls(Dispatch(EndDocumentTransaction, text, p.cursor)) == p.calls;
  }
}
