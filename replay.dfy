/**
 * What replaying a result buffer (`flushToHandler`, `flushTransaction` in
 * txBufferingHandler.cpp) issues to the real output handler, as functions of
 * the recorded transactions, the shared string and the handler's answers.
 */
module Replay {
  import opened Xpcom
  import opened Transactions

  /** The real handler's answer to its `n`-th call (counted from its creation). */
  type Responder = (nat, Event) -> Status

  /**
   * `flushTransaction` has no case for an end-document transaction: it calls
   * nothing and returns whatever its uninitialised result variable holds. That
   * value is not determined by the program; replay of the `i`-th transaction
   * sees `indeterminate(i)` there.
   */
  type Indeterminate = nat -> Status

  /**
   * The call `flushTransaction` makes for `t` when the replay cursor stands at
   * `cursor`: the stored payload, or for a character transaction the next
   * `length` characters of the shared string with the transaction's own
   * escaping mode. None for an end-document transaction.
   */
  function Dispatch(t: Transaction, text: string, cursor: nat): (call: Option<Event>)
    requires cursor + TextLength(t) <= |text|
    ensures call.None? <==> t.EndDocumentTransaction?
  {
    match t
    case AttributeAtomTransaction(p, l, ll, ns, v) => Some(AttributeAtom(p, l, ll, ns, v))
    case AttributeTransaction(p, l, ns, v) => Some(Attribute(p, l, ns, v))
    case CharacterTransaction(n) => Some(Characters(text[cursor..cursor + n], false))
    case CharacterNoOETransaction(n) => Some(Characters(text[cursor..cursor + n], true))
    case CommentTransaction(v) => Some(Comment(v))
    case EndDocumentTransaction => None
    case EndElementTransaction => Some(EndElement)
    case PITransaction(tg, d) => Some(ProcessingInstruction(tg, d))
    case StartDocumentTransaction => Some(StartDocument)
    case StartElementAtomTransaction(p, l, ll, ns) => Some(StartElementAtom(p, l, ll, ns))
    case StartElementTransaction(p, l, ns) => Some(StartElement(p, l, ns))
  }

  function Calls(call: Option<Event>): (s: seq<Event>)
    ensures |s| <= 1
  {
    if call.None? then [] else [call.value]
  }

  /** Replaying a non-character event's own transaction gives back that event. */
  lemma DispatchRecorded(e: Event, text: string, cursor: nat)
    requires !e.Characters? && !e.EndDocument? && cursor <= |text|
    ensures Dispatch(Recorded(e), text, cursor) == Some(e)
  {
  }

  /**
   * The state of a replay between two transactions: the calls issued so far,
   * the result of the last one (`Holder::mResult`) and the cursor into the
   * shared string (`Holder::mIter`, as an offset).
   */
  datatype Progress = Progress(calls: seq<Event>, result: Status, cursor: nat)

  /** One `flushTransaction` for the `i`-th transaction `t`; `base` is the handler's call count before replay. */
  function FlushStep(p: Progress, t: Transaction, i: nat, text: string, respond: Responder, base: nat,
                     indeterminate: Indeterminate): Progress
    requires p.cursor + TextLength(t) <= |text|
  {
    var call := Dispatch(t, text, p.cursor);
    var rv := if call.None? then indeterminate(i) else respond(base + |p.calls|, call.value);
    Progress(p.calls + Calls(call), rv, p.cursor + TextLength(t))
  }

  /**
   * The replay after the loop of `flushToHandler` has looked at the first `k`
   * transactions: it starts with no calls, result NS_OK and the cursor at the
   * start of the shared string, and once a result fails it stays as it is.
   */
  function Flushed(ts: seq<Transaction>, text: string, respond: Responder, base: nat,
                   indeterminate: Indeterminate, k: nat): (p: Progress)
    requires k <= |ts| && CharLength(ts) <= |text|
    // the cursor has moved past exactly the text of the transactions replayed so far
    ensures p.cursor <= CharLength(ts[..k])
    ensures Succeeded(p.result) ==> p.cursor == CharLength(ts[..k])
    // every call but the last was accepted, and the last one too unless replay failed
    ensures forall j :: 0 <= j < |p.calls| - 1 ==> Succeeded(respond(base + j, p.calls[j]))
    ensures Succeeded(p.result) ==> forall j :: 0 <= j < |p.calls| ==> Succeeded(respond(base + j, p.calls[j]))
    decreases k
  {
    if k == 0 then Progress([], NS_OK, 0)
    else
      var p := Flushed(ts, text, respond, base, indeterminate, k - 1);
      if !Succeeded(p.result) then
        CharLengthPrefix(ts[..k], k - 1);
        assert ts[..k][..k - 1] == ts[..k - 1];
        p
      else
        CharLengthPrefix(ts, k);
        assert ts[..k][..k - 1] == ts[..k - 1];
        FlushStep(p, ts[k - 1], k - 1, text, respond, base, indeterminate)
  }

  /** While no call has failed, replaying one more transaction is one more `FlushStep`. */
  lemma FlushedStep(ts: seq<Transaction>, text: string, respond: Responder, base: nat,
                    indeterminate: Indeterminate, k: nat)
    requires k < |ts| && CharLength(ts) <= |text|
    requires Succeeded(Flushed(ts, text, respond, base, indeterminate, k).result)
    ensures Flushed(ts, text, respond, base, indeterminate, k).cursor + TextLength(ts[k]) <= |text|
    ensures Flushed(ts, text, respond, base, indeterminate, k + 1) ==
              FlushStep(Flushed(ts, text, respond, base, indeterminate, k), ts[k], k, text, respond, base, indeterminate)
  {
    CharLengthPrefix(ts, k + 1);
    assert ts[..k + 1][..k] == ts[..k];
  }

  /** The whole of `flushToHandler`. */
  function Flush(ts: seq<Transaction>, text: string, respond: Responder, base: nat,
                 indeterminate: Indeterminate): Progress
    requires CharLength(ts) <= |text|
  {
    Flushed(ts, text, respond, base, indeterminate, |ts|)
  }

  /** An empty buffer replays to nothing and returns NS_OK. */
  lemma FlushEmpty(text: string, respond: Responder, base: nat, indeterminate: Indeterminate)
    ensures Flush([], text, respond, base, indeterminate) == Progress([], NS_OK, 0)
  {
  }

  /** Once a call has failed, no later transaction is dispatched. */
  lemma {:induction false} FlushStopsAtFailure(ts: seq<Transaction>, text: string, respond: Responder,
                                               base: nat, indeterminate: Indeterminate, k: nat, m: nat)
    requires k <= m <= |ts| && CharLength(ts) <= |text|
    requires !Succeeded(Flushed(ts, text, respond, base, indeterminate, k).result)
    ensures Flushed(ts, text, respond, base, indeterminate, m) == Flushed(ts, text, respond, base, indeterminate, k)
    decreases m
  {
    if m > k {
      FlushStopsAtFailure(ts, text, respond, base, indeterminate, k, m - 1);
    }
  }

  /**
   * One iteration of the `flushToHandler` loop: from the state after `i`
   * successful transactions, the next one is a single `FlushStep`, and when
   * that step fails it is where the whole replay ends.
   */
  lemma FlushAdvance(ts: seq<Transaction>, text: string, respond: Responder, base: nat,
                     indeterminate: Indeterminate, i: nat, calls: seq<Event>, result: Status, cursor: nat)
    requires i < |ts| && CharLength(ts) <= |text|
    requires Flushed(ts, text, respond, base, indeterminate, i) == Progress(calls, result, cursor)
    requires Succeeded(result)
    ensures cursor + TextLength(ts[i]) <= |text|
    ensures Flushed(ts, text, respond, base, indeterminate, i + 1) ==
              Progress(calls + Calls(Dispatch(ts[i], text, cursor)),
                       if ts[i].EndDocumentTransaction? then indeterminate(i)
                       else respond(base + |calls|, Dispatch(ts[i], text, cursor).value),
                       cursor + TextLength(ts[i]))
    ensures !Succeeded(Flushed(ts, text, respond, base, indeterminate, i + 1).result) ==>
              Flush(ts, text, respond, base, indeterminate) == Flushed(ts, text, respond, base, indeterminate, i + 1)
  {
    FlushedStep(ts, text, respond, base, indeterminate, i);
    if !Succeeded(Flushed(ts, text, respond, base, indeterminate, i + 1).result) {
      FlushStopsAtFailure(ts, text, respond, base, indeterminate, i + 1, |ts|);
    }
  }

  /**
   * The calls replay issues when the handler accepts everything: the
   * transactions in stored order, each character transaction given the slice
   * of the shared string that starts after the text of all earlier character
   * transactions.
   */
  function Transcript(ts: seq<Transaction>, text: string): seq<Event>
    requires CharLength(ts) <= |text|
    decreases |ts|
  {
    if ts == [] then []
    else
      var init := ts[..|ts| - 1];
      Transcript(init, text) + Calls(Dispatch(ts[|ts| - 1], text, CharLength(init)))
  }

  /**
   * Replay issues the transcript in order: what it has issued is always a
   * prefix of the transcript, and all of it when no call failed.
   */
  lemma {:induction false} FlushedFollowsTranscript(ts: seq<Transaction>, text: string, respond: Responder,
                                                    base: nat, indeterminate: Indeterminate, k: nat)
    requires k <= |ts| && CharLength(ts) <= |text|
    ensures CharLength(ts[..k]) <= |text|
    ensures Flushed(ts, text, respond, base, indeterminate, k).calls <= Transcript(ts[..k], text)
    ensures Succeeded(Flushed(ts, text, respond, base, indeterminate, k).result) ==>
              Flushed(ts, text, respond, base, indeterminate, k).calls == Transcript(ts[..k], text)
    decreases k
  {
    CharLengthPrefix(ts, k);
    if k > 0 {
      FlushedFollowsTranscript(ts, text, respond, base, indeterminate, k - 1);
      assert ts[..k][..k - 1] == ts[..k - 1];
    }
  }

  lemma FlushFollowsTranscript(ts: seq<Transaction>, text: string, respond: Responder,
                               base: nat, indeterminate: Indeterminate)
    requires CharLength(ts) <= |text|
    ensures Flush(ts, text, respond, base, indeterminate).calls <= Transcript(ts, text)
    ensures Succeeded(Flush(ts, text, respond, base, indeterminate).result) ==>
              Flush(ts, text, respond, base, indeterminate).calls == Transcript(ts, text)
  {
    FlushedFollowsTranscript(ts, text, respond, base, indeterminate, |ts|);
    assert ts[..|ts|] == ts;
  }

  /** The `k`-th character transaction is replayed from the sum of the earlier lengths on, with its own mode. */
  lemma FlushedCharacterSlice(ts: seq<Transaction>, text: string, respond: Responder, base: nat,
                              indeterminate: Indeterminate, k: nat)
    requires k < |ts| && CharLength(ts) <= |text| && ts[k].IsCharacter()
    requires Succeeded(Flushed(ts, text, respond, base, indeterminate, k).result)
    ensures CharLength(ts[..k]) + ts[k].length <= |text|
    ensures Flushed(ts, text, respond, base, indeterminate, k + 1).calls ==
              Flushed(ts, text, respond, base, indeterminate, k).calls +
              [Characters(text[CharLength(ts[..k])..CharLength(ts[..k]) + ts[k].length], ts[k].CharacterNoOETransaction?)]
  {
    CharLengthPrefix(ts, k + 1);
    assert ts[..k + 1][..k] == ts[..k];
  }

  predicate NoEndDocument(ts: seq<Transaction>) {
    forall j :: 0 <= j < |ts| ==> !ts[j].EndDocumentTransaction?
  }

  lemma {:induction false} TranscriptLength(ts: seq<Transaction>, text: string)
    requires CharLength(ts) <= |text| && NoEndDocument(ts)
    ensures |Transcript(ts, text)| == |ts|
    decreases |ts|
  {
    if ts != [] {
      TranscriptLength(ts[..|ts| - 1], text);
    }
  }

  /** The result of `p` is the answer to its last call, or NS_OK when it made none. */
  predicate AnswersLastCall(p: Progress, respond: Responder, base: nat) {
    p.result == if p.calls == [] then NS_OK else respond(base + |p.calls| - 1, p.calls[|p.calls| - 1])
  }

  /**
   * Without end-document transactions the result of replay is the answer to
   * its last call, or NS_OK when it made none, and a replay that succeeded
   * made one call per transaction.
   */
  lemma {:induction false} FlushedResult(ts: seq<Transaction>, text: string, respond: Responder, base: nat,
                                         indeterminate: Indeterminate, k: nat)
    requires k <= |ts| && CharLength(ts) <= |text| && NoEndDocument(ts)
    ensures AnswersLastCall(Flushed(ts, text, respond, base, indeterminate, k), respond, base)
    ensures Succeeded(Flushed(ts, text, respond, base, indeterminate, k).result) ==>
              |Flushed(ts, text, respond, base, indeterminate, k).calls| == k
    decreases k
  {
    if k > 0 {
      FlushedResult(ts, text, respond, base, indeterminate, k - 1);
    }
  }

  /** The handler accepts the calls of `calls` issued from its `base`-th call on. */
  predicate AllAccepted(calls: seq<Event>, respond: Responder, base: nat) {
    forall j :: 0 <= j < |calls| ==> Succeeded(respond(base + j, calls[j]))
  }

  /** The first call of `calls` the handler rejects is the `n`-th. */
  predicate FirstRejected(calls: seq<Event>, respond: Responder, base: nat, n: nat) {
    && n < |calls|
    && !Succeeded(respond(base + n, calls[n]))
    && AllAccepted(calls[..n], respond, base)
  }

  /**
   * First-failure stop: when the handler first rejects the `n`-th call of the
   * transcript, replay makes exactly the calls up to and including that one
   * and returns the rejection.
   */
  lemma FlushStopsAtFirstRejection(ts: seq<Transaction>, text: string, respond: Responder, base: nat,
                                   indeterminate: Indeterminate, n: nat)
    requires CharLength(ts) <= |text| && NoEndDocument(ts)
    requires FirstRejected(Transcript(ts, text), respond, base, n)
    ensures Flush(ts, text, respond, base, indeterminate).calls == Transcript(ts, text)[..n + 1]
    ensures Flush(ts, text, respond, base, indeterminate).result == respond(base + n, Transcript(ts, text)[n])
  {
    var p := Flush(ts, text, respond, base, indeterminate);
    var t := Transcript(ts, text);
    assert p.calls <= t && (Succeeded(p.result) ==> p.calls == t) by {
      FlushFollowsTranscript(ts, text, respond, base, indeterminate);
    }
    assert AnswersLastCall(p, respond, base) by {
      FlushedResult(ts, text, respond, base, indeterminate, |ts|);
    }
    RejectedPrefix(p, t, respond, base, n);
  }

  /**
   * The calls of a replay that issues a prefix of `t`, whose calls were all
   * accepted but its last, and whose result is the answer to its last call,
   * end at the first rejection in `t`.
   */
  lemma RejectedPrefix(p: Progress, t: seq<Event>, respond: Responder, base: nat, n: nat)
    requires p.calls <= t
    requires FirstRejected(t, respond, base, n)
    requires AnswersLastCall(p, respond, base)
    requires forall j :: 0 <= j < |p.calls| - 1 ==> Succeeded(respond(base + j, p.calls[j]))
    requires Succeeded(p.result) ==> p.calls == t && AllAccepted(p.calls, respond, base)
    ensures p.calls == t[..n + 1] && p.result == respond(base + n, t[n])
  {
    if Succeeded(p.result) {
      assert false;
    }
    assert p.calls[|p.calls| - 1] == t[|p.calls| - 1];
  }

  /**
   * When the handler accepts every call, replay makes all of them and returns
   * the answer to the last one, or NS_OK for an empty buffer.
   */
  lemma FlushAcceptedReplaysAll(ts: seq<Transaction>, text: string, respond: Responder, base: nat,
                                indeterminate: Indeterminate)
    requires CharLength(ts) <= |text| && NoEndDocument(ts)
    requires AllAccepted(Transcript(ts, text), respond, base)
    ensures |Transcript(ts, text)| == |ts|
    ensures Flush(ts, text, respond, base, indeterminate).calls == Transcript(ts, text)
    ensures Flush(ts, text, respond, base, indeterminate).result ==
              if ts == [] then NS_OK else respond(base + |ts| - 1, Transcript(ts, text)[|ts| - 1])
  {
    FlushFollowsTranscript(ts, text, respond, base, indeterminate);
    FlushedResult(ts, text, respond, base, indeterminate, |ts|);
    TranscriptLength(ts, text);
  }

  /** The text of the `characters` calls among `calls`, in order. */
  function CharacterData(calls: seq<Event>): string
    decreases |calls|
  {
    if calls == [] then ""
    else
      var last := calls[|calls| - 1];
      CharacterData(calls[..|calls| - 1]) + (if last.Characters? then last.data else "")
  }

  lemma {:induction false} CharacterDataAppend(a: seq<Event>, b: seq<Event>)
    ensures CharacterData(a + b) == CharacterData(a) + CharacterData(b)
    decreases |b|
  {
    if b == [] {
      assert a + b == a;
    } else {
      var n := |b| - 1;
      assert (a + b)[..|a + b| - 1] == a + b[..n];
      assert (a + b)[|a + b| - 1] == b[n];
      CharacterDataAppend(a, b[..n]);
    }
  }

  /**
   * The slices handed out by replay, joined together, are the shared string
   * up to the summed transaction lengths.
   */
  lemma {:induction false} TranscriptText(ts: seq<Transaction>, text: string)
    requires CharLength(ts) <= |text|
    ensures CharacterData(Transcript(ts, text)) == text[..CharLength(ts)]
    decreases |ts|
  {
    if ts != [] {
      var init := ts[..|ts| - 1];
      var t := ts[|ts| - 1];
      var c := CharLength(init);
      var calls := Calls(Dispatch(t, text, c));
      calc {
        CharacterData(Transcript(ts, text));
        CharacterData(Transcript(init, text) + calls);
        { CharacterDataAppend(Transcript(init, text), calls); }
        CharacterData(Transcript(init, text)) + CharacterData(calls);
        { TranscriptText(init, text); DispatchText(t, text, c); }
        text[..c] + text[c..c + TextLength(t)];
        text[..c + TextLength(t)];
      }
    }
  }

  /** Replaying one transaction hands out exactly the text its length covers. */
  lemma DispatchText(t: Transaction, text: string, cursor: nat)
    requires cursor + TextLength(t) <= |text|
    ensures CharacterData(Calls(Dispatch(t, text, cursor))) == text[cursor..cursor + TextLength(t)]
  {
    var call := Dispatch(t, text, cursor);
    if call.Some? {
      assert Calls(call)[..0] == [];
    }
  }

  /**
   * When the lengths of the character transactions add up to the length of
   * the shared string, a complete replay hands out the whole string.
   */
  lemma ReplayedTextIsSharedString(ts: seq<Transaction>, text: string, respond: Responder, base: nat,
                                   indeterminate: Indeterminate)
    requires CharLength(ts) == |text|
    requires Succeeded(Flush(ts, text, respond, base, indeterminate).result)
    ensures CharacterData(Flush(ts, text, respond, base, indeterminate).calls) == text
  {
    FlushFollowsTranscript(ts, text, respond, base, indeterminate);
    TranscriptText(ts, text);
    assert text[..|text|] == text;
  }
}
