/**
 * What one call of each `txBufferingHandler` event method does to the
 * handler's state (the `mCanAddAttribute` flag and the result buffer), as a
 * function; and what runs of such calls do.
 */
module HandlerModel {
  import opened Xpcom
  import opened Transactions

  /** The contents of a `txResultBuffer`: `mTransactions` and `mStringValue`. */
  datatype Log = Log(transactions: seq<Transaction>, text: string)

  /** `mCanAddAttribute`, and the result buffer (None when `mBuffer` is null). */
  datatype HandlerState = HandlerState(canAddAttribute: bool, buffer: Option<Log>)

  /**
   * Whether the allocations a buffering call may make succeed: the new
   * transaction object, and the growth of the transaction array.
   */
  datatype Alloc = Alloc(newSucceeds: bool, appendSucceeds: bool)

  const Unfailing := Alloc(true, true)

  datatype Handled = Handled(state: HandlerState, rv: Status)

  /** The buffer never holds less text than its character transactions claim. */
  predicate ValidLog(log: Log) {
    CharLength(log.transactions) <= |log.text|
  }

  /** The characters of the shared string that no character transaction claims. */
  function Unclaimed(log: Log): int {
    |log.text| - CharLength(log.transactions)
  }

  /** The tail shared by the methods: allocate `t`, then `addTransaction` it. */
  function Append(canAddAttribute: bool, log: Log, t: Transaction, mem: Alloc): Handled {
    if mem.newSucceeds && mem.appendSucceeds then
      Handled(HandlerState(canAddAttribute, Some(log.(transactions := log.transactions + [t]))), NS_OK)
    else
      Handled(HandlerState(canAddAttribute, Some(log)), NS_ERROR_OUT_OF_MEMORY)
  }

  /**
   * `characters`: clear the flag; extend the last transaction when it is a
   * character transaction of the same escaping mode, or else allocate a new
   * one, append the text to the shared string and add the transaction.
   */
  function HandleCharacters(log: Log, data: string, doe: bool, mem: Alloc): Handled {
    var ts := log.transactions;
    if ts != [] && IsCharacterOfType(ts[|ts| - 1], doe) then
      var last := ts[|ts| - 1];
      var merged := ts[|ts| - 1 := last.(length := last.length + |data|)];
      Handled(HandlerState(false, Some(Log(merged, log.text + data))), NS_OK)
    else if !mem.newSucceeds then
      Handled(HandlerState(false, Some(log)), NS_ERROR_OUT_OF_MEMORY)
    else
      Append(false, Log(ts, log.text + data), CharacterTransactionOf(doe, |data|), mem)
  }

  /** One call `e` of a buffering method, in state `s`, with allocation outcomes `mem`. */
  function Handle(s: HandlerState, e: Event, mem: Alloc): Handled {
    match s.buffer
    case None => Handled(s, NS_ERROR_OUT_OF_MEMORY)
    case Some(log) =>
      match e
      case Attribute(_, _, _, _) | AttributeAtom(_, _, _, _, _) =>
        if !s.canAddAttribute then Handled(s, NS_OK) else Append(true, log, Recorded(e), mem)
      case Characters(data, doe) => HandleCharacters(log, data, doe, mem)
      case StartElement(_, _, _) | StartElementAtom(_, _, _, _) => Append(true, log, Recorded(e), mem)
      case StartDocument | EndDocument(_) => Append(s.canAddAttribute, log, Recorded(e), mem)
      case Comment(_) | ProcessingInstruction(_, _) | EndElement => Append(false, log, Recorded(e), mem)
  }

  /** Every method fails with NS_ERROR_OUT_OF_MEMORY and changes nothing when `mBuffer` is null. */
  lemma NoBufferNoChange(s: HandlerState, e: Event, mem: Alloc)
    requires s.buffer.None?
    ensures Handle(s, e, mem) == Handled(s, NS_ERROR_OUT_OF_MEMORY)
  {
  }

  /**
   * The flag: both `startElement`s set it; `characters`, `comment`,
   * `processingInstruction` and `endElement` clear it; `startDocument`,
   * `endDocument` and both `attribute`s leave it alone. This holds whatever
   * the allocations do.
   */
  lemma FlagTransitions(s: HandlerState, e: Event, mem: Alloc)
    requires s.buffer.Some?
    ensures Handle(s, e, mem).state.canAddAttribute ==
              if e.StartElement? || e.StartElementAtom? then true
              else if e.Characters? || e.Comment? || e.ProcessingInstruction? || e.EndElement? then false
              else s.canAddAttribute
    ensures Handle(s, e, mem).state.buffer.Some?
  {
  }

  /** An attribute outside a start tag is dropped: NS_OK, and nothing changes. */
  lemma AttributeDropped(s: HandlerState, e: Event, mem: Alloc)
    requires s.buffer.Some? && !s.canAddAttribute && e.IsAttribute()
    ensures Handle(s, e, mem) == Handled(s, NS_OK)
  {
  }

  /** An attribute inside a start tag appends exactly its own transaction, when the allocations succeed. */
  lemma AttributeRecorded(s: HandlerState, e: Event, mem: Alloc)
    requires s.buffer.Some? && s.canAddAttribute && e.IsAttribute()
    ensures var h := Handle(s, e, mem);
            && h.state.canAddAttribute
            && h.state.buffer.Some? && h.state.buffer.value.text == s.buffer.value.text
            && (mem == Unfailing ==>
                  h.rv == NS_OK && h.state.buffer.value.transactions == s.buffer.value.transactions + [Recorded(e)])
            && (mem != Unfailing ==>
                  h.rv == NS_ERROR_OUT_OF_MEMORY && h.state.buffer == s.buffer)
  {
  }

  /**
   * Every other method (`comment`, `processingInstruction`, `endElement`,
   * `startDocument`, `endDocument` and both `startElement`s) appends exactly
   * its own transaction and returns NS_OK when both allocations succeed;
   * otherwise it returns NS_ERROR_OUT_OF_MEMORY and the transactions and the
   * text are as they were.
   */
  lemma CallRecorded(s: HandlerState, e: Event, mem: Alloc)
    requires s.buffer.Some? && !e.Characters? && !e.IsAttribute()
    ensures var h := Handle(s, e, mem);
            var log := s.buffer.value;
            && h.state.buffer ==
                 (if mem == Unfailing then Some(Log(log.transactions + [Recorded(e)], log.text)) else s.buffer)
            && h.rv == (if mem == Unfailing then NS_OK else NS_ERROR_OUT_OF_MEMORY)
  {
  }

  /**
   * Merge case: when the last transaction is a character transaction of the
   * same mode, `characters` adds no transaction, lengthens that one by the
   * length of the text, appends the text and returns NS_OK.
   */
  lemma CharactersMerge(log: Log, flag: bool, data: string, doe: bool, mem: Alloc)
    requires log.transactions != [] && IsCharacterOfType(log.transactions[|log.transactions| - 1], doe)
    ensures var h := Handle(HandlerState(flag, Some(log)), Characters(data, doe), mem);
            var n := |log.transactions| - 1;
            && h.rv == NS_OK && !h.state.canAddAttribute && h.state.buffer.Some?
            && |h.state.buffer.value.transactions| == n + 1
            && h.state.buffer.value.transactions[..n] == log.transactions[..n]
            && IsCharacterOfType(h.state.buffer.value.transactions[n], doe)
            && h.state.buffer.value.transactions[n].length == log.transactions[n].length + |data|
            && h.state.buffer.value.text == log.text + data
  {
  }

  /**
   * Non-merge case: with an empty list or a last transaction of another
   * type, a successful `characters` appends one new character transaction of
   * the text's length and mode, and leaves every earlier one alone.
   */
  lemma CharactersNew(log: Log, flag: bool, data: string, doe: bool)
    requires log.transactions == [] || !IsCharacterOfType(log.transactions[|log.transactions| - 1], doe)
    ensures Handle(HandlerState(flag, Some(log)), Characters(data, doe), Unfailing) ==
              Handled(HandlerState(false, Some(Log(log.transactions + [CharacterTransactionOf(doe, |data|)], log.text + data))),
                      NS_OK)
  {
  }

  /**
   * When `new txCharacterTransaction` returns null, `characters` returns
   * NS_ERROR_OUT_OF_MEMORY before touching the buffer; only the flag is
   * cleared.
   */
  lemma CharactersNewFails(log: Log, flag: bool, data: string, doe: bool, appendSucceeds: bool)
    requires log.transactions == [] || !IsCharacterOfType(log.transactions[|log.transactions| - 1], doe)
    ensures Handle(HandlerState(flag, Some(log)), Characters(data, doe), Alloc(false, appendSucceeds)) ==
              Handled(HandlerState(false, Some(log)), NS_ERROR_OUT_OF_MEMORY)
  {
  }

  /**
   * Two successive `characters` calls of the same escaping mode, in any
   * state with a buffer, leave the state that one call with the joined text
   * leaves: the second call always merges into the transaction the first
   * one left at the end, whatever its own allocations do.
   */
  lemma CharactersJoin(s: HandlerState, a: string, b: string, doe: bool, mem: Alloc)
    requires s.buffer.Some?
    ensures var first := Handle(s, Characters(a, doe), Unfailing);
            var joined := Handle(s, Characters(a + b, doe), Unfailing);
            && first.rv == NS_OK && joined.rv == NS_OK
            && Handle(first.state, Characters(b, doe), mem) == Handled(joined.state, NS_OK)
  {
    var log := s.buffer.value;
    var ts := log.transactions;
    assert (log.text + a) + b == log.text + (a + b);
    if ts != [] && IsCharacterOfType(ts[|ts| - 1], doe) {
      var n := |ts| - 1;
      var once := ts[n := ts[n].(length := ts[n].length + |a|)];
      assert once[n := once[n].(length := once[n].length + |b|)] == ts[n := ts[n].(length := ts[n].length + |a + b|)];
    } else {
      var once := ts + [CharacterTransactionOf(doe, |a|)];
      assert once[|ts| := once[|ts|].(length := once[|ts|].length + |b|)] == ts + [CharacterTransactionOf(doe, |a + b|)];
    }
  }

  /**
   * When the transaction array cannot grow, `characters` has already
   * appended its text to the shared string: the result is
   * NS_ERROR_OUT_OF_MEMORY but the buffer has changed.
   */
  lemma CharactersAppendFailure(log: Log, flag: bool, data: string, doe: bool)
    requires log.transactions == [] || !IsCharacterOfType(log.transactions[|log.transactions| - 1], doe)
    ensures Handle(HandlerState(flag, Some(log)), Characters(data, doe), Alloc(true, false)) ==
              Handled(HandlerState(false, Some(Log(log.transactions, log.text + data))), NS_ERROR_OUT_OF_MEMORY)
  {
  }

  /** Only `characters` touches the shared string. */
  lemma TextOnlyFromCharacters(s: HandlerState, e: Event, mem: Alloc)
    requires s.buffer.Some? && !e.Characters?
    ensures Handle(s, e, mem).state.buffer.Some?
    ensures Handle(s, e, mem).state.buffer.value.text == s.buffer.value.text
  {
  }

  /** Whether call `e` is a `characters` that appended its text and then failed to add its transaction. */
  predicate StrandsText(s: HandlerState, e: Event, mem: Alloc)
    requires s.buffer.Some?
  {
    var ts := s.buffer.value.transactions;
    && e.Characters?
    && !(ts != [] && IsCharacterOfType(ts[|ts| - 1], e.doe))
    && mem.newSucceeds && !mem.appendSucceeds
  }

  /**
   * The length bookkeeping of one call: the unclaimed text of the buffer
   * stays the same, except after a `characters` whose transaction could not
   * be added, which leaves its text unclaimed. A call that succeeds
   * therefore keeps the lengths summing to the shared string's length.
   */
  lemma HandleUnclaimed(s: HandlerState, e: Event, mem: Alloc)
    requires s.buffer.Some? && ValidLog(s.buffer.value)
    ensures var h := Handle(s, e, mem);
            && h.state.buffer.Some? && ValidLog(h.state.buffer.value)
            && Unclaimed(h.state.buffer.value) ==
                 Unclaimed(s.buffer.value) + (if StrandsText(s, e, mem) then |e.data| else 0)
            && (Succeeded(h.rv) ==> !StrandsText(s, e, mem))
  {
    var log := s.buffer.value;
    if e.Characters? {
      CharactersUnclaimed(log, e.data, e.doe, mem);
    } else if !e.IsAttribute() || s.canAddAttribute {
      AppendUnclaimed(Handle(s, e, mem).state.canAddAttribute, log, Recorded(e), mem);
    }
  }

  lemma AppendUnclaimed(flag: bool, log: Log, t: Transaction, mem: Alloc)
    requires ValidLog(log) && !t.IsCharacter()
    ensures var h := Append(flag, log, t, mem);
            h.state.buffer.Some? && ValidLog(h.state.buffer.value) && Unclaimed(h.state.buffer.value) == Unclaimed(log)
  {
    CharLengthAppend(log.transactions, t);
  }

  lemma CharactersUnclaimed(log: Log, data: string, doe: bool, mem: Alloc)
    requires ValidLog(log)
    ensures var h := HandleCharacters(log, data, doe, mem);
            var ts := log.transactions;
            var strands := !(ts != [] && IsCharacterOfType(ts[|ts| - 1], doe)) && mem.newSucceeds && !mem.appendSucceeds;
            && h.state.buffer.Some? && ValidLog(h.state.buffer.value)
            && Unclaimed(h.state.buffer.value) == Unclaimed(log) + (if strands then |data| else 0)
            && (Succeeded(h.rv) ==> !strands)
  {
    var ts := log.transactions;
    if ts != [] && IsCharacterOfType(ts[|ts| - 1], doe) {
      var last := ts[|ts| - 1];
      CharLengthUpdate(ts, |ts| - 1, last.(length := last.length + |data|));
    } else {
      CharLengthAppend(ts, CharacterTransactionOf(doe, |data|));
    }
  }

  /** The outcome of a run of calls: the final state and each call's result. */
  datatype Run = Run(state: HandlerState, results: seq<Status>)

  /** The calls `events`, in order, the `i`-th with allocation outcomes `mems[i]`. */
  function HandleAll(s: HandlerState, events: seq<Event>, mems: seq<Alloc>): (r: Run)
    requires |mems| == |events|
    ensures |r.results| == |events|
    decreases |events|
  {
    if events == [] then Run(s, [])
    else
      var r := HandleAll(s, events[..|events| - 1], mems[..|mems| - 1]);
      var h := Handle(r.state, events[|events| - 1], mems[|mems| - 1]);
      Run(h.state, r.results + [h.rv])
  }

  predicate AllSucceeded(results: seq<Status>) {
    forall i :: 0 <= i < |results| ==> Succeeded(results[i])
  }

  /**
   * The length invariant: after any run of calls that all succeed, the
   * unclaimed part of the shared string is what it was before; in
   * particular, lengths that summed to the string's length still do.
   */
  lemma {:induction false} SuccessfulRunKeepsLengths(s: HandlerState, events: seq<Event>, mems: seq<Alloc>)
    requires |mems| == |events| && s.buffer.Some? && ValidLog(s.buffer.value)
    requires AllSucceeded(HandleAll(s, events, mems).results)
    ensures HandleAll(s, events, mems).state.buffer.Some?
    ensures ValidLog(HandleAll(s, events, mems).state.buffer.value)
    ensures Unclaimed(HandleAll(s, events, mems).state.buffer.value) == Unclaimed(s.buffer.value)
    decreases |events|
  {
    if events != [] {
      var n := |events| - 1;
      var r := HandleAll(s, events[..n], mems[..n]);
      var h := Handle(r.state, events[n], mems[n]);
      var full := HandleAll(s, events, mems);
      assert full.results == r.results + [h.rv];
      assert AllSucceeded(r.results) by {
        assert forall i :: 0 <= i < |r.results| ==> r.results[i] == full.results[i];
      }
      assert Succeeded(h.rv) by {
        assert full.results[n] == h.rv;
      }
      SuccessfulRunKeepsLengths(s, events[..n], mems[..n]);
      HandleUnclaimed(r.state, events[n], mems[n]);
    }
  }
}
