/**
 * `txResultBuffer` of txBufferingHandler.cpp: the append-only list of
 * recorded transactions plus the one string holding the text of all
 * character transactions, and the replay of both to a real handler.
 */
module ResultBuffers {
  import opened Xpcom
  import opened Transactions
  import opened Replay
  import opened Sinks

  class ResultBuffer {
    /** `mTransactions`, in recording order. */
    var transactions: seq<Transaction>
    /** `mStringValue`: the text of every character transaction, back to back. */
    var stringValue: string

    /**
     * The character transactions never claim more text than the shared
     * string holds, so the replay cursor stays inside it.
     */
    ghost predicate Valid()
      reads this
    {
      CharLength(transactions) <= |stringValue|
    }

    constructor ()
      ensures transactions == [] && stringValue == ""
      ensures Valid()
    {
      transactions := [];
      stringValue := "";
    }

    /**
     * `addTransaction`: appends at the end and returns NS_OK, or returns
     * NS_ERROR_OUT_OF_MEMORY and changes nothing when the array cannot grow
     * (`appendSucceeds` is false).
     */
    method AddTransaction(t: Transaction, appendSucceeds: bool) returns (rv: Status)
      modifies this
      ensures rv == if appendSucceeds then NS_OK else NS_ERROR_OUT_OF_MEMORY
      ensures transactions == if appendSucceeds then old(transactions) + [t] else old(transactions)
      ensures stringValue == old(stringValue)
    {
      if !appendSucceeds {
        return NS_ERROR_OUT_OF_MEMORY;
      }
      transactions := transactions + [t];
      rv := NS_OK;
    }

    /** `getLastTransaction`: null exactly for an empty list, otherwise its final element. */
    function GetLastTransaction(): (last: Option<Transaction>)
      reads this
      ensures last.None? <==> transactions == []
      ensures last.Some? ==> last.value == transactions[|transactions| - 1]
    {
      var lastIndex := |transactions| - 1;
      if lastIndex < 0 then None else Some(transactions[lastIndex])
    }

    /**
     * `flushToHandler`: replays the transactions in order to `handler`, the
     * cursor starting at the beginning of the shared string, and stops at
     * the first call whose result is a failure. Returns the result of the
     * last transaction replayed, NS_OK if there was none.
     */
    method FlushToHandler(handler: EventSink, indeterminate: Indeterminate) returns (rv: Status)
      requires Valid()
      modifies handler
      ensures handler.received ==
                old(handler.received) + Flush(transactions, stringValue, handler.respond, |old(handler.received)|, indeterminate).calls
      ensures rv == Flush(transactions, stringValue, handler.respond, |old(handler.received)|, indeterminate).result
    {
      ghost var base := |handler.received|;
      ghost var calls: seq<Event> := [];
      var result := NS_OK;
      var iter := 0;
      var i, len := 0, |transactions|;
      while i < len
        invariant 0 <= i <= len
        invariant Succeeded(result)
        invariant Flushed(transactions, stringValue, handler.respond, base, indeterminate, i) == Progress(calls, result, iter)
        invariant handler.received == old(handler.received) + calls
      {
        FlushAdvance(transactions, stringValue, handler.respond, base, indeterminate, i, calls, result, iter);
        assert |handler.received| == base + |calls|;
        var succeeded, r, next := FlushTransaction(transactions[i], stringValue, iter, handler, indeterminate(i));
        calls := calls + Calls(Dispatch(transactions[i], stringValue, iter));
        result, iter := r, next;
        if !succeeded {
          assert Flush(transactions, stringValue, handler.respond, base, indeterminate) == Progress(calls, result, iter);
          break;
        }
        i := i + 1;
      }
      assert Flush(transactions, stringValue, handler.respond, base, indeterminate) == Progress(calls, result, iter);
      rv := result;
    }
  }

  /**
   * `flushTransaction`: issues the call recorded in `t` to `handler`. A
   * character transaction takes the next `t.length` characters of `text`
   * from `iter` on and moves the cursor past them. An end-document
   * transaction has no case: nothing is called and the result is the
   * indeterminate value of the uninitialised result variable.
   */
  method FlushTransaction(t: Transaction, text: string, iter: nat, handler: EventSink, indeterminate: Status)
    returns (succeeded: bool, rv: Status, next: nat)
    requires iter + TextLength(t) <= |text|
    modifies handler
    ensures handler.received == old(handler.received) + Calls(Dispatch(t, text, iter))
    ensures rv == if t.EndDocumentTransaction? then indeterminate
                  else handler.respond(|old(handler.received)|, Dispatch(t, text, iter).value)
    ensures next == iter + TextLength(t)
    ensures succeeded == Succeeded(rv)
  {
    next := iter;
    match t {
      case AttributeAtomTransaction(p, l, ll, ns, v) =>
        rv := handler.Receive(AttributeAtom(p, l, ll, ns, v));
      case AttributeTransaction(p, l, ns, v) =>
        rv := handler.Receive(Attribute(p, l, ns, v));
      case CharacterTransaction(_) | CharacterNoOETransaction(_) =>
        next := iter + t.length;
        rv := handler.Receive(Characters(text[iter..next], t.CharacterNoOETransaction?));
      case CommentTransaction(v) =>
        rv := handler.Receive(Comment(v));
      case EndElementTransaction =>
        rv := handler.Receive(EndElement);
      case PITransaction(tg, d) =>
        rv := handler.Receive(ProcessingInstruction(tg, d));
      case StartDocumentTransaction =>
        rv := handler.Receive(StartDocument);
      case StartElementAtomTransaction(p, l, ll, ns) =>
        rv := handler.Receive(StartElementAtom(p, l, ll, ns));
      case StartElementTransaction(p, l, ns) =>
        rv := handler.Receive(StartElement(p, l, ns));
      case EndDocumentTransaction =>
        rv := indeterminate;
    }
    succeeded := Succeeded(rv);
  }
}
