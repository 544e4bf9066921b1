/**
 * `txBufferingHandler` of txBufferingHandler.cpp: the output handler that
 * records every event in a result buffer while the output method is not yet
 * known. Each event method is proved to do what `HandlerModel.Handle` says
 * of it.
 */
module BufferingHandlers {
  import opened Xpcom
  import opened Transactions
  import opened HandlerModel
  import opened ResultBuffers

  class BufferingHandler {
    /** `mCanAddAttribute`: set by a start tag, cleared by content and end tags. */
    var canAddAttribute: bool
    /** `mBuffer`; null when its allocation failed. */
    var buffer: ResultBuffer?

    ghost predicate Valid()
      reads this, buffer
    {
      buffer != null ==> buffer.Valid()
    }

    /** The handler's state as `HandlerModel` sees it. */
    ghost function State(): HandlerState
      reads this, buffer
    {
      HandlerState(canAddAttribute,
                   if buffer == null then None else Some(Log(buffer.transactions, buffer.stringValue)))
    }

    /** Starts with attributes not allowed and an empty buffer, or none if `new` returned null. */
    constructor (bufferAllocated: bool)
      ensures Valid()
      ensures State() == HandlerState(false, if bufferAllocated then Some(Log([], "")) else None)
      ensures buffer != null ==> fresh(buffer)
    {
      canAddAttribute := false;
      if bufferAllocated {
        buffer := new ResultBuffer();
      } else {
        buffer := null;
      }
    }

    /** `attribute` with atom names: recorded only inside a start tag, otherwise dropped with NS_OK. */
    method AttributeAtom(prefix: Atom, localName: Atom, lowercaseLocalName: Atom, nsID: Int32, value: string,
                         mem: Alloc)
      returns (rv: Status)
      requires Valid()
      modifies this, buffer
      ensures Valid() && buffer == old(buffer)
      ensures Handled(State(), rv) ==
                Handle(old(State()), Event.AttributeAtom(prefix, localName, lowercaseLocalName, nsID, value), mem)
      ensures buffer != null && !old(canAddAttribute) ==> rv == NS_OK && State() == old(State())
    {
      if buffer == null {
        return NS_ERROR_OUT_OF_MEMORY;
      }
      if !canAddAttribute {
        return NS_OK;
      }
      if !mem.newSucceeds {
        return NS_ERROR_OUT_OF_MEMORY;
      }
      var t := AttributeAtomTransaction(prefix, localName, lowercaseLocalName, nsID, value);
      CharLengthAppend(buffer.transactions, t);
      rv := buffer.AddTransaction(t, mem.appendSucceeds);
    }

    /** `attribute` with a string local name: recorded only inside a start tag, otherwise dropped with NS_OK. */
    method Attribute(prefix: Atom, localName: string, nsID: Int32, value: string, mem: Alloc)
      returns (rv: Status)
      requires Valid()
      modifies this, buffer
      ensures Valid() && buffer == old(buffer)
      ensures Handled(State(), rv) == Handle(old(State()), Event.Attribute(prefix, localName, nsID, value), mem)
      ensures buffer != null && !old(canAddAttribute) ==> rv == NS_OK && State() == old(State())
    {
      if buffer == null {
        return NS_ERROR_OUT_OF_MEMORY;
      }
      if !canAddAttribute {
        return NS_OK;
      }
      if !mem.newSucceeds {
        return NS_ERROR_OUT_OF_MEMORY;
      }
      var t := AttributeTransaction(prefix, localName, nsID, value);
      CharLengthAppend(buffer.transactions, t);
      rv := buffer.AddTransaction(t, mem.appendSucceeds);
    }

    /**
     * `characters`: merges into the last transaction when it is a character
     * transaction of the same escaping mode; otherwise appends the text and
     * a new character transaction of its length.
     */
    method Characters(data: string, doe: bool, mem: Alloc) returns (rv: Status)
      requires Valid()
      modifies this, buffer
      ensures Valid() && buffer == old(buffer)
      ensures Handled(State(), rv) == Handle(old(State()), Event.Characters(data, doe), mem)
      ensures buffer != null ==> !canAddAttribute
    {
      if buffer == null {
        return NS_ERROR_OUT_OF_MEMORY;
      }
      canAddAttribute := false;
      var last := buffer.GetLastTransaction();
      if last.Some? && IsCharacterOfType(last.value, doe) {
        var merged := last.value.(length := last.value.length + |data|);
        CharLengthUpdate(buffer.transactions, |buffer.transactions| - 1, merged);
        buffer.stringValue := buffer.stringValue + data;
        buffer.transactions := buffer.transactions[|buffer.transactions| - 1 := merged];
        return NS_OK;
      }
      if !mem.newSucceeds {
        return NS_ERROR_OUT_OF_MEMORY;
      }
      var t := CharacterTransactionOf(doe, |data|);
      CharLengthAppend(buffer.transactions, t);
      buffer.stringValue := buffer.stringValue + data;
      rv := buffer.AddTransaction(t, mem.appendSucceeds);
    }

    method Comment(data: string, mem: Alloc) returns (rv: Status)
      requires Valid()
      modifies this, buffer
      ensures Valid() && buffer == old(buffer)
      ensures Handled(State(), rv) == Handle(old(State()), Event.Comment(data), mem)
      ensures buffer != null ==> !canAddAttribute
    {
      if buffer == null {
        return NS_ERROR_OUT_OF_MEMORY;
      }
      canAddAttribute := false;
      if !mem.newSucceeds {
        return NS_ERROR_OUT_OF_MEMORY;
      }
      var t := CommentTransaction(data);
      CharLengthAppend(buffer.transactions, t);
      rv := buffer.AddTransaction(t, mem.appendSucceeds);
    }

    /** `endDocument`: records a bare end-document transaction; `result` is not kept. */
    method EndDocument(result: Status, mem: Alloc) returns (rv: Status)
      requires Valid()
      modifies this, buffer
      ensures Valid() && buffer == old(buffer)
      ensures Handled(State(), rv) == Handle(old(State()), Event.EndDocument(result), mem)
      ensures canAddAttribute == old(canAddAttribute)
    {
      if buffer == null {
        return NS_ERROR_OUT_OF_MEMORY;
      }
      if !mem.newSucceeds {
        return NS_ERROR_OUT_OF_MEMORY;
      }
      var t := EndDocumentTransaction;
      CharLengthAppend(buffer.transactions, t);
      rv := buffer.AddTransaction(t, mem.appendSucceeds);
    }

    method EndElement(mem: Alloc) returns (rv: Status)
      requires Valid()
      modifies this, buffer
      ensures Valid() && buffer == old(buffer)
      ensures Handled(State(), rv) == Handle(old(State()), Event.EndElement, mem)
      ensures buffer != null ==> !canAddAttribute
    {
      if buffer == null {
        return NS_ERROR_OUT_OF_MEMORY;
      }
      canAddAttribute := false;
      if !mem.newSucceeds {
        return NS_ERROR_OUT_OF_MEMORY;
      }
      var t := EndElementTransaction;
      CharLengthAppend(buffer.transactions, t);
      rv := buffer.AddTransaction(t, mem.appendSucceeds);
    }

    method ProcessingInstruction(target: string, data: string, mem: Alloc) returns (rv: Status)
      requires Valid()
      modifies this, buffer
      ensures Valid() && buffer == old(buffer)
      ensures Handled(State(), rv) == Handle(old(State()), Event.ProcessingInstruction(target, data), mem)
      ensures buffer != null ==> !canAddAttribute
    {
      if buffer == null {
        return NS_ERROR_OUT_OF_MEMORY;
      }
      canAddAttribute := false;
      if !mem.newSucceeds {
        return NS_ERROR_OUT_OF_MEMORY;
      }
      var t := PITransaction(target, data);
      CharLengthAppend(buffer.transactions, t);
      rv := buffer.AddTransaction(t, mem.appendSucceeds);
    }

    method StartDocument(mem: Alloc) returns (rv: Status)
      requires Valid()
      modifies this, buffer
      ensures Valid() && buffer == old(buffer)
      ensures Handled(State(), rv) == Handle(old(State()), Event.StartDocument, mem)
      ensures canAddAttribute == old(canAddAttribute)
    {
      if buffer == null {
        return NS_ERROR_OUT_OF_MEMORY;
      }
      if !mem.newSucceeds {
        return NS_ERROR_OUT_OF_MEMORY;
      }
      var t := StartDocumentTransaction;
      CharLengthAppend(buffer.transactions, t);
      rv := buffer.AddTransaction(t, mem.appendSucceeds);
    }

    /** `startElement` with atom names: opens the start tag for attributes. */
    method StartElementAtom(prefix: Atom, localName: Atom, lowercaseLocalName: Atom, nsID: Int32, mem: Alloc)
      returns (rv: Status)
      requires Valid()
      modifies this, buffer
      ensures Valid() && buffer == old(buffer)
      ensures Handled(State(), rv) ==
                Handle(old(State()), Event.StartElementAtom(prefix, localName, lowercaseLocalName, nsID), mem)
      ensures buffer != null ==> canAddAttribute
    {
      if buffer == null {
        return NS_ERROR_OUT_OF_MEMORY;
      }
      canAddAttribute := true;
      if !mem.newSucceeds {
        return NS_ERROR_OUT_OF_MEMORY;
      }
      var t := StartElementAtomTransaction(prefix, localName, lowercaseLocalName, nsID);
      CharLengthAppend(buffer.transactions, t);
      rv := buffer.AddTransaction(t, mem.appendSucceeds);
    }

    /** `startElement` with a string local name: opens the start tag for attributes. */
    method StartElement(prefix: Atom, localName: string, nsID: Int32, mem: Alloc) returns (rv: Status)
      requires Valid()
      modifies this, buffer
      ensures Valid() && buffer == old(buffer)
      ensures Handled(State(), rv) == Handle(old(State()), Event.StartElement(prefix, localName, nsID), mem)
      ensures buffer != null ==> canAddAttribute
    {
      if buffer == null {
        return NS_ERROR_OUT_OF_MEMORY;
      }
      canAddAttribute := true;
      if !mem.newSucceeds {
        return NS_ERROR_OUT_OF_MEMORY;
      }
      var t := StartElementTransaction(prefix, localName, nsID);
      CharLengthAppend(buffer.transactions, t);
      rv := buffer.AddTransaction(t, mem.appendSucceeds);
    }
  }
}
