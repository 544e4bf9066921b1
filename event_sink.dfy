/**
 * The real output handler a result buffer is flushed to. Its serialisation
 * is not part of this model: it records the calls it receives, in order, and
 * answers each with a fixed function of the call's position and the call.
 */
module Sinks {
  import opened Xpcom
  import opened Transactions

  class EventSink {
    var received: seq<Event>
    const respond: (nat, Event) -> Status

    constructor (respond: (nat, Event) -> Status)
      ensures received == [] && this.respond == respond
    {
      received := [];
      this.respond := respond;
    }

    /** One call of the output-handler interface. */
    method Receive(e: Event) returns (rv: Status)
      modifies this
      ensures received == old(received) + [e]
      ensures rv == respond(|old(received)|, e)
    {
      rv := respond(|received|, e);
      received := received + [e];
    }
  }
}
