/** The hooked ticket of include/ldp/ticket.hpp and the type-erasure helpers
    of include/ldp/detail/any_function.hpp: a stored callback is called on
    the value a ticket decodes, and only then; the caller gets OK or the
    decoder's error. */
module Hook {
  import opened Detail
  import opened Frame
  import opened Packet
  import opened Ticket
  import opened FrameProps

  /** `abstract_input_functor<F>`: binds an input functor by reference. */
  class AbstractInputFunctor {
    const ftor: Source

    constructor (ftor: Source)
      ensures this.ftor == ftor
    {
      this.ftor := ftor;
    }

    /** `operator()`: forwards the call to the bound functor, so the byte
        delivered and the bytes consumed are those of a direct call. */
    method Call() returns (b: byte)
      modifies ftor
      ensures b == ftor.data(old(ftor.pos)) && ftor.pos == old(ftor.pos) + 1
    {
      b := ftor.Read();
    }
  }

  /** The user's callback. What it does is not known to the library; the
      model records the values it is called with, in call order. */
  class Callback {
    var calls: seq<Value>

    constructor ()
      ensures calls == []
    {
      calls := [];
    }

    /** One call of the callback on `v`. */
    method Invoke(v: Value)
      modifies this
      ensures calls == old(calls) + [v]
    {
      calls := calls + [v];
    }
  }

  /** What `restore_and_call` returns for a decode result `d`. */
  function Outcome(d: Result<Value>): (e: Error)
    ensures d.Err? ==> e == d.error
  {
    if d.Ok? then LibraryError(OK) else d.error
  }

  /** The hooked ticket reports OK exactly when the frame decodes: a decoder
      error is never the plain OK error, not even the alert-only one, which
      has kind OK but the alert flag set. */
  lemma OutcomeOk(adv: CrcStep, t: Ticket, data: Stream, start: nat)
    requires Fits(t, data, start)
    ensures Outcome(Decode(adv, t, data, start)) == LibraryError(OK) <==> Decode(adv, t, data, start).Ok?
  {
    ParamsDeclared(adv, data, start);
    var p := Parse(adv, data, start);
    BuildOutcome(t, p);
    if p.result.Err? {
      ParseErrorNotOk(adv, data, start);
    }
  }

  /** `restore_and_call<F, Tk>`: decode with a fresh ticket of type `t`
      through the abstract functor, call the callback on the value if there
      is one, and return OK or the decoder's error. */
  method RestoreAndCall(adv: CrcStep, t: Ticket, callback: Callback, input: AbstractInputFunctor)
    returns (e: Error)
    requires Fits(t, input.ftor.data, input.ftor.pos)
    modifies callback, input.ftor
    ensures var d := Decode(adv, t, input.ftor.data, old(input.ftor.pos));
      && e == Outcome(d)
      && input.ftor.pos == Parse(adv, input.ftor.data, old(input.ftor.pos)).next
      && callback.calls == old(callback.calls) + (if d.Ok? then [d.value] else [])
  {
    var maybe := Receive(adv, t, input.ftor);
    if maybe.Ok? {
      callback.Invoke(maybe.value);
      e := LibraryError(OK);
    } else {
      e := maybe.error;
    }
  }

  /** `ticket_with_hook`: the stored callback and the restorer, which is
      `restore_and_call` instantiated for the callback's type and the ticket
      type; the model keeps the ticket type the restorer was made for. */
  class TicketWithHook {
    const callback: Callback
    const ticket: Ticket

    /** The two private constructors: a callback (converted to a function
        pointer) and the ticket type it is hooked to. */
    constructor (callback: Callback, ticket: Ticket)
      ensures this.callback == callback && this.ticket == ticket
    {
      this.callback := callback;
      this.ticket := ticket;
    }

    /** `operator()(F &&input_ftor)`: the restorer on the stored callback
        and the functor wrapped in an `abstract_input_functor`. */
    method Call(adv: CrcStep, input: Source) returns (e: Error)
      requires Fits(ticket, input.data, input.pos)
      modifies callback, input
      ensures var d := Decode(adv, ticket, input.data, old(input.pos));
        && e == Outcome(d)
        && input.pos == Parse(adv, input.data, old(input.pos)).next
        && callback.calls == old(callback.calls) + (if d.Ok? then [d.value] else [])
    {
      var wrapped := new AbstractInputFunctor(input);
      e := RestoreAndCall(adv, ticket, callback, wrapped);
    }

    /** `operator()(It it)`: the same, reading `*it++` from position `at` of
        a buffer. */
    method CallAt(adv: CrcStep, buf: seq<byte>, at: nat) returns (e: Error)
      requires Fits(ticket, Over(buf), at)
      modifies callback
      ensures var d := Decode(adv, ticket, Over(buf), at);
        && e == Outcome(d)
        && callback.calls == old(callback.calls) + (if d.Ok? then [d.value] else [])
    {
      var it := new Source(Over(buf), at);
      e := Call(adv, it);
    }
  }

  /** `ticket::with_hook`: a hooked ticket for this ticket type and callback. */
  method WithHook(t: Ticket, hook: Callback) returns (h: TicketWithHook)
    ensures fresh(h) && h.callback == hook && h.ticket == t
  {
    h := new TicketWithHook(hook, t);
  }
}
