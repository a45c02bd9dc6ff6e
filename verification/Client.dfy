/** The user's side of the pipeline: the handlers, and the run that the components have made so far. */
module Clients {
  import opened Bytes
  import opened Messages
  import opened Pipeline
  import opened Wrappers

  /**
   * Records every invocation of a handler.  Handlers do not call back into the client library.  The run
   * is what proofs speak about: `Valid` says that the invocations are the ones of the run.
   */
  class Client {
    const p: Protocol
    var calls: seq<Call>
    ghost var events: seq<Event>
    ghost var state: State

    ghost predicate Valid()
      reads this
    {
      IsRun(p, events) && state == Replay(p, events) && calls == state.book.calls
    }

    constructor (p: Protocol)
      ensures Valid() && this.p == p && events == [] && state == INITIAL
    {
      this.p, calls, events, state := p, [], [], INITIAL;
    }

    /** `handler->Handle(response, value)`. */
    method Handle(handler: Handler, response: Command, value: bytes)
      modifies this`calls
      ensures calls == old(calls) + [Call(handler, Handled(response, value))]
    {
      calls := calls + [Call(handler, Handled(response, value))];
    }

    /** `handler->Error(failure, reply)`. */
    method Error(handler: Handler, failure: Failure, reply: Option<Command>)
      modifies this`calls
      ensures calls == old(calls) + [Call(handler, Outcome.Error(failure, reply))]
    {
      calls := calls + [Call(handler, Outcome.Error(failure, reply))];
    }

    /** The run takes one more step. */
    ghost method Step(e: Event)
      requires IsRun(p, events) && state == Replay(p, events) && Enabled(p, state, e)
      modifies this`events, this`state
      ensures IsRun(p, events) && state == Replay(p, events)
      ensures events == old(events) + [e] && state == Next(p, old(state), e)
    {
      RunSnoc(p, events, e);
      events, state := events + [e], Next(p, state, e);
    }

    /** Whether the handler has been invoked, and whether with a response. */
    predicate Done(handler: Handler)
      reads this`calls
    {
      exists c <- calls :: c.handler == handler
    }

    predicate Succeeded(handler: Handler)
      reads this`calls
    {
      exists c <- calls :: c.handler == handler && c.outcome.Handled?
    }
  }
}
