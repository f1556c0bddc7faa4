/** Handlers and middleware layering (amaro.go).
    A handler is a term: an endpoint, the app's own dispatch to the router, or a middleware
    wrapped around another handler.
    `Interpret` reads a term in any set of actual functions, so nothing is assumed of
    what a middleware does with the handler it wraps. */
module Handlers {

  type Middleware = nat

  datatype Handler = Endpoint(id: nat) | Dispatch | Layer(outer: Middleware, next: Handler)

  /** What `Compile` builds: the first middleware is outermost. */
  function Compiled(handler: Handler, middlewares: seq<Middleware>): Handler {
    if middlewares == [] then handler
    else Layer(middlewares[0], Compiled(handler, middlewares[1..]))
  }

  method Compile(handler: Handler, middlewares: seq<Middleware>) returns (compiled: Handler)
    ensures compiled == Compiled(handler, middlewares)
  {
    compiled := handler;
    var i := |middlewares| - 1;
    while i >= 0
      invariant -1 <= i < |middlewares|
      invariant compiled == Compiled(handler, middlewares[i + 1..])
    {
      compiled := Layer(middlewares[i], compiled);
      assert middlewares[i..][1..] == middlewares[i + 1..];
      i := i - 1;
    }
    assert middlewares[0..] == middlewares;
  }

  lemma {:induction false} CompiledOfConcat(handler: Handler, a: seq<Middleware>, b: seq<Middleware>)
    ensures Compiled(handler, a + b) == Compiled(Compiled(handler, b), a)
  {
    if a == [] {
      assert a + b == b;
    } else {
      assert (a + b)[1..] == a[1..] + b;
      CompiledOfConcat(handler, a[1..], b);
    }
  }

  /** Running a term whose layers each call next exactly once; `inner` is what dispatch does. */
  datatype Event = Enter(middleware: Middleware) | Run(id: nat) | Leave(middleware: Middleware) | NotFound

  function Events(handler: Handler, inner: seq<Event>): seq<Event> {
    match handler
    case Endpoint(id) => [Run(id)]
    case Dispatch => inner
    case Layer(m, next) => [Enter(m)] + Events(next, inner) + [Leave(m)]
  }

  function Entering(middlewares: seq<Middleware>): (events: seq<Event>)
    ensures |events| == |middlewares|
    ensures forall i :: 0 <= i < |events| ==> events[i] == Enter(middlewares[i])
  {
    seq(|middlewares|, i requires 0 <= i < |middlewares| => Enter(middlewares[i]))
  }

  function Leaving(middlewares: seq<Middleware>): (events: seq<Event>)
    ensures |events| == |middlewares|
    ensures forall i :: 0 <= i < |events| ==> events[i] == Leave(middlewares[|middlewares| - 1 - i])
  {
    seq(|middlewares|, i requires 0 <= i < |middlewares| => Leave(middlewares[|middlewares| - 1 - i]))
  }

  /** Layers are entered in the order they are listed and left in the reverse order. */
  lemma {:induction false} CompiledEvents(handler: Handler, middlewares: seq<Middleware>, inner: seq<Event>)
    ensures Events(Compiled(handler, middlewares), inner)
         == Entering(middlewares) + Events(handler, inner) + Leaving(middlewares)
  {
    if middlewares != [] {
      var rest := middlewares[1..];
      CompiledEvents(handler, rest, inner);
      assert Entering(middlewares) == [Enter(middlewares[0])] + Entering(rest);
      assert Leaving(middlewares) == Leaving(rest) + [Leave(middlewares[0])];
    }
  }

  /** A term read in actual handlers of type H. */
  function Interpret<H>(handler: Handler, endpoint: nat -> H, dispatch: H, wrap: Middleware -> (H -> H)): H {
    match handler
    case Endpoint(id) => endpoint(id)
    case Dispatch => dispatch
    case Layer(m, next) => wrap(m)(Interpret(next, endpoint, dispatch, wrap))
  }

  /** `Chain(middlewares)(next)` on actual functions: the loop of `Chain`, innermost last. */
  method Chain<H>(middlewares: seq<H -> H>, next: H) returns (chained: H)
    ensures chained == Chained(middlewares, next)
  {
    chained := next;
    var i := |middlewares| - 1;
    while i >= 0
      invariant -1 <= i < |middlewares|
      invariant chained == Chained(middlewares[i + 1..], next)
    {
      chained := middlewares[i](chained);
      assert middlewares[i..][1..] == middlewares[i + 1..];
      i := i - 1;
    }
    assert middlewares[0..] == middlewares;
  }

  function Chained<H>(middlewares: seq<H -> H>, next: H): H {
    if middlewares == [] then next else middlewares[0](Chained(middlewares[1..], next))
  }

  /** `Compile` on terms and `Chain` on the functions they stand for agree. */
  lemma {:induction false} ChainAgreesWithCompile<H>(handler: Handler, middlewares: seq<Middleware>,
                                  endpoint: nat -> H, dispatch: H, wrap: Middleware -> (H -> H))
    ensures Interpret(Compiled(handler, middlewares), endpoint, dispatch, wrap)
         == Chained(seq(|middlewares|, i requires 0 <= i < |middlewares| => wrap(middlewares[i])),
                    Interpret(handler, endpoint, dispatch, wrap))
  {
    var fs := seq(|middlewares|, i requires 0 <= i < |middlewares| => wrap(middlewares[i]));
    if middlewares != [] {
      var rest := middlewares[1..];
      var gs := seq(|rest|, i requires 0 <= i < |rest| => wrap(rest[i]));
      assert fs[1..] == gs;
      ChainAgreesWithCompile(handler, rest, endpoint, dispatch, wrap);
    }
  }
}
