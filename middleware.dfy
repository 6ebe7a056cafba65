/** Request and connection middlewares: functions from a handler to a
    handler, applied in list order so that the last one is outermost. */
module Middlewares {
  import opened Wrappers
  import opened Errors
  import opened Network
  import opened Server

  /** `RequestMiddleware`. */
  type RequestMiddleware<!Req, !Resp> = RequestHandler<Req, Resp> -> RequestHandler<Req, Resp>

  /** `ConnectionMiddleware`. */
  type ConnectionMiddleware = ConnectionHandler -> ConnectionHandler

  /** The handler with the middlewares applied, the last one outermost:
      `m_n(... m_2(m_1(handler)))`. */
  function Wrapped<H>(handler: H, middlewares: seq<H -> H>): H
    decreases |middlewares|
  {
    if middlewares == [] then handler
    else
      var n := |middlewares| - 1;
      middlewares[n](Wrapped(handler, middlewares[..n]))
  }

  /** The same composition read from the innermost middleware on: the
      first middleware wraps the handler, the rest wrap the result. */
  function WrapFrom<H>(handler: H, middlewares: seq<H -> H>): H
    decreases |middlewares|
  {
    if middlewares == [] then handler
    else WrapFrom(middlewares[0](handler), middlewares[1..])
  }

  /** Applying a list of middlewares after another is applying their
      concatenation. */
  lemma {:induction false} WrappedAppend<H>(handler: H, first: seq<H -> H>, second: seq<H -> H>)
    ensures Wrapped(handler, first + second) == Wrapped(Wrapped(handler, first), second)
    decreases |second|
  {
    if second == [] {
      assert first + second == first;
    } else {
      var n := |second| - 1;
      assert (first + second)[..|first| + n] == first + second[..n];
      WrappedAppend(handler, first, second[..n]);
    }
  }

  /** The two readings agree. */
  lemma {:induction false} WrapFromIsWrapped<H>(handler: H, middlewares: seq<H -> H>)
    ensures WrapFrom(handler, middlewares) == Wrapped(handler, middlewares)
    decreases |middlewares|
  {
    if middlewares != [] {
      var m := middlewares[0];
      WrapFromIsWrapped(m(handler), middlewares[1..]);
      WrappedAppend(handler, [m], middlewares[1..]);
      assert [m] + middlewares[1..] == middlewares;
      assert Wrapped(handler, [m]) == m(Wrapped(handler, [])) by {
        assert [m][..0] == [];
      }
    }
  }

  /** Without middlewares the handler is returned as it is. */
  lemma WrappedEmpty<H>(handler: H)
    ensures Wrapped(handler, []) == handler
  {
  }

  /** A middleware added at the end of the list wraps everything else. */
  lemma WrappedLast<H>(handler: H, middlewares: seq<H -> H>, last: H -> H)
    ensures Wrapped(handler, middlewares + [last]) == last(Wrapped(handler, middlewares))
  {
    assert (middlewares + [last])[..|middlewares|] == middlewares;
  }

  /** `ApplyRequestMiddlewares`. */
  method ApplyRequestMiddlewares<Req, Resp>(handler: RequestHandler<Req, Resp>, middlewares: seq<RequestMiddleware<Req, Resp>>)
    returns (r: RequestHandler<Req, Resp>)
    ensures r == Wrapped(handler, middlewares)
  {
    r := handler;
    for i := 0 to |middlewares|
      invariant r == Wrapped(handler, middlewares[..i])
    {
      assert middlewares[..i + 1][..i] == middlewares[..i];
      r := middlewares[i](r);
    }
    assert middlewares[..|middlewares|] == middlewares;
  }

  /** `ApplyConnectionMiddlewares`. */
  method ApplyConnectionMiddlewares(handler: ConnectionHandler, middlewares: seq<ConnectionMiddleware>)
    returns (r: ConnectionHandler)
    ensures r == Wrapped(handler, middlewares)
  {
    r := handler;
    for i := 0 to |middlewares|
      invariant r == Wrapped(handler, middlewares[..i])
    {
      assert middlewares[..i + 1][..i] == middlewares[..i];
      r := middlewares[i](r);
    }
    assert middlewares[..|middlewares|] == middlewares;
  }

  // The order in which middlewares run

  /** A middleware that records `n` in the request, which is the trace of
      the middlewares it went through, before passing it on. */
  function Recording(n: int): RequestMiddleware<seq<int>, seq<int>> {
    (handler: RequestHandler<seq<int>, seq<int>>) =>
      (ctx: Context, trace: seq<int>) => handler(ctx, trace + [n])
  }

  /** A handler that answers with the trace it receives. */
  function Echo(): RequestHandler<seq<int>, seq<int>> {
    (ctx: Context, trace: seq<int>) => (trace, None)
  }

  /** Middlewares listed as `[23, 42]` run as `42` first, then `23`. */
  lemma LastMiddlewareRunsFirst(ctx: Context)
    ensures Wrapped(Echo(), [Recording(23), Recording(42)])(ctx, []) == ([42, 23], None)
  {
    var inner := Recording(23)(Echo());
    assert Wrapped(Echo(), [Recording(23)]) == inner by {
      WrappedLast(Echo(), [], Recording(23));
    }
    WrappedLast(Echo(), [Recording(23)], Recording(42));
    assert [] + [42] + [23] == [42, 23];
  }

  // Propagation of results

  /** Through middlewares that pass every call on to the handler they
      wrap and return its result, the handler's response and error come
      back unchanged. */
  lemma {:induction false} RequestResultPropagates<Req, Resp>(
    handler: RequestHandler<Req, Resp>, middlewares: seq<RequestMiddleware<Req, Resp>>, ctx: Context, request: Req)
    requires forall i, inner: RequestHandler<Req, Resp>, c: Context, q: Req | 0 <= i < |middlewares| ::
               middlewares[i](inner)(c, q) == inner(c, q)
    ensures Wrapped(handler, middlewares)(ctx, request) == handler(ctx, request)
    decreases |middlewares|
  {
    if middlewares != [] {
      var n := |middlewares| - 1;
      RequestResultPropagates(handler, middlewares[..n], ctx, request);
    }
  }

  /** Through delegating connection middlewares the handler's error comes
      back unchanged. */
  lemma {:induction false} ConnectionResultPropagates(
    handler: ConnectionHandler, middlewares: seq<ConnectionMiddleware>, ctx: Context, connection: Connection)
    requires forall i, inner: ConnectionHandler, c: Context, k: Connection | 0 <= i < |middlewares| ::
               middlewares[i](inner)(c, k) == inner(c, k)
    ensures Wrapped(handler, middlewares)(ctx, connection) == handler(ctx, connection)
    decreases |middlewares|
  {
    if middlewares != [] {
      var n := |middlewares| - 1;
      ConnectionResultPropagates(handler, middlewares[..n], ctx, connection);
    }
  }
}
