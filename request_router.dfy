/** `RequestRouter`: a request handler that extracts a route from each
    request and passes the request on to the handler registered for that
    route, or to the `Not Found` handler. */
module RequestRouting {
  import opened Wrappers
  import opened Bytes
  import opened Errors
  import opened Server
  import Hex

  /** `RouteExtractor`. */
  type RouteExtractor<!Req> = (Context, Req) -> Result<bytes, Error>

  /** The handler a route is dispatched to: the one registered under the
      route's hexadecimal text, else the `Not Found` handler, if set. */
  function Route<Req, Resp>(
    handlersByRoutes: map<bytes, RequestHandler<Req, Resp>>,
    notFoundHandler: Option<RequestHandler<Req, Resp>>,
    route: bytes): (r: Option<RequestHandler<Req, Resp>>)
    ensures Hex.Encode(route) in handlersByRoutes ==> r == Some(handlersByRoutes[Hex.Encode(route)])
    ensures Hex.Encode(route) !in handlersByRoutes ==> r == notFoundHandler
  {
    if Hex.Encode(route) in handlersByRoutes then Some(handlersByRoutes[Hex.Encode(route)])
    else notFoundHandler
  }

  /** Registering a handler for a route sends that route, byte for byte,
      to the handler, and leaves every other route where it was. */
  lemma RouteAfterRegistering<Req, Resp>(
    handlersByRoutes: map<bytes, RequestHandler<Req, Resp>>,
    notFoundHandler: Option<RequestHandler<Req, Resp>>,
    registered: bytes, handler: RequestHandler<Req, Resp>, route: bytes)
    ensures Route(handlersByRoutes[Hex.Encode(registered) := handler], notFoundHandler, route)
            == if route == registered then Some(handler) else Route(handlersByRoutes, notFoundHandler, route)
  {
    Hex.EncodeInjective(route, registered);
  }

  /** With no route registered, every route goes to the `Not Found`
      handler, if set. */
  lemma RouteWithoutRoutes<Req, Resp>(notFoundHandler: Option<RequestHandler<Req, Resp>>, route: bytes)
    ensures Route(map[], notFoundHandler, route) == notFoundHandler
  {
  }

  class RequestRouter<Req, Resp> {
    const routeExtractor: RouteExtractor<Req>
    /** The response returned alongside an error: Go's zero value. */
    const zeroResponse: Resp
    var handlersByRoutes: map<bytes, RequestHandler<Req, Resp>>
    var notFoundHandler: Option<RequestHandler<Req, Resp>>

    /** `NewRequestRouter`: no routes and no `Not Found` handler. */
    constructor (routeExtractor: RouteExtractor<Req>, zeroResponse: Resp)
      ensures this.routeExtractor == routeExtractor && this.zeroResponse == zeroResponse
      ensures handlersByRoutes == map[] && notFoundHandler.None?
    {
      this.routeExtractor := routeExtractor;
      this.zeroResponse := zeroResponse;
      handlersByRoutes := map[];
      notFoundHandler := None;
    }

    /** `SetRouteHandler`: registers the handler under the route's
        hexadecimal text, replacing an earlier one. */
    method SetRouteHandler(route: bytes, handler: RequestHandler<Req, Resp>)
      modifies this
      ensures handlersByRoutes == old(handlersByRoutes)[Hex.Encode(route) := handler]
      ensures notFoundHandler == old(notFoundHandler)
    {
      handlersByRoutes := handlersByRoutes[Hex.Encode(route) := handler];
    }

    /** `SetNotFoundHandler`. */
    method SetNotFoundHandler(handler: RequestHandler<Req, Resp>)
      modifies this
      ensures notFoundHandler == Some(handler)
      ensures handlersByRoutes == old(handlersByRoutes)
    {
      notFoundHandler := Some(handler);
    }

    /** `HandleRequest`: a route that cannot be extracted, or that leads
        nowhere, is an error and no handler runs; otherwise the chosen
        handler's response and error are returned as they are. */
    function HandleRequest(ctx: Context, request: Req): (r: (Resp, Option<Error>))
      reads this
      ensures routeExtractor(ctx, request).Err? ==>
                r == (zeroResponse, Some(Wrap(ExtractRoute, routeExtractor(ctx, request).error)))
      ensures routeExtractor(ctx, request).Ok? ==>
                var handler := Route(handlersByRoutes, notFoundHandler, routeExtractor(ctx, request).value);
                (handler.Some? ==> r == handler.value(ctx, request))
                && (handler.None? ==> r == (zeroResponse, Some(Plain(NotFoundHandlerMissing))))
    {
      match routeExtractor(ctx, request)
      case Err(e) => (zeroResponse, Some(Wrap(ExtractRoute, e)))
      case Ok(route) =>
        match Route(handlersByRoutes, notFoundHandler, route)
        case None => (zeroResponse, Some(Plain(NotFoundHandlerMissing)))
        case Some(handler) => handler(ctx, request)
    }
  }
}
