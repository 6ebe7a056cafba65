/** Contexts and the handler types the server is assembled from. */
module Server {
  import opened Wrappers
  import opened Errors
  import opened Network

  /** A context, reduced to when it is cancelled and its timeout: `doneAt`
      is the first pass of a connection loop that finds it done (`None`:
      never), `timeout` the timeout it carries, if any. */
  datatype Context = Context(doneAt: Option<nat>, timeout: Option<nat>)

  /** `ctx.Err()` once the context is done. */
  function ContextError(): (r: Error)
    ensures !IsStop(r)
  {
    Plain(ContextCanceled)
  }

  /** `context.WithoutCancel`: never done and without a deadline, whatever
      the parent. */
  function WithoutCancel(parent: Context): (r: Context)
    ensures r.doneAt.None? && r.timeout.None?
  {
    Context(None, None)
  }

  /** `context.WithTimeout`: the earlier of the parent's timeout and the new
      one; cancellation is inherited. */
  function WithTimeout(parent: Context, timeout: nat): (r: Context)
    ensures r.doneAt == parent.doneAt
    ensures r.timeout.Some? && r.timeout.value <= timeout
    ensures parent.timeout.None? ==> r.timeout == Some(timeout)
    ensures parent.timeout.Some? ==>
              r.timeout == Some(if parent.timeout.value < timeout then parent.timeout.value else timeout)
  {
    if parent.timeout.Some? && parent.timeout.value < timeout then parent
    else Context(parent.doneAt, Some(timeout))
  }

  /** `RequestHandler`: a response and an error, both returned. */
  type RequestHandler<-Req, Resp> = (Context, Req) -> (Resp, Option<Error>)

  /** `ConnectionHandler`. */
  type ConnectionHandler = (Context, Connection) -> Option<Error>
}
