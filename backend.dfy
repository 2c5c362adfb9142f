/**
 * The settled result of one query to the hosted backend. The backend client
 * never throws for a failed query: it resolves with an `error` object and/or
 * a `data` payload, either of which may be null.
 */
module Backend {
  import opened Wrappers

  datatype Response<T> = Response(data: Option<T>, error: Option<string>)

  /** The JavaScript `data || []` fallback: a null payload reads as no rows. */
  function OrEmpty<T>(data: Option<seq<T>>): seq<T>
  {
    match data
    case None => []
    case Some(rows) => rows
  }
}
