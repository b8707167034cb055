/**
 * The one data endpoint: `requireInternalApiKey` guards `GET /`, which sends the
 * data file when it exists and answers 404 with an empty history otherwise.
 */
module Access {
  import opened Records
  import opened Collection

  datatype Option<T> = None | Some(value: T)

  /** What the endpoint sends back. */
  datatype ReplyBody =
    | ErrorJson(error: string)        // `{ error: ... }`
    | HistoryJson(history: seq<Record>) // a `{ history: [...] }` document
    | RawFile                         // the file's bytes, which do not parse

  datatype Reply = Reply(status: int, body: ReplyBody)

  /** The middleware lets a request through only when the configured key is a
      non-empty string and the presented `x-api-key` header is exactly it. */
  predicate Authorized(configured: Option<string>, presented: Option<string>)
  {
    configured.Some? && configured.value != "" && presented == configured
  }

  /** The reply to `GET /`, given the configured key, the request's header and
      the data file. */
  function Serve(configured: Option<string>, presented: Option<string>, file: StoredFile): (r: Reply)
    ensures r.status in {200, 401, 404}
    // no configured key, an empty one, a missing header or any other header: 401
    ensures r.status == 401 <==> configured.None? || configured.value == "" || presented != configured
    ensures r.status == 401 ==> r.body == ErrorJson("Unauthorized")
    ensures presented.None? ==> r.status == 401
    // once through, the file decides
    ensures r.status == 404 <==> Authorized(configured, presented) && file.Missing?
    ensures r.status == 404 ==> r.body == HistoryJson([])
    ensures r.status == 200 ==> presented.Some? && presented.value == configured.value && presented.value != ""
    ensures Authorized(configured, presented) && file.Document? ==> r == Reply(200, HistoryJson(file.history))
    ensures Authorized(configured, presented) && file.Unparseable? ==> r == Reply(200, RawFile)
  {
    if !Authorized(configured, presented) then Reply(401, ErrorJson("Unauthorized"))
    else if file.Missing? then Reply(404, HistoryJson([]))
    else if file.Document? then Reply(200, HistoryJson(file.history))
    else Reply(200, RawFile)
  }

  /** After a cycle stores a record, an authorised request reads it first,
      followed by everything stored before. */
  lemma ServeAfterStore(configured: Option<string>, file: StoredFile, response: Response, w: bool)
    requires configured.Some? && configured.value != ""
    requires Collect(file, response, w).result == Stored
    ensures Serve(configured, configured, Collect(file, response, w).file)
            == Reply(200, HistoryJson([Latest(response)] + Loaded(file)))
  {
  }
}
