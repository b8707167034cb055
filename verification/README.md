# Data collector: verified model of the collection cycle and the access check

The data collector polls an upstream game-result API on a timer. On each tick it
takes the first record of the returned list. It loads the persisted history from
`gameData.json`, where a missing file counts as an empty history. If no stored
record has an `issueNumber` strictly equal (`===`) to the new record's, it puts
the record at the head of the history and rewrites the file. Every error thrown
along the way is caught and logged, and the file is left as it was.

A single `GET /` endpoint serves the file. It answers only when the request's
`x-api-key` header equals the configured `INTERNAL_API_KEY` and that key is a
non-empty string.

The model has three modules:

- `Records` (records.dfy): the `issueNumber` key. It is a string, a number or
  undefined, and comparison is type-sensitive, like `===`. The module also holds
  the record, the `.some` duplicate test (`Contains`) and the distinct-keys
  invariant.
- `Collection` (collection.dfy): the upstream response, reduced to the cases the
  cycle branches on, and the data file as `Missing`, `Document(history)` or
  `Unparseable`. It has three parts:
  - a pure reference function `Collect` for one cycle;
  - a ghost function `Run` for a sequence of timer ticks, with lemmas about it;
  - the class `Collector`, whose fields `fileExists`, `parseable` and `history`
    are updated in place by `Cycle`. `Cycle` is proved to follow `Collect` exactly.
- `Access` (access.dfy): the decision made by `requireInternalApiKey` together
  with the `/` handler. The reply is 401, or 404 with an empty history, or 200
  with the stored document.

Behaviour of the code worth knowing:

- An unset or empty key gets 401 `Unauthorized`, like a wrong header; there is no
  separate status for a server without a key.
- The history is not sorted, capped or evicted, and it is never merged with more
  than one candidate per cycle. Only `list[0]` is considered.
- `issueNumber` is not normalised. `"100"` and `100` are different keys
  (`StringAndNumberKeysBothStored`).
- A data file that exists but does not parse is not discarded. Every later cycle
  that receives a record throws while reading it (the others exit earlier), so it is never rewritten and nothing new is ever
  stored (`UnparseableIsPermanent`). The endpoint still sends its raw bytes with
  status 200.
- The file is rewritten in place with `writeFileSync`, not atomically.

## Model

| member | source | states |
|---|---|---|
| `Records.Contains` | collector_server.js:45 | The duplicate test holds exactly when some stored record's `issueNumber` is strictly equal to the key. |
| `Records.PrependFreshKey` | collector_server.js:45-46 | Putting a record with an absent key in front of a history with distinct keys keeps the keys distinct. The old history stays its suffix. |
| `Collection.Collect` | collector_server.js:26-53 | One cycle: the file changes only when a record is stored. A failed fetch, non-OK status or bad JSON leaves it unchanged and ends as a caught failure; an absent or empty list leaves it unchanged and ends silently. An unparseable file is never overwritten. The record is stored exactly when the list is non-empty, the file is readable, the key is absent and the write succeeds. It then goes to the head in front of the whole old history, so the length grows by one. Only old records and `list[0]` can be in the result. Distinct keys are preserved. |
| `Collection.Collector.Cycle` | collector_server.js:26-53 | The in-place cycle on `fileExists`/`parseable`/`history` keeps the representation invariant. It leaves exactly the file state and result that `Collect` gives for the old file. |
| `Collection.RunKeepsDistinct` | collector_server.js:45-56 | Over any sequence of timer ticks, a history with pairwise distinct `issueNumber`s keeps them distinct. |
| `Collection.RunKeepsOldHistory` | collector_server.js:45-56 | Over any sequence of ticks, the earlier history remains, in order, as the tail of the later one. At most one record is added per tick. |
| `Collection.RunStoresOnlyHeads` | collector_server.js:42-56 | Every record in the history after any ticks was already stored or was the first record of some tick's list. |
| `Collection.UnparseableIsPermanent` | collector_server.js:43-52 | A data file that does not parse stays exactly as it is, whatever the later responses are. |
| `Collection.IdleTicksChangeNothing` | collector_server.js:37-40 | Ticks whose response fails or carries no list, or an empty list, leave the file as it was. |
| `Collection.RepeatIsAlreadyStored` | collector_server.js:45-46 | A second cycle with the same latest record, right after it was stored, finds it already stored and changes nothing. |
| `Collection.OnlyFirstRecordMatters` | collector_server.js:42 | Two responses that agree on `list[0]` give the same cycle outcome, whatever follows it. |
| `Collection.StringAndNumberKeysBothStored` | collector_server.js:45 | Because `===` is type-sensitive, `"100"` and `100` are both stored, newest first. |
| `Access.Serve` | collector_server.js:59-76 | The reply is 401 `Unauthorized` exactly when the key is unset, empty or not equal to the header, and always when the header is missing. A granted request gets 404 with an empty history exactly when no file exists. Otherwise it gets 200 with the stored history, or the raw file when it does not parse. |
| `Access.ServeAfterStore` | collector_server.js:69-75 | After a cycle stores a record, a request with the right key gets 200. The stored record comes first, followed by the previous history. |

## Left out

- The outbound `fetch` (URL, fixed request body, `Date.now()` timestamp) is reduced to the `Response` outcome the cycle branches on.
- Filesystem calls (`existsSync`, `readFileSync`, `writeFileSync`, `mkdirSync`) are replaced by the abstract file state. Whether a write succeeds is a parameter of the cycle.
- A `writeFileSync` that fails after truncating the file (a torn write) is not modelled. A failed write leaves the file unchanged.
- Other top-level fields of the JSON document are not modelled. `JSON.stringify` rewrites them unchanged.
- The formatting of the file (two-space indented JSON) is not modelled.
- List elements that are not objects (for example `null`) are not modelled: records are always objects here.
- `issueNumber` values that are non-integer numbers, `NaN`, booleans or objects are not modelled. Numbers are integers compared by value.
- An `issueNumber` of JSON `null` has no `IssueNumber` constructor (in the code `null === null` holds and `null !== undefined`).
- `Num(value)` is the value after `JSON.parse`. Numerals above 2^53 are rounded by the parser, so two different numerals can compare `===` and the newer record is then dropped as already stored; the model takes numbers as exact integers.
- `setInterval` scheduling is not modelled. Cycles may overlap while awaiting the fetch or the body, but the read-modify-write of collector_server.js:42-49 contains no `await`, so two cycles never interleave inside it: `Run` is exact for the file, with ticks taken in the order their bodies finished parsing.
- Express setup, CORS, JSON body parsing, `/ping`, `app.listen`, `dotenv` and console logging are HTTP and process plumbing. The logged path of a cycle is its `CycleResult`.
- `res.sendFile` is reduced to its body. A file deleted between `existsSync` and `sendFile` is not modelled.
- Header matching is exact string equality. The timing behaviour of `!==` and Express's header-name case handling are not modelled.
