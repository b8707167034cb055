/**
 * The collection cycle of the data collector: take the first record of the
 * upstream list, load the persisted history (a missing file reads as empty),
 * and, when no stored record has the same `issueNumber`, put the record at the
 * head and rewrite the file. Any failure on the way is caught and leaves the
 * file as it was.
 */
module Collection {
  import opened Records

  /** What one upstream request yields, reduced to what the cycle branches on. */
  datatype Response =
    | FetchRejected           // the request itself failed (network error)
    | NotOk(status: int)      // the response status was not 2xx
    | BodyNotJson             // the body could not be parsed as JSON
    | Received(body: Payload) // a JSON body

  /** Where `data.list` of the JSON body stands. */
  datatype Payload = NoList | List(items: seq<Record>)

  /** The persisted data file. `Unparseable` covers a file whose text is not
      JSON and a JSON document without a `history` array: reading either makes
      the cycle throw. */
  datatype StoredFile = Missing | Document(history: seq<Record>) | Unparseable

  /** The path one cycle took, as its log lines tell it. */
  datatype CycleResult =
    | Failed         // an exception was caught and logged
    | NoData         // the list was absent or empty: silent return
    | AlreadyStored  // the latest record's key is already in the history
    | Stored         // the record was put at the head and the file rewritten

  /** One cycle and the state it leaves. */
  datatype Step = Step(file: StoredFile, result: CycleResult)

  /** One firing of the timer: the upstream response and whether writing the
      file would succeed. */
  datatype Tick = Tick(response: Response, writeSucceeds: bool)

  /** The response carries a non-empty list, so the cycle goes on to the store. */
  predicate HasLatest(response: Response)
  {
    response.Received? && response.body.List? && |response.body.items| > 0
  }

  /** `list[0]`: the only record a cycle considers. */
  function Latest(response: Response): Record
    requires HasLatest(response)
  {
    response.body.items[0]
  }

  /** The history a cycle starts from: a missing file reads as empty. */
  function Loaded(file: StoredFile): seq<Record>
  {
    if file.Document? then file.history else []
  }

  /** Stored histories never repeat a key. */
  predicate WellFormed(file: StoredFile)
  {
    DistinctKeys(Loaded(file))
  }

  /** One collection cycle over values: the reference the class method
      `Collector.Cycle` is proved against. */
  function Collect(file: StoredFile, response: Response, writeSucceeds: bool): (s: Step)
    // only a successful store touches the file
    ensures s.result != Stored ==> s.file == file
    // failures and empty lists end the cycle before the store is read
    ensures !HasLatest(response) ==> s.file == file && s.result in {Failed, NoData}
    ensures !response.Received? ==> s.result == Failed
    ensures response.Received? && !HasLatest(response) ==> s.result == NoData
    // a file that cannot be parsed is never overwritten
    ensures file.Unparseable? ==> s.file == file
    ensures file.Unparseable? && HasLatest(response) ==> s.result == Failed
    // the duplicate test is strict equality on issueNumber
    ensures s.result == AlreadyStored <==>
              HasLatest(response) && !file.Unparseable? && Contains(Loaded(file), Latest(response).issueNumber)
    ensures s.result == Stored <==>
              HasLatest(response) && !file.Unparseable? && !Contains(Loaded(file), Latest(response).issueNumber)
              && writeSucceeds
    // a stored record goes to the head, in front of the whole old history
    ensures s.result == Stored ==> s.file == Document([Latest(response)] + Loaded(file))
    ensures |Loaded(s.file)| <= |Loaded(file)| + 1
    ensures IsSuffix(Loaded(file), Loaded(s.file))
    ensures forall r :: r in Loaded(s.file) ==> r in Loaded(file) || (HasLatest(response) && r == Latest(response))
    ensures WellFormed(file) ==> WellFormed(s.file)
  {
    if !response.Received? then Step(file, Failed)
    else if !HasLatest(response) then Step(file, NoData)
    else if file.Unparseable? then Step(file, Failed)
    else
      var latest := Latest(response);
      var history := Loaded(file);
      if Contains(history, latest.issueNumber) then Step(file, AlreadyStored)
      else if !writeSucceeds then Step(file, Failed)
      else
        PrependFreshKey(latest, history);
        Step(Document([latest] + history), Stored)
  }

  /** The file after the timer fired once per tick. */
  ghost function Run(file: StoredFile, ticks: seq<Tick>): StoredFile
    decreases |ticks|
  {
    if ticks == [] then file
    else Run(Collect(file, ticks[0].response, ticks[0].writeSucceeds).file, ticks[1..])
  }

  /** The records that some tick offered as `list[0]`. */
  ghost function Heads(ticks: seq<Tick>): set<Record>
    decreases |ticks|
  {
    if ticks == [] then {}
    else (if HasLatest(ticks[0].response) then {Latest(ticks[0].response)} else {}) + Heads(ticks[1..])
  }

  /** However many cycles run, the stored keys stay pairwise distinct. */
  lemma {:induction false} RunKeepsDistinct(file: StoredFile, ticks: seq<Tick>)
    requires WellFormed(file)
    ensures WellFormed(Run(file, ticks))
    decreases |ticks|
  {
    if ticks != [] {
      RunKeepsDistinct(Collect(file, ticks[0].response, ticks[0].writeSucceeds).file, ticks[1..]);
    }
  }

  /** Cycles only ever put records in front: the earlier history stays, in
      order, at the tail, and each cycle adds at most one record. */
  lemma {:induction false} RunKeepsOldHistory(file: StoredFile, ticks: seq<Tick>)
    ensures IsSuffix(Loaded(file), Loaded(Run(file, ticks)))
    ensures |Loaded(Run(file, ticks))| <= |Loaded(file)| + |ticks|
    decreases |ticks|
  {
    if ticks != [] {
      var next := Collect(file, ticks[0].response, ticks[0].writeSucceeds).file;
      RunKeepsOldHistory(next, ticks[1..]);
      SuffixTrans(Loaded(file), Loaded(next), Loaded(Run(next, ticks[1..])));
    }
  }

  /** Every stored record was already stored or was the first record of some
      upstream list: the rest of each list never reaches the history. */
  lemma {:induction false} RunStoresOnlyHeads(file: StoredFile, ticks: seq<Tick>)
    ensures forall r :: r in Loaded(Run(file, ticks)) ==> r in Loaded(file) || r in Heads(ticks)
    decreases |ticks|
  {
    if ticks != [] {
      var next := Collect(file, ticks[0].response, ticks[0].writeSucceeds).file;
      RunStoresOnlyHeads(next, ticks[1..]);
    }
  }

  /** A file that cannot be parsed makes every later cycle fail, so it is
      never repaired and never overwritten. */
  lemma {:induction false} UnparseableIsPermanent(ticks: seq<Tick>)
    ensures Run(Unparseable, ticks) == Unparseable
    decreases |ticks|
  {
    if ticks != [] {
      UnparseableIsPermanent(ticks[1..]);
    }
  }

  /** A response without a usable record changes nothing, so a failed cycle
      does not disturb the cycles after it. */
  lemma {:induction false} IdleTicksChangeNothing(file: StoredFile, ticks: seq<Tick>)
    requires forall i :: 0 <= i < |ticks| ==> !HasLatest(ticks[i].response)
    ensures Run(file, ticks) == file
    decreases |ticks|
  {
    if ticks != [] {
      IdleTicksChangeNothing(file, ticks[1..]);
    }
  }

  /** Running a cycle again with the same latest record never adds it twice. */
  lemma RepeatIsAlreadyStored(file: StoredFile, response: Response, w1: bool, w2: bool)
    requires Collect(file, response, w1).result == Stored
    ensures Collect(Collect(file, response, w1).file, response, w2) == Step(Collect(file, response, w1).file, AlreadyStored)
  {
  }

  /** Only `list[0]` matters: what follows it in the list has no effect. */
  lemma OnlyFirstRecordMatters(file: StoredFile, latest: Record, rest1: seq<Record>, rest2: seq<Record>, w: bool)
    ensures Collect(file, Received(List([latest] + rest1)), w) == Collect(file, Received(List([latest] + rest2)), w)
  {
  }

  /** Strict equality tells a string key from a numeric one: the same period
      sent once as "100" and once as 100 is stored twice. */
  lemma StringAndNumberKeysBothStored(details: string)
    ensures var first := Collect(Missing, Received(List([Record(Str("100"), details)])), true);
            var second := Collect(first.file, Received(List([Record(Num(100), details)])), true);
            second.file == Document([Record(Num(100), details), Record(Str("100"), details)])
  {
  }

  /**
   * The collector's persisted state, updated in place by each cycle.
   * `history` is the parsed `history` array of the data file; it is only
   * meaningful when the file exists and parses.
   */
  class Collector {
    var fileExists: bool
    var parseable: bool
    var history: seq<Record>

    /** One representation per file state. */
    predicate Valid()
      reads this
    {
      (!fileExists ==> parseable) && (!fileExists || !parseable ==> history == [])
    }

    /** The data file the fields stand for. */
    function File(): StoredFile
      reads this
    {
      if !fileExists then Missing else if parseable then Document(history) else Unparseable
    }

    constructor (initial: StoredFile)
      ensures Valid() && File() == initial
    {
      fileExists := !initial.Missing?;
      parseable := !initial.Unparseable?;
      history := Loaded(initial);
    }

    /** `dataCollectionCycle`: the early exits are the thrown errors and the
        silent return; a failed write discards the in-memory copy. */
    method Cycle(response: Response, writeSucceeds: bool) returns (result: CycleResult)
      requires Valid()
      modifies this
      ensures Valid()
      ensures Step(File(), result) == Collect(old(File()), response, writeSucceeds)
    {
      if !response.Received? {
        return Failed;
      }
      if response.body.NoList? || |response.body.items| == 0 {
        return NoData;
      }
      var latest := response.body.items[0];
      var store: seq<Record>;
      if fileExists {
        if !parseable {
          return Failed;
        }
        store := history;
      } else {
        store := [];
      }
      if Contains(store, latest.issueNumber) {
        return AlreadyStored;
      }
      store := [latest] + store;
      if !writeSucceeds {
        return Failed;
      }
      fileExists, parseable, history := true, true, store;
      return Stored;
    }
  }
}
