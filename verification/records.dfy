/**
 * Game-result records as the collector sees them: an `issueNumber` that is only
 * ever compared with JavaScript's strict equality, and a payload that is passed
 * through untouched.
 */
module Records {

  /** The value of a record's `issueNumber` property. Strict equality (`===`)
      never equates a string with a number, so `Str("100")` and `Num(100)` are
      different keys; a record without the property has the key `Undefined`,
      and `undefined === undefined` holds. */
  datatype IssueNumber = Str(text: string) | Num(value: int) | Undefined

  /** One upstream game result. `details` stands for every other field of the
      JSON object, which the collector stores and serves without reading. */
  datatype Record = Record(issueNumber: IssueNumber, details: string)

  /** `history.some(h => h.issueNumber === key)`: scans from the head and stops
      at the first record whose key is strictly equal to `key`. */
  function Contains(history: seq<Record>, key: IssueNumber): (found: bool)
    ensures found <==> exists i :: 0 <= i < |history| && history[i].issueNumber == key
  {
    if history == [] then false
    else if history[0].issueNumber == key then true
    else
      var found := Contains(history[1..], key);
      assert found ==> exists i :: 1 <= i < |history| && history[i].issueNumber == key by {
        if found {
          var j :| 0 <= j < |history[1..]| && history[1..][j].issueNumber == key;
          assert history[j + 1].issueNumber == key;
        }
      }
      found
  }

  /** No two records of the history share an `issueNumber`. */
  predicate DistinctKeys(history: seq<Record>)
  {
    forall i, j :: 0 <= i < j < |history| ==> history[i].issueNumber != history[j].issueNumber
  }

  /** `tail` is what remains of `whole` after some records were put in front. */
  predicate IsSuffix(tail: seq<Record>, whole: seq<Record>)
  {
    |tail| <= |whole| && whole[|whole| - |tail|..] == tail
  }

  /** Putting a record whose key is absent in front of a history with distinct
      keys keeps the keys distinct, and the old history stays its suffix. */
  lemma {:induction false} PrependFreshKey(r: Record, history: seq<Record>)
    requires !Contains(history, r.issueNumber)
    ensures DistinctKeys(history) ==> DistinctKeys([r] + history)
    ensures IsSuffix(history, [r] + history)
  {
  }

  /** Being a suffix is transitive. */
  lemma {:induction false} SuffixTrans(a: seq<Record>, b: seq<Record>, c: seq<Record>)
    requires IsSuffix(a, b) && IsSuffix(b, c)
    ensures IsSuffix(a, c)
  {
  }
}
