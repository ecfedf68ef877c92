/**
  `each_slice(ID_API_REQUEST_LIMIT)`: the request list is cut, in order, into
  consecutive groups of at most 25 IDs, one Rehydration API request per group.
 */
module Batching {

  /** `ID_API_REQUEST_LIMIT`: the most IDs one Rehydration API request may carry. */
  const IdApiRequestLimit: nat := 25

  /** The groups `each_slice(25)` yields: full groups of 25, then the remainder if any. */
  function Batches<T>(ids: seq<T>): (groups: seq<seq<T>>)
    ensures forall k :: 0 <= k < |groups| ==> 0 < |groups[k]| <= IdApiRequestLimit
    ensures forall k :: 0 <= k < |groups| - 1 ==> |groups[k]| == IdApiRequestLimit
    decreases |ids|
  {
    if ids == [] then []
    else if |ids| <= IdApiRequestLimit then [ids]
    else [ids[..IdApiRequestLimit]] + Batches(ids[IdApiRequestLimit..])
  }

  /** The groups run together again (`groups.flatten`). */
  function Flatten<T>(groups: seq<seq<T>>): seq<T> {
    if groups == [] then [] else groups[0] + Flatten(groups[1..])
  }

  /** The groups, concatenated in order, are exactly the request list. */
  lemma {:induction false} BatchesPartition<T>(ids: seq<T>)
    ensures Flatten(Batches(ids)) == ids
    decreases |ids|
  {
    if |ids| > IdApiRequestLimit {
      BatchesPartition(ids[IdApiRequestLimit..]);
      assert ids == ids[..IdApiRequestLimit] + ids[IdApiRequestLimit..];
    } else if ids != [] {
      assert Flatten(Batches(ids)) == ids + Flatten<T>([]);
    }
  }

  /** One request per started group of 25: ceil(N / 25) requests for N IDs, none for none. */
  lemma {:induction false} BatchCount<T>(ids: seq<T>)
    ensures |Batches(ids)| == (|ids| + IdApiRequestLimit - 1) / IdApiRequestLimit
    decreases |ids|
  {
    if |ids| > IdApiRequestLimit {
      BatchCount(ids[IdApiRequestLimit..]);
    }
  }
}
