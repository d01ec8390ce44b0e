/** A retrieval from its first batch to its callers. */
module Retrieval {
  import opened Options
  import opened Actions
  import opened Dht
  import opened Scalars

  /** The batches that an action delivers before its end. */
  function BatchesOf(calls: seq<Call>, n: nat): (r: seq<seq<Scalar>>)
    requires n <= |calls| && forall i :: 0 <= i < |calls| ==> calls[i].Batch?
    ensures |r| == n && forall i :: 0 <= i < n ==> r[i] == calls[i].values
  {
    if n == 0 then [] else BatchesOf(calls, n - 1) + [calls[n - 1].values]
  }

  /** Batches, and the empty one at the end. */
  predicate Ends(calls: seq<Call>) {
    && |calls| > 0 && (forall i :: 0 <= i < |calls| ==> calls[i].Batch?)
    && forall i :: 0 <= i < |calls| ==> (calls[i].values == [] <==> i == |calls| - 1)
  }

  /** The first n calls of a retrieval for a key have been made. */
  ghost predicate Fed(calls: seq<Call>, d: DHT, key: string, n: nat)
    reads d, d.place.Keys
  {
    && Ends(calls) && n < |calls| && d.Valid() && d.configured && d.joined
    && key in d.retrieving && d.batches[key] == BatchesOf(calls, n)
  }

  /** Another caller comes, for this key or another: it waits, and the retrieval goes on. */
  method Come(calls: seq<Call>, d: DHT, key: string, n: nat, name: string) returns (c: Deferred)
    requires Fed(calls, d, key, n)
    modifies d
    ensures Fed(calls, d, key, n) && fresh(c)
    ensures d.retrieving[key] == old(d.retrieving)[key] + if NormKey(name) == key then [c] else []
  {
    ghost var before := d.retrieving;
    var answer, started := d.GetValue(name);
    c := answer.d;
    Added(before, NormKey(name), key, c);
  }

  lemma Added<T>(m: map<string, seq<T>>, k: string, key: string, x: T)
    requires key in m
    ensures var m' := m[k := ValuesAt(m, k) + [x]];
            key in m' && m'[key] == m[key] + if k == key then [x] else []
  {
  }

  /** A call with values is made. */
  method Feed(calls: seq<Call>, d: DHT, key: string, n: nat)
    requires Fed(calls, d, key, n) && n + 1 < |calls|
    modifies d`retrieved, d`batches
    ensures Fed(calls, d, key, n + 1)
  {
    d.Gather(key, calls[n].values);
  }

  /** The last call: everybody who has come for the key by now is called with the decoded values of all
      batches, in order, and the key is forgotten. */
  method Last(calls: seq<Call>, d: DHT, key: string)
    requires |calls| > 0 && Fed(calls, d, key, |calls| - 1)
    modifies d, d.retrieving[key]
    ensures d.Valid() && d.retrieving == old(d.retrieving) - {key}
    ensures forall i :: 0 <= i < |old(d.retrieving)[key]| ==>
              old(d.retrieving)[key][i].result == Some(All(d.decode, BatchesOf(calls, |calls| - 1)))
  {
    d.Complete(key);
  }

  method MakeCalls(calls: seq<Call>, d: DHT, key: string)
    requires |calls| > 0 && Fed(calls, d, key, 0)
    modifies d, d.retrieving[key]
    ensures d.Valid() && d.retrieving == old(d.retrieving) - {key}
    ensures forall i :: 0 <= i < |old(d.retrieving)[key]| ==>
              old(d.retrieving)[key][i].result == Some(All(d.decode, BatchesOf(calls, |calls| - 1)))
  {
    FeedAll(calls, d, key);
    Last(calls, d, key);
  }

  method FeedAll(calls: seq<Call>, d: DHT, key: string)
    requires |calls| > 0 && Fed(calls, d, key, 0)
    modifies d`retrieved, d`batches
    ensures Fed(calls, d, key, |calls| - 1)
  {
    for n := 0 to |calls| - 1
      invariant Fed(calls, d, key, n)
    {
      Feed(calls, d, key, n);
    }
  }

  lemma EndsOnce(a: Action)
    requires a.Valid() && a.kind.GetValue? && a.finished
    ensures Ends(a.calls)
  {
  }

  /** The calls of a finished retrieval, made one after the other, give each caller exactly the decoded values
      of the batches of the action. */
  method Deliver(a: Action, d: DHT, key: string)
    requires a.Valid() && a.kind.GetValue? && a.finished
    requires d.Valid() && d.configured && d.joined && key in d.retrieving && d.batches[key] == []
    modifies d, d.retrieving[key]
    ensures d.Valid() && d.retrieving == old(d.retrieving) - {key} && Ends(a.calls)
    ensures forall i :: 0 <= i < |old(d.retrieving)[key]| ==>
              old(d.retrieving)[key][i].result == Some(All(d.decode, BatchesOf(a.calls, |a.calls| - 1)))
  {
    EndsOnce(a);
    MakeCalls(a.calls, d, key);
  }
}
