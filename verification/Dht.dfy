/** Many callers waiting for the values of one key: one search is made for all of them. */
module Dht {
  import opened Options
  import opened Bencode
  import opened BencodeRuns
  import opened Khash
  import opened Scalars

  /** Keys are cut, or filled with null bytes, to the length of a hash. */
  function NormKey(key: string): (r: string) {
    if |key| < HASH_LENGTH then key + seq(HASH_LENGTH - |key|, _ => '\0')
    else key[..HASH_LENGTH]
  }

  /** The byte of a key at a place, null after its end. */
  function Padded(key: string, i: nat): char {
    if i < |key| then key[i] else '\0'
  }

  /** Normal keys are what normalising leaves alone, and two keys meet exactly if they agree, up to null bytes,
      within the length of a hash. */
  lemma NormKeyNormal(key: string, other: string)
    ensures |NormKey(key)| == HASH_LENGTH && NormKey(NormKey(key)) == NormKey(key)
    ensures NormKey(key) == key <==> |key| == HASH_LENGTH
    ensures NormKey(key) == NormKey(other) <==> forall i :: 0 <= i < HASH_LENGTH ==> Padded(key, i) == Padded(other, i)
  {
    var n := NormKey(key);
    assert n[..HASH_LENGTH] == n;
    PaddedNorm(key);
    PaddedNorm(other);
  }

  lemma PaddedNorm(key: string)
    ensures forall i :: 0 <= i < HASH_LENGTH ==> NormKey(key)[i] == Padded(key, i)
  {
  }

  /** A caller's promise of a result. */
  class Deferred {
    var result: Option<seq<Value>>

    constructor ()
      ensures result == None
    {
      result := None;
    }

    method Callback(r: seq<Value>)
      requires result == None
      modifies this
      ensures result == Some(r)
    {
      result := Some(r);
    }
  }

  /** bdecode of what an answer brought: a number cannot be decoded again. */
  function Decode<V>(decode: string -> Option<V>, item: Scalar): Option<V> {
    if item.Chars? then decode(item.s) else None
  }

  /** The values of the first n items of a batch, if every one can be decoded. */
  function DecodeBatch<V>(decode: string -> Option<V>, batch: seq<Scalar>, n: nat): (r: Option<seq<V>>)
    requires n <= |batch|
    ensures r.Some? ==> |r.value| == n
  {
    if n == 0 then Some([])
    else
      var rest := DecodeBatch(decode, batch, n - 1);
      var v := Decode(decode, batch[n - 1]);
      if rest.Some? && v.Some? then Some(rest.value + [v.value]) else None
  }

  /** What a batch adds: nothing if one of its values cannot be decoded. */
  function Decoded<V>(decode: string -> Option<V>, batch: seq<Scalar>): seq<V> {
    match DecodeBatch(decode, batch, |batch|)
    case Some(vs) => vs
    case None => []
  }

  /** What the first n batches add together. */
  function Collected<V>(decode: string -> Option<V>, batches: seq<seq<Scalar>>, n: nat): seq<V>
    requires n <= |batches|
  {
    if n == 0 then [] else Collected(decode, batches, n - 1) + Decoded(decode, batches[n - 1])
  }

  lemma {:induction false} CollectedSame<V>(decode: string -> Option<V>, a: seq<seq<Scalar>>, b: seq<seq<Scalar>>,
                                            n: nat)
    requires n <= |a| && n <= |b| && forall i :: 0 <= i < n ==> a[i] == b[i]
    ensures Collected(decode, a, n) == Collected(decode, b, n)
  {
    if n > 0 {
      CollectedSame(decode, a, b, n - 1);
    }
  }

  function All<V>(decode: string -> Option<V>, batches: seq<seq<Scalar>>): seq<V> {
    Collected(decode, batches, |batches|)
  }

  /** One batch more. */
  lemma AllMore<V>(decode: string -> Option<V>, batches: seq<seq<Scalar>>, batch: seq<Scalar>)
    ensures All(decode, batches + [batch]) == All(decode, batches) + Decoded(decode, batch)
  {
    CollectedSame(decode, batches, batches + [batch], |batches|);
  }

  ghost predicate DecodesTo<V>(decode: string -> Option<V>, batch: seq<Scalar>, values: seq<V>) {
    |values| == |batch| && forall k :: 0 <= k < |batch| ==> Decode(decode, batch[k]) == Some(values[k])
  }

  lemma {:induction false} WholeBatch<V>(decode: string -> Option<V>, batch: seq<Scalar>, values: seq<V>, n: nat)
    requires DecodesTo(decode, batch, values) && n <= |batch|
    ensures DecodeBatch(decode, batch, n) == Some(values[..n])
  {
    if n > 0 {
      WholeBatch(decode, batch, values, n - 1);
      assert values[..n] == values[..n - 1] + [values[n - 1]];
    }
  }

  /** Of batches of values that can be decoded no value is lost. */
  lemma {:induction false} NoneLost<V>(decode: string -> Option<V>, batches: seq<seq<Scalar>>, values: seq<seq<V>>,
                                       n: nat, i: nat, k: nat)
    requires i < n <= |values| == |batches| && forall j :: 0 <= j < n ==> DecodesTo(decode, batches[j], values[j])
    requires k < |values[i]|
    ensures values[i][k] in Collected(decode, batches, n)
  {
    var last := batches[n - 1];
    WholeBatch(decode, last, values[n - 1], |last|);
    assert values[n - 1][..|last|] == values[n - 1];
    if i < n - 1 {
      NoneLost(decode, batches, values, n - 1, i, k);
    } else {
      assert Decoded(decode, last)[k] == values[i][k];
    }
  }

  /** A batch of values stored as this program stores them can be decoded, to what is left of them. */
  lemma StoredValuesDecode(decode: string -> Option<Value>, values: seq<Value>, batch: seq<Scalar>)
    requires IsBdecode(decode)
    requires |values| == |batch| && forall k :: 0 <= k < |batch| ==> batch[k] == Chars(Encode(values[k]))
    ensures DecodesTo(decode, batch, seq(|values|, k requires 0 <= k < |values| => Normal(values[k])))
  {
    forall k | 0 <= k < |batch| ensures Decode(decode, batch[k]) == Some(Normal(values[k])) {
      Undone(decode, values[k]);
    }
  }

  // ----- What is kept for each key

  /** The values kept for a key are those of all batches of its search. */
  ghost predicate KeptFor<V>(decode: string -> Option<V>, batches: seq<seq<Scalar>>, retrieved: map<string, seq<V>>,
                             k: string) {
    All(decode, batches) == ValuesAt(retrieved, k)
  }

  ghost predicate Kept<V>(decode: string -> Option<V>, batches: map<string, seq<seq<Scalar>>>,
                          retrieved: map<string, seq<V>>) {
    retrieved.Keys <= batches.Keys && forall k :: k in batches ==> KeptFor(decode, batches[k], retrieved, k)
  }

  /** dict.get with an empty list as the default. */
  function ValuesAt<T>(m: map<string, seq<T>>, k: string): seq<T> {
    if k in m then m[k] else []
  }

  lemma KeptNew<V>(decode: string -> Option<V>, batches: map<string, seq<seq<Scalar>>>,
                   retrieved: map<string, seq<V>>, k: string)
    requires Kept(decode, batches, retrieved) && k !in batches
    ensures Kept(decode, batches[k := []], retrieved)
  {
    var batches' := batches[k := []];
    forall l | l in batches' ensures KeptFor(decode, batches'[l], retrieved, l) {
      if l != k { assert KeptFor(decode, batches[l], retrieved, l); }
    }
  }

  lemma KeptMore<V>(decode: string -> Option<V>, batches: map<string, seq<seq<Scalar>>>,
                    retrieved: map<string, seq<V>>, k: string,
                    batch: seq<Scalar>)
    requires Kept(decode, batches, retrieved) && k in batches
    ensures Kept(decode, batches[k := batches[k] + [batch]],
            retrieved[k := ValuesAt(retrieved, k) + Decoded(decode, batch)])
  {
    AllMore(decode, batches[k], batch);
    var batches' := batches[k := batches[k] + [batch]];
    var retrieved' := retrieved[k := ValuesAt(retrieved, k) + Decoded(decode, batch)];
    forall l | l in batches' ensures KeptFor(decode, batches'[l], retrieved', l) {
      assert KeptFor(decode, batches[l], retrieved, l);
    }
  }

  lemma KeptForgotten<V>(decode: string -> Option<V>, batches: map<string, seq<seq<Scalar>>>,
                         retrieved: map<string, seq<V>>, k: string)
    requires Kept(decode, batches, retrieved)
    ensures Kept(decode, batches - {k}, retrieved - {k})
  {
    forall l | l in batches - {k} ensures KeptFor(decode, (batches - {k})[l], retrieved - {k}, l) {
      assert KeptFor(decode, batches[l], retrieved, l);
    }
  }

  // ----- Who waits

  predicate WaitsAt(retrieving: map<string, seq<Deferred>>, k: string, i: int) {
    k in retrieving && 0 <= i < |retrieving[k]|
  }

  /** Nobody waits at two places. */
  ghost predicate Placed(retrieving: map<string, seq<Deferred>>, place: map<Deferred, (string, int)>) {
    && (forall k :: k in retrieving ==> |retrieving[k]| > 0)
    && forall k, i :: WaitsAt(retrieving, k, i) ==> retrieving[k][i] in place && place[retrieving[k][i]] == (k, i)
  }

  lemma PlacedMore(retrieving: map<string, seq<Deferred>>, place: map<Deferred, (string, int)>, key: string,
                   d: Deferred)
    requires Placed(retrieving, place) && d !in place
    ensures Placed(retrieving[key := ValuesAt(retrieving, key) + [d]], place[d := (key, |ValuesAt(retrieving, key)|)])
  {
    var retrieving' := retrieving[key := ValuesAt(retrieving, key) + [d]];
    var place' := place[d := (key, |ValuesAt(retrieving, key)|)];
    forall k, i | WaitsAt(retrieving', k, i) ensures retrieving'[k][i] in place'
        && place'[retrieving'[k][i]] == (k, i) {
      if k != key || i < |ValuesAt(retrieving, key)| {
        assert WaitsAt(retrieving, k, i);
      }
    }
  }

  function PlacesWithout(place: map<Deferred, (string, int)>, key: string): map<Deferred, (string, int)> {
    map d | d in place && place[d].0 != key :: place[d]
  }

  lemma PlacedPlacesWithout(retrieving: map<string, seq<Deferred>>, place: map<Deferred, (string, int)>, key: string)
    requires Placed(retrieving, place)
    ensures Placed(retrieving - {key}, PlacesWithout(place, key))
  {
    forall k, i | WaitsAt(retrieving - {key}, k, i)
      ensures retrieving[k][i] in PlacesWithout(place, key) && PlacesWithout(place, key)[retrieving[k][i]] == (k, i)
    {
      assert WaitsAt(retrieving, k, i);
    }
  }

  /** Nobody has been called. */
  predicate Uncalled(waiters: set<Deferred>)
    reads waiters
  {
    forall d :: d in waiters ==> d.result == None
  }

  /** What getValue returns: an error, or a promise that is kept later. */
  datatype Promise = NotLoaded | NotJoined | Waits(d: Deferred)

  class DHT {
    const decode: string -> Option<Value>
    var configured: bool
    var joined: bool
    var retrieving: map<string, seq<Deferred>>
    var retrieved: map<string, seq<Value>>
    /** The batches that each search under way has delivered, and where everybody who waits stands. */
    ghost var batches: map<string, seq<seq<Scalar>>>
    ghost var place: map<Deferred, (string, int)>

    constructor (configured: bool, joined: bool, decode: string -> Option<Value>)
      ensures Valid() && retrieving == map[] && this.joined == joined && this.configured == configured
      ensures this.decode == decode
    {
      this.configured, this.joined, this.decode := configured, joined, decode;
      retrieving, retrieved, batches, place := map[], map[], map[], map[];
    }

    /** A search is under way for exactly the keys that somebody waits for; nobody waits twice, or has been called. */
    ghost predicate Valid()
      reads this, place.Keys
    {
      && retrieving.Keys == batches.Keys && Kept(decode, batches, retrieved) && Placed(retrieving, place)
      && Uncalled(place.Keys)
    }

    /** getValue: wait for the search for the key, which is started if there is none; an error before the
        configuration is loaded, and before joining. */
    method GetValue(name: string) returns (answer: Promise, started: bool)
      requires Valid()
      modifies this`retrieving, this`batches, this`place
      ensures Valid()
      ensures answer.NotLoaded? <==> !configured
      ensures answer.NotJoined? <==> configured && !joined
      ensures !answer.Waits? ==> !started && retrieving == old(retrieving)
      ensures answer.Waits? ==>
                && fresh(answer.d) && (started <==> NormKey(name) !in old(retrieving))
                && retrieving == old(retrieving)[NormKey(name) := ValuesAt(old(retrieving), NormKey(name)) + [answer.d]]
      ensures started ==> batches == old(batches)[NormKey(name) := []]
      ensures !started ==> batches == old(batches)
    {
      if !configured {
        return NotLoaded, false;
      }
      if !joined {
        return NotJoined, false;
      }
      var d;
      d, started := Join(NormKey(name));
      answer := Waits(d);
    }

    method Join(key: string) returns (d: Deferred, started: bool)
      requires Valid()
      modifies this`retrieving, this`batches, this`place
      ensures Valid() && fresh(d) && (started <==> key !in old(retrieving))
      ensures retrieving == old(retrieving)[key := ValuesAt(old(retrieving), key) + [d]]
      ensures started ==> batches == old(batches)[key := []]
      ensures !started ==> batches == old(batches)
    {
      d := new Deferred();
      started := key !in retrieving;
      if started {
        Search(key);
      }
      Enlist(key, d);
    }

    /** Somebody waits for the key, behind those who wait for it already. */
    method Enlist(key: string, d: Deferred)
      requires Placed(retrieving, place) && d !in place
      modifies this`retrieving, this`place
      ensures Placed(retrieving, place) && place.Keys == old(place).Keys + {d}
      ensures retrieving == old(retrieving)[key := ValuesAt(old(retrieving), key) + [d]]
      ensures retrieving.Keys == old(retrieving).Keys + {key}
    {
      PlacedMore(retrieving, place, key, d);
      place := place[d := (key, |ValuesAt(retrieving, key)|)];
      retrieving := retrieving[key := ValuesAt(retrieving, key) + [d]];
    }

    /** valueForKey: a search begins, which has delivered nothing yet. */
    ghost method Search(key: string)
      requires Kept(decode, batches, retrieved) && key !in batches
      modifies this`batches
      ensures Kept(decode, batches, retrieved) && batches == old(batches)[key := []]
      ensures batches.Keys == old(batches).Keys + {key}
    {
      KeptNew(decode, batches, retrieved, key);
      batches := batches[key := []];
    }

    /** _getValue with values: they are kept if all can be decoded. */
    method Gather(key: string, result: seq<Scalar>)
      requires Valid() && key in retrieving && result != []
      modifies this`retrieved, this`batches
      ensures Valid() && batches == old(batches)[key := old(batches)[key] + [result]]
      ensures retrieving == old(retrieving)
    {
      Note(key, result);
    }

    /** The batch and its values are kept together. */
    method Note(key: string, result: seq<Scalar>)
      requires Kept(decode, batches, retrieved) && key in batches
      modifies this`retrieved, this`batches
      ensures Kept(decode, batches, retrieved) && batches.Keys == old(batches).Keys
      ensures batches == old(batches)[key := old(batches)[key] + [result]]
    {
      KeptMore(decode, batches, retrieved, key, result);
      retrieved := retrieved[key := ValuesAt(retrieved, key) + Decoded(decode, result)];
      batches := batches[key := batches[key] + [result]];
    }

    /** _getValue with nothing more to come: everybody who waits for the key, and nobody else, is called,
        once, with the values of all batches of the search. */
    method Complete(key: string)
      requires Valid() && key in retrieving
      modifies this, retrieving[key]
      ensures Valid() && retrieving == old(retrieving) - {key} && batches == old(batches) - {key}
              && joined == old(joined)
      ensures forall i :: 0 <= i < |old(retrieving)[key]| ==>
                old(retrieving)[key][i].result == Some(All(decode, old(batches)[key]))
    {
      assert KeptFor(decode, batches[key], retrieved, key);
      assert forall i :: 0 <= i < |retrieving[key]| ==> WaitsAt(retrieving, key, i);
      CallAll(retrieving[key], ValuesAt(retrieved, key));
      Forget(key);
    }

    /** Nothing is kept for a key whose callers have been called. */
    method Forget(key: string)
      requires Kept(decode, batches, retrieved) && Placed(retrieving, place)
      modifies this`retrieving, this`retrieved, this`batches, this`place
      ensures Kept(decode, batches, retrieved) && Placed(retrieving, place)
      ensures retrieving == old(retrieving) - {key} && batches == old(batches) - {key}
              && place == PlacesWithout(old(place), key)
    {
      KeptForgotten(decode, batches, retrieved, key);
      PlacedPlacesWithout(retrieving, place, key);
      retrieved := retrieved - {key};
      retrieving := retrieving - {key};
      batches := batches - {key};
      place := PlacesWithout(place, key);
    }
  }

  method CallAll(waiters: seq<Deferred>, values: seq<Value>)
    requires forall i, j :: 0 <= i < j < |waiters| ==> waiters[i] != waiters[j]
    requires forall i :: 0 <= i < |waiters| ==> waiters[i].result == None
    modifies waiters
    ensures forall i :: 0 <= i < |waiters| ==> waiters[i].result == Some(values)
  {
    for i := 0 to |waiters|
      invariant forall j :: 0 <= j < i ==> waiters[j].result == Some(values)
      invariant forall j :: i <= j < |waiters| ==> waiters[j].result == None
    {
      waiters[i].Callback(values);
    }
  }
}
