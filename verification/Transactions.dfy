/** The requests to one remote node: their transaction numbers, their resends and how they end,
    under any order of answers, timers and time. */
module Transactions {
  import opened Options
  import opened Bits

  datatype Ending = Answered | Refused | Misunderstood | TimedOut | Stopped

  /** When a request started at a time is sent for the k-th time, counting from 0. */
  function When(start: int, d: nat, k: nat): int {
    start + d * (Pow2(k) - 1)
  }

  lemma WhenNext(start: int, d: nat, k: nat)
    ensures When(start, d, k + 1) == When(start, d, k) + d * Pow2(k)
    ensures d > 0 ==> When(start, d, k) < When(start, d, k + 1)
    ensures When(start, d, 0) == start
  {
    Distribute(d, Pow2(k));
    assert Pow2(k + 1) == 2 * Pow2(k) && Pow2(0) == 1;
  }

  lemma Distribute(d: nat, p: int)
    requires p >= 1
    ensures d * (2 * p - 1) == d * (p - 1) + d * p
    ensures d > 0 ==> d * p > 0
  {
  }

  lemma DoubleDelay(d: nat, p: nat)
    ensures d * p * 2 == d * (2 * p)
  {
  }

  lemma {:induction false} WhenGrows(start: int, d: nat, j: nat, k: nat)
    requires d > 0 && j < k
    ensures When(start, d, j) < When(start, d, k)
    decreases k - j
  {
    WhenNext(start, d, j);
    if j + 1 < k {
      WhenGrows(start, d, j + 1, k);
    }
  }

  /** A request that is made at a time is queued at once, then no sooner than the delay after it was last sent,
      which doubles each time, and never after its time is over. */
  ghost predicate SpacedAt(queuedAt: seq<int>, sent: seq<int>, start: int, d: nat, T: nat, k: nat) {
    && k < |queuedAt| && queuedAt[k] <= start + T && (k < |sent| ==> queuedAt[k] <= sent[k])
    && (if k == 0 then queuedAt[0] == start else k <= |sent| && sent[k - 1] + d * Pow2(k - 1) <= queuedAt[k])
  }

  ghost predicate Spaced(queuedAt: seq<int>, sent: seq<int>, start: int, d: nat, T: nat) {
    forall k: nat :: k < |queuedAt| ==> SpacedAt(queuedAt, sent, start, d, T, k)
  }

  lemma SpacedSend(queuedAt: seq<int>, sent: seq<int>, start: int, d: nat, T: nat, now: int)
    requires Spaced(queuedAt, sent, start, d, T) && |queuedAt| == |sent| + 1 && queuedAt[|sent|] <= now
    ensures Spaced(queuedAt, sent + [now], start, d, T)
  {
    forall k: nat | k < |queuedAt| ensures SpacedAt(queuedAt, sent + [now], start, d, T, k) {
      assert SpacedAt(queuedAt, sent, start, d, T, k);
    }
  }

  lemma SpacedQueue(queuedAt: seq<int>, sent: seq<int>, start: int, d: nat, T: nat, now: int)
    requires Spaced(queuedAt, sent, start, d, T) && |queuedAt| == |sent| >= 1 && now <= start + T
    requires sent[|sent| - 1] + d * Pow2(|sent| - 1) <= now
    ensures Spaced(queuedAt + [now], sent, start, d, T)
  {
    forall k: nat | k < |queuedAt| + 1 ensures SpacedAt(queuedAt + [now], sent, start, d, T, k) {
      if k < |queuedAt| { assert SpacedAt(queuedAt, sent, start, d, T, k); }
    }
  }

  /** However late the reactor is, no send comes too soon, and none is queued when the time is over. */
  lemma {:induction false} NeverEarly(queuedAt: seq<int>, sent: seq<int>, start: int, d: nat, T: nat, k: nat)
    requires Spaced(queuedAt, sent, start, d, T) && k < |queuedAt|
    ensures When(start, d, k) <= queuedAt[k] <= start + T && (k < |sent| ==> queuedAt[k] <= sent[k])
    decreases k
  {
    assert SpacedAt(queuedAt, sent, start, d, T, k);
    if k == 0 {
      WhenNext(start, d, 0);
    } else {
      NeverEarly(queuedAt, sent, start, d, T, k - 1);
      WhenNext(start, d, k - 1);
    }
  }

  /** A request that has been made. The calls that the reactor still has to make for it are part of it:
      a number of calls to send at once, and the times of the two timers. */
  class KrpcRequest {
    const tid: string
    const start: int
    var delay: int
    var queued: nat
    var laterNextTimeout: Option<int>
    var laterFinalTimeout: Option<int>
    /** When it was queued to be sent, when it was sent, and how it has ended. */
    ghost var queuedAt: seq<int>
    ghost var sent: seq<int>
    ghost var endings: seq<Ending>

    constructor (tid: string, now: int, d: nat, T: nat)
      requires d > 0
      ensures this.tid == tid && start == now && endings == [] && sent == [] && queued == 1
      ensures Ok(now, d, T) && OnTime(now, d, T)
    {
      this.tid, start, delay := tid, now, d;
      laterNextTimeout := None;
      laterFinalTimeout := Some(now + T);
      queued := 1;
      queuedAt, sent, endings := [now], [], [];
      new;
      WhenNext(now, d, 0);
    }

    /** What holds of a request at any time, however late the reactor makes its calls. */
    ghost predicate Ok(now: int, d: nat, T: nat)
      reads this
    {
      && start <= now && |endings| <= 1 && Waiting(d)
      && Spaced(queuedAt, sent, start, d, T)
      && laterFinalTimeout == (if endings == [] then Some(start + T) else None)
      && (endings == [] ==> queued == 1 || laterNextTimeout.Some?)
      && (queued == 1 ==> queuedAt[|sent|] <= now) && (endings == [TimedOut] ==> start + T <= now)
    }

    /** It waits to be sent at once, or for its next timeout, or for nothing. */
    ghost predicate Waiting(d: nat)
      reads this
    {
      && queued <= 1 && |queuedAt| == |sent| + queued && (queued == 1 ==> laterNextTimeout == None)
      && (queued == 1 ==> delay == d * Pow2(|sent|))
      && (laterNextTimeout.Some? ==>
            |sent| >= 1 && delay == d * Pow2(|sent| - 1) && laterNextTimeout.value == sent[|sent| - 1] + delay)
    }

    /** What holds besides if no call was made late. */
    ghost predicate OnTime(now: int, d: nat, T: nat)
      reads this
    {
      && (endings == [] ==> now <= start + T)
      && (queued == 1 ==> now == When(start, d, |sent|))
      && (laterNextTimeout.Some? ==> now <= laterNextTimeout.value == When(start, d, |sent|))
      && (forall k :: 0 <= k < |sent| ==> sent[k] == When(start, d, k))
      && (endings == [TimedOut] ==> forall k: nat :: When(start, d, k) < start + T ==> k < |sent|)
    }

    /** send: the assertion of the program holds, and the next timeout is set. */
    method Send(now: int, ghost d: nat, ghost T: nat, ghost punctual: bool)
      requires Ok(now, d, T) && queued == 1 && (punctual ==> OnTime(now, d, T))
      modifies this
      ensures Ok(now, d, T) && queued == 0 && (punctual ==> OnTime(now, d, T))
      ensures sent == old(sent) + [now] && endings == old(endings) && queuedAt == old(queuedAt)
    {
      assert laterNextTimeout == None;
      WhenNext(start, d, |sent|);
      SpacedSend(queuedAt, sent, start, d, T, now);
      queued := queued - 1;
      laterNextTimeout := Some(now + delay);
      sent := sent + [now];
    }

    /** nextTimeout before the end of the request's time: it is queued again, unless the connection is stopped. */
    method NextTimeout(stopped: bool, ghost now: int, ghost d: nat, ghost T: nat, ghost punctual: bool)
      requires Ok(now, d, T) && laterNextTimeout.Some? && laterNextTimeout.value <= now && now - start <= T
      requires (stopped ==> endings != []) && (punctual ==> OnTime(now, d, T))
      modifies this`laterNextTimeout, this`delay, this`queued, this`queuedAt
      ensures Ok(now, d, T) && queued == (if stopped then 0 else 1) && (punctual ==> OnTime(now, d, T))
      ensures queuedAt == old(queuedAt) + if stopped then [] else [now]
    {
      WhenNext(start, d, |sent| - 1);
      laterNextTimeout := None;
      if !stopped {
        DoubleDelay(d, Pow2(|sent| - 1));
        assert Pow2(|sent|) == 2 * Pow2(|sent| - 1);
        SpacedQueue(queuedAt, sent, start, d, T, now);
        delay := delay * 2;
        queued, queuedAt := queued + 1, queuedAt + [now];
      }
    }

    /** dropTimeOut, then the callback or errback that ends the request. */
    method Resolve(ending: Ending, ghost now: int, ghost d: nat, ghost T: nat, ghost punctual: bool)
      requires Ok(now, d, T) && endings == [] && (punctual ==> OnTime(now, d, T))
      requires ending == TimedOut ==> start + T <= now && d > 0
      modifies this
      ensures Ok(now, d, T) && endings == [ending] && laterNextTimeout == None && laterFinalTimeout == None
      ensures sent == old(sent) && queued == old(queued) && queuedAt == old(queuedAt)
      ensures punctual ==> OnTime(now, d, T)
    {
      if punctual && ending == TimedOut {
        forall k: nat | When(start, d, k) < start + T ensures k < |sent| {
          if k > |sent| { WhenGrows(start, d, |sent|, k); }
        }
      }
      DropTimeOut();
      endings := [ending];
    }

    method DropTimeOut()
      modifies this`laterNextTimeout, this`laterFinalTimeout
      ensures laterNextTimeout == None && laterFinalTimeout == None
    {
      laterFinalTimeout := None;
      laterNextTimeout := None;
    }
  }

  /** What has happened to a request, and whether it has at most been stopped since. */
  datatype Record = Record(sent: seq<int>, endings: seq<Ending>)

  predicate StoppedSince(before: Record, after: Record) {
    after == before || (before.endings == [] && after == before.(endings := [Stopped]))
  }

  /** The connection to one remote node. */
  class Krpc {
    const d: nat
    const T: nat
    var now: int
    var tids: map<string, KrpcRequest>
    var stopped: bool
    ghost var requests: set<KrpcRequest>
    /** Whether every call was made when it was due. */
    ghost var punctual: bool

    constructor (d: nat, T: nat, now: int)
      requires d > 0
      ensures Valid() && requests == {} && !stopped && this.d == d && this.T == T && this.now == now && punctual
    {
      this.d, this.T, this.now, punctual := d, T, now, true;
      tids, stopped, requests := map[], false, {};
    }

    /** In every reachable state the transaction numbers stand for exactly the requests without an end. */
    ghost predicate Valid()
      reads this, requests
    {
      && d > 0
      && (forall r :: r in requests ==> r.Ok(now, d, T) && (punctual ==> r.OnTime(now, d, T)))
      && Pending()
      && (forall r, s :: r in requests && s in requests && r.tid == s.tid ==> r == s)
      && (stopped ==> tids == map[])
    }

    ghost predicate Pending()
      reads this, requests
    {
      && (forall t :: t in tids ==> tids[t] in requests && tids[t].tid == t && tids[t].endings == [])
      && (forall r :: r in requests && r.endings == [] ==> r.tid in tids && tids[r.tid] == r)
    }

    /** Nothing is known about the other requests of a changed connection but that they are as they were. */
    twostate predicate OthersUnchanged(r: KrpcRequest)
      reads this, requests
    {
      && requests == old(requests)
      && forall s :: s in requests && s != r ==>
           s.sent == old(s.sent) && s.endings == old(s.endings) && s.queued == old(s.queued)
           && s.queuedAt == old(s.queuedAt)
    }

    /** sendRequest, with a transaction number never used before. */
    method SendRequest(newTID: string) returns (req: KrpcRequest?)
      requires Valid() && forall r :: r in requests ==> r.tid != newTID
      modifies this
      ensures Valid() && stopped == old(stopped) && now == old(now)
      ensures old(stopped) ==> req == null && requests == old(requests)
      ensures !old(stopped) ==> req != null && fresh(req) && req.tid == newTID && requests == old(requests) + {req}
      ensures !old(stopped) ==> tids == old(tids)[newTID := req]
    {
      if stopped {
        return null;
      }
      req := new KrpcRequest(newTID, now, d, T);
      Register(req);
    }

    method Register(req: KrpcRequest)
      requires Valid() && !stopped && req.Ok(now, d, T) && req.OnTime(now, d, T) && req.endings == []
      requires forall r :: r in requests ==> r.tid != req.tid
      modifies this`tids, this`requests
      ensures Valid() && requests == old(requests) + {req} && tids == old(tids)[req.tid := req]
    {
      assert forall r :: r in requests ==> r != req && r.tid != req.tid;
      tids := tids[req.tid := req];
      requests := requests + {req};
      assert Pending();
    }

    /** datagramReceived for a response, an error or a message of unknown type: only the request with its
        transaction number ends, and only if it has not ended. */
    method Received(tid: string, ending: Ending) returns (found: bool)
      requires Valid() && ending != TimedOut
      modifies this`tids, requests
      ensures Valid() && requests == old(requests)
      ensures found <==> tid in old(tids)
      ensures tids == old(tids) - {tid}
      ensures found ==> old(tids)[tid].endings == [ending] && OthersUnchanged(old(tids)[tid])
      ensures !found ==> forall r :: r in requests ==> r.endings == old(r.endings)
    {
      found := tid in tids;
      if found {
        var req := tids[tid];
        tids := tids - {tid};
        req.Resolve(ending, now, d, T, punctual);
      }
    }

    /** The reactor makes a queued call to send. */
    method FireSend(req: KrpcRequest)
      requires Valid() && req in requests && req.queued > 0
      modifies req
      ensures Valid() && req.sent == old(req.sent) + [now] && req.endings == old(req.endings)
    {
      req.Send(now, d, T, punctual);
    }

    /** The reactor calls nextTimeout, when it is due or later: one more send is queued as long as the time of
        the request is not over and the connection not stopped; else the request ends, if it has not. */
    method FireNextTimeout(req: KrpcRequest)
      requires Valid() && req in requests && req.laterNextTimeout.Some? && req.laterNextTimeout.value <= now
      modifies this`tids, req
      ensures Valid() && req.sent == old(req.sent)
      ensures now - req.start <= T ==> req.endings == old(req.endings) && tids == old(tids)
      ensures now - req.start > T ==>
                req.endings == (if old(req.endings) == [] then [TimedOut] else old(req.endings))
                    && tids == old(tids) - {req.tid}
      ensures req.queued == if now - req.start <= T && !stopped then 1 else 0
      ensures req.queuedAt == old(req.queuedAt) + if now - req.start <= T && !stopped then [now] else []
    {
      if now - req.start > T {
        FinalTimeout(req);
      } else {
        req.NextTimeout(stopped, now, d, T, punctual);
      }
    }

    /** The reactor calls finalTimeout, when it is due or later: the request ends. */
    method FireFinalTimeout(req: KrpcRequest)
      requires Valid() && req in requests && req.laterFinalTimeout.Some? && req.laterFinalTimeout.value <= now
      modifies this`tids, req
      ensures Valid() && req.endings == [TimedOut] && old(req.endings) == []
      ensures req.sent == old(req.sent) && tids == old(tids) - {req.tid}
    {
      FinalTimeout(req);
    }

    /** finalTimeout and timeOut: a request that has ended already stays as it is. */
    method FinalTimeout(req: KrpcRequest)
      requires Valid() && req in requests && now >= req.start + T
      modifies this`tids, req
      ensures Valid() && req.sent == old(req.sent) && tids == old(tids) - {req.tid}
      ensures req.endings == if old(req.endings) == [] then [TimedOut] else old(req.endings)
      ensures req.queued == old(req.queued) && req.queuedAt == old(req.queuedAt)
    {
      if req.tid in tids {
        tids := tids - {req.tid};
        req.Resolve(TimedOut, now, d, T, punctual);
      } else {
        req.DropTimeOut();
      }
    }

    /** What has happened to each request. */
    ghost function Log(): map<KrpcRequest, Record>
      reads this`requests, requests
    {
      map r | r in requests :: Record(r.sent, r.endings)
    }

    /** Some requests that were pending have been stopped since, and nothing else has happened to any. */
    ghost predicate SomeStopped(log: map<KrpcRequest, Record>)
      reads this`requests, requests
    {
      log.Keys == requests && forall r :: r in requests ==> StoppedSince(log[r], Record(r.sent, r.endings))
    }

    /** stop: every pending request ends with an error. */
    method Stop()
      requires Valid()
      modifies this`tids, this`stopped, requests
      ensures Valid() && stopped && tids == map[] && requests == old(requests)
      ensures forall r :: r in requests ==> r.endings == (if old(r.endings) == [] then [Stopped] else old(r.endings))
      ensures forall r :: r in requests ==> r.sent == old(r.sent)
    {
      ghost var log := Log();
      StopAll(log);
      forall r | r in requests ensures r.endings != [] && StoppedSince(log[r], Record(r.sent, r.endings)) {
        EndsAtMostOnce(r);
      }
      stopped := true;
    }

    method StopAll(ghost log: map<KrpcRequest, Record>)
      requires Valid() && SomeStopped(log)
      modifies this`tids, requests
      ensures Valid() && tids == map[] && SomeStopped(log)
    {
      while tids != map[]
        invariant Valid() && SomeStopped(log)
        decreases tids.Keys
      {
        var t :| t in tids;
        assert tids[t] in requests;
        StopOne(t, log);
      }
    }

    method StopOne(t: string, ghost log: map<KrpcRequest, Record>)
      requires Valid() && t in tids && SomeStopped(log)
      modifies this`tids, tids[t]
      ensures Valid() && tids == old(tids) - {t} && SomeStopped(log)
    {
      var req := tids[t];
      tids := tids - {t};
      req.Resolve(Stopped, now, d, T, punctual);
    }

    /** No call is due before a time. */
    ghost predicate NothingDue(t: int)
      reads this`requests, requests
    {
      forall r :: r in requests ==>
        && r.queued == 0 && (r.laterNextTimeout.Some? ==> t <= r.laterNextTimeout.value)
        && (r.laterFinalTimeout.Some? ==> t <= r.laterFinalTimeout.value)
    }

    /** Time passes, and the reactor may be late with any of its calls. */
    method Advance(t: int)
      requires Valid() && now <= t
      modifies this`now, this`punctual
      ensures Valid() && now == t && punctual == (old(punctual) && (t == old(now) || NothingDue(t)))
    {
      punctual := punctual && (t == now || NothingDue(t));
      now := t;
    }

    /** A request ends at most once, and its number is pending exactly until then. */
    lemma EndsAtMostOnce(r: KrpcRequest)
      requires Valid() && r in requests
      ensures |r.endings| <= 1
      ensures r.endings == [] <==> r.tid in tids
      ensures r.tid in tids ==> tids[r.tid] == r
    {
      if r.tid in tids { assert tids[r.tid].tid == r.tid; }
    }

    /** However late the reactor is, a request is not sent for the k-th time before d * (2^k - 1), never queued
        to be sent when its time is over, and does not time out before. */
    lemma NeverTooSoon(r: KrpcRequest, k: nat)
      requires Valid() && r in requests
      ensures k < |r.sent| ==> When(r.start, d, k) <= r.queuedAt[k] <= r.sent[k]
      ensures k < |r.queuedAt| ==> When(r.start, d, k) <= r.queuedAt[k] <= r.start + T
      ensures r.endings == [TimedOut] ==> r.start + T <= now
    {
      if k < |r.queuedAt| { NeverEarly(r.queuedAt, r.sent, r.start, d, T, k); }
    }

    /** With the default delay of 2 and the default timeout of 9, no request is sent more than three times. */
    lemma AtMostThree(r: KrpcRequest)
      requires Valid() && r in requests && d == 2 && T == 9
      ensures |r.sent| <= 3
    {
      assert Pow2(0) == 1 && Pow2(1) == 2 && Pow2(2) == 4 && Pow2(3) == 8;
      if |r.sent| > 3 { NeverTooSoon(r, 3); }
    }

    /** If the reactor has made every call when it was due, a request that timed out was sent at the times
        d * (2^k - 1) before T, each once, in order, and at most once more, at T itself. */
    lemma SentAtItsTimes(r: KrpcRequest, k: nat)
      requires Valid() && r in requests && punctual
      ensures k < |r.sent| ==> r.sent[k] == When(r.start, d, k) <= r.start + T
      ensures r.endings == [TimedOut] && When(r.start, d, k) < r.start + T ==> k < |r.sent|
    {
      NeverTooSoon(r, k);
    }

    /** With the default delay and timeout, that is three times. */
    lemma DefaultTimes(r: KrpcRequest)
      requires Valid() && r in requests && r.endings == [TimedOut] && d == 2 && T == 9 && punctual
      ensures r.sent == [r.start, r.start + 2, r.start + 6]
    {
      assert Pow2(0) == 1 && Pow2(1) == 2 && Pow2(2) == 4 && Pow2(3) == 8;
      SentAtItsTimes(r, 2);
      SentAtItsTimes(r, 3);
      assert r.sent[0] == When(r.start, d, 0) && r.sent[1] == When(r.start, d, 1) && r.sent[2] == When(r.start, d, 2);
    }
  }
}
