/** The order of time: what every call keeps, of any table. */
module KTableTimes {
  import opened Options
  import opened Bits
  import opened KTableSpec
  import opened KTableLists
  import opened KTableRuns
  import opened KTableUpkeep

  /** Least recently seen first, and none after a time. */
  predicate Timely(nodes: seq<NodeInfo>, clock: int) {
    Chronological(nodes) && forall i :: 0 <= i < |nodes| ==> nodes[i].lastSeen <= clock
  }

  predicate AllTimely(bs: seq<Bucket>, clock: int) {
    forall i :: 0 <= i < |bs| ==> Timely(bs[i].nodes, clock)
  }

  lemma TimelySet(bs: seq<Bucket>, i: nat, nodes: seq<NodeInfo>, clock: int)
    requires i < |bs| && AllTimely(bs, clock) && Timely(nodes, clock)
    ensures AllTimely(SetNodes(bs, i, nodes), clock)
  {
  }

  lemma TimelyAdded(nodes: seq<NodeInfo>, n: NodeInfo, clock: int)
    requires Timely(nodes, clock) && n.lastSeen <= clock
    ensures Timely(AddByTime(nodes, n), clock)
  {
    AddByTimeChronological(nodes, n);
  }

  lemma TimelyRemoved(nodes: seq<NodeInfo>, i: nat, clock: int)
    requires Timely(nodes, clock) && i < |nodes|
    ensures Timely(RemoveAt(nodes, i), clock)
  {
    RemoveAtKeeps(nodes, i);
  }

  lemma TimelyKept(nodes: seq<NodeInfo>, j: nat, kept: seq<NodeInfo>, clock: int)
    requires Timely(nodes, clock) && j <= |nodes| && kept == if j < |nodes| then RemoveAt(nodes, j) else nodes
    ensures Timely(kept, clock)
  {
    if j < |nodes| { TimelyRemoved(nodes, j, clock); }
  }

  lemma {:induction false} TimelyHalves(nodes: seq<NodeInfo>, bound: nat, k: nat, clock: int)
    requires Timely(nodes, clock) && k <= |nodes|
    ensures Timely(Below(nodes, bound, k), clock) && Timely(From(nodes, bound, k), clock)
  {
    BelowChronological(nodes, bound, k);
    if k > 0 {
      TimelyHalves(nodes, bound, k - 1, clock);
      TimelyAdded(From(nodes, bound, k - 1), nodes[k - 1], clock);
    }
  }

  lemma TimelySplit(bs: seq<Bucket>, i: nat, clock: int)
    requires i < |bs| && bs[i].min <= bs[i].max && AllTimely(bs, clock)
    ensures AllTimely(SplitAt(bs, i), clock)
  {
    TimelyHalves(bs[i].nodes, SplitPoint(bs[i]), |bs[i].nodes|, clock);
    var cs := bs[i := LowerHalf(bs[i])];
    assert AllTimely(cs, clock);
    forall k | 0 <= k < |bs| + 1 ensures Timely(SplitAt(bs, i)[k].nodes, clock) {
      assert k < i + 1 ==> SplitAt(bs, i)[k] == cs[k];
      assert k > i + 1 ==> SplitAt(bs, i)[k] == cs[k - 1];
    }
  }

  lemma {:induction false} TimelyMerged(a: seq<NodeInfo>, i: nat, b: seq<NodeInfo>, k: nat, clock: int)
    requires Timely(a, clock) && Timely(b, clock) && i <= |a| && k <= |b|
    ensures Timely(MergeByTime(a, i, b, k), clock)
    decreases |a| - i + |b| - k
  {
    MergeChronological(a, i, b, k);
    if k < |b| {
      if i < |a| && a[i].lastSeen <= b[k].lastSeen {
        TimelyMerged(a, i + 1, b, k, clock);
      } else {
        TimelyMerged(a, i, b, k + 1, clock);
      }
    }
  }

  lemma {:induction false} TimelyMergeFrom(bs: seq<Bucket>, i: nat, clock: int)
    requires i < |bs| && AllTimely(bs, clock)
    ensures AllTimely(MergeFrom(bs, i), clock)
    decreases |bs|
  {
    var j := MergePartner(bs, i);
    if j < |bs| && |bs[i].nodes| + |bs[j].nodes| <= K {
      TimelyMerged(bs[i].nodes, 0, bs[j].nodes, 0, clock);
      var cs := bs[i := MergedBucket(bs[i], bs[j])];
      assert AllTimely(cs, clock);
      forall k | 0 <= k < |cs| - 1 ensures Timely(RemoveAt(cs, j)[k].nodes, clock) {
        assert RemoveAt(cs, j)[k] == cs[if k < j then k else k + 1];
      }
      TimelyMergeFrom(RemoveAt(cs, j), Min(i, j), clock);
    }
  }

  // ----- The calls

  lemma {:induction false} TimelyInsert(t: Table, num: nat, contacted: bool, now: int, clock: int)
    requires AllTimely(t.buckets, clock) && now <= clock
    ensures AllTimely(Insert(t, num, contacted, now).1.buckets, clock)
    decreases if |t.buckets| < HASH_BITS then HASH_BITS - |t.buckets| else 0
  {
    TimelyPass(t, num, contacted, now, clock);
    match InsertOnce(t, num, contacted, now)
    case Finish(_, _) =>
    case Again(t') => TimelyInsert(t', num, true, now, clock);
  }

  lemma TimelyPass(t: Table, num: nat, contacted: bool, now: int, clock: int)
    requires AllTimely(t.buckets, clock) && now <= clock
    ensures AllTimely(InsertOnce(t, num, contacted, now).table.buckets, clock)
  {
    var i := IndexFor(t.buckets, num);
    if i < |t.buckets| {
      var b := t.buckets[i];
      var j := Find(b.nodes, num);
      if j < |b.nodes| {
        TimelyRemoved(b.nodes, j, clock);
        TimelyRecorded(t.buckets, i, RemoveAt(b.nodes, j), NodeInfo(num, now, 0), clock);
      } else {
        TimelyRecorded(t.buckets, i, b.nodes, NodeInfo(num, now, 0), clock);
        if b.min <= b.max { TimelySplit(t.buckets, i, clock); }
      }
    }
  }

  lemma TimelyRecorded(bs: seq<Bucket>, i: nat, nodes: seq<NodeInfo>, n: NodeInfo, clock: int)
    requires i < |bs| && AllTimely(bs, clock) && Timely(nodes, clock) && n.lastSeen <= clock
    ensures AllTimely(SetNodes(bs, i, AddByTime(nodes, n)), clock)
  {
    TimelyAdded(nodes, n, clock);
  }

  lemma TimelyReplace(t: Table, stale: nat, new_: Option<NodeInfo>, clock: int)
    requires AllTimely(t.buckets, clock) && (new_.Some? ==> new_.value.lastSeen <= clock)
    ensures AllTimely(ReplaceStale(t, stale, new_).buckets, clock)
  {
    var i := IndexFor(t.buckets, stale);
    if i < |t.buckets| {
      var b := t.buckets[i];
      var j := Find(b.nodes, stale);
      var kept := if j < |b.nodes| then RemoveAt(b.nodes, j) else b.nodes;
      TimelyKept(b.nodes, j, kept, clock);
      if new_.Some? && IndexFor(t.buckets, new_.value.num) == i && |kept| < K {
        TimelyRecorded(t.buckets, i, kept, new_.value, clock);
      } else if j < |b.nodes| {
        TimelySet(t.buckets, i, kept, clock);
        TimelyMergeFrom(SetNodes(t.buckets, i, kept), i, clock);
      }
    }
  }

  lemma TimelySeen(t: Table, num: nat, now: int, clock: int)
    requires AllTimely(t.buckets, clock) && clock <= now
    ensures AllTimely(JustSeen(t, num, now).1.buckets, now)
  {
    var i := IndexFor(t.buckets, num);
    assert AllTimely(t.buckets, now);
    if i < |t.buckets| {
      var b := t.buckets[i];
      var j := Find(b.nodes, num);
      if j < |b.nodes| {
        TimelyRemoved(b.nodes, j, clock);
        TimelySet(t.buckets, i, RemoveAt(b.nodes, j) + [NodeInfo(num, now, 0)], now);
      }
    }
  }

  lemma TimelyFailed(t: Table, num: nat, maxFailures: int, clock: int)
    requires AllTimely(t.buckets, clock)
    ensures AllTimely(NodeFailed(t, num, maxFailures).1.buckets, clock)
  {
    var i := IndexFor(t.buckets, num);
    if i < |t.buckets| && Find(t.buckets[i].nodes, num) < |t.buckets[i].nodes| {
      NodeFailedIs(t, num, maxFailures);
      TimelyReplace(t, num, None, clock);
      TimelyCounted(t.buckets, i, Find(t.buckets[i].nodes, num), clock);
    }
  }

  lemma TimelyCounted(bs: seq<Bucket>, i: nat, j: nat, clock: int)
    requires i < |bs| && j < |bs[i].nodes| && AllTimely(bs, clock)
    ensures var n := bs[i].nodes[j].(fails := bs[i].nodes[j].fails + 1);
            AllTimely(SetNodes(bs, i, bs[i].nodes[j := n]), clock)
  {
    var n := bs[i].nodes[j].(fails := bs[i].nodes[j].fails + 1);
    TimelySet(bs, i, bs[i].nodes[j := n], clock);
  }

  // ----- Runs

  /** The call reads a clock that does not run back; a time that comes with a replacement has passed. */
  predicate ReadsLater(op: Op, clock: int, clock': int) {
    && clock <= clock'
    && match op
       case OpInsert(_, _, now) => now <= clock'
       case OpJustSeen(_, now) => clock <= now <= clock'
       case OpReplace(_, n) => n.Some? ==> n.value.lastSeen <= clock'
       case OpFailed(_) => true
  }

  lemma LaterStillTimely(bs: seq<Bucket>, clock: int, clock': int)
    requires AllTimely(bs, clock) && clock <= clock'
    ensures AllTimely(bs, clock')
  {
  }

  lemma ApplyKeepsTimeOrder(t: Table, op: Op, clock: int, clock': int, maxFailures: int)
    requires AllTimely(t.buckets, clock) && ReadsLater(op, clock, clock')
    ensures AllTimely(Apply(t, op, maxFailures).buckets, clock')
  {
    LaterStillTimely(t.buckets, clock, clock');
    match op
    case OpInsert(num, contacted, now) => TimelyInsert(t, num, contacted, now, clock');
    case OpReplace(stale, n) => TimelyReplace(t, stale, n, clock');
    case OpJustSeen(num, now) =>
      TimelySeen(t, num, now, clock);
      LaterStillTimely(JustSeen(t, num, now).1.buckets, now, clock');
    case OpFailed(num) => TimelyFailed(t, num, maxFailures, clock');
  }

  predicate MonotoneClock(ops: seq<Op>, clocks: seq<int>) {
    |clocks| == |ops| + 1 && forall i :: 0 <= i < |ops| ==> ReadsLater(ops[i], clocks[i], clocks[i + 1])
  }

  /** Under a clock that never runs back, every bucket of every table of a run lists its nodes from the least
      to the most recently seen, whatever replacements are put in. */
  lemma {:induction false} EveryRunKeepsTimeOrder(ts: seq<Table>, ops: seq<Op>, k: nat, clocks: seq<int>,
                                                  maxFailures: int)
    requires IsRun(ts, ops, maxFailures) && k <= |ops| && MonotoneClock(ops, clocks)
    requires AllTimely(ts[0].buckets, clocks[0])
    ensures AllTimely(ts[k].buckets, clocks[k])
  {
    if k > 0 {
      EveryRunKeepsTimeOrder(ts, ops, k - 1, clocks, maxFailures);
      assert ts[k - 1 + 1] == Apply(ts[k - 1], ops[k - 1], maxFailures);
      assert ReadsLater(ops[k - 1], clocks[k - 1], clocks[k - 1 + 1]);
      ApplyKeepsTimeOrder(ts[k - 1], ops[k - 1], clocks[k - 1], clocks[k], maxFailures);
    }
  }

  /** So the node a full bucket offers for eviction is its least recently seen one. */
  lemma OldestIsLeastRecent(b: Bucket, clock: int)
    requires Timely(b.nodes, clock) && b.nodes != []
    ensures forall n :: n in b.nodes ==> b.nodes[0].lastSeen <= n.lastSeen
  {
    forall n | n in b.nodes ensures b.nodes[0].lastSeen <= n.lastSeen {
      var k :| 0 <= k < |b.nodes| && b.nodes[k] == n;
    }
  }
}
