/** A run of insertions that ends with a table whose findNodes misses one of the closest nodes. */
module KTableMissRun {
  import opened Bits
  import opened KTableSpec
  import opened KTableInvariant
  import opened KTableLookup
  import opened KTableMisses
  import opened KTableRuns

  /** The nodes in the order they come in, where q is a quarter of the space of IDs and we are 0: one of the other
      half, seven of the quarter beside our own, and two of our own. */
  function Coming(q: nat, k: nat): NodeInfo {
    NodeInfo(if k == 0 then 2 * q else if k < K then q + k else k - K + 1, 0, 0)
  }

  function Line(q: nat, from: nat, to: nat): (r: seq<NodeInfo>)
    requires from <= to
    ensures |r| == to - from && forall i :: 0 <= i < |r| ==> r[i] == Coming(q, from + i)
  {
    seq(to - from, i requires 0 <= i < to - from => Coming(q, from + i))
  }

  /** The table after k of them: one bucket, then two halves, then our half in two. */
  function TableAfter(q: nat, k: nat): Table
    requires k <= K + 2
  {
    if k <= K then Table(0, [Bucket(0, 4 * q, Line(q, 0, k))])
    else if k == K + 1 then
      Table(0, [Bucket(0, 2 * q, Line(q, 1, K + 1)), Bucket(2 * q, 4 * q, Line(q, 0, 1))])
    else
      Table(0, [Bucket(0, q, Line(q, K, K + 2)), Bucket(q, 2 * q, Line(q, 1, K)),
                Bucket(2 * q, 4 * q, Line(q, 0, 1))])
  }

  lemma NewInLine(q: nat, from: nat, to: nat)
    requires from <= to < K + 2 && q >= 32
    ensures Find(Line(q, from, to), Coming(q, to).num) == to - from
    ensures AddByTime(Line(q, from, to), Coming(q, to)) == Line(q, from, to + 1)
  {
    NotComeYet(q, from, to);
    AddedLast(Line(q, from, to), Coming(q, to));
    assert Line(q, from, to) + [Coming(q, to)] == Line(q, from, to + 1);
  }

  lemma NotComeYet(q: nat, from: nat, to: nat)
    requires from <= to < K + 2 && q >= 32
    ensures Find(Line(q, from, to), Coming(q, to).num) == to - from
  {
    forall k: nat | from <= k < to ensures Coming(q, k).num != Coming(q, to).num {
    }
  }

  lemma AddedLast(nodes: seq<NodeInfo>, n: NodeInfo)
    requires nodes != [] ==> nodes[|nodes| - 1].lastSeen <= n.lastSeen
    ensures AddByTime(nodes, n) == nodes + [n]
  {
    assert TimePosition(nodes, n, |nodes|) == |nodes|;
  }

  /** A node whose bucket is not full is put at its end. */
  lemma PutAtEnd(q: nat, t: Table, i: nat, from: nat, to: nat)
    requires q >= 32 && IndexFor(t.buckets, Coming(q, to).num) == i < |t.buckets| && from <= to < K + 2 && to - from < K
    requires t.buckets[i].nodes == Line(q, from, to) && Coming(q, to).num != t.self
    ensures InsertOnce(t, Coming(q, to).num, true, 0)
            == Finish(Inserted, t.(buckets := SetNodes(t.buckets, i, Line(q, from, to + 1))))
  {
    NewInLine(q, from, to);
  }

  /** Our own bucket is full, and split. */
  lemma SplitFirst(q: nat, t: Table, from: nat, to: nat)
    requires q >= 32 && IndexFor(t.buckets, Coming(q, to).num) == 0 < |t.buckets| < HASH_BITS && from <= to < K + 2
             && to - from == K
    requires t.buckets[0].nodes == Line(q, from, to) && Coming(q, to).num != t.self && t.buckets[0].Has(t.self)
    ensures InsertOnce(t, Coming(q, to).num, true, 0) == Again(t.(buckets := SplitAt(t.buckets, 0)))
  {
    NewInLine(q, from, to);
  }

  lemma ThenPut(t: Table, num: nat, t': Table, t'': Table)
    requires InsertOnce(t, num, true, 0) == Again(t') && InsertOnce(t', num, true, 0) == Finish(Inserted, t'')
    ensures Insert(t, num, true, 0).1 == t''
  {
    assert Insert(t', num, true, 0) == (Inserted, t'');
  }

  /** Of nodes seen at the same time, those from a bound on keep their order. */
  lemma {:induction false} AllAbove(nodes: seq<NodeInfo>, bound: nat, k: nat)
    requires k <= |nodes| && forall i :: 0 <= i < k ==> nodes[i].num >= bound && nodes[i].lastSeen == 0
    ensures Below(nodes, bound, k) == [] && From(nodes, bound, k) == nodes[..k]
  {
    if k > 0 {
      AllAbove(nodes, bound, k - 1);
      AddedLast(nodes[..k - 1], nodes[k - 1]);
      TakeOneMore(nodes, k);
    }
  }

  lemma TakeOneMore<T>(s: seq<T>, k: nat)
    requires 0 < k <= |s|
    ensures s[..k] == s[..k - 1] + [s[k - 1]]
  {
  }

  lemma {:induction false} OneAbove(nodes: seq<NodeInfo>, bound: nat, k: nat)
    requires 1 <= k <= |nodes| && nodes[0].num >= bound && forall i :: 1 <= i < k ==> nodes[i].num < bound
    ensures Below(nodes, bound, k) == nodes[1..k] && From(nodes, bound, k) == [nodes[0]]
  {
    if k > 1 {
      OneAbove(nodes, bound, k - 1);
      assert nodes[1..k] == nodes[1..k - 1] + [nodes[k - 1]];
    } else {
      assert Below(nodes, bound, 0) == [] && From(nodes, bound, 0) == [];
    }
  }

  lemma First(q: nat, k: nat)
    requires q >= 32 && k < K
    ensures Insert(TableAfter(q, k), Coming(q, k).num, true, 0).1 == TableAfter(q, k + 1)
  {
    var t := TableAfter(q, k);
    assert Bisect(t.buckets, Coming(q, k).num, 0, 0) == 0;
    PutAtEnd(q, t, 0, 0, k);
  }

  lemma SplitIs(bs: seq<Bucket>, point: nat, low: seq<NodeInfo>, high: seq<NodeInfo>)
    requires |bs| >= 1 && bs[0].min <= bs[0].max && SplitPoint(bs[0]) == point
    requires Below(bs[0].nodes, point, |bs[0].nodes|) == low && From(bs[0].nodes, point, |bs[0].nodes|) == high
    ensures SplitAt(bs, 0) == [Bucket(bs[0].min, point, low), Bucket(point, bs[0].max, high)] + bs[1..]
  {
  }

  lemma Halved(q: nat)
    requires q >= 32
    ensures var t := TableAfter(q, K);
            SplitAt(t.buckets, 0) == [Bucket(0, 2 * q, Line(q, 1, K)),
                                      Bucket(2 * q, 4 * q, Line(q, 0, 1))]
  {
    HalfLists(q);
    SplitIs(TableAfter(q, K).buckets, 2 * q, Line(q, 1, K), Line(q, 0, 1));
  }

  lemma HalfLists(q: nat)
    requires q >= 32
    ensures Below(Line(q, 0, K), 2 * q, K) == Line(q, 1, K) && From(Line(q, 0, K), 2 * q, K) == Line(q, 0, 1)
  {
    var nodes := Line(q, 0, K);
    OneAbove(nodes, 2 * q, K);
    assert nodes[1..K] == Line(q, 1, K);
    assert [nodes[0]] == Line(q, 0, 1);
  }

  lemma Ninth(q: nat)
    requires q >= 32
    ensures Insert(TableAfter(q, K), Coming(q, K).num, true, 0).1 == TableAfter(q, K + 1)
  {
    Halved(q);
    var t, num := TableAfter(q, K), Coming(q, K).num;
    var t' := t.(buckets := SplitAt(t.buckets, 0));
    assert Bisect(t.buckets, num, 0, 0) == 0;
    SplitFirst(q, t, 0, K);
    assert Bisect(t'.buckets, num, 0, 0) == 0 && Bisect(t'.buckets, num, 0, 1) == 0;
    PutAtEnd(q, t', 0, 1, K);
    ThenPut(t, num, t', TableAfter(q, K + 1));
  }

  lemma HalvedAgain(q: nat)
    requires q >= 32
    ensures var t := TableAfter(q, K + 1);
            SplitAt(t.buckets, 0) == [Bucket(0, q, Line(q, K, K + 1)), Bucket(q, 2 * q, Line(q, 1, K)),
                                      Bucket(2 * q, 4 * q, Line(q, 0, 1))]
  {
    QuarterLists(q);
    SplitIs(TableAfter(q, K + 1).buckets, q, Line(q, K, K + 1), Line(q, 1, K));
  }

  lemma QuarterLists(q: nat)
    requires q >= 32
    ensures Below(Line(q, 1, K + 1), q, K) == Line(q, K, K + 1) && From(Line(q, 1, K + 1), q, K) == Line(q, 1, K)
  {
    var nodes := Line(q, 1, K + 1);
    AllAbove(nodes, q, K - 1);
    assert nodes[..K - 1] == Line(q, 1, K);
    assert [nodes[K - 1]] == Line(q, K, K + 1);
  }

  lemma Tenth(q: nat)
    requires q >= 32
    ensures Insert(TableAfter(q, K + 1), Coming(q, K + 1).num, true, 0).1 == TableAfter(q, K + 2)
  {
    HalvedAgain(q);
    var t, num := TableAfter(q, K + 1), Coming(q, K + 1).num;
    var t' := t.(buckets := SplitAt(t.buckets, 0));
    assert Bisect(t.buckets, num, 0, 0) == 0 && Bisect(t.buckets, num, 0, 1) == 0;
    SplitFirst(q, t, 1, K + 1);
    assert Bisect(t'.buckets, num, 0, 0) == 0 && Bisect(t'.buckets, num, 0, 1) == 0;
    PutAtEnd(q, t', 0, K, K + 1);
    ThenPut(t, num, t', TableAfter(q, K + 2));
  }

  /** Ten nodes that were all contacted, and after them a table of three buckets. Of an ID of the last, findNodes
      sees the last two, and not the node of the first that is nearer than any of the second. */
  lemma MissedAfterRun(q: nat, ts: seq<Table>, ops: seq<Op>, maxFailures: int) returns (num: nat)
    requires q == Pow2(HASH_BITS - 2) && maxFailures >= 1
    requires ops == seq(K + 2, k requires 0 <= k < K + 2 => OpInsert(Coming(q, k).num, true, 0))
             && ts == seq(K + 3, k requires 0 <= k < K + 3 => TableAfter(q, k))
    ensures IsRun(ts, ops, maxFailures) && ts[0] == Empty(0) && Inv(ts[K + 2], maxFailures)
    ensures num < Pow2(HASH_BITS) && IndexFor(ts[K + 2].buckets, num) < |ts[K + 2].buckets|
    ensures !Closest(FindNodes(ts[K + 2], num), num, Contents(ts[K + 2].buckets))
  {
    FourQuarters(q);
    TheRun(q, ts, ops, maxFailures);
    num := Missed(q, ts[K + 2], maxFailures);
  }

  lemma FourQuarters(q: nat)
    requires q == Pow2(HASH_BITS - 2)
    ensures 4 * q == Pow2(HASH_BITS) && q >= 32
  {
    assert Pow2(HASH_BITS) == 2 * Pow2(HASH_BITS - 1) && Pow2(HASH_BITS - 1) == 2 * Pow2(HASH_BITS - 2);
    Pow2Monotone(5, HASH_BITS - 2);
    assert Pow2(5) == 32;
  }

  lemma Comes(q: nat, k: nat, maxFailures: int)
    requires q >= 32 && 4 * q == Pow2(HASH_BITS) && k < K + 2
    ensures OfIds(OpInsert(Coming(q, k).num, true, 0))
    ensures Apply(TableAfter(q, k), OpInsert(Coming(q, k).num, true, 0), maxFailures) == TableAfter(q, k + 1)
  {
    if k < K { First(q, k); } else if k == K { Ninth(q); } else { Tenth(q); }
  }

  lemma TheRun(q: nat, ts: seq<Table>, ops: seq<Op>, maxFailures: int)
    requires q >= 32 && 4 * q == Pow2(HASH_BITS) && maxFailures >= 1
    requires ops == seq(K + 2, k requires 0 <= k < K + 2 => OpInsert(Coming(q, k).num, true, 0))
             && ts == seq(K + 3, k requires 0 <= k < K + 3 => TableAfter(q, k))
    ensures IsRun(ts, ops, maxFailures) && ts[0] == Empty(0) && Inv(ts[K + 2], maxFailures)
  {
    forall k | 0 <= k < |ops| ensures OfIds(ops[k]) && ts[k + 1] == Apply(ts[k], ops[k], maxFailures) {
      Comes(q, k, maxFailures);
    }
    assert Line(q, 0, 0) == [];
    assert forall op :: op in ops ==> op.OpInsert?;
    ReachableTables(0, ts, ops, K + 2, maxFailures);
  }

  lemma Missed(q: nat, t: Table, maxFailures: int) returns (num: nat)
    requires q >= 32 && t == TableAfter(q, K + 2) && Inv(t, maxFailures)
    ensures num < Pow2(HASH_BITS) && IndexFor(t.buckets, num) < |t.buckets|
    ensures !Closest(FindNodes(t, num), num, Contents(t.buckets))
  {
    var x, y := Coming(q, K), Coming(q, 1);
    assert t.buckets[0].nodes[0] == x && t.buckets[1].nodes[0] == y;
    assert PairOf(t) == 0;
    num := PickTarget(t, 2, 1, 0, x, y, maxFailures);
    BelowEnd(t.buckets, 2, num, maxFailures, 0);
    LookupFindsBucket(t, num, maxFailures);
    assert |Around(t.buckets, 2, 0)| == 1 && |Around(t.buckets, 2, 1)| == K;
    SpreadStep(t.buckets, 2, 0);
    SpreadStep(t.buckets, 2, 1);
    MissesFar(t, 2, num, x, y, 1, 0, maxFailures);
  }
}
