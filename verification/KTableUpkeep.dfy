/** Replacing stale nodes, refreshing and counting failures: what they keep and change. */
module KTableUpkeep {
  import opened Options
  import opened Bits
  import opened KTableSpec
  import opened KTableShape
  import opened KTableLists
  import opened KTableInvariant
  import opened KTableInsert

  // ----- replaceStaleNode

  /** The nodes of the stale node's bucket without it. */
  function Kept(t: Table, stale: nat): seq<NodeInfo>
    requires IndexFor(t.buckets, stale) < |t.buckets|
  {
    KeptOf(t.buckets[IndexFor(t.buckets, stale)], stale)
  }

  /** The replacement goes in: it belongs to the same bucket and there is room. */
  predicate Placed(t: Table, stale: nat, new_: Option<NodeInfo>)
    requires IndexFor(t.buckets, stale) < |t.buckets|
  {
    && new_.Some?
    && IndexFor(t.buckets, new_.value.num) == IndexFor(t.buckets, stale)
    && |Kept(t, stale)| < K
  }

  /** The replacement is a contact the table may hold: not self, not held already, not failed out. */
  predicate Acceptable(t: Table, stale: nat, n: NodeInfo, maxFailures: int)
    requires IndexFor(t.buckets, stale) < |t.buckets|
  {
    n.num != t.self && n.num !in Nums(Kept(t, stale)) && 0 <= n.fails < maxFailures
  }

  /** The bucket of the stale node without it. */
  lemma KeptTable(t: Table, stale: nat, maxFailures: int)
    requires Inv(t, maxFailures) && stale < Pow2(HASH_BITS)
    ensures var i := IndexFor(t.buckets, stale);
            i < |t.buckets| &&
            var t1 := t.(buckets := SetNodes(t.buckets, i, Kept(t, stale)));
            && WellFormed(t1, maxFailures)
            && Contents(t1.buckets) == Without(Contents(t.buckets), stale)
            && (|t1.buckets| >= 2 && PairCount(t1) < K ==> i == PairOf(t1) || i == PairOf(t1) + 1)
            && (AllChronological(t) ==> AllChronological(t1))
            && (Find(t.buckets[i].nodes, stale) == |t.buckets[i].nodes| ==> t1 == t)
  {
    LookupFindsBucket(t, stale, maxFailures);
    var i := IndexFor(t.buckets, stale);
    var b := t.buckets[i];
    assert BucketOk(b, t.self, maxFailures);
    KeptOk(b, stale, t.self, maxFailures);
    ReplaceNodes(t, stale, Kept(t, stale), {}, maxFailures);
    if AllChronological(t) { ChronologicalSet(t, i, Kept(t, stale)); }
    if Find(b.nodes, stale) == |b.nodes| { assert SetNodes(t.buckets, i, b.nodes) == t.buckets; }
  }

  /** Taking a node out and merging as far as possible keeps the invariant and loses nothing else. */
  lemma DropCorrect(t: Table, stale: nat, maxFailures: int)
    requires Inv(t, maxFailures) && stale < Pow2(HASH_BITS)
    ensures var t' := ReplaceStale(t, stale, None);
            && Inv(t', maxFailures) && t'.self == t.self
            && Contents(t'.buckets) == Without(Contents(t.buckets), stale)
            && (AllChronological(t) ==> AllChronological(t'))
  {
    KeptTable(t, stale, maxFailures);
    var i := IndexFor(t.buckets, stale);
    MergeRestoresInv(t.(buckets := SetNodes(t.buckets, i, Kept(t, stale))), i, maxFailures);
  }

  /** When a node of our own bucket or its twin goes, the two stay apart only if one bucket could not hold the nodes
      of both. */
  lemma DropMerges(t: Table, stale: nat, maxFailures: int)
    requires Inv(t, maxFailures) && stale < Pow2(HASH_BITS) && InTable(t, stale)
    requires InPair(t, IndexFor(t.buckets, stale))
    ensures var t' := ReplaceStale(t, stale, None); Shape(t'.buckets, t'.self) && Apart(t')
  {
    var i := IndexFor(t.buckets, stale);
    var t1 := t.(buckets := SetNodes(t.buckets, i, Kept(t, stale)));
    KeptTable(t, stale, maxFailures);
    ShapeSameRanges(t.buckets, t1.buckets, t.self);
    MergeRestoresInv(t1, i, maxFailures);
    DroppedIs(t, stale, t1, maxFailures);
  }

  lemma DroppedIs(t: Table, stale: nat, t1: Table, maxFailures: int)
    requires Inv(t, maxFailures) && stale < Pow2(HASH_BITS) && InTable(t, stale)
    requires IndexFor(t.buckets, stale) < |t.buckets|
    requires t1 == t.(buckets := SetNodes(t.buckets, IndexFor(t.buckets, stale), Kept(t, stale)))
    ensures ReplaceStale(t, stale, None) == t1.(buckets := MergeFrom(t1.buckets, IndexFor(t.buckets, stale)))
  {
    HeldIffFound(t, stale, maxFailures);
  }

  /** The table with the replacement in the stale node's place. */
  function PlacedTable(t: Table, stale: nat, n: NodeInfo): Table
    requires IndexFor(t.buckets, stale) < |t.buckets|
  {
    t.(buckets := SetNodes(t.buckets, IndexFor(t.buckets, stale), AddByTime(Kept(t, stale), n)))
  }

  lemma PlacedIs(t: Table, stale: nat, n: NodeInfo)
    requires IndexFor(t.buckets, stale) < |t.buckets| && Placed(t, stale, Some(n))
    ensures ReplaceStale(t, stale, Some(n)) == PlacedTable(t, stale, n)
  {
  }

  lemma PlacedBreaks(t: Table, stale: nat, n: NodeInfo, maxFailures: int)
    requires Inv(t, maxFailures) && stale < Pow2(HASH_BITS) && n.num < Pow2(HASH_BITS)
    requires IndexFor(t.buckets, stale) < |t.buckets|
    requires Inv(PlacedTable(t, stale, n), maxFailures)
    ensures Acceptable(t, stale, n, maxFailures)
  {
    var i := IndexFor(t.buckets, stale);
    var kept := Kept(t, stale);
    AddByTimeMembers(kept, n);
    var c := PlacedTable(t, stale, n).buckets[i];
    assert c.nodes == AddByTime(kept, n);
    assert n in c.nodes;
    assert BucketOk(c, t.self, maxFailures);
  }

  lemma PlacedKeeps(t: Table, stale: nat, n: NodeInfo, maxFailures: int)
    requires Inv(t, maxFailures) && stale < Pow2(HASH_BITS) && n.num < Pow2(HASH_BITS)
    requires IndexFor(t.buckets, stale) < |t.buckets| && Placed(t, stale, Some(n))
    requires Acceptable(t, stale, n, maxFailures)
    ensures Inv(PlacedTable(t, stale, n), maxFailures)
    ensures Contents(PlacedTable(t, stale, n).buckets) == Without(Contents(t.buckets), stale) + {n}
  {
    LookupFindsBucket(t, n.num, maxFailures);
    var b := t.buckets[IndexFor(t.buckets, stale)];
    assert BucketOk(b, t.self, maxFailures);
    KeptOk(b, stale, t.self, maxFailures);
    AddedOk(b, Kept(t, stale), n, t.self, maxFailures);
    ReplaceNodes(t, stale, AddByTime(Kept(t, stale), n), {n}, maxFailures);
  }

  /** replaceStaleNode keeps the invariant exactly when a replacement it puts in is acceptable;
      the code checks the bucket and the room, and leaves the rest to its caller. */
  lemma ReplaceStaleCorrect(t: Table, stale: nat, new_: Option<NodeInfo>, maxFailures: int)
    requires Inv(t, maxFailures) && stale < Pow2(HASH_BITS)
    requires new_.Some? ==> new_.value.num < Pow2(HASH_BITS)
    ensures IndexFor(t.buckets, stale) < |t.buckets|
    ensures var t' := ReplaceStale(t, stale, new_);
            && t'.self == t.self
            && (Inv(t', maxFailures) <==> (Placed(t, stale, new_) ==> Acceptable(t, stale, new_.value, maxFailures)))
            && (!Placed(t, stale, new_) ==> t' == ReplaceStale(t, stale, None))
            && (Placed(t, stale, new_) && Inv(t', maxFailures) ==>
                  Contents(t'.buckets) == Without(Contents(t.buckets), stale) + {new_.value})
  {
    LookupFindsBucket(t, stale, maxFailures);
    DropCorrect(t, stale, maxFailures);
    if Placed(t, stale, new_) {
      var n := new_.value;
      PlacedIs(t, stale, n);
      if Acceptable(t, stale, n, maxFailures) { PlacedKeeps(t, stale, n, maxFailures); }
      if Inv(PlacedTable(t, stale, n), maxFailures) { PlacedBreaks(t, stale, n, maxFailures); }
    }
  }

  // ----- justSeenNode and nodeFailed

  /** Moving a refreshed record to the recent end. */
  lemma MoveToEnd(b: Bucket, num: nat, now: int, self: nat, maxFailures: int)
    requires BucketOk(b, self, maxFailures) && Find(b.nodes, num) < |b.nodes| && maxFailures >= 1
    ensures var ms := KeptOf(b, num) + [NodeInfo(num, now, 0)];
            && BucketOk(b.(nodes := ms), self, maxFailures) && |ms| == |b.nodes|
            && (forall x :: x in ms <==> (x in b.nodes && x.num != num) || x == NodeInfo(num, now, 0))
  {
    var kept := KeptOf(b, num);
    var n := NodeInfo(num, now, 0);
    assert b.nodes[Find(b.nodes, num)] in b.nodes;
    KeptOk(b, num, self, maxFailures);
    AppendDistinct(kept, n);
    assert |kept| == |b.nodes| - 1;
    MovedOk(b, kept + [n], num, n, self, maxFailures);
  }

  lemma MovedOk(b: Bucket, ms: seq<NodeInfo>, num: nat, n: NodeInfo, self: nat, maxFailures: int)
    requires BucketOk(b, self, maxFailures) && NodeOk(b, n, self, maxFailures)
    requires DistinctNums(ms) && |ms| <= K
    requires forall x :: x in ms ==> x in b.nodes || x == n
    ensures BucketOk(b.(nodes := ms), self, maxFailures)
  {
  }

  lemma AppendDistinct(kept: seq<NodeInfo>, n: NodeInfo)
    requires DistinctNums(kept) && n.num !in Nums(kept)
    ensures DistinctNums(kept + [n])
    ensures forall x :: x in kept + [n] <==> x in kept || x == n
  {
    assert InsertAt(kept, |kept|, n) == kept + [n];
    InsertAtDistinct(kept, |kept|, n);
    InsertAtMembers(kept, |kept|, n);
  }

  /** A message refreshes its sender's record if there is one, and reports the time it replaced. */
  lemma JustSeenCorrect(t: Table, num: nat, now: int, maxFailures: int)
    requires Inv(t, maxFailures) && num < Pow2(HASH_BITS) && maxFailures >= 1
    ensures var (r, t') := JustSeen(t, num, now);
            && Inv(t', maxFailures) && t'.self == t.self
            && (r.Some? <==> InTable(t, num))
            && (r.None? ==> t' == t)
            && (r.Some? ==> Recorded(t, num, now, t'))
            && (forall n :: n in Contents(t.buckets) && n.num == num ==> r == Some(n.lastSeen))
  {
    HeldIffFound(t, num, maxFailures);
    OneRecord(t, num, maxFailures);
    if InTable(t, num) {
      var b := t.buckets[IndexFor(t.buckets, num)];
      assert BucketOk(b, t.self, maxFailures);
      MoveToEnd(b, num, now, t.self, maxFailures);
      ReplaceNodes(t, num, KeptOf(b, num) + [NodeInfo(num, now, 0)], {NodeInfo(num, now, 0)}, maxFailures);
    }
  }

  /** The record of a number is the one the search in its bucket finds. */
  lemma OneRecord(t: Table, num: nat, maxFailures: int)
    requires WellFormed(t, maxFailures) && num < Pow2(HASH_BITS)
    ensures var i := IndexFor(t.buckets, num);
            i < |t.buckets| &&
            var b := t.buckets[i];
            forall n :: n in Contents(t.buckets) && n.num == num ==>
              Find(b.nodes, num) < |b.nodes| && n == b.nodes[Find(b.nodes, num)]
  {
    HeldOnlyInItsBucket(t, num, maxFailures);
    var i := IndexFor(t.buckets, num);
    var b := t.buckets[i];
    assert BucketOk(b, t.self, maxFailures);
    forall n | n in Contents(t.buckets) && n.num == num
      ensures Find(b.nodes, num) < |b.nodes| && n == b.nodes[Find(b.nodes, num)]
    {
      var j :| 0 <= j < |t.buckets| && n in t.buckets[j].nodes;
      assert j == i;
      assert n.num in Nums(b.nodes);
      FindAbsent(b.nodes, num);
      OneRecordPerNumber(b.nodes, n, b.nodes[Find(b.nodes, num)]);
    }
  }

  /** One record with its failures counted up. */
  lemma CountOneMore(b: Bucket, j: nat, self: nat, maxFailures: int)
    requires BucketOk(b, self, maxFailures) && j < |b.nodes| && b.nodes[j].fails + 1 < maxFailures
    ensures var n := b.nodes[j].(fails := b.nodes[j].fails + 1);
            var ms := b.nodes[j := n];
            && BucketOk(b.(nodes := ms), self, maxFailures)
            && (forall x :: x in ms <==> (x in b.nodes && x.num != n.num) || x == n)
            && (Chronological(b.nodes) ==> Chronological(ms))
  {
    var n := b.nodes[j].(fails := b.nodes[j].fails + 1);
    var ms := b.nodes[j := n];
    assert ms[j] == n && b.nodes[j] in b.nodes;
    forall x ensures x in ms <==> (x in b.nodes && x.num != n.num) || x == n {
      if x in b.nodes && x.num != n.num { var k :| 0 <= k < |ms| && b.nodes[k] == x; assert ms[k] == x; }
      if x in ms && x != n {
        var k :| 0 <= k < |ms| && ms[k] == x;
        assert b.nodes[k] == x;
        if k < j { } else { }
      }
    }
  }

  /** A failure below the limit is counted on the record of the node. */
  lemma FailKept(t: Table, num: nat, maxFailures: int)
    requires Inv(t, maxFailures) && num < Pow2(HASH_BITS)
    requires IndexFor(t.buckets, num) < |t.buckets|
    requires Find(t.buckets[IndexFor(t.buckets, num)].nodes, num) < |t.buckets[IndexFor(t.buckets, num)].nodes|
    requires var b := t.buckets[IndexFor(t.buckets, num)]; b.nodes[Find(b.nodes, num)].fails + 1 < maxFailures
    ensures var i := IndexFor(t.buckets, num);
            var b := t.buckets[i];
            var j := Find(b.nodes, num);
            var n := b.nodes[j].(fails := b.nodes[j].fails + 1);
            var t' := t.(buckets := SetNodes(t.buckets, i, b.nodes[j := n]));
            && Inv(t', maxFailures)
            && Contents(t'.buckets) == Without(Contents(t.buckets), num) + {n}
            && (AllChronological(t) ==> AllChronological(t'))
  {
    var i := IndexFor(t.buckets, num);
    var b := t.buckets[i];
    var j := Find(b.nodes, num);
    var n := b.nodes[j].(fails := b.nodes[j].fails + 1);
    assert BucketOk(b, t.self, maxFailures);
    CountOneMore(b, j, t.self, maxFailures);
    ReplaceNodes(t, num, b.nodes[j := n], {n}, maxFailures);
    if AllChronological(t) { ChronologicalSet(t, i, b.nodes[j := n]); }
  }

  lemma FindUnchanged(xs: seq<NodeInfo>, ys: seq<NodeInfo>, num: nat)
    requires |xs| == |ys| && forall k :: 0 <= k < |xs| ==> xs[k].num == ys[k].num
    ensures Find(xs, num) == Find(ys, num)
  {
    var i, j := Find(xs, num), Find(ys, num);
    assert i < |xs| ==> ys[i].num == num;
    assert j < |ys| ==> xs[j].num == num;
  }

  /** Counting a failure on a node that is dropped next leaves no trace. */
  lemma CountedThenDropped(t: Table, num: nat, n: NodeInfo)
    requires IndexFor(t.buckets, num) < |t.buckets| && n.num == num
    requires Find(t.buckets[IndexFor(t.buckets, num)].nodes, num) < |t.buckets[IndexFor(t.buckets, num)].nodes|
    ensures var i := IndexFor(t.buckets, num);
            var b := t.buckets[i];
            ReplaceStale(t.(buckets := SetNodes(t.buckets, i, b.nodes[Find(b.nodes, num) := n])), num, None)
            == ReplaceStale(t, num, None)
  {
    var i := IndexFor(t.buckets, num);
    var b := t.buckets[i];
    var j := Find(b.nodes, num);
    var nodes := b.nodes[j := n];
    var bs := SetNodes(t.buckets, i, nodes);
    BisectSameRanges(t.buckets, bs, num, 0, |bs|);
    FindUnchanged(b.nodes, nodes, num);
    assert RemoveAt(nodes, j) == RemoveAt(b.nodes, j);
    assert SetNodes(bs, i, RemoveAt(nodes, j)) == SetNodes(t.buckets, i, RemoveAt(b.nodes, j));
  }

  /** Counting, then dropping at the limit, is what nodeFailed computes. */
  lemma FailInTwoSteps(t: Table, num: nat, i: nat, j: nat, n: NodeInfo, t1: Table, maxFailures: int)
    requires i == IndexFor(t.buckets, num) < |t.buckets|
    requires j == Find(t.buckets[i].nodes, num) < |t.buckets[i].nodes|
    requires n == t.buckets[i].nodes[j]
    requires t1 == t.(buckets := SetNodes(t.buckets, i, t.buckets[i].nodes[j := n.(fails := n.fails + 1)]))
    ensures n.fails + 1 >= maxFailures ==> NodeFailed(t, num, maxFailures) == (false, ReplaceStale(t1, num, None))
    ensures n.fails + 1 < maxFailures ==> NodeFailed(t, num, maxFailures) == (true, t1)
  {
  }

  /** The failure of a node that is held. */
  lemma NodeFailedIs(t: Table, num: nat, maxFailures: int)
    requires IndexFor(t.buckets, num) < |t.buckets|
    requires Find(t.buckets[IndexFor(t.buckets, num)].nodes, num) < |t.buckets[IndexFor(t.buckets, num)].nodes|
    ensures var i := IndexFor(t.buckets, num);
            var b := t.buckets[i];
            var j := Find(b.nodes, num);
            var n := b.nodes[j].(fails := b.nodes[j].fails + 1);
            && (n.fails >= maxFailures ==> NodeFailed(t, num, maxFailures) == (false, ReplaceStale(t, num, None)))
            && (n.fails < maxFailures ==>
                  NodeFailed(t, num, maxFailures) == (true, t.(buckets := SetNodes(t.buckets, i, b.nodes[j := n]))))
  {
    var i := IndexFor(t.buckets, num);
    var b := t.buckets[i];
    var j := Find(b.nodes, num);
    var n := b.nodes[j].(fails := b.nodes[j].fails + 1);
    CountedThenDropped(t, num, n);
    FailInTwoSteps(t, num, i, j, b.nodes[j], t.(buckets := SetNodes(t.buckets, i, b.nodes[j := n])), maxFailures);
  }

  lemma FailAbsent(t: Table, num: nat, maxFailures: int)
    requires Inv(t, maxFailures) && num < Pow2(HASH_BITS) && !InTable(t, num)
    ensures NodeFailed(t, num, maxFailures) == (false, t)
  {
    HeldIffFound(t, num, maxFailures);
  }

  /** The failure of a node whose record is n. */
  lemma FailHeld(t: Table, num: nat, n: NodeInfo, maxFailures: int)
    requires Inv(t, maxFailures) && num < Pow2(HASH_BITS) && maxFailures >= 1
    requires n in Contents(t.buckets) && n.num == num
    ensures var (kept, t') := NodeFailed(t, num, maxFailures);
            && Inv(t', maxFailures) && t'.self == t.self
            && (kept <==> n.fails + 1 < maxFailures)
            && Contents(t'.buckets) == Without(Contents(t.buckets), num)
               + (if kept then {n.(fails := n.fails + 1)} else {})
            && (AllChronological(t) ==> AllChronological(t'))
  {
    OneRecord(t, num, maxFailures);
    NodeFailedIs(t, num, maxFailures);
    if n.fails + 1 < maxFailures {
      FailKept(t, num, maxFailures);
    } else {
      DropCorrect(t, num, maxFailures);
    }
  }

  /** A failure is counted on the record of the node; at the limit the node is dropped. */
  lemma NodeFailedCorrect(t: Table, num: nat, maxFailures: int)
    requires Inv(t, maxFailures) && num < Pow2(HASH_BITS) && maxFailures >= 1
    ensures var (kept, t') := NodeFailed(t, num, maxFailures);
            && Inv(t', maxFailures) && t'.self == t.self
            && (!InTable(t, num) ==> !kept && t' == t)
            && (forall n :: n in Contents(t.buckets) && n.num == num ==>
                  && (kept <==> n.fails + 1 < maxFailures)
                  && Contents(t'.buckets) == Without(Contents(t.buckets), num)
                     + (if kept then {n.(fails := n.fails + 1)} else {}))
            && (AllChronological(t) ==> AllChronological(t'))
  {
    HeldIffRecorded(t, num);
    if InTable(t, num) {
      forall n | n in Contents(t.buckets) && n.num == num
        ensures var (kept, t') := NodeFailed(t, num, maxFailures);
                && Inv(t', maxFailures) && t'.self == t.self
                && (kept <==> n.fails + 1 < maxFailures)
                && Contents(t'.buckets) == Without(Contents(t.buckets), num)
                   + (if kept then {n.(fails := n.fails + 1)} else {})
                && (AllChronological(t) ==> AllChronological(t'))
      {
        FailHeld(t, num, n, maxFailures);
      }
    } else {
      FailAbsent(t, num, maxFailures);
    }
  }

  /** So after a failure the node is in the table exactly when the answer says so. */
  lemma FailureAnswer(t: Table, num: nat, maxFailures: int)
    requires Inv(t, maxFailures) && num < Pow2(HASH_BITS) && maxFailures >= 1
    ensures var (kept, t') := NodeFailed(t, num, maxFailures); kept <==> InTable(t', num)
  {
    NodeFailedCorrect(t, num, maxFailures);
    var (kept, t') := NodeFailed(t, num, maxFailures);
    HeldIffRecorded(t, num);
    HeldIffRecorded(t', num);
    if n :| n in Contents(t.buckets) && n.num == num {
      if kept { assert n.(fails := n.fails + 1) in Contents(t'.buckets); }
    }
  }
}
