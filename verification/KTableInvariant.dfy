/** What every reachable routing table satisfies, and that splits and merges keep it. */
module KTableInvariant {
  import opened Bits
  import opened KTableSpec
  import opened KTableShape
  import opened KTableLists

  predicate NodeOk(b: Bucket, n: NodeInfo, self: nat, maxFailures: int) {
    b.Has(n.num) && n.num != self && 0 <= n.fails < maxFailures
  }

  predicate BucketOk(b: Bucket, self: nat, maxFailures: int) {
    && |b.nodes| <= K
    && DistinctNums(b.nodes)
    && forall n :: n in b.nodes ==> NodeOk(b, n, self, maxFailures)
  }

  /** The buckets follow the path to self, and hold distinct, in-range, live contacts other than self. */
  predicate WellFormed(t: Table, maxFailures: int) {
    && Shape(t.buckets, t.self)
    && forall i :: 0 <= i < |t.buckets| ==> BucketOk(t.buckets[i], t.self, maxFailures)
  }

  function HomeOf(t: Table): (h: nat)
    requires Shape(t.buckets, t.self)
    ensures h < |t.buckets|
  {
    Home(t.buckets, t.self)
  }

  function PairOf(t: Table): (p: nat)
    requires Shape(t.buckets, t.self) && |t.buckets| >= 2
    ensures p + 1 < |t.buckets|
  {
    Pair(t.buckets, t.self)
  }

  function PairCount(t: Table): nat
    requires Shape(t.buckets, t.self) && |t.buckets| >= 2
  {
    |t.buckets[PairOf(t)].nodes| + |t.buckets[PairOf(t) + 1].nodes|
  }

  /** The table is never split further than it needs to be: our own bucket and its twin
      together hold at least as many nodes as one bucket can. */
  predicate NotOverSplit(t: Table)
    requires Shape(t.buckets, t.self)
  {
    |t.buckets| >= 2 ==> PairCount(t) >= K
  }

  /** The invariant. */
  predicate Inv(t: Table, maxFailures: int) {
    WellFormed(t, maxFailures) && NotOverSplit(t)
  }

  predicate AllChronological(t: Table) {
    forall i :: 0 <= i < |t.buckets| ==> Chronological(t.buckets[i].nodes)
  }

  /** All contacts the buckets hold. */
  ghost function Contents(bs: seq<Bucket>): set<NodeInfo> {
    set i, n | 0 <= i < |bs| && n in bs[i].nodes :: n
  }

  predicate InTable(t: Table, num: nat) {
    exists i :: 0 <= i < |t.buckets| && num in Nums(t.buckets[i].nodes)
  }

  // ----- Looking up a bucket

  /** Every ID has exactly one bucket, the one the bisection finds. */
  lemma LookupFindsBucket(t: Table, num: nat, maxFailures: int)
    requires WellFormed(t, maxFailures) && num < Pow2(HASH_BITS)
    ensures IndexFor(t.buckets, num) < |t.buckets|
    ensures forall i :: 0 <= i < |t.buckets| ==> (t.buckets[i].Has(num) <==> i == IndexFor(t.buckets, num))
  {
    ShapeContiguous(t.buckets, t.self);
    IndexForFinds(t.buckets, num, 0, Pow2(HASH_BITS));
  }

  /** A record is only in the bucket of its number. */
  lemma HeldOnlyInItsBucket(t: Table, num: nat, maxFailures: int)
    requires WellFormed(t, maxFailures) && num < Pow2(HASH_BITS)
    ensures IndexFor(t.buckets, num) < |t.buckets|
    ensures forall j, n :: 0 <= j < |t.buckets| && j != IndexFor(t.buckets, num) && n in t.buckets[j].nodes ==>
            n.num != num
  {
    LookupFindsBucket(t, num, maxFailures);
    forall j, n | 0 <= j < |t.buckets| && j != IndexFor(t.buckets, num) && n in t.buckets[j].nodes
        ensures n.num != num {
      assert BucketOk(t.buckets[j], t.self, maxFailures);
    }
  }

  lemma HeldIffRecorded(t: Table, num: nat)
    ensures InTable(t, num) <==> exists n :: n in Contents(t.buckets) && n.num == num
  {
    if InTable(t, num) {
      var i :| 0 <= i < |t.buckets| && num in Nums(t.buckets[i].nodes);
      var n :| n in t.buckets[i].nodes && n.num == num;
      assert n in Contents(t.buckets);
    }
    if n :| n in Contents(t.buckets) && n.num == num {
      var i :| 0 <= i < |t.buckets| && n in t.buckets[i].nodes;
      assert num in Nums(t.buckets[i].nodes);
    }
  }

  lemma HeldIffFound(t: Table, num: nat, maxFailures: int)
    requires WellFormed(t, maxFailures) && num < Pow2(HASH_BITS)
    ensures var i := IndexFor(t.buckets, num);
            i < |t.buckets| && (InTable(t, num) <==> Find(t.buckets[i].nodes, num) < |t.buckets[i].nodes|)
  {
    HeldOnlyInItsBucket(t, num, maxFailures);
    var i := IndexFor(t.buckets, num);
    FindAbsent(t.buckets[i].nodes, num);
    if InTable(t, num) {
      var j :| 0 <= j < |t.buckets| && num in Nums(t.buckets[j].nodes);
      var n :| n in t.buckets[j].nodes && n.num == num;
    }
  }

  /** The bucket that covers self is the one the path leads to. */
  lemma HasSelfIsHome(t: Table, i: nat, maxFailures: int)
    requires WellFormed(t, maxFailures) && i < |t.buckets|
    ensures t.buckets[i].Has(t.self) <==> i == HomeOf(t)
  {
    var q, n := HomeBlock(t.buckets, 0, |t.buckets|, 0, HASH_BITS, t.self);
    ShapeContiguous(t.buckets, t.self);
    LookupFindsBucket(t, t.self, maxFailures);
  }

  // ----- Changing the nodes of one bucket

  /** The contacts left when a number is taken out. */
  ghost function Without(s: set<NodeInfo>, num: nat): set<NodeInfo> {
    set n | n in s && n.num != num
  }

  lemma SetNodesShape(t: Table, i: nat, nodes: seq<NodeInfo>, maxFailures: int)
    requires WellFormed(t, maxFailures) && i < |t.buckets|
    requires BucketOk(t.buckets[i].(nodes := nodes), t.self, maxFailures)
    ensures var t' := t.(buckets := SetNodes(t.buckets, i, nodes));
            && WellFormed(t', maxFailures)
            && HomeOf(t') == HomeOf(t)
            && (|t.buckets| >= 2 ==> PairOf(t') == PairOf(t))
  {
    ShapeSameRanges(t.buckets, SetNodes(t.buckets, i, nodes), t.self);
  }

  /** Replacing the nodes of the bucket of num by its others and some new ones. */
  lemma SetNodesContents(bs: seq<Bucket>, i: nat, nodes: seq<NodeInfo>, num: nat, extra: set<NodeInfo>)
    requires i < |bs|
    requires forall j, n :: 0 <= j < |bs| && j != i && n in bs[j].nodes ==> n.num != num
    requires forall n :: n in nodes <==> (n in bs[i].nodes && n.num != num) || n in extra
    ensures Contents(SetNodes(bs, i, nodes)) == Without(Contents(bs), num) + extra
  {
    var cs := SetNodes(bs, i, nodes);
    forall n ensures n in Contents(cs) <==> n in Without(Contents(bs), num) + extra {
      if n in Contents(cs) {
        var j :| 0 <= j < |cs| && n in cs[j].nodes;
        if j != i { assert n in bs[j].nodes; }
      }
      if n in extra { assert n in cs[i].nodes; }
      if n in Contents(bs) && n.num != num {
        var j :| 0 <= j < |bs| && n in bs[j].nodes;
        assert n in cs[j].nodes;
      }
    }
  }

  /** Changing one bucket's nodes to some of its own and some new ones, no fewer in all. */
  lemma ReplaceNodes(t: Table, num: nat, nodes: seq<NodeInfo>, extra: set<NodeInfo>, maxFailures: int)
    requires WellFormed(t, maxFailures) && num < Pow2(HASH_BITS)
    requires IndexFor(t.buckets, num) < |t.buckets|
    requires var b := t.buckets[IndexFor(t.buckets, num)];
             && BucketOk(b.(nodes := nodes), t.self, maxFailures)
             && forall n :: n in nodes <==> (n in b.nodes && n.num != num) || n in extra
    ensures var i := IndexFor(t.buckets, num);
            var t' := t.(buckets := SetNodes(t.buckets, i, nodes));
            && WellFormed(t', maxFailures)
            && Contents(t'.buckets) == Without(Contents(t.buckets), num) + extra
            && (NotOverSplit(t) && |nodes| >= |t.buckets[i].nodes| ==> NotOverSplit(t'))
            && (|t.buckets| >= 2 && i != PairOf(t) && i != PairOf(t) + 1 ==> PairCount(t') == PairCount(t))
            && (|t.buckets| >= 2 ==> PairOf(t') == PairOf(t))
  {
    SetNodesShape(t, IndexFor(t.buckets, num), nodes, maxFailures);
    SetNodesCounts(t, IndexFor(t.buckets, num), nodes);
    ReplaceContents(t, num, nodes, extra, maxFailures);
  }

  lemma SetNodesCounts(t: Table, i: nat, nodes: seq<NodeInfo>)
    requires Shape(t.buckets, t.self) && i < |t.buckets|
    ensures var t' := t.(buckets := SetNodes(t.buckets, i, nodes));
            && Shape(t'.buckets, t.self)
            && (NotOverSplit(t) && |nodes| >= |t.buckets[i].nodes| ==> NotOverSplit(t'))
            && (|t.buckets| >= 2 ==> PairOf(t') == PairOf(t))
            && (|t.buckets| >= 2 && i != PairOf(t) && i != PairOf(t) + 1 ==> PairCount(t') == PairCount(t))
  {
    ShapeSameRanges(t.buckets, SetNodes(t.buckets, i, nodes), t.self);
  }

  lemma ReplaceContents(t: Table, num: nat, nodes: seq<NodeInfo>, extra: set<NodeInfo>, maxFailures: int)
    requires WellFormed(t, maxFailures) && num < Pow2(HASH_BITS)
    requires IndexFor(t.buckets, num) < |t.buckets|
    requires var b := t.buckets[IndexFor(t.buckets, num)];
             forall n :: n in nodes <==> (n in b.nodes && n.num != num) || n in extra
    ensures Contents(SetNodes(t.buckets, IndexFor(t.buckets, num), nodes)) == Without(Contents(t.buckets), num) + extra
  {
    HeldOnlyInItsBucket(t, num, maxFailures);
    SetNodesContents(t.buckets, IndexFor(t.buckets, num), nodes, num, extra);
  }

  lemma ChronologicalSet(t: Table, i: nat, nodes: seq<NodeInfo>)
    requires i < |t.buckets| && AllChronological(t) && Chronological(nodes)
    ensures AllChronological(t.(buckets := SetNodes(t.buckets, i, nodes)))
  {
  }

  // ----- Splitting

  lemma HalvesOfBlock(b: Bucket, q: nat, n: nat)
    requires IsBlock(b, q, n) && n >= 1
    ensures b.min <= b.max && Halves(b, LowerHalf(b), UpperHalf(b))
  {
    BlockWidth(b, q, n);
  }

  lemma SplitBucketOk(b: Bucket, self: nat, maxFailures: int)
    requires BucketOk(b, self, maxFailures) && b.min <= b.max && Halves(b, LowerHalf(b), UpperHalf(b))
    ensures BucketOk(LowerHalf(b), self, maxFailures) && BucketOk(UpperHalf(b), self, maxFailures)
    ensures |LowerHalf(b).nodes| + |UpperHalf(b).nodes| == |b.nodes|
    ensures forall n :: n in b.nodes <==> n in LowerHalf(b).nodes || n in UpperHalf(b).nodes
  {
    HalvesMembers(b.nodes, SplitPoint(b));
    BelowDistinct(b.nodes, SplitPoint(b), |b.nodes|);
    FromDistinct(b.nodes, SplitPoint(b), |b.nodes|);
  }

  /** K distinct contacts and self do not fit in fewer than 16 aligned IDs. */
  lemma CrowdIsWide(a: seq<NodeInfo>, b: seq<NodeInfo>, self: nat, q: nat, n: nat)
    requires DistinctNums(a) && DistinctNums(b) && Nums(a) !! Nums(b)
    requires self !in Nums(a) && self !in Nums(b) && InBlock(self, q, n)
    requires forall x :: x in a || x in b ==> InBlock(x.num, q, n)
    requires |a| + |b| >= K
    ensures n >= 4
  {
    NumsCount(a);
    NumsCount(b);
    var s := Nums(a) + Nums(b) + {self};
    assert |Nums(a) + Nums(b)| == |Nums(a)| + |Nums(b)|;
    AddOne(Nums(a) + Nums(b), self);
    BlockIsWide(q, n);
    RangeBoundsCount(s, Start(q, n), Start(q + 1, n));
    assert Pow2(3) == 8;
    if n < 4 {
      Pow2Monotone(n, 3);
    }
  }

  lemma OwnIdNotHeld(b: Bucket, self: nat, maxFailures: int)
    requires BucketOk(b, self, maxFailures)
    ensures self !in Nums(b.nodes)
  {
  }

  /** Our own full bucket is at least 16 IDs wide. */
  lemma FullHomeIsWide(t: Table, maxFailures: int) returns (q: nat, n: nat)
    requires WellFormed(t, maxFailures) && |t.buckets[HomeOf(t)].nodes| == K
    ensures IsBlock(t.buckets[HomeOf(t)], q, n) && n >= 4 && n + |t.buckets| == HASH_BITS + 1
  {
    q, n := HomeBlock(t.buckets, 0, |t.buckets|, 0, HASH_BITS, t.self);
    var b := t.buckets[HomeOf(t)];
    assert BucketOk(b, t.self, maxFailures);
    OwnIdNotHeld(b, t.self, maxFailures);
    assert Nums([]) == {};
    CrowdIsWide(b.nodes, [], t.self, q, n);
  }

  lemma SplitContents(bs: seq<Bucket>, h: nat)
    requires h < |bs| && bs[h].min <= bs[h].max
    requires forall n :: n in bs[h].nodes <==> n in LowerHalf(bs[h]).nodes || n in UpperHalf(bs[h]).nodes
    ensures Contents(SplitAt(bs, h)) == Contents(bs)
  {
    var cs := SplitAt(bs, h);
    forall n ensures n in Contents(cs) <==> n in Contents(bs) {
      if n in Contents(bs) {
        var i :| 0 <= i < |bs| && n in bs[i].nodes;
        if i == h { assert n in cs[h].nodes || n in cs[h + 1].nodes; }
        else { assert n in cs[if i < h then i else i + 1].nodes; }
      }
      if n in Contents(cs) {
        var i :| 0 <= i < |cs| && n in cs[i].nodes;
        if i == h || i == h + 1 { assert n in bs[h].nodes; }
        else { assert n in bs[if i < h then i else i - 1].nodes; }
      }
    }
  }

  lemma SplitAtSplits(bs: seq<Bucket>, h: nat)
    requires h < |bs| && bs[h].min <= bs[h].max && Halves(bs[h], LowerHalf(bs[h]), UpperHalf(bs[h]))
    ensures SplitsTo(bs, h, SplitAt(bs, h))
  {
  }

  /** Splitting our own full bucket keeps the invariant, and loses nothing. */
  lemma SplitKeepsInv(t: Table, maxFailures: int)
    requires WellFormed(t, maxFailures) && |t.buckets[HomeOf(t)].nodes| == K
    ensures t.buckets[HomeOf(t)].min <= t.buckets[HomeOf(t)].max
    ensures var t' := t.(buckets := SplitAt(t.buckets, HomeOf(t)));
            Inv(t', maxFailures) && Contents(t'.buckets) == Contents(t.buckets) && PairOf(t') == HomeOf(t)
    ensures |t.buckets| + 3 <= HASH_BITS
  {
    var bs := t.buckets;
    var h := HomeOf(t);
    var q, n := FullHomeIsWide(t, maxFailures);
    HalvesOfBlock(bs[h], q, n);
    assert BucketOk(bs[h], t.self, maxFailures);
    SplitBucketOk(bs[h], t.self, maxFailures);
    var cs := SplitAt(bs, h);
    SplitAtSplits(bs, h);
    SplitKeepsPath(bs, cs, 0, |bs|, 0, HASH_BITS, t.self);
    forall i | 0 <= i < |cs| ensures BucketOk(cs[i], t.self, maxFailures) {
      if i != h && i != h + 1 { assert BucketOk(bs[if i < h then i else i - 1], t.self, maxFailures); }
    }
    SplitContents(bs, h);
  }

  lemma SplitKeepsChronology(t: Table, maxFailures: int)
    requires WellFormed(t, maxFailures) && AllChronological(t)
    requires t.buckets[HomeOf(t)].min <= t.buckets[HomeOf(t)].max
    ensures AllChronological(t.(buckets := SplitAt(t.buckets, HomeOf(t))))
  {
    var h := HomeOf(t);
    var b := t.buckets[h];
    BelowChronological(b.nodes, SplitPoint(b), |b.nodes|);
    FromChronological(b.nodes, SplitPoint(b), |b.nodes|);
    var cs := SplitAt(t.buckets, h);
    forall i | 0 <= i < |cs| ensures Chronological(cs[i].nodes) {
      if i != h && i != h + 1 { assert Chronological(t.buckets[if i < h then i else i - 1].nodes); }
    }
  }

  // ----- Merging

  lemma MergedBucketOk(b: Bucket, c: Bucket, self: nat, maxFailures: int)
    requires BucketOk(b, self, maxFailures) && BucketOk(c, self, maxFailures)
    requires b.max <= c.min || c.max <= b.min
    requires |b.nodes| + |c.nodes| <= K
    ensures BucketOk(MergedBucket(b, c), self, maxFailures)
    ensures forall n :: n in MergedBucket(b, c).nodes <==> n in b.nodes || n in c.nodes
  {
    MergeMembers(b.nodes, c.nodes);
    MergeDistinct(b.nodes, c.nodes);
  }

  lemma MergeContents(bs: seq<Bucket>, p: nat, cs: seq<Bucket>)
    requires MergesTo(bs, p, cs)
    requires forall n :: n in cs[p].nodes <==> n in bs[p].nodes || n in bs[p + 1].nodes
    ensures Contents(cs) == Contents(bs)
  {
    forall n ensures n in Contents(cs) <==> n in Contents(bs) {
      if n in Contents(bs) {
        var i :| 0 <= i < |bs| && n in bs[i].nodes;
        if i == p || i == p + 1 { assert n in cs[p].nodes; }
        else { assert n in cs[if i < p then i else i - 1].nodes; }
      }
      if n in Contents(cs) {
        var i :| 0 <= i < |cs| && n in cs[i].nodes;
        if i == p { assert n in bs[p].nodes || n in bs[p + 1].nodes; }
        else { assert n in bs[if i < p then i else i + 1].nodes; }
      }
    }
  }

  /** A bucket has a merge partner exactly when it is one of the pair: the other one. */
  lemma PartnerIsTwin(bs: seq<Bucket>, self: nat, i: nat)
    requires Shape(bs, self) && i < |bs|
    ensures MergePartner(bs, i) ==
            if |bs| >= 2 && i == Pair(bs, self) then i + 1
            else if |bs| >= 2 && i == Pair(bs, self) + 1 then i - 1
            else |bs|
  {
    if i >= 1 { EqualNeighboursArePair(bs, 0, |bs|, 0, HASH_BITS, self, i - 1); }
    if i + 1 < |bs| { EqualNeighboursArePair(bs, 0, |bs|, 0, HASH_BITS, self, i); }
  }

  /** The table after one merge: bucket i has taken over its partner j. */
  function MergedTable(t: Table, i: nat, j: nat): Table
    requires i < |t.buckets| && j < |t.buckets|
  {
    t.(buckets := RemoveAt(t.buckets[i := MergedBucket(t.buckets[i], t.buckets[j])], j))
  }

  lemma MergedTableMerges(t: Table, i: nat, j: nat, p: nat)
    requires p + 1 < |t.buckets| && ((i == p && j == p + 1) || (i == p + 1 && j == p))
    requires t.buckets[p].min <= t.buckets[p + 1].min && t.buckets[p].max <= t.buckets[p + 1].max
    ensures MergesTo(t.buckets, p, MergedTable(t, i, j).buckets)
    ensures MergedTable(t, i, j).buckets[p] == MergedBucket(t.buckets[i], t.buckets[j])
  {
  }

  lemma PairIsApart(t: Table)
    requires Shape(t.buckets, t.self) && |t.buckets| >= 2
    ensures var a, b := t.buckets[PairOf(t)], t.buckets[PairOf(t) + 1];
            a.min < a.max <= b.min < b.max
  {
    var q, n := PairBlocks(t.buckets, 0, |t.buckets|, 0, HASH_BITS, t.self);
    BlockIsWide(2 * q, n);
    BlockIsWide(2 * q + 1, n);
  }

  lemma MergesToShape(bs: seq<Bucket>, cs: seq<Bucket>, self: nat)
    requires Shape(bs, self) && |bs| >= 2 && MergesTo(bs, Pair(bs, self), cs)
    ensures Shape(cs, self) && Home(cs, self) == Pair(bs, self)
  {
    MergeKeepsPath(bs, cs, 0, |bs|, 0, HASH_BITS, self);
  }

  lemma MergeStepShape(t: Table, i: nat, j: nat)
    requires Shape(t.buckets, t.self) && |t.buckets| >= 2
    requires (i == PairOf(t) && j == PairOf(t) + 1) || (i == PairOf(t) + 1 && j == PairOf(t))
    ensures var t' := MergedTable(t, i, j);
            && Shape(t'.buckets, t.self) && HomeOf(t') == PairOf(t)
            && MergesTo(t.buckets, PairOf(t), t'.buckets)
            && t'.buckets[PairOf(t)] == MergedBucket(t.buckets[i], t.buckets[j])
  {
    PairIsApart(t);
    MergedTableMerges(t, i, j, PairOf(t));
    MergesToShape(t.buckets, MergedTable(t, i, j).buckets, t.self);
  }

  /** One step of the cascade: the pair becomes one bucket. */
  lemma MergeStep(t: Table, i: nat, j: nat, maxFailures: int)
    requires WellFormed(t, maxFailures) && |t.buckets| >= 2
    requires (i == PairOf(t) && j == PairOf(t) + 1) || (i == PairOf(t) + 1 && j == PairOf(t))
    requires |t.buckets[i].nodes| + |t.buckets[j].nodes| <= K
    ensures WellFormed(MergedTable(t, i, j), maxFailures)
    ensures HomeOf(MergedTable(t, i, j)) == PairOf(t)
    ensures Contents(MergedTable(t, i, j).buckets) == Contents(t.buckets)
  {
    var p := PairOf(t);
    var cs := MergedTable(t, i, j).buckets;
    MergeStepShape(t, i, j);
    PairIsApart(t);
    assert BucketOk(t.buckets[i], t.self, maxFailures) && BucketOk(t.buckets[j], t.self, maxFailures);
    MergedBucketOk(t.buckets[i], t.buckets[j], t.self, maxFailures);
    MergedAllOk(t.buckets, p, cs, t.self, maxFailures);
    MergeContents(t.buckets, p, cs);
  }

  lemma MergedAllOk(bs: seq<Bucket>, p: nat, cs: seq<Bucket>, self: nat, maxFailures: int)
    requires MergesTo(bs, p, cs) && BucketOk(cs[p], self, maxFailures)
    requires forall i :: 0 <= i < |bs| ==> BucketOk(bs[i], self, maxFailures)
    ensures forall i :: 0 <= i < |cs| ==> BucketOk(cs[i], self, maxFailures)
  {
    forall k | 0 <= k < |cs| ensures BucketOk(cs[k], self, maxFailures) {
      if k != p { assert BucketOk(bs[if k < p then k else k + 1], self, maxFailures); }
    }
  }

  lemma MergeStepChronology(t: Table, i: nat, j: nat)
    requires i < |t.buckets| && j < |t.buckets| && AllChronological(t)
    ensures AllChronological(MergedTable(t, i, j))
  {
    MergeChronological(t.buckets[i].nodes, 0, t.buckets[j].nodes, 0);
    var cs := t.buckets[i := MergedBucket(t.buckets[i], t.buckets[j])];
    assert forall k :: 0 <= k < |cs| ==> Chronological(cs[k].nodes);
    forall k | 0 <= k < |cs| - 1 ensures Chronological(RemoveAt(cs, j)[k].nodes) {
      assert RemoveAt(cs, j)[k] == cs[if k < j then k else k + 1];
    }
  }

  lemma HomeInPair(t: Table, maxFailures: int)
    requires WellFormed(t, maxFailures) && |t.buckets| >= 2
    ensures HomeOf(t) == PairOf(t) || HomeOf(t) == PairOf(t) + 1
  {
    var q, n := HomeBlock(t.buckets, 0, |t.buckets|, 0, HASH_BITS, t.self);
  }

  /** The bucket is our own or its twin. */
  predicate InPair(t: Table, i: nat)
    requires Shape(t.buckets, t.self)
  {
    |t.buckets| >= 2 && (i == PairOf(t) || i == PairOf(t) + 1)
  }

  /** One bucket could not hold all nodes of our own and its twin. */
  predicate Apart(t: Table)
    requires Shape(t.buckets, t.self)
  {
    |t.buckets| >= 2 ==> PairCount(t) > K
  }

  /** The whole cascade, started at a bucket that lost a node, restores the invariant; started at our own bucket or
      its twin it ends only when the two cannot be one. */
  lemma {:induction false} MergeRestoresInv(t: Table, i: nat, maxFailures: int)
    requires WellFormed(t, maxFailures) && i < |t.buckets|
    requires |t.buckets| >= 2 && PairCount(t) < K ==> i == PairOf(t) || i == PairOf(t) + 1
    ensures var t' := t.(buckets := MergeFrom(t.buckets, i));
            && Inv(t', maxFailures)
            && Contents(t'.buckets) == Contents(t.buckets)
            && (AllChronological(t) ==> AllChronological(t'))
            && (InPair(t, i) || |t.buckets| == 1 ==> Apart(t'))
    decreases |t.buckets|
  {
    PartnerIsTwin(t.buckets, t.self, i);
    var j := MergePartner(t.buckets, i);
    if j < |t.buckets| && |t.buckets[i].nodes| + |t.buckets[j].nodes| <= K {
      MergeStep(t, i, j, maxFailures);
      if AllChronological(t) { MergeStepChronology(t, i, j); }
      var t1 := MergedTable(t, i, j);
      if |t1.buckets| >= 2 { HomeInPair(t1, maxFailures); }
      MergeRestoresInv(t1, Min(i, j), maxFailures);
    }
  }
}
