/** findNodes: which nodes it answers, and where the answer is exactly the closest of the table. */
module KTableLookup {
  import opened Bits
  import opened KTableSpec
  import opened KTableShape
  import opened KTableLists
  import opened KTableInvariant
  import opened KTableInsert

  // ----- Sorting

  predicate SortedByKey<T>(s: seq<T>, key: T -> nat) {
    forall i, j :: 0 <= i < j < |s| ==> key(s[i]) <= key(s[j])
  }

  lemma InsertKeepsSorted<T>(s: seq<T>, x: T, key: T -> nat)
    requires SortedByKey(s, key)
    ensures SortedByKey(InsertAt(s, KeyPosition(s, x, key, 0), x), key)
  {
    var p := KeyPosition(s, x, key, 0);
    var r := InsertAt(s, p, x);
    forall i, j | 0 <= i < j < |r| ensures key(r[i]) <= key(r[j]) {
      if i == p { if p < j - 1 { assert key(s[p]) <= key(s[j - 1]); } }
    }
  }

  lemma InsertAtHas<T>(s: seq<T>, p: nat, x: T, y: T)
    requires p <= |s|
    ensures y in InsertAt(s, p, x) <==> y in s || y == x
  {
    var r := InsertAt(s, p, x);
    if y in s {
      var k :| 0 <= k < |s| && s[k] == y;
      assert r[if k < p then k else k + 1] == y;
    }
    assert r[p] == x;
    if y in r && y != x {
      var k :| 0 <= k < |r| && r[k] == y;
      assert s[if k < p then k else k - 1] == y;
    }
  }

  lemma {:induction false} SortBySorted<T>(s: seq<T>, key: T -> nat, k: nat)
    requires k <= |s|
    ensures SortedByKey(SortBy(s, key, k), key)
  {
    if k > 0 {
      SortBySorted(s, key, k - 1);
      InsertKeepsSorted(SortBy(s, key, k - 1), s[k - 1], key);
    }
  }

  lemma {:induction false} SortByHas<T>(s: seq<T>, key: T -> nat, k: nat, y: T)
    requires k <= |s|
    ensures y in SortBy(s, key, k) <==> exists i :: 0 <= i < k && s[i] == y
  {
    if k > 0 {
      SortByHas(s, key, k - 1, y);
      var sorted := SortBy(s, key, k - 1);
      InsertAtHas(sorted, KeyPosition(sorted, s[k - 1], key, 0), s[k - 1], y);
    }
  }

  // ----- The closest nodes of a set

  /** r lists the min(K, |pool|) members of the pool closest to num, nearest first. */
  ghost predicate Closest(r: seq<NodeInfo>, num: nat, pool: set<NodeInfo>) {
    && |r| == Min(K, |pool|)
    && (forall x :: x in r ==> x in pool)
    && (forall i, j :: 0 <= i < j < |r| ==> Xor(num, r[i].num) < Xor(num, r[j].num))
    && (forall x, y :: x in pool && x !in r && y in r ==> Xor(num, y.num) < Xor(num, x.num))
  }

  ghost function Members(nodes: seq<NodeInfo>): set<NodeInfo> {
    set n | n in nodes
  }

  lemma MembersCount(nodes: seq<NodeInfo>)
    ensures |Members(nodes)| <= |nodes|
    ensures DistinctNums(nodes) ==> |Members(nodes)| == |nodes|
  {
    MembersToCount(nodes, |nodes|);
    assert Members(nodes) == MembersTo(nodes, |nodes|);
  }

  ghost function MembersTo(nodes: seq<NodeInfo>, k: nat): set<NodeInfo>
    requires k <= |nodes|
  {
    set i | 0 <= i < k :: nodes[i]
  }

  lemma {:induction false} MembersToCount(nodes: seq<NodeInfo>, k: nat)
    requires k <= |nodes|
    ensures |MembersTo(nodes, k)| <= k
    ensures DistinctNums(nodes) ==> |MembersTo(nodes, k)| == k
  {
    if k == 0 {
      assert MembersTo(nodes, k) == {};
    } else {
      MembersToCount(nodes, k - 1);
      var s, x := MembersTo(nodes, k - 1), nodes[k - 1];
      assert MembersTo(nodes, k) == s + {x};
      if x in s {
        assert s + {x} == s;
        var i :| 0 <= i < k - 1 && nodes[i] == x;
        assert nodes[i].num == nodes[k - 1].num;
      }
    }
  }

  /** Sorting a list of distinct nodes by distance orders it strictly. */
  lemma SortByDistance(nodes: seq<NodeInfo>, num: nat)
    requires DistinctNums(nodes)
    ensures var s := SortBy(nodes, Distance(num), |nodes|);
            && (forall x :: x in s <==> x in nodes)
            && forall i, j :: 0 <= i < j < |s| ==> Xor(num, s[i].num) < Xor(num, s[j].num)
  {
    var s := SortBy(nodes, Distance(num), |nodes|);
    SortBySorted(nodes, Distance(num), |nodes|);
    forall x ensures x in s <==> x in nodes { SortByHas(nodes, Distance(num), |nodes|, x); }
    NumsCount(nodes);
    NumsCount(s);
    assert Nums(s) == Nums(nodes);
    forall i, j | 0 <= i < j < |s| ensures Xor(num, s[i].num) < Xor(num, s[j].num) {
      assert Distance(num)(s[i]) <= Distance(num)(s[j]);
      XorInjective(num, s[i].num, s[j].num);
    }
  }

  /** The first K of the sorted list are the closest of the list. */
  lemma ClosestOfIsClosest(nodes: seq<NodeInfo>, num: nat)
    requires DistinctNums(nodes)
    ensures Closest(ClosestOf(nodes, num), num, Members(nodes))
  {
    SortByDistance(nodes, num);
    MembersCount(nodes);
    var s := SortBy(nodes, Distance(num), |nodes|);
    TakeIsClosest(s, num, Members(nodes));
  }

  lemma TakeIsClosest(s: seq<NodeInfo>, num: nat, pool: set<NodeInfo>)
    requires |s| == |pool| && forall x :: x in s <==> x in pool
    requires forall i, j :: 0 <= i < j < |s| ==> Xor(num, s[i].num) < Xor(num, s[j].num)
    ensures Closest(Take(s, K), num, pool)
  {
    var r := Take(s, K);
    forall i | 0 <= i < |r| ensures r[i] == s[i] && s[i] in r { assert r[i] in r; }
    forall x, y | x in pool && x !in r && y in r ensures Xor(num, y.num) < Xor(num, x.num) {
      var i :| 0 <= i < |r| && r[i] == y;
      var j :| 0 <= j < |s| && s[j] == x;
    }
  }

  /** The closest of a part are the closest of the whole when the part holds K nodes
      that are nearer than everything left out. */
  lemma ClosestOfPart(r: seq<NodeInfo>, num: nat, part: set<NodeInfo>, whole: set<NodeInfo>, near: set<NodeInfo>)
    requires Closest(r, num, part) && part <= whole && near <= part && |near| >= K
    requires forall x, y :: x in whole && x !in part && y in near ==> Xor(num, y.num) < Xor(num, x.num)
    ensures Closest(r, num, whole)
  {
    SubsetCard(near, part);
    SubsetCard(part, whole);
    forall x, y | x in whole && x !in r && y in r ensures Xor(num, y.num) < Xor(num, x.num) {
      if x !in part && y !in near {
        var z := NearLeftOut(r, near, y);
        assert Xor(num, y.num) < Xor(num, z.num) < Xor(num, x.num);
      }
    }
  }

  /** K or more near nodes do not all fit in a list of K nodes that also holds another one. */
  lemma NearLeftOut(r: seq<NodeInfo>, near: set<NodeInfo>, y: NodeInfo) returns (z: NodeInfo)
    requires y in r && y !in near && |near| >= |r|
    ensures z in near && z !in r
  {
    MembersCount(r);
    if forall z :: z in near ==> z in r {
      SubsetCard(near, Members(r) - {y});
    }
    z :| z in near && z !in r;
  }

  // ----- What the search collects

  /** All contacts of the buckets at most r places from bucket i. */
  ghost function Visited(bs: seq<Bucket>, i: nat, r: nat): set<NodeInfo>
  {
    set j, n | 0 <= j < |bs| && i - r <= j <= i + r && n in bs[j].nodes :: n
  }

  lemma ListsDisjoint(t: Table, i: nat, j: nat, maxFailures: int)
    requires WellFormed(t, maxFailures) && i < |t.buckets| && j < |t.buckets| && i != j
    ensures Nums(t.buckets[i].nodes) !! Nums(t.buckets[j].nodes)
  {
    ShapeContiguous(t.buckets, t.self);
    var b, c := t.buckets[i], t.buckets[j];
    assert BucketOk(b, t.self, maxFailures) && BucketOk(c, t.self, maxFailures);
    assert b.max <= c.min || c.max <= b.min;
  }

  lemma ConcatDistinct(xs: seq<NodeInfo>, ys: seq<NodeInfo>)
    requires DistinctNums(xs) && DistinctNums(ys) && Nums(xs) !! Nums(ys)
    ensures DistinctNums(xs + ys) && Nums(xs + ys) == Nums(xs) + Nums(ys)
    ensures Members(xs + ys) == Members(xs) + Members(ys)
  {
    assert forall n :: n in xs + ys <==> n in xs || n in ys;
    assert Nums(xs + ys) == Nums(xs) + Nums(ys);
    NumsCount(xs);
    NumsCount(ys);
    NumsCount(xs + ys);
    assert |Nums(xs) + Nums(ys)| == |Nums(xs)| + |Nums(ys)|;
  }

  lemma ConcatTwo(xs: seq<NodeInfo>, ys: seq<NodeInfo>, zs: seq<NodeInfo>)
    requires DistinctNums(xs) && DistinctNums(ys) && DistinctNums(zs)
    requires Nums(xs) !! Nums(ys) && Nums(xs) !! Nums(zs) && Nums(ys) !! Nums(zs)
    ensures DistinctNums(xs + ys + zs)
    ensures Members(xs + ys + zs) == Members(xs) + Members(ys) + Members(zs)
  {
    ConcatDistinct(xs, ys);
    ConcatDistinct(xs + ys, zs);
  }

  lemma {:induction false} AroundCollects(t: Table, i: nat, r: nat, maxFailures: int) returns (a: seq<NodeInfo>)
    requires WellFormed(t, maxFailures) && i < |t.buckets|
    ensures a == Around(t.buckets, i, r)
    ensures DistinctNums(a) && Members(a) == Visited(t.buckets, i, r)
  {
    if r == 0 {
      assert BucketOk(t.buckets[i], t.self, maxFailures);
      a := t.buckets[i].nodes;
    } else {
      var inner := AroundCollects(t, i, r - 1, maxFailures);
      WidenCollects(t, i, r, inner, maxFailures);
      a := inner + NodesAt(t.buckets, i - r) + NodesAt(t.buckets, i + r);
    }
  }

  /** The lists one place further out on both sides are new and disjoint. */
  lemma WidenCollects(t: Table, i: nat, r: nat, inner: seq<NodeInfo>, maxFailures: int)
    requires WellFormed(t, maxFailures) && i < |t.buckets| && r > 0
    requires DistinctNums(inner) && Members(inner) == Visited(t.buckets, i, r - 1)
    ensures DistinctNums(inner + NodesAt(t.buckets, i - r) + NodesAt(t.buckets, i + r))
    ensures Members(inner + NodesAt(t.buckets, i - r) + NodesAt(t.buckets, i + r)) == Visited(t.buckets, i, r)
  {
    FreshAt(t, i, r - 1, inner, i - r, maxFailures);
    FreshAt(t, i, r - 1, inner, i + r, maxFailures);
    AtDisjoint(t, i - r, i + r, maxFailures);
    ConcatTwo(inner, NodesAt(t.buckets, i - r), NodesAt(t.buckets, i + r));
    VisitedGrows(t.buckets, i, r);
  }

  lemma AtDisjoint(t: Table, i: int, j: int, maxFailures: int)
    requires WellFormed(t, maxFailures) && i != j
    ensures Nums(NodesAt(t.buckets, i)) !! Nums(NodesAt(t.buckets, j))
  {
    if 0 <= i < |t.buckets| && 0 <= j < |t.buckets| { ListsDisjoint(t, i, j, maxFailures); }
  }

  lemma FreshAt(t: Table, i: nat, r: nat, a: seq<NodeInfo>, j: int, maxFailures: int)
    requires WellFormed(t, maxFailures) && i < |t.buckets|
    requires j < i - r || i + r < j
    requires Members(a) == Visited(t.buckets, i, r)
    ensures DistinctNums(NodesAt(t.buckets, j))
    ensures Nums(a) !! Nums(NodesAt(t.buckets, j))
  {
    if 0 <= j < |t.buckets| {
      assert BucketOk(t.buckets[j], t.self, maxFailures);
      forall x | x in Nums(a) ensures x !in Nums(NodesAt(t.buckets, j)) {
        var n :| n in a && n.num == x;
        assert n in Members(a);
        var k :| 0 <= k < |t.buckets| && i - r <= k <= i + r && n in t.buckets[k].nodes;
        ListsDisjoint(t, k, j, maxFailures);
        assert x in Nums(t.buckets[k].nodes);
      }
    }
  }

  lemma VisitedGrows(bs: seq<Bucket>, i: nat, r: nat)
    requires i < |bs| && r > 0
    ensures Visited(bs, i, r) == Visited(bs, i, r - 1) + Members(NodesAt(bs, i - r)) + Members(NodesAt(bs, i + r))
  {
    forall n | n in Visited(bs, i, r)
      ensures n in Visited(bs, i, r - 1) + Members(NodesAt(bs, i - r)) + Members(NodesAt(bs, i + r))
    {
      var j :| 0 <= j < |bs| && i - r <= j <= i + r && n in bs[j].nodes;
      if j == i - r { assert n in NodesAt(bs, i - r); }
      else if j == i + r { assert n in NodesAt(bs, i + r); }
      else { assert n in Visited(bs, i, r - 1); }
    }
  }

  lemma SpreadStep(bs: seq<Bucket>, i: nat, r: nat)
    requires i < |bs|
    ensures Spread(bs, i, r) ==
            if |Around(bs, i, r)| < K && (i >= r + 1 || i + r + 1 < |bs|) then Spread(bs, i, r + 1) else r
  {
  }

  /** The search stops with K nodes, or with all buckets visited. */
  lemma {:induction false} SpreadStops(bs: seq<Bucket>, i: nat, r: nat)
    requires i < |bs|
    ensures |Around(bs, i, Spread(bs, i, r))| >= K || (i <= Spread(bs, i, r) && |bs| <= i + Spread(bs, i, r) + 1)
    decreases |bs| - r
  {
    SpreadStep(bs, i, r);
    if Spread(bs, i, r) != r {
      SpreadStops(bs, i, r + 1);
    }
  }

  lemma VisitedAll(bs: seq<Bucket>, i: nat, r: nat)
    requires i < |bs| && i <= r && |bs| <= i + r + 1
    ensures Visited(bs, i, r) == Contents(bs)
  {
  }

  lemma VisitedInside(bs: seq<Bucket>, i: nat, r: nat)
    ensures Visited(bs, i, r) <= Contents(bs)
  {
  }

  /** For every ID the answer is the exact closest of the buckets visited, and has min(K, total) nodes. */
  lemma AnswerIsClosestVisited(t: Table, num: nat, maxFailures: int)
    requires WellFormed(t, maxFailures) && num < Pow2(HASH_BITS)
    ensures IndexFor(t.buckets, num) < |t.buckets|
    ensures var i := IndexFor(t.buckets, num);
            var r := Spread(t.buckets, i, 0);
            && Closest(FindNodes(t, num), num, Visited(t.buckets, i, r))
            && |FindNodes(t, num)| == Min(K, |Contents(t.buckets)|)
  {
    LookupFindsBucket(t, num, maxFailures);
    var bs := t.buckets;
    var i := IndexFor(bs, num);
    var r := Spread(bs, i, 0);
    SpreadStops(bs, i, 0);
    var around := AroundCollects(t, i, r, maxFailures);
    ClosestOfIsClosest(around, num);
    MembersCount(around);
    VisitedInside(bs, i, r);
    SubsetCard(Visited(bs, i, r), Contents(bs));
    if |around| < K { VisitedAll(bs, i, r); }
  }

  lemma HeldInItsRange(t: Table, x: NodeInfo, j: nat, k: nat, maxFailures: int)
    requires WellFormed(t, maxFailures) && j < |t.buckets| && k < |t.buckets| && x in t.buckets[j].nodes
    ensures x in t.buckets[k].nodes <==> t.buckets[k].Has(x.num)
  {
    assert BucketOk(t.buckets[j], t.self, maxFailures) && BucketOk(t.buckets[k], t.self, maxFailures);
    if j != k {
      ShapeContiguous(t.buckets, t.self);
      assert t.buckets[j].max <= t.buckets[k].min || t.buckets[k].max <= t.buckets[j].min;
    }
  }

  /** Seen from an ID, the contacts of its bucket are those at a distance below the bucket's width. */
  lemma OwnBucketNear(t: Table, num: nat, k: nat, x: NodeInfo, q: nat, n: nat, maxFailures: int)
    requires WellFormed(t, maxFailures) && k < |t.buckets| && t.buckets[k].Has(num)
    requires IsBlock(t.buckets[k], q, n) && x in Contents(t.buckets)
    ensures x in t.buckets[k].nodes <==> Xor(num, x.num) < Pow2(n)
  {
    var j :| 0 <= j < |t.buckets| && x in t.buckets[j].nodes;
    HeldInItsRange(t, x, j, k, maxFailures);
    XorBlock(num, x.num, q, n);
  }

  /** The nodes of the ID's own bucket come before all others in the answer, and others are
      answered only when all of its own are. */
  lemma OwnBucketFirst(t: Table, num: nat, maxFailures: int)
    requires WellFormed(t, maxFailures) && num < Pow2(HASH_BITS)
    ensures IndexFor(t.buckets, num) < |t.buckets|
    ensures var a := FindNodes(t, num);
            var own := t.buckets[IndexFor(t.buckets, num)].nodes;
            && (forall i, j :: 0 <= i < j < |a| && a[j] in own ==> a[i] in own)
            && (forall x, y :: x in own && x !in a && y in a ==> y in own)
  {
    LookupFindsBucket(t, num, maxFailures);
    AnswerIsClosestVisited(t, num, maxFailures);
    var k := IndexFor(t.buckets, num);
    var own := t.buckets[k].nodes;
    var a := FindNodes(t, num);
    var q, n := PathBlock(t.buckets, 0, |t.buckets|, 0, HASH_BITS, t.self, k);
    VisitedInside(t.buckets, k, Spread(t.buckets, k, 0));
    forall x | x in Contents(t.buckets) ensures x in own <==> Xor(num, x.num) < Pow2(n) {
      OwnBucketNear(t, num, k, x, q, n, maxFailures);
    }
    forall i, j | 0 <= i < j < |a| && a[j] in own ensures a[i] in own {
      assert a[i] in a && a[j] in a;
    }
    forall x, y | x in own && x !in a && y in a ensures y in own {
      assert x in Visited(t.buckets, k, Spread(t.buckets, k, 0));
    }
  }

  // ----- Where the answer is exact

  /** The ID belongs to our own bucket or to its twin. */
  predicate NearSelf(t: Table, num: nat)
    requires Shape(t.buckets, t.self)
  {
    |t.buckets| >= 2 ==> IndexFor(t.buckets, num) == PairOf(t) || IndexFor(t.buckets, num) == PairOf(t) + 1
  }

  /** The contacts in an aligned block. */
  ghost function InBlockOf(s: set<NodeInfo>, q: nat, n: nat): set<NodeInfo> {
    set x | x in s && InBlock(x.num, q, n)
  }

  /** K nodes of a visited block around the ID make the answer exact for the whole table. */
  lemma BlockMakesExact(t: Table, num: nat, q: nat, n: nat, maxFailures: int)
    requires WellFormed(t, maxFailures) && num < Pow2(HASH_BITS) && InBlock(num, q, n)
    requires IndexFor(t.buckets, num) < |t.buckets|
    requires |InBlockOf(Contents(t.buckets), q, n)| >= K
    requires InBlockOf(Contents(t.buckets), q, n)
             <= Visited(t.buckets, IndexFor(t.buckets, num), Spread(t.buckets, IndexFor(t.buckets, num), 0))
    ensures Closest(FindNodes(t, num), num, Contents(t.buckets))
  {
    var i := IndexFor(t.buckets, num);
    var near := InBlockOf(Contents(t.buckets), q, n);
    var part := Visited(t.buckets, i, Spread(t.buckets, i, 0));
    AnswerIsClosestVisited(t, num, maxFailures);
    forall x, y | x in Contents(t.buckets) && x !in part && y in near
      ensures Xor(num, y.num) < Xor(num, x.num)
    {
      XorBlock(num, x.num, q, n);
      XorBlock(num, y.num, q, n);
    }
    VisitedInside(t.buckets, i, Spread(t.buckets, i, 0));
    ClosestOfPart(FindNodes(t, num), num, part, Contents(t.buckets), near);
  }

  lemma BucketIsBlock(t: Table, i: nat, q: nat, n: nat, maxFailures: int)
    requires WellFormed(t, maxFailures) && i < |t.buckets| && IsBlock(t.buckets[i], q, n)
    ensures InBlockOf(Contents(t.buckets), q, n) == Members(t.buckets[i].nodes)
  {
    forall x | x in Contents(t.buckets) ensures InBlock(x.num, q, n) <==> x in t.buckets[i].nodes {
      var j :| 0 <= j < |t.buckets| && x in t.buckets[j].nodes;
      HeldInItsRange(t, x, j, i, maxFailures);
    }
    forall x | x in t.buckets[i].nodes ensures x in Contents(t.buckets) { }
  }

  /** A full bucket answers exactly for its own IDs. */
  lemma FullBucketExact(t: Table, num: nat, maxFailures: int)
    requires WellFormed(t, maxFailures) && num < Pow2(HASH_BITS)
    requires IndexFor(t.buckets, num) < |t.buckets| && |t.buckets[IndexFor(t.buckets, num)].nodes| == K
    ensures Closest(FindNodes(t, num), num, Contents(t.buckets))
  {
    LookupFindsBucket(t, num, maxFailures);
    var i := IndexFor(t.buckets, num);
    var q, n := PathBlock(t.buckets, 0, |t.buckets|, 0, HASH_BITS, t.self, i);
    BucketIsBlock(t, i, q, n, maxFailures);
    assert BucketOk(t.buckets[i], t.self, maxFailures);
    MembersCount(t.buckets[i].nodes);
    assert Spread(t.buckets, i, 0) == 0;
    BlockMakesExact(t, num, q, n, maxFailures);
  }

  /** The contacts of the pair are those of one aligned block around self. */
  lemma PairIsBlock(t: Table, maxFailures: int) returns (q: nat, n: nat)
    requires WellFormed(t, maxFailures) && |t.buckets| >= 2
    ensures var a, b := t.buckets[PairOf(t)], t.buckets[PairOf(t) + 1];
            && InBlockOf(Contents(t.buckets), q, n) == Members(a.nodes + b.nodes)
            && DistinctNums(a.nodes + b.nodes)
            && (forall x :: a.Has(x) || b.Has(x) ==> InBlock(x, q, n))
  {
    var p := PairOf(t);
    var q', n' := PairBlocks(t.buckets, 0, |t.buckets|, 0, HASH_BITS, t.self);
    q, n := q', n' + 1;
    BucketIsBlock(t, p, 2 * q', n', maxFailures);
    BucketIsBlock(t, p + 1, 2 * q' + 1, n', maxFailures);
    PairLists(t, maxFailures);
    HalvesOf(Contents(t.buckets), q', n');
    HalvesCover(t.buckets[p], t.buckets[p + 1], q', n');
  }

  lemma HalvesCover(a: Bucket, b: Bucket, q: nat, n: nat)
    requires IsBlock(a, 2 * q, n) && IsBlock(b, 2 * q + 1, n)
    ensures forall x :: a.Has(x) || b.Has(x) ==> InBlock(x, q, n + 1)
  {
    BlockIsWide(2 * q, n);
    BlockIsWide(2 * q + 1, n);
  }

  lemma HalvesOf(s: set<NodeInfo>, q: nat, n: nat)
    ensures InBlockOf(s, q, n + 1) == InBlockOf(s, 2 * q, n) + InBlockOf(s, 2 * q + 1, n)
  {
    BlockIsWide(2 * q, n);
    BlockIsWide(2 * q + 1, n);
  }

  lemma PairLists(t: Table, maxFailures: int)
    requires WellFormed(t, maxFailures) && |t.buckets| >= 2
    ensures var a, b := t.buckets[PairOf(t)].nodes, t.buckets[PairOf(t) + 1].nodes;
            DistinctNums(a + b) && Members(a + b) == Members(a) + Members(b)
  {
    var p := PairOf(t);
    assert BucketOk(t.buckets[p], t.self, maxFailures) && BucketOk(t.buckets[p + 1], t.self, maxFailures);
    ListsDisjoint(t, p, p + 1, maxFailures);
    ConcatDistinct(t.buckets[p].nodes, t.buckets[p + 1].nodes);
  }

  lemma PairIsVisited(t: Table, i: nat, r: nat)
    requires Shape(t.buckets, t.self) && |t.buckets| >= 2 && r >= 1
    requires i == PairOf(t) || i == PairOf(t) + 1
    ensures Members(t.buckets[PairOf(t)].nodes + t.buckets[PairOf(t) + 1].nodes) <= Visited(t.buckets, i, r)
  {
    var p := PairOf(t);
    var a, b := t.buckets[p].nodes, t.buckets[p + 1].nodes;
    forall x | x in a + b ensures x in Visited(t.buckets, i, r) {
      if x in a { assert x in t.buckets[p].nodes; } else { assert x in t.buckets[p + 1].nodes; }
    }
  }

  lemma PairMakesExact(t: Table, num: nat, maxFailures: int)
    requires Inv(t, maxFailures) && num < Pow2(HASH_BITS) && |t.buckets| >= 2
    requires IndexFor(t.buckets, num) == PairOf(t) || IndexFor(t.buckets, num) == PairOf(t) + 1
    requires |t.buckets[IndexFor(t.buckets, num)].nodes| < K
    ensures Closest(FindNodes(t, num), num, Contents(t.buckets))
  {
    var i := IndexFor(t.buckets, num);
    var p := PairOf(t);
    LookupFindsBucket(t, num, maxFailures);
    var q, n := PairIsBlock(t, maxFailures);
    MembersCount(t.buckets[p].nodes + t.buckets[p + 1].nodes);
    assert Spread(t.buckets, i, 0) >= 1;
    PairIsVisited(t, i, Spread(t.buckets, i, 0));
    BlockMakesExact(t, num, q, n, maxFailures);
  }

  /** Around ourselves the answer is exact: in every table with the invariant, for every ID of our own
      bucket or its twin, findNodes returns the min(K, total) closest nodes of the whole table. */
  lemma ExactNearSelf(t: Table, num: nat, maxFailures: int)
    requires Inv(t, maxFailures) && num < Pow2(HASH_BITS) && NearSelf(t, num)
    ensures IndexFor(t.buckets, num) < |t.buckets|
    ensures Closest(FindNodes(t, num), num, Contents(t.buckets))
  {
    LookupFindsBucket(t, num, maxFailures);
    AnswerIsClosestVisited(t, num, maxFailures);
    var i := IndexFor(t.buckets, num);
    assert BucketOk(t.buckets[i], t.self, maxFailures);
    if |t.buckets[i].nodes| == K {
      FullBucketExact(t, num, maxFailures);
    } else if |t.buckets| == 1 {
      VisitedAll(t.buckets, i, Spread(t.buckets, i, 0));
    } else {
      PairMakesExact(t, num, maxFailures);
    }
  }
}
