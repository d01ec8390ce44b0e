/** Away from ourselves findNodes need not be exact: exactly which buckets it can go wrong for. */
module KTableMisses {
  import opened Bits
  import opened KTableSpec
  import opened KTableShape
  import opened KTableLists
  import opened KTableInvariant
  import opened KTableInsert
  import opened KTableLookup

  /** c contacts with the first free numbers from x on, our own number left out. */
  function Fill(x: nat, c: nat, self: nat): seq<NodeInfo>
    decreases c, if x == self then 1 else 0
  {
    if c == 0 then []
    else if x == self then Fill(x + 1, c, self)
    else [NodeInfo(x, 0, 0)] + Fill(x + 1, c - 1, self)
  }

  predicate FillRange(x: nat, c: nat, self: nat, n: NodeInfo) {
    x <= n.num <= x + c && (n.num == x + c ==> x <= self < x + c) && n.num != self && n.fails == 0
  }

  lemma {:induction false} FillCorrect(x: nat, c: nat, self: nat)
    ensures |Fill(x, c, self)| == c && DistinctNums(Fill(x, c, self))
    ensures forall n :: n in Fill(x, c, self) ==> FillRange(x, c, self, n)
    decreases c, if x == self then 1 else 0
  {
    if c > 0 {
      if x == self {
        FillCorrect(x + 1, c, self);
        FillPastSelf(x, c, self, Fill(x + 1, c, self));
      } else {
        FillCorrect(x + 1, c - 1, self);
        FillOne(x, c, self, Fill(x + 1, c - 1, self));
      }
    }
  }

  lemma FillPastSelf(x: nat, c: nat, self: nat, rest: seq<NodeInfo>)
    requires x == self && c > 0 && forall n :: n in rest ==> FillRange(x + 1, c, self, n)
    ensures forall n :: n in rest ==> FillRange(x, c, self, n)
  {
    forall n | n in rest ensures FillRange(x, c, self, n) {
      assert FillRange(x + 1, c, self, n);
    }
  }

  lemma FillOne(x: nat, c: nat, self: nat, rest: seq<NodeInfo>)
    requires x != self && c > 0 && DistinctNums(rest) && forall n :: n in rest ==> FillRange(x + 1, c - 1, self, n)
    ensures var r := [NodeInfo(x, 0, 0)] + rest;
            DistinctNums(r) && forall n :: n in r ==> FillRange(x, c, self, n)
  {
    var r := [NodeInfo(x, 0, 0)] + rest;
    forall i, j | 0 <= i < j < |r| ensures r[i].num != r[j].num {
      assert r[j] == rest[j - 1] && rest[j - 1] in rest;
      if i == 0 { assert FillRange(x + 1, c - 1, self, r[j]); } else { assert r[i] == rest[i - 1]; }
    }
    forall n | n in r ensures FillRange(x, c, self, n) {
      assert n == r[0] || n in rest;
    }
  }

  /** How many contacts the counterexample gives bucket j: one in bucket i, K - 1 in each
      bucket from there to the far end of the pair, none elsewhere. */
  function Load(i: nat, p: nat, j: nat): nat {
    if j == i then 1
    else if (i < j && j <= p + 1) || (p <= j && j < i) then K - 1
    else 0
  }

  function Loaded(bs: seq<Bucket>, i: nat, p: nat, self: nat): (cs: seq<Bucket>)
    ensures |cs| == |bs|
    ensures forall j :: 0 <= j < |bs| ==>
              cs[j].min == bs[j].min && cs[j].max == bs[j].max && cs[j].nodes == Fill(bs[j].min, Load(i, p, j), self)
  {
    seq(|bs|, j requires 0 <= j < |bs| => bs[j].(nodes := Fill(bs[j].min, Load(i, p, j), self)))
  }

  /** Every bucket is at least 8 IDs wide. */
  lemma WideEnough(t: Table, j: nat, maxFailures: int)
    requires Inv(t, maxFailures) && j < |t.buckets|
    ensures t.buckets[j].Width() >= K
  {
    NeverFull(t, maxFailures);
    var q, n := PathBlock(t.buckets, 0, |t.buckets|, 0, HASH_BITS, t.self, j);
    BlockWidth(t.buckets[j], q, n);
    Pow2Monotone(3, n);
    assert Pow2(3) == 8;
  }

  lemma LoadedInv(t: Table, i: nat, maxFailures: int)
    requires Inv(t, maxFailures) && maxFailures >= 1 && |t.buckets| >= 2 && i < |t.buckets|
    requires i != PairOf(t) && i != PairOf(t) + 1
    ensures var t' := Table(t.self, Loaded(t.buckets, i, PairOf(t), t.self));
            Inv(t', maxFailures) && PairOf(t') == PairOf(t) && SameRanges(t.buckets, t'.buckets)
  {
    var p := PairOf(t);
    var cs := Loaded(t.buckets, i, p, t.self);
    ShapeSameRanges(t.buckets, cs, t.self);
    forall j | 0 <= j < |cs| ensures BucketOk(cs[j], t.self, maxFailures) {
      WideEnough(t, j, maxFailures);
      FillCorrect(cs[j].min, Load(i, p, j), t.self);
    }
    FillCorrect(cs[p].min, K - 1, t.self);
    FillCorrect(cs[p + 1].min, K - 1, t.self);
    assert PairCount(Table(t.self, cs)) == 2 * (K - 1);
  }

  lemma HalfOf(h: nat, e: nat)
    requires e < 2
    ensures (2 * h + e) / 2 == h && (2 * h + e) % 2 == e
  {
  }

  lemma XorDouble(h: nat, k: nat, e: nat)
    requires e < 2
    ensures Xor(2 * h + e, 2 * k + e) == 2 * Xor(h, k)
  {
    HalfOf(h, e);
    HalfOf(k, e);
    if 2 * h + e == 0 && 2 * k + e == 0 {
      assert h == 0 && k == 0;
    }
  }

  lemma FlipLast(a: nat)
    requires a % 2 == 0
    ensures Xor(a, a + 1) == 1
  {
    XorZeroIffEqual(a / 2, (a + 1) / 2);
  }

  /** Flipping bit n of a gives a number at distance exactly 2^n. */
  lemma {:induction false} XorFlip(a: nat, q: nat, n: nat)
    requires Shift(a, n) == 2 * q
    ensures Xor(a, a + Pow2(n)) == Pow2(n)
    decreases n
  {
    if n == 0 {
      FlipLast(a);
    } else {
      var h, e, p := a / 2, a % 2, Pow2(n - 1);
      XorFlip(h, q, n - 1);
      XorDouble(h, h + p, e);
      assert a == 2 * h + e && a + Pow2(n) == 2 * (h + p) + e;
    }
  }

  predicate Within(b: Bucket, q: nat, n: nat) {
    Start(q, n) <= b.min && b.max <= Start(q + 1, n)
  }

  /** An outer bucket is one half of a block whose other half holds every bucket from it to the pair. */
  lemma {:induction false} OuterSibling(bs: seq<Bucket>, lo: nat, hi: nat, q: nat, n: nat, self: nat, i: nat)
      returns (q': nat, n': nat)
    requires hi <= |bs| && Path(bs, lo, hi, q, n, self) && hi - lo >= 2 && lo <= i < hi
    requires i != PairIn(bs, lo, hi, q, n, self) && i != PairIn(bs, lo, hi, q, n, self) + 1
    ensures var p := PairIn(bs, lo, hi, q, n, self);
            && (i < p ==> IsBlock(bs[i], 2 * q', n') && forall j :: i < j <= p + 1 ==> Within(bs[j], 2 * q' + 1, n'))
            && (i > p + 1 ==> IsBlock(bs[i], 2 * q' + 1, n') && forall j :: p <= j < i ==> Within(bs[j], 2 * q', n'))
    decreases n
  {
    if InBlock(self, 2 * q, n - 1) {
      if i == hi - 1 {
        q', n' := q, n - 1;
        PathContiguous(bs, lo, hi - 1, 2 * q, n - 1, self);
        ContiguousWithin(bs, lo, hi - 1, 2 * q, n - 1);
      } else {
        q', n' := OuterSibling(bs, lo, hi - 1, 2 * q, n - 1, self, i);
      }
    } else {
      if i == lo {
        q', n' := q, n - 1;
        PathContiguous(bs, lo + 1, hi, 2 * q + 1, n - 1, self);
        ContiguousWithin(bs, lo + 1, hi, 2 * q + 1, n - 1);
      } else {
        q', n' := OuterSibling(bs, lo + 1, hi, 2 * q + 1, n - 1, self, i);
      }
    }
  }

  lemma ContiguousWithin(bs: seq<Bucket>, lo: nat, hi: nat, q: nat, n: nat)
    requires lo < hi <= |bs| && Contiguous(bs, lo, hi, Start(q, n), Start(q + 1, n))
    ensures forall j :: lo <= j < hi ==> Within(bs[j], q, n)
  {
    forall j | lo <= j < hi ensures Within(bs[j], q, n) {
      if j > lo { assert bs[lo].max <= bs[j].min; }
      if j < hi - 1 { assert bs[j].max <= bs[hi - 1].min; }
    }
  }

  /** A number in the other half of the block around x that is nearer to x than to anything else there. */
  lemma Mirror(x: nat, q: nat, n: nat, left: bool) returns (num: nat)
    requires if left then InBlock(x, 2 * q + 1, n) else InBlock(x, 2 * q, n)
    ensures if left then InBlock(num, 2 * q, n) else InBlock(num, 2 * q + 1, n)
    ensures forall y :: y != x && (if left then InBlock(y, 2 * q + 1, n) else InBlock(y, 2 * q, n)) ==>
              Xor(num, x) < Xor(num, y)
  {
    BlockIsWide(2 * q, n);
    BlockIsWide(2 * q + 1, n);
    StartIsMultiple(2 * q, n);
    var mine := if left then 2 * q else 2 * q + 1;
    num := if left then x - Pow2(n) else x + Pow2(n);
    assert InBlock(num, mine, n);
    if left {
      InBlockIffShift(num, 2 * q, n);
      XorFlip(num, q, n);
    } else {
      InBlockIffShift(x, 2 * q, n);
      XorFlip(x, q, n);
      XorSymmetric(x, num);
    }
    forall y | y != x && (if left then InBlock(y, 2 * q + 1, n) else InBlock(y, 2 * q, n))
      ensures Xor(num, x) < Xor(num, y)
    {
      XorBlock(num, y, mine, n);
      XorInjective(num, x, y);
    }
  }

  /** In the loaded table the search stops after one step, having seen bucket i and the next one. */
  lemma LoadedStops(t: Table, i: nat, p: nat)
    requires i < |t.buckets| && p + 1 < |t.buckets| && (i < p || i > p + 1)
    requires forall j :: 0 <= j < |t.buckets| ==> |t.buckets[j].nodes| == Load(i, p, j)
    ensures Spread(t.buckets, i, 0) == 1 && |Around(t.buckets, i, 1)| == K
  {
    assert |Around(t.buckets, i, 0)| == 1;
    assert Around(t.buckets, i, 1) == Around(t.buckets, i, 0) + NodesAt(t.buckets, i - 1) + NodesAt(t.buckets, i + 1);
    assert |NodesAt(t.buckets, i - 1)| + |NodesAt(t.buckets, i + 1)| == K - 1;
    SpreadStep(t.buckets, i, 0);
    SpreadStep(t.buckets, i, 1);
  }

  /** An ID of an outer bucket that is nearer to a contact two places on than to one next to it. */
  lemma PickTarget(t: Table, i: nat, near: nat, far: nat, x: NodeInfo, y: NodeInfo, maxFailures: int)
    returns (num: nat)
    requires WellFormed(t, maxFailures) && |t.buckets| >= 2 && i < |t.buckets|
    requires (i < PairOf(t) && near == i + 1 && far == i + 2) || (i > PairOf(t) + 1 && near == i - 1 && far == i - 2)
    requires x in t.buckets[far].nodes && y in t.buckets[near].nodes
    ensures t.buckets[i].Has(num) && Xor(num, x.num) < Xor(num, y.num)
  {
    var q, n := OuterSibling(t.buckets, 0, |t.buckets|, 0, HASH_BITS, t.self, i);
    var left := i < PairOf(t);
    assert BucketOk(t.buckets[near], t.self, maxFailures) && BucketOk(t.buckets[far], t.self, maxFailures);
    var other := if left then 2 * q + 1 else 2 * q;
    assert Within(t.buckets[near], other, n) && Within(t.buckets[far], other, n);
    num := Mirror(x.num, q, n, left);
    ListsDisjoint(t, near, far, maxFailures);
    assert x.num in Nums(t.buckets[far].nodes) && y.num in Nums(t.buckets[near].nodes);
  }

  lemma LoadedMisses(t: Table, i: nat, maxFailures: int) returns (num: nat)
    requires WellFormed(t, maxFailures) && |t.buckets| >= 2 && i < |t.buckets|
    requires i < PairOf(t) || i > PairOf(t) + 1
    requires forall j :: 0 <= j < |t.buckets| ==> |t.buckets[j].nodes| == Load(i, PairOf(t), j)
    ensures num < Pow2(HASH_BITS) && IndexFor(t.buckets, num) == i
    ensures !Closest(FindNodes(t, num), num, Contents(t.buckets))
  {
    var p := PairOf(t);
    var near, far := if i < p then i + 1 else i - 1, if i < p then i + 2 else i - 2;
    var x, y := t.buckets[far].nodes[0], t.buckets[near].nodes[0];
    num := PickTarget(t, i, near, far, x, y, maxFailures);
    BelowEnd(t.buckets, i, num, maxFailures, t.self);
    LookupFindsBucket(t, num, maxFailures);
    LoadedStops(t, i, p);
    MissesFar(t, i, num, x, y, near, far, maxFailures);
  }

  /** For every bucket outside the pair there are contents, within the same ranges and the invariant,
      and an ID of that bucket, for which findNodes does not return the closest nodes of the table. */
  lemma InexactElsewhere(t: Table, i: nat, maxFailures: int) returns (t': Table, num: nat)
    requires Inv(t, maxFailures) && maxFailures >= 1 && |t.buckets| >= 2 && i < |t.buckets|
    requires i != PairOf(t) && i != PairOf(t) + 1
    ensures t'.self == t.self && SameRanges(t.buckets, t'.buckets) && Inv(t', maxFailures)
    ensures num < Pow2(HASH_BITS) && IndexFor(t'.buckets, num) == i
    ensures !Closest(FindNodes(t', num), num, Contents(t'.buckets))
  {
    var p := PairOf(t);
    t' := Table(t.self, Loaded(t.buckets, i, p, t.self));
    LoadedInv(t, i, maxFailures);
    forall j | 0 <= j < |t'.buckets| ensures |t'.buckets[j].nodes| == Load(i, p, j) {
      FillCorrect(t'.buckets[j].min, Load(i, p, j), t.self);
    }
    num := LoadedMisses(t', i, maxFailures);
  }

  lemma BelowEnd(bs: seq<Bucket>, i: nat, num: nat, maxFailures: int, self: nat)
    requires WellFormed(Table(self, bs), maxFailures) && i < |bs| && bs[i].Has(num)
    ensures num < Pow2(HASH_BITS)
  {
    ShapeContiguous(bs, self);
    if i < |bs| - 1 { assert bs[i].max <= bs[|bs| - 1].min; }
  }

  lemma MissesFar(t: Table, i: nat, num: nat, x: NodeInfo, y: NodeInfo, near: nat, far: nat, maxFailures: int)
    requires WellFormed(t, maxFailures) && num < Pow2(HASH_BITS)
    requires IndexFor(t.buckets, num) == i < |t.buckets| && Spread(t.buckets, i, 0) == 1
    requires |Around(t.buckets, i, 1)| == K
    requires near < |t.buckets| && far < |t.buckets| && i - 1 <= near <= i + 1 && (far < i - 1 || far > i + 1)
    requires x in t.buckets[far].nodes && y in t.buckets[near].nodes
    requires Xor(num, x.num) < Xor(num, y.num)
    ensures !Closest(FindNodes(t, num), num, Contents(t.buckets))
  {
    var a := FindNodes(t, num);
    var seen := Visited(t.buckets, i, 1);
    AnswerIsClosestVisited(t, num, maxFailures);
    var around := AroundCollects(t, i, 1, maxFailures);
    MembersCount(around);
    assert y in seen;
    AllInAnswer(a, num, seen, y);
    UnseenBucket(t, i, x, far, maxFailures);
    assert x in Contents(t.buckets);
  }

  lemma UnseenBucket(t: Table, i: nat, x: NodeInfo, far: nat, maxFailures: int)
    requires WellFormed(t, maxFailures) && far < |t.buckets| && (far < i - 1 || far > i + 1)
    requires x in t.buckets[far].nodes
    ensures x !in Visited(t.buckets, i, 1)
  {
    forall k | 0 <= k < |t.buckets| && k != far ensures x !in t.buckets[k].nodes {
      ListsDisjoint(t, k, far, maxFailures);
      assert x.num in Nums(t.buckets[far].nodes);
    }
  }

  /** An answer as long as its pool holds the whole pool. */
  lemma AllInAnswer(a: seq<NodeInfo>, num: nat, pool: set<NodeInfo>, y: NodeInfo)
    requires Closest(a, num, pool) && |a| == |pool| && y in pool
    ensures y in a
  {
    forall i, j | 0 <= i < j < |a| ensures a[i].num != a[j].num {
      assert Xor(num, a[i].num) < Xor(num, a[j].num);
    }
    MembersCount(a);
    SubsetCard(Members(a), pool);
  }

  /** The answer for the IDs of a bucket is exact, whatever the contacts are, if and only if the
      bucket is our own or its twin. */
  lemma ExactIffNearSelf(t: Table, i: nat, maxFailures: int)
    requires Inv(t, maxFailures) && maxFailures >= 1 && i < |t.buckets|
    ensures (forall t': Table, num: nat ::
               t'.self == t.self && SameRanges(t.buckets, t'.buckets) && Inv(t', maxFailures)
               && num < Pow2(HASH_BITS) && IndexFor(t'.buckets, num) == i
               ==> Closest(FindNodes(t', num), num, Contents(t'.buckets)))
            <==> (|t.buckets| >= 2 ==> i == PairOf(t) || i == PairOf(t) + 1)
  {
    if |t.buckets| >= 2 && i != PairOf(t) && i != PairOf(t) + 1 {
      var t', num := InexactElsewhere(t, i, maxFailures);
    } else {
      forall t': Table, num: nat |
        t'.self == t.self && SameRanges(t.buckets, t'.buckets) && Inv(t', maxFailures)
        && num < Pow2(HASH_BITS) && IndexFor(t'.buckets, num) == i
        ensures Closest(FindNodes(t', num), num, Contents(t'.buckets))
      {
        ShapeSameRanges(t.buckets, t'.buckets, t.self);
        ExactNearSelf(t', num, maxFailures);
      }
    }
  }
}
