/** The shape of the bucket list: the binary path to our own ID. */
module KTableShape {
  import opened Bits
  import opened KTableSpec

  predicate IsBlock(b: Bucket, q: nat, n: nat) {
    b.min == Start(q, n) && b.max == Start(q + 1, n)
  }

  /** The buckets from lo to hi partition the aligned block q of width 2^n along the path to
      self: one bucket, or the half without self as one bucket at its end and the half with
      self partitioned in turn. */
  predicate Path(bs: seq<Bucket>, lo: nat, hi: nat, q: nat, n: nat, self: nat)
    requires hi <= |bs|
    decreases hi - lo
  {
    && lo < hi
    && InBlock(self, q, n)
    && if hi == lo + 1 then IsBlock(bs[lo], q, n)
       else
         && n >= 1
         && if InBlock(self, 2 * q, n - 1)
            then IsBlock(bs[hi - 1], 2 * q + 1, n - 1) && Path(bs, lo, hi - 1, 2 * q, n - 1, self)
            else IsBlock(bs[lo], 2 * q, n - 1) && Path(bs, lo + 1, hi, 2 * q + 1, n - 1, self)
  }

  /** Where our own bucket is. */
  function HomeIn(bs: seq<Bucket>, lo: nat, hi: nat, q: nat, n: nat, self: nat): (h: nat)
    requires hi <= |bs| && Path(bs, lo, hi, q, n, self)
    ensures lo <= h < hi
    decreases hi - lo
  {
    if hi == lo + 1 then lo
    else if InBlock(self, 2 * q, n - 1) then HomeIn(bs, lo, hi - 1, 2 * q, n - 1, self)
    else HomeIn(bs, lo + 1, hi, 2 * q + 1, n - 1, self)
  }

  /** The left bucket of the innermost pair: our own bucket and its twin. */
  function PairIn(bs: seq<Bucket>, lo: nat, hi: nat, q: nat, n: nat, self: nat): (p: nat)
    requires hi <= |bs| && Path(bs, lo, hi, q, n, self) && hi - lo >= 2
    ensures lo <= p && p + 1 < hi
    decreases hi - lo
  {
    if hi == lo + 2 then lo
    else if InBlock(self, 2 * q, n - 1) then PairIn(bs, lo, hi - 1, 2 * q, n - 1, self)
    else PairIn(bs, lo + 1, hi, 2 * q + 1, n - 1, self)
  }

  /** The whole list follows the path to self through the whole ID space. */
  predicate Shape(bs: seq<Bucket>, self: nat) {
    Path(bs, 0, |bs|, 0, HASH_BITS, self)
  }

  function Home(bs: seq<Bucket>, self: nat): (h: nat)
    requires Shape(bs, self)
    ensures h < |bs|
  {
    HomeIn(bs, 0, |bs|, 0, HASH_BITS, self)
  }

  function Pair(bs: seq<Bucket>, self: nat): (p: nat)
    requires Shape(bs, self) && |bs| >= 2
    ensures p + 1 < |bs|
  {
    PairIn(bs, 0, |bs|, 0, HASH_BITS, self)
  }

  // ----- A partition without gaps

  /** Bucket i starts where the one before it ends. */
  predicate Meets(bs: seq<Bucket>, i: nat)
    requires 0 < i < |bs|
  {
    bs[i - 1].max == bs[i].min
  }

  /** From lo to hi, non-empty ranges, each starting where the one before it ends. */
  ghost predicate Contiguous(bs: seq<Bucket>, lo: nat, hi: nat, from: int, to: int)
    requires lo < hi <= |bs|
  {
    && bs[lo].min == from && bs[hi - 1].max == to
    && (forall i :: lo <= i < hi ==> bs[i].min < bs[i].max)
    && (forall i, j :: lo <= i < j < hi ==> bs[i].max <= bs[j].min)
    && (forall i :: lo < i < hi ==> Meets(bs, i))
  }

  lemma ContiguousAppend(bs: seq<Bucket>, lo: nat, hi: nat, from: int, mid: int, to: int)
    requires lo < hi < |bs| && Contiguous(bs, lo, hi, from, mid) && bs[hi].min == mid < bs[hi].max == to
    ensures Contiguous(bs, lo, hi + 1, from, to)
  {
    forall i | lo <= i < hi ensures bs[i].max <= mid {
      if i < hi - 1 { assert bs[i].max <= bs[hi - 1].min; }
    }
  }

  lemma ContiguousPrepend(bs: seq<Bucket>, lo: nat, hi: nat, from: int, mid: int, to: int)
    requires lo + 1 < hi <= |bs| && Contiguous(bs, lo + 1, hi, mid, to) && bs[lo].min == from < bs[lo].max == mid
    ensures Contiguous(bs, lo, hi, from, to)
  {
    forall i | lo + 1 <= i < hi ensures mid <= bs[i].min {
      if lo + 1 < i { assert bs[lo + 1].max <= bs[i].min; }
    }
  }

  /** The buckets tile the block: every ID of it falls in exactly one bucket. */
  lemma {:induction false} PathContiguous(bs: seq<Bucket>, lo: nat, hi: nat, q: nat, n: nat, self: nat)
    requires hi <= |bs| && Path(bs, lo, hi, q, n, self)
    ensures Contiguous(bs, lo, hi, Start(q, n), Start(q + 1, n))
    decreases n
  {
    if hi == lo + 1 {
      BlockIsWide(q, n);
    } else {
      var mid := Start(2 * q + 1, n - 1);
      BlockIsWide(2 * q, n - 1);
      BlockIsWide(2 * q + 1, n - 1);
      if InBlock(self, 2 * q, n - 1) {
        PathContiguous(bs, lo, hi - 1, 2 * q, n - 1, self);
        ContiguousAppend(bs, lo, hi - 1, Start(q, n), mid, Start(q + 1, n));
      } else {
        PathContiguous(bs, lo + 1, hi, 2 * q + 1, n - 1, self);
        ContiguousPrepend(bs, lo, hi, Start(q, n), mid, Start(q + 1, n));
      }
    }
  }

  lemma PathFromZero(bs: seq<Bucket>, hi: nat, n: nat, self: nat)
    requires hi <= |bs| && Path(bs, 0, hi, 0, n, self)
    ensures Contiguous(bs, 0, hi, 0, Pow2(n)) && self < Pow2(n)
  {
    PathContiguous(bs, 0, hi, 0, n, self);
    StartIsMultiple(0, n);
    StartIsMultiple(1, n);
  }

  lemma ShapeContiguous(bs: seq<Bucket>, self: nat)
    requires Shape(bs, self)
    ensures Contiguous(bs, 0, |bs|, 0, Pow2(HASH_BITS))
    ensures self < Pow2(HASH_BITS)
  {
    PathFromZero(bs, |bs|, HASH_BITS, self);
  }

  ghost predicate Adjacent(bs: seq<Bucket>) {
    forall i :: 0 < i < |bs| ==> Meets(bs, i)
  }

  lemma {:induction false} BisectFinds(bs: seq<Bucket>, x: nat, lo: nat, hi: nat)
    requires |bs| > 0 && Adjacent(bs) && bs[0].min <= x < bs[|bs| - 1].max
    requires lo <= hi <= |bs|
    requires lo < |bs| ==> bs[lo].min <= x
    requires if hi < |bs| then x < bs[hi].max else lo < |bs|
    ensures var i := Bisect(bs, x, lo, hi); i < |bs| && bs[i].Has(x)
    decreases hi - lo
  {
    if lo < hi {
      var mid := (lo + hi) / 2;
      if bs[mid].max <= x {
        assert mid + 1 < |bs|;
        assert Meets(bs, mid + 1);
        BisectFinds(bs, x, mid + 1, hi);
      } else {
        BisectFinds(bs, x, lo, mid);
      }
    }
  }

  /** Bisection finds the one bucket whose range holds the ID. */
  lemma IndexForFinds(bs: seq<Bucket>, x: nat, min: int, max: int)
    requires |bs| > 0 && Contiguous(bs, 0, |bs|, min, max) && min <= x < max
    ensures IndexFor(bs, x) < |bs|
    ensures forall i :: 0 <= i < |bs| ==> (bs[i].Has(x) <==> i == IndexFor(bs, x))
  {
    BisectFinds(bs, x, 0, |bs|);
    var k := IndexFor(bs, x);
    forall i | 0 <= i < |bs| ensures bs[i].Has(x) <==> i == k {
      if i < k { assert bs[i].max <= bs[k].min; }
      if k < i { assert bs[k].max <= bs[i].min; }
    }
  }

  // ----- Widths

  lemma BlockWidth(b: Bucket, q: nat, n: nat)
    requires IsBlock(b, q, n)
    ensures b.Width() == Pow2(n)
  {
    BlockIsWide(q, n);
  }

  /** Every bucket is an aligned block, at a depth between 1 and the length of the path. */
  lemma {:induction false} PathBlock(bs: seq<Bucket>, lo: nat, hi: nat, q: nat, n: nat, self: nat, i: nat)
      returns (q': nat, n': nat)
    requires hi <= |bs| && Path(bs, lo, hi, q, n, self) && lo <= i < hi
    ensures IsBlock(bs[i], q', n') && n' + (hi - lo) >= n + 1
    decreases n
  {
    if hi == lo + 1 {
      q', n' := q, n;
    } else if InBlock(self, 2 * q, n - 1) {
      if i == hi - 1 {
        q', n' := 2 * q + 1, n - 1;
      } else {
        q', n' := PathBlock(bs, lo, hi - 1, 2 * q, n - 1, self, i);
      }
    } else {
      if i == lo {
        q', n' := 2 * q, n - 1;
      } else {
        q', n' := PathBlock(bs, lo + 1, hi, 2 * q + 1, n - 1, self, i);
      }
    }
  }

  /** The pair are the two halves of one aligned block around self, 2^(n - length + 1) wide each. */
  lemma {:induction false} PairBlocks(bs: seq<Bucket>, lo: nat, hi: nat, q: nat, n: nat, self: nat)
      returns (q': nat, n': nat)
    requires hi <= |bs| && Path(bs, lo, hi, q, n, self) && hi - lo >= 2
    ensures n' + (hi - lo) == n + 1
    ensures IsBlock(bs[PairIn(bs, lo, hi, q, n, self)], 2 * q', n')
    ensures IsBlock(bs[PairIn(bs, lo, hi, q, n, self) + 1], 2 * q' + 1, n')
    ensures InBlock(self, q', n' + 1)
    decreases n
  {
    if hi == lo + 2 {
      q', n' := q, n - 1;
    } else if InBlock(self, 2 * q, n - 1) {
      q', n' := PairBlocks(bs, lo, hi - 1, 2 * q, n - 1, self);
    } else {
      q', n' := PairBlocks(bs, lo + 1, hi, 2 * q + 1, n - 1, self);
    }
  }

  /** Our own bucket is the aligned block around self at the depth of the path, and one of the pair. */
  lemma {:induction false} HomeBlock(bs: seq<Bucket>, lo: nat, hi: nat, q: nat, n: nat, self: nat)
      returns (q': nat, n': nat)
    requires hi <= |bs| && Path(bs, lo, hi, q, n, self)
    ensures IsBlock(bs[HomeIn(bs, lo, hi, q, n, self)], q', n') && InBlock(self, q', n') && n' + (hi - lo) == n + 1
    ensures hi - lo >= 2 ==> HomeIn(bs, lo, hi, q, n, self) - PairIn(bs, lo, hi, q, n, self) in {0, 1}
    decreases n
  {
    if hi == lo + 1 {
      q', n' := q, n;
    } else if InBlock(self, 2 * q, n - 1) {
      q', n' := HomeBlock(bs, lo, hi - 1, 2 * q, n - 1, self);
    } else {
      q', n' := HomeBlock(bs, lo + 1, hi, 2 * q + 1, n - 1, self);
    }
  }

  /** The buckets of a path of two or more are narrower than its block. */
  lemma {:induction false} InnerIsNarrower(bs: seq<Bucket>, lo: nat, hi: nat, q: nat, n: nat, self: nat, i: nat)
    requires hi <= |bs| && Path(bs, lo, hi, q, n, self) && hi - lo >= 2 && lo <= i < hi
    ensures bs[i].Width() < Pow2(n)
  {
    var left := InBlock(self, 2 * q, n - 1);
    if i == (if left then hi - 1 else lo) {
      BlockWidth(bs[i], if left then 2 * q + 1 else 2 * q, n - 1);
    } else if left {
      var q', n' := PathBlock(bs, lo, hi - 1, 2 * q, n - 1, self, i);
      AtMostAsWide(bs, lo, hi - 1, 2 * q, n - 1, self, i);
    } else {
      AtMostAsWide(bs, lo + 1, hi, 2 * q + 1, n - 1, self, i);
    }
  }

  lemma {:induction false} AtMostAsWide(bs: seq<Bucket>, lo: nat, hi: nat, q: nat, n: nat, self: nat, i: nat)
    requires hi <= |bs| && Path(bs, lo, hi, q, n, self) && lo <= i < hi
    ensures bs[i].Width() <= Pow2(n)
    decreases n
  {
    if hi == lo + 1 {
      BlockWidth(bs[i], q, n);
    } else if InBlock(self, 2 * q, n - 1) {
      if i == hi - 1 {
        BlockWidth(bs[i], 2 * q + 1, n - 1);
      } else {
        AtMostAsWide(bs, lo, hi - 1, 2 * q, n - 1, self, i);
      }
    } else {
      if i == lo { BlockWidth(bs[i], 2 * q, n - 1); } else { AtMostAsWide(bs, lo + 1, hi, 2 * q + 1, n - 1, self, i); }
    }
  }

  /** Neighbours of equal width are exactly the pair. */
  lemma {:induction false} EqualNeighboursArePair(bs: seq<Bucket>, lo: nat, hi: nat, q: nat, n: nat, self: nat, i: nat)
    requires hi <= |bs| && Path(bs, lo, hi, q, n, self) && lo <= i && i + 1 < hi
    ensures bs[i].Width() == bs[i + 1].Width() <==> i == PairIn(bs, lo, hi, q, n, self)
    decreases n
  {
    if hi == lo + 2 {
      BlockWidth(bs[lo], 2 * q, n - 1);
      BlockWidth(bs[lo + 1], 2 * q + 1, n - 1);
    } else if InBlock(self, 2 * q, n - 1) {
      if i < hi - 2 {
        EqualNeighboursArePair(bs, lo, hi - 1, 2 * q, n - 1, self, i);
      } else {
        BlockWidth(bs[i + 1], 2 * q + 1, n - 1);
        InnerIsNarrower(bs, lo, hi - 1, 2 * q, n - 1, self, i);
      }
    } else {
      if i > lo {
        EqualNeighboursArePair(bs, lo + 1, hi, 2 * q + 1, n - 1, self, i);
      } else {
        BlockWidth(bs[i], 2 * q, n - 1);
        InnerIsNarrower(bs, lo + 1, hi, 2 * q + 1, n - 1, self, i + 1);
      }
    }
  }

  // ----- The changes of shape

  /** Only ranges matter to the shape. */
  predicate SameRanges(bs: seq<Bucket>, cs: seq<Bucket>) {
    |bs| == |cs| && forall i :: 0 <= i < |bs| ==> bs[i].min == cs[i].min && bs[i].max == cs[i].max
  }

  lemma {:induction false} PathSameRanges(bs: seq<Bucket>, cs: seq<Bucket>, lo: nat, hi: nat, q: nat, n: nat, self: nat)
    requires hi <= |bs| && Path(bs, lo, hi, q, n, self) && SameRanges(bs, cs)
    ensures Path(cs, lo, hi, q, n, self)
    ensures HomeIn(cs, lo, hi, q, n, self) == HomeIn(bs, lo, hi, q, n, self)
    ensures hi - lo >= 2 ==> PairIn(cs, lo, hi, q, n, self) == PairIn(bs, lo, hi, q, n, self)
    decreases n
  {
    if hi - lo > 1 {
      if InBlock(self, 2 * q, n - 1) {
        PathSameRanges(bs, cs, lo, hi - 1, 2 * q, n - 1, self);
      } else {
        PathSameRanges(bs, cs, lo + 1, hi, 2 * q + 1, n - 1, self);
      }
    }
  }

  lemma {:induction false} BisectSameRanges(bs: seq<Bucket>, cs: seq<Bucket>, num: nat, lo: nat, hi: nat)
    requires SameRanges(bs, cs) && lo <= hi <= |bs|
    ensures Bisect(bs, num, lo, hi) == Bisect(cs, num, lo, hi)
    decreases hi - lo
  {
    if lo < hi {
      var mid := (lo + hi) / 2;
      BisectSameRanges(bs, cs, num, mid + 1, hi);
      BisectSameRanges(bs, cs, num, lo, mid);
    }
  }

  /** Changing nodes changes no range. */
  lemma ShapeSameRanges(bs: seq<Bucket>, cs: seq<Bucket>, self: nat)
    requires Shape(bs, self) && SameRanges(bs, cs)
    ensures Shape(cs, self) && Home(cs, self) == Home(bs, self)
    ensures |bs| >= 2 ==> Pair(cs, self) == Pair(bs, self)
    ensures forall x: nat :: IndexFor(cs, x) == IndexFor(bs, x)
  {
    PathSameRanges(bs, cs, 0, |bs|, 0, HASH_BITS, self);
    forall x: nat ensures IndexFor(cs, x) == IndexFor(bs, x) { BisectSameRanges(bs, cs, x, 0, |bs|); }
  }

  /** lower and upper are the halves of b's range. */
  predicate Halves(b: Bucket, lower: Bucket, upper: Bucket) {
    && b.min < lower.max < b.max
    && lower.min == b.min && lower.max == upper.min && upper.max == b.max
    && lower.Width() == upper.Width()
  }

  /** cs is bs with the buckets at h and h + 1 in place of the one at h. */
  predicate SplitsTo(bs: seq<Bucket>, h: nat, cs: seq<Bucket>) {
    && |cs| == |bs| + 1 && h < |bs|
    && Halves(bs[h], cs[h], cs[h + 1])
    && (forall k :: 0 <= k < h ==> cs[k] == bs[k])
    && (forall k :: h + 1 < k < |cs| ==> cs[k] == bs[k - 1])
  }

  lemma SplitSingle(cs: seq<Bucket>, lo: nat, b: Bucket, q: nat, n: nat, self: nat)
    requires lo + 1 < |cs| && IsBlock(b, q, n) && InBlock(self, q, n) && Halves(b, cs[lo], cs[lo + 1])
    ensures Path(cs, lo, lo + 2, q, n, self) && PairIn(cs, lo, lo + 2, q, n, self) == lo
  {
    BlockWidth(b, q, n);
    assert b.Width() >= 2;
    assert Pow2(0) == 1;
    BlockIsWide(2 * q, n - 1);
    BlockIsWide(2 * q + 1, n - 1);
    assert IsBlock(cs[lo], 2 * q, n - 1) && IsBlock(cs[lo + 1], 2 * q + 1, n - 1);
  }

  /** Halving our own bucket extends the path by one step. */
  lemma {:induction false} SplitKeepsPath(bs: seq<Bucket>, cs: seq<Bucket>, lo: nat, hi: nat, q: nat, n: nat, self: nat)
    requires hi <= |bs| && Path(bs, lo, hi, q, n, self) && SplitsTo(bs, HomeIn(bs, lo, hi, q, n, self), cs)
    ensures Path(cs, lo, hi + 1, q, n, self) && PairIn(cs, lo, hi + 1, q, n, self) == HomeIn(bs, lo, hi, q, n, self)
    decreases n
  {
    if hi == lo + 1 {
      SplitSingle(cs, lo, bs[lo], q, n, self);
    } else if InBlock(self, 2 * q, n - 1) {
      SplitKeepsPath(bs, cs, lo, hi - 1, 2 * q, n - 1, self);
    } else {
      SplitKeepsPath(bs, cs, lo + 1, hi, 2 * q + 1, n - 1, self);
    }
  }

  /** cs is bs with one bucket over both ranges in place of those at p and p + 1. */
  predicate MergesTo(bs: seq<Bucket>, p: nat, cs: seq<Bucket>) {
    && |cs| + 1 == |bs| && p + 1 < |bs|
    && cs[p].min == bs[p].min && cs[p].max == bs[p + 1].max
    && (forall k :: 0 <= k < p ==> cs[k] == bs[k])
    && (forall k :: p < k < |cs| ==> cs[k] == bs[k + 1])
  }

  /** Joining the pair takes the last step of the path back. */
  lemma {:induction false} MergeKeepsPath(bs: seq<Bucket>, cs: seq<Bucket>, lo: nat, hi: nat, q: nat, n: nat, self: nat)
    requires hi <= |bs| && Path(bs, lo, hi, q, n, self) && hi - lo >= 2
    requires MergesTo(bs, PairIn(bs, lo, hi, q, n, self), cs)
    ensures Path(cs, lo, hi - 1, q, n, self) && HomeIn(cs, lo, hi - 1, q, n, self) == PairIn(bs, lo, hi, q, n, self)
    decreases n
  {
    if hi > lo + 2 {
      if InBlock(self, 2 * q, n - 1) {
        MergeKeepsPath(bs, cs, lo, hi - 1, 2 * q, n - 1, self);
      } else {
        MergeKeepsPath(bs, cs, lo + 1, hi, 2 * q + 1, n - 1, self);
      }
    }
  }
}
