/** How many of a list of values fit in a number of bytes: an estimate, adjusted one value at a time. */
module Fitting {
  import opened Bits

  /** The length of a list's encoding is that of its items and two more. */
  function PrefixLength(sizes: seq<nat>, k: nat): nat
    requires k <= |sizes|
  {
    if k == 0 then 2 else PrefixLength(sizes, k - 1) + sizes[k - 1]
  }

  /** No encoding is shorter than two bytes. */
  predicate Sizeable(sizes: seq<nat>) {
    forall i :: 0 <= i < |sizes| ==> sizes[i] >= 2
  }

  /** The longest prefix that fits, or the empty one. */
  predicate LongestFit(sizes: seq<nat>, max: int, k: nat) {
    && k <= |sizes|
    && (k > 0 ==> PrefixLength(sizes, k) <= max)
    && forall j :: k < j <= |sizes| ==> PrefixLength(sizes, j) > max
  }

  lemma {:induction false} PrefixLengthGrows(sizes: seq<nat>, j: nat, k: nat)
    requires Sizeable(sizes) && j <= k <= |sizes|
    ensures PrefixLength(sizes, j) + 2 * (k - j) <= PrefixLength(sizes, k)
  {
    if j < k {
      PrefixLengthGrows(sizes, j, k - 1);
    }
  }

  lemma LongestFitUnique(sizes: seq<nat>, max: int, j: nat, k: nat)
    requires LongestFit(sizes, max, j) && LongestFit(sizes, max, k)
    ensures j == k
  {
  }

  /** A prefix that fits, unless it is empty, while the next longer one does not, is the longest. */
  lemma LongestFrom(sizes: seq<nat>, max: int, k: nat)
    requires Sizeable(sizes) && k <= |sizes| && (k > 0 ==> PrefixLength(sizes, k) <= max)
    requires k < |sizes| ==> PrefixLength(sizes, k + 1) > max
    ensures LongestFit(sizes, max, k)
  {
    forall j | k < j <= |sizes| ensures PrefixLength(sizes, j) > max {
      PrefixLengthGrows(sizes, k + 1, j);
    }
  }

  /** The first of two loops that adjust an estimate: one value more while they seem to fit. */
  method Raise(sizes: seq<nat>, max: int, start: nat) returns (num: nat, bencoded: int)
    requires start < |sizes|
    ensures num < |sizes| && bencoded == PrefixLength(sizes, num)
    ensures bencoded >= max || num + 1 == |sizes|
  {
    num, bencoded := start, PrefixLength(sizes, start);
    while bencoded < max && num + 1 < |sizes|
      invariant num < |sizes| && bencoded == PrefixLength(sizes, num)
      decreases |sizes| - num
    {
      bencoded := bencoded + sizes[num];
      num := num + 1;
    }
  }

  /** The second loop: one value less while they do not fit. */
  method Lower(sizes: seq<nat>, max: int, start: nat, length: int) returns (num: nat)
    requires Sizeable(sizes) && start < |sizes| && length == PrefixLength(sizes, start)
    requires PrefixLength(sizes, start + 1) > max
    ensures num < |sizes| && LongestFit(sizes, max, num)
  {
    num := start;
    var bencoded := length;
    while bencoded > max && num > 0
      invariant num < |sizes| && bencoded == PrefixLength(sizes, num)
      invariant PrefixLength(sizes, num + 1) > max
    {
      num := num - 1;
      bencoded := bencoded - sizes[num];
    }
    LongestFrom(sizes, max, num);
  }

  /** The loops together: whatever the estimate, the longest prefix that fits. An estimate of -1,
      for which Python's values[:-1] is measured, is left as it is. */
  method Fit(sizes: seq<nat>, max: int, start: int) returns (num: int)
    requires Sizeable(sizes) && |sizes| > 0 && PrefixLength(sizes, |sizes|) > max
    requires -1 <= start < |sizes| && (start == -1 ==> max <= 2)
    ensures num <= 0 ==> LongestFit(sizes, max, 0)
    ensures num > 0 ==> num < |sizes| && LongestFit(sizes, max, num)
  {
    if start == -1 {
      PrefixLengthGrows(sizes, 0, |sizes| - 1);
      PrefixLengthGrows(sizes, 0, 1);
      LongestFrom(sizes, max, 0);
      var bencoded := PrefixLength(sizes, |sizes| - 1);
      assert !(bencoded < max);
      return start;
    }
    var raised, bencoded := Raise(sizes, max, start);
    num := Lower(sizes, max, raised, bencoded);
  }

  // ----- The estimate

  /** How many values to start with: all but the excess over the average length of a value, rounded up. */
  function Estimate(len: nat, excess: nat, n: nat): int
    requires n >= 1 && len >= 2 + 2 * n
  {
    n - (excess * n + len - 3) / (len - 2)
  }

  /** What the adjustment needs of an estimate, however it was rounded. */
  predicate Usable(start: int, len: nat, excess: nat, n: nat) {
    -1 <= start < n && (start == -1 ==> len - excess <= 2)
  }

  lemma LessCancel(x: int, y: int, b: nat)
    requires x * b < y * b
    ensures x < y
  {
  }

  lemma DivisionBounds(a: int, b: nat, lo: int, hi: int)
    requires b > 0 && lo * b <= a < (hi + 1) * b
    ensures lo <= a / b <= hi
  {
    var q := a / b;
    assert q * b <= a < (q + 1) * b;
    LessCancel(lo, q + 1, b);
    LessCancel(q, hi + 1, b);
  }

  /** Bounds of (p + b - 1) / b. */
  lemma RoundUpBounds(p: nat, b: nat, n: nat)
    requires 1 <= n < b && 1 <= p <= b * n + n
    ensures 1 <= (p + b - 1) / b <= n + 1
    ensures p <= b * n ==> (p + b - 1) / b <= n
    ensures p == b * n + n ==> (p + b - 1) / b == n + 1
  {
    assert (n + 2) * b == b * n + 2 * b && (n + 1) * b == b * n + b;
    DivisionBounds(p + b - 1, b, 1, n + 1);
    if p <= b * n {
      DivisionBounds(p + b - 1, b, 1, n);
    }
    if p == b * n + n {
      DivisionBounds(p + b - 1, b, n + 1, n + 1);
    }
  }

  lemma ExcessBounds(excess: nat, b: nat, n: nat)
    requires 1 <= excess <= b + 1 && n >= 1
    ensures 1 <= excess * n <= b * n + n
    ensures excess <= b ==> excess * n <= b * n
    ensures excess == b + 1 ==> excess * n == b * n + n
  {
    assert (b + 1) * n == b * n + n;
    MultiplyOrder(excess, b + 1, n);
    MultiplyOrder(1, excess, n);
    if excess <= b { MultiplyOrder(excess, b, n); }
  }

  /** The estimate is usable: it is negative only when a single byte is left for the values. */
  lemma EstimateIsUsable(len: nat, excess: nat, n: nat)
    requires n >= 1 && len >= 2 + 2 * n && 0 < excess < len
    ensures Usable(Estimate(len, excess, n), len, excess, n)
    ensures Estimate(len, excess, n) == -1 <==> len - excess == 1
  {
    ExcessBounds(excess, len - 2, n);
    RoundUpBounds(excess * n, len - 2, n);
  }

  function Ceiling(q: real): (c: int)
    ensures c as real - 1.0 < q <= c as real
  {
    -((-q).Floor)
  }

  /** A quotient that was rounded: its relative error is at most one in four times the length. */
  predicate Near(q: real, len: nat, excess: nat, n: nat)
    requires len >= 2
  {
    var b, p := (len - 2) as real, (excess * n) as real;
    -p <= 4.0 * b * (b * q - p) <= p
  }

  /** The estimate that floating point computes is usable as well. */
  lemma RoundedEstimateIsUsable(len: nat, excess: nat, n: nat, q: real)
    requires n >= 1 && len >= 2 + 2 * n && 0 < excess < len && Near(q, len, excess, n)
    ensures Usable(n - Ceiling(q), len, excess, n)
  {
    var b := len - 2;
    NearBounds(b, excess, n, q);
  }

  lemma NearBounds(b: nat, excess: nat, n: nat, q: real)
    requires n >= 1 && b >= 2 * n && 1 <= excess <= b + 1
    requires Near(q, b + 2, excess, n)
    ensures 0.0 < q <= n as real + 1.0
    ensures q > n as real ==> excess >= b
  {
    var w, lo, hi := Sides(b, excess, n, q);
    BoundsFrom(w, lo, hi, n, q);
  }

  /** The quotient times the square of twice the length, between two whole numbers. */
  lemma Sides(b: nat, excess: nat, n: nat, q: real) returns (w: nat, lo: int, hi: int)
    requires n >= 1 && b >= 2 * n && 1 <= excess <= b + 1
    requires Near(q, b + 2, excess, n)
    ensures w > 0 && lo > 0 && lo as real <= (w as real) * q <= hi as real
    ensures hi <= w * (n + 1) && (excess < b ==> hi <= w * n)
  {
    w, lo, hi := WholeSides(b, excess, n);
    ScaledBounds(b, excess * n, q);
  }

  lemma WholeSides(b: nat, excess: nat, n: nat) returns (w: nat, lo: int, hi: int)
    requires n >= 1 && b >= 2 * n && 1 <= excess <= b + 1
    ensures w == 4 * b * b && lo == 4 * b * (excess * n) - excess * n && hi == 4 * b * (excess * n) + excess * n
    ensures w > 0 && lo > 0 && hi <= w * (n + 1) && (excess < b ==> hi <= w * n)
  {
    MultiplyOrder(1, excess, n);
    LowerSide(b, excess * n);
    UpperSide(b, excess, n);
    if excess < b { BelowAverage(b, excess, n); }
    Scale(b);
    w, lo, hi := 4 * b * b, 4 * b * (excess * n) - excess * n, 4 * b * (excess * n) + excess * n;
  }

  lemma BoundsFrom(w: nat, lo: int, hi: int, n: nat, q: real)
    requires w > 0 && lo > 0 && lo as real <= (w as real) * q <= hi as real
    requires hi <= w * (n + 1)
    ensures 0.0 < q <= n as real + 1.0
    ensures hi <= w * n ==> q <= n as real
  {
    Positive(w, q, lo);
    AtMostFrom(w, q, hi, n + 1);
    if hi <= w * n { AtMostFrom(w, q, hi, n); }
  }

  lemma Positive(w: nat, q: real, x: int)
    requires x > 0 && x as real <= (w as real) * q
    ensures q > 0.0
  {
    Cancel(w as real, 0.0, q);
  }

  lemma AtMostFrom(w: nat, q: real, x: int, m: nat)
    requires w > 0 && (w as real) * q <= x as real && x <= w * m
    ensures q <= m as real
  {
    ScaledInt(w, m);
    CancelAtMost(w as real, q, m as real);
  }

  lemma ScaledBounds(b: nat, p: nat, q: real)
    requires -(p as real) <= 4.0 * (b as real) * ((b as real) * q - p as real) <= p as real
    ensures (4 * b * p - p) as real <= (4 * b * b) as real * q <= (4 * b * p + p) as real
  {
    var rb, rp := b as real, p as real;
    assert 4.0 * rb * (rb * q - rp) == 4.0 * rb * rb * q - 4.0 * rb * rp;
    ScaledInt(4 * b, b);
    ScaledInt(4 * b, p);
  }

  lemma ScaledInt(x: nat, y: nat)
    ensures (x as real) * (y as real) == (x * y) as real
  {
  }

  lemma Cancel(s: real, x: real, y: real)
    requires s >= 0.0 && s * x < s * y
    ensures x < y
  {
  }

  lemma CancelAtMost(s: real, x: real, y: real)
    requires s > 0.0 && s * x <= s * y
    ensures x <= y
  {
  }

  lemma LowerSide(b: nat, p: nat)
    requires b >= 1 && p >= 1
    ensures 4 * b * p - p > 0
  {
    assert 4 * b * p - p == (4 * b - 1) * p;
  }

  lemma Scale(b: nat)
    requires b >= 1
    ensures 4 * b * b > 0
  {
  }

  lemma UpperSide(b: nat, excess: nat, n: nat)
    requires n >= 1 && b >= 2 * n && excess <= b + 1
    ensures 4 * b * (excess * n) + excess * n <= 4 * b * b * (n + 1)
  {
    MultiplyOrder(excess, b + 1, n * (4 * b + 1));
    HalfAtMost(b, n);
  }

  lemma HalfAtMost(b: nat, n: nat)
    requires n >= 1 && b >= 2 * n
    ensures n * (5 * b + 1) <= 4 * b * b
  {
    MultiplyOrder(2 * n, b, 5 * b + 1);
    MultiplyOrder(1, b, b);
  }

  lemma BelowAverage(b: nat, excess: nat, n: nat)
    requires n >= 1 && excess < b
    ensures 4 * b * (excess * n) + excess * n <= 4 * b * b * n
  {
    MultiplyOrder(excess, b - 1, 4 * b + 1);
    MultiplyOrder(excess * (4 * b + 1), 4 * b * b, n);
    assert excess * (4 * b + 1) * n == 4 * b * (excess * n) + excess * n;
  }

  // ----- The number of values to send

  /** The length of the longest of the first k prefixes that fits. */
  function LongestPrefix(sizes: seq<nat>, max: int, k: nat): (j: nat)
    requires k <= |sizes|
    ensures j <= k && (j > 0 ==> PrefixLength(sizes, j) <= max)
    ensures forall i :: j < i <= k ==> PrefixLength(sizes, i) > max
  {
    if k == 0 || PrefixLength(sizes, k) <= max then k else LongestPrefix(sizes, max, k - 1)
  }

  lemma NoRoom(sizes: seq<nat>, max: int)
    requires Sizeable(sizes) && max <= 0
    ensures LongestPrefix(sizes, max, |sizes|) == 0
  {
    PrefixLengthGrows(sizes, 0, LongestPrefix(sizes, max, |sizes|));
  }

  /** Exactly the prefixes up to the longest that fits fit. */
  lemma PrefixFitsIff(sizes: seq<nat>, max: int, j: nat)
    requires Sizeable(sizes) && 0 < j <= |sizes|
    ensures PrefixLength(sizes, j) <= max <==> j <= LongestPrefix(sizes, max, |sizes|)
  {
    var k := LongestPrefix(sizes, max, |sizes|);
    if j < k { PrefixLengthGrows(sizes, j, k); }
  }

  /** How many values to send, for a positive room that is too small for all. */
  method CountFitting(sizes: seq<nat>, max: int, estimate: (nat, nat, nat) -> int) returns (num: int)
    requires Sizeable(sizes) && |sizes| > 0 && 0 < max < PrefixLength(sizes, |sizes|)
    requires Estimator(estimate)
    ensures (if num <= 0 then 0 else num) == LongestPrefix(sizes, max, |sizes|)
  {
    var len := PrefixLength(sizes, |sizes|);
    PrefixLengthGrows(sizes, 0, |sizes|);
    num := Fit(sizes, max, estimate(len, len - max, |sizes|));
    LongestFitUnique(sizes, max, if num <= 0 then 0 else num, LongestPrefix(sizes, max, |sizes|));
  }

  ghost predicate Estimator(estimate: (nat, nat, nat) -> int) {
    forall len: nat, excess: nat, n: nat ::
      n >= 1 && len >= 2 + 2 * n && 0 < excess < len ==> Usable(estimate(len, excess, n), len, excess, n)
  }

  /** A quotient that is computed near enough gives such an estimate. */
  lemma RoundedEstimator(estimate: (nat, nat, nat) -> int, quotient: (nat, nat, nat) -> real)
    requires forall len: nat, excess: nat, n: nat :: estimate(len, excess, n) == n - Ceiling(quotient(len, excess, n))
    requires forall len: nat, excess: nat, n: nat ::
               n >= 1 && len >= 2 + 2 * n && 0 < excess < len ==> Near(quotient(len, excess, n), len, excess, n)
    ensures Estimator(estimate)
  {
    forall len: nat, excess: nat, n: nat | n >= 1 && len >= 2 + 2 * n && 0 < excess < len
      ensures Usable(estimate(len, excess, n), len, excess, n)
    {
      RoundedEstimateIsUsable(len, excess, n, quotient(len, excess, n));
    }
  }

  /** The prefix that fits is not empty and leaves room: exactly if the first value fits and no prefix
      fills the room to the last byte. */
  lemma RoomLeftIff(sizes: seq<nat>, max: int)
    requires Sizeable(sizes)
    ensures var k := LongestPrefix(sizes, max, |sizes|);
            k > 0 && PrefixLength(sizes, k) != max <==>
            |sizes| > 0 && PrefixLength(sizes, 1) <= max && forall j :: 0 < j <= |sizes| ==>
                PrefixLength(sizes, j) != max
  {
    var k := LongestPrefix(sizes, max, |sizes|);
    if k > 0 {
      PrefixLengthGrows(sizes, 1, k);
      forall j | 0 < j < k ensures PrefixLength(sizes, j) != max {
        PrefixLengthGrows(sizes, j, k);
      }
    }
  }
}
