/** IDs as strings of bytes and as numbers, and the distance between them. */
module Khash {
  import opened Bits
  import opened KTableSpec
  import opened KTableShape
  import opened KTableInvariant

  const HASH_LENGTH: nat := 20

  /** Digits of a base. */
  predicate DigitsOf(s: seq<nat>, base: nat) {
    forall i :: 0 <= i < |s| ==> s[i] < base
  }

  /** The number that the first k digits write, most significant first. */
  function Value(s: seq<nat>, base: nat, k: nat): nat
    requires k <= |s|
  {
    if k == 0 then 0 else base * Value(s, base, k - 1) + s[k - 1]
  }

  function Power(base: nat, k: nat): nat {
    if k == 0 then 1 else base * Power(base, k - 1)
  }

  /** A digit more never makes up for a smaller number. */
  lemma DigitMore(base: nat, a: nat, b: nat, x: nat)
    requires x < base
    ensures a < b ==> base * a + x < base * b
  {
    if a < b {
      MultiplyOrder(a + 1, b, base);
      assert base * (a + 1) == base * a + base;
    }
  }

  lemma {:induction false} ValueBound(s: seq<nat>, base: nat, k: nat)
    requires k <= |s| && DigitsOf(s, base) && base >= 2
    ensures Value(s, base, k) < Power(base, k)
  {
    if k > 0 {
      ValueBound(s, base, k - 1);
      DigitMore(base, Value(s, base, k - 1), Power(base, k - 1), s[k - 1]);
    }
  }

  lemma QuotientUnique(base: nat, a: nat, b: nat, x: nat, y: nat)
    requires x < base && y < base && base * a + x == base * b + y
    ensures a == b && x == y
  {
    DigitMore(base, a, b, x);
    DigitMore(base, b, a, y);
  }

  /** Digits are determined by the number and how many there are. */
  lemma {:induction false} DigitsUnique(s: seq<nat>, t: seq<nat>, base: nat, k: nat)
    requires k <= |s| && k <= |t| && DigitsOf(s, base) && DigitsOf(t, base)
    requires Value(s, base, k) == Value(t, base, k)
    ensures s[..k] == t[..k]
  {
    if k > 0 {
      QuotientUnique(base, Value(s, base, k - 1), Value(t, base, k - 1), s[k - 1], t[k - 1]);
      DigitsUnique(s, t, base, k - 1);
      assert s[..k] == s[..k - 1] + [s[k - 1]] && t[..k] == t[..k - 1] + [t[k - 1]];
    }
  }

  lemma {:induction false} ValueSame(s: seq<nat>, t: seq<nat>, base: nat, k: nat)
    requires k <= |s| && k <= |t| && forall i :: 0 <= i < k ==> s[i] == t[i]
    ensures Value(s, base, k) == Value(t, base, k)
  {
    if k > 0 {
      ValueSame(s, t, base, k - 1);
    }
  }

  /** Zeros in front do not count. */
  function Padded(s: seq<nat>, n: nat): (r: seq<nat>)
    ensures |r| == n + |s|
  {
    seq(n, _ => 0) + s
  }

  lemma {:induction false} PaddedValue(s: seq<nat>, n: nat, base: nat, k: nat)
    requires k <= n + |s|
    ensures Value(Padded(s, n), base, k) == if k <= n then 0 else Value(s, base, k - n)
  {
    if k > 0 {
      PaddedValue(s, n, base, k - 1);
    }
  }

  /** A digit counts for as much as its place says. */
  lemma {:induction false} DigitCounts(s: seq<nat>, t: seq<nat>, base: nat, k: nat, i: nat, difference: int)
    requires |s| == |t| && i < k <= |s| && forall j :: 0 <= j < |s| && j != i ==> s[j] == t[j]
    requires t[i] == s[i] + difference
    ensures Value(t, base, k) == Value(s, base, k) + difference * Power(base, k - 1 - i)
  {
    if k - 1 == i {
      ValueSame(s, t, base, i);
      assert Power(base, 0) == 1;
    } else {
      DigitCounts(s, t, base, k - 1, i, difference);
      Scaled(base, Value(s, base, k - 1), Value(t, base, k - 1), difference, Power(base, k - 2 - i));
    }
  }

  lemma Scaled(base: nat, v: nat, w: nat, difference: int, power: nat)
    requires w == v + difference * power
    ensures base * w == base * v + difference * (base * power)
  {
    assert base * (difference * power) == difference * (base * power);
  }

  lemma {:induction false} NoValue(s: seq<nat>, base: nat, k: nat)
    requires k <= |s| && forall i :: 0 <= i < |s| ==> s[i] == 0
    ensures Value(s, base, k) == 0
  {
    if k > 0 { NoValue(s, base, k - 1); }
  }

  // ----- Between bytes and hexadecimal digits

  /** hex of a number without its prefix. */
  function Hex(n: nat): (s: seq<nat>)
    ensures |s| >= 1 && DigitsOf(s, 16)
  {
    if n < 16 then [n] else Hex(n / 16) + [n % 16]
  }

  lemma {:induction false} HexValue(n: nat)
    ensures Value(Hex(n), 16, |Hex(n)|) == n
  {
    var s := Hex(n);
    if n < 16 {
      assert Value(s, 16, 1) == 16 * Value(s, 16, 0) + s[0];
    } else {
      HexValue(n / 16);
      var t := Hex(n / 16);
      assert s == t + [n % 16];
      ValueSame(s, t, 16, |t|);
    }
  }

  lemma {:induction false} HexLength(n: nat, k: nat)
    requires k >= 1 && n < Power(16, k)
    ensures |Hex(n)| <= k
  {
    if n >= 16 {
      assert k > 1 by { assert Power(16, 1) == 16; }
      HexLength(n / 16, k - 1);
    }
  }

  /** encode('hex'). */
  function ToHex(s: seq<nat>): (r: seq<nat>)
    requires DigitsOf(s, 256)
    ensures |r| == 2 * |s| && DigitsOf(r, 16)
  {
    seq(2 * |s|, i requires 0 <= i < 2 * |s| => if i % 2 == 0 then s[i / 2] / 16 else s[i / 2] % 16)
  }

  /** decode('hex') of an even number of digits. */
  function FromHex(h: seq<nat>): (r: seq<nat>)
    requires DigitsOf(h, 16) && |h| % 2 == 0
    ensures |r| == |h| / 2 && DigitsOf(r, 256)
  {
    seq(|h| / 2, i requires 0 <= i < |h| / 2 => 16 * h[2 * i] + h[2 * i + 1])
  }

  lemma {:induction false} ToHexValue(s: seq<nat>, k: nat)
    requires DigitsOf(s, 256) && k <= |s|
    ensures Value(ToHex(s), 16, 2 * k) == Value(s, 256, k)
  {
    if k > 0 {
      ToHexValue(s, k - 1);
      var h := ToHex(s);
      assert Value(h, 16, 2 * k) == 16 * Value(h, 16, 2 * k - 1) + h[2 * k - 1];
      assert Value(h, 16, 2 * k - 1) == 16 * Value(h, 16, 2 * k - 2) + h[2 * k - 2];
    }
  }

  lemma {:induction false} FromHexValue(h: seq<nat>, k: nat)
    requires DigitsOf(h, 16) && |h| % 2 == 0 && 2 * k <= |h|
    ensures Value(FromHex(h), 256, k) == Value(h, 16, 2 * k)
  {
    if k > 0 {
      FromHexValue(h, k - 1);
      assert Value(h, 16, 2 * k) == 16 * Value(h, 16, 2 * k - 1) + h[2 * k - 1];
      assert Value(h, 16, 2 * k - 1) == 16 * Value(h, 16, 2 * k - 2) + h[2 * k - 2];
    }
  }

  // ----- IDs

  /** intify. */
  function Intify(hstr: seq<nat>): nat
    requires |hstr| == HASH_LENGTH && DigitsOf(hstr, 256)
  {
    Value(ToHex(hstr), 16, 2 * HASH_LENGTH)
  }

  /** stringify: hexadecimal digits, an even number of them, as bytes, with null bytes in front. */
  function Stringify(num: nat): (r: seq<nat>)
    ensures DigitsOf(r, 256)
  {
    var s := FromHex(EvenHex(num));
    Padded(s, if |s| < HASH_LENGTH then HASH_LENGTH - |s| else 0)
  }

  lemma {:induction false} PowerOfTwo(k: nat)
    ensures Power(16, k) == Pow2(4 * k)
  {
    if k > 0 {
      PowerOfTwo(k - 1);
      assert Pow2(4 * k) == 2 * Pow2(4 * k - 1) && Pow2(4 * k - 1) == 2 * Pow2(4 * k - 2);
      assert Pow2(4 * k - 2) == 2 * Pow2(4 * k - 3) && Pow2(4 * k - 3) == 2 * Pow2(4 * (k - 1));
    }
  }

  /** An even number of hexadecimal digits of a number. */
  function EvenHex(num: nat): (h: seq<nat>)
    ensures DigitsOf(h, 16) && |h| % 2 == 0
  {
    var h := Hex(num);
    if |h| % 2 != 0 then Padded(h, 1) else h
  }

  lemma EvenHexValue(num: nat)
    ensures Value(EvenHex(num), 16, |EvenHex(num)|) == num
  {
    HexValue(num);
    PaddedValue(Hex(num), 1, 16, |Hex(num)| + 1);
  }

  /** The bytes of a number stand for it. */
  lemma StringifyValue(num: nat)
    ensures Value(Stringify(num), 256, |Stringify(num)|) == num
  {
    EvenHexValue(num);
    var s := FromHex(EvenHex(num));
    FromHexValue(EvenHex(num), |s|);
    var n := if |s| < HASH_LENGTH then HASH_LENGTH - |s| else 0;
    PaddedValue(s, n, 256, n + |s|);
  }

  /** Exactly the numbers of the ID space become strings of the length of a hash. */
  lemma StringifyLength(num: nat)
    ensures |Stringify(num)| == HASH_LENGTH <==> num < Pow2(HASH_BITS)
  {
    PowerOfTwo(2 * HASH_LENGTH);
    if num < Pow2(HASH_BITS) {
      HexLength(num, 2 * HASH_LENGTH);
    }
    if |Stringify(num)| == HASH_LENGTH {
      StringifyValue(num);
      var s := Stringify(num);
      ToHexValue(s, HASH_LENGTH);
      ValueBound(ToHex(s), 16, 2 * HASH_LENGTH);
    }
  }

  /** IDs as strings and as numbers are the same thing. */
  lemma NumberRoundTrip(num: nat)
    requires num < Pow2(HASH_BITS)
    ensures |Stringify(num)| == HASH_LENGTH && Intify(Stringify(num)) == num
  {
    StringifyLength(num);
    StringifyValue(num);
    ToHexValue(Stringify(num), HASH_LENGTH);
  }

  lemma StringRoundTrip(hstr: seq<nat>)
    requires |hstr| == HASH_LENGTH && DigitsOf(hstr, 256)
    ensures Intify(hstr) < Pow2(HASH_BITS) && Stringify(Intify(hstr)) == hstr
  {
    PowerOfTwo(2 * HASH_LENGTH);
    ValueBound(ToHex(hstr), 16, 2 * HASH_LENGTH);
    ToHexValue(hstr, HASH_LENGTH);
    var r := Stringify(Intify(hstr));
    StringifyLength(Intify(hstr));
    StringifyValue(Intify(hstr));
    DigitsUnique(r, hstr, 256, HASH_LENGTH);
    assert r[..HASH_LENGTH] == r && hstr[..HASH_LENGTH] == hstr;
  }

  /** The bytes of an ID count big-endian: null bytes are zero, and a byte that differs makes its difference times
      256 for each byte behind it. */
  lemma BigEndian(h: seq<nat>, k: seq<nat>, i: nat, difference: int)
    requires |h| == |k| == HASH_LENGTH && DigitsOf(h, 256) && DigitsOf(k, 256) && i < HASH_LENGTH
    requires k[i] == h[i] + difference && forall j :: 0 <= j < HASH_LENGTH && j != i ==> h[j] == k[j]
    ensures Intify(k) == Intify(h) + difference * Power(256, HASH_LENGTH - 1 - i)
    ensures (forall j :: 0 <= j < HASH_LENGTH ==> h[j] == 0) ==> Intify(h) == 0
  {
    ToHexValue(h, HASH_LENGTH);
    ToHexValue(k, HASH_LENGTH);
    DigitCounts(h, k, 256, HASH_LENGTH, i, difference);
    if forall j :: 0 <= j < HASH_LENGTH ==> h[j] == 0 { NoValue(h, 256, HASH_LENGTH); }
  }

  /** distance. */
  function HashDistance(a: seq<nat>, b: seq<nat>): nat
    requires |a| == HASH_LENGTH && DigitsOf(a, 256) && |b| == HASH_LENGTH && DigitsOf(b, 256)
  {
    Xor(Intify(a), Intify(b))
  }

  lemma {:induction false} XorAtMostSum(a: nat, b: nat)
    ensures Xor(a, b) <= a + b
    decreases a + b
  {
    if a != 0 || b != 0 {
      XorAtMostSum(a / 2, b / 2);
    }
  }

  /** The distance is a metric, in which no two IDs are equally far from a third. */
  lemma DistanceIsMetric(a: seq<nat>, b: seq<nat>, c: seq<nat>)
    requires |a| == |b| == |c| == HASH_LENGTH && DigitsOf(a, 256) && DigitsOf(b, 256) && DigitsOf(c, 256)
    ensures HashDistance(a, b) == 0 <==> a == b
    ensures HashDistance(a, b) == HashDistance(b, a)
    ensures HashDistance(a, c) <= HashDistance(a, b) + HashDistance(b, c)
    ensures HashDistance(a, b) == HashDistance(a, c) ==> b == c
  {
    StringRoundTrip(a);
    StringRoundTrip(b);
    StringRoundTrip(c);
    XorZeroIffEqual(Intify(a), Intify(b));
    XorSymmetric(Intify(a), Intify(b));
    XorCompose(Intify(a), Intify(b), Intify(c));
    XorAtMostSum(HashDistance(a, b), HashDistance(b, c));
    XorInjective(Intify(a), Intify(b), Intify(c));
  }

  /** The distance has exactly the bits in which the two IDs differ. */
  lemma DistanceBits(a: seq<nat>, b: seq<nat>, i: nat)
    requires |a| == HASH_LENGTH && DigitsOf(a, 256) && |b| == HASH_LENGTH && DigitsOf(b, 256)
    ensures Bit(HashDistance(a, b), i) == if Bit(Intify(a), i) == Bit(Intify(b), i) then 0 else 1
  {
    XorBits(Intify(a), Intify(b), i);
  }

  // ----- Random IDs

  /** randRange with the number that was drawn. */
  function RandRange(min: int, max: int, drawn: nat): (r: int)
    requires min < max
    ensures min <= r < max
  {
    min + drawn % (max - min)
  }

  /** newIDInRange. */
  function NewIDInRange(min: nat, max: nat, drawn: nat): seq<nat>
    requires min < max
  {
    Stringify(RandRange(min, max, drawn))
  }

  /** Whatever is drawn, an ID made to refresh a bucket is one that this bucket covers, and it is looked up there. */
  lemma RefreshesItsBucket(t: Table, i: nat, drawn: nat, maxFailures: int)
    requires WellFormed(t, maxFailures) && i < |t.buckets|
    ensures t.buckets[i].min < t.buckets[i].max
    ensures var id := NewIDInRange(t.buckets[i].min, t.buckets[i].max, drawn);
            |id| == HASH_LENGTH && DigitsOf(id, 256) && IndexFor(t.buckets, Intify(id)) == i
  {
    ShapeContiguous(t.buckets, t.self);
    var b := t.buckets[i];
    var num: nat := RandRange(b.min, b.max, drawn);
    NumberRoundTrip(num);
    LookupFindsBucket(t, num, maxFailures);
    assert b.Has(num);
  }
}
