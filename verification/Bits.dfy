/** Powers of two and the bitwise exclusive-or that Kademlia uses as its distance. */
module Bits {
  lemma MultiplyOrder(x: nat, y: nat, n: nat)
    requires x <= y
    ensures x * n <= y * n
  {
  }

  function Pow2(n: nat): (p: nat)
    ensures p >= 1
  {
    if n == 0 then 1 else 2 * Pow2(n - 1)
  }

  /** Bitwise exclusive-or of two unbounded naturals, low bit first. */
  function Xor(a: nat, b: nat): nat
    decreases a + b
  {
    if a == 0 && b == 0 then 0
    else 2 * Xor(a / 2, b / 2) + (if a % 2 == b % 2 then 0 else 1)
  }

  /** Bit i of a number, the lowest first. */
  function Bit(n: nat, i: nat): nat {
    if i == 0 then n % 2 else Bit(n / 2, i - 1)
  }

  /** A bit of the exclusive-or is set exactly if the two numbers differ in it. */
  lemma {:induction false} XorBits(a: nat, b: nat, i: nat)
    ensures Bit(Xor(a, b), i) == if Bit(a, i) == Bit(b, i) then 0 else 1
  {
    XorParity(a, b);
    if i > 0 {
      XorBits(a / 2, b / 2, i - 1);
    }
  }

  lemma {:induction false} Pow2Monotone(m: nat, n: nat)
    requires m <= n
    ensures Pow2(m) <= Pow2(n)
  {
    if m < n {
      Pow2Monotone(m, n - 1);
    }
  }

  lemma {:induction false} XorZeroIffEqual(a: nat, b: nat)
    ensures Xor(a, b) == 0 <==> a == b
    decreases a + b
  {
    if a != 0 || b != 0 {
      XorZeroIffEqual(a / 2, b / 2);
    }
  }

  lemma {:induction false} XorSymmetric(a: nat, b: nat)
    ensures Xor(a, b) == Xor(b, a)
    decreases a + b
  {
    if a != 0 || b != 0 {
      XorSymmetric(a / 2, b / 2);
    }
  }

  lemma {:induction false} XorParity(a: nat, b: nat)
    ensures Xor(a, b) / 2 == Xor(a / 2, b / 2)
    ensures Xor(a, b) % 2 == 0 <==> a % 2 == b % 2
  {
  }

  /** Distances compose: the distance law that makes the metric usable for routing. */
  lemma {:induction false} XorCompose(a: nat, b: nat, c: nat)
    ensures Xor(Xor(a, b), Xor(b, c)) == Xor(a, c)
    decreases a + b + c
  {
    if a != 0 || b != 0 || c != 0 {
      XorCompose(a / 2, b / 2, c / 2);
      XorParity(a, b);
      XorParity(b, c);
      XorParity(a, c);
      XorParity(Xor(a, b), Xor(b, c));
    }
  }

  /** No two IDs are at the same distance from a third. */
  lemma XorInjective(t: nat, a: nat, b: nat)
    ensures Xor(t, a) == Xor(t, b) <==> a == b
  {
    if Xor(t, a) == Xor(t, b) {
      XorSymmetric(t, a);
      XorCompose(a, t, b);
      XorZeroIffEqual(Xor(a, t), Xor(t, b));
      XorZeroIffEqual(a, b);
    }
  }

  /** Drop the n low bits. */
  function Shift(a: nat, n: nat): nat {
    if n == 0 then a else Shift(a / 2, n - 1)
  }

  /** Shifting both operands right shifts their exclusive-or right. */
  lemma {:induction false} XorShift(a: nat, b: nat, n: nat)
    ensures Shift(Xor(a, b), n) == Xor(Shift(a, n), Shift(b, n))
  {
    if n > 0 {
      XorParity(a, b);
      XorShift(a / 2, b / 2, n - 1);
    }
  }

  /** Where the aligned block number q of width 2^n starts: q with n zero bits appended. */
  function Start(q: nat, n: nat): nat
    decreases n
  {
    if n == 0 then q else Start(2 * q, n - 1)
  }

  lemma {:induction false} StartIsMultiple(q: nat, n: nat)
    ensures Start(q, n) == q * Pow2(n)
    decreases n
  {
    if n > 0 {
      StartIsMultiple(2 * q, n - 1);
      var p := Pow2(n - 1);
      assert Pow2(n) == 2 * p;
      assert q * (2 * p) == (2 * q) * p;
    }
  }

  lemma {:induction false} BlockIsWide(q: nat, n: nat)
    ensures Start(q + 1, n) == Start(q, n) + Pow2(n)
    decreases n
  {
    if n > 0 {
      BlockIsWide(2 * q, n - 1);
      BlockIsWide(2 * q + 1, n - 1);
    }
  }

  /** x lies in the aligned block number q of width 2^n. */
  predicate InBlock(x: nat, q: nat, n: nat) {
    Start(q, n) <= x < Start(q + 1, n)
  }

  lemma {:induction false} StartDoubles(q: nat, n: nat)
    requires n > 0
    ensures Start(q, n) == 2 * Start(q, n - 1)
    decreases n
  {
    if n > 1 {
      StartDoubles(2 * q, n - 1);
    }
  }

  lemma {:induction false} InBlockIffShift(x: nat, q: nat, n: nat)
    ensures InBlock(x, q, n) <==> Shift(x, n) == q
  {
    if n > 0 {
      InBlockIffShift(x / 2, q, n - 1);
      StartDoubles(q, n);
      StartDoubles(q + 1, n);
    }
  }

  /** The subtree law: seen from inside an aligned block, exactly the members of
      that block are at a distance below the block's width. */
  lemma XorBlock(t: nat, x: nat, q: nat, n: nat)
    requires InBlock(t, q, n)
    ensures Xor(t, x) < Pow2(n) <==> InBlock(x, q, n)
  {
    InBlockIffShift(t, q, n);
    InBlockIffShift(x, q, n);
    XorShift(t, x, n);
    XorZeroIffEqual(Shift(t, n), Shift(x, n));
    InBlockIffShift(Xor(t, x), 0, n);
    StartIsMultiple(0, n);
    StartIsMultiple(1, n);
  }
}
