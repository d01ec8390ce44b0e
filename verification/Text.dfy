/** Byte strings: decimal numbers, the order of keys, and reading at an offset. */
module Text {
  import opened Options
  // ----- Decimal numbers

  predicate IsDigit(c: char) { '0' <= c <= '9' }

  predicate AllDigits(s: string) {
    forall i :: 0 <= i < |s| ==> IsDigit(s[i])
  }

  function DigitValue(c: char): (d: nat)
    requires IsDigit(c)
    ensures d < 10
  {
    c as int - '0' as int
  }

  function DigitOf(d: nat): (c: char)
    requires d < 10
    ensures IsDigit(c) && DigitValue(c) == d
  {
    ('0' as int + d) as char
  }

  /** str of a natural number. */
  function Digits(n: nat): (s: string)
    ensures |s| >= 1
  {
    if n < 10 then [DigitOf(n)] else Digits(n / 10) + [DigitOf(n % 10)]
  }

  /** The number written by the first k digits. */
  function Number(s: string, k: nat): nat
    requires AllDigits(s) && k <= |s|
  {
    if k == 0 then 0 else 10 * Number(s, k - 1) + DigitValue(s[k - 1])
  }

  predicate Plain(s: string) {
    |s| >= 1 && AllDigits(s) && (|s| > 1 ==> s[0] != '0')
  }

  lemma {:induction false} NumberOfPrefix(s: string, t: string, k: nat)
    requires AllDigits(s) && AllDigits(t) && k <= |s| && k <= |t| && forall i :: 0 <= i < k ==> s[i] == t[i]
    ensures Number(s, k) == Number(t, k)
  {
    if k > 0 {
      NumberOfPrefix(s, t, k - 1);
    }
  }

  /** Digits writes a plain number that Number reads back. */
  lemma {:induction false} DigitsRead(n: nat)
    ensures Plain(Digits(n)) && Number(Digits(n), |Digits(n)|) == n
    ensures n > 0 ==> Digits(n)[0] != '0'
  {
    var s := Digits(n);
    if n < 10 {
      assert Number(s, 1) == 10 * Number(s, 0) + DigitValue(s[0]);
    } else {
      DigitsRead(n / 10);
      var t := Digits(n / 10);
      assert s == t + [DigitOf(n % 10)];
      assert s[0] == t[0];
      NumberOfPrefix(s, t, |t|);
    }
  }

  /** Number is undone by Digits on plain numbers. */
  lemma {:induction false} NumberWrites(s: string, k: nat)
    requires Plain(s) && 1 <= k <= |s|
    ensures Digits(Number(s, k)) == s[..k]
    ensures |s| > 1 ==> Number(s, k) > 0
  {
    if k == 1 {
      assert Number(s, 1) == 10 * Number(s, 0) + DigitValue(s[0]);
      assert s[..1] == [s[0]];
    } else {
      NumberWrites(s, k - 1);
      assert s[..k] == s[..k - 1] + [s[k - 1]];
    }
  }

  /** str of an integer. */
  function IntText(n: int): string {
    if n < 0 then "-" + Digits(-n) else Digits(n)
  }

  /** int() on plain decimal lexemes; every other lexeme is refused. */
  function ParseInt(s: string): Option<int> {
    if |s| >= 1 && s[0] == '-' then
      if |s| >= 2 && AllDigits(s[1..]) then (var n: int := Number(s[1..], |s| - 1); Some(-n)) else None
    else if |s| >= 1 && AllDigits(s) then Some(Number(s, |s|))
    else None
  }

  lemma IntTextRead(n: int)
    ensures ParseInt(IntText(n)) == Some(n)
    ensures var s := IntText(n); |s| >= 1 && if s[0] == '-' then |s| >= 2 && s[1] != '0' else s[0] == '0' ==> |s| == 1
    ensures 'e' !in IntText(n)
  {
    if n < 0 {
      DigitsRead(-n);
      assert IntText(n)[1..] == Digits(-n);
    } else {
      DigitsRead(n);
    }
  }

  lemma IntTextWritten(s: string)
    requires ParseInt(s).Some?
    requires if s[0] == '-' then s[1] != '0' else s[0] == '0' ==> |s| == 1
    ensures IntText(ParseInt(s).value) == s
  {
    if s[0] == '-' {
      var t := s[1..];
      assert t[0] == s[1];
      NumberWrites(t, |t|);
      assert t[..|t|] == t;
      NumberPositive(t, |t|);
      assert s == "-" + t;
    } else {
      NumberWrites(s, |s|);
      assert s[..|s|] == s;
    }
  }

  lemma {:induction false} NumberPositive(s: string, k: nat)
    requires AllDigits(s) && 1 <= k <= |s| && s[0] != '0'
    ensures Number(s, k) > 0
  {
    if k > 1 {
      NumberPositive(s, k - 1);
    }
  }

  // ----- The order of strings

  predicate Less(a: string, b: string) {
    |b| > 0 && (|a| == 0 || a[0] < b[0] || (a[0] == b[0] && Less(a[1..], b[1..])))
  }

  lemma {:induction false} LessTransitive(a: string, b: string, c: string)
    requires Less(a, b) && Less(b, c)
    ensures Less(a, c)
  {
    if |a| > 0 && a[0] == b[0] && b[0] == c[0] {
      LessTransitive(a[1..], b[1..], c[1..]);
    }
  }

  lemma {:induction false} LessIrreflexive(a: string)
    ensures !Less(a, a)
  {
    if |a| > 0 {
      LessIrreflexive(a[1..]);
    }
  }

  lemma {:induction false} LessTotal(a: string, b: string)
    ensures a == b || Less(a, b) || Less(b, a)
  {
    if |a| > 0 && |b| > 0 && a[0] == b[0] {
      LessTotal(a[1..], b[1..]);
      assert a == [a[0]] + a[1..] && b == [b[0]] + b[1..];
    }
  }

  predicate StrictlySorted(keys: seq<string>) {
    forall i, j :: 0 <= i < j < |keys| ==> Less(keys[i], keys[j])
  }

  predicate LeastOf(k: string, s: set<string>) {
    k in s && forall j :: j in s && j != k ==> Less(k, j)
  }

  lemma {:induction false} HasLeast(s: set<string>) returns (k: string)
    requires s != {}
    ensures LeastOf(k, s)
    decreases |s|
  {
    k :| k in s;
    if s != {k} {
      assert s == {k} + (s - {k});
      var l := HasLeast(s - {k});
      LessTotal(k, l);
      if Less(l, k) {
        k := l;
      } else {
        forall j | j in s && j != k ensures Less(k, j) {
          if j != l { LessTransitive(k, l, j); }
        }
      }
    }
  }

  lemma LeastUnique(s: set<string>, k: string, l: string)
    requires LeastOf(k, s) && LeastOf(l, s)
    ensures k == l
  {
    if k != l {
      LessTransitive(k, l, k);
      LessIrreflexive(k);
    }
  }

  lemma OneLeast(s: set<string>)
    requires s != {}
    ensures exists k :: LeastOf(k, s)
    ensures forall k, l :: LeastOf(k, s) && LeastOf(l, s) ==> k == l
  {
    var k := HasLeast(s);
    forall k, l | LeastOf(k, s) && LeastOf(l, s) ensures k == l {
      LeastUnique(s, k, l);
    }
  }

  /** The keys of a dictionary, sorted. */
  function SortedKeys(s: set<string>): (keys: seq<string>)
    ensures forall k :: k in keys <==> k in s
    ensures StrictlySorted(keys)
    decreases |s|
  {
    if s == {} then []
    else
      OneLeast(s);
      var k :| LeastOf(k, s);
      var rest := SortedKeys(s - {k});
      var keys := [k] + rest;
      assert StrictlySorted(keys) by {
        forall i, j | 0 <= i < j < |keys| ensures Less(keys[i], keys[j]) {
          assert keys[j] == rest[j - 1] && rest[j - 1] in s - {k};
          if i > 0 { assert keys[i] == rest[i - 1]; }
        }
      }
      keys
  }

  /** There is one way to sort a set of keys. */
  lemma {:induction false} SortedUnique(keys: seq<string>, s: set<string>)
    requires StrictlySorted(keys) && forall k :: k in keys <==> k in s
    ensures SortedKeys(s) == keys
    decreases |keys|
  {
    if |keys| == 0 {
      assert s == {};
    } else {
      assert keys[0] in s;
      var k := SortedKeys(s)[0];
      assert LeastOf(keys[0], s) by {
        forall j | j in s && j != keys[0] ensures Less(keys[0], j) {
          assert j in keys;
        }
      }
      LeastOfSorted(s);
      LeastUnique(s, k, keys[0]);
      var rest := keys[1..];
      assert keys == [k] + rest;
      forall j ensures j in rest <==> j in s - {k} {
        assert j in keys <==> j == k || j in rest;
        if k in rest {
          var i :| 0 <= i < |rest| && rest[i] == k;
          assert keys[i + 1] == k;
          LessIrreflexive(k);
        }
      }
      SortedUnique(rest, s - {k});
    }
  }

  lemma LeastOfSorted(s: set<string>)
    requires s != {}
    ensures |SortedKeys(s)| > 0
    ensures LeastOf(SortedKeys(s)[0], s)
    ensures SortedKeys(s) == [SortedKeys(s)[0]] + SortedKeys(s - {SortedKeys(s)[0]})
  {
  }

  // ----- Reading at an offset

  /** s stands in x at offset f. */
  predicate At(x: string, f: nat, s: string) {
    f + |s| <= |x| && forall i :: 0 <= i < |s| ==> x[f + i] == s[i]
  }

  lemma AtConcat(x: string, f: nat, s: string, t: string)
    ensures At(x, f, s + t) <==> At(x, f, s) && At(x, f + |s|, t)
  {
    if At(x, f, s + t) {
      forall i | 0 <= i < |s| ensures x[f + i] == s[i] {
        assert (s + t)[i] == s[i];
      }
      forall i | 0 <= i < |t| ensures x[f + |s| + i] == t[i] {
        assert (s + t)[|s| + i] == t[i];
      }
    }
    if At(x, f, s) && At(x, f + |s|, t) {
      forall i | 0 <= i < |s + t| ensures x[f + i] == (s + t)[i] {
        if i >= |s| { assert x[f + |s| + (i - |s|)] == t[i - |s|]; }
      }
    }
  }

  lemma AtByte(x: string, f: nat, s: string)
    requires |s| >= 1 && At(x, f, s)
    ensures f < |x| && x[f] == s[0]
  {
    assert x[f + 0] == s[0];
  }

  lemma AtIsSlice(x: string, f: nat, s: string)
    ensures At(x, f, s) <==> f + |s| <= |x| && x[f..f + |s|] == s
  {
    if At(x, f, s) {
      assert x[f..f + |s|] == s;
    }
    if f + |s| <= |x| && x[f..f + |s|] == s {
      forall i | 0 <= i < |s| ensures x[f + i] == s[i] {
        assert x[f..f + |s|][i] == s[i];
      }
    }
  }

  /** str.index: where a byte stands first from an offset on; the length stands for ValueError. */
  function IndexOf(x: string, c: char, f: nat): (i: nat)
    requires f <= |x|
    ensures f <= i <= |x|
    ensures forall j :: f <= j < i ==> x[j] != c
    ensures i < |x| ==> x[i] == c
    decreases |x| - f
  {
    if f == |x| || x[f] == c then f else IndexOf(x, c, f + 1)
  }
}
