/** The lists of nodes an action works through: sorted by a distance, without those that failed. */
module ActionLists {
  import opened Bits
  import opened KTableSpec
  import opened KTableInsert
  import opened KTableLookup

  function Rank(target: nat): nat -> nat {
    (x: nat) => Xor(target, x)
  }

  ghost predicate Injective(key: nat -> nat) {
    forall x, y :: key(x) == key(y) ==> x == y
  }

  lemma RankInjective(target: nat)
    ensures Injective(Rank(target))
  {
    forall x, y | Rank(target)(x) == Rank(target)(y) ensures x == y {
      XorInjective(target, x, y);
    }
  }

  /** In order of distance, nearest first, no node twice. */
  predicate Nearest(s: seq<nat>, key: nat -> nat) {
    forall i, j :: 0 <= i < j < |s| ==> key(s[i]) < key(s[j])
  }

  function Ids(s: seq<nat>): set<nat> {
    set x | x in s
  }

  predicate NoRepeats(s: seq<nat>) {
    forall i, j :: 0 <= i < j < |s| ==> s[i] != s[j]
  }

  lemma NearestHasNoRepeats(s: seq<nat>, key: nat -> nat)
    requires Nearest(s, key)
    ensures NoRepeats(s)
  {
    forall i, j | 0 <= i < j < |s| ensures s[i] != s[j] {
      assert key(s[i]) < key(s[j]);
    }
  }

  lemma {:induction false} CountIds(s: seq<nat>)
    requires NoRepeats(s)
    ensures |Ids(s)| == |s|
    decreases |s|
  {
    if |s| == 0 {
      assert Ids(s) == {};
    } else {
      var last := |s| - 1;
      CountIds(s[..last]);
      assert s[last] !in s[..last];
      assert Ids(s) == Ids(s[..last]) + {s[last]};
    }
  }

  /** A set has one list in order of distance. */
  lemma {:induction false} NearestUnique(s: seq<nat>, t: seq<nat>, key: nat -> nat)
    requires Nearest(s, key) && Nearest(t, key) && Ids(s) == Ids(t)
    ensures s == t
    decreases |s|
  {
    NearestHasNoRepeats(s, key);
    NearestHasNoRepeats(t, key);
    CountIds(s);
    CountIds(t);
    if |s| > 0 {
      var l := |s| - 1;
      LastIsFarthest(s, t, key);
      forall x ensures x in s[..l] <==> x in t[..l] {
        assert x in Ids(s) <==> x in s;
        assert x in Ids(t) <==> x in t;
        assert x in s <==> x in s[..l] || x == s[l];
        assert x in t <==> x in t[..l] || x == t[l];
      }
      assert Ids(s[..l]) == Ids(t[..l]);
      NearestUnique(s[..l], t[..l], key);
      assert s == s[..l] + [s[l]] && t == t[..l] + [t[l]];
    }
  }

  lemma LastIsFarthest(s: seq<nat>, t: seq<nat>, key: nat -> nat)
    requires Nearest(s, key) && Nearest(t, key) && Ids(s) == Ids(t) && |s| == |t| > 0
    ensures s[|s| - 1] == t[|t| - 1]
  {
    var l := |s| - 1;
    assert s[l] in Ids(t) && t[l] in Ids(s);
    var i :| 0 <= i < |s| && s[i] == t[l];
    var j :| 0 <= j < |t| && t[j] == s[l];
    assert forall k :: 0 <= k < l ==> key(s[k]) < key(s[l]);
    assert forall k :: 0 <= k < l ==> key(t[k]) < key(t[l]);
  }

  lemma SortKeepsIds(s: seq<nat>, key: nat -> nat)
    ensures Ids(SortBy(s, key, |s|)) == Ids(s)
  {
    var r := SortBy(s, key, |s|);
    forall x ensures x in r <==> x in s {
      SortByHas(s, key, |s|, x);
    }
  }

  lemma SortedIsNearest(r: seq<nat>, key: nat -> nat)
    requires SortedByKey(r, key) && NoRepeats(r) && Injective(key)
    ensures Nearest(r, key)
  {
    forall i, j | 0 <= i < j < |r| ensures key(r[i]) < key(r[j]) {
      assert r[i] != r[j] && key(r[i]) <= key(r[j]);
    }
  }

  /** Sorting a list without repeats. */
  lemma SortIsNearest(s: seq<nat>, key: nat -> nat)
    requires NoRepeats(s) && Injective(key)
    ensures Nearest(SortBy(s, key, |s|), key) && Ids(SortBy(s, key, |s|)) == Ids(s)
  {
    SortBySorted(s, key, |s|);
    SortKeepsIds(s, key);
    CountIds(s);
    FullListHasNoRepeats(SortBy(s, key, |s|));
    SortedIsNearest(SortBy(s, key, |s|), key);
  }

  /** A list as long as its set of members repeats none. */
  lemma FullListHasNoRepeats(s: seq<nat>)
    requires |Ids(s)| == |s|
    ensures NoRepeats(s)
  {
    forall i, j | 0 <= i < j < |s| ensures s[i] != s[j] {
      var rest := s[..i] + s[i + 1..];
      if s[i] == s[j] {
        assert rest[j - 1] == s[j];
        forall x | x in s ensures x in rest {
          var k :| 0 <= k < |s| && s[k] == x;
          if k < i { assert rest[k] == x; } else if k > i { assert rest[k - 1] == x; } else { assert rest[j - 1] == x; }
        }
        assert Ids(s) == Ids(rest);
        IdsAtMost(rest);
        assert false;
      }
    }
  }

  lemma {:induction false} IdsAtMost(s: seq<nat>)
    ensures |Ids(s)| <= |s|
    decreases |s|
  {
    if |s| == 0 {
      assert Ids(s) == {};
    } else {
      IdsAtMost(s[1..]);
      assert Ids(s) == Ids(s[1..]) + {s[0]};
    }
  }

  // ----- Those that have not failed

  /** Of the first n, those that have not failed. */
  function Alive(s: seq<nat>, failed: set<nat>, n: nat): (r: seq<nat>)
    requires n <= |s|
    ensures |r| <= n
  {
    if n == 0 then []
    else if s[n - 1] in failed then Alive(s, failed, n - 1)
    else Alive(s, failed, n - 1) + [s[n - 1]]
  }

  lemma {:induction false} AliveHas(s: seq<nat>, failed: set<nat>, n: nat, x: nat)
    requires n <= |s|
    ensures x in Alive(s, failed, n) <==> x !in failed && x in s[..n]
  {
    if n > 0 {
      AliveHas(s, failed, n - 1, x);
      assert s[..n] == s[..n - 1] + [s[n - 1]];
    }
  }

  lemma {:induction false} AliveNearest(s: seq<nat>, failed: set<nat>, n: nat, key: nat -> nat)
    requires n <= |s| && Nearest(s, key)
    ensures Nearest(Alive(s, failed, n), key)
  {
    if n > 0 && s[n - 1] !in failed {
      AliveNearest(s, failed, n - 1, key);
      var r := Alive(s, failed, n - 1);
      forall i | 0 <= i < |r| ensures key(r[i]) < key(s[n - 1]) {
        AliveHas(s, failed, n - 1, r[i]);
        var k :| 0 <= k < n - 1 && s[k] == r[i];
      }
    } else if n > 0 {
      AliveNearest(s, failed, n - 1, key);
    }
  }

  lemma {:induction false} AlivePrefix(s: seq<nat>, failed: set<nat>, m: nat, n: nat)
    requires m <= n <= |s|
    ensures Alive(s, failed, m) <= Alive(s, failed, n)
  {
    if m < n {
      AlivePrefix(s, failed, m, n - 1);
    }
  }

  /** The first K that have not failed. */
  function Front(s: seq<nat>, failed: set<nat>): seq<nat> {
    Take(Alive(s, failed, |s|), K)
  }

  /** The front is known when K have been found, or at the end of the list. */
  lemma FrontReached(s: seq<nat>, failed: set<nat>, i: nat)
    requires i <= |s| && if |Alive(s, failed, i)| >= K then |Alive(s, failed, i)| == K else i == |s|
    ensures Front(s, failed) == Alive(s, failed, i)
  {
    AlivePrefix(s, failed, i, |s|);
  }

  /** r lists the min(K, |pool|) members of a pool with the least distance, nearest first. */
  ghost predicate ClosestIds(r: seq<nat>, key: nat -> nat, pool: set<nat>) {
    && |r| == (if |pool| < K then |pool| else K)
    && Nearest(r, key) && (forall x :: x in r ==> x in pool)
    && forall x, y :: x in pool && x !in r && y in r ==> key(y) < key(x)
  }

  /** The front of a sorted list is what is closest of all that has not failed. */
  lemma FrontIsClosest(s: seq<nat>, failed: set<nat>, key: nat -> nat)
    requires Nearest(s, key)
    ensures ClosestIds(Front(s, failed), key, Ids(s) - failed)
  {
    var a := Alive(s, failed, |s|);
    AliveNearest(s, failed, |s|, key);
    forall x ensures x in a <==> x in Ids(s) - failed {
      AliveHas(s, failed, |s|, x);
      assert s[..|s|] == s;
    }
    assert Ids(a) == Ids(s) - failed;
    NearestHasNoRepeats(a, key);
    CountIds(a);
    TakeIsClosest(a, key);
  }

  lemma TakeIsClosest(a: seq<nat>, key: nat -> nat)
    requires Nearest(a, key) && |Ids(a)| == |a|
    ensures ClosestIds(Take(a, K), key, Ids(a))
  {
    var r := Take(a, K);
    assert forall k :: 0 <= k < |r| ==> a[k] == r[k] && r[k] in r;
    forall x, y | x in Ids(a) && x !in r && y in r ensures key(y) < key(x) {
      var i :| 0 <= i < |a| && a[i] == x;
      var j :| 0 <= j < |r| && r[j] == y;
      assert a[j] == y;
    }
  }

  /** How many of the first n are in a set. */
  function CountIn(s: seq<nat>, t: set<nat>, n: nat): (c: nat)
    requires n <= |s|
    ensures c <= n
    ensures c == n ==> forall i :: 0 <= i < n ==> s[i] in t
  {
    if n == 0 then 0 else CountIn(s, t, n - 1) + (if s[n - 1] in t then 1 else 0)
  }
}
