/** What the list operations of a bucket keep: members, numbers and time order. */
module KTableLists {
  import opened KTableSpec

  predicate DistinctNums(nodes: seq<NodeInfo>) {
    forall i, j :: 0 <= i < j < |nodes| ==> nodes[i].num != nodes[j].num
  }

  /** Least recently seen first. */
  predicate Chronological(nodes: seq<NodeInfo>) {
    forall i, j :: 0 <= i < j < |nodes| ==> nodes[i].lastSeen <= nodes[j].lastSeen
  }

  function Nums(nodes: seq<NodeInfo>): set<nat> {
    set n | n in nodes :: n.num
  }

  lemma HasNum(nodes: seq<NodeInfo>, num: nat)
    ensures num in Nums(nodes) <==> exists i :: 0 <= i < |nodes| && nodes[i].num == num
  {
    if num in Nums(nodes) {
      var n :| n in nodes && n.num == num;
      var i :| 0 <= i < |nodes| && nodes[i] == n;
    }
    if i :| 0 <= i < |nodes| && nodes[i].num == num {
      assert nodes[i] in nodes;
    }
  }

  function NumsTo(nodes: seq<NodeInfo>, k: nat): set<nat>
    requires k <= |nodes|
  {
    set i | 0 <= i < k :: nodes[i].num
  }

  lemma NumsToAll(nodes: seq<NodeInfo>)
    ensures NumsTo(nodes, |nodes|) == Nums(nodes)
  {
    forall x ensures x in NumsTo(nodes, |nodes|) <==> x in Nums(nodes) {
      HasNum(nodes, x);
    }
  }

  lemma AddOne(s: set<nat>, x: nat)
    ensures |s + {x}| == if x in s then |s| else |s| + 1
  {
    if x in s { assert s + {x} == s; }
  }

  lemma NumsToNext(nodes: seq<NodeInfo>, k: nat)
    requires k < |nodes|
    ensures NumsTo(nodes, k + 1) == NumsTo(nodes, k) + {nodes[k].num}
  {
  }

  predicate DistinctTo(nodes: seq<NodeInfo>, k: nat)
    requires k <= |nodes|
  {
    forall i, j :: 0 <= i < j < k ==> nodes[i].num != nodes[j].num
  }

  lemma DistinctToNext(nodes: seq<NodeInfo>, k: nat)
    requires k < |nodes|
    ensures DistinctTo(nodes, k + 1) <==> DistinctTo(nodes, k) && nodes[k].num !in NumsTo(nodes, k)
  {
    if nodes[k].num in NumsTo(nodes, k) {
      var i :| 0 <= i < k && nodes[i].num == nodes[k].num;
    }
  }

  /** As many numbers as nodes exactly when the numbers are distinct. */
  lemma {:induction false} NumsToCount(nodes: seq<NodeInfo>, k: nat)
    requires k <= |nodes|
    ensures |NumsTo(nodes, k)| <= k
    ensures |NumsTo(nodes, k)| == k <==> DistinctTo(nodes, k)
  {
    if k > 0 {
      NumsToCount(nodes, k - 1);
      NumsToNext(nodes, k - 1);
      DistinctToNext(nodes, k - 1);
      AddOne(NumsTo(nodes, k - 1), nodes[k - 1].num);
    } else {
      assert NumsTo(nodes, k) == {};
    }
  }

  lemma NumsCount(nodes: seq<NodeInfo>)
    ensures |Nums(nodes)| <= |nodes|
    ensures |Nums(nodes)| == |nodes| <==> DistinctNums(nodes)
  {
    NumsToCount(nodes, |nodes|);
    NumsToAll(nodes);
  }

  /** A set of numbers in a range is no larger than the range. */
  lemma {:induction false} RangeBoundsCount(s: set<nat>, lo: nat, hi: nat)
    requires lo <= hi && forall x :: x in s ==> lo <= x < hi
    ensures |s| <= hi - lo
    decreases hi - lo
  {
    if lo == hi {
      assert s == {};
    } else {
      RangeBoundsCount(s - {hi - 1}, lo, hi - 1);
      if hi - 1 in s { assert |s - {hi - 1}| == |s| - 1; } else { assert s - {hi - 1} == s; }
    }
  }

  lemma FindAbsent(nodes: seq<NodeInfo>, num: nat)
    ensures Find(nodes, num) < |nodes| <==> num in Nums(nodes)
  {
    HasNum(nodes, num);
  }

  lemma RemoveAtMembers(nodes: seq<NodeInfo>, i: nat)
    requires DistinctNums(nodes) && i < |nodes|
    ensures forall n :: n in RemoveAt(nodes, i) <==> n in nodes && n.num != nodes[i].num
  {
    var r := RemoveAt(nodes, i);
    forall n ensures n in r <==> n in nodes && n.num != nodes[i].num {
      if n in nodes && n.num != nodes[i].num {
        var k :| 0 <= k < |nodes| && nodes[k] == n;
        assert r[if k < i then k else k - 1] == n;
      }
      if n in r {
        var k :| 0 <= k < |r| && r[k] == n;
        assert nodes[if k < i then k else k + 1] == n;
      }
    }
  }

  lemma RemoveAtKeeps(nodes: seq<NodeInfo>, i: nat)
    requires i < |nodes|
    ensures DistinctNums(nodes) ==> DistinctNums(RemoveAt(nodes, i))
    ensures Chronological(nodes) ==> Chronological(RemoveAt(nodes, i))
  {
    var r := RemoveAt(nodes, i);
    forall k | 0 <= k < |r| ensures r[k] == nodes[if k < i then k else k + 1] { }
  }

  lemma InsertAtMembers(nodes: seq<NodeInfo>, p: nat, n: NodeInfo)
    requires p <= |nodes|
    ensures forall x :: x in InsertAt(nodes, p, n) <==> x in nodes || x == n
  {
    var r := InsertAt(nodes, p, n);
    forall x ensures x in r <==> x in nodes || x == n {
      if x in nodes {
        var k :| 0 <= k < |nodes| && nodes[k] == x;
        assert r[if k < p then k else k + 1] == x;
      }
      if x in r && x != n {
        var k :| 0 <= k < |r| && r[k] == x;
        assert nodes[if k < p then k else k - 1] == x;
      }
      assert r[p] == n;
    }
  }

  lemma NumsOfMore(nodes: seq<NodeInfo>, r: seq<NodeInfo>, n: NodeInfo)
    requires forall x :: x in r <==> x in nodes || x == n
    ensures Nums(r) == Nums(nodes) + {n.num}
  {
  }

  /** Adding a node keeps the numbers distinct exactly when its number is new. */
  lemma InsertAtDistinct(nodes: seq<NodeInfo>, p: nat, n: NodeInfo)
    requires p <= |nodes|
    ensures DistinctNums(InsertAt(nodes, p, n)) <==> DistinctNums(nodes) && n.num !in Nums(nodes)
  {
    InsertAtMembers(nodes, p, n);
    var r := InsertAt(nodes, p, n);
    NumsOfMore(nodes, r, n);
    NumsCount(nodes);
    NumsCount(r);
    AddOne(Nums(nodes), n.num);
  }

  lemma InsertAtChronological(nodes: seq<NodeInfo>, p: nat, n: NodeInfo)
    requires p <= |nodes| && Chronological(nodes)
    requires p < |nodes| ==> nodes[p].lastSeen >= n.lastSeen
    requires p > 0 ==> nodes[p - 1].lastSeen <= n.lastSeen
    ensures Chronological(InsertAt(nodes, p, n))
  {
    var r := InsertAt(nodes, p, n);
    forall k | 0 <= k < p ensures nodes[k].lastSeen <= n.lastSeen {
      if k < p - 1 { assert nodes[k].lastSeen <= nodes[p - 1].lastSeen; }
    }
    forall k | p <= k < |nodes| ensures n.lastSeen <= nodes[k].lastSeen {
      if p < k { assert nodes[p].lastSeen <= nodes[k].lastSeen; }
    }
    forall k | 0 <= k < |r| && k != p ensures r[k] == nodes[if k < p then k else k - 1] { }
  }

  lemma AddByTimeMembers(nodes: seq<NodeInfo>, n: NodeInfo)
    ensures forall x :: x in AddByTime(nodes, n) <==> x in nodes || x == n
    ensures Nums(AddByTime(nodes, n)) == Nums(nodes) + {n.num}
    ensures DistinctNums(AddByTime(nodes, n)) <==> DistinctNums(nodes) && n.num !in Nums(nodes)
  {
    var p := TimePosition(nodes, n, |nodes|);
    InsertAtMembers(nodes, p, n);
    InsertAtDistinct(nodes, p, n);
    NumsOfMore(nodes, AddByTime(nodes, n), n);
  }

  lemma AddByTimeChronological(nodes: seq<NodeInfo>, n: NodeInfo)
    requires Chronological(nodes)
    ensures Chronological(AddByTime(nodes, n))
  {
    InsertAtChronological(nodes, TimePosition(nodes, n, |nodes|), n);
  }

  /** n is at position i of the list or later. */
  ghost predicate InFrom(nodes: seq<NodeInfo>, i: nat, n: NodeInfo) {
    exists j :: i <= j < |nodes| && nodes[j] == n
  }

  ghost predicate InTo(nodes: seq<NodeInfo>, k: nat, n: NodeInfo) {
    exists j :: 0 <= j < k && j < |nodes| && nodes[j] == n
  }

  lemma InToNext(nodes: seq<NodeInfo>, k: nat, n: NodeInfo)
    requires k < |nodes|
    ensures InTo(nodes, k + 1, n) <==> InTo(nodes, k, n) || n == nodes[k]
  {
    if InTo(nodes, k + 1, n) && n != nodes[k] {
      var j :| 0 <= j < k + 1 && j < |nodes| && nodes[j] == n;
    }
  }

  lemma {:induction false} HalvesTo(nodes: seq<NodeInfo>, bound: nat, k: nat, n: NodeInfo)
    requires k <= |nodes|
    ensures n in Below(nodes, bound, k) <==> InTo(nodes, k, n) && n.num < bound
    ensures n in From(nodes, bound, k) <==> InTo(nodes, k, n) && n.num >= bound
    decreases k
  {
    if k > 0 {
      HalvesTo(nodes, bound, k - 1, n);
      InToNext(nodes, k - 1, n);
      if nodes[k - 1].num >= bound { AddByTimeMembers(From(nodes, bound, k - 1), nodes[k - 1]); }
    }
  }

  /** A split sends every node to the half its number belongs to. */
  lemma HalvesMembers(nodes: seq<NodeInfo>, bound: nat)
    ensures forall n :: n in Below(nodes, bound, |nodes|) <==> n in nodes && n.num < bound
    ensures forall n :: n in From(nodes, bound, |nodes|) <==> n in nodes && n.num >= bound
  {
    forall n
      ensures n in Below(nodes, bound, |nodes|) <==> n in nodes && n.num < bound
      ensures n in From(nodes, bound, |nodes|) <==> n in nodes && n.num >= bound
    {
      HalvesTo(nodes, bound, |nodes|, n);
    }
  }

  lemma NotSeenBefore(nodes: seq<NodeInfo>, k: nat, part: seq<NodeInfo>)
    requires DistinctNums(nodes) && k < |nodes|
    requires forall n :: n in part ==> InTo(nodes, k, n)
    ensures nodes[k].num !in Nums(part)
  {
    forall n | n in part ensures n.num != nodes[k].num {
      var j :| 0 <= j < k && nodes[j] == n;
    }
  }

  lemma {:induction false} BelowDistinct(nodes: seq<NodeInfo>, bound: nat, k: nat)
    requires DistinctNums(nodes) && k <= |nodes|
    ensures DistinctNums(Below(nodes, bound, k))
    decreases k
  {
    if k > 0 {
      BelowDistinct(nodes, bound, k - 1);
      var low := Below(nodes, bound, k - 1);
      forall n ensures n in low ==> InTo(nodes, k - 1, n) { HalvesTo(nodes, bound, k - 1, n); }
      NotSeenBefore(nodes, k - 1, low);
      InsertAtDistinct(low, |low|, nodes[k - 1]);
      assert InsertAt(low, |low|, nodes[k - 1]) == low + [nodes[k - 1]];
    }
  }

  lemma FromNumIsNew(nodes: seq<NodeInfo>, bound: nat, k: nat)
    requires DistinctNums(nodes) && k < |nodes|
    ensures nodes[k].num !in Nums(From(nodes, bound, k))
  {
    var high := From(nodes, bound, k);
    forall n ensures n in high ==> InTo(nodes, k, n) { HalvesTo(nodes, bound, k, n); }
    NotSeenBefore(nodes, k, high);
  }

  lemma {:induction false} FromDistinct(nodes: seq<NodeInfo>, bound: nat, k: nat)
    requires DistinctNums(nodes) && k <= |nodes|
    ensures DistinctNums(From(nodes, bound, k))
    decreases k
  {
    if k > 0 {
      FromDistinct(nodes, bound, k - 1);
      FromNumIsNew(nodes, bound, k - 1);
      AddedDistinct(From(nodes, bound, k - 1), nodes[k - 1]);
    }
  }

  lemma AddedDistinct(nodes: seq<NodeInfo>, n: NodeInfo)
    requires DistinctNums(nodes) && n.num !in Nums(nodes)
    ensures DistinctNums(AddByTime(nodes, n))
  {
    AddByTimeMembers(nodes, n);
  }

  lemma {:induction false} FromChronological(nodes: seq<NodeInfo>, bound: nat, k: nat)
    requires k <= |nodes|
    ensures Chronological(From(nodes, bound, k))
    decreases k
  {
    if k > 0 {
      FromChronological(nodes, bound, k - 1);
      if nodes[k - 1].num >= bound { AddByTimeChronological(From(nodes, bound, k - 1), nodes[k - 1]); }
    }
  }

  lemma {:induction false} BelowChronological(nodes: seq<NodeInfo>, bound: nat, k: nat)
    requires Chronological(nodes) && k <= |nodes|
    ensures Chronological(Below(nodes, bound, k))
    decreases k
  {
    if k > 0 {
      BelowChronological(nodes, bound, k - 1);
      var low := Below(nodes, bound, k - 1);
      forall i | 0 <= i < |low| ensures low[i].lastSeen <= nodes[k - 1].lastSeen {
        HalvesTo(nodes, bound, k - 1, low[i]);
        var j :| 0 <= j < k - 1 && nodes[j] == low[i];
      }
    }
  }

  lemma InFromNext(nodes: seq<NodeInfo>, i: nat, n: NodeInfo)
    requires i < |nodes|
    ensures InFrom(nodes, i, n) <==> n == nodes[i] || InFrom(nodes, i + 1, n)
  {
    if InFrom(nodes, i, n) && n != nodes[i] {
      var j :| i <= j < |nodes| && nodes[j] == n;
      assert j >= i + 1;
    }
    assert n == nodes[i] ==> InFrom(nodes, i, n);
  }

  lemma {:induction false} MergeFromMembers(a: seq<NodeInfo>, i: nat, b: seq<NodeInfo>, k: nat, n: NodeInfo)
    requires i <= |a| && k <= |b|
    ensures n in MergeByTime(a, i, b, k) <==> InFrom(a, i, n) || InFrom(b, k, n)
    decreases |a| - i + |b| - k
  {
    if k == |b| {
      assert n in a[i..] <==> InFrom(a, i, n);
    } else if i < |a| && a[i].lastSeen <= b[k].lastSeen {
      MergeFromMembers(a, i + 1, b, k, n);
      InFromNext(a, i, n);
    } else {
      MergeFromMembers(a, i, b, k + 1, n);
      InFromNext(b, k, n);
    }
  }

  lemma MergeMembers(a: seq<NodeInfo>, b: seq<NodeInfo>)
    ensures forall n :: n in MergeByTime(a, 0, b, 0) <==> n in a || n in b
  {
    forall n ensures n in MergeByTime(a, 0, b, 0) <==> n in a || n in b {
      MergeFromMembers(a, 0, b, 0, n);
    }
  }

  /** Merging lists that share no number keeps the numbers distinct. */
  lemma MergeDistinct(a: seq<NodeInfo>, b: seq<NodeInfo>)
    requires DistinctNums(a) && DistinctNums(b) && Nums(a) !! Nums(b)
    ensures DistinctNums(MergeByTime(a, 0, b, 0))
  {
    var m := MergeByTime(a, 0, b, 0);
    MergeMembers(a, b);
    NumsCount(a);
    NumsCount(b);
    NumsCount(m);
    assert Nums(m) == Nums(a) + Nums(b);
    assert |Nums(a) + Nums(b)| == |Nums(a)| + |Nums(b)|;
  }

  lemma PrependChronological(x: NodeInfo, rest: seq<NodeInfo>)
    requires Chronological(rest) && forall n :: n in rest ==> x.lastSeen <= n.lastSeen
    ensures Chronological([x] + rest)
  {
    forall j | 0 <= j < |rest| ensures x.lastSeen <= rest[j].lastSeen { assert rest[j] in rest; }
  }

  lemma OldestFrom(a: seq<NodeInfo>, i: nat, t: int)
    requires Chronological(a) && (i < |a| ==> t <= a[i].lastSeen)
    ensures forall n :: InFrom(a, i, n) ==> t <= n.lastSeen
  {
    forall n | InFrom(a, i, n) ensures t <= n.lastSeen {
      var j :| i <= j < |a| && a[j] == n;
      if i < j { assert a[i].lastSeen <= a[j].lastSeen; }
    }
  }

  lemma {:induction false} MergeChronological(a: seq<NodeInfo>, i: nat, b: seq<NodeInfo>, k: nat)
    requires Chronological(a) && Chronological(b) && i <= |a| && k <= |b|
    ensures Chronological(MergeByTime(a, i, b, k))
    decreases |a| - i + |b| - k
  {
    if k < |b| {
      var fromA := i < |a| && a[i].lastSeen <= b[k].lastSeen;
      var i', k' := if fromA then i + 1 else i, if fromA then k else k + 1;
      var x := if fromA then a[i] else b[k];
      MergeChronological(a, i', b, k');
      var rest := MergeByTime(a, i', b, k');
      OldestFrom(a, i', x.lastSeen);
      OldestFrom(b, k', x.lastSeen);
      forall n | n in rest ensures x.lastSeen <= n.lastSeen { MergeFromMembers(a, i', b, k', n); }
      PrependChronological(x, rest);
    }
  }

  /** Of the nodes from position i on, those last seen at a time, in order. */
  function SeenAt(nodes: seq<NodeInfo>, i: nat, time: int): seq<NodeInfo>
    requires i <= |nodes|
    decreases |nodes| - i
  {
    if i == |nodes| then []
    else (if nodes[i].lastSeen == time then [nodes[i]] else []) + SeenAt(nodes, i + 1, time)
  }

  lemma {:induction false} NoneSeenAt(nodes: seq<NodeInfo>, i: nat, time: int)
    requires i <= |nodes| && forall j :: i <= j < |nodes| ==> nodes[j].lastSeen != time
    ensures SeenAt(nodes, i, time) == []
    decreases |nodes| - i
  {
    if i < |nodes| { NoneSeenAt(nodes, i + 1, time); }
  }

  lemma {:induction false} SeenAtTail(nodes: seq<NodeInfo>, i: nat, k: nat, time: int)
    requires i + k <= |nodes|
    ensures SeenAt(nodes[i..], k, time) == SeenAt(nodes, i + k, time)
    decreases |nodes| - i - k
  {
    if i + k < |nodes| { SeenAtTail(nodes, i, k + 1, time); }
  }

  lemma SeenAtPrepended(x: NodeInfo, rest: seq<NodeInfo>, all: seq<NodeInfo>, time: int)
    requires all == [x] + rest
    ensures x.lastSeen == time ==> SeenAt(all, 0, time) == [x] + SeenAt(rest, 0, time)
    ensures x.lastSeen != time ==> SeenAt(all, 0, time) == SeenAt(rest, 0, time)
  {
    assert all[1..] == rest;
    SeenAtTail(all, 1, 0, time);
  }

  /** Of nodes last seen at the same time, those of the first list come first in the merge, each list in its own
      order: with the order of times, this leaves one merge only. */
  predicate Stable(merged: seq<NodeInfo>, a: seq<NodeInfo>, i: nat, b: seq<NodeInfo>, k: nat, time: int)
    requires i <= |a| && k <= |b|
  {
    SeenAt(merged, 0, time) == SeenAt(a, i, time) + SeenAt(b, k, time)
  }

  lemma StableFirst(rest: seq<NodeInfo>, all: seq<NodeInfo>, a: seq<NodeInfo>, i: nat, b: seq<NodeInfo>, k: nat,
                    time: int)
    requires i < |a| && k <= |b| && Stable(rest, a, i + 1, b, k, time) && all == [a[i]] + rest
    ensures Stable(all, a, i, b, k, time)
  {
    SeenAtPrepended(a[i], rest, all, time);
  }

  lemma StableSecond(rest: seq<NodeInfo>, all: seq<NodeInfo>, a: seq<NodeInfo>, i: nat, b: seq<NodeInfo>, k: nat,
                     time: int)
    requires i <= |a| && k < |b| && Stable(rest, a, i, b, k + 1, time) && all == [b[k]] + rest
    requires forall j :: i <= j < |a| ==> a[j].lastSeen > b[k].lastSeen
    ensures Stable(all, a, i, b, k, time)
  {
    SeenAtPrepended(b[k], rest, all, time);
    if b[k].lastSeen == time { NoneSeenAt(a, i, time); }
  }

  lemma {:induction false} MergeStable(a: seq<NodeInfo>, i: nat, b: seq<NodeInfo>, k: nat, time: int)
    requires Chronological(a) && i <= |a| && k <= |b|
    ensures Stable(MergeByTime(a, i, b, k), a, i, b, k, time)
    decreases |a| - i + |b| - k
  {
    if k == |b| {
      SeenAtTail(a, i, 0, time);
    } else if i < |a| && a[i].lastSeen <= b[k].lastSeen {
      MergeStable(a, i + 1, b, k, time);
      StableFirst(MergeByTime(a, i + 1, b, k), MergeByTime(a, i, b, k), a, i, b, k, time);
    } else {
      MergeStable(a, i, b, k + 1, time);
      StableSecond(MergeByTime(a, i, b, k + 1), MergeByTime(a, i, b, k), a, i, b, k, time);
    }
  }
}
