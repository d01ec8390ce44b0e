/** The routing table as the program keeps it: a list of bucket objects, split, merged and
    searched in place. Each method is proved against the operation of KTableSpec. */
module KTable {
  import opened Options
  import opened Bits
  import opened KTableSpec
  import opened KTableShape
  import opened KTableLists
  import opened KTableInvariant
  import opened KTableInsert
  import opened KTableUpkeep
  import opened KTableLookup
  import opened KTableRuns
  import opened KBuckets

  /** What insertNode returns: True, False, or the node object to ping before trying again. */
  datatype Outcome = Done | NeedsContact | Pinged(oldest: Node) | Full

  ghost predicate Agrees(out: Outcome, r: InsertResult)
    reads if out.Pinged? then {out.oldest} else {}
  {
    match out
    case Done => r == Inserted
    case NeedsContact => r == NotContacted
    case Pinged(n) => r == Oldest(n.Info())
    case Full => r == TableFull
  }

  function NodeDistance(num: nat): Node -> nat {
    (n: Node) => Xor(num, n.num)
  }

  lemma AppendTwoInfos(xs: seq<Node>, ys: seq<Node>, zs: seq<Node>)
    ensures Infos(xs + ys + zs) == Infos(xs) + Infos(ys) + Infos(zs)
  {
  }

  lemma {:induction false} KeyPositionInfos(ns: seq<Node>, x: Node, num: nat, i: nat)
    requires i <= |ns|
    ensures KeyPosition(ns, x, NodeDistance(num), i) == KeyPosition(Infos(ns), x.Info(), Distance(num), i)
    decreases |ns| - i
  {
    if i < |ns| && Xor(num, x.num) >= Xor(num, ns[i].num) {
      KeyPositionInfos(ns, x, num, i + 1);
    }
  }

  /** Sorting the node objects sorts what they hold. */
  lemma {:induction false} SortInfos(ns: seq<Node>, num: nat, k: nat)
    requires k <= |ns|
    ensures Infos(SortBy(ns, NodeDistance(num), k)) == SortBy(Infos(ns), Distance(num), k)
    decreases k
  {
    if k > 0 {
      SortInfos(ns, num, k - 1);
      var sorted := SortBy(ns, NodeDistance(num), k - 1);
      KeyPositionInfos(sorted, ns[k - 1], num, 0);
      InsertInfos(sorted, KeyPosition(sorted, ns[k - 1], NodeDistance(num), 0), ns[k - 1]);
    }
  }

  lemma TakeInfos(ns: seq<Node>, n: nat)
    ensures Infos(Take(ns, n)) == Take(Infos(ns), n)
  {
  }

  /** The nodes collected so far, r buckets to each side, on the way to all that the search collects. */
  ghost predicate Spreading(bs: seq<Bucket>, i: nat, r: nat, infos: seq<NodeInfo>, all: seq<NodeInfo>)
    requires i < |bs|
  {
    forall x: nat :: x == r ==> infos == Around(bs, i, x) && all == Around(bs, i, Spread(bs, i, x))
  }

  lemma AroundWider(bs: seq<Bucket>, i: nat, r: nat, min: int, max: int)
    requires min == i - 1 - r && max == i + 1 + r
    ensures Around(bs, i, r + 1) == Around(bs, i, r) + NodesAt(bs, min) + NodesAt(bs, max)
  {
    assert i - (r + 1) == min && i + (r + 1) == max;
  }

  lemma SpreadWider(bs: seq<Bucket>, i: nat, r: nat, min: int, max: int, infos: seq<NodeInfo>, all: seq<NodeInfo>)
    requires i < |bs| && Spreading(bs, i, r, infos, all)
    requires min == i - 1 - r && max == i + 1 + r
    requires |infos| < K && (min >= 0 || max < |bs|)
    ensures Spreading(bs, i, r + 1, infos + NodesAt(bs, min) + NodesAt(bs, max), all)
  {
    SpreadStep(bs, i, r);
    AroundWider(bs, i, r, min, max);
  }

  lemma SpreadStarts(bs: seq<Bucket>, i: nat, all: seq<NodeInfo>)
    requires i < |bs| && all == Around(bs, i, Spread(bs, i, 0))
    ensures Spreading(bs, i, 0, bs[i].nodes, all)
  {
  }

  lemma SpreadEnds(bs: seq<Bucket>, i: nat, r: nat, min: int, max: int, infos: seq<NodeInfo>, all: seq<NodeInfo>)
    requires i < |bs| && Spreading(bs, i, r, infos, all)
    requires min == i - 1 - r && max == i + 1 + r
    requires |infos| >= K || (min < 0 && max >= |bs|)
    ensures infos == all
  {
    assert Spread(bs, i, r) == r;
  }

  /** A list after its number's node has answered. */
  function Recording(nodes: seq<NodeInfo>, num: nat, now: int): seq<NodeInfo> {
    var j := Find(nodes, num);
    AddByTime(if j < |nodes| then RemoveAt(nodes, j) else nodes, NodeInfo(num, now, 0))
  }

  /** A pass of insertNode on a bucket that holds the number or has room. */
  lemma PassRecords(t: Table, num: nat, i: nat, contacted: bool, now: int)
    requires num != t.self && i == IndexFor(t.buckets, num) < |t.buckets|
    requires Find(t.buckets[i].nodes, num) < |t.buckets[i].nodes| || |t.buckets[i].nodes| < K
    ensures InsertOnce(t, num, contacted, now)
            == Finish(if contacted || Find(t.buckets[i].nodes, num) < |t.buckets[i].nodes| then Inserted
                      else NotContacted,
                      if contacted
                      then t.(buckets := SetNodes(t.buckets, i, Recording(t.buckets[i].nodes, num, now))) else t)
  {
  }

  lemma SetNodesTwice(bs: seq<Bucket>, i: nat, xs: seq<NodeInfo>, ys: seq<NodeInfo>)
    requires i < |bs|
    ensures SetNodes(SetNodes(bs, i, xs), i, ys) == SetNodes(bs, i, ys)
  {
  }

  class KTable {
    const node: Node
    const maxFailures: int
    var buckets: seq<KBucket>
    ghost var Repr: set<object>

    constructor (node: Node, maxFailures: int)
      requires 0 < node.num < Pow2(HASH_BITS) && maxFailures >= 1
      ensures Valid() && View() == Empty(node.num)
      ensures this.node == node && this.maxFailures == maxFailures
      ensures fresh(Repr)
    {
      this.node, this.maxFailures := node, maxFailures;
      var b := new KBucket([], 0, Pow2(HASH_BITS));
      buckets := [b];
      Repr := {this, b};
      new;
      NewIsValid(b);
    }

    lemma NewIsValid(b: KBucket)
      requires Covered() && maxFailures >= 1 && node.num < Pow2(HASH_BITS)
      requires buckets == [b] && b.nodes == [] && b.min == 0 && b.max == Pow2(HASH_BITS)
      ensures Valid() && View() == Empty(node.num)
    {
      assert View().buckets == Empty(node.num).buckets;
      EmptyInv(node.num, maxFailures);
    }

    /** The objects the table consists of. */
    ghost predicate Covered()
      reads this, Repr
    {
      && this in Repr
      && (forall b :: b in buckets ==> b in Repr)
      && (forall b, n :: b in buckets && n in b.nodes ==> n in Repr)
    }

    ghost function View(): (t: Table)
      requires Covered()
      reads this, Repr
      ensures t.self == node.num && |t.buckets| == |buckets|
      ensures forall i :: 0 <= i < |buckets| ==> t.buckets[i] == buckets[i].View()
    {
      Table(node.num, seq(|buckets|, i requires 0 <= i < |buckets| && Covered() reads this, Repr => buckets[i].View()))
    }

    /** The invariant of every reachable table. */
    ghost predicate Valid()
      reads this, Repr
    {
      Covered() && maxFailures >= 1 && Inv(View(), maxFailures)
    }

    /** The bisection of the standard library, with the bucket comparison of KBucket. */
    method BucketIndexForInt(num: nat) returns (i: nat)
      requires Covered()
      ensures i == IndexFor(View().buckets, num)
    {
      var lo, hi := 0, |buckets|;
      while lo < hi
        invariant 0 <= lo <= hi <= |buckets|
        invariant IndexFor(View().buckets, num) == Bisect(View().buckets, num, lo, hi)
      {
        var mid := (lo + hi) / 2;
        if buckets[mid].max <= num {
          lo := mid + 1;
        } else {
          hi := mid;
        }
      }
      i := lo;
    }

    // ----- Looking up

    /** One step of the search: the nodes so far and those of the buckets at two places, as far as they exist. */
    method Widen(nodes: seq<Node>, min: int, max: int) returns (wider: seq<Node>)
      requires Covered() && min < |buckets| && max >= 0
      ensures Infos(wider) == Infos(nodes) + NodesAt(View().buckets, min) + NodesAt(View().buckets, max)
    {
      var left := if min >= 0 then buckets[min].nodes else [];
      var right := if max < |buckets| then buckets[max].nodes else [];
      AppendTwoInfos(nodes, left, right);
      wider := nodes + left + right;
    }

    /** A step keeps the search on its way. */
    method WidenOnce(nodes: seq<Node>, ghost i: nat, ghost r: nat, min: int, max: int, ghost all: seq<NodeInfo>)
      returns (wider: seq<Node>)
      requires Covered() && i < |buckets| && min == i - 1 - r && max == i + 1 + r
      requires |nodes| < K && (min >= 0 || max < |buckets|) && Spreading(View().buckets, i, r, Infos(nodes), all)
      ensures Spreading(View().buckets, i, r + 1, Infos(wider), all)
    {
      SpreadWider(View().buckets, i, r, min, max, Infos(nodes), all);
      wider := Widen(nodes, min, max);
    }

    /** The nodes of a bucket and, while there are fewer than K, of the buckets next to it on both sides. */
    method Collect(i: nat) returns (nodes: seq<Node>)
      requires Covered() && i < |buckets|
      ensures Infos(nodes) == Around(View().buckets, i, Spread(View().buckets, i, 0))
    {
      ghost var all, r := Around(View().buckets, i, Spread(View().buckets, i, 0)), 0;
      nodes := buckets[i].nodes;
      SpreadStarts(View().buckets, i, all);
      var min: int, max: int := i - 1, i + 1;
      while |nodes| < K && (min >= 0 || max < |buckets|)
        invariant min == i - 1 - r && max == i + 1 + r
        invariant Spreading(View().buckets, i, r, Infos(nodes), all)
        decreases |buckets| - r
      {
        nodes := WidenOnce(nodes, i, r, min, max, all);
        min, max, r := min - 1, max + 1, r + 1;
      }
      SpreadEnds(View().buckets, i, r, min, max, Infos(nodes), all);
    }

    /** The K nodes of the table closest to an ID, as ExactNearSelf and AnswerIsClosestVisited qualify. */
    method FindNodes(num: nat) returns (found: seq<Node>)
      requires Covered() && IndexFor(View().buckets, num) < |buckets|
      ensures IndexFor(View().buckets, num) < |buckets|
      ensures Infos(found) == KTableSpec.FindNodes(View(), num)
    {
      var i := BucketIndexForInt(num);
      var nodes := Collect(i);
      SortInfos(nodes, num, |nodes|);
      TakeInfos(SortBy(nodes, NodeDistance(num), |nodes|), K);
      found := Take(SortBy(nodes, NodeDistance(num), |nodes|), K);
    }

    // ----- Changing buckets

    ghost predicate Separate()
      reads this
    {
      forall i, j :: 0 <= i < j < |buckets| ==> buckets[i] != buckets[j]
    }

    /** Merge a bucket that lost a node with its twin, and go on from there. */
    method MergeBucket(i: nat)
      requires Covered() && Separate() && i < |buckets|
      modifies Repr
      ensures Covered() && Repr == old(Repr)
      ensures View() == old(View()).(buckets := MergeFrom(old(View().buckets), i))
      decreases |buckets|
    {
      var other := Partner(i);
      if other < |buckets| {
        var merged := MergeInto(i, other);
        if merged {
          MergeBucket(Min(i, other));
        }
      }
    }

    /** The neighbour of the same width, the left one first. */
    method Partner(i: nat) returns (other: nat)
      requires Covered() && i < |buckets|
      ensures other == MergePartner(View().buckets, i)
    {
      var bucketRange := buckets[i].max - buckets[i].min;
      if i >= 1 && buckets[i - 1].max - buckets[i - 1].min == bucketRange {
        return i - 1;
      } else if i + 1 < |buckets| && buckets[i + 1].max - buckets[i + 1].min == bucketRange {
        return i + 1;
      }
      return |buckets|;
    }

    /** Merge bucket j into bucket i, if all fit, and drop it from the list. */
    method MergeInto(i: nat, j: nat) returns (merged: bool)
      requires Covered() && Separate() && i < |buckets| && j < |buckets| && i != j
      modifies Repr
      ensures Covered() && Separate() && Repr == old(Repr)
      ensures var vs := old(View().buckets);
              && (merged <==> |vs[i].nodes| + |vs[j].nodes| <= K)
              && View() == old(View()).(buckets := if merged then RemoveAt(vs[i := MergedBucket(vs[i], vs[j])], j)
                 else vs)
    {
      ghost var vs := View().buckets;
      label before:
      assert forall k :: 0 <= k < |buckets| && k != i ==> buckets[k] != buckets[i];
      merged := buckets[i].Merge(buckets[j]);
      assert forall k :: 0 <= k < |buckets| && k != i ==> buckets[k].View() == old@before(buckets[k].View());
      if merged {
        assert View().buckets == vs[i := MergedBucket(vs[i], vs[j])];
        DropBucket(j);
      }
    }

    method DropBucket(j: nat)
      requires Covered() && Separate() && j < |buckets|
      modifies this`buckets
      ensures Covered() && Separate()
      ensures View() == old(View()).(buckets := RemoveAt(old(View().buckets), j))
    {
      buckets := RemoveAt(buckets, j);
      assert View().buckets == RemoveAt(old(View().buckets), j);
    }

    /** Only the nodes of bucket i have changed. */
    twostate lemma OneBucketChanged(i: nat)
      requires old(Covered()) && Covered() && buckets == old(buckets) && i < |buckets|
      requires buckets[i].min == old(buckets[i].min) && buckets[i].max == old(buckets[i].max)
      requires forall k :: 0 <= k < |buckets| && k != i ==> buckets[k].View() == old(buckets[k].View())
      ensures View() == old(View()).(buckets := SetNodes(old(View().buckets), i, Infos(buckets[i].nodes)))
    {
      assert View().buckets == SetNodes(old(View().buckets), i, Infos(buckets[i].nodes));
    }

    /** Put a node object into bucket i. */
    method AddTo(i: nat, n: Node)
      requires Covered() && Separate() && i < |buckets|
      modifies buckets[i], this`Repr
      ensures Covered() && Separate() && Repr == old(Repr) + {n}
      ensures View() == old(View()).(buckets := SetNodes(old(View().buckets), i,
                          AddByTime(old(View().buckets[i].nodes), n.Info())))
    {
      label before:
      buckets[i].Add(n);
      Repr := Repr + {n};
      assert forall k :: 0 <= k < |buckets| && k != i ==> buckets[k] != buckets[i];
      assert forall k :: 0 <= k < |buckets| && k != i ==> buckets[k].View() == old@before(buckets[k].View());
      OneBucketChanged@before(i);
    }

    /** Take the node with this number out of bucket i. */
    method RemoveFrom(i: nat, num: nat) returns (found: bool)
      requires Covered() && Separate() && i < |buckets|
      modifies buckets[i]
      ensures Covered() && Separate()
      ensures var nodes := old(View().buckets[i].nodes);
              var j := Find(nodes, num);
              && (found <==> j < |nodes|)
              && View() == old(View()).(buckets := SetNodes(old(View().buckets), i, if found then RemoveAt(nodes, j)
                 else nodes))
    {
      label before:
      found := buckets[i].Remove(num);
      assert forall k :: 0 <= k < |buckets| && k != i ==> buckets[k] != buckets[i];
      assert forall k :: 0 <= k < |buckets| && k != i ==> buckets[k].View() == old@before(buckets[k].View());
      OneBucketChanged@before(i);
    }

    /** The argument answered: note the time on it. Only a record of the same number can change with it. */
    method Stamp(i: nat, n: Node, now: int)
      requires Covered() && i < |buckets| && DistinctNums(View().buckets[i].nodes)
      requires forall k :: 0 <= k < |buckets| && k != i ==> n !in buckets[k].nodes
      modifies n
      ensures n.Info() == NodeInfo(n.num, now, 0)
      ensures Covered() && SameExcept(old(View()), View(), i, n.num)
    {
      label before:
      n.UpdateLastSeen(now);
      assert forall k :: 0 <= k < |buckets| && k != i ==> buckets[k].View() == old@before(buckets[k].View());
      forall k | 0 <= k < |buckets[i].nodes| && buckets[i].nodes[k].num != n.num
        ensures buckets[i].nodes[k].Info() == old@before(buckets[i].nodes[k].Info()) { }
    }

    /** The argument is held already: the held record goes, the argument takes its place. */
    method Reinsert(i: nat, n: Node, now: int)
      requires Covered() && Separate() && i < |buckets| && DistinctNums(View().buckets[i].nodes)
      requires Find(View().buckets[i].nodes, n.num) < |buckets[i].nodes|
      requires forall k :: 0 <= k < |buckets| && k != i ==> n !in buckets[k].nodes
      modifies Repr, n
      ensures Covered() && Repr == old(Repr) + {n} && n.Info() == NodeInfo(n.num, now, 0)
      ensures View() == old(View()).(buckets := SetNodes(old(View().buckets), i,
                          Recording(old(View().buckets[i].nodes), n.num, now)))
    {
      ghost var t := View();
      Stamp(i, n, now);
      RemoveHidesChange(t.buckets[i].nodes, View().buckets[i].nodes, n.num);
      assert View().buckets == SetNodes(t.buckets, i, View().buckets[i].nodes);
      ghost var kept := RemoveAt(t.buckets[i].nodes, Find(t.buckets[i].nodes, n.num));
      var found := RemoveFrom(i, n.num);
      SetNodesTwice(t.buckets, i, View().buckets[i].nodes, kept);
      assert View().buckets == SetNodes(t.buckets, i, kept);
      AddTo(i, n);
      SetNodesTwice(t.buckets, i, kept, AddByTime(kept, n.Info()));
    }

    /** The argument is not held and its bucket has room. */
    method Place(i: nat, n: Node, now: int)
      requires Covered() && Separate() && i < |buckets| && DistinctNums(View().buckets[i].nodes)
      requires Find(View().buckets[i].nodes, n.num) == |buckets[i].nodes|
      requires forall k :: 0 <= k < |buckets| && k != i ==> n !in buckets[k].nodes
      modifies Repr, n
      ensures Covered() && Repr == old(Repr) + {n} && n.Info() == NodeInfo(n.num, now, 0)
      ensures View() == old(View()).(buckets := SetNodes(old(View().buckets), i,
                          Recording(old(View().buckets[i].nodes), n.num, now)))
    {
      ghost var t := View();
      Stamp(i, n, now);
      RemoveHidesChange(t.buckets[i].nodes, View().buckets[i].nodes, n.num);
      assert View().buckets == t.buckets;
      AddTo(i, n);
    }

    /** list.insert for a new bucket. */
    method InsertBucket(i: nat, b: KBucket)
      requires Covered() && i <= |buckets| && forall n :: n in b.nodes ==> n in Repr
      modifies this
      ensures Covered() && Repr == old(Repr) + {b}
      ensures View() == old(View()).(buckets := InsertAt(old(View().buckets), i, b.View()))
    {
      buckets := InsertAt(buckets, i, b);
      Repr := Repr + {b};
      assert View().buckets == InsertAt(old(View().buckets), i, b.View());
    }

    /** Cut bucket i to its lower half; the new bucket is the upper half. */
    method Halve(i: nat) returns (newBucket: KBucket)
      requires Covered() && Separate() && i < |buckets| && buckets[i].min <= buckets[i].max
      modifies buckets[i]
      ensures Covered() && fresh(newBucket) && forall n :: n in newBucket.nodes ==> n in Repr
      ensures newBucket.View() == UpperHalf(old(View().buckets[i]))
      ensures View() == old(View()).(buckets := old(View().buckets)[i := LowerHalf(old(View().buckets[i]))])
    {
      ghost var t := View();
      label before:
      newBucket := buckets[i].Split();
      assert forall k :: 0 <= k < |buckets| && k != i ==> buckets[k] != buckets[i];
      assert forall k :: 0 <= k < |buckets| && k != i ==> buckets[k].View() == old@before(buckets[k].View());
      assert View().buckets == t.buckets[i := LowerHalf(t.buckets[i])];
    }

    /** Split bucket i and put the new upper half right after it. */
    method SplitBucket(i: nat)
      requires Covered() && Separate() && i < |buckets| && buckets[i].min <= buckets[i].max
      modifies Repr
      ensures Covered() && fresh(Repr - old(Repr)) && old(Repr) <= Repr
      ensures View() == old(View()).(buckets := SplitAt(old(View().buckets), i))
    {
      var newBucket := Halve(i);
      InsertBucket(i + 1, newBucket);
    }

    // ----- The operations

    /** The argument answered: it replaces the record held of it, or is added where there is room. */
    method Record(i: nat, n: Node, held: bool, now: int)
      requires Covered() && Separate() && i < |buckets| && DistinctNums(View().buckets[i].nodes)
      requires held <==> Find(View().buckets[i].nodes, n.num) < |View().buckets[i].nodes|
      requires forall k :: 0 <= k < |buckets| && k != i ==> n !in buckets[k].nodes
      modifies Repr, n
      ensures Covered() && Repr == old(Repr) + {n}
      ensures View() == old(View()).(buckets := SetNodes(old(View().buckets), i,
                          Recording(old(View().buckets[i].nodes), n.num, now)))
    {
      if held {
        Reinsert(i, n, now);
      } else {
        Place(i, n, now);
      }
    }

    /** What the methods on a number need to know of its bucket. */
    ghost predicate Ready(num: nat)
      requires Covered()
      reads this, Repr
    {
      && Separate() && IndexFor(View().buckets, num) < |buckets|
      && var i := IndexFor(View().buckets, num);
         && DistinctNums(View().buckets[i].nodes)
         && View().buckets[i].min <= View().buckets[i].max
         && forall k, n :: 0 <= k < |buckets| && k != i && n in buckets[k].nodes ==> n.num != num
    }

    /** The invariant makes every number ready. */
    lemma ValidIsReady(num: nat)
      requires Valid() && num < Pow2(HASH_BITS)
      ensures Ready(num)
    {
      ValidIsSeparate();
      var t := View();
      HeldOnlyInItsBucket(t, num, maxFailures);
      var i := IndexFor(t.buckets, num);
      assert BucketOk(t.buckets[i], t.self, maxFailures);
      forall k, n | 0 <= k < |buckets| && k != i && n in buckets[k].nodes ensures n.num != num {
        var m :| 0 <= m < |buckets[k].nodes| && buckets[k].nodes[m] == n;
        assert t.buckets[k].nodes[m] in t.buckets[k].nodes;
      }
    }

    lemma ValidIsSeparate()
      requires Valid()
      ensures Separate() && forall k :: 0 <= k < |buckets| ==> View().buckets[k].min <= View().buckets[k].max
    {
      var t := View();
      ShapeContiguous(t.buckets, t.self);
      forall k, l | 0 <= k < l < |buckets| ensures buckets[k] != buckets[l] {
        assert t.buckets[k].max <= t.buckets[l].min && t.buckets[l].min < t.buckets[l].max;
      }
    }

    /** A node answered to be pinged is an object of the table, the first of its bucket. */
    ghost predicate PingsFirst(out: Outcome)
      reads this`buckets, buckets
    {
      out.Pinged? ==> exists i :: 0 <= i < |buckets| && |buckets[i].nodes| > 0 && out.oldest == buckets[i].nodes[0]
    }

    /** One pass of insertNode. */
    method InsertPass(n: Node, contacted: bool, now: int) returns (again: bool, out: Outcome)
      requires Covered() && Ready(n.num)
      modifies Repr, n
      ensures Covered() && fresh(Repr - old(Repr) - {n})
      ensures var s := InsertOnce(old(View()), n.num, contacted, now);
              && View() == s.table
              && again == s.Again?
              && (!again ==> Agrees(out, s.result))
      ensures PingsFirst(out)
    {
      if n.num == node.num {
        return false, Done;
      }
      var i := BucketIndexForInt(n.num);
      var nodes := buckets[i].nodes;
      var j := IndexOf(nodes, n.num);
      if j < |nodes| || |nodes| < K {
        PassRecords(View(), n.num, i, contacted, now);
        if contacted {
          Record(i, n, j < |nodes|, now);
        }
        return false, if contacted || j < |nodes| then Done else NeedsContact;
      }
      again, out := InsertIntoFull(i, n, contacted, now);
    }

    /** A pass on a full bucket without the number. */
    method InsertIntoFull(i: nat, n: Node, ghost contacted: bool, ghost now: int) returns (again: bool, out: Outcome)
      requires Covered() && Separate() && i == IndexFor(View().buckets, n.num) < |buckets| && n.num != node.num
      requires |buckets[i].nodes| == Find(View().buckets[i].nodes, n.num) >= K
      requires buckets[i].min <= buckets[i].max
      modifies Repr
      ensures Covered() && fresh(Repr - old(Repr))
      ensures var s := InsertOnce(old(View()), n.num, contacted, now);
              && View() == s.table
              && again == s.Again?
              && (!again ==> Agrees(out, s.result))
      ensures PingsFirst(out)
    {
      if !(buckets[i].min <= node.num < buckets[i].max) {
        return false, Pinged(buckets[i].nodes[0]);
      }
      if |buckets| >= HASH_BITS {
        return false, Full;
      }
      SplitBucket(i);
      return true, Done;
    }

    /** insertNode. */
    method InsertNode(n: Node, contacted: bool, now: int) returns (out: Outcome)
      requires Valid() && 0 < n.num < Pow2(HASH_BITS)
      modifies Repr, n
      ensures Valid() && fresh(Repr - old(Repr) - {n})
      ensures View() == Insert(old(View()), n.num, contacted, now).1
      ensures Agrees(out, Insert(old(View()), n.num, contacted, now).0) && PingsFirst(out)
      decreases if |buckets| < HASH_BITS then HASH_BITS - |buckets| else 0
    {
      ValidIsReady(n.num);
      PassKeepsInv(View(), n.num, contacted, now, maxFailures);
      var again;
      again, out := InsertPass(n, contacted, now);
      if again {
        out := InsertNode(n, true, now);
      }
    }

    /** The new node takes the free place if it belongs to bucket i and fits; otherwise a bucket
        that lost a node is merged. */
    method FillOrMerge(i: nat, removed: bool, new_: Node?)
      requires Covered() && Separate() && i < |buckets|
      modifies Repr
      ensures Covered() && Repr <= old(Repr) + (if new_ == null then {} else {new_})
      ensures View() == Filled(old(View()), i, removed, if new_ == null then None else Some(old(new_.Info())))
    {
      if new_ != null {
        var j := BucketIndexForInt(new_.num);
        if j == i && |buckets[i].nodes| < K {
          AddTo(i, new_);
          return;
        }
      }
      if removed {
        MergeBucket(i);
      }
    }

    /** replaceStaleNode: drop the stale node, put the new one in its place or merge. */
    method ReplaceStaleNode(stale: nat, new_: Node?)
      requires Covered() && Separate() && IndexFor(View().buckets, stale) < |buckets|
      modifies Repr
      ensures Covered() && Repr <= old(Repr) + (if new_ == null then {} else {new_})
      ensures View() == ReplaceStale(old(View()), stale, if new_ == null then None else Some(old(new_.Info())))
    {
      ghost var t := View();
      var i := BucketIndexForInt(stale);
      var removed := RemoveFrom(i, stale);
      ReplaceInTwoSteps(t, stale, if new_ == null then None else Some(new_.Info()));
      FillOrMerge(i, removed, new_);
    }

    /** invalidateNode: forget a node. */
    method InvalidateNode(n: nat)
      requires Valid() && n < Pow2(HASH_BITS)
      modifies Repr
      ensures Valid() && Repr <= old(Repr)
      ensures View() == ReplaceStale(old(View()), n, None)
    {
      ValidIsReady(n);
      DropCorrect(View(), n, maxFailures);
      ReplaceStaleNode(n, null);
    }

    /** Refresh a number in bucket i. */
    method RefreshIn(i: nat, num: nat, now: int) returns (tstamp: Option<int>)
      requires Covered() && Separate() && i < |buckets| && DistinctNums(View().buckets[i].nodes)
      requires forall k, n :: 0 <= k < |buckets| && k != i && n in buckets[k].nodes ==> n.num != num
      modifies Repr
      ensures Covered() && Repr == old(Repr)
      ensures var nodes := old(View().buckets[i].nodes);
              var j := Find(nodes, num);
              tstamp == if j < |nodes| then Some(nodes[j].lastSeen) else None
      ensures View() == old(View()).(buckets := SetNodes(old(View().buckets), i,
              Refreshed(old(View().buckets[i].nodes), num, now)))
    {
      label before:
      assert forall k :: 0 <= k < |buckets| && k != i ==> buckets[k] != buckets[i];
      tstamp := buckets[i].JustSeen(num, now);
      assert forall k :: 0 <= k < |buckets| && k != i ==> buckets[k].View() == old@before(buckets[k].View());
      OneBucketChanged@before(i);
    }

    /** justSeenNode: a message came in; the time it replaces is returned. */
    method JustSeenNode(num: nat, now: int) returns (tstamp: Option<int>)
      requires Valid() && num < Pow2(HASH_BITS)
      modifies Repr
      ensures Valid() && Repr == old(Repr)
      ensures (tstamp, View()) == JustSeen(old(View()), num, now)
    {
      ghost var t := View();
      ValidIsReady(num);
      JustSeenCorrect(t, num, now, maxFailures);
      var i := BucketIndexForInt(num);
      SeenIsRefreshed(t, num, now);
      tstamp := RefreshIn(i, num, now);
    }

    /** Count a failure on one node object. */
    method CountFailure(i: nat, j: nat) returns (count: int)
      requires Covered() && i < |buckets| && j < |buckets[i].nodes|
      requires Ready(buckets[i].nodes[j].num) && i == IndexFor(View().buckets, buckets[i].nodes[j].num)
      modifies buckets[i].nodes[j]
      ensures Covered() && count == old(buckets[i].nodes[j].fails) + 1
      ensures var nodes := old(View().buckets[i].nodes);
              View() == old(View()).(buckets := SetNodes(old(View().buckets), i,
                  nodes[j := nodes[j].(fails := nodes[j].fails + 1)]))
    {
      var n := buckets[i].nodes[j];
      ghost var nodes := View().buckets[i].nodes;
      label before:
      count := n.MsgFailed();
      assert forall k :: 0 <= k < |buckets| && k != i ==> buckets[k].View() == old@before(buckets[k].View());
      forall k | 0 <= k < |nodes| && k != j ensures buckets[i].nodes[k] != n {
        assert nodes[k].num != nodes[j].num;
      }
      OneRecordChanged(buckets[i].nodes, nodes, j, nodes[j].(fails := nodes[j].fails + 1));
      OneBucketChanged@before(i);
    }

    /** One node of a list has another record. */
    lemma OneRecordChanged(nodes: seq<Node>, infos: seq<NodeInfo>, j: nat, record: NodeInfo)
      requires j < |nodes| == |infos| && nodes[j].Info() == record
      requires forall k :: 0 <= k < |nodes| && k != j ==> nodes[k].Info() == infos[k]
      ensures Infos(nodes) == infos[j := record]
    {
    }

    /** nodeFailed: count a failure of a node of the table, and drop the node at the limit. */
    method NodeFailed(num: nat) returns (kept: bool)
      requires Valid() && num < Pow2(HASH_BITS)
      modifies Repr
      ensures Valid()
      ensures (kept, View()) == KTableSpec.NodeFailed(old(View()), num, maxFailures)
    {
      ValidIsReady(num);
      NodeFailedCorrect(View(), num, maxFailures);
      kept := FailIfHeld(num);
    }

    method FailIfHeld(num: nat) returns (kept: bool)
      requires Covered() && Ready(num)
      modifies Repr
      ensures Covered()
      ensures (kept, View()) == KTableSpec.NodeFailed(old(View()), num, maxFailures)
    {
      var i := BucketIndexForInt(num);
      var j := IndexOf(buckets[i].nodes, num);
      if j == |buckets[i].nodes| {
        return false;
      }
      kept := FailHeld(i, j, num);
    }

    method FailHeld(i: nat, j: nat, num: nat) returns (kept: bool)
      requires Covered() && Ready(num) && i == IndexFor(View().buckets, num)
      requires j < |buckets[i].nodes| && j == Find(View().buckets[i].nodes, num)
      modifies Repr
      ensures Covered()
      ensures (kept, View()) == KTableSpec.NodeFailed(old(View()), num, maxFailures)
    {
      ghost var t := View();
      var count := CountFailure(i, j);
      FailInTwoSteps(t, num, i, j, t.buckets[i].nodes[j], View(), maxFailures);
      BisectSameRanges(t.buckets, View().buckets, num, 0, |t.buckets|);
      kept := count < maxFailures;
      if !kept {
        ReplaceStaleNode(num, null);
      }
    }
  }

  /** The new node in the free place if it belongs to bucket i and fits; else a bucket that lost a node merged. */
  function Filled(t: Table, i: nat, removed: bool, new_: Option<NodeInfo>): Table
    requires i < |t.buckets|
  {
    if new_.Some? && IndexFor(t.buckets, new_.value.num) == i && |t.buckets[i].nodes| < K then
      t.(buckets := SetNodes(t.buckets, i, AddByTime(t.buckets[i].nodes, new_.value)))
    else if removed then t.(buckets := MergeFrom(t.buckets, i))
    else t
  }

  /** Removing, then filling or merging, is what replaceStaleNode computes. */
  lemma ReplaceInTwoSteps(t: Table, stale: nat, new_: Option<NodeInfo>)
    requires IndexFor(t.buckets, stale) < |t.buckets|
    ensures var i := IndexFor(t.buckets, stale);
            var j := Find(t.buckets[i].nodes, stale);
            var removed := j < |t.buckets[i].nodes|;
            var kept := if removed then RemoveAt(t.buckets[i].nodes, j) else t.buckets[i].nodes;
            ReplaceStale(t, stale, new_) == Filled(t.(buckets := SetNodes(t.buckets, i, kept)), i, removed, new_)
  {
    var i := IndexFor(t.buckets, stale);
    var j := Find(t.buckets[i].nodes, stale);
    var removed := j < |t.buckets[i].nodes|;
    var kept := if removed then RemoveAt(t.buckets[i].nodes, j) else t.buckets[i].nodes;
    ReplaceSteps(t, stale, new_, i, removed, kept, t.(buckets := SetNodes(t.buckets, i, kept)));
  }

  lemma ReplaceSteps(t: Table, stale: nat, new_: Option<NodeInfo>, i: nat, removed: bool, kept: seq<NodeInfo>,
                     t': Table)
    requires i == IndexFor(t.buckets, stale) < |t.buckets|
    requires var nodes := t.buckets[i].nodes; var j := Find(nodes, stale);
             removed == (j < |nodes|) && kept == if removed then RemoveAt(nodes, j) else nodes
    requires t' == t.(buckets := SetNodes(t.buckets, i, kept))
    ensures ReplaceStale(t, stale, new_) == Filled(t', i, removed, new_)
  {
    if new_.Some? {
      BisectSameRanges(t.buckets, t'.buckets, new_.value.num, 0, |t.buckets|);
    }
    if new_.Some? && IndexFor(t.buckets, new_.value.num) == i && |kept| < K {
      PutIn(t, stale, new_.value, i, removed, kept, t');
    } else {
      NotPut(t, stale, new_, i, removed, kept, t');
    }
  }

  lemma PutIn(t: Table, stale: nat, n: NodeInfo, i: nat, removed: bool, kept: seq<NodeInfo>, t': Table)
    requires i == IndexFor(t.buckets, stale) < |t.buckets|
    requires var nodes := t.buckets[i].nodes; var j := Find(nodes, stale);
             removed == (j < |nodes|) && kept == if removed then RemoveAt(nodes, j) else nodes
    requires t' == t.(buckets := SetNodes(t.buckets, i, kept))
    requires IndexFor(t.buckets, n.num) == i == IndexFor(t'.buckets, n.num) && |kept| < K
    ensures ReplaceStale(t, stale, Some(n)) == Filled(t', i, removed, Some(n))
  {
    SetNodesTwice(t.buckets, i, kept, AddByTime(kept, n));
  }

  lemma NotPut(t: Table, stale: nat, new_: Option<NodeInfo>, i: nat, removed: bool, kept: seq<NodeInfo>, t': Table)
    requires i == IndexFor(t.buckets, stale) < |t.buckets|
    requires var nodes := t.buckets[i].nodes; var j := Find(nodes, stale);
             removed == (j < |nodes|) && kept == if removed then RemoveAt(nodes, j) else nodes
    requires t' == t.(buckets := SetNodes(t.buckets, i, kept))
    requires new_.Some? ==> IndexFor(t.buckets, new_.value.num) == IndexFor(t'.buckets, new_.value.num)
    requires !(new_.Some? && IndexFor(t.buckets, new_.value.num) == i && |kept| < K)
    ensures ReplaceStale(t, stale, new_) == Filled(t', i, removed, new_)
  {
    SetNodesSame(t.buckets, i);
  }

  lemma SetNodesSame(bs: seq<Bucket>, i: nat)
    requires i < |bs|
    ensures SetNodes(bs, i, bs[i].nodes) == bs
  {
  }

  /** Refreshing the bucket of a number is what justSeenNode computes. */
  lemma SeenIsRefreshed(t: Table, num: nat, now: int)
    requires IndexFor(t.buckets, num) < |t.buckets|
    ensures var i := IndexFor(t.buckets, num);
            var nodes := t.buckets[i].nodes;
            var j := Find(nodes, num);
            && JustSeen(t, num, now).0 == (if j < |nodes| then Some(nodes[j].lastSeen) else None)
            && JustSeen(t, num, now).1 == t.(buckets := SetNodes(t.buckets, i, Refreshed(nodes, num, now)))
  {
    SetNodesSame(t.buckets, IndexFor(t.buckets, num));
  }

  lemma PassKeepsInv(t: Table, num: nat, contacted: bool, now: int, maxFailures: int)
    requires Inv(t, maxFailures) && num < Pow2(HASH_BITS) && maxFailures >= 1
    ensures Inv(InsertOnce(t, num, contacted, now).table, maxFailures)
  {
    match InsertOnce(t, num, contacted, now)
    case Finish(_, _) => FinishCorrect(t, num, contacted, now, maxFailures);
    case Again(_) => AgainCorrect(t, num, contacted, now, maxFailures);
  }

  /** The tables differ at most in the times of one number in bucket i. */
  ghost predicate SameExcept(t: Table, t': Table, i: nat, num: nat) {
    && t'.self == t.self && |t'.buckets| == |t.buckets| && i < |t.buckets|
    && (forall k :: 0 <= k < |t.buckets| && k != i ==> t'.buckets[k] == t.buckets[k])
    && t'.buckets[i].min == t.buckets[i].min && t'.buckets[i].max == t.buckets[i].max
    && SameNodesExcept(t.buckets[i].nodes, t'.buckets[i].nodes, num)
  }

  predicate SameNodesExcept(xs: seq<NodeInfo>, ys: seq<NodeInfo>, num: nat) {
    && |xs| == |ys|
    && forall k :: 0 <= k < |xs| ==> ys[k].num == xs[k].num && (xs[k].num != num ==> ys[k] == xs[k])
  }

  /** Taking out the number that may have changed leaves what it left before. */
  lemma RemoveHidesChange(xs: seq<NodeInfo>, ys: seq<NodeInfo>, num: nat)
    requires SameNodesExcept(xs, ys, num) && DistinctNums(xs)
    ensures Find(ys, num) == Find(xs, num)
    ensures Find(xs, num) < |xs| ==> RemoveAt(ys, Find(ys, num)) == RemoveAt(xs, Find(xs, num))
    ensures Find(xs, num) == |xs| ==> ys == xs
  {
    FindUnchanged(xs, ys, num);
    var j := Find(xs, num);
    if j < |xs| {
      forall k | 0 <= k < |xs| && k != j ensures ys[k] == xs[k] {
        assert xs[k].num != xs[j].num;
      }
    }
  }
}
