/** Nodes and buckets as the program keeps them, updated in place: each method is proved
    against the operation it computes on values. */
module KBuckets {
  import opened Options
  import opened Bits
  import opened KTableSpec
  import opened KTableLists
  import opened KTableUpkeep

  class Node {
    const num: nat
    var lastSeen: int
    var fails: int

    constructor (num: nat, never: int)
      ensures this.num == num && lastSeen == never && fails == 0
    {
      this.num := num;
      lastSeen, fails := never, 0;
    }

    ghost function Info(): NodeInfo
      reads this
    {
      NodeInfo(num, lastSeen, fails)
    }

    method UpdateLastSeen(now: int)
      modifies this
      ensures Info() == NodeInfo(num, now, 0)
    {
      lastSeen := now;
      fails := 0;
    }

    method MsgFailed() returns (count: int)
      modifies this
      ensures Info() == old(Info()).(fails := old(fails) + 1) && count == fails
    {
      fails := fails + 1;
      count := fails;
    }
  }

  ghost function Infos(ns: seq<Node>): (s: seq<NodeInfo>)
    reads ns
    ensures |s| == |ns| && forall i :: 0 <= i < |ns| ==> s[i] == ns[i].Info()
  {
    seq(|ns|, i requires 0 <= i < |ns| reads ns => ns[i].Info())
  }

  lemma InsertInfos(ns: seq<Node>, i: nat, node: Node)
    requires i <= |ns|
    ensures Infos(InsertAt(ns, i, node)) == InsertAt(Infos(ns), i, node.Info())
    ensures forall n :: n in InsertAt(ns, i, node) ==> n in ns || n == node
  {
  }

  lemma RemoveInfos(ns: seq<Node>, i: nat)
    requires i < |ns|
    ensures Infos(RemoveAt(ns, i)) == RemoveAt(Infos(ns), i)
    ensures forall n :: n in RemoveAt(ns, i) ==> n in ns
  {
  }

  // ----- The loops over a bucket's list

  /** list.index: the first node with this number; the length stands for ValueError. */
  method IndexOf(ns: seq<Node>, num: nat) returns (i: nat)
    ensures i == Find(Infos(ns), num)
  {
    i := 0;
    while i < |ns| && ns[i].num != num
      invariant i <= |ns|
      invariant FindFrom(Infos(ns), num, 0) == FindFrom(Infos(ns), num, i)
    {
      i := i + 1;
    }
  }

  /** Insert a node in the order of lastSeen. */
  method InsertByTime(ns: seq<Node>, node: Node) returns (ms: seq<Node>)
    ensures Infos(ms) == AddByTime(Infos(ns), node.Info())
    ensures forall n :: n in ms ==> n in ns || n == node
  {
    var i: nat := |ns|;
    while i > 0 && node.lastSeen < ns[i - 1].lastSeen
      invariant i <= |ns|
      invariant TimePosition(Infos(ns), node.Info(), |ns|) == TimePosition(Infos(ns), node.Info(), i)
    {
      i := i - 1;
    }
    InsertInfos(ns, i, node);
    ms := InsertAt(ns, i, node);
  }

  /** list.remove: take out the first node with this number. */
  method RemoveFirst(ns: seq<Node>, num: nat) returns (ms: seq<Node>)
    requires Find(Infos(ns), num) < |ns|
    ensures Infos(ms) == RemoveAt(Infos(ns), Find(Infos(ns), num))
    ensures forall n :: n in ms ==> n in ns
  {
    var i := IndexOf(ns, num);
    RemoveInfos(ns, i);
    ms := RemoveAt(ns, i);
  }

  /** What is left of a list being split after k nodes. */
  function Staying(infos: seq<NodeInfo>, k: nat, bound: nat): seq<NodeInfo>
    requires k <= |infos|
  {
    Below(infos, bound, k) + infos[k..]
  }

  lemma {:induction false} BelowIsBelow(infos: seq<NodeInfo>, k: nat, bound: nat)
    requires k <= |infos|
    ensures forall j :: 0 <= j < |Below(infos, bound, k)| ==> Below(infos, bound, k)[j].num < bound
    decreases k
  {
    if k > 0 {
      BelowIsBelow(infos, k - 1, bound);
    }
  }

  /** The first node equal to the next one is that node itself, and it is what a step takes out. */
  lemma SplitMoves(infos: seq<NodeInfo>, k: nat, bound: nat)
    requires k < |infos| && infos[k].num >= bound
    ensures var s := Staying(infos, k, bound);
            var i := Find(s, infos[k].num);
            i < |s| && RemoveAt(s, i) == Staying(infos, k + 1, bound)
  {
    var s := Staying(infos, k, bound);
    var low := Below(infos, bound, k);
    BelowIsBelow(infos, k, bound);
    assert s[|low|] == infos[k];
    assert forall j :: 0 <= j < |low| ==> s[j] == low[j];
    FindIs(s, infos[k].num, |low|);
    TakeMiddle(low, infos, k);
  }

  lemma TakeMiddle(low: seq<NodeInfo>, infos: seq<NodeInfo>, k: nat)
    requires k < |infos|
    ensures RemoveAt(low + infos[k..], |low|) == low + infos[k + 1..]
  {
  }

  lemma FindIs(s: seq<NodeInfo>, num: nat, j: nat)
    requires j < |s| && s[j].num == num && forall i :: 0 <= i < j ==> s[i].num != num
    ensures Find(s, num) == j
  {
  }

  lemma SplitStays(infos: seq<NodeInfo>, k: nat, bound: nat)
    requires k < |infos| && infos[k].num < bound
    ensures Staying(infos, k, bound) == Staying(infos, k + 1, bound)
  {
    assert infos[k..] == [infos[k]] + infos[k + 1..];
  }

  lemma SplitEnds(infos: seq<NodeInfo>, bound: nat)
    ensures Staying(infos, 0, bound) == infos
    ensures Staying(infos, |infos|, bound) == Below(infos, bound, |infos|)
  {
  }

  ghost predicate Within(part: seq<Node>, whole: seq<Node>) {
    forall n :: n in part ==> n in whole
  }

  /** One node of a list being split stays, or moves to the new list. */
  method SplitOne(low: seq<Node>, high: seq<Node>, node: Node, bound: nat, ghost all: seq<Node>, ghost k: nat)
    returns (low': seq<Node>, high': seq<Node>)
    requires k < |all| && node == all[k] && Within(low, all) && Within(high, all)
    requires Infos(low) == Staying(Infos(all), k, bound) && Infos(high) == From(Infos(all), bound, k)
    ensures Infos(low') == Staying(Infos(all), k + 1, bound) && Infos(high') == From(Infos(all), bound, k + 1)
    ensures Within(low', all) && Within(high', all)
  {
    low', high' := low, high;
    if node.num < bound {
      SplitStays(Infos(all), k, bound);
    } else {
      SplitMoves(Infos(all), k, bound);
      low' := RemoveFirst(low, node.num);
      high' := InsertByTime(high, node);
    }
  }

  /** Take the nodes from a bound on out of a list, into a new list in the order of lastSeen. */
  method SplitList(ns: seq<Node>, bound: nat) returns (low: seq<Node>, high: seq<Node>)
    ensures Infos(low) == Below(Infos(ns), bound, |ns|)
    ensures Infos(high) == From(Infos(ns), bound, |ns|)
    ensures Within(low, ns) && Within(high, ns)
  {
    low, high := ns, [];
    SplitEnds(Infos(ns), bound);
    for k := 0 to |ns|
      invariant Infos(low) == Staying(Infos(ns), k, bound)
      invariant Infos(high) == From(Infos(ns), bound, k)
      invariant Within(low, ns) && Within(high, ns)
    {
      low, high := SplitOne(low, high, ns[k], bound, ns, k);
    }
  }

  /** The list being merged: its first i nodes are final, the rest still to be merged with b from k on. */
  function Halfway(s: seq<NodeInfo>, i: nat, b: seq<NodeInfo>, k: nat): seq<NodeInfo>
    requires i <= |s| && k <= |b|
  {
    s[..i] + MergeByTime(s, i, b, k)
  }

  lemma HalfwaySkip(s: seq<NodeInfo>, i: nat, b: seq<NodeInfo>, k: nat)
    requires i < |s| && k < |b| && s[i].lastSeen <= b[k].lastSeen
    ensures Halfway(s, i, b, k) == Halfway(s, i + 1, b, k)
  {
    assert s[..i + 1] == s[..i] + [s[i]];
    assert s[..i] + ([s[i]] + MergeByTime(s, i + 1, b, k)) == s[..i] + [s[i]] + MergeByTime(s, i + 1, b, k);
  }

  /** Merging depends on the first list only from its position on. */
  lemma {:induction false} MergeTails(s: seq<NodeInfo>, i: nat, s': seq<NodeInfo>, i': nat, b: seq<NodeInfo>, k: nat)
    requires i <= |s| && i' <= |s'| && |s| - i == |s'| - i' && k <= |b|
    requires forall j :: i <= j < |s| ==> s[j] == s'[j - i + i']
    ensures MergeByTime(s, i, b, k) == MergeByTime(s', i', b, k)
    decreases |s| - i + |b| - k
  {
    if k == |b| {
      assert s[i..] == s'[i'..];
    } else {
      assert i < |s| ==> s[i] == s'[i'];
      if i < |s| && s[i].lastSeen <= b[k].lastSeen {
        MergeTails(s, i + 1, s', i' + 1, b, k);
      } else {
        MergeTails(s, i, s', i', b, k + 1);
      }
    }
  }

  lemma HalfwayInsert(s: seq<NodeInfo>, i: nat, b: seq<NodeInfo>, k: nat)
    requires i <= |s| && k < |b| && (i < |s| ==> s[i].lastSeen > b[k].lastSeen)
    ensures Halfway(s, i, b, k) == Halfway(InsertAt(s, i, b[k]), i + 1, b, k + 1)
  {
    var s' := InsertAt(s, i, b[k]);
    MergeTails(s, i, s', i + 1, b, k + 1);
    assert s'[..i + 1] == s[..i] + [b[k]];
    assert s[..i] + ([b[k]] + MergeByTime(s, i, b, k + 1)) == s[..i] + [b[k]] + MergeByTime(s, i, b, k + 1);
  }

  lemma HalfwayEnds(s: seq<NodeInfo>, i: nat, b: seq<NodeInfo>)
    requires i <= |s|
    ensures Halfway(s, i, b, |b|) == s
    ensures Halfway(s, 0, b, 0) == MergeByTime(s, 0, b, 0)
  {
  }

  lemma {:induction false} HalfwaySkipTo(s: seq<NodeInfo>, start: nat, i: nat, b: seq<NodeInfo>, k: nat)
    requires start <= i <= |s| && k < |b| && forall j :: start <= j < i ==> s[j].lastSeen <= b[k].lastSeen
    ensures Halfway(s, start, b, k) == Halfway(s, i, b, k)
    decreases i - start
  {
    if start < i {
      HalfwaySkip(s, start, b, k);
      HalfwaySkipTo(s, start + 1, i, b, k);
    }
  }

  /** Step over the nodes that are not more recent than the one to insert. */
  method SkipOlder(ns: seq<Node>, start: nat, node: Node) returns (i: nat)
    requires start <= |ns|
    ensures start <= i <= |ns| && forall j :: start <= j < i ==> ns[j].lastSeen <= node.lastSeen
    ensures i < |ns| ==> ns[i].lastSeen > node.lastSeen
  {
    i := start;
    while i < |ns| && ns[i].lastSeen <= node.lastSeen
      invariant start <= i <= |ns| && forall j :: start <= j < i ==> ns[j].lastSeen <= node.lastSeen
    {
      i := i + 1;
    }
  }

  /** On the way to the merge of two lists. */
  ghost predicate Merging(s: seq<NodeInfo>, i: nat, b: seq<NodeInfo>, k: nat, goal: seq<NodeInfo>) {
    i <= |s| && k <= |b| && Halfway(s, i, b, k) == goal
  }

  lemma MergingOne(s: seq<NodeInfo>, i: nat, j: nat, b: seq<NodeInfo>, k: nat, goal: seq<NodeInfo>)
    requires Merging(s, i, b, k, goal) && i <= j <= |s| && k < |b|
    requires forall l :: i <= l < j ==> s[l].lastSeen <= b[k].lastSeen
    requires j < |s| ==> s[j].lastSeen > b[k].lastSeen
    ensures Merging(InsertAt(s, j, b[k]), j + 1, b, k + 1, goal)
  {
    HalfwaySkipTo(s, i, j, b, k);
    HalfwayInsert(s, j, b, k);
  }

  /** Insert one node of the other list, after the nodes not more recent. */
  method MergeOne(ns: seq<Node>, i: nat, node: Node, ghost b: seq<NodeInfo>, ghost k: nat, ghost goal: seq<NodeInfo>)
    returns (ms: seq<Node>, j: nat)
    requires k < |b| && b[k] == node.Info() && Merging(Infos(ns), i, b, k, goal)
    ensures Merging(Infos(ms), j, b, k + 1, goal)
    ensures forall n :: n in ms ==> n in ns || n == node
  {
    j := SkipOlder(ns, i, node);
    InsertInfos(ns, j, node);
    MergingOne(Infos(ns), i, j, b, k, goal);
    ms := InsertAt(ns, j, node);
    j := j + 1;
  }

  /** The loop of merge: insert the nodes of one time-ordered list into another. */
  method MergeLists(a: seq<Node>, b: seq<Node>) returns (ns: seq<Node>)
    ensures Infos(ns) == MergeByTime(Infos(a), 0, Infos(b), 0)
    ensures forall n :: n in ns ==> n in a || n in b
  {
    ghost var goal := MergeByTime(Infos(a), 0, Infos(b), 0);
    HalfwayEnds(Infos(a), 0, Infos(b));
    ns := a;
    var i: nat := 0;
    for k := 0 to |b|
      invariant Merging(Infos(ns), i, Infos(b), k, goal)
      invariant forall n :: n in ns ==> n in a || n in b
    {
      ns, i := MergeOne(ns, i, b[k], Infos(b), k, goal);
    }
    HalfwayEnds(Infos(ns), i, Infos(b));
  }

  /** A list in which a node has been refreshed and moved to the end. */
  function Refreshed(infos: seq<NodeInfo>, num: nat, now: int): seq<NodeInfo> {
    var j := Find(infos, num);
    if j < |infos| then RemoveAt(infos, j) + [NodeInfo(num, now, 0)] else infos
  }

  class KBucket {
    var nodes: seq<Node>
    var min: nat
    var max: nat

    constructor (contents: seq<Node>, min: nat, max: nat)
      ensures nodes == contents && this.min == min && this.max == max
    {
      nodes := contents;
      this.min, this.max := min, max;
    }

    ghost function View(): Bucket
      reads this, nodes
    {
      Bucket(min, max, Infos(nodes))
    }

    /** Take the node with this number out of the list. */
    method Remove(num: nat) returns (found: bool)
      modifies this`nodes
      ensures found <==> Find(old(Infos(nodes)), num) < |old(nodes)|
      ensures nodes == if found then RemoveAt(old(nodes), Find(old(Infos(nodes)), num)) else old(nodes)
      ensures Infos(nodes) == if found then RemoveAt(old(Infos(nodes)), Find(old(Infos(nodes)), num))
              else old(Infos(nodes))
    {
      var i := IndexOf(nodes, num);
      found := i < |nodes|;
      if found {
        RemoveInfos(nodes, i);
        nodes := RemoveAt(nodes, i);
      }
    }

    /** Add a node in the order of lastSeen. */
    method Add(node: Node)
      modifies this`nodes
      ensures Infos(nodes) == AddByTime(old(Infos(nodes)), node.Info())
      ensures forall n :: n in nodes ==> n in old(nodes) || n == node
    {
      nodes := InsertByTime(nodes, node);
    }

    /** Refresh a node and move it to the end of the list. */
    method JustSeen(num: nat, now: int) returns (tstamp: Option<int>)
      requires DistinctNums(Infos(nodes))
      modifies this`nodes, nodes
      ensures var infos := old(Infos(nodes));
              var j := Find(infos, num);
              tstamp == if j < |infos| then Some(infos[j].lastSeen) else None
      ensures Infos(nodes) == Refreshed(old(Infos(nodes)), num, now)
      ensures forall n :: n in nodes ==> n in old(nodes)
      ensures forall n: Node :: n in old(nodes) && n.num != num ==> n.Info() == old(n.Info())
    {
      var i := IndexOf(nodes, num);
      if i == |nodes| {
        return None;
      }
      var n := nodes[i];
      tstamp := Some(n.lastSeen);
      ghost var infos := Infos(nodes);
      n.UpdateLastSeen(now);
      forall k | 0 <= k < |nodes| && k != i ensures nodes[k] != n {
        assert infos[k].num != infos[i].num;
      }
      nodes := RemoveAt(nodes, i);
      assert Infos(nodes) == RemoveAt(infos, i);
      nodes := nodes + [n];
      assert Infos(nodes) == RemoveAt(infos, i) + [NodeInfo(num, now, 0)];
    }

    /** Move the upper half of the range, and its nodes, to a new bucket. */
    method Split() returns (new_: KBucket)
      requires min <= max
      modifies this
      ensures fresh(new_)
      ensures View() == LowerHalf(old(View())) && new_.View() == UpperHalf(old(View()))
      ensures Within(nodes, old(nodes)) && Within(new_.nodes, old(nodes))
    {
      var diff := (max - min) / 2;
      ghost var was := View();
      var low, high := SplitList(nodes, max - diff);
      assert Bucket(min, max - diff, Infos(low)) == LowerHalf(was);
      assert Bucket(max - diff, max, Infos(high)) == UpperHalf(was);
      new_ := new KBucket(high, max - diff, max);
      max := max - diff;
      nodes := low;
    }

    /** Take over the other bucket's range and nodes if all fit in one bucket. */
    method Merge(old_: KBucket) returns (merged: bool)
      modifies this
      ensures merged <==> |old(nodes)| + |old(old_.nodes)| <= K
      ensures View() == if merged then MergedBucket(old(View()), old(old_.View())) else old(View())
      ensures forall n :: n in nodes ==> n in old(nodes) || n in old(old_.nodes)
    {
      if |nodes| + |old_.nodes| > K {
        return false;
      }
      min, max := Min(min, old_.min), Max(max, old_.max);
      nodes := MergeLists(nodes, old_.nodes);
      return true;
    }
  }
}
