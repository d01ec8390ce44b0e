/** The routing table on values: what each operation of the table and of its
    buckets computes. The classes of module KTable are proved to refine it. */
module KTableSpec {
  import opened Options
  import opened Bits

  const K: nat := 8
  const HASH_BITS: nat := 160

  /** What the table keeps of a contact. */
  datatype NodeInfo = NodeInfo(num: nat, lastSeen: int, fails: int)

  /** A range [min, max) of IDs and the contacts held for it, oldest first. */
  datatype Bucket = Bucket(min: nat, max: nat, nodes: seq<NodeInfo>) {
    predicate Has(x: nat) { min <= x < max }
    function Width(): int { max - min }
  }

  datatype Table = Table(self: nat, buckets: seq<Bucket>)

  /** True, False, the oldest node of a full bucket, None after the "FULL" log,
      and the exception of an ID that no bucket covers. */
  datatype InsertResult =
    | Inserted
    | NotContacted
    | Oldest(node: NodeInfo)
    | TableFull
    | IndexError

  // ----- Lists of nodes

  /** Position of the first node with this number from i on, or the length if there is none. */
  function FindFrom(nodes: seq<NodeInfo>, num: nat, i: nat): (j: nat)
    requires i <= |nodes|
    ensures i <= j <= |nodes| && (j < |nodes| ==> nodes[j].num == num)
    ensures forall k :: i <= k < j ==> nodes[k].num != num
    decreases |nodes| - i
  {
    if i == |nodes| || nodes[i].num == num then i else FindFrom(nodes, num, i + 1)
  }

  function Find(nodes: seq<NodeInfo>, num: nat): (j: nat)
    ensures j <= |nodes| && (j < |nodes| ==> nodes[j].num == num)
    ensures forall k :: 0 <= k < j ==> nodes[k].num != num
  {
    FindFrom(nodes, num, 0)
  }

  function RemoveAt<T>(s: seq<T>, i: nat): (r: seq<T>)
    requires i < |s|
    ensures |r| == |s| - 1
    ensures forall k :: 0 <= k < i ==> r[k] == s[k]
    ensures forall k :: i <= k < |r| ==> r[k] == s[k + 1]
  {
    s[..i] + s[i + 1..]
  }

  function InsertAt<T>(s: seq<T>, i: nat, x: T): (r: seq<T>)
    requires i <= |s|
    ensures |r| == |s| + 1 && r[i] == x
    ensures forall k :: 0 <= k < i ==> r[k] == s[k]
    ensures forall k :: i < k < |r| ==> r[k] == s[k - 1]
  {
    s[..i] + [x] + s[i..]
  }

  /** Where a node goes, searching back from position i: right after the last one not more recent. */
  function TimePosition(nodes: seq<NodeInfo>, n: NodeInfo, i: nat): (p: nat)
    requires i <= |nodes|
    ensures p <= i
    ensures forall k :: p <= k < i ==> nodes[k].lastSeen > n.lastSeen
    ensures p > 0 ==> nodes[p - 1].lastSeen <= n.lastSeen
  {
    if i == 0 || nodes[i - 1].lastSeen <= n.lastSeen then i else TimePosition(nodes, n, i - 1)
  }

  function AddByTime(nodes: seq<NodeInfo>, n: NodeInfo): (r: seq<NodeInfo>)
    ensures |r| == |nodes| + 1
  {
    InsertAt(nodes, TimePosition(nodes, n, |nodes|), n)
  }

  /** Of the first k nodes, those numbered below a bound, in order. */
  function Below(nodes: seq<NodeInfo>, bound: nat, k: nat): (r: seq<NodeInfo>)
    requires k <= |nodes|
    ensures |r| <= k
  {
    if k == 0 then []
    else if nodes[k - 1].num < bound then Below(nodes, bound, k - 1) + [nodes[k - 1]]
    else Below(nodes, bound, k - 1)
  }

  /** Of the first k nodes, those numbered from a bound on, added one by one by time. */
  function From(nodes: seq<NodeInfo>, bound: nat, k: nat): (r: seq<NodeInfo>)
    requires k <= |nodes|
    ensures |r| + |Below(nodes, bound, k)| == k
  {
    if k == 0 then []
    else if nodes[k - 1].num >= bound then AddByTime(From(nodes, bound, k - 1), nodes[k - 1])
    else From(nodes, bound, k - 1)
  }

  /** The merge of two time-ordered lists from positions i and k on; on equal times the first list goes first. */
  function MergeByTime(a: seq<NodeInfo>, i: nat, b: seq<NodeInfo>, k: nat): (r: seq<NodeInfo>)
    requires i <= |a| && k <= |b|
    ensures |r| == |a| - i + |b| - k
    decreases |a| - i + |b| - k
  {
    if k == |b| then a[i..]
    else if i < |a| && a[i].lastSeen <= b[k].lastSeen then [a[i]] + MergeByTime(a, i + 1, b, k)
    else [b[k]] + MergeByTime(a, i, b, k + 1)
  }

  // ----- Buckets

  function SplitPoint(b: Bucket): int {
    b.max - (b.max - b.min) / 2
  }

  function LowerHalf(b: Bucket): Bucket
    requires b.min <= b.max
  {
    Bucket(b.min, SplitPoint(b), Below(b.nodes, SplitPoint(b), |b.nodes|))
  }

  function UpperHalf(b: Bucket): Bucket
    requires b.min <= b.max
  {
    Bucket(SplitPoint(b), b.max, From(b.nodes, SplitPoint(b), |b.nodes|))
  }

  function Min(a: int, b: int): int { if a <= b then a else b }

  function Max(a: int, b: int): int { if a >= b then a else b }

  function MergedBucket(b: Bucket, other: Bucket): Bucket {
    Bucket(Min(b.min, other.min), Max(b.max, other.max), MergeByTime(b.nodes, 0, other.nodes, 0))
  }

  // ----- The table

  /** bisect_left over the list of buckets, where a bucket is below an ID when its range ends there. */
  function Bisect(bs: seq<Bucket>, num: nat, lo: nat, hi: nat): (i: nat)
    requires lo <= hi <= |bs|
    ensures lo <= i <= hi
    decreases hi - lo
  {
    if lo == hi then lo
    else
      var mid := (lo + hi) / 2;
      if bs[mid].max <= num then Bisect(bs, num, mid + 1, hi) else Bisect(bs, num, lo, mid)
  }

  function IndexFor(bs: seq<Bucket>, num: nat): (i: nat)
    ensures i <= |bs|
  {
    Bisect(bs, num, 0, |bs|)
  }

  /** The neighbour of the same width that a bucket may be merged with, the left one first. */
  function MergePartner(bs: seq<Bucket>, i: nat): (j: nat)
    requires i < |bs|
    ensures j == |bs| || j == i + 1 || j == i - 1
    ensures j < |bs| ==> bs[j].Width() == bs[i].Width()
  {
    if i >= 1 && bs[i - 1].Width() == bs[i].Width() then i - 1
    else if i + 1 < |bs| && bs[i + 1].Width() == bs[i].Width() then i + 1
    else |bs|
  }

  /** Merge bucket i with its partner while together they fit in one bucket. */
  function MergeFrom(bs: seq<Bucket>, i: nat): seq<Bucket>
    requires i < |bs|
    decreases |bs|
  {
    var j := MergePartner(bs, i);
    if j < |bs| && |bs[i].nodes| + |bs[j].nodes| <= K then
      MergeFrom(RemoveAt(bs[i := MergedBucket(bs[i], bs[j])], j), Min(i, j))
    else bs
  }

  function SetNodes(bs: seq<Bucket>, i: nat, nodes: seq<NodeInfo>): seq<Bucket>
    requires i < |bs|
  {
    bs[i := bs[i].(nodes := nodes)]
  }

  function SplitAt(bs: seq<Bucket>, i: nat): seq<Bucket>
    requires i < |bs| && bs[i].min <= bs[i].max
  {
    InsertAt(bs[i := LowerHalf(bs[i])], i + 1, UpperHalf(bs[i]))
  }

  /** One pass of insertNode: it returns, or splits our own full bucket and goes round again. */
  datatype InsertStep = Finish(result: InsertResult, table: Table) | Again(table: Table)

  function InsertOnce(t: Table, num: nat, contacted: bool, now: int): (s: InsertStep)
    ensures s.Again? ==> |t.buckets| < HASH_BITS && |s.table.buckets| == |t.buckets| + 1
  {
    var i := IndexFor(t.buckets, num);
    if num == t.self then Finish(Inserted, t)
    else if i >= |t.buckets| then Finish(IndexError, t)
    else
      var b := t.buckets[i];
      var j := Find(b.nodes, num);
      if j < |b.nodes| then
        if contacted then
          Finish(Inserted, t.(buckets := SetNodes(t.buckets, i,
              AddByTime(RemoveAt(b.nodes, j), NodeInfo(num, now, 0)))))
        else Finish(Inserted, t)
      else if |b.nodes| < K then
        if contacted then
          Finish(Inserted, t.(buckets := SetNodes(t.buckets, i, AddByTime(b.nodes, NodeInfo(num, now, 0)))))
        else Finish(NotContacted, t)
      else if !b.Has(t.self) then Finish(Oldest(b.nodes[0]), t)
      else if |t.buckets| >= HASH_BITS then Finish(TableFull, t)
      else Again(t.(buckets := SplitAt(t.buckets, i)))
  }

  /** insertNode; after a split the node counts as contacted. */
  function Insert(t: Table, num: nat, contacted: bool, now: int): (InsertResult, Table)
    decreases if |t.buckets| < HASH_BITS then HASH_BITS - |t.buckets| else 0
  {
    match InsertOnce(t, num, contacted, now)
    case Finish(r, t') => (r, t')
    case Again(t') => Insert(t', num, true, now)
  }

  /** Drop a stale contact, put another in its place if that one belongs there, otherwise merge. */
  function ReplaceStale(t: Table, stale: nat, new_: Option<NodeInfo>): Table {
    var i := IndexFor(t.buckets, stale);
    if i >= |t.buckets| then t
    else
      var b := t.buckets[i];
      var j := Find(b.nodes, stale);
      var kept := if j < |b.nodes| then RemoveAt(b.nodes, j) else b.nodes;
      if new_.Some? && IndexFor(t.buckets, new_.value.num) == i && |kept| < K then
        t.(buckets := SetNodes(t.buckets, i, AddByTime(kept, new_.value)))
      else if j < |b.nodes| then
        t.(buckets := MergeFrom(SetNodes(t.buckets, i, kept), i))
      else t
  }

  /** A message arrived from a node: refresh it if it is held; the old time is returned. */
  function JustSeen(t: Table, num: nat, now: int): (Option<int>, Table) {
    var i := IndexFor(t.buckets, num);
    if i >= |t.buckets| then (None, t)
    else
      var b := t.buckets[i];
      var j := Find(b.nodes, num);
      if j >= |b.nodes| then (None, t)
      else
        (Some(b.nodes[j].lastSeen),
         t.(buckets := SetNodes(t.buckets, i, RemoveAt(b.nodes, j) + [NodeInfo(num, now, 0)])))
  }

  /** A request to a node failed: count it, and drop the node at the limit. */
  function NodeFailed(t: Table, num: nat, maxFailures: int): (bool, Table) {
    var i := IndexFor(t.buckets, num);
    if i >= |t.buckets| then (false, t)
    else
      var b := t.buckets[i];
      var j := Find(b.nodes, num);
      if j >= |b.nodes| then (false, t)
      else
        var n := b.nodes[j];
        var t' := t.(buckets := SetNodes(t.buckets, i, b.nodes[j := n.(fails := n.fails + 1)]));
        if n.fails + 1 >= maxFailures then (false, ReplaceStale(t', num, None)) else (true, t')
  }

  // ----- Looking up

  /** The first position from i on whose key is greater, or the length. */
  function KeyPosition<T>(s: seq<T>, x: T, key: T -> nat, i: nat): (p: nat)
    requires i <= |s|
    ensures i <= p <= |s|
    ensures forall k :: i <= k < p ==> key(s[k]) <= key(x)
    ensures p < |s| ==> key(x) < key(s[p])
    decreases |s| - i
  {
    if i == |s| || key(x) < key(s[i]) then i else KeyPosition(s, x, key, i + 1)
  }

  /** Insertion sort of the first k elements by a key, stable like the library's sort. */
  function SortBy<T>(s: seq<T>, key: T -> nat, k: nat): (r: seq<T>)
    requires k <= |s|
    ensures |r| == k
  {
    if k == 0 then []
    else
      var sorted := SortBy(s, key, k - 1);
      InsertAt(sorted, KeyPosition(sorted, s[k - 1], key, 0), s[k - 1])
  }

  /** The nodes of the bucket at a place, none where there is no bucket. */
  function NodesAt(bs: seq<Bucket>, j: int): seq<NodeInfo> {
    if 0 <= j < |bs| then bs[j].nodes else []
  }

  /** The nodes collected when the search has spread r buckets to each side of bucket i. */
  function Around(bs: seq<Bucket>, i: nat, r: nat): seq<NodeInfo> {
    if r == 0 then NodesAt(bs, i) else Around(bs, i, r - 1) + NodesAt(bs, i - r) + NodesAt(bs, i + r)
  }

  /** How far the search spreads: until K nodes are found or the table is exhausted. */
  function Spread(bs: seq<Bucket>, i: nat, r: nat): (r': nat)
    requires i < |bs|
    ensures r' >= r
    decreases |bs| - r
  {
    if |Around(bs, i, r)| < K && (i >= r + 1 || i + r + 1 < |bs|) then Spread(bs, i, r + 1) else r
  }

  function Take<T>(s: seq<T>, n: nat): seq<T> {
    if |s| <= n then s else s[..n]
  }

  function Distance(num: nat): NodeInfo -> nat {
    (n: NodeInfo) => Xor(num, n.num)
  }

  function ClosestOf(nodes: seq<NodeInfo>, num: nat): seq<NodeInfo> {
    Take(SortBy(nodes, Distance(num), |nodes|), K)
  }

  /** The K nodes that the table answers for an ID. */
  function FindNodes(t: Table, num: nat): seq<NodeInfo>
    requires IndexFor(t.buckets, num) < |t.buckets|
  {
    var i := IndexFor(t.buckets, num);
    ClosestOf(Around(t.buckets, i, Spread(t.buckets, i, 0)), num)
  }
}
