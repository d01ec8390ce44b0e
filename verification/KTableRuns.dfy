/** What holds of every table that any run of calls reaches. */
module KTableRuns {
  import opened Options
  import opened Bits
  import opened KTableSpec
  import opened KTableShape
  import opened KTableLists
  import opened KTableInvariant
  import opened KTableInsert
  import opened KTableUpkeep

  /** One call on the table; times are the clock readings the call makes. */
  datatype Op =
    | OpInsert(num: nat, contacted: bool, now: int)
    | OpReplace(stale: nat, new_: Option<NodeInfo>)
    | OpJustSeen(num: nat, now: int)
    | OpFailed(num: nat)

  function Apply(t: Table, op: Op, maxFailures: int): Table {
    match op
    case OpInsert(num, contacted, now) => Insert(t, num, contacted, now).1
    case OpReplace(stale, n) => ReplaceStale(t, stale, n)
    case OpJustSeen(num, now) => JustSeen(t, num, now).1
    case OpFailed(num) => NodeFailed(t, num, maxFailures).1
  }

  /** IDs are 20 bytes. */
  predicate OfIds(op: Op) {
    match op
    case OpInsert(num, _, _) => num < Pow2(HASH_BITS)
    case OpReplace(stale, n) => stale < Pow2(HASH_BITS) && (n.Some? ==> n.value.num < Pow2(HASH_BITS))
    case OpJustSeen(num, _) => num < Pow2(HASH_BITS)
    case OpFailed(num) => num < Pow2(HASH_BITS)
  }

  /** The tables that a run of calls goes through. */
  predicate IsRun(ts: seq<Table>, ops: seq<Op>, maxFailures: int) {
    |ts| == |ops| + 1 && forall k :: 0 <= k < |ops| ==> OfIds(ops[k]) && ts[k + 1] == Apply(ts[k], ops[k], maxFailures)
  }

  /** A call that puts a replacement in which the table may not hold: itself, one it holds, or one that failed. */
  predicate PutsWrong(t: Table, op: Op, maxFailures: int) {
    && op.OpReplace? && IndexFor(t.buckets, op.stale) < |t.buckets|
    && Placed(t, op.stale, op.new_) && !Acceptable(t, op.stale, op.new_.value, maxFailures)
  }

  function Empty(self: nat): Table {
    Table(self, [Bucket(0, Pow2(HASH_BITS), [])])
  }

  lemma WholeSpace(b: Bucket, self: nat, n: nat)
    requires self < Pow2(n) && b.min == 0 && b.max == Pow2(n)
    ensures InBlock(self, 0, n) && IsBlock(b, 0, n)
  {
    StartIsMultiple(0, n);
    StartIsMultiple(1, n);
  }

  lemma EmptyInv(self: nat, maxFailures: int)
    requires self < Pow2(HASH_BITS)
    ensures Inv(Empty(self), maxFailures) && Contents(Empty(self).buckets) == {} && AllChronological(Empty(self))
  {
    WholeSpace(Empty(self).buckets[0], self, HASH_BITS);
  }

  /** A call keeps the invariant exactly if it does not put a wrong replacement in. */
  lemma ApplyKeepsInvIff(t: Table, op: Op, maxFailures: int)
    requires Inv(t, maxFailures) && maxFailures >= 1 && OfIds(op)
    ensures Inv(Apply(t, op, maxFailures), maxFailures) <==> !PutsWrong(t, op, maxFailures)
    ensures Apply(t, op, maxFailures).self == t.self
  {
    match op
    case OpInsert(num, contacted, now) => InsertCorrect(t, num, contacted, now, maxFailures);
    case OpReplace(stale, n) => ReplaceStaleCorrect(t, stale, n, maxFailures);
    case OpJustSeen(num, now) => JustSeenCorrect(t, num, now, maxFailures);
    case OpFailed(num) => NodeFailedCorrect(t, num, maxFailures);
  }

  /** The tables up to number k satisfy the invariant. */
  predicate KeptUpTo(ts: seq<Table>, k: nat, maxFailures: int)
    requires k < |ts|
  {
    forall j :: 0 <= j <= k ==> Inv(ts[j], maxFailures)
  }

  /** None of the first k calls puts a wrong replacement in. */
  predicate NoneWrong(ts: seq<Table>, ops: seq<Op>, k: nat, maxFailures: int)
    requires k <= |ops| < |ts|
  {
    forall j :: 0 <= j < k ==> !PutsWrong(ts[j], ops[j], maxFailures)
  }

  /** The tables of a run keep the invariant exactly as long as no call puts a wrong replacement in. */
  lemma {:induction false} EveryRunKeepsInvIff(ts: seq<Table>, ops: seq<Op>, k: nat, maxFailures: int)
    requires IsRun(ts, ops, maxFailures) && k <= |ops|
    requires Inv(ts[0], maxFailures) && maxFailures >= 1
    ensures KeptUpTo(ts, k, maxFailures) <==> NoneWrong(ts, ops, k, maxFailures)
    ensures KeptUpTo(ts, k, maxFailures) ==> ts[k].self == ts[0].self
  {
    if k > 0 {
      EveryRunKeepsInvIff(ts, ops, k - 1, maxFailures);
      LastOfRun(ts, ops, k - 1, maxFailures);
      NoneWrongNext(ts, ops, k, maxFailures);
      KeptUpToNext(ts, k, maxFailures);
      if KeptUpTo(ts, k - 1, maxFailures) {
        ApplyKeepsInvIff(ts[k - 1], ops[k - 1], maxFailures);
      }
    }
  }

  lemma LastOfRun(ts: seq<Table>, ops: seq<Op>, j: nat, maxFailures: int)
    requires IsRun(ts, ops, maxFailures) && j < |ops|
    ensures OfIds(ops[j]) && ts[j + 1] == Apply(ts[j], ops[j], maxFailures)
  {
  }

  lemma NoneWrongNext(ts: seq<Table>, ops: seq<Op>, k: nat, maxFailures: int)
    requires 0 < k <= |ops| < |ts|
    ensures NoneWrong(ts, ops, k, maxFailures) <==>
              NoneWrong(ts, ops, k - 1, maxFailures) && !PutsWrong(ts[k - 1], ops[k - 1], maxFailures)
  {
    if NoneWrong(ts, ops, k - 1, maxFailures) && !PutsWrong(ts[k - 1], ops[k - 1], maxFailures) {
      forall j | 0 <= j < k ensures !PutsWrong(ts[j], ops[j], maxFailures) {
        assert j < k - 1 || j == k - 1;
      }
    }
  }

  lemma KeptUpToNext(ts: seq<Table>, k: nat, maxFailures: int)
    requires 0 < k < |ts|
    ensures KeptUpTo(ts, k, maxFailures) <==> KeptUpTo(ts, k - 1, maxFailures) && Inv(ts[k], maxFailures)
  {
    if KeptUpTo(ts, k - 1, maxFailures) && Inv(ts[k], maxFailures) {
      forall j | 0 <= j <= k ensures Inv(ts[j], maxFailures) {
        assert j <= k - 1 || j == k;
      }
    }
  }

  /** Every table reached from the empty one without a wrong replacement, and so every table reached without
      replacements, as the program itself makes none, satisfies the invariant and has at most 158 buckets. */
  lemma ReachableTables(self: nat, ts: seq<Table>, ops: seq<Op>, k: nat, maxFailures: int)
    requires self < Pow2(HASH_BITS) && maxFailures >= 1
    requires IsRun(ts, ops, maxFailures) && ts[0] == Empty(self) && k <= |ops|
    ensures KeptUpTo(ts, k, maxFailures) <==> NoneWrong(ts, ops, k, maxFailures)
    ensures (forall op :: op in ops && op.OpReplace? ==> op.new_ == None) ==> NoneWrong(ts, ops, k, maxFailures)
    ensures NoneWrong(ts, ops, k, maxFailures) ==> |ts[k].buckets| <= HASH_BITS - 2 && ts[k].self == self
  {
    EmptyInv(self, maxFailures);
    EveryRunKeepsInvIff(ts, ops, k, maxFailures);
    if NoneWrong(ts, ops, k, maxFailures) {
      NeverFull(ts[k], maxFailures);
    }
    if forall op :: op in ops && op.OpReplace? ==> op.new_ == None {
      forall j | 0 <= j < k ensures !PutsWrong(ts[j], ops[j], maxFailures) {
        assert ops[j] in ops;
      }
    }
  }

  /** A table that is given itself as a replacement takes it. */
  lemma OwnIdPutIn(self: nat, maxFailures: int)
    requires self < Pow2(HASH_BITS) && maxFailures >= 1
    ensures var op := OpReplace(0, Some(NodeInfo(self, 0, 0)));
            PutsWrong(Empty(self), op, maxFailures) && !Inv(Apply(Empty(self), op, maxFailures), maxFailures)
  {
    var t, op := Empty(self), OpReplace(0, Some(NodeInfo(self, 0, 0)));
    EmptyInv(self, maxFailures);
    Pow2Monotone(0, HASH_BITS);
    LookupFindsBucket(t, 0, maxFailures);
    LookupFindsBucket(t, self, maxFailures);
    ApplyKeepsInvIff(t, op, maxFailures);
  }

  /** No run ever makes the table hold a contact it was not given. */
  function Given(op: Op): set<nat> {
    match op
    case OpInsert(num, _, _) => {num}
    case OpReplace(_, n) => if n.Some? then {n.value.num} else {}
    case OpJustSeen(_, _) => {}
    case OpFailed(_) => {}
  }

  ghost function NumsHeld(t: Table): set<nat> {
    set n | n in Contents(t.buckets) :: n.num
  }

  /** One call adds at most the contact it was given, right or wrong. */
  lemma ApplyAddsAtMostItsArgument(t: Table, op: Op, maxFailures: int)
    requires Inv(t, maxFailures) && maxFailures >= 1 && OfIds(op)
    ensures NumsHeld(Apply(t, op, maxFailures)) <= NumsHeld(t) + Given(op)
  {
    match op
    case OpInsert(num, contacted, now) => InsertAddsItsArgument(t, num, contacted, now, maxFailures);
    case OpReplace(stale, n) => ReplaceAddsItsArgument(t, stale, n, maxFailures);
    case OpJustSeen(num, now) => SeenAddsNothing(t, num, now, maxFailures);
    case OpFailed(num) => FailedAddsNothing(t, num, maxFailures);
  }

  lemma InsertAddsItsArgument(t: Table, num: nat, contacted: bool, now: int, maxFailures: int)
    requires Inv(t, maxFailures) && maxFailures >= 1 && num < Pow2(HASH_BITS)
    ensures NumsHeld(Insert(t, num, contacted, now).1) <= NumsHeld(t) + {num}
  {
    InsertCorrect(t, num, contacted, now, maxFailures);
  }

  lemma SeenAddsNothing(t: Table, num: nat, now: int, maxFailures: int)
    requires Inv(t, maxFailures) && maxFailures >= 1 && num < Pow2(HASH_BITS)
    ensures NumsHeld(JustSeen(t, num, now).1) <= NumsHeld(t)
  {
    JustSeenCorrect(t, num, now, maxFailures);
    HeldIffRecorded(t, num);
  }

  lemma ReplaceAddsItsArgument(t: Table, stale: nat, n: Option<NodeInfo>, maxFailures: int)
    requires Inv(t, maxFailures) && OfIds(OpReplace(stale, n))
    ensures NumsHeld(ReplaceStale(t, stale, n)) <= NumsHeld(t) + Given(OpReplace(stale, n))
  {
    ReplaceStaleCorrect(t, stale, n, maxFailures);
    DropCorrect(t, stale, maxFailures);
    if Placed(t, stale, n) {
      PlacedIs(t, stale, n.value);
      PlacedAdds(t, stale, n.value, maxFailures);
    }
  }

  lemma PlacedAdds(t: Table, stale: nat, n: NodeInfo, maxFailures: int)
    requires Inv(t, maxFailures) && IndexFor(t.buckets, stale) < |t.buckets|
    ensures NumsHeld(PlacedTable(t, stale, n)) <= NumsHeld(t) + {n.num}
  {
    var i := IndexFor(t.buckets, stale);
    AddByTimeMembers(Kept(t, stale), n);
    assert BucketOk(t.buckets[i], t.self, maxFailures);
    KeptOk(t.buckets[i], stale, t.self, maxFailures);
    forall x | x in Contents(PlacedTable(t, stale, n).buckets) ensures x == n || x in Contents(t.buckets) {
      ContentsOfSet(t.buckets, i, AddByTime(Kept(t, stale), n), x);
      assert x in t.buckets[i].nodes ==> x in Contents(t.buckets);
    }
  }

  lemma ContentsOfSet(bs: seq<Bucket>, i: nat, nodes: seq<NodeInfo>, x: NodeInfo)
    requires i < |bs| && x in Contents(SetNodes(bs, i, nodes))
    ensures x in nodes || x in Contents(bs)
  {
    var j :| 0 <= j < |bs| && x in SetNodes(bs, i, nodes)[j].nodes;
    assert j != i ==> x in bs[j].nodes;
  }

  lemma FailedAddsNothing(t: Table, num: nat, maxFailures: int)
    requires Inv(t, maxFailures) && maxFailures >= 1 && num < Pow2(HASH_BITS)
    ensures NumsHeld(NodeFailed(t, num, maxFailures).1) <= NumsHeld(t)
  {
    NodeFailedCorrect(t, num, maxFailures);
    HeldIffRecorded(t, num);
    if n :| n in Contents(t.buckets) && n.num == num {
      assert n.(fails := n.fails + 1).num in NumsHeld(t);
    }
  }

  // ----- A node that was not contacted enters

  /** The nodes 1 to k, all seen at the same time. */
  function Row(k: nat): seq<NodeInfo> {
    seq(k, i requires 0 <= i < k => NodeInfo(i + 1, 0, 0))
  }

  function RowTable(self: nat, k: nat): Table {
    Table(self, [Bucket(0, Pow2(HASH_BITS), Row(k))])
  }

  lemma NextInRow(self: nat, k: nat)
    requires k < K && K < self < Pow2(HASH_BITS)
    ensures Insert(RowTable(self, k), k + 1, true, 0).1 == RowTable(self, k + 1)
  {
    var t := RowTable(self, k);
    assert IndexFor(t.buckets, k + 1) == 0 by { assert Bisect(t.buckets, k + 1, 0, 0) == 0; }
    assert Find(Row(k), k + 1) == |Row(k)|;
    assert TimePosition(Row(k), NodeInfo(k + 1, 0, 0), k) == k;
    assert AddByTime(Row(k), NodeInfo(k + 1, 0, 0)) == Row(k + 1);
  }

  /** Eight nodes of the other half of the space fill our only bucket; a ninth node, of our half, is then put
      into the table although it was never contacted. */
  lemma UncontactedEnters(self: nat, ts: seq<Table>, ops: seq<Op>, maxFailures: int)
    requires self == Pow2(HASH_BITS - 1) && maxFailures >= 1
    requires ops == seq(K, i requires 0 <= i < K => OpInsert(i + 1, true, 0))
             && ts == seq(K + 1, k requires 0 <= k <= K => RowTable(self, k))
    ensures IsRun(ts, ops, maxFailures) && ts[0] == Empty(self)
    ensures InTable(Insert(ts[K], self + 1, false, 0).1, self + 1)
  {
    Pow2Monotone(5, HASH_BITS - 1);
    assert Pow2(5) == 32;
    forall k | 0 <= k < |ops| ensures OfIds(ops[k]) && ts[k + 1] == Apply(ts[k], ops[k], maxFailures) {
      NextInRow(self, k);
    }
    assert Row(0) == [];
    assert forall op :: op in ops ==> op.OpInsert?;
    ReachableTables(self, ts, ops, K, maxFailures);
    FullRow(self, maxFailures);
  }

  lemma FullRow(self: nat, maxFailures: int)
    requires 32 <= self && self + 1 < Pow2(HASH_BITS) && maxFailures >= 1 && Inv(RowTable(self, K), maxFailures)
    ensures InTable(Insert(RowTable(self, K), self + 1, false, 0).1, self + 1)
  {
    var t := RowTable(self, K);
    RowHasNot(self, self + 1);
    LookupFindsBucket(t, self + 1, maxFailures);
    NotCrowded(self);
    UncontactedIsAddedIff(t, self + 1, 0, maxFailures);
  }

  lemma RowHasNot(self: nat, num: nat)
    requires num > K
    ensures !InTable(RowTable(self, K), num)
  {
  }

  lemma NotCrowded(self: nat)
    requires 32 <= self
    ensures !CrowdedBeside(Row(K), self + 1, self)
  {
    forall q: nat, n: nat {:trigger CrowdedIn(Row(K), self + 1, self, q, n)}
      ensures !CrowdedIn(Row(K), self + 1, self, q, n)
    {
      assert Row(K)[0] in Row(K);
    }
  }
}
