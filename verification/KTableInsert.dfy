/** insertNode: it keeps the invariant, what it does to the contents, and when it refuses. */
module KTableInsert {
  import opened Bits
  import opened KTableSpec
  import opened KTableShape
  import opened KTableLists
  import opened KTableInvariant

  /** The record of num is the only thing that changed: it is there now, with the time of the call. */
  ghost predicate Recorded(t: Table, num: nat, now: int, t': Table) {
    Contents(t'.buckets) == Without(Contents(t.buckets), num) + {NodeInfo(num, now, 0)}
  }

  lemma AddedOk(b: Bucket, kept: seq<NodeInfo>, n: NodeInfo, self: nat, maxFailures: int)
    requires BucketOk(b.(nodes := kept), self, maxFailures) && |kept| < K
    requires NodeOk(b, n, self, maxFailures) && n.num !in Nums(kept)
    ensures BucketOk(b.(nodes := AddByTime(kept, n)), self, maxFailures)
    ensures forall x :: x in AddByTime(kept, n) <==> x in kept || x == n
  {
    AddByTimeMembers(kept, n);
  }

  /** The nodes of b without its record of num, if it has one. */
  function KeptOf(b: Bucket, num: nat): (kept: seq<NodeInfo>)
    ensures |b.nodes| - 1 <= |kept| <= |b.nodes|
  {
    var j := Find(b.nodes, num);
    if j < |b.nodes| then RemoveAt(b.nodes, j) else b.nodes
  }

  lemma KeptOk(b: Bucket, num: nat, self: nat, maxFailures: int)
    requires BucketOk(b, self, maxFailures)
    ensures BucketOk(b.(nodes := KeptOf(b, num)), self, maxFailures)
    ensures num !in Nums(KeptOf(b, num))
    ensures forall n :: n in KeptOf(b, num) <==> n in b.nodes && n.num != num
    ensures Chronological(b.nodes) ==> Chronological(KeptOf(b, num))
  {
    var j := Find(b.nodes, num);
    FindAbsent(b.nodes, num);
    if j < |b.nodes| {
      RemoveAtMembers(b.nodes, j);
      RemoveAtKeeps(b.nodes, j);
    } else {
      forall n | n in b.nodes ensures n.num != num {
        var k :| 0 <= k < |b.nodes| && b.nodes[k] == n;
      }
    }
  }

  lemma RecordCorrect(t: Table, num: nat, now: int, maxFailures: int)
    requires Inv(t, maxFailures) && num < Pow2(HASH_BITS) && num != t.self && maxFailures >= 1
    requires IndexFor(t.buckets, num) < |t.buckets|
    requires |KeptOf(t.buckets[IndexFor(t.buckets, num)], num)| < K
    ensures var i := IndexFor(t.buckets, num);
            var t' := t.(buckets := SetNodes(t.buckets, i,
                AddByTime(KeptOf(t.buckets[i], num), NodeInfo(num, now, 0))));
            && Inv(t', maxFailures) && Recorded(t, num, now, t')
            && (AllChronological(t) ==> AllChronological(t'))
  {
    var i := IndexFor(t.buckets, num);
    var b := t.buckets[i];
    var n := NodeInfo(num, now, 0);
    LookupFindsBucket(t, num, maxFailures);
    assert BucketOk(b, t.self, maxFailures);
    KeptOk(b, num, t.self, maxFailures);
    AddedOk(b, KeptOf(b, num), n, t.self, maxFailures);
    ReplaceNodes(t, num, AddByTime(KeptOf(b, num), n), {n}, maxFailures);
    if AllChronological(t) {
      AddByTimeChronological(KeptOf(b, num), n);
      ChronologicalSet(t, i, AddByTime(KeptOf(b, num), n));
    }
  }

  // ----- insertNode

  /** A pass that ends: it recorded its argument, or changed nothing. */
  lemma FinishCorrect(t: Table, num: nat, contacted: bool, now: int, maxFailures: int)
    requires Inv(t, maxFailures) && num < Pow2(HASH_BITS) && maxFailures >= 1
    requires InsertOnce(t, num, contacted, now).Finish?
    ensures var Finish(r, t') := InsertOnce(t, num, contacted, now);
            && Inv(t', maxFailures) && t'.self == t.self && !r.IndexError?
            && (if num != t.self && r.Inserted? && contacted then Recorded(t, num, now, t') else t' == t)
            && (AllChronological(t) ==> AllChronological(t'))
  {
    LookupFindsBucket(t, num, maxFailures);
    var i := IndexFor(t.buckets, num);
    var b := t.buckets[i];
    assert BucketOk(b, t.self, maxFailures);
    if num != t.self && contacted && (Find(b.nodes, num) < |b.nodes| || |b.nodes| < K) {
      RecordCorrect(t, num, now, maxFailures);
    }
  }

  /** The bucket that covers num is full and not ours, and the node is its first. */
  predicate Offers(t: Table, num: nat, node: NodeInfo) {
    && IndexFor(t.buckets, num) < |t.buckets|
    && var b := t.buckets[IndexFor(t.buckets, num)];
       |b.nodes| == K && b.Has(num) && !b.Has(t.self) && node == b.nodes[0]
  }

  /** What is answered for a node that is not us and not held, whose bucket is b: whether it was contacted counts
      only where there is room; of a full bucket that is not ours the first node is offered, and nothing changes. */
  predicate Answers(t: Table, num: nat, contacted: bool, r: InsertResult, t': Table) {
    && IndexFor(t.buckets, num) < |t.buckets|
    && var b := t.buckets[IndexFor(t.buckets, num)];
       && b.Has(num) && |b.nodes| <= K
       && (r.NotContacted? <==> !contacted && |b.nodes| < K)
       && (contacted && |b.nodes| < K ==> r == Inserted)
       && (|b.nodes| == K && !b.Has(t.self) ==> r == Oldest(b.nodes[0]) && t' == t)
       && (|b.nodes| == K && b.Has(t.self) ==> r == Inserted || r.Oldest?)
  }

  /** The answers of a pass that ends. */
  lemma FinishAnswer(t: Table, num: nat, contacted: bool, now: int, maxFailures: int)
    requires Inv(t, maxFailures) && num < Pow2(HASH_BITS)
    requires InsertOnce(t, num, contacted, now).Finish?
    ensures var r := InsertOnce(t, num, contacted, now).result;
            && (num == t.self || InTable(t, num) ==> r == Inserted)
            && (num != t.self && !InTable(t, num) && r == Inserted ==> contacted)
            && (r.NotContacted? ==> !contacted)
            && (r.Oldest? ==> r.node in Contents(t.buckets) && Offers(t, num, r.node))
            && (r.TableFull? ==> |t.buckets| >= HASH_BITS)
    ensures var Finish(r, t') := InsertOnce(t, num, contacted, now);
            num != t.self && !InTable(t, num) ==> r.TableFull? || Answers(t, num, contacted, r, t')
  {
    HeldIffFound(t, num, maxFailures);
    LookupFindsBucket(t, num, maxFailures);
    assert BucketOk(t.buckets[IndexFor(t.buckets, num)], t.self, maxFailures);
    var b := t.buckets[IndexFor(t.buckets, num)];
    if |b.nodes| > 0 { assert b.nodes[0] in b.nodes && b.nodes[0] in Contents(t.buckets); }
  }

  /** A pass that goes round again: it split our own full bucket, which keeps the invariant and loses nothing. */
  lemma AgainCorrect(t: Table, num: nat, contacted: bool, now: int, maxFailures: int)
    requires Inv(t, maxFailures) && num < Pow2(HASH_BITS)
    requires InsertOnce(t, num, contacted, now).Again?
    ensures var t1 := InsertOnce(t, num, contacted, now).table;
            && Inv(t1, maxFailures) && t1.self == t.self
            && Contents(t1.buckets) == Contents(t.buckets)
            && !InTable(t, num) && !InTable(t1, num) && num != t.self
            && (AllChronological(t) ==> AllChronological(t1))
    ensures IndexFor(t.buckets, num) == HomeOf(t) && |t.buckets[HomeOf(t)].nodes| == K
    ensures t.buckets[HomeOf(t)].min <= t.buckets[HomeOf(t)].max
    ensures InsertOnce(t, num, contacted, now).table == t.(buckets := SplitAt(t.buckets, HomeOf(t)))
  {
    HeldIffFound(t, num, maxFailures);
    var i := IndexFor(t.buckets, num);
    HasSelfIsHome(t, i, maxFailures);
    assert BucketOk(t.buckets[i], t.self, maxFailures);
    SplitKeepsInv(t, maxFailures);
    if AllChronological(t) { SplitKeepsChronology(t, maxFailures); }
    var t1 := InsertOnce(t, num, contacted, now).table;
    HeldIffRecorded(t, num);
    HeldIffRecorded(t1, num);
  }

  /** The path never gets longer than 158 buckets, so the "Hash Table is FULL" guard is never met. */
  lemma NeverFull(t: Table, maxFailures: int)
    requires Inv(t, maxFailures)
    ensures |t.buckets| <= HASH_BITS - 2
  {
    if |t.buckets| >= 2 {
      var q, n := PairBlocks(t.buckets, 0, |t.buckets|, 0, HASH_BITS, t.self);
      var a, b := t.buckets[PairOf(t)], t.buckets[PairOf(t) + 1];
      assert BucketOk(a, t.self, maxFailures) && BucketOk(b, t.self, maxFailures);
      OwnIdNotHeld(a, t.self, maxFailures);
      OwnIdNotHeld(b, t.self, maxFailures);
      PairIsApart(t);
      CrowdIsWide(a.nodes, b.nodes, t.self, q, n + 1);
    }
  }

  /** insertNode keeps the invariant; it records its argument, or leaves the contents as they were; what it
      answers depends on the bucket of its argument; the node it offers for eviction is the first of the full
      bucket of its argument; the "Hash Table is FULL" branch is never taken. */
  lemma {:induction false} InsertCorrect(t: Table, num: nat, contacted: bool, now: int, maxFailures: int)
    requires Inv(t, maxFailures) && num < Pow2(HASH_BITS) && maxFailures >= 1
    ensures var (r, t') := Insert(t, num, contacted, now);
            && Inv(t', maxFailures) && t'.self == t.self
            && !r.TableFull? && !r.IndexError?
            && (num == t.self || InTable(t, num) ==> r == Inserted)
            && (num == t.self || (InTable(t, num) && !contacted) ==> t' == t)
            && (num != t.self && r.Inserted? && (contacted || !InTable(t, num)) ==> Recorded(t, num, now, t'))
            && (!r.Inserted? ==> Contents(t'.buckets) == Contents(t.buckets))
            && (r.NotContacted? ==> !contacted && t' == t)
            && (r.Oldest? ==> r.node in Contents(t.buckets) && Offers(t', num, r.node))
            && (AllChronological(t) ==> AllChronological(t'))
            && (num != t.self && !InTable(t, num) ==> Answers(t, num, contacted, r, t'))
    decreases if |t.buckets| < HASH_BITS then HASH_BITS - |t.buckets| else 0
  {
    NeverFull(t, maxFailures);
    match InsertOnce(t, num, contacted, now)
    case Finish(_, _) =>
      FinishCorrect(t, num, contacted, now, maxFailures);
      FinishAnswer(t, num, contacted, now, maxFailures);
    case Again(t1) =>
      AgainCorrect(t, num, contacted, now, maxFailures);
      HasSelfIsHome(t, HomeOf(t), maxFailures);
      LookupFindsBucket(t, num, maxFailures);
      InsertCorrect(t1, num, true, now, maxFailures);
  }

  // ----- When a full bucket refuses

  /** All nodes of a bucket lie in one aligned block that holds num but not self. */
  ghost predicate CrowdedBeside(nodes: seq<NodeInfo>, num: nat, self: nat) {
    exists q: nat, n: nat :: CrowdedIn(nodes, num, self, q, n)
  }

  predicate CrowdedIn(nodes: seq<NodeInfo>, num: nat, self: nat, q: nat, n: nat) {
    InBlock(num, q, n) && !InBlock(self, q, n) && forall x :: x in nodes ==> InBlock(x.num, q, n)
  }

  lemma {:induction false} ShiftFurther(x: nat, y: nat, m: nat, n: nat)
    requires m <= n && Shift(x, m) == Shift(y, m)
    ensures Shift(x, n) == Shift(y, n)
    decreases n
  {
    if m > 0 {
      ShiftFurther(x / 2, y / 2, m - 1, n - 1);
    }
  }

  /** Two aligned blocks that share a member are nested. */
  lemma BlocksNest(x: nat, q: nat, m: nat, q': nat, n: nat, y: nat)
    requires InBlock(x, q, m) && InBlock(x, q', n) && m <= n && InBlock(y, q, m)
    ensures InBlock(y, q', n)
  {
    InBlockIffShift(x, q, m);
    InBlockIffShift(y, q, m);
    InBlockIffShift(x, q', n);
    InBlockIffShift(y, q', n);
    ShiftFurther(x, y, m, n);
  }

  lemma SubsetCard<T>(a: set<T>, b: set<T>)
    requires a <= b
    ensures |a| <= |b|
    ensures |a| == |b| ==> a == b
  {
    assert b == a + (b - a);
    assert |b| == |a| + |b - a|;
  }

  /** Distinct nodes all found in a list of no more nodes make up that list. */
  lemma SameSizeSameMembers(xs: seq<NodeInfo>, ys: seq<NodeInfo>)
    requires DistinctNums(xs) && DistinctNums(ys) && forall x :: x in xs ==> x in ys
    ensures |xs| <= |ys|
    ensures |xs| == |ys| ==> forall y :: y in ys ==> y in xs
  {
    NumsCount(xs);
    NumsCount(ys);
    assert Nums(xs) <= Nums(ys);
    SubsetCard(Nums(xs), Nums(ys));
    if |xs| == |ys| {
      forall y | y in ys ensures y in xs {
        assert y.num in Nums(xs);
        var x :| x in xs && x.num == y.num;
        OneRecordPerNumber(ys, x, y);
      }
    }
  }

  lemma OneRecordPerNumber(ys: seq<NodeInfo>, x: NodeInfo, y: NodeInfo)
    requires DistinctNums(ys) && x in ys && y in ys && x.num == y.num
    ensures x == y
  {
    var i :| 0 <= i < |ys| && ys[i] == x;
    var j :| 0 <= j < |ys| && ys[j] == y;
    if i < j { } else if j < i { }
  }

  lemma HalfBlocks(b: Bucket, q: nat, n: nat)
    requires n >= 1 && IsBlock(b, q, n) && b.min <= b.max
    requires forall x :: x in b.nodes ==> b.Has(x.num)
    ensures IsBlock(LowerHalf(b), 2 * q, n - 1) && IsBlock(UpperHalf(b), 2 * q + 1, n - 1)
    ensures forall x :: x in LowerHalf(b).nodes <==> x in b.nodes && InBlock(x.num, 2 * q, n - 1)
    ensures forall x :: x in UpperHalf(b).nodes <==> x in b.nodes && InBlock(x.num, 2 * q + 1, n - 1)
  {
    HalfRanges(b, q, n);
    HalvesMembers(b.nodes, SplitPoint(b));
  }

  lemma HalfRanges(b: Bucket, q: nat, n: nat)
    requires n >= 1 && IsBlock(b, q, n)
    ensures b.min <= b.max
    ensures IsBlock(LowerHalf(b), 2 * q, n - 1) && IsBlock(UpperHalf(b), 2 * q + 1, n - 1)
  {
    BlockWidth(b, q, n);
    BlockIsWide(2 * q, n - 1);
  }

  /** After one split the contact's bucket is the half of ours that covers it. */
  lemma SplitLookup(t: Table, num: nat, maxFailures: int) returns (q: nat, n: nat, s: nat)
    requires Inv(t, maxFailures) && num < Pow2(HASH_BITS)
    requires IndexFor(t.buckets, num) == HomeOf(t) && |t.buckets[HomeOf(t)].nodes| == K
    requires t.buckets[HomeOf(t)].min <= t.buckets[HomeOf(t)].max
    requires Inv(t.(buckets := SplitAt(t.buckets, HomeOf(t))), maxFailures)
    ensures var b := t.buckets[HomeOf(t)];
            var cs := SplitAt(t.buckets, HomeOf(t));
            var i := IndexFor(cs, num);
            && i < |cs| && n >= 1 && IsBlock(b, q, n) && (s == 2 * q || s == 2 * q + 1)
            && IsBlock(cs[i], s, n - 1) && cs[i].Has(num) && b.Has(num)
            && forall x :: x in cs[i].nodes <==> x in b.nodes && InBlock(x.num, s, n - 1)
  {
    var h := HomeOf(t);
    var b := t.buckets[h];
    var t1 := t.(buckets := SplitAt(t.buckets, h));
    LookupFindsBucket(t1, num, maxFailures);
    LookupFindsBucket(t, num, maxFailures);
    q, n := FullHomeIsWide(t, maxFailures);
    assert BucketOk(b, t.self, maxFailures);
    HalfBlocks(b, q, n);
    assert t1.buckets[h] == LowerHalf(b) && t1.buckets[h + 1] == UpperHalf(b);
    var i := if num < SplitPoint(b) then h else h + 1;
    assert t1.buckets[i].Has(num);
    s := if num < SplitPoint(b) then 2 * q else 2 * q + 1;
  }

  /** The half that covers the contact holds all nodes exactly when they crowd beside us, or when
      they crowd deeper inside it. */
  lemma HalfOrCrowd(b: Bucket, c: Bucket, num: nat, self: nat, q: nat, n: nat, s: nat)
    requires n >= 1 && IsBlock(b, q, n) && IsBlock(c, s, n - 1) && (s == 2 * q || s == 2 * q + 1)
    requires b.Has(self) && b.Has(num) && c.Has(num)
    requires DistinctNums(b.nodes) && DistinctNums(c.nodes)
    requires forall x :: x in c.nodes <==> x in b.nodes && InBlock(x.num, s, n - 1)
    ensures |c.nodes| <= |b.nodes|
    ensures CrowdedBeside(b.nodes, num, self) ==> |c.nodes| == |b.nodes|
    ensures |c.nodes| == |b.nodes| && !c.Has(self) ==> CrowdedBeside(b.nodes, num, self)
    ensures |c.nodes| == |b.nodes| ==> (CrowdedBeside(c.nodes, num, self) <==> CrowdedBeside(b.nodes, num, self))
  {
    SameSizeSameMembers(c.nodes, b.nodes);
    if |c.nodes| == |b.nodes| {
      assert forall q', n' :: CrowdedIn(c.nodes, num, self, q', n') <==> CrowdedIn(b.nodes, num, self, q', n');
      if !c.Has(self) { assert CrowdedIn(b.nodes, num, self, s, n - 1); }
    }
    if CrowdedBeside(b.nodes, num, self) {
      var q': nat, n': nat :| CrowdedIn(b.nodes, num, self, q', n');
      CrowdInHalf(b, c, num, self, q, n, s, q', n');
    }
  }

  lemma CrowdInHalf(b: Bucket, c: Bucket, num: nat, self: nat, q: nat, n: nat, s: nat, q': nat, n': nat)
    requires n >= 1 && IsBlock(b, q, n) && IsBlock(c, s, n - 1)
    requires b.Has(self) && b.Has(num) && c.Has(num)
    requires DistinctNums(b.nodes) && DistinctNums(c.nodes)
    requires forall x :: x in c.nodes <==> x in b.nodes && InBlock(x.num, s, n - 1)
    requires CrowdedIn(b.nodes, num, self, q', n')
    ensures |b.nodes| <= |c.nodes|
  {
    if n' >= n {
      BlocksNest(num, q, n, q', n', self);
    }
    forall x | x in b.nodes ensures x in c.nodes {
      BlocksNest(num, q', n', s, n - 1, x.num);
    }
    SameSizeSameMembers(b.nodes, c.nodes);
  }

  /** What a contacted insertion answers when its bucket has room, or is full and not ours. */
  lemma OnePassAnswer(t: Table, num: nat, now: int, maxFailures: int)
    requires Inv(t, maxFailures) && num < Pow2(HASH_BITS) && num != t.self && !InTable(t, num)
    requires IndexFor(t.buckets, num) < |t.buckets|
    ensures var b := t.buckets[IndexFor(t.buckets, num)];
            var r := Insert(t, num, true, now).0;
            && |b.nodes| <= K
            && (|b.nodes| < K ==> r.Inserted?)
            && (|b.nodes| == K && !b.Has(t.self) ==> r.Oldest?)
  {
    HeldIffFound(t, num, maxFailures);
    assert BucketOk(t.buckets[IndexFor(t.buckets, num)], t.self, maxFailures);
  }

  /** Our own full bucket refuses a new contact exactly when all its nodes are crowded
      into one subtree beside us that the contact would join. */
  lemma {:induction false} FullHomeRefusesIff(t: Table, num: nat, contacted: bool, now: int, maxFailures: int)
    requires Inv(t, maxFailures) && num < Pow2(HASH_BITS) && maxFailures >= 1
    requires num != t.self && !InTable(t, num)
    requires IndexFor(t.buckets, num) == HomeOf(t) && |t.buckets[HomeOf(t)].nodes| == K
    ensures var r := Insert(t, num, contacted, now).0;
            && (r.Oldest? <==> CrowdedBeside(t.buckets[HomeOf(t)].nodes, num, t.self))
            && (r.Inserted? <==> !CrowdedBeside(t.buckets[HomeOf(t)].nodes, num, t.self))
    decreases if |t.buckets| < HASH_BITS then HASH_BITS - |t.buckets| else 0
  {
    FullHomeSplits(t, num, contacted, now, maxFailures);
    AgainCorrect(t, num, contacted, now, maxFailures);
    var t1 := InsertOnce(t, num, contacted, now).table;
    assert Insert(t, num, contacted, now) == Insert(t1, num, true, now);
    var q, n, s := SplitLookup(t, num, maxFailures);
    var i := IndexFor(t1.buckets, num);
    var b, c := t.buckets[HomeOf(t)], t1.buckets[i];
    HasSelfIsHome(t, HomeOf(t), maxFailures);
    assert BucketOk(b, t.self, maxFailures) && BucketOk(c, t.self, maxFailures);
    HalfOrCrowd(b, c, num, t.self, q, n, s);
    OnePassAnswer(t1, num, now, maxFailures);
    if |c.nodes| == K && c.Has(t.self) {
      HasSelfIsHome(t1, i, maxFailures);
      FullHomeRefusesIff(t1, num, true, now, maxFailures);
    }
  }

  lemma FullHomeSplits(t: Table, num: nat, contacted: bool, now: int, maxFailures: int)
    requires Inv(t, maxFailures) && num < Pow2(HASH_BITS) && num != t.self && !InTable(t, num)
    requires IndexFor(t.buckets, num) == HomeOf(t) && |t.buckets[HomeOf(t)].nodes| == K
    ensures InsertOnce(t, num, contacted, now).Again?
  {
    HeldIffFound(t, num, maxFailures);
    HasSelfIsHome(t, HomeOf(t), maxFailures);
    NeverFull(t, maxFailures);
  }

  /** "Not contacted" does not keep a node out when our own bucket has to be split for it: the flag is
      lost on the way. It is added exactly when its bucket is our own, full, and not crowded beside us. */
  lemma UncontactedIsAddedIff(t: Table, num: nat, now: int, maxFailures: int)
    requires Inv(t, maxFailures) && num < Pow2(HASH_BITS) && maxFailures >= 1
    requires num != t.self && !InTable(t, num)
    ensures IndexFor(t.buckets, num) < |t.buckets|
    ensures var b := t.buckets[IndexFor(t.buckets, num)];
            InTable(Insert(t, num, false, now).1, num) <==>
            b.Has(t.self) && |b.nodes| == K && !CrowdedBeside(b.nodes, num, t.self)
  {
    HeldIffFound(t, num, maxFailures);
    var i := IndexFor(t.buckets, num);
    var b := t.buckets[i];
    InsertCorrect(t, num, false, now, maxFailures);
    HasSelfIsHome(t, i, maxFailures);
    assert BucketOk(b, t.self, maxFailures);
    var (r, t') := Insert(t, num, false, now);
    HeldIffRecorded(t, num);
    HeldIffRecorded(t', num);
    if b.Has(t.self) && |b.nodes| == K {
      FullHomeRefusesIff(t, num, false, now, maxFailures);
    }
    if r.Inserted? {
      assert NodeInfo(num, now, 0) in Contents(t'.buckets);
    }
  }
}
