/** The pieces of a file: which are asked for, being written or complete, and where their data stands. */
module Pieces {
  import opened Chunks
  import opened Text
  import opened Streams

  /** A piece is not there, is being asked of a site, or is complete. */
  datatype Status = Missing | Taken(site: string) | Complete

  // ----- Which pieces are being worked on

  /** A piece is taken exactly while one attempt at it is under way, which waits for an answer or writes. */
  ghost predicate Books(complete: seq<Status>, asked: set<nat>, writing: set<nat>, done: set<nat>, next: nat) {
    && next <= |complete|
    && (forall p :: p in asked || p in writing || p in done ==> p < |complete|)
    && (forall p :: 0 <= p < |complete| ==> BookOf(complete, asked, writing, done, next, p))
  }

  ghost predicate BookOf(complete: seq<Status>, asked: set<nat>, writing: set<nat>, done: set<nat>, next: nat, p: nat)
    requires p < |complete|
  {
    && (complete[p].Taken? <==> p in asked || p in writing) && !(p in asked && p in writing)
    && (complete[p].Complete? <==> p in done)
    && (p < next ==> complete[p].Complete?)
  }

  lemma BooksAsk(complete: seq<Status>, asked: set<nat>, writing: set<nat>, done: set<nat>, next: nat, p: nat,
                 site: string)
    requires Books(complete, asked, writing, done, next) && p < |complete| && complete[p].Missing?
    ensures Books(complete[p := Taken(site)], asked + {p}, writing, done, next) && p !in asked
  {
    var complete', asked' := complete[p := Taken(site)], asked + {p};
    forall q: nat | q < |complete| ensures BookOf(complete', asked', writing, done, next, q) {
      assert BookOf(complete, asked, writing, done, next, q);
    }
    assert BookOf(complete, asked, writing, done, next, p);
  }

  /** An attempt ends without a piece. */
  lemma BooksDrop(complete: seq<Status>, asked: set<nat>, writing: set<nat>, done: set<nat>, next: nat, p: nat)
    requires Books(complete, asked, writing, done, next) && (p in asked || p in writing)
    ensures p < |complete| && Books(complete[p := Missing], asked - {p}, writing - {p}, done, next)
  {
    var complete', asked', writing' := complete[p := Missing], asked - {p}, writing - {p};
    forall q: nat | q < |complete| ensures BookOf(complete', asked', writing', done, next, q) {
      assert BookOf(complete, asked, writing, done, next, q);
    }
  }

  /** An answer has come, and its body is being written. */
  lemma BooksWrite(complete: seq<Status>, asked: set<nat>, writing: set<nat>, done: set<nat>, next: nat, p: nat)
    requires Books(complete, asked, writing, done, next) && p in asked
    ensures p < |complete| && p !in writing && p >= next && p !in done
            && Books(complete, asked - {p}, writing + {p}, done, next)
  {
    assert BookOf(complete, asked, writing, done, next, p);
    var asked', writing' := asked - {p}, writing + {p};
    forall q: nat | q < |complete| ensures BookOf(complete, asked', writing', done, next, q) {
      assert BookOf(complete, asked, writing, done, next, q);
    }
  }

  /** A piece has been accepted. */
  lemma BooksDone(complete: seq<Status>, asked: set<nat>, writing: set<nat>, done: set<nat>, next: nat, p: nat)
    requires Books(complete, asked, writing, done, next) && p in writing
    ensures p < |complete| && Books(complete[p := Complete], asked, writing - {p}, done + {p}, next)
  {
    var complete', writing', done' := complete[p := Complete], writing - {p}, done + {p};
    forall q: nat | q < |complete| ensures BookOf(complete', asked, writing', done', next, q) {
      assert BookOf(complete, asked, writing, done, next, q);
    }
  }

  /** A missing piece is another than one that is being written. */
  lemma MissingStays(complete: seq<Status>, asked: set<nat>, writing: set<nat>, done: set<nat>, next: nat, p: nat)
    requires Books(complete, asked, writing, done, next) && p in writing
    ensures p < |complete| && (Missing in complete ==> Missing in complete[p := Complete])
  {
    if Missing in complete {
      var q :| 0 <= q < |complete| && complete[q].Missing?;
      assert BookOf(complete, asked, writing, done, next, p);
      assert complete[p := Complete][q].Missing?;
    }
  }

  lemma BooksNext(complete: seq<Status>, asked: set<nat>, writing: set<nat>, done: set<nat>, next: nat)
    requires Books(complete, asked, writing, done, next) && next < |complete| && complete[next].Complete?
    ensures Books(complete, asked, writing, done, next + 1)
  {
    var next' := next + 1;
    forall q: nat | q < |complete| ensures BookOf(complete, asked, writing, done, next', q) {
      assert BookOf(complete, asked, writing, done, next, q);
    }
  }

  // ----- What stands in the file

  /** Data of piece p stands in the file where the piece belongs, and nowhere else if there are others. */
  predicate StandsIn(f: string, p: nat, s: string, pieces: nat) {
    p < pieces && Stands(f, p * PIECE_SIZE, s) && (pieces == 1 || |s| <= PIECE_SIZE)
  }

  /** Data written for one piece leaves the others alone. */
  lemma OthersStand(f: string, pos: nat, data: string, p: nat, pieces: nat)
    requires p < pieces && p * PIECE_SIZE <= pos && (pieces == 1 || pos + |data| <= (p + 1) * PIECE_SIZE)
    ensures forall q: nat, s :: StandsIn(f, q, s, pieces) && q != p ==> StandsIn(WriteAt(f, pos, data), q, s, pieces)
  {
    forall q: nat, s | StandsIn(f, q, s, pieces) && q != p ensures StandsIn(WriteAt(f, pos, data), q, s, pieces) {
      if q < p {
        assert (q + 1) * PIECE_SIZE <= p * PIECE_SIZE;
      } else {
        assert (p + 1) * PIECE_SIZE <= q * PIECE_SIZE;
      }
      WriteOutside(f, pos, data, q * PIECE_SIZE, s);
    }
  }

  // ----- Which pieces are asked for

  /** How many pieces from one on and before another are missing. */
  function MissingIn(complete: seq<Status>, from: nat, to: nat): (n: nat)
    requires from <= to <= |complete|
    ensures n <= to - from
  {
    if from == to then 0 else MissingIn(complete, from, to - 1) + if complete[to - 1].Missing? then 1 else 0
  }

  /** The sites are taken from the end of the list. */
  function FromEnd(sites: seq<string>, n: nat): string {
    if n < |sites| then sites[|sites| - 1 - n] else ""
  }

  /** The missing pieces from one on and before another are asked for, each of the next site. */
  predicate AskedFor(before: seq<Status>, after: seq<Status>, sites: seq<string>, left: seq<string>, from: nat,
                     to: nat) {
    && from <= to <= |before| == |after| && MissingIn(before, from, to) <= |sites|
    && left == sites[..|sites| - MissingIn(before, from, to)]
    && forall p: nat :: p < |before| ==> after[p] == AskedAs(before, sites, from, to, p)
  }

  function AskedAs(before: seq<Status>, sites: seq<string>, from: nat, to: nat, p: nat): Status
    requires p < |before|
  {
    if from <= p < to && before[p].Missing? then Taken(FromEnd(sites, MissingIn(before, from, p))) else before[p]
  }

  /** A piece more is looked at. */
  lemma AskedMore(before: seq<Status>, after: seq<Status>, sites: seq<string>, left: seq<string>, from: nat, to: nat)
    requires AskedFor(before, after, sites, left, from, to) && to < |before| && left != []
    ensures before[to] == after[to]
    ensures if before[to].Missing?
            then AskedFor(before, after[to := Taken(left[|left| - 1])], sites, left[..|left| - 1], from, to + 1)
            else AskedFor(before, after, sites, left, from, to + 1)
  {
    assert after[to] == AskedAs(before, sites, from, to, to);
    assert before[to].Missing? ==> FromEnd(sites, MissingIn(before, from, to)) == left[|left| - 1];
    forall p: nat | p < |before|
      ensures AskedAs(before, sites, from, to + 1, p)
              == if p == to && before[p].Missing? then Taken(left[|left| - 1]) else after[p]
    {
      assert after[p] == AskedAs(before, sites, from, to, p);
    }
  }

  // ----- When the file is what was accepted

  ghost predicate AllStand(f: string, acc: seq<string>) {
    forall p :: 0 <= p < |acc| ==> StandsIn(f, p, acc[p], |acc|)
  }

  /** Every piece before the last that is not empty is full. */
  predicate FullBeforeLast(acc: seq<string>) {
    forall p, q :: 0 <= p < q < |acc| && acc[q] != "" ==> |acc[p]| == PIECE_SIZE
  }

  /** A file in which the pieces stand is these pieces one after the other exactly if all but the last are
      full and it is not longer. */
  lemma InOrderIff(f: string, acc: seq<string>)
    requires AllStand(f, acc)
    ensures f == Bytes(acc) <==> FullBeforeLast(acc) && |f| <= |Bytes(acc)|
  {
    var k := LastByte(acc, |acc|);
    assert acc[..|acc|] == acc;
    if k > 0 {
      PrefixBytes(acc, k);
      assert StandsIn(f, k - 1, acc[k - 1], |acc|);
    }
    if f == Bytes(acc) && k > 1 {
      AtMostFull(f, acc, k - 1);
      forall p | 0 <= p < k - 1 ensures |acc[p]| == PIECE_SIZE {
        EachFull(f, acc, k - 1, p);
      }
    }
    if FullBeforeLast(acc) && |f| <= |Bytes(acc)| {
      if k > 1 {
        LengthOfFull(acc, k - 1);
      }
      ExactLength(f, acc, |acc|);
    }
  }

  /** Behind the first k pieces nothing follows; the last of these has bytes. */
  lemma {:induction false} LastByte(acc: seq<string>, n: nat) returns (k: nat)
    requires n <= |acc|
    ensures k <= n && (k > 0 ==> acc[k - 1] != "") && Bytes(acc[..k]) == Bytes(acc[..n])
    ensures forall p :: k <= p < n ==> acc[p] == ""
  {
    k := n;
    if n > 0 && acc[n - 1] == "" {
      PrefixBytes(acc, n);
      k := LastByte(acc, n - 1);
    }
  }

  lemma {:induction false} LengthOfFull(acc: seq<string>, k: nat)
    requires k <= |acc| && forall p :: 0 <= p < k ==> |acc[p]| == PIECE_SIZE
    ensures |Bytes(acc[..k])| == k * PIECE_SIZE
  {
    if k > 0 {
      PrefixBytes(acc, k);
      LengthOfFull(acc, k - 1);
    }
  }

  lemma {:induction false} EachFull(f: string, acc: seq<string>, k: nat, p: nat)
    requires AllStand(f, acc) && |acc| > 1 && p < k <= |acc| && |Bytes(acc[..k])| == k * PIECE_SIZE
    ensures |acc[p]| == PIECE_SIZE
  {
    PrefixBytes(acc, k);
    AtMostFull(f, acc, k - 1);
    assert StandsIn(f, k - 1, acc[k - 1], |acc|);
    if p < k - 1 {
      EachFull(f, acc, k - 1, p);
    }
  }

  // ----- Pieces without gaps

  lemma PrefixBytes(acc: seq<string>, k: nat)
    requires 0 < k <= |acc|
    ensures Bytes(acc[..k]) == Bytes(acc[..k - 1]) + acc[k - 1]
  {
    assert acc[..k] == acc[..k - 1] + [acc[k - 1]];
    BytesAppend(acc[..k - 1], [acc[k - 1]]);
    OneChunk(acc[k - 1]);
  }

  lemma {:induction false} AtMostFull(f: string, acc: seq<string>, k: nat)
    requires k <= |acc| && AllStand(f, acc)
    requires |acc| > 1
    ensures |Bytes(acc[..k])| <= k * PIECE_SIZE
  {
    if k > 0 {
      PrefixBytes(acc, k);
      AtMostFull(f, acc, k - 1);
      assert StandsIn(f, k - 1, acc[k - 1], |acc|);
    }
  }

  /** If the first pieces have their full length together, they stand one after the other. */
  lemma {:induction false} FullPieces(f: string, acc: seq<string>, k: nat)
    requires k <= |acc| && AllStand(f, acc)
    requires |acc| > 1 && |Bytes(acc[..k])| == k * PIECE_SIZE
    ensures k * PIECE_SIZE <= |f| && f[..k * PIECE_SIZE] == Bytes(acc[..k])
  {
    if k > 0 {
      PrefixBytes(acc, k);
      AtMostFull(f, acc, k - 1);
      assert StandsIn(f, k - 1, acc[k - 1], |acc|);
      FullPieces(f, acc, k - 1);
      AtIsSlice(f, (k - 1) * PIECE_SIZE, acc[k - 1]);
      assert f[..k * PIECE_SIZE] == f[..(k - 1) * PIECE_SIZE] + f[(k - 1) * PIECE_SIZE..k * PIECE_SIZE];
    }
  }

  lemma {:induction false} ExactLength(f: string, acc: seq<string>, k: nat)
    requires k <= |acc| && AllStand(f, acc)
    requires |f| == |Bytes(acc[..k])|
    ensures f == Bytes(acc[..k])
  {
    if k > 0 {
      PrefixBytes(acc, k);
      var last, from := acc[k - 1], (k - 1) * PIECE_SIZE;
      assert StandsIn(f, k - 1, last, |acc|);
      if last == "" {
        ExactLength(f, acc, k - 1);
      } else {
        if |acc| > 1 {
          AtMostFull(f, acc, k - 1);
          FullPieces(f, acc, k - 1);
        }
        AtIsSlice(f, from, last);
        assert f == f[..from] + f[from..from + |last|];
      }
    }
  }
}
