/** Throttled uploads: a token bucket shared by all connections, and the queue of those that wait for it. */
module Policies {
  import opened Options
  import opened Chunks

  const CHUNK_SIZE: nat := 4096

  // ----- Buffers

  /** What a buffer is drained to: a connection writes chunk by chunk until no byte is left. */
  function Drained(chunks: seq<string>): (r: seq<string>)
    requires |chunks| > 0
    decreases |chunks|
  {
    if Bytes(chunks[1..]) == "" then chunks[1..] else Drained(chunks[1..])
  }

  /** Empty chunks are left behind exactly when the last of several chunks is empty. */
  lemma {:induction false} LeftBehindIff(chunks: seq<string>)
    requires |chunks| > 0
    ensures Drained(chunks) != [] <==> |chunks| >= 2 && chunks[|chunks| - 1] == ""
    decreases |chunks|
  {
    var rest := chunks[1..];
    if Bytes(rest) == "" {
      NoBytes(rest);
      if |rest| > 0 { assert rest[|rest| - 1] == chunks[|chunks| - 1]; }
    } else {
      assert |rest| > 0;
      LeftBehindIff(rest);
      assert rest[|rest| - 1] == chunks[|chunks| - 1];
      if |rest| == 1 { assert rest[1..] == []; assert Bytes(rest) == rest[0] + ""; }
    }
  }

  /** What has become of a buffer in the queue: nothing yet; a part was written, and the rest has bytes and
      waits; or it is out of the queue, drained, and its connection is stuck exactly if chunks are left. */
  predicate Served(now: seq<string>, before: seq<string>, waits: bool, stuck: bool) {
    if waits then
      !stuck && before != [] && now != [] && Drained(now) == Drained(before)
      && (now == before || (|now| < |before| && Bytes(now) != ""))
    else before != [] && now == Drained(before) && (stuck <==> now != [])
  }

  /** A connection as it was. */
  datatype Past = Past(submitted: string, sent: string, buffer: seq<string>, waited: bool, stuck: bool)

  /** How many chunks are written before the others have to wait. */
  function Passed(limited: bool, available: int, chunks: seq<string>, i: nat): (n: nat)
    requires i <= |chunks|
    ensures i <= n <= |chunks|
    decreases |chunks| - i
  {
    if i == |chunks| || (limited && available <= 0) then i
    else Passed(limited, available - |chunks[i]|, chunks, i + 1)
  }

  // ----- The bucket

  /** The bytes written so far by all connections, those that may be written, the refills so far, and the bytes
      that could not be kept because nobody had used them. */
  datatype Snap = Snap(written: nat, available: int, refills: nat, unused: nat)

  /** What may be written stays in range, and every byte of the first filling and of each refill has been written,
      may still be written, or went unused. */
  ghost predicate InRange(s: Snap, limit: nat, maxChunk: nat) {
    && 0 < s.available + maxChunk && s.available <= limit
    && s.written + s.available + s.unused == limit * (s.refills + 1)
  }

  /** Something was written while that was allowed, or there was a refill, at which what was left went unused. */
  predicate Next(s: Snap, t: Snap) {
    || (s.available > 0 && t.refills == s.refills && t.unused == s.unused && t.written >= s.written)
    || (t.refills == s.refills + 1 && t.written == s.written
        && t.unused == s.unused + if s.available > 0 then s.available else 0)
  }

  ghost predicate History(log: seq<Snap>, limit: nat, maxChunk: nat) {
    && (forall i :: 0 <= i < |log| ==> InRange(log[i], limit, maxChunk))
    && (forall i :: 0 < i < |log| ==> Next(log[i - 1], log[i]))
  }

  lemma {:induction false} NeverLess(log: seq<Snap>, limit: nat, maxChunk: nat, i: nat, j: nat)
    requires History(log, limit, maxChunk) && i <= j < |log|
    ensures log[i].written <= log[j].written && log[i].refills <= log[j].refills && log[i].unused <= log[j].unused
  {
    if i < j {
      NeverLess(log, limit, maxChunk, i, j - 1);
      assert Next(log[j - 1], log[j]);
    }
  }

  /** What is written over a part of a history with n refills is n times the limit, and the difference of what may
      be written, but for what goes unused. */
  lemma Written(log: seq<Snap>, limit: nat, maxChunk: nat, i: nat, j: nat)
    requires History(log, limit, maxChunk) && i <= j < |log|
    ensures log[j].written - log[i].written
            == (log[j].refills - log[i].refills) * limit + log[i].available - log[j].available
               - (log[j].unused - log[i].unused)
  {
    assert InRange(log[i], limit, maxChunk) && InRange(log[j], limit, maxChunk);
    assert limit * (log[j].refills + 1) - limit * (log[i].refills + 1) == (log[j].refills - log[i].refills) * limit;
  }

  /** However long a connection's history, over any part of it with n refills at most (n + 1) times the limit,
      and less than a chunk more, is written. */
  lemma WindowBound(log: seq<Snap>, limit: nat, maxChunk: nat, i: nat, j: nat)
    requires History(log, limit, maxChunk) && i <= j < |log|
    ensures log[j].written - log[i].written <= (log[j].refills - log[i].refills + 1) * limit + maxChunk - 1
  {
    NeverLess(log, limit, maxChunk, i, j);
    Written(log, limit, maxChunk, i, j);
    assert InRange(log[i], limit, maxChunk) && InRange(log[j], limit, maxChunk);
    assert (log[j].refills - log[i].refills + 1) * limit == (log[j].refills - log[i].refills) * limit + limit;
  }

  /** No refill of a part of a history came while something could still be written. */
  predicate InNeed(log: seq<Snap>, i: nat, j: nat)
    requires j < |log|
  {
    forall k :: i < k <= j && log[k].refills > log[k - 1].refills ==> log[k - 1].available <= 0
  }

  lemma {:induction false} NoneUnused(log: seq<Snap>, limit: nat, maxChunk: nat, i: nat, j: nat)
    requires History(log, limit, maxChunk) && i <= j < |log| && InNeed(log, i, j)
    ensures log[j].unused == log[i].unused
  {
    if i < j {
      NoneUnused(log, limit, maxChunk, i, j - 1);
      assert Next(log[j - 1], log[j]);
    }
  }

  /** Then n refills are used up: when nothing can be written any more, n times the limit was written, less than a
      chunk excepted. */
  lemma WindowUsed(log: seq<Snap>, limit: nat, maxChunk: nat, i: nat, j: nat)
    requires History(log, limit, maxChunk) && i <= j < |log| && InNeed(log, i, j) && log[j].available <= 0
    ensures log[j].written - log[i].written >= (log[j].refills - log[i].refills) * limit - maxChunk + 1
  {
    NoneUnused(log, limit, maxChunk, i, j);
    Written(log, limit, maxChunk, i, j);
    assert InRange(log[i], limit, maxChunk);
  }

  lemma HistoryMore(log: seq<Snap>, s: Snap, limit: nat, maxChunk: nat)
    requires |log| > 0 && History(log, limit, maxChunk) && InRange(s, limit, maxChunk) && Next(log[|log| - 1], s)
    ensures History(log + [s], limit, maxChunk)
  {
  }

  lemma AfterRefill(s: Snap, limit: nat, maxChunk: nat, available: int)
    requires InRange(s, limit, maxChunk) && available == if s.available > 0 then limit else s.available + limit
    ensures InRange(Snap(s.written, available, s.refills + 1, s.unused + if s.available > 0 then s.available else 0),
                    limit, maxChunk)
  {
    assert limit * (s.refills + 2) == limit * (s.refills + 1) + limit;
  }

  class ThrottlingProtocol {
    const factory: ThrottlingFactory
    var buffer: seq<string>
    var length: int
    var throttled: bool
    /** What was given to it to write, what it has written, whether an empty chunk was among it, and
        whether it waits although nobody will ever let it go on. */
    ghost var submitted: string
    ghost var sent: string
    ghost var sawEmpty: bool
    ghost var stuck: bool

    constructor (factory: ThrottlingFactory)
      ensures this.factory == factory && Ok() && buffer == [] && !throttled && submitted == "" && !sawEmpty && !stuck
    {
      this.factory := factory;
      buffer, length, throttled := [], 0, false;
      submitted, sent, sawEmpty, stuck := "", "", false, false;
    }

    /** What was written, followed by what is buffered, is what was submitted, in order. */
    ghost predicate Ok()
      reads this
    {
      && sent + Bytes(buffer) == submitted && length == |Bytes(buffer)|
      && (throttled <==> buffer != [])
      && (forall i :: 0 <= i < |buffer| ==> |buffer[i]| <= factory.maxChunk)
      && (!sawEmpty ==> NoneEmpty(buffer) && !stuck)
      && (stuck ==> throttled)
    }

    /** Data goes through to the transport. */
    method Send(data: string)
      requires Ok() && !throttled
      modifies this`submitted, this`sent, this`sawEmpty
      ensures Ok() && submitted == old(submitted) + data && sent == old(sent) + data
      ensures sawEmpty == (old(sawEmpty) || data == "")
    {
      submitted, sent, sawEmpty := submitted + data, sent + data, sawEmpty || data == "";
    }

    /** Data is buffered. */
    method Hold(chunks: seq<string>)
      requires Ok() && chunks != [] && forall i :: 0 <= i < |chunks| ==> |chunks[i]| <= factory.maxChunk
      modifies this`buffer, this`length, this`throttled, this`submitted, this`sawEmpty
      ensures Ok() && throttled && buffer == old(buffer) + chunks && submitted == old(submitted) + Bytes(chunks)
      ensures sawEmpty == (old(sawEmpty) || !NoneEmpty(chunks))
    {
      BytesAppend(buffer, chunks);
      assert sent + (Bytes(buffer) + Bytes(chunks)) == sent + Bytes(buffer) + Bytes(chunks);
      buffer := buffer + chunks;
      length := length + |Bytes(chunks)|;
      throttled := true;
      submitted := submitted + Bytes(chunks);
      sawEmpty := sawEmpty || !NoneEmpty(chunks);
    }

    /** write. */
    method Write(data: string)
      requires factory.Valid() && factory.Spent() && this in factory.protocols && |data| <= factory.maxChunk
      modifies this, factory`writeAvailable, factory`log, factory`writeQueue
      ensures factory.Valid() && factory.Spent() && submitted == old(submitted) + data
              && sawEmpty == (old(sawEmpty) || data == "")
      ensures if old(throttled) || (factory.writeLimit.Some? && old(factory.writeAvailable) <= 0)
              then buffer == old(buffer) + [data] && sent == old(sent)
              else buffer == [] && sent == submitted
      ensures factory.writeAvailable ==
                old(factory.writeAvailable)
                - if factory.writeLimit.Some? && !old(throttled) && old(factory.writeAvailable) > 0 then |data| else 0
      ensures factory.writeQueue == old(factory.writeQueue) + if throttled && !old(throttled) then [this] else []
      ensures stuck == old(stuck)
    {
      var paused := Some(true);
      if !throttled {
        paused := factory.RegisterWritten(|data|);
        if paused != Some(true) {
          Send(data);
          return;
        }
      }
      OneChunk(data);
      HoldBack([data]);
    }

    /** writeSequence: chunks are written while they may be, the others are buffered. */
    method WriteSequence(chunks: seq<string>)
      requires factory.Valid() && factory.Spent() && this in factory.protocols
      requires forall i :: 0 <= i < |chunks| ==> |chunks[i]| <= factory.maxChunk
      modifies this, factory`writeAvailable, factory`log, factory`writeQueue
      ensures factory.Valid() && factory.Spent() && submitted == old(submitted) + Bytes(chunks)
      ensures factory.writeQueue == old(factory.writeQueue) + if throttled && !old(throttled) then [this] else []
      ensures stuck == old(stuck) && (NoneEmpty(chunks) ==> sawEmpty == old(sawEmpty))
      ensures var n := if old(throttled) then 0
                       else Passed(factory.writeLimit.Some?, old(factory.writeAvailable), chunks, 0);
              && sent == old(sent) + Bytes(chunks[..n]) && buffer == old(buffer) + chunks[n..]
              && (factory.writeLimit.Some? ==>
                    old(factory.writeAvailable) - factory.writeAvailable == |Bytes(chunks[..n])|)
    {
      var i := 0;
      if !throttled {
        i := SendSome(chunks);
      }
      InTwoParts(chunks, i);
      if i < |chunks| {
        HoldBack(chunks[i..]);
      }
    }

    lemma InTwoParts(chunks: seq<string>, i: nat)
      requires i <= |chunks|
      ensures forall s: string :: s + Bytes(chunks[..i]) + Bytes(chunks[i..]) == s + Bytes(chunks)
      ensures i == |chunks| ==> chunks[..i] == chunks && chunks[i..] == []
      ensures NoneEmpty(chunks) ==> NoneEmpty(chunks[i..])
    {
      BytesAppend(chunks[..i], chunks[i..]);
      assert chunks[..i] + chunks[i..] == chunks;
      assert forall s: string, a: string, b: string :: s + a + b == s + (a + b);
    }

    /** Data is buffered, and the connection queued if it was not throttled before. */
    method HoldBack(chunks: seq<string>)
      requires factory.Valid() && this in factory.protocols && factory.writeLimit.Some?
      requires chunks != [] && forall i :: 0 <= i < |chunks| ==> |chunks[i]| <= factory.maxChunk
      modifies this`buffer, this`length, this`throttled, this`submitted, this`sawEmpty, factory`writeQueue
      ensures factory.Valid() && buffer == old(buffer) + chunks && submitted == old(submitted) + Bytes(chunks)
              && throttled
      ensures factory.writeQueue == old(factory.writeQueue) + if !old(throttled) then [this] else []
      ensures sawEmpty == (old(sawEmpty) || !NoneEmpty(chunks))
    {
      var was := throttled;
      Hold(chunks);
      if !was {
        factory.ThrottledWrites(this);
      }
    }

    /** The loop of writeSequence. */
    method SendSome(chunks: seq<string>) returns (i: nat)
      requires factory.Counted() && Ok() && !throttled
      requires forall i :: 0 <= i < |chunks| ==> |chunks[i]| <= factory.maxChunk
      modifies this`submitted, this`sent, this`sawEmpty, factory`writeAvailable, factory`log
      ensures factory.Counted() && Ok() && i <= |chunks| && submitted == old(submitted) + Bytes(chunks[..i])
      ensures i == Passed(factory.writeLimit.Some?, old(factory.writeAvailable), chunks, 0)
      ensures sent == old(sent) + Bytes(chunks[..i])
      ensures factory.writeLimit.Some? ==>
                old(factory.writeAvailable) - factory.writeAvailable == |Bytes(chunks[..i])|
      ensures NoneEmpty(chunks) ==> sawEmpty == old(sawEmpty)
      ensures i < |chunks| ==> factory.writeLimit.Some? && factory.writeAvailable <= 0
    {
      i := 0;
      while i < |chunks|
        invariant factory.Counted() && Ok() && i <= |chunks| && submitted == old(submitted) + Bytes(chunks[..i])
        invariant sent == old(sent) + Bytes(chunks[..i])
        invariant factory.writeLimit.Some? ==>
                    old(factory.writeAvailable) - factory.writeAvailable == |Bytes(chunks[..i])|
        invariant Passed(factory.writeLimit.Some?, old(factory.writeAvailable), chunks, 0)
                  == Passed(factory.writeLimit.Some?,
                            if factory.writeLimit.Some? then factory.writeAvailable
                            else old(factory.writeAvailable) - |Bytes(chunks[..i])|,
                            chunks, i)
        invariant NoneEmpty(chunks) ==> sawEmpty == old(sawEmpty)
      {
        var paused := factory.RegisterWritten(|chunks[i]|);
        if paused == Some(true) {
          return;
        }
        BytesNext(chunks, i);
        Send(chunks[i]);
        i := i + 1;
      }
    }

    /** The first chunk of the buffer is written: the assertions of unthrottleWrites hold. */
    method UnthrottleWrites() returns (left: int)
      requires Ok() && buffer != [] && !stuck && factory.Metered() && factory.writeAvailable > 0
      modifies this`buffer, this`length, this`throttled, this`sent, factory`writeAvailable, factory`log
      ensures Ok() && factory.Metered() && buffer == old(buffer)[1..] && sent == old(sent) + old(buffer)[0]
      ensures left == |Bytes(buffer)| && factory.WroteSince(old(factory.log))
      ensures factory.writeAvailable == old(factory.writeAvailable) - |old(buffer)[0]|
    {
      var paused := factory.RegisterWritten(|buffer[0]|);
      assert paused == Some(false);
      assert sent + (buffer[0] + Bytes(buffer[1..])) == sent + buffer[0] + Bytes(buffer[1..]);
      length := length - |buffer[0]|;
      sent := sent + buffer[0];
      buffer := buffer[1..];
      assert length >= 0;
      if buffer == [] {
        assert length == 0;
        throttled := false;
      }
      left := length;
    }
  }

  class ThrottlingFactory {
    const writeLimit: Option<nat>
    ghost const maxChunk: nat
    var writeAvailable: int
    var writeQueue: seq<ThrottlingProtocol>
    ghost var log: seq<Snap>
    ghost var protocols: set<ThrottlingProtocol>

    constructor (writeLimit: Option<nat>, ghost maxChunk: nat)
      requires maxChunk >= 1
      ensures Valid() && writeQueue == [] && protocols == {} && this.writeLimit == writeLimit
              && this.maxChunk == maxChunk && Spent()
      ensures writeLimit.Some? ==> writeAvailable == writeLimit.value
    {
      this.writeLimit, this.maxChunk := writeLimit, maxChunk;
      var available: int := if writeLimit.Some? then writeLimit.value else 0;
      writeAvailable := available;
      writeQueue := [];
      log := [Snap(0, available, 0, 0)];
      protocols := {};
    }

    ghost predicate Valid()
      reads this, protocols
    {
      Counted() && Queued() && forall p :: p in protocols ==> InLine(p)
    }

    /** Between steps a connection that buffers waits in the queue, unless it is stuck; no other does. */
    ghost predicate InLine(p: ThrottlingProtocol)
      reads this`writeQueue, p
    {
      && p.factory == this && p.Ok()
      && (p.throttled <==> p in writeQueue || p.stuck) && !(p in writeQueue && p.stuck)
      && (writeLimit.None? ==> !p.throttled)
    }

    /** Nobody waits twice. */
    ghost predicate Queued()
      reads this`writeQueue, this`protocols
    {
      && (forall i, j :: 0 <= i < j < |writeQueue| ==> writeQueue[i] != writeQueue[j])
      && (forall p :: p in writeQueue ==> p in protocols)
    }

    /** registerProtocol: a connection has been made. */
    method RegisterProtocol(p: ThrottlingProtocol)
      requires Valid() && Spent() && p !in protocols && p.factory == this && p.Ok() && !p.throttled && !p.stuck
      modifies this`protocols
      ensures Valid() && Spent() && protocols == old(protocols) + {p}
    {
      protocols := protocols + {p};
    }

    /** throttledWrites: the assertion that the connection is not queued holds. */
    method ThrottledWrites(p: ThrottlingProtocol)
      requires Queued() && p in protocols && p !in writeQueue
      modifies this`writeQueue
      ensures Queued() && writeQueue == old(writeQueue) + [p]
    {
      assert p !in writeQueue;
      writeQueue := writeQueue + [p];
    }

    /** The books of the bucket, if there is a limit. */
    ghost predicate Counted()
      reads this`writeAvailable, this`log
    {
      |log| > 0 && (writeLimit.Some? ==> Metered())
    }

    ghost predicate Metered()
      reads this`writeAvailable, this`log
    {
      && writeLimit.Some? && |log| > 0 && log[|log| - 1].available == writeAvailable
      && History(log, writeLimit.value, maxChunk)
    }

    /** Since then there was no refill. */
    ghost predicate WroteSince(before: seq<Snap>)
      reads this`log
    {
      && 0 < |before| <= |log| && before <= log
      && log[|log| - 1].refills == before[|before| - 1].refills && log[|log| - 1].unused == before[|before| - 1].unused
    }

    /** Nobody waits while something may be written. */
    predicate Spent()
      reads this`writeAvailable, this`writeQueue
    {
      writeLimit.Some? && writeQueue != [] ==> writeAvailable <= 0
    }

    /** registerWritten: whether the caller has to pause; None if there is no limit. */
    method RegisterWritten(length: nat) returns (paused: Option<bool>)
      requires Counted() && length <= maxChunk
      modifies this`writeAvailable, this`log
      ensures Counted()
      ensures paused == if writeLimit.None? then None else Some(old(writeAvailable) <= 0)
      ensures paused != Some(false) ==> writeAvailable == old(writeAvailable) && log == old(log)
      ensures paused == Some(false) ==> writeAvailable == old(writeAvailable) - length
      ensures paused == Some(false) ==>
                && |log| == |old(log)| + 1 && WroteSince(old(log))
                && log[|log| - 1].written == old(log[|log| - 1].written) + length
    {
      if writeLimit.None? {
        return None;
      } else if writeAvailable > 0 {
        ghost var last := log[|log| - 1];
        ghost var next := Snap(last.written + length, writeAvailable - length, last.refills, last.unused);
        assert InRange(last, writeLimit.value, maxChunk);
        HistoryMore(log, next, writeLimit.value, maxChunk);
        writeAvailable := writeAvailable - length;
        log := log + [next];
        return Some(false);
      }
      return Some(true);
    }

    /** The refill at the start of checkWriteBandwidth: the limit is added, and what would be more than that is
        not kept. */
    method Refill()
      requires Metered()
      modifies this`writeAvailable, this`log
      ensures Metered() && |log| == |old(log)| + 1 && old(log) <= log
      ensures log[|log| - 1].refills == old(log[|log| - 1].refills) + 1
      ensures log[|log| - 1].written == old(log[|log| - 1].written)
      ensures old(writeAvailable) > 0 ==> writeAvailable == writeLimit.value
      ensures old(writeAvailable) <= 0 ==> writeAvailable == old(writeAvailable) + writeLimit.value
    {
      ghost var last := log[|log| - 1];
      var limit := writeLimit.value;
      var available := if limit < writeAvailable + limit then limit else writeAvailable + limit;
      assert InRange(last, limit, maxChunk);
      ghost var unused := last.unused + if last.available > 0 then last.available else 0;
      AfterRefill(last, limit, maxChunk, available);
      HistoryMore(log, Snap(last.written, available, last.refills + 1, unused), limit, maxChunk);
      writeAvailable := available;
      log := log + [Snap(last.written, available, last.refills + 1, unused)];
    }

    /** The turn of one connection: it writes until it has written CHUNK_SIZE bytes, until nothing may be
        written or until it has no byte left. */
    method Turn(p: ThrottlingProtocol) returns (bytesLeft: int)
      requires Metered() && writeAvailable > 0 && p.factory == this && p.Ok() && p.throttled && !p.stuck
      modifies p`buffer, p`length, p`throttled, p`sent, this`writeAvailable, this`log
      ensures Metered() && p.Ok() && bytesLeft == |Bytes(p.buffer)| && WroteSince(old(log))
      ensures old(writeAvailable) - writeAvailable == |p.sent| - |old(p.sent)| < CHUNK_SIZE + maxChunk
      ensures old(p.sent) <= p.sent
      ensures |p.buffer| < |old(p.buffer)|
      ensures if bytesLeft > 0 then Drained(p.buffer) == Drained(old(p.buffer)) else p.buffer == Drained(old(p.buffer))
      ensures bytesLeft > 0 ==> writeAvailable <= 0 || old(writeAvailable) - writeAvailable >= CHUNK_SIZE
    {
      var before := writeAvailable;
      bytesLeft := 1;
      ghost var fresh_ := true;
      while writeAvailable > 0 && before - writeAvailable < CHUNK_SIZE && bytesLeft > 0
        invariant Metered() && p.Ok() && bytesLeft >= 0 && WroteSince(old(log))
        invariant before - writeAvailable == |p.sent| - |old(p.sent)| < CHUNK_SIZE + maxChunk
        invariant old(p.sent) <= p.sent
        invariant if fresh_ then p.buffer == old(p.buffer) && before == writeAvailable && bytesLeft == 1
                  else bytesLeft == |Bytes(p.buffer)| && |p.buffer| < |old(p.buffer)|
        invariant if bytesLeft > 0 then p.buffer != [] && Drained(p.buffer) == Drained(old(p.buffer))
                  else p.buffer == Drained(old(p.buffer))
        decreases |p.buffer|
      {
        bytesLeft := p.UnthrottleWrites();
        fresh_ := false;
      }
    }

    /** Take the first connection of the queue, give it its turn, and queue it again if it is not done. */
    method ServeFirst()
      requires Valid() && writeLimit.Some? && writeAvailable > 0 && writeQueue != []
      modifies this`writeAvailable, this`log, this`writeQueue, writeQueue[0]
      ensures Valid()
      ensures var p := old(writeQueue)[0];
              && p.submitted == old(p.submitted) && old(p.sent) <= p.sent
              && |p.sent| - |old(p.sent)| == old(writeAvailable) - writeAvailable < CHUNK_SIZE + maxChunk
              && writeQueue == old(writeQueue)[1..] + (if p.throttled && !p.stuck then [p] else [])
              && |p.buffer| < |old(p.buffer)| && Served(p.buffer, old(p.buffer), p in writeQueue, p.stuck)
      ensures writeAvailable <= old(writeAvailable) && WroteSince(old(log))
      ensures |writeQueue| < |old(writeQueue)| || writeAvailable <= 0
              || writeAvailable <= old(writeAvailable) - CHUNK_SIZE
    {
      var p := writeQueue[0];
      assert InLine(p) && p in writeQueue;
      writeQueue := writeQueue[1..];
      LeftBehindIff(p.buffer);
      var bytesLeft := Turn(p);
      Requeue(p, bytesLeft);
    }

    /** A connection that is not done goes to the end of the queue; one that is done is out of it. */
    method Requeue(p: ThrottlingProtocol, bytesLeft: int)
      requires Counted() && Queued() && p in protocols && p !in writeQueue
      requires forall q :: q in protocols && q != p ==> InLine(q)
      requires p.factory == this && p.Ok() && !p.stuck && bytesLeft == |Bytes(p.buffer)| && writeLimit.Some?
      modifies this`writeQueue, p`stuck
      ensures Valid() && writeQueue == old(writeQueue) + (if bytesLeft > 0 then [p] else [])
      ensures p.stuck == (bytesLeft == 0 && p.throttled)
    {
      if bytesLeft > 0 {
        writeQueue := writeQueue + [p];
      } else {
        NoBytes(p.buffer);
        p.stuck := p.throttled;
      }
    }

    /** checkWriteBandwidth: the bucket is refilled, then the queue is served in turns until it is empty
        or the bucket is. */
    method CheckWriteBandwidth()
      requires Valid() && writeLimit.Some? && Spent()
      modifies this`writeAvailable, this`log, this`writeQueue, protocols
      ensures Valid() && Spent() && old(log) <= log
      ensures log[|log| - 1].refills == old(log[|log| - 1].refills) + 1
      ensures old(writeAvailable) <= 0 ==>
                log[|log| - 1].written - old(log[|log| - 1].written) == writeLimit.value
                    + old(writeAvailable) - writeAvailable
      ensures old(writeAvailable) > 0 ==>
                log[|log| - 1].written - old(log[|log| - 1].written) == writeLimit.value - writeAvailable
      ensures forall p :: p in protocols ==> p.submitted == old(p.submitted) && old(p.sent) <= p.sent
      ensures forall p :: p in protocols && old(p.stuck) ==> p.stuck && p.sent == old(p.sent)
      ensures forall p :: p in old(writeQueue) ==> Served(p.buffer, old(p.buffer), p in writeQueue, p.stuck)
      ensures old(writeQueue) != [] && old(writeAvailable) + writeLimit.value > 0 ==>
                FirstServed(old(writeQueue)[0], old(writeQueue[0].buffer))
    {
      ghost var before := |log| - 1;
      Refill();
      ghost var filled := |log| - 1;
      ServeQueue();
      Written(log, writeLimit.value, maxChunk, filled, |log| - 1);
    }

    /** What checkWriteBandwidth does after the refill. */
    method ServeQueue()
      requires Valid() && writeLimit.Some?
      modifies this`writeAvailable, this`log, this`writeQueue, protocols
      ensures Valid() && Spent() && WroteSince(old(log))
      ensures forall p :: p in protocols ==> p.submitted == old(p.submitted) && old(p.sent) <= p.sent
      ensures forall p :: p in protocols && old(p.stuck) ==> p.stuck && p.sent == old(p.sent)
      ensures forall p :: p in old(writeQueue) ==> Served(p.buffer, old(p.buffer), p in writeQueue, p.stuck)
      ensures old(writeQueue) != [] && old(writeAvailable) > 0 ==>
              FirstServed(old(writeQueue)[0], old(writeQueue[0].buffer))
    {
      ghost var past := map p | p in protocols :: Past(p.submitted, p.sent, p.buffer, p in writeQueue, p.stuck);
      assert forall p :: p in writeQueue ==> p in protocols && InLine(p);
      ServeAll(past);
    }

    /** The loop of checkWriteBandwidth. */
    method ServeAll(ghost past: map<ThrottlingProtocol, Past>)
      requires Valid() && writeLimit.Some? && Since(past) && past.Keys == protocols
      modifies this`writeAvailable, this`log, this`writeQueue, protocols
      ensures Valid() && Since(past) && (writeAvailable <= 0 || writeQueue == []) && WroteSince(old(log))
      ensures old(writeQueue) != [] && old(writeAvailable) > 0 && old(writeQueue)[0] in past ==>
                FirstServed(old(writeQueue)[0], past[old(writeQueue)[0]].buffer)
    {
      ghost var queue, available := writeQueue, writeAvailable;
      while writeAvailable > 0 && writeQueue != []
        invariant Valid() && Since(past) && WroteSince(old(log))
        invariant (writeQueue == queue && writeAvailable == available)
                  || (queue != [] && queue[0] in past && FirstServed(queue[0], past[queue[0]].buffer))
        decreases if writeAvailable > 0 then writeAvailable else 0, |writeQueue|
      {
        assert writeQueue[0] in protocols;
        ServeNext(past);
      }
    }

    /** What has become of every connection: nothing submitted is lost, and a stuck one stays so. */
    ghost predicate Since(past: map<ThrottlingProtocol, Past>)
      reads this`writeQueue, past.Keys
    {
      forall p :: p in past ==> Goes(p, past[p])
    }

    ghost predicate Goes(p: ThrottlingProtocol, was: Past)
      reads this`writeQueue, p
    {
      && p.submitted == was.submitted && was.sent <= p.sent && (was.stuck ==> p.stuck && p.sent == was.sent)
      && (was.waited ==> Served(p.buffer, was.buffer, p in writeQueue, p.stuck))
      && (p in writeQueue ==> was.waited)
    }

    /** One turn of the loop of checkWriteBandwidth. */
    method ServeNext(ghost past: map<ThrottlingProtocol, Past>)
      requires Valid() && writeLimit.Some? && writeAvailable > 0 && writeQueue != []
      requires Since(past) && past.Keys == protocols
      modifies this`writeAvailable, this`log, this`writeQueue, writeQueue[0]
      ensures Valid() && Since(past)
      ensures forall p :: p in past && p != old(writeQueue)[0] ==> p.buffer == old(p.buffer)
      ensures old(writeQueue)[0] in past && FirstServed(old(writeQueue)[0], past[old(writeQueue)[0]].buffer)
      ensures writeAvailable <= old(writeAvailable) && WroteSince(old(log))
      ensures |writeQueue| < |old(writeQueue)| || writeAvailable <= 0
              || writeAvailable <= old(writeAvailable) - CHUNK_SIZE
    {
      ghost var first := writeQueue[0];
      assert first in past && InLine(first) && Goes(first, past[first]);
      ServeFirst();
      assert Goes(first, past[first]);
    }

    /** Something of a buffer was written. */
    predicate FirstServed(p: ThrottlingProtocol, before: seq<string>)
      reads p`buffer
    {
      |p.buffer| < |before|
    }

    /** A connection that was never given an empty chunk is never stuck: it is throttled exactly while it
        buffers, exactly while it waits in the queue. */
    lemma NeverStuck(p: ThrottlingProtocol)
      requires Valid() && p in protocols && !p.sawEmpty
      ensures p.throttled <==> p.buffer != []
      ensures p.throttled <==> p in writeQueue
      ensures p.sent + Bytes(p.buffer) == p.submitted && p.length == |Bytes(p.buffer)|
    {
      assert InLine(p);
    }

    /** Over a part of the run with n refills that all came when nothing could be written, as they do when somebody
        waits, n times the limit is used, less than a chunk excepted. */
    lemma RunUsed(i: nat, j: nat)
      requires Valid() && writeLimit.Some? && i <= j < |log| && InNeed(log, i, j) && log[j].available <= 0
      ensures log[j].written - log[i].written >= (log[j].refills - log[i].refills) * writeLimit.value - maxChunk + 1
    {
      WindowUsed(log, writeLimit.value, maxChunk, i, j);
    }

    /** What all connections write over a part of the run with n refills is bounded. */
    lemma RunBound(i: nat, j: nat)
      requires Valid() && writeLimit.Some? && i <= j < |log|
      ensures log[j].written - log[i].written <= (log[j].refills - log[i].refills + 1) * writeLimit.value + maxChunk - 1
      ensures 0 < writeAvailable + maxChunk && writeAvailable <= writeLimit.value
    {
      WindowBound(log, writeLimit.value, maxChunk, i, j);
      assert InRange(log[|log| - 1], writeLimit.value, maxChunk);
    }
  }

  lemma Leftover()
    ensures Drained(["b", ""]) == [""]
  {
    assert ["b", ""][1..] == [""] && [""][1..] == [];
    assert Bytes([""]) == "" + Bytes([]);
  }

  /** A connection writes more than it may, and then nothing. */
  method WriteTooMuch(f: ThrottlingFactory, p: ThrottlingProtocol)
    requires f.Valid() && f.Spent() && p in f.protocols && f.writeLimit == Some(1) && f.writeAvailable == 1
             && f.maxChunk == 1
    requires p.factory == f && !p.throttled && f.writeQueue == []
    modifies p, f`writeAvailable, f`log, f`writeQueue
    ensures f.Valid() && f.Spent() && p in f.protocols && f.writeQueue == [p] && p.buffer == ["b", ""]
            && f.writeAvailable == 0
  {
    p.Write("a");
    assert f.InLine(p);
    p.Write("b");
    p.Write("");
  }

  /** A run after which a connection waits for ever: it writes more than it may, then nothing, and gets its
      turn. It is still throttled, but nobody will let it go on. */
  method StuckConnection() returns (f: ThrottlingFactory, p: ThrottlingProtocol)
    ensures f.Valid() && p in f.protocols && p.throttled && p !in f.writeQueue && p.buffer == [""] && p.stuck
  {
    f := new ThrottlingFactory(Some(1), 1);
    p := new ThrottlingProtocol(f);
    f.RegisterProtocol(p);
    WriteTooMuch(f, p);
    f.CheckWriteBandwidth();
    OnlyDrained(p.buffer, p in f.writeQueue, p.stuck);
  }

  lemma OnlyDrained(now: seq<string>, waits: bool, stuck: bool)
    requires Served(now, ["b", ""], waits, stuck) && |now| < 2
    ensures now == [""] && !waits && stuck
  {
    Leftover();
    assert |now| == 1 ==> now[1..] == [];
  }
}
