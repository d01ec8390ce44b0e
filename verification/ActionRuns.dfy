/** Whole runs of an action: answers and failures in any order, and what they lead to. */
module ActionRuns {
  import opened Options
  import opened Bits
  import opened KTableSpec
  import opened KTableInsert
  import opened ActionLists
  import opened Scalars
  import opened Actions

  // ----- Events

  ghost predicate OnlyNames(events: seq<Event>, kind: Kind, universe: set<nat>) {
    forall e :: e in events && e.Answer? ==> NamedBy(kind, e.reply) <= universe
  }

  /** The call that an event of an action that is not finished brings with it. */
  function Brought(kind: Kind, e: Event, results: set<Item>): seq<Call> {
    if e.Answer? then BatchOf(kind, e.reply, results) else []
  }

  /** The books after n events. */
  function BooksAt(kind: Kind, events: seq<Event>, n: nat, b: Books): Books
    requires n <= |events|
  {
    if n == 0 then b else EventAfter(kind, events[n - 1], BooksAt(kind, events, n - 1, b))
  }

  /** The calls that n events bring with them. */
  function CallsAt(kind: Kind, events: seq<Event>, n: nat, b: Books): seq<Call>
    requires n <= |events|
  {
    if n == 0 then []
    else CallsAt(kind, events, n - 1, b) + Brought(kind, events[n - 1], BooksAt(kind, events, n - 1, b).results)
  }

  /** Each event is of a node that has been found. */
  ghost predicate OfFound(kind: Kind, events: seq<Event>, n: nat, b: Books)
    requires n <= |events|
  {
    forall i :: 0 <= i < n ==> FoundBefore(kind, events, i, b)
  }

  predicate FoundBefore(kind: Kind, events: seq<Event>, i: int, b: Books) {
    0 <= i < |events| && events[i].node in BooksAt(kind, events, i, b).found
  }

  /** What n events lead to: the books and the calls, and whether that is the end. */
  ghost predicate Through(kind: Kind, events: seq<Event>, n: nat, first: Books, b: Books, calls: seq<Call>, end: bool) {
    && n <= |events| && OfFound(kind, events, n, first) && b == BooksAt(kind, events, n, first)
    && OneMoreIf(end, CallsAt(kind, events, n, first), calls)
  }

  /** The action has gone through n events. */
  ghost predicate Ran(a: Action, nodes: seq<(nat, Contact)>, events: seq<Event>, n: nat)
    reads a
  {
    Through(a.kind, events, n, FirstBooks(nodes), a.BooksOf(), a.calls, a.finished)
  }

  /** The action has begun: it is finished, or waits. */
  ghost predicate Begun(a: Action)
    reads a
  {
    a.Steady() && (a.finished || a.Waiting())
  }

  /** Only nodes of a set were found, and n requests have been resolved. */
  ghost predicate Within(b: Books, universe: set<nat>, n: nat) {
    b.found.Keys <= universe && |b.answered + b.failed| == n
  }

  // ----- Any run

  /** A run of an action, from its first nodes, through answers and failures in any order, until it is
      finished, there are no more events, or one is not of a pending request. If only nodes of a set are ever
      named, it is finished after as many resolutions as the set has nodes, and until then a request is
      pending. */
  method Run(a: Action, nodes: seq<(nat, Contact)>, events: seq<Event>, ghost universe: set<nat>) returns (n: nat)
    requires a.Valid() && a.Idle() && a.calls == []
    requires (forall p :: p in nodes ==> p.0 in universe) && OnlyNames(events, a.kind, universe)
    modifies a
    ensures a.Valid() && a.found.Keys <= universe && Ran(a, nodes, events, n)
    ensures a.finished || n == |events| || events[n].node !in a.pending
    ensures !a.finished ==> a.pending != {} && n < |universe|
  {
    Start(a, nodes, events, universe);
    n := 0;
    while n < |events| && !a.finished && events[n].node in a.pending
      invariant Begun(a)
      invariant Ran(a, nodes, events, n) && Within(a.BooksOf(), universe, n)
    {
      Step(a, nodes, events, n, universe);
      n := n + 1;
    }
    NeverIdle(a, universe, n);
  }

  method Start(a: Action, nodes: seq<(nat, Contact)>, ghost events: seq<Event>, ghost universe: set<nat>)
    requires a.Valid() && a.Idle() && a.calls == [] && forall p :: p in nodes ==> p.0 in universe
    modifies a
    ensures Begun(a)
    ensures Ran(a, nodes, events, 0) && Within(a.BooksOf(), universe, 0)
  {
    a.GoWithNodes(nodes);
    FirstFoundHas(nodes, |nodes|);
  }

  lemma NeverIdle(a: Action, universe: set<nat>, n: nat)
    requires Begun(a) && Within(a.BooksOf(), universe, n)
    ensures a.Valid() && a.found.Keys <= universe
    ensures !a.finished ==> a.pending != {} && n < |universe|
  {
    if !a.finished {
      SomePending(a, universe);
    }
  }

  method Step(a: Action, nodes: seq<(nat, Contact)>, events: seq<Event>, n: nat, ghost universe: set<nat>)
    requires a.Steady() && a.Waiting() && !a.finished && Ran(a, nodes, events, n) && Within(a.BooksOf(), universe, n)
    requires n < |events| && events[n].node in a.pending && OnlyNames(events, a.kind, universe)
    modifies a
    ensures Begun(a)
    ensures Ran(a, nodes, events, n + 1) && Within(a.BooksOf(), universe, n + 1)
  {
    ghost var b, calls := a.BooksOf(), a.calls;
    a.OnePending(events[n].node);
    Happen(a, events[n]);
    OneEventMore(a.kind, events, n, FirstBooks(nodes), b, calls, a.BooksOf(), a.calls, a.finished, universe);
  }

  lemma OneEventMore(kind: Kind, events: seq<Event>, n: nat, first: Books, b: Books, calls: seq<Call>, b': Books,
                     calls': seq<Call>, end: bool, universe: set<nat>)
    requires n < |events| && Through(kind, events, n, first, b, calls, false) && Within(b, universe, n)
    requires events[n].node in b.found && events[n].node !in b.answered && events[n].node !in b.failed
    requires OnlyNames(events, kind, universe)
    requires b' == EventAfter(kind, events[n], b) && OneMoreIf(end, calls + Brought(kind, events[n], b.results), calls')
    ensures Through(kind, events, n + 1, first, b', calls', end) && Within(b', universe, n + 1)
  {
    OneCallMore(kind, events, n, first, b, calls);
    OneFoundMore(kind, events, n, first);
    OneNodeMore(kind, events, n, b, universe);
  }

  lemma OneCallMore(kind: Kind, events: seq<Event>, n: nat, first: Books, b: Books, calls: seq<Call>)
    requires n < |events| && b == BooksAt(kind, events, n, first)
    requires OneMoreIf(false, CallsAt(kind, events, n, first), calls)
    ensures CallsAt(kind, events, n + 1, first) == calls + Brought(kind, events[n], b.results)
    ensures BooksAt(kind, events, n + 1, first) == EventAfter(kind, events[n], b)
  {
  }

  lemma OneFoundMore(kind: Kind, events: seq<Event>, n: nat, first: Books)
    requires n < |events| && OfFound(kind, events, n, first)
    requires events[n].node in BooksAt(kind, events, n, first).found
    ensures OfFound(kind, events, n + 1, first)
  {
  }

  lemma OneNodeMore(kind: Kind, events: seq<Event>, n: nat, b: Books, universe: set<nat>)
    requires n < |events| && Within(b, universe, n) && OnlyNames(events, kind, universe)
    requires events[n].node in b.found && events[n].node !in b.answered && events[n].node !in b.failed
    ensures Within(EventAfter(kind, events[n], b), universe, n + 1)
  {
    assert events[n] in events;
    OneMoreResolved(kind, events[n], b);
  }

  method Happen(a: Action, e: Event)
    requires a.Steady() && a.Waiting() && !a.finished && e.node in a.pending
    modifies a
    ensures a.BooksOf() == EventAfter(a.kind, e, old(a.BooksOf()))
    ensures a.Scheduled(old(a.calls) + Brought(a.kind, e, old(a.results)), old(a.queried))
  {
    if e.Answer? {
      Answers(a, e.node, e.reply);
    } else {
      assert a.calls + Brought(a.kind, e, a.results) == a.calls;
      Fails(a, e.node);
    }
  }

  method Answers(a: Action, node: nat, reply: Reply)
    requires a.Steady() && a.Waiting() && !a.finished && node in a.pending
    modifies a
    ensures a.BooksOf() == BooksAfter(a.kind, node, reply, old(a.BooksOf()))
    ensures a.Scheduled(old(a.calls) + BatchOf(a.kind, reply, old(a.results)), old(a.queried))
  {
    a.GotResponse(node, reply);
  }

  method Fails(a: Action, node: nat)
    requires a.Steady() && a.Waiting() && !a.finished && node in a.pending
    modifies a
    ensures a.BooksOf() == old(a.BooksOf()).(failed := old(a.failed) + {node})
    ensures a.Scheduled(old(a.calls), old(a.queried))
  {
    a.ActionFailed(node);
  }

  /** While it is not finished, an action waits for a node that has not been resolved. */
  lemma SomePending(a: Action, universe: set<nat>)
    requires a.Ledger() && a.outstanding != map[] && !a.finished && a.found.Keys <= universe
    ensures a.pending != {} && |a.answered + a.failed| < |universe|
  {
    var node :| node in a.outstanding;
    OneIsPending(a.MarksOf(), a.Finder(), node, universe);
  }

  lemma OneIsPending(m: Marks, finder: bool, node: nat, universe: set<nat>)
    requires Fitting(m, finder, false) && node in m.outstanding && m.found <= universe
    ensures node in m.pending && |m.answered + m.failed| < |universe|
  {
    assert Fits(m, node, finder, false);
    forall id | id in m.answered + m.failed ensures id in universe - {node} {
      assert Fits(m, id, finder, false);
    }
    SubsetCard(m.answered + m.failed, universe - {node});
  }

  // ----- What a search for values answers

  /** The last number that a node of a list of events named, if it answered. */
  function LastNum(events: seq<Event>, n: nat, id: nat): Option<int>
    requires n <= |events|
  {
    if n == 0 then None
    else if events[n - 1].Answer? && events[n - 1].node == id then Some(events[n - 1].reply.num)
    else LastNum(events, n - 1, id)
  }

  function LastToken(events: seq<Event>, n: nat, id: nat): Option<string>
    requires n <= |events|
  {
    if n == 0 then None
    else if events[n - 1].Answer? && events[n - 1].node == id then Some(events[n - 1].reply.token)
    else LastToken(events, n - 1, id)
  }

  /** What an action knew of a node at the start. */
  function AtFirst(first: Books, id: nat): Contact {
    if id in first.found then first.found[id] else Contact("", 0)
  }

  /** What is known of a node after an event, of which it may be the answer. */
  function Hear(kind: Kind, e: Event, id: nat, c: Contact): Contact {
    if !e.Answer? || e.node != id then c
    else if kind.FindValue? then Contact(c.token, e.reply.num)
    else if kind.FindNode? then Contact(e.reply.token, c.numValues)
    else c
  }

  function HeardOf(kind: Kind, events: seq<Event>, n: nat, first: Books, id: nat): Contact
    requires n <= |events|
  {
    if n == 0 then AtFirst(first, id) else Hear(kind, events[n - 1], id, HeardOf(kind, events, n - 1, first, id))
  }

  lemma EventHeard(kind: Kind, e: Event, b: Books, b': Books, id: nat)
    requires e.node in b.found && b' == EventAfter(kind, e, b)
    ensures id in b.found ==> id in b'.found && b'.found[id] == Hear(kind, e, id, b.found[id])
    ensures id in b'.found && id !in b.found ==> e.node != id && b'.found[id] == Contact("", 0)
  {
    if e.Answer? { BooksLearned(kind, e.node, e.reply, b); }
  }

  /** What is kept of a node that has been found is what was heard of it; of others nothing was. */
  predicate KeptSo(found: map<nat, Contact>, first: Books, id: nat, c: Contact) {
    (id in found ==> found[id] == c) && (id !in found ==> c == Contact("", 0) && id !in first.found)
  }

  lemma HearsOn(kind: Kind, e: Event, b: Books, first: Books, id: nat, c: Contact)
    requires e.node in b.found && KeptSo(b.found, first, id, c)
    ensures KeptSo(EventAfter(kind, e, b).found, first, id, Hear(kind, e, id, c))
  {
    EventHeard(kind, e, b, EventAfter(kind, e, b), id);
  }

  lemma {:induction false} KeptIsHeard(kind: Kind, events: seq<Event>, n: nat, first: Books, id: nat, b: Books,
                                       c: Contact)
    requires n <= |events| && OfFound(kind, events, n, first)
    requires b == BooksAt(kind, events, n, first) && c == HeardOf(kind, events, n, first, id)
    ensures KeptSo(b.found, first, id, c)
  {
    if n > 0 {
      var b', c' := BooksAt(kind, events, n - 1, first), HeardOf(kind, events, n - 1, first, id);
      assert FoundBefore(kind, events, n - 1, first);
      KeptIsHeard(kind, events, n - 1, first, id, b', c');
      HearsOn(kind, events[n - 1], b', first, id, c');
    }
  }

  /** What was heard of a node is what its last answer said, and else what was known at first. */
  lemma {:induction false} LastIsHeard(kind: Kind, events: seq<Event>, n: nat, first: Books, id: nat)
    requires n <= |events|
    ensures HeardOf(kind, events, n, first, id).numValues
            == if kind.FindValue? then ValuesOf(events, n, first, id) else AtFirst(first, id).numValues
    ensures HeardOf(kind, events, n, first, id).token
            == if kind.FindNode? then TokenOf(events, n, first, id) else AtFirst(first, id).token
  {
    if n > 0 {
      LastIsHeard(kind, events, n - 1, first, id);
    }
  }

  /** How many values a node has, as far as is known, and the token for it. */
  function ValuesOf(events: seq<Event>, n: nat, first: Books, id: nat): int
    requires n <= |events|
  {
    match LastNum(events, n, id)
    case Some(num) => num
    case None => AtFirst(first, id).numValues
  }

  function TokenOf(events: seq<Event>, n: nat, first: Books, id: nat): string
    requires n <= |events|
  {
    match LastToken(events, n, id)
    case Some(token) => token
    case None => AtFirst(first, id).token
  }

  /** What an action knows of a node that it has found: a search for values has its number of values from its last
      answer, one for nodes its token; nothing else ever changes. */
  lemma KnownAt(kind: Kind, events: seq<Event>, n: nat, first: Books, id: nat)
    requires n <= |events| && OfFound(kind, events, n, first) && id in BooksAt(kind, events, n, first).found
    ensures var c := BooksAt(kind, events, n, first).found[id];
            && c.numValues == (if kind.FindValue? then ValuesOf(events, n, first, id) else AtFirst(first, id).numValues)
            && c.token == (if kind.FindNode? then TokenOf(events, n, first, id) else AtFirst(first, id).token)
  {
    KeptIsHeard(kind, events, n, first, id, BooksAt(kind, events, n, first), HeardOf(kind, events, n, first, id));
    LastIsHeard(kind, events, n, first, id);
  }

  /** A finished search for values answers exactly the nodes whose last answer named a positive number, and those
      that have not answered and were known to have values, nearest first. */
  lemma ValuesFound(a: Action, nodes: seq<(nat, Contact)>, events: seq<Event>, n: nat)
    requires a.Valid() && a.kind.FindValue? && a.finished && Ran(a, nodes, events, n)
    ensures |a.calls| == 1 && a.calls[0].Nodes? && Nearest(a.calls[0].ids, Rank(a.target))
    ensures forall id :: id in a.calls[0].ids <==> id in a.found && ValuesOf(events, n, FirstBooks(nodes), id) > 0
  {
    a.EndsSo();
    forall id | id in a.found ensures a.found[id].numValues == ValuesOf(events, n, FirstBooks(nodes), id) {
      assert a.BooksOf().found == a.found;
      KnownAt(a.kind, events, n, FirstBooks(nodes), id);
    }
  }

  // ----- What a retrieval delivers

  /** An answer has a value before its first item that cannot be used. */
  predicate Brings(e: Event, v: Scalar) {
    && e.Answer? && e.reply.values.Given?
    && Value(v) in SeenIn(e.reply.values.items, Usable(e.reply.values.items, 0))
  }

  /** The first of n events that brings a value, or n. */
  function FirstWith(events: seq<Event>, n: nat, v: Scalar): (i: nat)
    requires n <= |events|
    ensures i <= n && (i < n ==> Brings(events[i], v)) && forall j :: 0 <= j < i ==> !Brings(events[j], v)
  {
    if n == 0 then 0
    else
      var i := FirstWith(events, n - 1, v);
      if i < n - 1 || Brings(events[n - 1], v) then i else n
  }

  predicate InCalls(calls: seq<Call>, v: Scalar) {
    exists i :: 0 <= i < |calls| && calls[i].Batch? && v in calls[i].values
  }

  lemma InCallsMore(calls: seq<Call>, more: seq<Call>, v: Scalar)
    ensures InCalls(calls + more, v) <==> InCalls(calls, v) || InCalls(more, v)
  {
    var all := calls + more;
    if InCalls(calls, v) {
      var i :| 0 <= i < |calls| && calls[i].Batch? && v in calls[i].values;
      assert all[i] == calls[i];
    }
    if InCalls(more, v) {
      var i :| 0 <= i < |more| && more[i].Batch? && v in more[i].values;
      assert all[|calls| + i] == more[i];
    }
  }

  /** An answer that can be used as a whole brings a batch of all values in it that are new and not falsy. */
  lemma AnswerDelivers(e: Event, results: set<Item>, v: Scalar)
    ensures InCalls(Brought(GetValue, e, results), v) <==>
              Brings(e, v) && Useful(GetValue, e.reply) && !Falsy(v) && Value(v) !in results
  {
    if e.Answer? && e.reply.values.Given? && Useful(GetValue, e.reply) {
      var items := e.reply.values.items;
      NewValuesAre(items, |items|, results);
      var batch := NewValues(items, |items|, results);
      OneBatch(batch, v);
      assert Brought(GetValue, e, results) == if batch != [] then [Batch(batch)] else [];
    }
  }

  lemma OneBatch(batch: seq<Scalar>, v: Scalar)
    ensures InCalls([Batch(batch)], v) <==> v in batch
  {
    assert [Batch(batch)][0].values == batch;
  }

  lemma SeenAfter(e: Event, b: Books, v: Scalar)
    ensures Value(v) in EventAfter(GetValue, e, b).results <==> Value(v) in b.results || Brings(e, v)
  {
  }

  /** A value counts as seen as soon as an answer brings it. */
  lemma {:induction false} SeenAt(events: seq<Event>, n: nat, first: Books, v: Scalar)
    requires n <= |events| && first.results == {}
    ensures Value(v) in BooksAt(GetValue, events, n, first).results <==> FirstWith(events, n, v) < n
  {
    if n > 0 {
      SeenAt(events, n - 1, first, v);
      SeenAfter(events[n - 1], BooksAt(GetValue, events, n - 1, first), v);
    }
  }

  /** A value is delivered exactly if the first answer that brings it can be used as a whole. */
  lemma {:induction false} DeliveredAt(events: seq<Event>, n: nat, first: Books, v: Scalar)
    requires n <= |events| && first.results == {}
    ensures var i := FirstWith(events, n, v);
            InCalls(CallsAt(GetValue, events, n, first), v) <==>
            i < n && Useful(GetValue, events[i].reply) && !Falsy(v)
  {
    if n > 0 {
      DeliveredAt(events, n - 1, first, v);
      SeenAt(events, n - 1, first, v);
      var b := BooksAt(GetValue, events, n - 1, first);
      AnswerDelivers(events[n - 1], b.results, v);
      InCallsMore(CallsAt(GetValue, events, n - 1, first), Brought(GetValue, events[n - 1], b.results), v);
    }
  }

  /** So what a retrieval delivers, whenever it ends, are the values whose first answer can be used as a whole: a
      value that comes first in an answer that breaks off is lost, whoever else has it. */
  lemma ValuesCome(a: Action, nodes: seq<(nat, Contact)>, events: seq<Event>, n: nat, v: Scalar)
    requires a.Valid() && a.kind.GetValue? && Ran(a, nodes, events, n)
    ensures var i := FirstWith(events, n, v);
            InCalls(a.calls, v) <==> i < n && Useful(GetValue, events[i].reply) && !Falsy(v)
  {
    DeliveredAt(events, n, FirstBooks(nodes), v);
    EndAddsNone(a.finished, CallsAt(GetValue, events, n, FirstBooks(nodes)), a.calls, v);
  }

  lemma EndAddsNone(end: bool, before: seq<Call>, calls: seq<Call>, v: Scalar)
    requires OneMoreIf(end, before, calls) && (end ==> calls[|calls| - 1] == Batch([]))
    ensures InCalls(calls, v) <==> InCalls(before, v)
  {
    InCallsMore(before, calls[|before|..], v);
    assert calls == before + calls[|before|..];
    if end { assert calls[|before|..] == [Batch([])]; }
  }

  /** Two answers, of which the first breaks off behind a value, and the second has that value alone. */
  function Broken(v: Scalar): seq<Event> {
    [Answer(1, Reply("", 0, None, Given([Some(v), None]))), Answer(2, Reply("", 0, None, Given([Some(v)])))]
  }

  /** The value is lost. */
  lemma ValueLost(v: Scalar, first: Books)
    requires first.results == {}
    ensures Brings(Broken(v)[1], v) && Useful(GetValue, Broken(v)[1].reply)
    ensures !InCalls(CallsAt(GetValue, Broken(v), 2, first), v)
  {
    var items, others := Broken(v)[0].reply.values.items, Broken(v)[1].reply.values.items;
    assert Usable(items, 0) == Usable(items, 1) == 1 && Usable(others, 0) == Usable(others, 1) == 1;
    assert items[0] == Some(v) && others[0] == Some(v);
    assert Value(v) in SeenIn(items, 1) && Value(v) in SeenIn(others, 1);
    assert FirstWith(Broken(v), 2, v) == 0;
    DeliveredAt(Broken(v), 2, first, v);
  }

  // ----- What a store reports

  lemma {:induction false} HoldersAt(events: seq<Event>, n: nat, first: Books, id: nat)
    requires n <= |events| && first.results == {} && first.answered == {}
    ensures Holder(id) in BooksAt(StoreValue, events, n, first).results <==>
            id in BooksAt(StoreValue, events, n, first).answered
  {
    if n > 0 {
      HoldersAt(events, n - 1, first, id);
    }
  }

  /** The results of a store are the nodes that have answered. */
  lemma StoredAt(a: Action, nodes: seq<(nat, Contact)>, events: seq<Event>, n: nat, id: nat)
    requires a.Valid() && a.kind.StoreValue? && Ran(a, nodes, events, n)
    ensures Holder(id) in a.results <==> id in a.answered
  {
    assert a.BooksOf().results == a.results && a.BooksOf().answered == a.answered;
    HoldersAt(events, n, FirstBooks(nodes), id);
  }
}
