/** Searching and storing: requests to one node after the other, as answers come in. */
module Actions {
  import opened Options
  import opened Bits
  import opened KTableSpec
  import opened KTableInsert
  import opened ActionLists
  import opened Scalars

  datatype Kind = FindNode | FindValue | GetValue | StoreValue

  /** What an action knows of a node. */
  datatype Contact = Contact(token: string, numValues: int)

  /** A result: a value that was found, or a node that stored one. */
  datatype Item = Value(v: Scalar) | Holder(id: nat)

  datatype Values = Absent | Malformed | Given(items: seq<Option<Scalar>>)

  /** What a node answers. Entries of its lists that cannot be used are None. */
  datatype Reply = Reply(token: string, num: int, nodes: Option<seq<Option<nat>>>, values: Values)

  /** A call of the callback that is waiting for the reactor. */
  datatype Call = Nodes(ids: seq<nat>) | Batch(values: seq<Scalar>) | Stored(items: set<Item>)

  function Abs(n: int): (m: nat)
    ensures m == n || m == -n
  {
    if n < 0 then -n else n
  }

  // ----- The results expected from the outstanding requests

  ghost function Sum(m: map<nat, nat>): nat {
    if m == map[] then 0
    else
      var k :| k in m;
      m[k] + Sum(m - {k})
  }

  lemma {:induction false} SumAny(m: map<nat, nat>, k: nat)
    requires k in m
    ensures Sum(m) == m[k] + Sum(m - {k})
    decreases |m|
  {
    var j :| j in m && Sum(m) == m[j] + Sum(m - {j});
    if j != k {
      SumAny(m - {j}, k);
      SumAny(m - {k}, j);
      assert m - {j} - {k} == m - {k} - {j};
    }
  }

  lemma SumAdd(m: map<nat, nat>, k: nat, v: nat)
    requires k !in m
    ensures Sum(m[k := v]) == Sum(m) + v
  {
    SumAny(m[k := v], k);
    assert m[k := v] - {k} == m;
  }

  lemma {:induction false} SumOnes(m: map<nat, nat>)
    requires forall k :: k in m ==> m[k] == 1
    ensures Sum(m) == |m|
    decreases |m|
  {
    if m != map[] {
      var k :| k in m;
      SumAny(m, k);
      SumOnes(m - {k});
    }
  }

  lemma {:induction false} SumPositive(m: map<nat, nat>)
    requires Sum(m) > 0
    ensures m != map[]
  {
  }

  // ----- Answers

  /** The nodes named by the first n entries. */
  function Named(entries: seq<Option<nat>>, n: nat): set<nat>
    requires n <= |entries|
  {
    set i | 0 <= i < n && entries[i].Some? :: entries[i].value
  }

  /** Entries before the first that cannot be used. */
  function Usable<T>(entries: seq<Option<T>>, i: nat): (n: nat)
    requires i <= |entries|
    ensures i <= n <= |entries| && (n < |entries| ==> entries[n].None?)
    ensures forall j :: i <= j < n ==> entries[j].Some?
    decreases |entries| - i
  {
    if i == |entries| || entries[i].None? then i else Usable(entries, i + 1)
  }

  /** The values of the first n items. */
  function SeenIn(items: seq<Option<Scalar>>, n: nat): set<Item>
    requires n <= |items|
  {
    set i | 0 <= i < n && items[i].Some? :: Value(items[i].value)
  }

  /** The values of the first n items that are not falsy and have not been seen, each once. */
  function NewValues(items: seq<Option<Scalar>>, n: nat, seen: set<Item>): (r: seq<Scalar>)
    requires n <= Usable(items, 0)
  {
    if n == 0 then []
    else
      var v := items[n - 1].value;
      var r := NewValues(items, n - 1, seen);
      if Value(v) in seen + SeenIn(items, n - 1) || Falsy(v) then r else r + [v]
  }

  predicate Distinct(s: seq<Scalar>) {
    forall i, j :: 0 <= i < j < |s| ==> s[i] != s[j]
  }

  /** What is delivered of an answer: exactly the new values that are neither empty nor zero, none twice. */
  lemma {:induction false} NewValuesAre(items: seq<Option<Scalar>>, n: nat, seen: set<Item>)
    requires n <= Usable(items, 0)
    ensures Distinct(NewValues(items, n, seen))
    ensures forall v :: v in NewValues(items, n, seen)
                        <==> !Falsy(v) && Value(v) in SeenIn(items, n) && Value(v) !in seen
  {
    if n > 0 {
      NewValuesAre(items, n - 1, seen);
      var w := items[n - 1].value;
      SeenNext(items, n);
      var r := NewValues(items, n - 1, seen);
      forall v
        ensures v in NewValues(items, n, seen) <==> !Falsy(v) && Value(v) in SeenIn(items, n) && Value(v) !in seen
      {
        assert v in r + [w] <==> v in r || v == w;
      }
    }
  }

  lemma SeenNext(items: seq<Option<Scalar>>, n: nat)
    requires 0 < n <= |items| && items[n - 1].Some?
    ensures SeenIn(items, n) == SeenIn(items, n - 1) + {Value(items[n - 1].value)}
  {
    forall x ensures x in SeenIn(items, n) <==> x in SeenIn(items, n - 1) + {Value(items[n - 1].value)} {
      if x in SeenIn(items, n) {
        var i :| 0 <= i < n && items[i].Some? && x == Value(items[i].value);
        assert i < n - 1 ==> x in SeenIn(items, n - 1);
      }
    }
  }

  lemma NamedMore(entries: seq<Option<nat>>, n: nat)
    requires 0 < n <= |entries|
    ensures Named(entries, n) == Named(entries, n - 1) + LastNamed(entries, n)
  {
    forall x ensures x in Named(entries, n) <==> x in Named(entries, n - 1) + LastNamed(entries, n) {
      if x in Named(entries, n) {
        var i :| 0 <= i < n && entries[i].Some? && x == entries[i].value;
        assert i < n - 1 ==> x in Named(entries, n - 1);
      }
    }
  }

  function LastNamed(entries: seq<Option<nat>>, n: nat): set<nat>
    requires 0 < n <= |entries|
  {
    if entries[n - 1].Some? then {entries[n - 1].value} else {}
  }

  /** Whether an answer is processed without an exception. */
  predicate Useful(kind: Kind, reply: Reply) {
    match kind
    case GetValue =>
      !reply.values.Malformed? && (reply.values.Given? ==> Usable(reply.values.items, 0) == |reply.values.items|)
    case StoreValue => true
    case _ => reply.nodes.Some? && Usable(reply.nodes.value, 0) == |reply.nodes.value|
  }

  /** That is one without an entry that cannot be used, of the list that its kind asks for. */
  lemma UsefulIs(kind: Kind, reply: Reply)
    ensures kind.FindNode? || kind.FindValue? ==>
              (Useful(kind, reply) <==> reply.nodes.Some? && forall e :: e in reply.nodes.value ==> e.Some?)
    ensures kind.GetValue? ==>
              (Useful(kind, reply) <==> reply.values.Absent?
                                        || (reply.values.Given? && forall e :: e in reply.values.items ==> e.Some?))
    ensures kind.StoreValue? ==> Useful(kind, reply)
  {
    if reply.nodes.Some? { AllUsable(reply.nodes.value, 0); }
    if reply.values.Given? { AllUsable(reply.values.items, 0); }
  }

  lemma AllUsable<T>(entries: seq<Option<T>>, i: nat)
    requires i <= |entries|
    ensures Usable(entries, i) == |entries| <==> forall j :: i <= j < |entries| ==> entries[j].Some?
  {
  }

  /** The nodes that an answer adds to those found: named before the first entry that cannot be used. */
  function NamedBy(kind: Kind, reply: Reply): set<nat> {
    if (kind.FindNode? || kind.FindValue?) && reply.nodes.Some?
    then Named(reply.nodes.value, Usable(reply.nodes.value, 0))
    else {}
  }

  /** The nodes found after the first n entries: one that is not known yet has no token and no values. */
  function Met(entries: seq<Option<nat>>, n: nat, found: map<nat, Contact>): map<nat, Contact>
    requires n <= |entries|
  {
    if n == 0 then found
    else
      var met := Met(entries, n - 1, found);
      if entries[n - 1].None? || entries[n - 1].value in met then met else met[entries[n - 1].value := Contact("", 0)]
  }

  /** What a search notes of a node that answered: its token, or how many values it has. */
  function Noted(kind: Kind, contact: Contact, reply: Reply): Contact {
    if kind.FindNode? then contact.(token := reply.token) else contact.(numValues := reply.num)
  }

  /** The nodes found after an answer. */
  function FoundAfter(kind: Kind, node: nat, reply: Reply, found: map<nat, Contact>): map<nat, Contact>
    requires node in found
  {
    if !kind.FindNode? && !kind.FindValue? then found
    else
      var noted := found[node := Noted(kind, found[node], reply)];
      if reply.nodes.None? then noted else Met(reply.nodes.value, Usable(reply.nodes.value, 0), noted)
  }

  lemma {:induction false} MetAre(entries: seq<Option<nat>>, n: nat, found: map<nat, Contact>)
    requires n <= |entries|
    ensures Met(entries, n, found).Keys == found.Keys + Named(entries, n)
    ensures forall id :: id in found ==> Met(entries, n, found)[id] == found[id]
    ensures forall id :: id in Met(entries, n, found) && id !in found ==> Met(entries, n, found)[id] == Contact("", 0)
  {
    if n > 0 {
      MetAre(entries, n - 1, found);
      NamedMore(entries, n);
    }
  }

  /** What is known of the nodes after an answer: of its node a search for nodes has learned the token, one for
      values how many it has; of others it knows what it knew, and of new ones nothing. */
  predicate Learned(kind: Kind, node: nat, reply: Reply, before: map<nat, Contact>, after: map<nat, Contact>) {
    && node in before && before.Keys <= after.Keys
    && (kind.FindNode? ==> after[node] == Contact(reply.token, before[node].numValues))
    && (kind.FindValue? ==> after[node] == Contact(before[node].token, reply.num))
    && (kind.FindNode? || kind.FindValue? || after == before)
    && (forall id :: id in before && id != node ==> after[id] == before[id])
    && (forall id :: id in after && id !in before ==> after[id] == Contact("", 0))
  }

  /** An answer adds the nodes it names to those found, with neither token nor values, and no others; what is
      known of others stays. Of its node a search for nodes notes the token, one for values their number. */
  lemma FoundAfterIs(kind: Kind, node: nat, reply: Reply, found: map<nat, Contact>)
    requires node in found
    ensures FoundAfter(kind, node, reply, found).Keys == found.Keys + NamedBy(kind, reply)
    ensures forall id :: id in found && id != node ==> FoundAfter(kind, node, reply, found)[id] == found[id]
    ensures Learned(kind, node, reply, found, FoundAfter(kind, node, reply, found))
  {
    if (kind.FindNode? || kind.FindValue?) && reply.nodes.Some? {
      MetAre(reply.nodes.value, Usable(reply.nodes.value, 0), found[node := Noted(kind, found[node], reply)]);
    }
  }

  /** The results after an answer. */
  function ResultsAfter(kind: Kind, node: nat, reply: Reply, results: set<Item>): set<Item> {
    match kind
    case StoreValue => results + {Holder(node)}
    case GetValue =>
      if reply.values.Given? then results + SeenIn(reply.values.items, Usable(reply.values.items, 0)) else results
    case _ => results
  }

  /** The batch of an answer: its new values, if there are any and none of its items is unusable. */
  function BatchOf(kind: Kind, reply: Reply, results: set<Item>): seq<Call> {
    if kind.GetValue? && reply.values.Given? && Useful(kind, reply)
       && NewValues(reply.values.items, |reply.values.items|, results) != []
    then [Batch(NewValues(reply.values.items, |reply.values.items|, results))]
    else []
  }

  /** What answers and failures change: the nodes found, the results, and who has answered or failed. */
  datatype Books = Books(found: map<nat, Contact>, results: set<Item>, answered: set<nat>, failed: set<nat>)

  /** The books after an answer was processed, to its end or to an exception. */
  function Processed(kind: Kind, node: nat, reply: Reply, b: Books): Books {
    b.(found := if node in b.found then FoundAfter(kind, node, reply, b.found) else b.found,
       results := ResultsAfter(kind, node, reply, b.results))
  }

  function Settled(node: nat, ok: bool, b: Books): Books {
    if ok then b.(answered := b.answered + {node}) else b.(failed := b.failed + {node})
  }

  /** The books after an answer in time: an answer of no use counts as a failure. */
  function BooksAfter(kind: Kind, node: nat, reply: Reply, b: Books): Books {
    Settled(node, Useful(kind, reply), Processed(kind, node, reply, b))
  }

  lemma BooksLearned(kind: Kind, node: nat, reply: Reply, b: Books)
    requires node in b.found
    ensures Learned(kind, node, reply, b.found, BooksAfter(kind, node, reply, b).found)
  {
    FoundAfterIs(kind, node, reply, b.found);
  }

  /** The sets of nodes that an action keeps, those it keeps in mind only for the proof included. */
  datatype Marks = Marks(
    found: set<nat>, queried: set<nat>, sent: set<nat>, pending: set<nat>, outstanding: set<nat>,
    answered: set<nat>, failed: set<nat>, dropped: set<nat>, skipped: set<nat>)

  /** A node that was asked was found; it waits, has answered, has failed or was passed over; while it
      waits it is outstanding, unless it was dropped. */
  predicate Fits(m: Marks, id: nat, finder: bool, finished: bool) {
    && (id in m.queried ==> id in m.found)
    && (id in m.pending || id in m.answered || id in m.failed || id in m.dropped || id in m.skipped || id in m.sent ==>
          id in m.queried)
    && (id in m.pending ==> id in m.sent && id !in m.answered && id !in m.failed && id !in m.skipped)
    && !(id in m.answered && id in m.failed)
    && (id in m.skipped ==> id !in m.answered && id !in m.failed && id !in m.sent)
    && (!finished ==>
          && (id in m.outstanding ==> id in m.pending)
          && (id in m.pending ==> id in m.outstanding || id in m.dropped)
          && (id in m.queried ==> id in m.pending || id in m.answered || id in m.failed || id in m.skipped))
    && (if finder then id !in m.skipped else id !in m.dropped)
  }

  ghost predicate Fitting(m: Marks, finder: bool, finished: bool) {
    forall id :: Fits(m, id, finder, finished)
  }

  lemma FittingAsk(m: Marks, id: nat, finder: bool)
    requires Fitting(m, finder, false) && id in m.found && id !in m.queried
    ensures Fitting(m.(queried := m.queried + {id}, sent := m.sent + {id}, pending := m.pending + {id},
                       outstanding := m.outstanding + {id}), finder, false)
    ensures id !in m.sent && id !in m.outstanding
  {
    var m' := m.(queried := m.queried + {id}, sent := m.sent + {id}, pending := m.pending + {id},
                 outstanding := m.outstanding + {id});
    assert Fits(m, id, finder, false);
    forall x ensures Fits(m', x, finder, false) {
      assert Fits(m, x, finder, false);
    }
  }

  lemma FittingSkip(m: Marks, id: nat)
    requires Fitting(m, false, false) && id in m.found && id !in m.queried
    ensures Fitting(m.(queried := m.queried + {id}, skipped := m.skipped + {id}), false, false)
  {
    var m' := m.(queried := m.queried + {id}, skipped := m.skipped + {id});
    assert Fits(m, id, false, false);
    forall x ensures Fits(m', x, false, false) {
      assert Fits(m, x, false, false);
    }
  }

  lemma FittingDrop(m: Marks, id: nat)
    requires Fitting(m, true, false) && id in m.outstanding
    ensures Fitting(m.(outstanding := m.outstanding - {id}, dropped := m.dropped + {id}), true, false)
  {
    var m' := m.(outstanding := m.outstanding - {id}, dropped := m.dropped + {id});
    forall x ensures Fits(m', x, true, false) {
      assert Fits(m, x, true, false);
    }
  }

  /** The calls after others: one more if it is the end, and no other. */
  predicate OneMoreIf(end: bool, before: seq<Call>, calls: seq<Call>) {
    before <= calls && |calls| == |before| + if end then 1 else 0
  }

  /** Since then the first nodes of a list were asked, as far as they had not been, and nobody else. */
  ghost predicate NearestFirst(nodes: seq<nat>, before: set<nat>, queried: set<nat>) {
    exists m :: FirstAsked(nodes, before, queried, m)
  }

  ghost predicate FirstAsked(nodes: seq<nat>, before: set<nat>, queried: set<nat>, m: int) {
    0 <= m <= |nodes| && queried == before + Ids(nodes[..m])
  }

  lemma StillPrefixed(nodes: seq<nat>, before: set<nat>, queried: set<nat>)
    requires NearestFirst(nodes, {}, before) && NearestFirst(nodes, before, queried)
    ensures NearestFirst(nodes, {}, queried)
  {
    var a :| FirstAsked(nodes, {}, before, a);
    var b :| FirstAsked(nodes, before, queried, b);
    var m := if a < b then b else a;
    IdsGrow(nodes, a, m);
    IdsGrow(nodes, b, m);
    assert FirstAsked(nodes, {}, queried, m);
  }

  lemma NearerIsBefore(s: seq<nat>, key: nat -> nat, m: nat, x: nat, y: nat)
    requires Nearest(s, key) && m <= |s| && x in Ids(s) && y in Ids(s[..m]) && key(x) < key(y)
    ensures x in Ids(s[..m])
  {
    var i :| 0 <= i < |s| && s[i] == x;
    var j :| 0 <= j < m && s[..m][j] == y;
    assert i < j && s[..m][i] == x;
  }

  lemma IdsGrow(nodes: seq<nat>, a: nat, b: nat)
    requires a <= b <= |nodes|
    ensures Ids(nodes[..a]) <= Ids(nodes[..b])
  {
    forall x | x in Ids(nodes[..a]) ensures x in Ids(nodes[..b]) {
      var i :| 0 <= i < a && nodes[i] == x;
      assert nodes[..b][i] == x;
    }
  }

  lemma NoneAsked(nodes: seq<nat>, before: set<nat>)
    ensures NearestFirst(nodes, before, before)
  {
    assert FirstAsked(nodes, before, before, 0);
  }

  /** A list of nodes in order, of some of the nodes or of all. */
  ghost predicate Ordered(s: seq<nat>, ids: set<nat>, key: nat -> nat, some: bool) {
    Nearest(s, key) && Ids(s) <= ids && (some || Ids(s) == ids)
  }

  /** What is expected of the outstanding requests, and who gets none. */
  predicate Expecting(kind: Kind, outstanding: map<nat, nat>, found: map<nat, Contact>, skipped: set<nat>) {
    && (forall id :: id in outstanding ==> id in found) && (forall id :: id in skipped ==> id in found)
    && (forall id :: id in outstanding ==> Worth(kind, found[id], outstanding[id]))
    && (forall id :: id in skipped ==> Passed(kind, found[id]))
  }

  /** A retrieval expects of a node the values that it has, a store one result, and a search none. */
  predicate Worth(kind: Kind, contact: Contact, n: nat) {
    && (kind.GetValue? ==> n == contact.numValues)
    && (kind.StoreValue? ==> n == 1)
    && (kind.FindNode? || kind.FindValue? ==> n == 0)
  }

  /** How many results are expected of a node, or None if it is passed over. */
  function Expected(kind: Kind, contact: Contact): (n: Option<nat>)
    ensures n.None? <==> !kind.FindNode? && !kind.FindValue? && Passed(kind, contact)
    ensures n.Some? ==> Worth(kind, contact, n.value)
  {
    match kind
    case GetValue => if contact.numValues > 0 then Some(contact.numValues) else None
    case StoreValue => if contact.token != "" then Some(1) else None
    case _ => Some(0)
  }

  /** Batches of values, none empty but the last one at the end, none with a value of another. */
  ghost predicate Batches(calls: seq<Call>, finished: bool, results: set<Item>) {
    && (forall i :: 0 <= i < |calls| ==> calls[i].Batch? && Distinct(calls[i].values))
    && (forall i :: 0 <= i < |calls| ==> (calls[i].values == [] <==> finished && i == |calls| - 1))
    && (forall i, v :: 0 <= i < |calls| && v in calls[i].values ==> Value(v) in results)
    && (forall i, j, v :: 0 <= i < j < |calls| && v in calls[i].values ==> v !in calls[j].values)
  }

  /** A node that a value cannot be stored at, or that has none. */
  predicate Passed(kind: Kind, contact: Contact) {
    if kind.StoreValue? then contact.token == "" else contact.numValues <= 0
  }

  /** Every node that could help is in a set. */
  predicate Covered(kind: Kind, found: map<nat, Contact>, settled: set<nat>) {
    forall id :: id in found ==> id in settled || Passed(kind, found[id])
  }

  /** The closest nodes of a pool were all asked, and have answered unless they were too slow. */
  ghost predicate Explored(front: seq<nat>, key: nat -> nat, pool: set<nat>, queried: set<nat>, answered: set<nat>,
                           dropped: set<nat>, early: bool) {
    && ClosestIds(front, key, pool)
    && (forall id :: id in front ==> id in queried && (id in answered || id in dropped))
    && (early ==> |front| == K && forall id :: id in front ==> id in answered)
  }

  /** What the last call of an action speaks of. */
  datatype View = View(
    found: map<nat, Contact>, queried: set<nat>, answered: set<nat>, dropped: set<nat>, results: set<Item>,
    satisfied: bool)

  /** All nodes that have values, nearest first. */
  ghost predicate Valued(ids: seq<nat>, key: nat -> nat, found: map<nat, Contact>) {
    Nearest(ids, key) && forall id :: id in ids <==> id in found && found[id].numValues > 0
  }

  /** What the last call is, and why no other request is needed: the closest nodes that had not failed were
      explored, or enough was found or stored, or all nodes that could help have answered or failed. */
  ghost predicate Ending(kind: Kind, target: nat, call: Call, front: seq<nat>, failed: set<nat>, early: bool, v: View) {
    && (if kind.FindNode? || kind.FindValue?
        then Explored(front, Rank(target), v.found.Keys - failed, v.queried, v.answered, v.dropped, early)
        else v.satisfied || Covered(kind, v.found, v.answered + failed))
    && match kind
       case FindNode => call == Nodes(front)
       case FindValue => call.Nodes? && Valued(call.ids, Rank(target), v.found)
       case GetValue => call == Batch([])
       case StoreValue => call == Stored(v.results)
  }

  /** The first n nodes to start from; the last of several with one number counts. */
  function FirstFound(nodes: seq<(nat, Contact)>, n: nat): map<nat, Contact>
    requires n <= |nodes|
  {
    if n == 0 then map[] else FirstFound(nodes, n - 1)[nodes[n - 1].0 := nodes[n - 1].1]
  }

  lemma {:induction false} FirstFoundHas(nodes: seq<(nat, Contact)>, n: nat)
    requires n <= |nodes|
    ensures forall id :: id in FirstFound(nodes, n) <==> exists i :: 0 <= i < n && nodes[i].0 == id
  {
    if n > 0 {
      FirstFoundHas(nodes, n - 1);
    }
  }

  /** The books of an action that starts with some nodes. */
  function FirstBooks(nodes: seq<(nat, Contact)>): Books {
    Books(FirstFound(nodes, |nodes|), {}, {}, {})
  }

  /** A resolution: a node answers, or its request fails. */
  datatype Event = Answer(node: nat, reply: Reply) | Failure(node: nat)

  /** The books after an event of an action that is not finished. */
  function EventAfter(kind: Kind, e: Event, b: Books): Books {
    match e
    case Answer(node, reply) => BooksAfter(kind, node, reply, b)
    case Failure(node) => Settled(node, false, b)
  }

  lemma OneMoreResolved(kind: Kind, e: Event, b: Books)
    requires e.node in b.found && e.node !in b.answered && e.node !in b.failed
    ensures EventAfter(kind, e, b).found.Keys == b.found.Keys + if e.Answer? then NamedBy(kind, e.reply) else {}
    ensures EventAfter(kind, e, b).answered + EventAfter(kind, e, b).failed == b.answered + b.failed + {e.node}
    ensures |b.answered + b.failed + {e.node}| == |b.answered + b.failed| + 1
  {
    OneMoreSettled(kind, e, b);
    if e.Answer? {
      FoundAfterIs(kind, e.node, e.reply, b.found);
    }
  }

  lemma OneMoreSettled(kind: Kind, e: Event, b: Books)
    requires e.node in b.found && e.node !in b.answered && e.node !in b.failed
    ensures var b' := EventAfter(kind, e, b);
            b'.answered + b'.failed == b.answered + b.failed + {e.node}
    ensures |b.answered + b.failed + {e.node}| == |b.answered + b.failed| + 1
  {
  }

  /** An action, from its first nodes to its last callback. Which methods of its subclasses are used
      depends on the kind. */
  class Action {
    const kind: Kind
    const target: nat
    const desired: Option<int>
    const C: nat
    const R: nat
    var found: map<nat, Contact>
    var sortedNodes: seq<nat>
    var queried: set<nat>
    var answered: set<nat>
    var failed: set<nat>
    var outstanding: map<nat, nat>
    var outstandingResults: int
    var results: set<Item>
    var finished: bool
    /** The calls of the callback so far, those still waiting included. */
    var calls: seq<Call>
    /** The nodes that requests were made to, in order; whose answer or failure is still to come;
        whose request was given up as too slow; that were passed over without a request. */
    ghost var sent: seq<nat>
    var pending: set<nat>
    ghost var dropped: set<nat>
    ghost var skipped: set<nat>
    /** At the end: what the last call speaks of, the nodes that had failed, the closest others, and whether
        K answers ended the search. */
    ghost var viewThen: View
    ghost var failedThen: set<nat>
    ghost var front: seq<nat>
    ghost var early: bool

    constructor (kind: Kind, target: nat, desired: Option<int>, C: nat, R: nat)
      requires C >= 1
      requires if kind.FindNode? || kind.FindValue? then desired.None? else desired.Some? && desired.value != 0
      ensures Valid() && Idle() && found == map[] && !finished && calls == []
      ensures this.kind == kind && this.target == target && this.desired == desired && this.C == C && this.R == R
    {
      this.kind, this.target, this.desired, this.C, this.R := kind, target, desired, C, R;
      found, sortedNodes, queried, answered, failed := map[], [], {}, {}, {};
      outstanding, outstandingResults, results, finished, calls := map[], 0, {}, false, [];
      sent, pending, dropped, skipped, failedThen, front, early := [], {}, {}, {}, {}, [], false;
      new;
      NoneAsked(sortedNodes, {});
    }

    predicate Finder() {
      kind.FindNode? || kind.FindValue?
    }

    // ----- What holds at all times

    ghost predicate Configured()
    {
      C >= 1 && if Finder() then desired.None? else desired.Some? && desired.value != 0
    }

    ghost predicate Listed()
      reads this`sortedNodes, this`found
    {
      Ordered(sortedNodes, found.Keys, Rank(target), Finder())
    }

    ghost function MarksOf(): Marks
      reads this`outstanding, this`queried, this`found, this`pending, this`answered, this`failed, this`dropped,
            this`skipped, this`sent
    {
      Marks(found.Keys, queried, Ids(sent), pending, outstanding.Keys, answered, failed, dropped, skipped)
    }

    function BooksOf(): Books
      reads this`found, this`results, this`answered, this`failed
    {
      Books(found, results, answered, failed)
    }

    /** Where every node stands. */
    ghost predicate Ledger()
      reads this`outstanding, this`outstandingResults, this`queried, this`found, this`pending, this`answered,
            this`failed,
            this`dropped, this`skipped, this`finished, this`sent
    {
      Accounts() && Fitting(MarksOf(), Finder(), finished) && NoRepeats(sent)
    }

    ghost predicate Accounts()
      reads this`outstanding, this`outstandingResults
    {
      outstandingResults == Sum(outstanding)
    }

    method Expect(node: nat, expected: nat)
      requires Accounts() && node !in outstanding
      modifies this`outstanding, this`outstandingResults
      ensures Accounts() && outstanding == old(outstanding)[node := expected]
      ensures outstanding.Keys == old(outstanding).Keys + {node}
      ensures outstandingResults == old(outstandingResults) + expected
    {
      SumAdd(outstanding, node, expected);
      outstanding := outstanding[node := expected];
      outstandingResults := outstandingResults + expected;
    }

    /** Nothing is expected of a node any more. */
    method Release(node: nat)
      requires Accounts()
      modifies this`outstanding, this`outstandingResults
      ensures Accounts() && outstanding == old(outstanding) - {node}
      ensures outstanding.Keys == old(outstanding).Keys - {node}
      ensures outstandingResults
              == old(outstandingResults) - (if node in old(outstanding) then old(outstanding)[node] else 0)
    {
      if node in outstanding {
        SumAny(outstanding, node);
        outstandingResults := outstandingResults - outstanding[node];
      }
      assert node !in outstanding ==> outstanding - {node} == outstanding;
      outstanding := outstanding - {node};
    }

    ghost predicate Expectations()
      reads this`outstanding, this`found, this`skipped
    {
      Expecting(kind, outstanding, found, skipped)
    }

    /** How much is under way. */
    ghost predicate Bounded()
      reads this`outstanding, this`outstandingResults, this`results
    {
      && |outstanding| <= (if Finder() then K else C)
      && (kind.StoreValue? && desired.Some? ==> |results| + outstandingResults <= Abs(desired.value))
    }

    /** The calls of the callback: batches of new values, and exactly one call at the end. */
    ghost predicate Delivered()
      reads this`finished, this`calls, this`results
    {
      && (finished ==> |calls| > 0)
      && (if kind.GetValue? then Batches(calls, finished, results) else |calls| == if finished then 1 else 0)
    }

    ghost predicate Resolved(id: nat)
      reads this`answered, this`failed
    {
      id in answered || id in failed
    }

    /** What the end means. */
    ghost predicate Concluded()
      reads this`finished, this`calls, this`front, this`failedThen, this`early, this`viewThen, this`found, this`queried,
            this`answered, this`dropped, this`results, this`failed
    {
      ConcludedThen() && (finished ==> failedThen <= failed)
    }

    ghost predicate ConcludedThen()
      reads this`finished, this`calls, this`front, this`failedThen, this`early, this`viewThen, this`found, this`queried,
            this`answered, this`dropped, this`results
    {
      finished ==>
        && viewThen == ViewOf()
        && (|calls| > 0 ==> EndsWith(calls[|calls| - 1], front, failedThen, early, viewThen))
    }

    ghost function ViewOf(): View
      reads this`found, this`queried, this`answered, this`dropped, this`results
    {
      View(found, queried, answered, dropped, results, Satisfied())
    }

    ghost predicate EndsWith(call: Call, front: seq<nat>, failed: set<nat>, early: bool, v: View) {
      forall c :: c == call ==> Ending(kind, target, c, front, failed, early, v)
    }

    lemma EndsSo()
      requires Concluded() && finished && |calls| > 0
      ensures Ending(kind, target, calls[|calls| - 1], front, failedThen, early, ViewOf()) && failedThen <= failed
    {
    }

    /** Enough was found or stored, or all nodes that could help have been asked and have answered or failed. */
    ghost predicate Exhausted()
      reads this`found, this`answered, this`results, this`failed
    {
      Satisfied() || Covered(kind, found, answered + failed)
    }

    /** All nodes that have values, nearest first. */
    ghost predicate WithValues(ids: seq<nat>)
      reads this`found
    {
      Valued(ids, Rank(target), found)
    }

    /** Everything but that something is under way. */
    ghost predicate Steady()
      reads this
    {
      Configured() && Listed() && Ledger() && Expectations() && Bounded() && Delivered() && Concluded() && Prefixed()
    }

    /** But for a search, nobody is asked as long as a nearer node is not. */
    ghost predicate Prefixed()
      reads this`sortedNodes, this`queried
    {
      !Finder() ==> NearestFirst(sortedNodes, {}, queried)
    }

    /** Something is under way, as much as may be, and there is no reason to end. */
    ghost predicate Waiting()
      reads this
    {
      outstanding != map[] && Busy(ToProcess()) && Near(ToProcess()) && Unended()
    }

    /** The closest nodes have not all answered, or not enough was found or stored. */
    ghost predicate Unended()
      reads this
    {
      if Finder() then !AllAnswered() else !Satisfied()
    }

    /** One call more at the end, and no other since. */
    predicate Called(before: seq<Call>)
      reads this`finished, this`calls
    {
      OneMoreIf(finished, before, calls)
    }

    /** Not finished, and only the amount under way is open. */
    ghost predicate Running()
      reads this
    {
      Open() && Configured() && Listed() && Delivered()
    }

    /** Not finished, and the books are in order. */
    ghost predicate Open()
      reads this`outstanding, this`outstandingResults, this`queried, this`found, this`pending, this`answered,
            this`failed,
            this`dropped, this`skipped, this`finished, this`sent
    {
      !finished && Ledger() && Expectations()
    }

    /** A request more can be made. */
    ghost predicate Room()
      reads this
    {
      && (if Finder() then |outstanding| <= K else |outstanding| < C)
      && (kind.StoreValue? && desired.Some? ==> |results| + outstandingResults <= Abs(desired.value))
    }

    /** Before the first nodes are known. */
    ghost predicate Idle()
      reads this
    {
      !finished && found == map[] && queried == {} && results == {} && sortedNodes == []
    }

    /** Holds between all events. */
    ghost predicate Valid()
      reads this
    {
      Steady() && (Idle() || finished || Waiting())
    }

    // ----- The nodes in order

    /** sortNodes: sort again only if there are more nodes. */
    method SortNodes()
      requires Ordered(sortedNodes, found.Keys, Rank(target), true)
      modifies this`sortedNodes
      ensures Listed() && Ids(sortedNodes) == found.Keys
    {
      if |sortedNodes| != |found| {
        var values := ListOf(found.Keys);
        RankInjective(target);
        SortIsNearest(values, Rank(target));
        sortedNodes := SortBy(values, Rank(target), |values|);
      } else {
        NearestHasNoRepeats(sortedNodes, Rank(target));
        CountIds(sortedNodes);
        SubsetCard(Ids(sortedNodes), found.Keys);
      }
    }

    /** The closest nodes that have not failed, and how many of them have answered. */
    method ClosestAlive() returns (closest: seq<nat>, ans: nat)
      ensures closest == Front(sortedNodes, failed) && ans == CountIn(closest, answered, |closest|)
    {
      closest, ans := [], 0;
      for i := 0 to |sortedNodes|
        invariant closest == Alive(sortedNodes, failed, i) && |closest| < K
        invariant ans == CountIn(closest, answered, |closest|)
      {
        if sortedNodes[i] !in failed {
          CountInMore(closest, sortedNodes[i], answered);
          closest := closest + [sortedNodes[i]];
          if sortedNodes[i] in answered {
            ans := ans + 1;
          }
          if |closest| >= K {
            FrontReached(sortedNodes, failed, i + 1);
            return;
          }
        }
      }
      FrontReached(sortedNodes, failed, |sortedNodes|);
    }

    /** Requests to nodes that are not among the closest any more are given up. */
    method DropSlow(closest: seq<nat>)
      requires Open() && Finder()
      modifies this`outstanding, this`outstandingResults, this`dropped
      ensures Open() && Kept(old(outstanding), old(dropped), {}, closest)
    {
      var left := outstanding.Keys;
      while left != {}
        invariant Open() && left <= outstanding.Keys
        invariant Kept(old(outstanding), old(dropped), left, closest)
        decreases |left|
      {
        var id :| id in left;
        left := left - {id};
        if id !in closest {
          Drop(id);
        }
      }
    }

    /** Of earlier requests those that are left to look at and those to the closest nodes are still
        outstanding, and the others were given up. */
    ghost predicate Kept(before: map<nat, nat>, droppedBefore: set<nat>, left: set<nat>, closest: seq<nat>)
      reads this`outstanding, this`dropped
    {
      && (forall id :: id in outstanding <==> id in before && (id in left || id in closest))
      && (forall id :: id in dropped <==> id in droppedBefore || (id in before && id !in left && id !in closest))
    }

    method Drop(id: nat)
      requires Open() && Finder() && id in outstanding
      modifies this`outstanding, this`outstandingResults, this`dropped
      ensures Open() && outstanding == old(outstanding) - {id} && dropped == old(dropped) + {id}
    {
      FittingDrop(MarksOf(), id);
      Release(id);
      dropped := dropped + {id};
    }

    /** getNodesToProcess: the nodes to work through, or None when the closest have all answered. */
    method GetNodesToProcess() returns (nodes: Option<seq<nat>>)
      requires Running()
      modifies this`sortedNodes, this`outstanding, this`outstandingResults, this`dropped
      ensures Running()
      ensures !Finder() || nodes.None? ==>
                outstanding == old(outstanding) && outstandingResults == old(outstandingResults)
      ensures Finder() && nodes.Some? ==> Kept(old(outstanding), old(dropped), {}, nodes.value)
      ensures Ids(sortedNodes) == found.Keys && (!Finder() ==> sortedNodes == old(sortedNodes))
      ensures if nodes.None? then Finder() && AllAnswered() else Chosen(nodes.value) && (Finder() ==> !AllAnswered())
    {
      assert forall id :: id in sortedNodes ==> id in Ids(sortedNodes);
      if !Finder() {
        return Some(sortedNodes);
      }
      SortNodes();
      var closest, ans := ClosestAlive();
      if ans >= K {
        return None;
      }
      DropSlow(closest);
      ChosenFront(closest);
      return Some(closest);
    }

    lemma ChosenFront(closest: seq<nat>)
      requires Finder() && closest == Front(sortedNodes, failed) && Ids(sortedNodes) == found.Keys
      requires forall id :: id in outstanding ==> id in closest
      ensures Chosen(closest)
    {
      KeysWithin(outstanding, closest);
      forall id | id in closest ensures id in found {
        FrontAlive(sortedNodes, failed, id);
      }
    }

    function ToProcess(): seq<nat>
      reads this`sortedNodes, this`failed
    {
      if Finder() then Front(sortedNodes, failed) else sortedNodes
    }

    /** The nodes to work through: the front for a search, with no requests to others left; else all. */
    ghost predicate Chosen(nodes: seq<nat>)
      reads this
    {
      && nodes == ToProcess()
      && (forall id :: id in nodes ==> id in found)
      && (Finder() ==> outstanding.Keys <= Ids(nodes) && |outstanding| <= |nodes| <= K)
    }

    /** K of the nodes closest, of those that have not failed, have answered. */
    ghost predicate AllAnswered()
      reads this
    {
      var closest := Front(sortedNodes, failed);
      CountIn(closest, answered, |closest|) >= K
    }

    // ----- Making requests

    /** generateArgs: the number of results expected, or None for the ValueError of a node to pass over, and
        the number of values to ask for, 0 for all. */
    method GenerateArgs(node: nat) returns (expected: Option<nat>, num: nat)
      requires Configured() && node in found
      requires !Finder() && desired.Some? ==> |results| < Abs(desired.value)
      ensures expected == Expected(kind, found[node])
      ensures kind.GetValue? && expected.Some? ==>
                num == if Abs(desired.value) - |results| > expected.value then 0 else Abs(desired.value) - |results|
    {
      num := 0;
      match kind
      case GetValue =>
        if found[node].numValues > 0 {
          num := Abs(desired.value) - |results|;
          assert num > 0;
          if num > found[node].numValues {
            num := 0;
          }
          expected := Some(found[node].numValues);
        } else {
          expected := None;
        }
      case StoreValue =>
        expected := if found[node].token != "" then Some(1) else None;
      case _ =>
        expected := Some(0);
    }

    /** One node of the loop of schedule that has not been asked yet. */
    method Query(node: nat) returns (expected: Option<nat>)
      requires Open() && Configured() && node in found && node !in queried
      requires !Finder() && desired.Some? ==> |results| < Abs(desired.value)
      modifies this`queried, this`outstanding, this`outstandingResults, this`sent, this`pending, this`skipped
      ensures Open() && queried == old(queried) + {node} && (expected.None? ==> !Finder())
      ensures outstanding == if expected.Some? then old(outstanding)[node := expected.value] else old(outstanding)
      ensures outstandingResults == old(outstandingResults) + (if expected.Some? then expected.value else 0)
      ensures expected == Expected(kind, found[node])
    {
      var num;
      expected, num := GenerateArgs(node);
      if expected.Some? {
        Ask(node, expected.value);
      } else {
        PassOver(node);
      }
    }

    method PassOver(node: nat)
      requires Open() && !Finder() && node in found && node !in queried && Passed(kind, found[node])
      modifies this`queried, this`skipped
      ensures Open() && queried == old(queried) + {node}
    {
      FittingSkip(MarksOf(), node);
      queried := queried + {node};
      skipped := skipped + {node};
    }

    method Ask(node: nat, expected: nat)
      requires Open() && node in found && node !in queried && Expected(kind, found[node]) == Some(expected)
      modifies this`queried, this`outstanding, this`outstandingResults, this`sent, this`pending
      ensures Open() && queried == old(queried) + {node}
      ensures outstanding == old(outstanding)[node := expected]
      ensures outstandingResults == old(outstandingResults) + expected
    {
      ghost var m := MarksOf();
      FittingAsk(m, node, Finder());
      AppendId(sent, node);
      queried := queried + {node};
      Expect(node, expected);
      sent := sent + [node];
      pending := pending + {node};
      assert MarksOf() == m.(queried := m.queried + {node}, sent := m.sent + {node}, pending := m.pending + {node},
                             outstanding := m.outstanding + {node});
    }

    predicate Enough()
      reads this`results, this`outstandingResults
    {
      desired.Some? && desired.value != 0 && |results| + outstandingResults >= Abs(desired.value)
    }

    predicate Satisfied()
      reads this`results, this`answered
    {
      && desired.Some? && desired.value != 0
      && (|results| >= Abs(desired.value) || (desired.value < 0 && |answered| >= R))
    }

    /** Before each turn of the loop of schedule: the loop has not been left. */
    ghost predicate Asking(nodes: seq<nat>)
      reads this
    {
      && Open() && Configured()
      && (forall id :: id in nodes ==> id in found)
      && (if Finder() then outstanding.Keys <= Ids(nodes) && |nodes| <= K
          else |outstanding| < C && !Enough())
    }

    /** Enough requests are under way, or all of these nodes have been asked. */
    ghost predicate Busy(nodes: seq<nat>)
      reads this
    {
      |outstanding| >= C || Enough() || forall id :: id in nodes ==> id in queried
    }

    /** A search waits for none but these nodes. */
    ghost predicate Near(nodes: seq<nat>)
      reads this`outstanding
    {
      Finder() ==> outstanding.Keys <= Ids(nodes)
    }

    /** A turn of the loop of schedule, and whether another one follows. */
    method AskNext(nodes: seq<nat>, i: nat) returns (more: bool)
      requires i < |nodes| && Asking(nodes)
      modifies this`queried, this`outstanding, this`outstandingResults, this`sent, this`pending, this`skipped
      ensures more ==> Asking(nodes)
      ensures !more ==> Open() && Bounded() && outstanding != map[] && Busy(nodes) && Near(nodes)
      ensures queried == old(queried) + {nodes[i]}
    {
      ghost var before := outstanding;
      if nodes[i] !in queried {
        var expected := Query(nodes[i]);
        if expected.None? {
          return true;
        }
        OneMore(before, nodes[i], expected.value);
      }
      if Finder() {
        KeysWithin(outstanding, nodes);
      } else if outstandingResults > 0 {
        SumPositive(outstanding);
      }
      more := !(|outstanding| >= C || Enough());
    }

    /** The loop of schedule. */
    method QueryNodes(nodes: seq<nat>)
      requires Asking(nodes)
      modifies this`queried, this`outstanding, this`outstandingResults, this`sent, this`pending, this`skipped
      ensures Open() && Bounded() && Busy(nodes) && Near(nodes)
      ensures outstanding != map[] || forall id :: id in nodes ==> id in queried
      ensures NearestFirst(nodes, old(queried), queried)
    {
      for i := 0 to |nodes|
        invariant Asking(nodes) && forall j :: 0 <= j < i ==> nodes[j] in queried
        invariant FirstAsked(nodes, old(queried), queried, i)
      {
        assert nodes[..i + 1] == nodes[..i] + [nodes[i]];
        var more := AskNext(nodes, i);
        AppendId(nodes[..i], nodes[i]);
        assert FirstAsked(nodes, old(queried), queried, i + 1);
        if !more {
          return;
        }
      }
      if Finder() {
        KeysWithin(outstanding, nodes);
      }
    }

    // ----- Ending

    /** Why an action may end. */
    ghost predicate Done()
      reads this
    {
      if Finder() then
        forall id :: id in Front(sortedNodes, failed) ==> id in queried && (id in answered || id in dropped)
      else Exhausted()
    }

    /** The nodes with values, in the order of the sorted nodes. */
    method HavingValues() returns (ids: seq<nat>)
      requires Listed() && Ids(sortedNodes) == found.Keys
      ensures WithValues(ids)
    {
      ids := [];
      for i := 0 to |sortedNodes|
        invariant forall id :: id in ids <==> id in sortedNodes[..i] && found[id].numValues > 0
        invariant Nearest(ids, Rank(target))
      {
        assert sortedNodes[..i + 1] == sortedNodes[..i] + [sortedNodes[i]];
        assert sortedNodes[i] in Ids(sortedNodes);
        if found[sortedNodes[i]].numValues > 0 {
          NearestMore(sortedNodes, i, ids, Rank(target));
          ids := ids + [sortedNodes[i]];
        }
      }
      assert sortedNodes[..|sortedNodes|] == sortedNodes;
      assert forall id :: id in sortedNodes <==> id in Ids(sortedNodes);
    }

    /** generateResult. */
    method GenerateResult() returns (call: Call)
      requires Listed() && Ids(sortedNodes) == found.Keys
      ensures match kind
              case FindNode => call == Nodes(Front(sortedNodes, failed))
              case FindValue => call.Nodes? && WithValues(call.ids)
              case GetValue => call == Batch([])
              case StoreValue => call == Stored(results)
    {
      match kind
      case FindNode =>
        var closest, ans := ClosestAlive();
        call := Nodes(closest);
      case FindValue =>
        var ids := HavingValues();
        call := Nodes(ids);
      case GetValue =>
        call := Batch([]);
      case StoreValue =>
        call := Stored(results);
    }

    /** The end of an action: the last call of the callback. */
    method Finish(ghost aborted: bool)
      requires Open() && Listed() && Delivered() && Done() && Ids(sortedNodes) == found.Keys
      requires aborted ==> Finder() && AllAnswered()
      modifies this`finished, this`calls, this`failedThen, this`front, this`early, this`viewThen
      ensures Ledger() && Delivered() && Concluded() && finished && Called(old(calls))
      ensures Listed() && Expectations() && ToProcess() == old(ToProcess())
    {
      var result := GenerateResult();
      EndsNow(result, aborted);
      Close(result, Front(sortedNodes, failed), aborted);
    }

    lemma EndsNow(call: Call, aborted: bool)
      requires Listed() && Done() && Ids(sortedNodes) == found.Keys
      requires aborted ==> Finder() && AllAnswered()
      requires match kind
               case FindNode => call == Nodes(Front(sortedNodes, failed))
               case FindValue => call.Nodes? && WithValues(call.ids)
               case GetValue => call == Batch([])
               case StoreValue => call == Stored(results)
      ensures EndsWith(call, Front(sortedNodes, failed), failed, aborted, ViewOf())
    {
      if Finder() {
        FrontIsClosest(sortedNodes, failed, Rank(target));
        if aborted {
          AllOfFront(Front(sortedNodes, failed), answered);
        }
      }
      assert Ending(kind, target, call, Front(sortedNodes, failed), failed, aborted, ViewOf());
    }

    method Close(result: Call, ghost closest: seq<nat>, ghost aborted: bool)
      requires Open() && Delivered() && EndsWith(result, closest, failed, aborted, ViewOf())
      requires kind.GetValue? ==> result == Batch([])
      modifies this`finished, this`calls, this`failedThen, this`front, this`early, this`viewThen
      ensures Ledger() && Delivered() && Concluded() && finished && calls == old(calls) + [result]
    {
      Remember(result, closest, aborted);
      CallLast(result);
      assert calls[|calls| - 1] == result;
    }

    method Remember(result: Call, ghost closest: seq<nat>, ghost aborted: bool)
      requires !finished && EndsWith(result, closest, failed, aborted, ViewOf())
      modifies this`failedThen, this`front, this`early, this`viewThen
      ensures viewThen == ViewOf() && failedThen == failed && EndsWith(result, front, failedThen, early, viewThen)
    {
      viewThen, failedThen, front, early := ViewOf(), failed, closest, aborted;
    }

    /** The action is finished. */
    method CallLast(result: Call)
      requires Open() && Delivered() && (kind.GetValue? ==> result == Batch([]))
      modifies this`finished, this`calls
      ensures Ledger() && Delivered() && finished && calls == old(calls) + [result]
    {
      FinishBatches(calls, results);
      FittingEnd(MarksOf(), Finder());
      finished := true;
      calls := calls + [result];
    }

    /** What scheduling leads to: the end, with one call more, or that something is under way, the nearest nodes
        having been asked. */
    ghost predicate Scheduled(callsBefore: seq<Call>, queriedBefore: set<nat>)
      reads this
    {
      && Steady() && (finished || Waiting())
      && Called(callsBefore) && NearestFirst(ToProcess(), queriedBefore, queried)
    }

    /** schedule, of an action that is not finished; one that is stays as it is. */
    method Schedule(ghost callsBefore: seq<Call>, ghost queriedBefore: set<nat>)
      requires Running() && Room() && Prefixed() && calls == callsBefore && queried == queriedBefore
      modifies this`sortedNodes, this`queried, this`outstanding, this`outstandingResults, this`finished, this`calls,
               this`sent, this`pending, this`dropped, this`skipped, this`failedThen, this`front, this`early,
                   this`viewThen
      ensures Scheduled(callsBefore, queriedBefore)
    {
      var nodes := GetNodesToProcess();
      NoneAsked(ToProcess(), queried);
      if nodes.None? {
        FinishAborted(callsBefore, queriedBefore);
        return;
      }
      ScheduleNodes(nodes.value, callsBefore, queriedBefore);
    }

    /** The closest nodes have all answered. */
    method FinishAborted(ghost callsBefore: seq<Call>, ghost queriedBefore: set<nat>)
      requires Running() && Room() && Prefixed() && Finder() && AllAnswered() && Ids(sortedNodes) == found.Keys
      requires calls == callsBefore && NearestFirst(ToProcess(), queriedBefore, queried)
      modifies this`finished, this`calls, this`failedThen, this`front, this`early, this`viewThen
      ensures Scheduled(callsBefore, queriedBefore)
    {
      DoneEarly();
      FinishWith(true, callsBefore, queriedBefore);
    }

    /** The end, when it has come. */
    method FinishWith(ghost aborted: bool, ghost callsBefore: seq<Call>, ghost queriedBefore: set<nat>)
      requires Running() && Bounded() && Prefixed() && Done() && Ids(sortedNodes) == found.Keys
      requires aborted ==> Finder() && AllAnswered()
      requires calls == callsBefore && NearestFirst(ToProcess(), queriedBefore, queried)
      modifies this`finished, this`calls, this`failedThen, this`front, this`early, this`viewThen
      ensures Scheduled(callsBefore, queriedBefore)
    {
      Finish(aborted);
    }

    lemma GoesOn(callsBefore: seq<Call>, queriedBefore: set<nat>)
      requires Running() && Bounded() && Prefixed() && Waiting() && !finished
      requires calls == callsBefore && NearestFirst(ToProcess(), queriedBefore, queried)
      ensures Scheduled(callsBefore, queriedBefore)
    {
    }

    method ScheduleNodes(nodes: seq<nat>, ghost callsBefore: seq<Call>, ghost queriedBefore: set<nat>)
      requires Running() && Room() && Ids(sortedNodes) == found.Keys && Chosen(nodes) && Prefixed()
      requires Finder() ==> !AllAnswered()
      requires calls == callsBefore && queried == queriedBefore && NearestFirst(ToProcess(), queriedBefore, queried)
      modifies this`queried, this`outstanding, this`outstandingResults, this`finished, this`calls,
               this`sent, this`pending, this`skipped, this`failedThen, this`front, this`early, this`viewThen
      ensures Scheduled(callsBefore, queriedBefore)
    {
      if Satisfied() {
        DoneEarly();
        FinishWith(false, callsBefore, queriedBefore);
      } else if !Enough() {
        QueryOrFinish(nodes, callsBefore, queriedBefore);
      } else {
        SumPositive(outstanding);
        GoesOn(callsBefore, queriedBefore);
      }
    }

    /** Make requests, and end if there is nothing to wait for. */
    method QueryOrFinish(nodes: seq<nat>, ghost callsBefore: seq<Call>, ghost queriedBefore: set<nat>)
      requires Running() && Asking(nodes) && Ids(sortedNodes) == found.Keys
      requires nodes == ToProcess() && Unended() && Prefixed() && calls == callsBefore && queried == queriedBefore
      modifies this`queried, this`outstanding, this`outstandingResults, this`finished, this`calls,
               this`sent, this`pending, this`skipped, this`failedThen, this`front, this`early, this`viewThen
      ensures Scheduled(callsBefore, queriedBefore)
    {
      AskThese(nodes, queriedBefore);
      if |outstanding| == 0 {
        DoneLate();
        FinishWith(false, callsBefore, queriedBefore);
      } else {
        GoesOn(callsBefore, queriedBefore);
      }
    }

    method AskThese(nodes: seq<nat>, ghost queriedBefore: set<nat>)
      requires Running() && Asking(nodes) && nodes == ToProcess() && Unended() && Prefixed() && queried == queriedBefore
      modifies this`queried, this`outstanding, this`outstandingResults, this`sent, this`pending, this`skipped
      ensures Running() && Bounded() && Prefixed() && Unended() && Busy(ToProcess()) && Near(ToProcess())
      ensures NearestFirst(ToProcess(), queriedBefore, queried)
      ensures outstanding != map[] || forall id :: id in ToProcess() ==> id in queried
    {
      QueryThese(nodes, queriedBefore);
      if !Finder() { StillPrefixed(sortedNodes, queriedBefore, queried); }
    }

    method QueryThese(nodes: seq<nat>, ghost queriedBefore: set<nat>)
      requires Running() && Asking(nodes) && nodes == ToProcess() && Unended() && queried == queriedBefore
      modifies this`queried, this`outstanding, this`outstandingResults, this`sent, this`pending, this`skipped
      ensures Running() && Bounded() && Unended() && Busy(ToProcess()) && Near(ToProcess())
      ensures NearestFirst(ToProcess(), queriedBefore, queried) && (!Finder() ==> ToProcess() == sortedNodes)
      ensures outstanding != map[] || forall id :: id in ToProcess() ==> id in queried
    {
      QueryNodes(nodes);
    }

    lemma DoneEarly()
      requires Running() && (if Finder() then AllAnswered() else Satisfied())
      ensures Done()
    {
      if Finder() {
        AllOfFront(Front(sortedNodes, failed), answered);
        forall id | id in Front(sortedNodes, failed) ensures id in queried && id in answered {
          assert Fits(MarksOf(), id, true, false);
        }
      }
    }

    lemma DoneLate()
      requires Open() && outstanding == map[] && Ids(sortedNodes) == found.Keys
      requires if Finder() then forall id :: id in Front(sortedNodes, failed) ==> id in queried
               else forall id :: id in sortedNodes ==> id in queried
      ensures Done()
    {
      if Finder() {
        forall id | id in Front(sortedNodes, failed) ensures id in answered || id in dropped {
          assert Fits(MarksOf(), id, true, false);
          FrontAlive(sortedNodes, failed, id);
        }
      } else {
        forall id | id in found ensures Resolved(id) || Passed(kind, found[id]) {
          assert id in Ids(sortedNodes);
          assert Fits(MarksOf(), id, false, false);
        }
      }
    }

    // ----- Answers and failures

    /** handleGotNodes: nodes that are not known yet are found, up to the first entry that cannot be used. */
    method HandleGotNodes(entries: seq<Option<nat>>) returns (ok: bool)
      requires Finder() && Listed() && Open()
      modifies this`found
      ensures Listed() && Open() && (ok <==> Usable(entries, 0) == |entries|)
      ensures found == Met(entries, Usable(entries, 0), old(found))
    {
      var i := 0;
      while i < |entries| && entries[i].Some?
        invariant i <= |entries| && Usable(entries, 0) == Usable(entries, i)
        invariant Listed() && Open()
        invariant found == Met(entries, i, old(found))
      {
        if entries[i].value !in found {
          Discover(entries[i].value);
        }
        i := i + 1;
      }
      ok := i == |entries|;
    }

    method Discover(id: nat)
      requires Finder() && Listed() && Open() && id !in found
      modifies this`found
      ensures Listed() && Open() && found == old(found)[id := Contact("", 0)]
    {
      FittingFound(MarksOf(), id, true);
      found := found[id := Contact("", 0)];
      assert MarksOf() == old(MarksOf()).(found := old(found).Keys + {id});
    }

    /** updateToken and updateNumValues. */
    method Note(node: nat, reply: Reply)
      requires Finder() && Listed() && Open() && node in found
      modifies this`found
      ensures Listed() && Open() && found == old(found)[node := Noted(kind, old(found)[node], reply)]
    {
      forall id ensures id !in skipped {
        assert Fits(MarksOf(), id, true, false);
      }
      found := found[node := Noted(kind, found[node], reply)];
      assert found.Keys == old(found).Keys;
    }

    /** processResponse of FindNode and FindValue. */
    method ProcessFound(node: nat, reply: Reply) returns (ok: bool)
      requires Finder() && Listed() && Open() && node in found
      modifies this`found
      ensures Listed() && Open() && ok == Useful(kind, reply) && found == FoundAfter(kind, node, reply, old(found))
    {
      Note(node, reply);
      if reply.nodes.None? {
        return false;
      }
      ok := HandleGotNodes(reply.nodes.value);
    }

    /** processResponse of GetValue: the new values are a batch. An item that cannot be looked up ends
        the processing; the values before it count as seen but are not delivered. */
    method ProcessValues(reply: Reply) returns (ok: bool)
      requires kind.GetValue? && Delivered() && !finished
      modifies this`results, this`calls
      ensures Delivered() && ok == Useful(kind, reply) && results == ResultsAfter(kind, 0, reply, old(results))
      ensures calls == old(calls) + BatchOf(kind, reply, old(results))
    {
      match reply.values
      case Absent => ok := true;
      case Malformed => ok := false;
      case Given(items) =>
        var v;
        ok, v := Collect(items);
        if ok && |v| > 0 {
          NewValuesAre(items, |items|, old(results));
          BatchAdded(calls, old(results), results, v);
          calls := calls + [Batch(v)];
        } else {
          BatchesSeen(calls, old(results), results);
        }
    }

    /** The loop over the values of an answer. */
    method Collect(items: seq<Option<Scalar>>) returns (ok: bool, v: seq<Scalar>)
      modifies this`results
      ensures ok == (Usable(items, 0) == |items|)
      ensures results == old(results) + SeenIn(items, Usable(items, 0))
      ensures v == NewValues(items, Usable(items, 0), old(results))
    {
      v := [];
      var i := 0;
      while i < |items| && items[i].Some?
        invariant i <= |items| && Usable(items, 0) == Usable(items, i)
        invariant results == old(results) + SeenIn(items, i)
        invariant v == NewValues(items, i, old(results))
      {
        var item := items[i].value;
        SeenNext(items, i + 1);
        if Value(item) !in results {
          results := results + {Value(item)};
          if !Falsy(item) {
            v := v + [item];
          }
        }
        i := i + 1;
      }
      ok := i == |items|;
    }

    /** processResponse: whether it raised no exception. */
    method ProcessResponse(node: nat, reply: Reply) returns (ok: bool)
      requires Running() && node in found
      modifies this`found, this`results, this`calls
      ensures Running() && ok == Useful(kind, reply)
      ensures BooksOf() == Processed(kind, node, reply, old(BooksOf()))
      ensures calls == old(calls) + BatchOf(kind, reply, old(results))
    {
      match kind
      case GetValue =>
        ok := ProcessValues(reply);
      case StoreValue =>
        results := results + {Holder(node)};
        ok := true;
      case _ =>
        ok := ProcessFound(node, reply);
    }

    /** What is noted of a node that has answered or failed. */
    method Settle(node: nat, ok: bool)
      requires Ledger() && Expectations() && node in pending && (finished ==> !ok)
      modifies this`answered, this`failed, this`pending, this`outstanding, this`outstandingResults
      ensures Ledger() && Expectations() && outstanding == old(outstanding) - {node} && pending == old(pending) - {node}
      ensures answered == (if ok then old(answered) + {node} else old(answered))
      ensures failed == (if ok then old(failed) else old(failed) + {node})
      ensures kind.StoreValue? && node in old(outstanding) ==> outstandingResults == old(outstandingResults) - 1
      ensures node !in old(outstanding) ==> outstandingResults == old(outstandingResults)
      ensures !Finder() && !finished ==> node in old(outstanding)
    {
      ghost var m := MarksOf();
      assert Fits(m, node, Finder(), finished);
      FittingSettle(m, node, Finder(), finished, ok);
      if ok {
        answered := answered + {node};
      } else {
        failed := failed + {node};
      }
      pending := pending - {node};
      Release(node);
    }

    /** An answer is processed, and the request of its node settled. */
    method Resolve(node: nat, reply: Reply)
      requires Running() && Bounded() && node in pending
      modifies this`found, this`results, this`calls, this`answered, this`failed, this`pending, this`outstanding,
               this`outstandingResults
      ensures Running() && Room() && BooksOf() == BooksAfter(kind, node, reply, old(BooksOf()))
      ensures calls == old(calls) + BatchOf(kind, reply, old(results))
    {
      var ok := Process(node, reply);
      SettleRunning(node, ok);
    }

    method SettleRunning(node: nat, ok: bool)
      requires Running() && node in pending
      requires |outstanding| <= if Finder() then K else C
      requires kind.StoreValue? && desired.Some? ==> |results| + outstandingResults <= Abs(desired.value) + 1
      modifies this`answered, this`failed, this`pending, this`outstanding, this`outstandingResults
      ensures Running() && Room() && BooksOf() == Settled(node, ok, old(BooksOf()))
    {
      SettleOne(node, ok);
    }

    /** An answer is processed; a store may have one result more than it wants until the request is settled. */
    method Process(node: nat, reply: Reply) returns (ok: bool)
      requires Running() && Bounded() && node in pending
      modifies this`found, this`results, this`calls
      ensures Running() && ok == Useful(kind, reply)
      ensures kind.StoreValue? && desired.Some? ==> |results| + outstandingResults <= Abs(desired.value) + 1
      ensures BooksOf() == Processed(kind, node, reply, old(BooksOf()))
      ensures calls == old(calls) + BatchOf(kind, reply, old(results))
    {
      OnePending(node);
      ok := ProcessResponse(node, reply);
      ResultsGrow(kind, node, reply, old(results));
    }

    /** A request less is outstanding. */
    method SettleOne(node: nat, ok: bool)
      requires Open() && Configured() && node in pending
      requires |outstanding| <= if Finder() then K else C
      requires kind.StoreValue? && desired.Some? ==> |results| + outstandingResults <= Abs(desired.value) + 1
      modifies this`answered, this`failed, this`pending, this`outstanding, this`outstandingResults
      ensures Open() && Room() && BooksOf() == Settled(node, ok, old(BooksOf()))
    {
      assert Fits(MarksOf(), node, Finder(), false);
      ghost var before := outstanding;
      Settle(node, ok);
      OneLess(before, node);
    }

    /** gotResponse: the node has answered, or failed if its answer was of no use. A late answer is ignored. */
    method GotResponse(node: nat, reply: Reply)
      requires Valid() && node in pending
      modifies this
      ensures Valid()
      ensures old(finished) ==> finished && calls == old(calls) && BooksOf() == old(BooksOf())
      ensures !old(finished) ==> BooksOf() == BooksAfter(kind, node, reply, old(BooksOf()))
      ensures !old(finished) ==> Scheduled(old(calls) + BatchOf(kind, reply, old(results)), old(queried))
      ensures !old(finished) ==> Learned(kind, node, reply, old(found), BooksOf().found)
    {
      OnePending(node);
      BooksLearned(kind, node, reply, BooksOf());
      if finished || node in answered || node in failed {
        Ignore(node);
      } else {
        Respond(node, reply);
      }
    }

    method Respond(node: nat, reply: Reply)
      requires Steady() && !finished && node in pending
      modifies this
      ensures Scheduled(old(calls) + BatchOf(kind, reply, old(results)), old(queried))
      ensures BooksOf() == BooksAfter(kind, node, reply, old(BooksOf()))
    {
      ghost var after, asked := BooksAfter(kind, node, reply, BooksOf()), queried;
      ghost var called := calls + BatchOf(kind, reply, results);
      Resolve(node, reply);
      ScheduleWith(called, asked, after);
    }

    /** schedule, which leaves the books as they are. */
    method ScheduleWith(ghost callsBefore: seq<Call>, ghost queriedBefore: set<nat>, ghost books: Books)
      requires Running() && Room() && Prefixed()
      requires calls == callsBefore && queried == queriedBefore && BooksOf() == books
      modifies this`sortedNodes, this`queried, this`outstanding, this`outstandingResults, this`finished, this`calls,
               this`sent, this`pending, this`dropped, this`skipped, this`failedThen, this`front, this`early,
                   this`viewThen
      ensures Scheduled(callsBefore, queriedBefore) && BooksOf() == books
    {
      Schedule(callsBefore, queriedBefore);
    }

    method Ignore(node: nat)
      requires Valid() && finished
      modifies this`pending
      ensures Valid() && BooksOf() == old(BooksOf())
    {
      FittingLate(MarksOf(), node, Finder());
      pending := pending - {node};
    }

    /** actionFailed: the node has failed, which is noted even when the action is finished. */
    method ActionFailed(node: nat)
      requires Valid() && node in pending
      modifies this
      ensures Valid() && BooksOf() == old(BooksOf()).(failed := old(failed) + {node})
      ensures old(finished) ==> finished && calls == old(calls)
      ensures !old(finished) ==> Scheduled(old(calls), old(queried))
    {
      if finished {
        FailLate(node);
      } else {
        FailNow(node);
      }
    }

    method FailNow(node: nat)
      requires Steady() && !finished && node in pending
      modifies this`sortedNodes, this`queried, this`failed, this`outstanding, this`outstandingResults,
               this`finished, this`calls, this`sent, this`pending, this`dropped, this`skipped, this`failedThen,
               this`front, this`early, this`viewThen
      ensures Scheduled(old(calls), old(queried))
      ensures BooksOf() == old(BooksOf()).(failed := old(failed) + {node})
    {
      ghost var after := BooksOf().(failed := failed + {node});
      FailOne(node);
      ScheduleWith(calls, queried, after);
    }

    method FailOne(node: nat)
      requires Open() && Bounded() && node in pending
      modifies this`failed, this`pending, this`outstanding, this`outstandingResults
      ensures Open() && Room() && BooksOf() == old(BooksOf()).(failed := old(failed) + {node})
    {
      ghost var before := outstanding;
      SettleFailed(node);
      OneLess(before, node);
    }

    /** What is noted of a node that has failed, in time or after the end. */
    method SettleFailed(node: nat)
      requires Ledger() && Expectations() && node in pending
      modifies this`failed, this`pending, this`outstanding, this`outstandingResults
      ensures Ledger() && Expectations() && outstanding == old(outstanding) - {node}
      ensures failed == old(failed) + {node} && outstandingResults <= old(outstandingResults)
      ensures !Finder() && !finished ==> node in old(outstanding)
    {
      assert Fits(MarksOf(), node, Finder(), finished);
      FittingSettle(MarksOf(), node, Finder(), finished, false);
      failed := failed + {node};
      pending := pending - {node};
      Release(node);
    }

    method FailLate(node: nat)
      requires Ledger() && Expectations() && Bounded() && Concluded() && finished && |calls| > 0 && node in pending
      modifies this`failed, this`pending, this`outstanding, this`outstandingResults
      ensures Ledger() && Expectations() && Bounded() && Concluded() && failed == old(failed) + {node}
    {
      ghost var before := outstanding;
      SettleFailed(node);
      OneLess(before, node);
    }

    /** goWithNodes: the nodes to start from. */
    method GoWithNodes(nodes: seq<(nat, Contact)>)
      requires Valid() && Idle() && calls == []
      modifies this
      ensures Scheduled([], {}) && BooksOf() == FirstBooks(nodes)
    {
      NothingYet();
      AddFirst(nodes);
      Begin();
      assert BooksOf() == FirstBooks(nodes);
    }

    /** The first requests. */
    method Begin()
      requires Open() && Configured() && Delivered() && Room() && calls == [] && queried == {} && sortedNodes == []
      modifies this`sortedNodes, this`queried, this`outstanding, this`outstandingResults, this`finished, this`calls,
               this`sent, this`pending, this`dropped, this`skipped, this`failedThen, this`front, this`early,
                   this`viewThen
      ensures Scheduled([], {})
    {
      SortNodes();
      NoneAsked(sortedNodes, {});
      Schedule([], {});
    }

    lemma NothingYet()
      requires Ledger() && Idle()
      ensures outstanding == map[] && skipped == {} && outstandingResults == 0 && answered == {} && failed == {}
    {
      forall id ensures id !in outstanding && id !in skipped && id !in answered && id !in failed {
        assert Fits(MarksOf(), id, Finder(), false);
      }
    }

    method AddFirst(nodes: seq<(nat, Contact)>)
      requires Open() && Idle() && outstanding == map[] && skipped == {}
      modifies this`found
      ensures Open() && found == FirstFound(nodes, |nodes|)
    {
      for i := 0 to |nodes|
        invariant Open() && outstanding == map[] && skipped == {} && found == FirstFound(nodes, i)
      {
        FittingFound(MarksOf(), nodes[i].0, Finder());
        assert found[nodes[i].0 := nodes[i].1].Keys == found.Keys + {nodes[i].0};
        found := found[nodes[i].0 := nodes[i].1];
      }
    }

    /** A pending request is to a node that was found, and leaves room when it is resolved. */
    lemma OnePending(node: nat)
      requires Ledger() && node in pending
      ensures node in found && node in queried && !Resolved(node) && !Idle()
    {
      assert Fits(MarksOf(), node, Finder(), finished);
    }

    // ----- What every run keeps

    /** When all requests have been resolved, the action is finished: it never waits for nothing. */
    lemma NeverStalls()
      requires Valid() && !Idle() && pending == {}
      ensures finished
    {
      forall id ensures id in outstanding && !finished ==> id in pending {
        assert Fits(MarksOf(), id, Finder(), finished);
      }
      assert !finished ==> outstanding == map[];
    }

    /** Each node is asked at most once, and only one that was found. */
    lemma AskedOnce()
      requires Valid()
      ensures NoRepeats(sent) && forall id :: id in sent ==> id in found && id in queried
    {
      forall id | id in sent ensures id in found && id in queried {
        assert Fits(MarksOf(), id, Finder(), finished);
      }
    }

    /** Stores made and stores under way are never more than are wanted. */
    lemma StoresBounded()
      requires Valid() && kind.StoreValue?
      ensures |results| + |outstanding| <= Abs(desired.value) && |outstanding| <= C
    {
      SumOnes(outstanding);
    }

    /** A store or a retrieval goes on as long as not enough is stored or found, and, if as many answers as
        replicas are kept may be enough, fewer have come; it ends then, or when every node that could help has been
        asked and has answered or failed. */
    lemma EndsWhen()
      requires Valid() && !Finder() && !Idle()
      ensures finished ==>
                || |results| >= Abs(desired.value) || (desired.value < 0 && |answered| >= R)
                || forall id :: id in found && (if kind.GetValue? then found[id].numValues > 0
                   else found[id].token != "")
                                ==> id in queried && Resolved(id)
      ensures !finished ==> |results| < Abs(desired.value) && (desired.value < 0 ==> |answered| < R)
    {
      if finished {
        EndsSo();
        forall id | id in found && Resolved(id) ensures id in queried {
          assert Fits(MarksOf(), id, false, true);
        }
      }
    }

    /** As long as it goes on, an action waits for answers, and for no fewer than it may: CONCURRENT_REQS requests
        are under way, or what is expected of those that are would be enough, or nobody is left to ask. */
    lemma KeepsBusy()
      requires Valid() && !Idle() && !finished
      ensures outstanding != map[] && outstandingResults == Sum(outstanding)
      ensures forall id :: id in outstanding ==> id in found && Worth(kind, found[id], outstanding[id])
      ensures kind.FindNode? || kind.FindValue? ==>
                |outstanding| >= C || forall id :: id in Front(sortedNodes, failed) ==> id in queried
      ensures kind.GetValue? || kind.StoreValue? ==>
                || |outstanding| >= C
                || -(|results| + outstandingResults) <= desired.value <= |results| + outstandingResults
                || forall id :: id in found ==> id in queried
    {
    }

    /** A search goes on only as long as it waits for one of the closest nodes that have not failed: it is finished when
        these have all answered. */
    lemma SearchGoesOn()
      requires Valid() && Finder() && !Idle() && !finished
      ensures exists id :: id in Front(sortedNodes, failed) && id in outstanding && id !in answered
    {
      var id :| id in outstanding;
      assert Near(ToProcess()) && id in Ids(Front(sortedNodes, failed));
      assert Fits(MarksOf(), id, true, false);
    }

    /** A store asks the nodes nearest to its key, and a retrieval the nearest that it knows: none as long as a
        nearer one has not been looked at. */
    lemma NearestAsked(x: nat, y: nat)
      requires Valid() && !Finder() && x in found && y in queried && Rank(target)(x) < Rank(target)(y)
      ensures x in queried
    {
      var m :| FirstAsked(sortedNodes, {}, queried, m);
      NearerIsBefore(sortedNodes, Rank(target), m, x, y);
    }

    /** A store ends with as many stores as are wanted, or when every node that gave a token has been
        asked and has answered or failed. */
    lemma StoreEnds()
      requires Valid() && kind.StoreValue? && finished && desired.value > 0
      ensures calls == [Stored(results)]
      ensures |results| == desired.value
              || forall id :: id in found && found[id].token != "" ==> id in queried && Resolved(id)
    {
      StoresBounded();
      EndsSo();
      if |results| != desired.value {
        forall id | id in found && found[id].token != "" ensures id in queried && Resolved(id) {
          assert Fits(MarksOf(), id, false, true);
        }
      }
    }

    /** The answer of a search for nodes: the closest of all nodes found that had not failed, each of them
        asked and, unless it was given up as too slow, heard of; all of them if the search ended early. */
    lemma SearchEnds(id: nat)
      requires Valid() && kind.FindNode? && finished
      ensures |calls| == 1 && calls[0].Nodes? && ClosestIds(calls[0].ids, Rank(target), found.Keys - failedThen)
      ensures id in calls[0].ids ==> id in queried && (id in answered || id in dropped) && (early ==> id in answered)
      ensures id in found && id !in failedThen && id !in calls[0].ids ==>
                forall x :: x in calls[0].ids ==> Rank(target)(x) < Rank(target)(id)
    {
      EndsSo();
    }

    /** A retrieval delivers batches of values, none empty, no value twice; the one empty batch is its end. */
    lemma ValuesDelivered(i: nat, j: nat)
      requires Valid() && kind.GetValue? && i < j < |calls|
      ensures calls[i].Batch? && calls[i].values != [] && Distinct(calls[i].values)
      ensures forall v :: v in calls[i].values ==> v !in calls[j].values
      ensures calls[j].Batch? && (calls[j].values == [] <==> finished && j == |calls| - 1)
    {
    }
  }


  lemma OneLess(m: map<nat, nat>, k: nat)
    ensures |m - {k}| == if k in m then |m| - 1 else |m|
  {
    if k in m {
      assert (m - {k}).Keys == m.Keys - {k};
    } else {
      assert m - {k} == m;
    }
  }

  /** A store has at most one result more. */
  lemma ResultsGrow(kind: Kind, node: nat, reply: Reply, results: set<Item>)
    ensures kind.StoreValue? ==> |ResultsAfter(kind, node, reply, results)| <= |results| + 1
  {
  }

  lemma FittingLate(m: Marks, id: nat, finder: bool)
    requires Fitting(m, finder, true)
    ensures Fitting(m.(pending := m.pending - {id}), finder, true)
  {
    forall x ensures Fits(m.(pending := m.pending - {id}), x, finder, true) {
      assert Fits(m, x, finder, true);
    }
  }

  lemma FittingSettle(m: Marks, id: nat, finder: bool, finished: bool, ok: bool)
    requires Fitting(m, finder, finished) && id in m.pending
    ensures ok ==> Fitting(m.(answered := m.answered + {id}, pending := m.pending - {id},
            outstanding := m.outstanding - {id}), finder, finished)
    ensures !ok ==> Fitting(m.(failed := m.failed + {id}, pending := m.pending - {id},
            outstanding := m.outstanding - {id}), finder, finished)
  {
    var m1 := m.(answered := m.answered + {id}, pending := m.pending - {id}, outstanding := m.outstanding - {id});
    var m2 := m.(failed := m.failed + {id}, pending := m.pending - {id}, outstanding := m.outstanding - {id});
    assert Fits(m, id, finder, finished);
    forall x ensures Fits(m1, x, finder, finished) && Fits(m2, x, finder, finished) {
      assert Fits(m, x, finder, finished);
    }
  }

  lemma FittingFound(m: Marks, id: nat, finder: bool)
    requires Fitting(m, finder, false)
    ensures Fitting(m.(found := m.found + {id}), finder, false)
  {
    forall x ensures Fits(m.(found := m.found + {id}), x, finder, false) {
      assert Fits(m, x, finder, false);
    }
  }

  lemma BatchesSeen(calls: seq<Call>, seen: set<Item>, seen': set<Item>)
    requires Batches(calls, false, seen) && seen <= seen'
    ensures Batches(calls, false, seen')
  {
  }

  lemma BatchAdded(calls: seq<Call>, seen: set<Item>, seen': set<Item>, v: seq<Scalar>)
    requires Batches(calls, false, seen) && seen <= seen' && v != [] && Distinct(v)
    requires forall x :: x in v ==> Value(x) in seen' && Value(x) !in seen
    ensures Batches(calls + [Batch(v)], false, seen')
  {
    var r := calls + [Batch(v)];
    forall i, j, x | 0 <= i < j < |r| && x in r[i].values ensures x !in r[j].values {
      assert Value(x) in seen;
    }
  }


  lemma FrontAlive(s: seq<nat>, failed: set<nat>, id: nat)
    requires id in Front(s, failed)
    ensures id in Ids(s) && id !in failed
  {
    assert id in Alive(s, failed, |s|);
    AliveHas(s, failed, |s|, id);
  }

  /** The last, empty batch. */
  lemma FinishBatches(calls: seq<Call>, results: set<Item>)
    ensures Batches(calls, false, results) ==> Batches(calls + [Batch([])], true, results)
  {
  }

  lemma FittingEnd(m: Marks, finder: bool)
    requires Fitting(m, finder, false)
    ensures Fitting(m, finder, true)
  {
    forall id ensures Fits(m, id, finder, true) {
      assert Fits(m, id, finder, false);
    }
  }

  /** K of at most K is all. */
  lemma AllOfFront(front: seq<nat>, t: set<nat>)
    requires CountIn(front, t, |front|) >= K >= |front|
    ensures |front| == K && forall id :: id in front ==> id in t
  {
  }

  lemma NearestMore(s: seq<nat>, i: nat, ids: seq<nat>, key: nat -> nat)
    requires Nearest(s, key) && i < |s| && Nearest(ids, key) && forall id :: id in ids ==> id in s[..i]
    ensures Nearest(ids + [s[i]], key)
  {
    forall j | 0 <= j < |ids| ensures key(ids[j]) < key(s[i]) {
      assert ids[j] in s[..i];
      var k :| 0 <= k < i && s[k] == ids[j];
    }
  }


  lemma OneMore(m: map<nat, nat>, k: nat, v: nat)
    ensures |m[k := v]| <= |m| + 1
  {
    assert m[k := v].Keys == m.Keys + {k};
  }

  lemma KeysWithin(m: map<nat, nat>, nodes: seq<nat>)
    requires m.Keys <= Ids(nodes)
    ensures |m| <= |nodes|
  {
    IdsAtMost(nodes);
    SubsetCard(m.Keys, Ids(nodes));
  }

  /** The members of a set, in any order. */
  method ListOf(ids: set<nat>) returns (s: seq<nat>)
    ensures NoRepeats(s) && Ids(s) == ids
  {
    s := [];
    var left := ids;
    while left != {}
      invariant NoRepeats(s) && Ids(s) == ids - left && left <= ids
      decreases |left|
    {
      var id :| id in left;
      left := left - {id};
      assert id !in Ids(s);
      AppendId(s, id);
      s := s + [id];
    }
  }

  lemma AppendId(s: seq<nat>, id: nat)
    ensures Ids(s + [id]) == Ids(s) + {id}
    ensures NoRepeats(s) && id !in s ==> NoRepeats(s + [id])
  {
  }

  lemma {:induction false} CountInSame(s: seq<nat>, r: seq<nat>, t: set<nat>, n: nat)
    requires n <= |s| && n <= |r| && forall i :: 0 <= i < n ==> s[i] == r[i]
    ensures CountIn(s, t, n) == CountIn(r, t, n)
  {
    if n > 0 {
      CountInSame(s, r, t, n - 1);
    }
  }

  lemma CountInMore(s: seq<nat>, x: nat, t: set<nat>)
    ensures CountIn(s + [x], t, |s| + 1) == CountIn(s, t, |s|) + (if x in t then 1 else 0)
  {
    CountInSame(s, s + [x], t, |s|);
  }
}
