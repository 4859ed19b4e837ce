/** When a replica catches up with the primary: exactly when one drain does it, and over whole runs in which
    that replica's own requests are answered, whatever late deliveries and other replicas do. */
module WalCatchUp {
  import opened Bytes
  import opened Sorting
  import opened SegmentNames
  import opened WalPrimary
  import opened WalReplica
  import opened WalSystem

  // ----- what is on its way -----

  /** Shipment id is for row i. */
  ghost predicate Brings(db: Db, id: nat, i: nat) {
    id < |db.shipments| && i < |db.rows| && db.shipments[id].name == db.rows[i].name
  }

  /** Shipment id will still take row i to e: it is pending and has attempts left. */
  ghost predicate Delivers(db: Db, id: nat, e: Endpoint, i: nat) {
    && Brings(db, id, i)
    && db.shipments[id].endpoint == e && db.shipments[id].status.Pending?
    && db.shipments[id].attempts < MAX_SHIPMENT_ATTEMPTS
  }

  ghost predicate Awaited(db: Db, e: Endpoint, i: nat) { exists id: nat :: Delivers(db, id, e, i) }

  ghost predicate AwaitedBy(db: Db, ids: seq<nat>, e: Endpoint, i: nat) {
    exists id: nat :: id in ids && Delivers(db, id, e, i)
  }

  /** e holds the first rows of the chain, and a shipment is on its way for each row it lacks. */
  ghost predicate Covered(db: Db, held: seq<Row>, e: Endpoint) {
    held <= db.rows && forall i: nat :: |held| <= i < |db.rows| ==> Awaited(db, e, i)
  }

  /** The same, counting only the shipments a drain has still to turn to. */
  ghost predicate CoveredBy(db: Db, held: seq<Row>, ids: seq<nat>, e: Endpoint) {
    held <= db.rows && forall i: nat :: |held| <= i < |db.rows| ==> AwaitedBy(db, ids, e, i)
  }

  /** Shipments are queued in chain order. */
  ghost predicate Ordered(db: Db) {
    forall a: nat, b: nat, i: nat, j: nat :: a < b && Brings(db, a, i) && Brings(db, b, j) ==> i <= j
  }

  lemma CoveredByPending(db: Db, held: seq<Row>, e: Endpoint)
    ensures Covered(db, held, e) <==> CoveredBy(db, held, PendingIds(db.shipments), e)
  {
    PendingIdsExact(db.shipments);
    forall i: nat ensures Awaited(db, e, i) <==> AwaitedBy(db, PendingIds(db.shipments), e, i) {
      if Awaited(db, e, i) {
        var id: nat :| Delivers(db, id, e, i);
        assert id in PendingIds(db.shipments);
      }
    }
  }

  lemma BringsOneRow(c: Crypto, db: Db, id: nat, i: nat, j: nat)
    requires PrimaryInv(c, db) && Brings(db, id, i) && Brings(db, id, j)
    ensures i == j
  {
  }

  lemma KnownShipment(db: Db, id: nat) returns (r: nat)
    requires ShipmentsKnown(db) && id < |db.shipments|
    ensures Brings(db, id, r)
  {
    assert db.shipments[id] in db.shipments;
    r := RowFor(db.rows, db.shipments[id].name);
  }

  // ----- passes queue what they record -----

  /** From s to t, untried pending shipments for `name` were added, to `endpoints` only and to each of them. */
  ghost predicate Queued(s: seq<Shipment>, t: seq<Shipment>, endpoints: seq<Endpoint>, name: Name) {
    && s <= t
    && (forall id :: |s| <= id < |t| ==>
          t[id] == Shipment(t[id].endpoint, name, Pending, 0) && t[id].endpoint in endpoints)
    && forall x :: x in endpoints ==> exists id :: |s| <= id < |t| && t[id].endpoint == x
  }

  lemma QueuedOneMore(s: seq<Shipment>, db: Db, done: seq<Endpoint>, endpoint: Endpoint, name: Name)
    requires Queued(s, db.shipments, done, name) && forall x :: x in s ==> x.name != name
    ensures Queued(s, Enqueue(db, endpoint, name).shipments, done + [endpoint], name)
  {
    var t, u := db.shipments, Enqueue(db, endpoint, name).shipments;
    if HasShipment(t, endpoint, name) {
      var x :| x in t && x.endpoint == endpoint && x.name == name;
      var k :| 0 <= k < |t| && t[k] == x;
      assert k >= |s|;
    } else {
      assert u[|t|].endpoint == endpoint;
    }
    forall x | x in done + [endpoint] ensures exists id :: |s| <= id < |u| && u[id].endpoint == x {
      if x in done {
        var id :| |s| <= id < |t| && t[id].endpoint == x;
        assert u[id].endpoint == x;
      }
    }
  }

  /** Enqueueing a new segment queues it, untried, for every listed replica. */
  lemma {:induction false} EnqueueAllQueues(db: Db, endpoints: seq<Endpoint>, name: Name)
    requires forall x :: x in db.shipments ==> x.name != name
    ensures Queued(db.shipments, EnqueueAll(db, endpoints, name).shipments, endpoints, name)
  {
    if endpoints != [] {
      var front, last := endpoints[..|endpoints| - 1], endpoints[|endpoints| - 1];
      EnqueueAllQueues(db, front, name);
      QueuedOneMore(db.shipments, EnqueueAll(db, front, name), front, last, name);
      assert endpoints == front + [last];
    }
  }

  lemma QueuedOrdered(db: Db, db': Db, row: Row, endpoints: seq<Endpoint>)
    requires ShipmentsKnown(db) && !HasRow(db.rows, row.name) && Ordered(db)
    requires db'.rows == db.rows + [row] && Queued(db.shipments, db'.shipments, endpoints, row.name)
    ensures Ordered(db')
  {
    forall a: nat, b: nat, i: nat, j: nat | a < b && Brings(db', a, i) && Brings(db', b, j) ensures i <= j {
      if b < |db.shipments| {
        OldBrings(db, db', row, a, i);
        OldBrings(db, db', row, b, j);
      } else {
        NewBrings(db, db', row, b, j);
      }
    }
  }

  lemma OldBrings(db: Db, db': Db, row: Row, id: nat, i: nat)
    requires ShipmentsKnown(db) && !HasRow(db.rows, row.name) && db'.rows == db.rows + [row]
    requires db.shipments <= db'.shipments && id < |db.shipments| && Brings(db', id, i)
    ensures Brings(db, id, i)
  {
    assert db.shipments[id] in db.shipments && HasRow(db.rows, db.shipments[id].name);
  }

  lemma NewBrings(db: Db, db': Db, row: Row, id: nat, i: nat)
    requires !HasRow(db.rows, row.name) && db'.rows == db.rows + [row]
    requires Brings(db', id, i) && db'.shipments[id].name == row.name
    ensures i == |db.rows|
  {
    assert forall k :: 0 <= k < |db.rows| ==> db.rows[k] in db.rows;
  }

  lemma QueuedCovered(db: Db, db': Db, row: Row, endpoints: seq<Endpoint>, held: seq<Row>, e: Endpoint)
    requires Covered(db, held, e) && e in endpoints
    requires db'.rows == db.rows + [row] && Queued(db.shipments, db'.shipments, endpoints, row.name)
    ensures Covered(db', held, e)
  {
    forall i: nat | |held| <= i < |db'.rows| ensures Awaited(db', e, i) {
      if i < |db.rows| {
        assert Awaited(db, e, i);
        var id: nat :| Delivers(db, id, e, i);
        assert Delivers(db', id, e, i);
      } else {
        var id: nat :| |db.shipments| <= id < |db'.shipments| && db'.shipments[id].endpoint == e;
        assert Delivers(db', id, e, i);
      }
    }
  }

  /** The queue's two properties; coverage of e where it is asked for. */
  ghost predicate InLine(db: Db, held: seq<Row>, e: Endpoint, covers: bool) {
    Ordered(db) && (covers ==> Covered(db, held, e))
  }

  lemma RecordInLine(c: Crypto, db: Db, link: Link, name: Name, blob: Bytes, plain: Bytes, endpoints: seq<Endpoint>,
                     held: seq<Row>, e: Endpoint, covers: bool)
    requires PrimaryInv(c, db) && !HasRow(db.rows, name) && InLine(db, held, e, covers) && (covers ==> e in endpoints)
    ensures InLine(Record(c, db, link, name, blob, plain, endpoints), held, e, covers)
  {
    var row := Row(name, c.sha(link.previous + blob), link.previous, |blob|, link.index);
    var mid := InsertSegment(db.(blobs := db.blobs[name := blob]), row, Archived(blob, plain));
    var db' := EnqueueAll(mid, endpoints, name);
    forall x | x in db.shipments ensures x.name != name {
      assert HasRow(db.rows, x.name);
    }
    EnqueueAllQueues(mid, endpoints, name);
    QueuedOrdered(db, db', row, endpoints);
    if covers {
      QueuedCovered(db, db', row, endpoints, held, e);
    }
  }

  /** Every file that a pass records gets as far as its shipment to e. */
  ghost predicate Reaches(db: Db, fates: seq<Fate>, e: Endpoint) {
    forall f :: f in fates && f.Records? ==> e in FirstOf(db.replicas, f.enqueued)
  }

  lemma RecordInLineStep(c: Crypto, db: Db, link: Link, todo: seq<Name>, fates: seq<Fate>, gone: set<Name>,
                         held: seq<Row>, e: Endpoint, covers: bool)
    requires Lawful(c) && PrimaryInv(c, db) && LinkOf(db, link) && GoodNonces(fates)
    requires todo != [] && fates != [] && Ready(db, todo, fates, gone) && todo[0] !in gone && fates[0].Records?
    requires InLine(db, held, e, covers) && (covers ==> Reaches(db, fates, e))
    ensures var f := fates[0];
            var blob := SealedBlob(c, todo[0], link, f.nonce, f.plain);
            var db' := Record(c, db, link, todo[0], blob, f.plain, FirstOf(db.replicas, f.enqueued));
            && PrimaryInv(c, db') && LinkOf(db', NextLink(c, link, blob))
            && Ready(db', todo[1..], fates[1..], Removed(gone, todo[0], f.removed))
            && InLine(db', held, e, covers) && (covers ==> Reaches(db', fates[1..], e))
  {
    assert fates[0] in fates && forall f :: f in fates[1..] ==> f in fates;
    ReadyTail(db, todo, fates, gone);
    RecordStep(c, db, link, todo, fates, gone);
    var blob := SealedBlob(c, todo[0], link, fates[0].nonce, fates[0].plain);
    RecordInLine(c, db, link, todo[0], blob, fates[0].plain, FirstOf(db.replicas, fates[0].enqueued), held, e, covers);
  }

  /** A pass keeps the queue in chain order; and e covered, when no recorded file misses its shipment to e. */
  lemma {:induction false} ArchiveInLine(c: Crypto, db: Db, link: Link, todo: seq<Name>, fates: seq<Fate>,
                                         gone: set<Name>, held: seq<Row>, e: Endpoint, covers: bool)
    requires Lawful(c) && PrimaryInv(c, db) && LinkOf(db, link) && GoodNonces(fates) && Ready(db, todo, fates, gone)
    requires InLine(db, held, e, covers) && (covers ==> Reaches(db, fates, e))
    ensures InLine(Archive(c, db, link, todo, fates, gone), held, e, covers)
    decreases |todo|
  {
    if todo != [] && fates != [] {
      match Effective(fates[0], todo[0] in gone)
      case CopyFails =>
        assert forall f :: f in fates[1..] ==> f in fates;
        ReadyTail(db, todo, fates, gone);
        ArchiveInLine(c, db, link, todo[1..], fates[1..], gone, held, e, covers);
      case Dies(debris) => DebrisInLine(db, todo[0], debris, held, e, covers);
      case Records(nonce, plain, enqueued, removed) =>
        RecordInLineStep(c, db, link, todo, fates, gone, held, e, covers);
        GoodTail(fates);
        if enqueued >= |db.replicas| {
          var blob := SealedBlob(c, todo[0], link, nonce, plain);
          var db' := Record(c, db, link, todo[0], blob, plain, FirstOf(db.replicas, enqueued));
          ArchiveInLine(c, db', NextLink(c, link, blob), todo[1..], fates[1..], Removed(gone, todo[0], removed),
                        held, e, covers);
        }
    }
  }

  lemma DebrisInLine(db: Db, name: Name, debris: Option<Bytes>, held: seq<Row>, e: Endpoint, covers: bool)
    requires InLine(db, held, e, covers)
    ensures InLine(WriteDebris(db, name, debris), held, e, covers)
  {
    SameTablesInLine(db, WriteDebris(db, name, debris), held, e, covers);
  }

  lemma SameTablesInLine(db: Db, db': Db, held: seq<Row>, e: Endpoint, covers: bool)
    requires InLine(db, held, e, covers) && db'.rows == db.rows && db'.shipments == db.shipments
    ensures InLine(db', held, e, covers)
  {
    assert forall id: nat, i: nat :: Brings(db', id, i) <==> Brings(db, id, i);
    assert forall id: nat, i: nat :: Delivers(db, id, e, i) ==> Delivers(db', id, e, i);
    assert forall i: nat :: Awaited(db, e, i) ==> Awaited(db', e, i);
  }

  lemma PassInLine(c: Crypto, db: Db, lines: seq<Name>, fates: seq<Fate>, held: seq<Row>, e: Endpoint, covers: bool)
    requires Lawful(c) && PrimaryInv(c, db) && Sound(Passes(lines, fates))
    requires InLine(db, held, e, covers) && (covers ==> Reaches(db, fates, e))
    ensures InLine(Pass(c, db, lines, fates), held, e, covers)
  {
    if !PassPanics(lines) {
      TodoNames(db, lines);
      CurrentLinkContinues(c, db);
      ArchiveInLine(c, db, CurrentLink(db), Todo(db, lines), fates, {}, held, e, covers);
    }
  }

  /** In every reachable state shipments are queued in chain order. */
  lemma {:induction false} RunOrdered(c: Crypto, sys: System, events: seq<Event>)
    requires Lawful(c) && Inv(c, sys) && Ordered(sys.db) && forall x :: x in events ==> Sound(x)
    ensures Ordered(Run(c, sys, events).db)
    decreases |events|
  {
    if events != [] {
      assert events[0] in events && forall x :: x in events[1..] ==> x in events;
      NextKeeps(c, sys, events[0]);
      NextOrdered(c, sys, events[0]);
      RunOrdered(c, Next(c, sys, events[0]), events[1..]);
    }
  }

  lemma NextOrdered(c: Crypto, sys: System, event: Event)
    requires Lawful(c) && Inv(c, sys) && Ordered(sys.db) && Sound(event)
    ensures Ordered(Next(c, sys, event).db)
  {
    match event
    case Registers(endpoint) => SameTablesInLine(sys.db, Register(sys.db, endpoint), [], [], false);
    case Passes(lines, fates) => PassInLine(c, sys.db, lines, fates, [], [], false);
    case Drains(turns) =>
      NextKeeps(c, sys, event);
      SameNamesOrdered(sys.db, Next(c, sys, event).db);
    case Arrives(arrival) =>
  }

  lemma SameNamesOrdered(db: Db, db': Db)
    requires Ordered(db) && db'.rows == db.rows && |db'.shipments| == |db.shipments|
    requires forall id :: 0 <= id < |db.shipments| ==> Progresses(db.shipments[id], db'.shipments[id])
    ensures Ordered(db')
  {
    assert forall id: nat, i: nat :: Brings(db', id, i) ==> Brings(db, id, i);
  }

  // ----- late deliveries -----

  /** e holds the first rows of the chain, and no request to e, however late, is for a row beyond the next. */
  ghost predicate Calm(sys: System, e: Endpoint) {
    && NodeAt(sys, e).rows <= sys.db.rows
    && forall m :: m in sys.net && m.to == e ==> m.request.index <= |NodeAt(sys, e).rows|
  }

  /** A replica that holds the first m rows accepts the request for row m, and refuses those before. */
  lemma TakesRow(c: Crypto, db: Db, rep: Replica, i: nat)
    requires PrimaryInv(c, db) && ReplicaInv(db, rep) && rep.rows <= db.rows && i <= |rep.rows| && i < |db.rows|
    ensures Receive(c, rep, RequestFor(db, i)).rows == if i == |rep.rows| then db.rows[..i + 1] else rep.rows
    ensures Refuses(c, rep, RequestFor(db, i)).None? <==> i == |rep.rows|
  {
    assert rep.rows != [] ==> rep.rows[0] == db.rows[0];
    AcceptsExactlyNext(c, db, rep, i);
    assert Genuine(db, RequestFor(db, i));
    ReceiveKeeps(c, db, rep, RequestFor(db, i));
    assert RowOf(RequestFor(db, i)) == db.rows[i];
    if i == |rep.rows| {
      assert rep.rows + [db.rows[i]] == db.rows[..i + 1];
    }
  }

  lemma ArriveCalm(c: Crypto, sys: System, a: Arrival, e: Endpoint)
    requires Inv(c, sys) && Calm(sys, e)
    ensures Calm(Arrive(c, sys, a), e)
    ensures NodeAt(sys, e).rows <= NodeAt(Arrive(c, sys, a), e).rows
  {
    if a.message in sys.net {
      if a.message.to == e {
        LateRequest(c, sys, a.message.request, e);
        assert NodeAt(Arrive(c, sys, a), e)
               == match a.torn
                  case None => Receive(c, NodeAt(sys, e), a.message.request)
                  case Some(debris) => ReceiveTorn(c, NodeAt(sys, e), a.message.request, debris);
      } else {
        assert NodeAt(Arrive(c, sys, a), e) == NodeAt(sys, e);
      }
    }
  }

  /** A late request to e is refused, or brings the next row. */
  lemma LateRequest(c: Crypto, sys: System, req: Request, e: Endpoint)
    requires Inv(c, sys) && Calm(sys, e) && Message(e, req) in sys.net
    ensures NodeAt(sys, e).rows <= Receive(c, NodeAt(sys, e), req).rows <= sys.db.rows
  {
    var i: nat :| i < |sys.db.rows| && req == RequestFor(sys.db, i);
    TakesRow(c, sys.db, NodeAt(sys, e), i);
  }

  lemma {:induction false} ArriveAllCalm(c: Crypto, sys: System, arrivals: seq<Arrival>, e: Endpoint)
    requires Inv(c, sys) && Calm(sys, e)
    ensures Calm(ArriveAll(c, sys, arrivals), e)
    ensures NodeAt(sys, e).rows <= NodeAt(ArriveAll(c, sys, arrivals), e).rows
    decreases |arrivals|
  {
    if arrivals != [] {
      ArriveKeeps(c, sys, arrivals[0]);
      ArriveCalm(c, sys, arrivals[0], e);
      ArriveAllCalm(c, Arrive(c, sys, arrivals[0]), arrivals[1..], e);
    }
  }

  lemma CoveredFurther(db: Db, held: seq<Row>, held': seq<Row>, ids: seq<nat>, e: Endpoint)
    requires held <= held' <= db.rows
    ensures CoveredBy(db, held, ids, e) ==> CoveredBy(db, held', ids, e)
    ensures Covered(db, held, e) ==> Covered(db, held', e)
  {}

  // ----- one turn of a drain -----

  /** The first shipment to e carries at most the next row. */
  lemma NotTooFar(c: Crypto, db: Db, held: seq<Row>, ids: seq<nat>, e: Endpoint, r: nat)
    requires PrimaryInv(c, db) && Ordered(db) && Ascending(ids) && ids != [] && CoveredBy(db, held, ids, e)
    requires Brings(db, ids[0], r)
    ensures r <= |held|
  {
    if |held| < |db.rows| {
      assert AwaitedBy(db, ids, e, |held|);
      var id: nat :| id in ids && Delivers(db, id, e, |held|);
      var k :| 0 <= k < |ids| && ids[k] == id;
      if k == 0 {
        BringsOneRow(c, db, id, r, |held|);
      }
    }
  }

  /** The turn is over: the first shipment does not matter any more, and the others are as they were. */
  lemma RestCovers(c: Crypto, db: Db, db': Db, held: seq<Row>, held': seq<Row>, ids: seq<nat>, e: Endpoint)
    requires PrimaryInv(c, db) && CoveredBy(db, held, ids, e) && ids != [] && Ascending(ids)
    requires db'.rows == db.rows && |db'.shipments| == |db.shipments| && held <= held' <= db.rows
    requires forall id :: 0 <= id < |db.shipments| && id != ids[0] ==> db'.shipments[id] == db.shipments[id]
    requires forall r: nat :: Delivers(db, ids[0], e, r) ==> r < |held'|
    ensures CoveredBy(db', held', ids[1..], e)
  {
    forall i: nat | |held'| <= i < |db'.rows| ensures AwaitedBy(db', ids[1..], e, i) {
      assert AwaitedBy(db, ids, e, i);
      var id: nat :| id in ids && Delivers(db, id, e, i);
      assert id != ids[0] && id in ids[1..] && Delivers(db', id, e, i);
    }
  }

  /** e's own turns: answered, or the process dies right after sending. */
  ghost predicate Reached(outcome: Outcome) { outcome.Answered? || outcome.SentThenDied? }

  /** What a turn of the drain does to e and to its shipments. */
  lemma ShipToE(c: Crypto, sys: System, id: nat, e: Endpoint, r: nat)
    requires Inv(c, sys) && Brings(sys.db, id, r) && sys.db.shipments[id].endpoint == e
    requires NodeAt(sys, e).rows <= sys.db.rows && r <= |NodeAt(sys, e).rows| && !GivesUp(sys.db, sys.db.shipments[id])
    ensures sys.db.shipments[id].name in sys.db.blobs
    ensures Posted(sys.db, sys.db.shipments[id].name) == RequestFor(sys.db, r)
    ensures NodeAt(Ship(c, sys, id, Answered), e).rows
            == if r == |NodeAt(sys, e).rows| then sys.db.rows[..r + 1] else NodeAt(sys, e).rows
  {
    assert sys.db.rows[r] in sys.db.rows;
    PostedIsGenuine(c, sys.db, sys.db.shipments[id].name);
    assert Brings(sys.db, id, RowFor(sys.db.rows, sys.db.shipments[id].name));
    BringsOneRow(c, sys.db, id, r, RowFor(sys.db.rows, sys.db.shipments[id].name));
    TakesRow(c, sys.db, NodeAt(sys, e), r);
  }

  lemma ShipTouchesOne(c: Crypto, sys: System, id: nat, outcome: Outcome)
    requires id < |sys.db.shipments|
    ensures var sys' := Ship(c, sys, id, outcome);
            && sys'.db.rows == sys.db.rows
            && forall k :: 0 <= k < |sys.db.shipments| && k != id ==> sys'.db.shipments[k] == sys.db.shipments[k]
  {}

  /** A turn that is not e's, or that gives up, leaves e and the requests to e alone. */
  lemma ShipElsewhere(c: Crypto, sys: System, id: nat, outcome: Outcome, e: Endpoint)
    requires id < |sys.db.shipments|
    requires sys.db.shipments[id].endpoint != e || GivesUp(sys.db, sys.db.shipments[id])
    ensures var sys' := Ship(c, sys, id, outcome);
            && NodeAt(sys', e) == NodeAt(sys, e)
            && forall m :: m in sys'.net && m.to == e ==> m in sys.net
  {}

  /** One turn: what e still lacks stays covered by the shipments after it. */
  lemma ShipCovers(c: Crypto, sys: System, ids: seq<nat>, outcome: Outcome, e: Endpoint)
    requires Inv(c, sys) && Ordered(sys.db) && Fresh(sys, ids) && Ascending(ids) && ids != []
    requires CoveredBy(sys.db, NodeAt(sys, e).rows, ids, e)
    requires sys.db.shipments[ids[0]].endpoint == e ==> outcome.Answered?
    ensures var sys' := Ship(c, sys, ids[0], outcome);
            CoveredBy(sys'.db, NodeAt(sys', e).rows, ids[1..], e) && NodeAt(sys, e).rows <= NodeAt(sys', e).rows
  {
    var id, held := ids[0], NodeAt(sys, e).rows;
    var sys' := Ship(c, sys, id, outcome);
    var held' := NodeAt(sys', e).rows;
    ShipTouchesOne(c, sys, id, outcome);
    if sys.db.shipments[id].endpoint != e || GivesUp(sys.db, sys.db.shipments[id]) {
      ShipElsewhere(c, sys, id, outcome, e);
    } else {
      var r := KnownShipment(sys.db, id);
      NotTooFar(c, sys.db, held, ids, e, r);
      ShipToE(c, sys, id, e, r);
      forall i: nat | Delivers(sys.db, id, e, i) ensures i < |held'| {
        BringsOneRow(c, sys.db, id, r, i);
      }
    }
    RestCovers(c, sys.db, sys'.db, held, held', ids, e);
  }

  /** One turn: the requests on the wire stay within reach. */
  lemma ShipCalm(c: Crypto, sys: System, ids: seq<nat>, outcome: Outcome, e: Endpoint)
    requires Inv(c, sys) && Ordered(sys.db) && Fresh(sys, ids) && Ascending(ids) && ids != [] && Calm(sys, e)
    requires CoveredBy(sys.db, NodeAt(sys, e).rows, ids, e)
    requires sys.db.shipments[ids[0]].endpoint == e ==> Reached(outcome)
    ensures Calm(Ship(c, sys, ids[0], outcome), e)
  {
    var id, held := ids[0], NodeAt(sys, e).rows;
    ShipTouchesOne(c, sys, id, outcome);
    if sys.db.shipments[id].endpoint != e || GivesUp(sys.db, sys.db.shipments[id]) {
      ShipElsewhere(c, sys, id, outcome, e);
    } else {
      var r := KnownShipment(sys.db, id);
      NotTooFar(c, sys.db, held, ids, e, r);
      ShipToE(c, sys, id, e, r);
      ReachedCalm(c, sys, id, outcome, e, r);
    }
  }

  lemma ReachedCalm(c: Crypto, sys: System, id: nat, outcome: Outcome, e: Endpoint, r: nat)
    requires id < |sys.db.shipments| && sys.db.shipments[id].endpoint == e && !GivesUp(sys.db, sys.db.shipments[id])
    requires Calm(sys, e) && Reached(outcome) && sys.db.shipments[id].name in sys.db.blobs
    requires r < |sys.db.rows| && r < |sys.db.history| && sys.db.rows[r].index == r <= |NodeAt(sys, e).rows|
    requires Posted(sys.db, sys.db.shipments[id].name) == RequestFor(sys.db, r)
    requires NodeAt(Ship(c, sys, id, Answered), e).rows
             == if r == |NodeAt(sys, e).rows| then sys.db.rows[..r + 1] else NodeAt(sys, e).rows
    ensures Calm(Ship(c, sys, id, outcome), e)
  {
    var sys' := Ship(c, sys, id, outcome);
    assert sys'.net == sys.net + {Message(e, RequestFor(sys.db, r))};
    if outcome.SentThenDied? {
      assert NodeAt(sys', e) == NodeAt(sys, e);
    }
  }

  // ----- a whole drain -----

  /** The turns that e's shipments get. */
  ghost predicate EReached(sys: System, ids: seq<nat>, turns: seq<Turn>, e: Endpoint) {
    forall k :: 0 <= k < |ids| && k < |turns| && ids[k] < |sys.db.shipments| && sys.db.shipments[ids[k]].endpoint == e
                ==> Reached(turns[k].outcome)
  }

  ghost predicate NoArrivals(turns: seq<Turn>) { forall t :: t in turns ==> t.arrivals == [] }

  ghost predicate Dies(sys: System, ids: seq<nat>, turns: seq<Turn>)
    requires ids != [] && turns != [] && ids[0] < |sys.db.shipments|
  {
    turns[0].outcome.SentThenDied? && !GivesUp(sys.db, sys.db.shipments[ids[0]])
  }

  /** What arrives before a turn takes e only forward. */
  lemma BeforeTurn(c: Crypto, sys: System, arrivals: seq<Arrival>, ids: seq<nat>, e: Endpoint)
    requires Inv(c, sys) && CoveredBy(sys.db, NodeAt(sys, e).rows, ids, e) && Fresh(sys, ids)
    requires Calm(sys, e) || arrivals == []
    ensures var mid := ArriveAll(c, sys, arrivals);
            && Inv(c, mid) && Fresh(mid, ids) && CoveredBy(mid.db, NodeAt(mid, e).rows, ids, e)
            && (Calm(sys, e) ==> Calm(mid, e))
  {
    ArriveAllKeeps(c, sys, arrivals);
    if Calm(sys, e) {
      ArriveAllCalm(c, sys, arrivals, e);
      CoveredFurther(sys.db, NodeAt(sys, e).rows, NodeAt(ArriveAll(c, sys, arrivals), e).rows, ids, e);
    }
  }

  lemma ReachedTail(c: Crypto, sys: System, ids: seq<nat>, turns: seq<Turn>, e: Endpoint)
    requires Fresh(sys, ids) && ids != [] && turns != [] && EReached(sys, ids, turns, e)
    ensures EReached(Ship(c, ArriveAll(c, sys, turns[0].arrivals), ids[0], turns[0].outcome), ids[1..], turns[1..], e)
  {
    ShipLeavesOthers(c, sys, ids, turns[0]);
    var sys' := Ship(c, ArriveAll(c, sys, turns[0].arrivals), ids[0], turns[0].outcome);
    forall k | 0 <= k < |ids[1..]| && k < |turns[1..]| && ids[1..][k] < |sys'.db.shipments|
               && sys'.db.shipments[ids[1..][k]].endpoint == e
      ensures Reached(turns[1..][k].outcome)
    {
      assert ids[1..][k] == ids[k + 1] != ids[0];
    }
  }

  /** A drain in which e's turns are answered, or die, keeps e covered; if it gets through, e lacks nothing.
      Arrivals need a calm wire. */
  lemma {:induction false} ShipAllCovers(c: Crypto, sys: System, ids: seq<nat>, turns: seq<Turn>, e: Endpoint)
    requires Inv(c, sys) && Ordered(sys.db) && Fresh(sys, ids) && Ascending(ids)
    requires CoveredBy(sys.db, NodeAt(sys, e).rows, ids, e) && EReached(sys, ids, turns, e)
    requires Calm(sys, e) || NoArrivals(turns)
    ensures var sys' := ShipAll(c, sys, ids, turns);
            && Covered(sys'.db, NodeAt(sys', e).rows, e)
            && (Calm(sys, e) ==> Calm(sys', e))
            && (|turns| >= |ids| && (forall t :: t in turns ==> !t.outcome.SentThenDied?)
                ==> NodeAt(sys', e).rows == sys'.db.rows)
    decreases |ids|
  {
    if ids == [] || turns == [] {
      AllCovered(sys.db, NodeAt(sys, e).rows, ids, e);
    } else {
      assert turns[0] in turns && forall t :: t in turns[1..] ==> t in turns;
      var mid := ArriveAll(c, sys, turns[0].arrivals);
      BeforeTurn(c, sys, turns[0].arrivals, ids, e);
      if Calm(sys, e) {
        ShipCalm(c, mid, ids, turns[0].outcome, e);
      }
      if Dies(sys, ids, turns) {
        DiesCovered(c, mid, ids, e);
      } else {
        AliveTurn(c, sys, mid, ids, turns, e);
        var sys' := Ship(c, mid, ids[0], turns[0].outcome);
        ShipAllCovers(c, sys', ids[1..], turns[1..], e);
      }
    }
  }

  lemma AllCovered(db: Db, held: seq<Row>, ids: seq<nat>, e: Endpoint)
    requires CoveredBy(db, held, ids, e)
    ensures Covered(db, held, e)
    ensures ids == [] ==> held == db.rows
  {
    forall i: nat | |held| <= i < |db.rows| ensures Awaited(db, e, i) {
      assert AwaitedBy(db, ids, e, i);
    }
    assert ids == [] ==> !AwaitedBy(db, ids, e, |held|);
  }

  lemma DiesCovered(c: Crypto, sys: System, ids: seq<nat>, e: Endpoint)
    requires Inv(c, sys) && ids != [] && Fresh(sys, ids) && CoveredBy(sys.db, NodeAt(sys, e).rows, ids, e)
    requires !GivesUp(sys.db, sys.db.shipments[ids[0]])
    ensures var sys' := Ship(c, sys, ids[0], SentThenDied); Covered(sys'.db, NodeAt(sys', e).rows, e)
  {
    AllCovered(sys.db, NodeAt(sys, e).rows, ids, e);
    var r := KnownShipment(sys.db, ids[0]);
    assert sys.db.rows[r].name in sys.db.blobs;
    var sys' := Ship(c, sys, ids[0], SentThenDied);
    assert sys'.db == sys.db && NodeAt(sys', e) == NodeAt(sys, e);
  }

  lemma AliveTurn(c: Crypto, sys: System, mid: System, ids: seq<nat>, turns: seq<Turn>, e: Endpoint)
    requires Inv(c, sys) && Fresh(sys, ids) && Ascending(ids) && ids != [] && turns != [] && !Dies(sys, ids, turns)
    requires mid == ArriveAll(c, sys, turns[0].arrivals) && Ordered(sys.db) && EReached(sys, ids, turns, e)
    requires Inv(c, mid) && Fresh(mid, ids) && CoveredBy(mid.db, NodeAt(mid, e).rows, ids, e)
    ensures var sys' := Ship(c, mid, ids[0], turns[0].outcome);
            && Inv(c, sys') && Ordered(sys'.db) && Fresh(sys', ids[1..]) && Ascending(ids[1..])
            && CoveredBy(sys'.db, NodeAt(sys', e).rows, ids[1..], e) && EReached(sys', ids[1..], turns[1..], e)
  {
    var sys' := Ship(c, mid, ids[0], turns[0].outcome);
    ShipKeeps(c, mid, ids[0], turns[0].outcome);
    ShipLeavesOthers(c, sys, ids, turns[0]);
    SameNamesOrdered(mid.db, sys'.db);
    ReachedTail(c, sys, ids, turns, e);
    if turns[0].outcome.SentThenDied? {
      GivingUpCovers(c, mid, ids, e);
    } else {
      ShipCovers(c, mid, ids, turns[0].outcome, e);
    }
  }

  lemma GivingUpCovers(c: Crypto, sys: System, ids: seq<nat>, e: Endpoint)
    requires Inv(c, sys) && Fresh(sys, ids) && Ascending(ids) && ids != [] && GivesUp(sys.db, sys.db.shipments[ids[0]])
    requires CoveredBy(sys.db, NodeAt(sys, e).rows, ids, e)
    ensures var sys' := Ship(c, sys, ids[0], SentThenDied); CoveredBy(sys'.db, NodeAt(sys', e).rows, ids[1..], e)
  {
    var sys' := Ship(c, sys, ids[0], SentThenDied);
    ShipTouchesOne(c, sys, ids[0], SentThenDied);
    ShipElsewhere(c, sys, ids[0], SentThenDied, e);
    assert sys.db.shipments[ids[0]] in sys.db.shipments;
    RestCovers(c, sys.db, sys'.db, NodeAt(sys, e).rows, NodeAt(sys', e).rows, ids, e);
  }

  // ----- exactly when one drain is enough -----

  /** A drain brings e no row that none of its shipments is for. */
  lemma {:induction false} DrainBringsOnly(c: Crypto, sys: System, ids: seq<nat>, turns: seq<Turn>, e: Endpoint, i: nat)
    requires Inv(c, sys) && Fresh(sys, ids) && NoArrivals(turns) && i < |sys.db.rows|
    requires !HasRow(NodeAt(sys, e).rows, sys.db.rows[i].name)
    requires forall id: nat :: id in ids ==> !Delivers(sys.db, id, e, i)
    ensures !HasRow(NodeAt(ShipAll(c, sys, ids, turns), e).rows, sys.db.rows[i].name)
    decreases |ids|
  {
    if ids != [] && turns != [] {
      assert turns[0] in turns && forall t :: t in turns[1..] ==> t in turns;
      assert ArriveAll(c, sys, turns[0].arrivals) == sys;
      var sys' := Ship(c, sys, ids[0], turns[0].outcome);
      ShipBringsOnly(c, sys, ids[0], turns[0].outcome, e, i);
      ShipKeeps(c, sys, ids[0], turns[0].outcome);
      ShipLeavesOthers(c, sys, ids, turns[0]);
      forall id: nat | id in ids[1..] ensures !Delivers(sys'.db, id, e, i) {
        assert id in ids && id != ids[0] && !Delivers(sys.db, id, e, i);
      }
      if !Dies(sys, ids, turns) {
        DrainBringsOnly(c, sys', ids[1..], turns[1..], e, i);
      }
    }
  }

  lemma ShipBringsOnly(c: Crypto, sys: System, id: nat, outcome: Outcome, e: Endpoint, i: nat)
    requires Inv(c, sys) && id < |sys.db.shipments| && sys.db.shipments[id].status.Pending? && i < |sys.db.rows|
    requires !HasRow(NodeAt(sys, e).rows, sys.db.rows[i].name) && !Delivers(sys.db, id, e, i)
    ensures !HasRow(NodeAt(Ship(c, sys, id, outcome), e).rows, sys.db.rows[i].name)
  {
    var s, rep := sys.db.shipments[id], NodeAt(sys, e);
    if s.endpoint != e || GivesUp(sys.db, s) {
      ShipElsewhere(c, sys, id, outcome, e);
    } else if outcome.Answered? && s.name in sys.db.blobs {
      assert !Brings(sys.db, id, i);
      PostedBrings(c, sys.db, rep, s.name);
      var req := Posted(sys.db, s.name);
      NotAmong(rep.rows, Receive(c, rep, req).rows, RowOf(req), sys.db.rows[i].name);
      assert NodeAt(Ship(c, sys, id, outcome), e) == Receive(c, rep, req);
    } else {
      assert NodeAt(Ship(c, sys, id, outcome), e) == rep;
    }
  }

  lemma PostedBrings(c: Crypto, db: Db, rep: Replica, name: Name)
    requires PrimaryInv(c, db) && ReplicaInv(db, rep) && HasRow(db.rows, name) && name in db.blobs
    ensures var req := Posted(db, name);
            && RowOf(req).name == name
            && (Receive(c, rep, req).rows == rep.rows || Receive(c, rep, req).rows == rep.rows + [RowOf(req)])
  {
    PostedIsGenuine(c, db, name);
    ReceiveKeeps(c, db, rep, Posted(db, name));
  }

  lemma NotAmong(rows: seq<Row>, rows': seq<Row>, row: Row, name: Name)
    requires !HasRow(rows, name) && row.name != name && (rows' == rows || rows' == rows + [row])
    ensures !HasRow(rows', name)
  {
    forall r | r in rows' ensures r.name != name {
      if r in rows { assert HasRow(rows, r.name); }
    }
  }

  /** A drain that gets through, with e's turns answered and nothing late arriving, leaves e equal to the
      primary if and only if e held a prefix of the chain and each row it lacked had a pending shipment with
      attempts left. */
  lemma DrainEqualsExactlyWhen(c: Crypto, events: seq<Event>, turns: seq<Turn>, e: Endpoint)
    requires Lawful(c) && forall x :: x in events ==> Sound(x)
    requires Completes(Run(c, INIT, events), Drains(turns)) && NoArrivals(turns)
    requires EReached(Run(c, INIT, events), PendingIds(Run(c, INIT, events).db.shipments), turns, e)
    ensures var sys := Run(c, INIT, events);
            var sys' := Next(c, sys, Drains(turns));
            NodeAt(sys', e).rows == sys'.db.rows <==> Covered(sys.db, NodeAt(sys, e).rows, e)
  {
    InitHolds(c);
    RunKeeps(c, INIT, events);
    RunOrdered(c, INIT, events);
    DrainEquals(c, Run(c, INIT, events), turns, e);
  }

  lemma DrainEquals(c: Crypto, sys: System, turns: seq<Turn>, e: Endpoint)
    requires Inv(c, sys) && Ordered(sys.db) && Completes(sys, Drains(turns)) && NoArrivals(turns)
    requires EReached(sys, PendingIds(sys.db.shipments), turns, e)
    ensures var sys' := Next(c, sys, Drains(turns));
            NodeAt(sys', e).rows == sys'.db.rows <==> Covered(sys.db, NodeAt(sys, e).rows, e)
  {
    var ids := PendingIds(sys.db.shipments);
    PendingIdsExact(sys.db.shipments);
    PendingIdsAscend(sys.db.shipments);
    ShipAllKeeps(c, sys, ids, turns);
    CoveredByPending(sys.db, NodeAt(sys, e).rows, e);
    if Covered(sys.db, NodeAt(sys, e).rows, e) {
      ShipAllCovers(c, sys, ids, turns, e);
    } else {
      NotCovered(c, sys, ids, turns, e);
    }
  }

  lemma NotCovered(c: Crypto, sys: System, ids: seq<nat>, turns: seq<Turn>, e: Endpoint)
    requires Inv(c, sys) && Fresh(sys, ids) && NoArrivals(turns) && !Covered(sys.db, NodeAt(sys, e).rows, e)
    requires Grows(sys, ShipAll(c, sys, ids, turns))
    ensures NodeAt(ShipAll(c, sys, ids, turns), e).rows != sys.db.rows
  {
    var held := NodeAt(sys, e).rows;
    if held <= sys.db.rows {
      var i: nat :| |held| <= i < |sys.db.rows| && !Awaited(sys.db, e, i);
      forall r | r in held ensures r.name != sys.db.rows[i].name {
        var k :| 0 <= k < |held| && held[k] == r;
        assert sys.db.rows[k] == r;
      }
      DrainBringsOnly(c, sys, ids, turns, e, i);
      assert sys.db.rows[i] in sys.db.rows;
    }
  }

  // ----- a replica that does not start at row 0 -----

  /** Once e's rows are no prefix of the chain, they never are again. */
  lemma NeverAgain(c: Crypto, sys: System, more: seq<Event>, e: Endpoint)
    requires Lawful(c) && Inv(c, sys) && (forall x :: x in more ==> Sound(x)) && !(NodeAt(sys, e).rows <= sys.db.rows)
    ensures !(NodeAt(Run(c, sys, more), e).rows <= Run(c, sys, more).db.rows)
  {
    RunKeeps(c, sys, more);
    var end := Run(c, sys, more);
    var held := NodeAt(sys, e).rows;
    assert held <= NodeAt(end, e).rows && sys.db.rows <= end.db.rows;
    assert held[0] == sys.db.rows[held[0].index];
    assert sys.db.rows[0..|held|] == sys.db.rows[..|held|];
    assert held[0].index != 0 && held[0].name != sys.db.rows[0].name;
    assert NodeAt(end, e).rows[0] == held[0] && end.db.rows[0] == sys.db.rows[0];
  }

  /** One lost request is enough: e is empty, the request for row 0 is lost, and the same drain's request for row
      1 is answered. e then starts at row 1, and never equals the primary again. */
  lemma LostFirstRequest(c: Crypto, sys: System, more: seq<Event>, e: Endpoint)
    requires Lawful(c) && Inv(c, sys) && (forall x :: x in more ==> Sound(x)) && NodeAt(sys, e).rows == []
    requires |PendingIds(sys.db.shipments)| >= 2 && |sys.db.rows| >= 2
    requires Delivers(sys.db, PendingIds(sys.db.shipments)[0], e, 0)
    requires Delivers(sys.db, PendingIds(sys.db.shipments)[1], e, 1)
    ensures var sys' := Next(c, sys, Drains([Turn([], Unanswered), Turn([], Answered)]));
            && NodeAt(sys', e).rows == [sys.db.rows[1]]
            && NodeAt(Run(c, sys', more), e).rows != Run(c, sys', more).db.rows
  {
    var ids := PendingIds(sys.db.shipments);
    PendingIdsExact(sys.db.shipments);
    TwoTurns(c, sys, ids, [Turn([], Unanswered), Turn([], Answered)]);
    var mid := Ship(c, sys, ids[0], Unanswered);
    LostThenTaken(c, sys, ids[0], ids[1], e);
    NeverAgain(c, Ship(c, mid, ids[1], Answered), more, e);
  }

  lemma LostThenTaken(c: Crypto, sys: System, first: nat, second: nat, e: Endpoint)
    requires Inv(c, sys) && NodeAt(sys, e).rows == [] && first != second
    requires Delivers(sys.db, first, e, 0) && Delivers(sys.db, second, e, 1)
    ensures var end := Ship(c, Ship(c, sys, first, Unanswered), second, Answered);
            && Inv(c, end) && NodeAt(end, e).rows == [sys.db.rows[1]] && !(NodeAt(end, e).rows <= end.db.rows)
  {
    var mid := Ship(c, sys, first, Unanswered);
    ShipKeeps(c, sys, first, Unanswered);
    ShipTouchesOne(c, sys, first, Unanswered);
    assert NodeAt(mid, e) == NodeAt(sys, e);
    assert Delivers(mid.db, second, e, 1);
    EmptyTakesAny(c, mid, second, e, 1);
    ShipKeeps(c, mid, second, Answered);
    var end := Ship(c, mid, second, Answered);
    ShipTouchesOne(c, mid, second, Answered);
    assert end.db.rows[0].name != end.db.rows[1].name;
  }

  lemma TwoTurns(c: Crypto, sys: System, ids: seq<nat>, turns: seq<Turn>)
    requires |ids| >= 2 && Fresh(sys, ids) && turns == [Turn([], Unanswered), Turn([], Answered)]
    ensures ShipAll(c, sys, ids, turns) == Ship(c, Ship(c, sys, ids[0], Unanswered), ids[1], Answered)
  {
    var mid := Ship(c, sys, ids[0], Unanswered);
    var end := Ship(c, mid, ids[1], Answered);
    assert turns[1..] == [Turn([], Answered)] && turns[1..][1..] == [];
    assert ids[1..][0] == ids[1];
    assert ShipAll(c, end, ids[1..][1..], []) == end;
    assert ShipAll(c, mid, ids[1..], turns[1..]) == end;
  }

  lemma EmptyTakesAny(c: Crypto, sys: System, id: nat, e: Endpoint, i: nat)
    requires Inv(c, sys) && Delivers(sys.db, id, e, i) && NodeAt(sys, e).rows == []
    ensures NodeAt(Ship(c, sys, id, Answered), e).rows == [sys.db.rows[i]]
  {
    assert sys.db.rows[i] in sys.db.rows;
    PostedIsGenuine(c, sys.db, sys.db.shipments[id].name);
    var r := RowFor(sys.db.rows, sys.db.shipments[id].name);
    BringsOneRow(c, sys.db, id, i, r);
    AcceptsExactlyNext(c, sys.db, NodeAt(sys, e), i);
    ReceiveKeeps(c, sys.db, NodeAt(sys, e), RequestFor(sys.db, i));
    assert RowOf(RequestFor(sys.db, i)) == sys.db.rows[i];
  }

  // ----- whole runs -----

  /** e is listed, holds a prefix of the chain, and everything it lacks is on its way, in order. */
  ghost predicate Live(sys: System, e: Endpoint) {
    e in sys.db.replicas && Ordered(sys.db) && Calm(sys, e) && Covered(sys.db, NodeAt(sys, e).rows, e)
  }

  /** Copies may fail, passes may die, requests may come late, torn or again, drains may stop, and other replicas
      may do as they like; but no recorded file misses its shipment to e, and no turn of e's goes unanswered
      unless the process dies in it. */
  ghost predicate Healthy(sys: System, event: Event, e: Endpoint) {
    match event
    case Registers(_) => true
    case Passes(_, fates) => Reaches(sys.db, fates, e)
    case Drains(turns) => EReached(sys, PendingIds(sys.db.shipments), turns, e)
    case Arrives(_) => true
  }

  ghost predicate HealthyRun(c: Crypto, sys: System, events: seq<Event>, e: Endpoint)
    decreases |events|
  {
    events == [] || (Healthy(sys, events[0], e) && HealthyRun(c, Next(c, sys, events[0]), events[1..], e))
  }

  /** Such a drain keeps e live; if it also gets through, e is equal to the primary. */
  lemma DrainDelivers(c: Crypto, sys: System, turns: seq<Turn>, e: Endpoint)
    requires Inv(c, sys) && Live(sys, e) && Healthy(sys, Drains(turns), e)
    ensures var sys' := Next(c, sys, Drains(turns));
            Live(sys', e) && (Completes(sys, Drains(turns)) ==> NodeAt(sys', e).rows == sys'.db.rows)
  {
    var ids := PendingIds(sys.db.shipments);
    PendingIdsExact(sys.db.shipments);
    PendingIdsAscend(sys.db.shipments);
    CoveredByPending(sys.db, NodeAt(sys, e).rows, e);
    ShipAllCovers(c, sys, ids, turns, e);
    ShipAllKeeps(c, sys, ids, turns);
    SameNamesOrdered(sys.db, ShipAll(c, sys, ids, turns).db);
  }

  lemma PassLive(c: Crypto, sys: System, lines: seq<Name>, fates: seq<Fate>, e: Endpoint)
    requires Lawful(c) && Inv(c, sys) && Sound(Passes(lines, fates)) && Reaches(sys.db, fates, e) && Live(sys, e)
    ensures Live(Next(c, sys, Passes(lines, fates)), e)
  {
    PassInLine(c, sys.db, lines, fates, NodeAt(sys, e).rows, e, true);
    NextKeeps(c, sys, Passes(lines, fates));
    TodoNames(sys.db, lines);
    PassKeeps(c, sys.db, lines, fates);
    assert NodeAt(Next(c, sys, Passes(lines, fates)), e) == NodeAt(sys, e);
  }

  lemma NextLive(c: Crypto, sys: System, event: Event, e: Endpoint)
    requires Lawful(c) && Inv(c, sys) && Sound(event) && Healthy(sys, event, e) && Live(sys, e)
    ensures Live(Next(c, sys, event), e)
  {
    match event
    case Registers(endpoint) =>
      SameTablesInLine(sys.db, Register(sys.db, endpoint), NodeAt(sys, e).rows, e, true);
      assert NodeAt(Next(c, sys, event), e) == NodeAt(sys, e);
    case Passes(lines, fates) => PassLive(c, sys, lines, fates, e);
    case Drains(turns) => DrainDelivers(c, sys, turns, e);
    case Arrives(arrival) =>
      ArriveCalm(c, sys, arrival, e);
      CoveredFurther(sys.db, NodeAt(sys, e).rows, NodeAt(Arrive(c, sys, arrival), e).rows, [], e);
  }

  lemma {:induction false} RunLive(c: Crypto, sys: System, events: seq<Event>, e: Endpoint)
    requires Lawful(c) && Inv(c, sys) && Live(sys, e) && HealthyRun(c, sys, events, e)
    requires forall x :: x in events ==> Sound(x)
    ensures Live(Run(c, sys, events), e)
    decreases |events|
  {
    if events != [] {
      assert events[0] in events && forall x :: x in events[1..] ==> x in events;
      NextKeeps(c, sys, events[0]);
      NextLive(c, sys, events[0], e);
      RunLive(c, Next(c, sys, events[0]), events[1..], e);
    }
  }

  /** A replica registered before the first segment equals the primary's chain after every drain that gets
      through in a run that is healthy for it: the same rows, and the primary's files under them. */
  lemma ReplicaEqualsPrimary(c: Crypto, before: seq<Event>, events: seq<Event>, turns: seq<Turn>, e: Endpoint)
    requires Lawful(c) && forall x :: x in before || x in events ==> Sound(x)
    requires Run(c, INIT, before).db.rows == [] && e in Run(c, INIT, before).db.replicas
    requires HealthyRun(c, Run(c, INIT, before), events, e)
    requires Healthy(Run(c, Run(c, INIT, before), events), Drains(turns), e)
    requires Completes(Run(c, Run(c, INIT, before), events), Drains(turns))
    ensures var sys := Next(c, Run(c, Run(c, INIT, before), events), Drains(turns));
            NodeAt(sys, e).rows == sys.db.rows && Mirrors(c, sys.db, NodeAt(sys, e), 0)
  {
    InitHolds(c);
    RunKeeps(c, INIT, before);
    var start := Run(c, INIT, before);
    NothingYet(c, start, e);
    RunKeeps(c, start, events);
    RunLive(c, start, events, e);
    var mid := Run(c, start, events);
    DrainDelivers(c, mid, turns, e);
    NextKeeps(c, mid, Drains(turns));
    EqualMirrors(c, Next(c, mid, Drains(turns)), e);
  }

  lemma NothingYet(c: Crypto, sys: System, e: Endpoint)
    requires Inv(c, sys) && sys.db.rows == [] && e in sys.db.replicas
    ensures Live(sys, e)
  {
    assert NodeAt(sys, e).rows == [];
    assert forall m :: m in sys.net ==> Genuine(sys.db, m.request);
  }

  lemma EqualMirrors(c: Crypto, sys: System, e: Endpoint)
    requires Inv(c, sys) && NodeAt(sys, e).rows == sys.db.rows
    ensures Mirrors(c, sys.db, NodeAt(sys, e), 0)
  {
    assert sys.db.rows[0..|sys.db.rows|] == sys.db.rows;
  }
}
