/** One primary, a network that loses, delays, reorders and repeats requests, and any number of replicas:
    safety over every run, and the retry queue's bounds. */
module WalSystem {
  import opened Bytes
  import opened Sorting
  import opened SegmentNames
  import opened WalPrimary
  import opened WalReplica

  datatype Message = Message(to: Endpoint, request: Request)

  /** `net` holds every request ever sent: any of them may still arrive, any number of times. */
  datatype System = System(db: Db, net: set<Message>, nodes: map<Endpoint, Replica>)

  const INIT := System(EMPTY_DB, {}, map[])

  function NodeAt(sys: System, e: Endpoint): Replica {
    if e in sys.nodes then sys.nodes[e] else EMPTY_REPLICA
  }

  /** A request reaching its replica late; `torn` is a crash of the replica while it stores the body. */
  datatype Arrival = Arrival(message: Message, torn: Option<Bytes>)

  datatype Outcome = Unreadable | Unanswered | Answered | SentThenDied

  /** One shipment of a drain: what arrives before it, and what becomes of its request. */
  datatype Turn = Turn(arrivals: seq<Arrival>, outcome: Outcome)

  datatype Event =
    | Registers(endpoint: Endpoint)
    | Passes(lines: seq<Name>, fates: seq<Fate>)
    | Drains(turns: seq<Turn>)
    | Arrives(arrival: Arrival)

  function Arrive(c: Crypto, sys: System, a: Arrival): System {
    var e, req := a.message.to, a.message.request;
    if a.message !in sys.net then sys
    else
      sys.(nodes := sys.nodes[e := match a.torn
                                   case None => Receive(c, NodeAt(sys, e), req)
                                   case Some(debris) => ReceiveTorn(c, NodeAt(sys, e), req, debris)])
  }

  function ArriveAll(c: Crypto, sys: System, arrivals: seq<Arrival>): (sys': System)
    ensures sys'.db == sys.db && sys'.net == sys.net
    decreases |arrivals|
  {
    if arrivals == [] then sys else ArriveAll(c, Arrive(c, sys, arrivals[0]), arrivals[1..])
  }

  function RowFor(rows: seq<Row>, name: Name): (i: nat)
    requires HasRow(rows, name)
    ensures i < |rows| && rows[i].name == name
  {
    if rows[0].name == name then 0 else 1 + RowFor(rows[1..], name)
  }

  /** The request for a recorded segment: the row's headers and the encrypted file's bytes. */
  function Posted(db: Db, name: Name): Request
    requires HasRow(db.rows, name) && name in db.blobs
  {
    var row := db.rows[RowFor(db.rows, name)];
    Request(row.name, row.hash, row.previous, row.index, db.blobs[name])
  }

  predicate GivesUp(db: Db, s: Shipment) { s.attempts >= MAX_SHIPMENT_ATTEMPTS || !HasRow(db.rows, s.name) }

  /** The loop body of `ship_pending_segments` with the replica at the other end. */
  function Ship(c: Crypto, sys: System, id: nat, outcome: Outcome): (sys': System)
    requires id < |sys.db.shipments|
    ensures |sys'.db.shipments| == |sys.db.shipments|
    ensures sys'.db == sys.db.(shipments := sys'.db.shipments)
  {
    var s := sys.db.shipments[id];
    if GivesUp(sys.db, s) || s.name !in sys.db.blobs || outcome.Unreadable? then
      sys.(db := Settle(sys.db, id, ReadFails))
    else
      var req := Posted(sys.db, s.name);
      var sent := sys.(net := sys.net + {Message(s.endpoint, req)});
      match outcome
      case Unreadable => sys
      case SentThenDied => sent
      case Unanswered => sent.(db := Settle(sys.db, id, NoAnswer))
      case Answered =>
        var node := NodeAt(sys, s.endpoint);
        var answer := if Refuses(c, node, req).None? then Accepts else Refused;
        sent.(db := Settle(sys.db, id, answer), nodes := sys.nodes[s.endpoint := Receive(c, node, req)])
  }

  /** The rest of a drain; fewer turns than shipments mean that it stopped early. */
  function ShipAll(c: Crypto, sys: System, ids: seq<nat>, turns: seq<Turn>): (sys': System)
    requires forall k :: 0 <= k < |ids| ==> ids[k] < |sys.db.shipments|
    ensures |sys'.db.shipments| == |sys.db.shipments|
    ensures sys'.db == sys.db.(shipments := sys'.db.shipments)
    decreases |ids|
  {
    if ids == [] || turns == [] then sys
    else
      var sys' := Ship(c, ArriveAll(c, sys, turns[0].arrivals), ids[0], turns[0].outcome);
      if turns[0].outcome.SentThenDied? && !GivesUp(sys.db, sys.db.shipments[ids[0]]) then sys'
      else ShipAll(c, sys', ids[1..], turns[1..])
  }

  function Next(c: Crypto, sys: System, event: Event): System {
    match event
    case Registers(endpoint) => sys.(db := Register(sys.db, endpoint))
    case Passes(lines, fates) => sys.(db := Pass(c, sys.db, lines, fates))
    case Drains(turns) => ShipAll(c, sys, PendingIds(sys.db.shipments), turns)
    case Arrives(arrival) => Arrive(c, sys, arrival)
  }

  function Run(c: Crypto, sys: System, events: seq<Event>): System
    decreases |events|
  {
    if events == [] then sys else Run(c, Next(c, sys, events[0]), events[1..])
  }

  // ----- safety -----

  ghost predicate ShippedHeld(sys: System) {
    forall s :: s in sys.db.shipments && s.status.Shipped? ==> HasRow(NodeAt(sys, s.endpoint).rows, s.name)
  }

  ghost predicate Inv(c: Crypto, sys: System) {
    && PrimaryInv(c, sys.db)
    && (forall m :: m in sys.net ==> Genuine(sys.db, m.request))
    && (forall e :: ReplicaInv(sys.db, NodeAt(sys, e)))
    && ShippedHeld(sys)
  }

  /** What every later state keeps: recorded rows, hashed blobs, replicated rows, and settled shipments. */
  ghost predicate Grows(sys: System, sys': System) {
    && Extends(sys.db, sys'.db)
    && (forall e :: NodeAt(sys, e).rows <= NodeAt(sys', e).rows)
    && (forall id :: 0 <= id < |sys.db.shipments| ==> Progresses(sys.db.shipments[id], sys'.db.shipments[id]))
  }

  /** A listing names no valid segment twice, or no removal fails; and nonces have their length. */
  ghost predicate Sound(event: Event) {
    event.Passes? ==> (NoRepeats(event.lines) || AllRemoved(event.fates)) && GoodNonces(event.fates)
  }

  lemma HeldStays(rows: seq<Row>, rows': seq<Row>, name: Name)
    requires HasRow(rows, name) && rows <= rows'
    ensures HasRow(rows', name)
  {
    var r :| r in rows && r.name == name;
    var k :| 0 <= k < |rows| && rows[k] == r;
    assert rows'[k] == r;
  }

  lemma GrowsTransitive(a: System, b: System, d: System)
    requires Grows(a, b) && Grows(b, d)
    ensures Grows(a, d)
  {
    forall id | 0 <= id < |a.db.shipments| ensures Progresses(a.db.shipments[id], d.db.shipments[id]) {
      assert Progresses(a.db.shipments[id], b.db.shipments[id]);
      assert Progresses(b.db.shipments[id], d.db.shipments[id]);
    }
  }

  /** One replica takes a new state: enough to check that state, and that its rows grew. */
  lemma NodeSteps(c: Crypto, sys: System, e: Endpoint, rep: Replica)
    requires Inv(c, sys) && ReplicaInv(sys.db, rep) && NodeAt(sys, e).rows <= rep.rows
    ensures Inv(c, sys.(nodes := sys.nodes[e := rep])) && Grows(sys, sys.(nodes := sys.nodes[e := rep]))
  {
    var sys' := sys.(nodes := sys.nodes[e := rep]);
    assert forall x :: NodeAt(sys', x) == if x == e then rep else NodeAt(sys, x);
    forall s | s in sys'.db.shipments && s.status.Shipped? ensures HasRow(NodeAt(sys', s.endpoint).rows, s.name) {
      HeldStays(NodeAt(sys, s.endpoint).rows, NodeAt(sys', s.endpoint).rows, s.name);
    }
  }

  /** Any request ever sent may arrive at its replica, any number of times; the replica receives it, or crashes over
      it; nobody else notices. */
  lemma ArrivesExactly(c: Crypto, sys: System, a: Arrival)
    ensures Arrive(c, sys, a).db == sys.db && Arrive(c, sys, a).net == sys.net
    ensures a.message !in sys.net ==> Arrive(c, sys, a) == sys
    ensures a.message in sys.net ==>
              forall e :: NodeAt(Arrive(c, sys, a), e)
                == if e != a.message.to then NodeAt(sys, e)
                   else if a.torn.None? then Receive(c, NodeAt(sys, e), a.message.request)
                   else ReceiveTorn(c, NodeAt(sys, e), a.message.request, a.torn.value)
  {
  }

  lemma ArriveKeeps(c: Crypto, sys: System, a: Arrival)
    requires Inv(c, sys)
    ensures Inv(c, Arrive(c, sys, a)) && Grows(sys, Arrive(c, sys, a))
  {
    if a.message in sys.net {
      var e, req := a.message.to, a.message.request;
      var node := NodeAt(sys, e);
      match a.torn {
        case None =>
          ReceiveKeeps(c, sys.db, node, req);
          NodeSteps(c, sys, e, Receive(c, node, req));
        case Some(debris) =>
          ReceiveTornKeeps(c, sys.db, node, req, debris);
          NodeSteps(c, sys, e, ReceiveTorn(c, node, req, debris));
      }
    }
  }

  lemma {:induction false} ArriveAllKeeps(c: Crypto, sys: System, arrivals: seq<Arrival>)
    requires Inv(c, sys)
    ensures Inv(c, ArriveAll(c, sys, arrivals)) && Grows(sys, ArriveAll(c, sys, arrivals))
    decreases |arrivals|
  {
    if arrivals != [] {
      ArriveKeeps(c, sys, arrivals[0]);
      ArriveAllKeeps(c, Arrive(c, sys, arrivals[0]), arrivals[1..]);
      GrowsTransitive(sys, Arrive(c, sys, arrivals[0]), ArriveAll(c, sys, arrivals));
    }
  }

  lemma PostedIsGenuine(c: Crypto, db: Db, name: Name)
    requires PrimaryInv(c, db) && HasRow(db.rows, name) && name in db.blobs
    ensures Posted(db, name) == RequestFor(db, RowFor(db.rows, name)) && Genuine(db, Posted(db, name))
  {
    assert Posted(db, name) == RequestFor(db, RowFor(db.rows, name));
  }

  lemma SettleShipped(sys: System, id: nat, response: Response)
    requires ShippedHeld(sys) && id < |sys.db.shipments|
    requires response.Accepts? ==> HasRow(NodeAt(sys, sys.db.shipments[id].endpoint).rows, sys.db.shipments[id].name)
    ensures ShippedHeld(sys.(db := Settle(sys.db, id, response)))
  {
    var sys' := sys.(db := Settle(sys.db, id, response));
    forall s | s in sys'.db.shipments && s.status.Shipped? ensures HasRow(NodeAt(sys', s.endpoint).rows, s.name) {
      var k :| 0 <= k < |sys'.db.shipments| && sys'.db.shipments[k] == s;
      assert sys.db.shipments[k] in sys.db.shipments;
    }
  }

  lemma SettleProgresses(db: Db, id: nat, response: Response, k: nat)
    requires id < |db.shipments| && db.shipments[id].status.Pending? && k < |db.shipments|
    ensures Progresses(db.shipments[k], Settle(db, id, response).shipments[k])
  {}

  /** The tables keep their rows: requests stay genuine and replicas keep their blocks. */
  lemma SameRowsKeep(sys: System, db: Db)
    requires db.rows == sys.db.rows && db.history == sys.db.history && |db.rows| == |db.history|
    requires forall m :: m in sys.net ==> Genuine(sys.db, m.request)
    requires forall e :: ReplicaInv(sys.db, NodeAt(sys, e))
    ensures forall m :: m in sys.net ==> Genuine(db, m.request)
    ensures forall e :: ReplicaInv(db, NodeAt(sys.(db := db), e))
  {
    forall m | m in sys.net ensures Genuine(db, m.request) {
      var i :| 0 <= i < |sys.db.rows| && m.request == RequestFor(sys.db, i);
      assert m.request == RequestFor(db, i);
    }
    assert forall e :: NodeAt(sys.(db := db), e) == NodeAt(sys, e);
  }

  /** Settling a pending shipment: as shipped only when its replica holds the segment. */
  lemma SettleSteps(c: Crypto, sys: System, id: nat, response: Response)
    requires Inv(c, sys) && id < |sys.db.shipments| && sys.db.shipments[id].status.Pending?
    requires response.Accepts? ==> HasRow(NodeAt(sys, sys.db.shipments[id].endpoint).rows, sys.db.shipments[id].name)
    ensures Inv(c, sys.(db := Settle(sys.db, id, response))) && Grows(sys, sys.(db := Settle(sys.db, id, response)))
  {
    var db := Settle(sys.db, id, response);
    SettleKeeps(c, sys.db, id, response);
    SameRowsKeep(sys, db);
    SettleShipped(sys, id, response);
    forall k | 0 <= k < |sys.db.shipments| ensures Progresses(sys.db.shipments[k], db.shipments[k]) {
      SettleProgresses(sys.db, id, response, k);
    }
  }

  lemma SendSteps(c: Crypto, sys: System, m: Message)
    requires Inv(c, sys) && Genuine(sys.db, m.request)
    ensures Inv(c, sys.(net := sys.net + {m})) && Grows(sys, sys.(net := sys.net + {m}))
  {
    var sys' := sys.(net := sys.net + {m});
    assert forall e :: NodeAt(sys', e) == NodeAt(sys, e);
    assert forall s :: s in sys'.db.shipments ==> s in sys.db.shipments;
  }

  lemma ShipKeeps(c: Crypto, sys: System, id: nat, outcome: Outcome)
    requires Inv(c, sys) && id < |sys.db.shipments| && sys.db.shipments[id].status.Pending?
    ensures Inv(c, Ship(c, sys, id, outcome)) && Grows(sys, Ship(c, sys, id, outcome))
  {
    var s := sys.db.shipments[id];
    if GivesUp(sys.db, s) || s.name !in sys.db.blobs || outcome.Unreadable? {
      SettleSteps(c, sys, id, ReadFails);
    } else {
      var req := Posted(sys.db, s.name);
      var sent := sys.(net := sys.net + {Message(s.endpoint, req)});
      PostedIsGenuine(c, sys.db, s.name);
      SendSteps(c, sys, Message(s.endpoint, req));
      match outcome {
        case SentThenDied =>
        case Unanswered =>
          SettleSteps(c, sent, id, NoAnswer);
          GrowsTransitive(sys, sent, Ship(c, sys, id, outcome));
        case Answered =>
          AnsweredKeeps(c, sys, sent, id);
      }
    }
  }

  lemma AnsweredKeeps(c: Crypto, sys: System, sent: System, id: nat)
    requires Inv(c, sys) && id < |sys.db.shipments| && sys.db.shipments[id].status.Pending?
    requires !GivesUp(sys.db, sys.db.shipments[id]) && sys.db.shipments[id].name in sys.db.blobs
    requires sent == sys.(net := sys.net + {Message(sys.db.shipments[id].endpoint,
                                                    Posted(sys.db, sys.db.shipments[id].name))})
    requires Inv(c, sent) && Grows(sys, sent)
    ensures Inv(c, Ship(c, sys, id, Answered)) && Grows(sys, Ship(c, sys, id, Answered))
  {
    var s := sys.db.shipments[id];
    var req := Posted(sys.db, s.name);
    var node := NodeAt(sys, s.endpoint);
    PostedIsGenuine(c, sys.db, s.name);
    ReceiveKeeps(c, sys.db, node, req);
    var taken := sent.(nodes := sys.nodes[s.endpoint := Receive(c, node, req)]);
    NodeSteps(c, sent, s.endpoint, Receive(c, node, req));
    GrowsTransitive(sys, sent, taken);
    var answer := if Refuses(c, node, req).None? then Accepts else Refused;
    if answer.Accepts? {
      assert RowOf(req) in NodeAt(taken, s.endpoint).rows;
    }
    SettleSteps(c, taken, id, answer);
    assert Ship(c, sys, id, Answered) == taken.(db := Settle(taken.db, id, answer));
    GrowsTransitive(sys, taken, Ship(c, sys, id, Answered));
  }

  /** The shipments of a drain: different ones, each still pending. */
  ghost predicate Fresh(sys: System, ids: seq<nat>) {
    && Distinct(ids)
    && forall k :: 0 <= k < |ids| ==> ids[k] < |sys.db.shipments| && sys.db.shipments[ids[k]].status.Pending?
  }

  ghost predicate Ascending(ids: seq<nat>) { forall k, l :: 0 <= k < l < |ids| ==> ids[k] < ids[l] }

  lemma {:induction false} PendingIdsAscend(shipments: seq<Shipment>)
    ensures Ascending(PendingIds(shipments))
  {
    if shipments != [] {
      PendingIdsAscend(shipments[..|shipments| - 1]);
    }
  }

  lemma {:induction false} PendingIdsExact(shipments: seq<Shipment>)
    ensures Distinct(PendingIds(shipments))
    ensures forall k :: 0 <= k < |PendingIds(shipments)| ==> shipments[PendingIds(shipments)[k]].status.Pending?
    ensures forall id :: 0 <= id < |shipments| && shipments[id].status.Pending? ==> id in PendingIds(shipments)
  {
    if shipments != [] {
      PendingIdsExact(shipments[..|shipments| - 1]);
    }
  }

  lemma ShipLeavesOthers(c: Crypto, sys: System, ids: seq<nat>, turn: Turn)
    requires Fresh(sys, ids) && ids != []
    ensures var sys' := Ship(c, ArriveAll(c, sys, turn.arrivals), ids[0], turn.outcome);
            && Fresh(sys', ids[1..])
            && forall id :: 0 <= id < |sys.db.shipments| && id != ids[0] ==>
                sys'.db.shipments[id] == sys.db.shipments[id]
  {
    var sys' := Ship(c, ArriveAll(c, sys, turn.arrivals), ids[0], turn.outcome);
    forall k | 0 <= k < |ids[1..]|
      ensures ids[1..][k] < |sys'.db.shipments| && sys'.db.shipments[ids[1..][k]].status.Pending?
    {
      assert ids[1..][k] == ids[k + 1] != ids[0];
    }
  }

  lemma {:induction false} ShipAllKeeps(c: Crypto, sys: System, ids: seq<nat>, turns: seq<Turn>)
    requires Inv(c, sys) && Fresh(sys, ids)
    ensures Inv(c, ShipAll(c, sys, ids, turns)) && Grows(sys, ShipAll(c, sys, ids, turns))
    decreases |ids|
  {
    if ids != [] && turns != [] {
      var mid := ArriveAll(c, sys, turns[0].arrivals);
      var sys' := Ship(c, mid, ids[0], turns[0].outcome);
      ArriveAllKeeps(c, sys, turns[0].arrivals);
      ShipKeeps(c, mid, ids[0], turns[0].outcome);
      GrowsTransitive(sys, mid, sys');
      if !(turns[0].outcome.SentThenDied? && !GivesUp(sys.db, sys.db.shipments[ids[0]])) {
        ShipLeavesOthers(c, sys, ids, turns[0]);
        ShipAllKeeps(c, sys', ids[1..], turns[1..]);
        GrowsTransitive(sys, sys', ShipAll(c, sys, ids, turns));
      }
    }
  }

  /** The primary's tables grow; the network and the replicas stand still. */
  lemma PrimarySteps(c: Crypto, sys: System, db: Db)
    requires Inv(c, sys) && PrimaryInv(c, db) && Extends(sys.db, db)
    requires AppendsPending(sys.db.shipments, db.shipments)
    ensures Inv(c, sys.(db := db)) && Grows(sys, sys.(db := db))
  {
    var sys' := sys.(db := db);
    forall m | m in sys'.net ensures Genuine(db, m.request) {
      GenuineStays(sys.db, db, m.request);
    }
    forall e ensures ReplicaInv(db, NodeAt(sys', e)) {
      GrowthKeeps(sys.db, db, NodeAt(sys, e));
    }
    forall s | s in db.shipments && s.status.Shipped? ensures HasRow(NodeAt(sys', s.endpoint).rows, s.name) {
      var k :| 0 <= k < |db.shipments| && db.shipments[k] == s;
      assert s == sys.db.shipments[k] && s in sys.db.shipments;
    }
  }

  ghost predicate AppendsPending(old_: seq<Shipment>, new_: seq<Shipment>) {
    old_ <= new_ && forall id :: |old_| <= id < |new_| ==> new_[id].status.Pending?
  }

  lemma AppendsPendingTransitive(a: seq<Shipment>, b: seq<Shipment>, d: seq<Shipment>)
    requires AppendsPending(a, b) && AppendsPending(b, d)
    ensures AppendsPending(a, d)
  {
    forall id | |a| <= id < |d| ensures d[id].status.Pending? {
      if id < |b| {
        assert d[id] == b[id];
      }
    }
  }

  lemma {:induction false} EnqueueAllAppends(db: Db, endpoints: seq<Endpoint>, name: Name)
    ensures AppendsPending(db.shipments, EnqueueAll(db, endpoints, name).shipments)
  {
    if endpoints != [] {
      var mid := EnqueueAll(db, endpoints[..|endpoints| - 1], name);
      EnqueueAllAppends(db, endpoints[..|endpoints| - 1], name);
      AppendsPendingTransitive(db.shipments, mid.shipments, EnqueueAll(db, endpoints, name).shipments);
    }
  }

  lemma {:induction false} ArchiveAppends(c: Crypto, db: Db, link: Link, todo: seq<Name>, fates: seq<Fate>,
                                          gone: set<Name>)
    ensures AppendsPending(db.shipments, Archive(c, db, link, todo, fates, gone).shipments)
    decreases |todo|
  {
    if todo != [] && fates != [] {
      match Effective(fates[0], todo[0] in gone)
      case CopyFails => ArchiveAppends(c, db, link, todo[1..], fates[1..], gone);
      case Dies(debris) =>
      case Records(nonce, plain, enqueued, removed) =>
        var blob := SealedBlob(c, todo[0], link, nonce, plain);
        var row := Row(todo[0], c.sha(link.previous + blob), link.previous, |blob|, link.index);
        var mid := InsertSegment(db.(blobs := db.blobs[todo[0] := blob]), row, Archived(blob, plain));
        EnqueueAllAppends(mid, FirstOf(db.replicas, enqueued), todo[0]);
        var db' := Record(c, db, link, todo[0], blob, plain, FirstOf(db.replicas, enqueued));
        if enqueued >= |db.replicas| {
          var gone' := Removed(gone, todo[0], removed);
          ArchiveAppends(c, db', NextLink(c, link, blob), todo[1..], fates[1..], gone');
          AppendsPendingTransitive(db.shipments, db'.shipments,
                                   Archive(c, db', NextLink(c, link, blob), todo[1..], fates[1..], gone').shipments);
        }
    }
  }

  lemma NextKeeps(c: Crypto, sys: System, event: Event)
    requires Lawful(c) && Inv(c, sys) && Sound(event)
    ensures Inv(c, Next(c, sys, event)) && Grows(sys, Next(c, sys, event))
  {
    match event
    case Registers(endpoint) => PrimarySteps(c, sys, Register(sys.db, endpoint));
    case Passes(lines, fates) =>
      TodoNames(sys.db, lines);
      PassKeeps(c, sys.db, lines, fates);
      ArchiveAppends(c, sys.db, CurrentLink(sys.db), Todo(sys.db, lines), fates, {});
      PrimarySteps(c, sys, Pass(c, sys.db, lines, fates));
    case Drains(turns) =>
      PendingIdsExact(sys.db.shipments);
      ShipAllKeeps(c, sys, PendingIds(sys.db.shipments), turns);
    case Arrives(arrival) => ArriveKeeps(c, sys, arrival);
  }

  /** Safety over every run: crashes, lost acknowledgements, late, repeated and torn deliveries included. */
  lemma {:induction false} RunKeeps(c: Crypto, sys: System, events: seq<Event>)
    requires Lawful(c) && Inv(c, sys) && forall e :: e in events ==> Sound(e)
    ensures Inv(c, Run(c, sys, events)) && Grows(sys, Run(c, sys, events))
    decreases |events|
  {
    if events != [] {
      assert events[0] in events && forall e :: e in events[1..] ==> e in events;
      NextKeeps(c, sys, events[0]);
      RunKeeps(c, Next(c, sys, events[0]), events[1..]);
      GrowsTransitive(sys, Next(c, sys, events[0]), Run(c, sys, events));
    }
  }

  lemma InitHolds(c: Crypto)
    ensures Inv(c, INIT)
  {
    assert forall e :: NodeAt(INIT, e) == EMPTY_REPLICA;
  }

  /** In every reachable state the primary's rows are numbered without a gap, each carries its
      predecessor's hash and the hash of both, and the recorded file is still the blob that was hashed. */
  lemma ChainIntact(c: Crypto, events: seq<Event>, i: nat)
    requires Lawful(c) && forall e :: e in events ==> Sound(e)
    requires i < |Run(c, INIT, events).db.rows|
    ensures var db := Run(c, INIT, events).db;
            && db.rows[i].index == i
            && (i == 0 ==> db.rows[i].previous == [])
            && (i > 0 ==> db.rows[i].previous == db.rows[i - 1].hash)
            && db.rows[i].name in db.blobs
            && db.rows[i].hash == c.sha(db.rows[i].previous + db.blobs[db.rows[i].name])
  {
    InitHolds(c);
    RunKeeps(c, INIT, events);
    var db := Run(c, INIT, events).db;
    assert Chained(c, db.rows, db.history) && Stored(c, db.rows, db.history, db.blobs);
  }

  /** No recorded segment or its file ever changes, and no replicated row does, however a run goes on. */
  lemma RecordsAreForever(c: Crypto, events: seq<Event>, more: seq<Event>, i: nat)
    requires Lawful(c) && forall e :: e in events || e in more ==> Sound(e)
    requires i < |Run(c, INIT, events).db.rows|
    ensures var old_, new_ := Run(c, INIT, events), Run(c, Run(c, INIT, events), more);
            && i < |new_.db.rows| && new_.db.rows[i] == old_.db.rows[i]
            && old_.db.rows[i].name in old_.db.blobs && old_.db.rows[i].name in new_.db.blobs
            && new_.db.blobs[old_.db.rows[i].name] == old_.db.blobs[old_.db.rows[i].name]
            && forall e :: NodeAt(old_, e).rows <= NodeAt(new_, e).rows
  {
    InitHolds(c);
    RunKeeps(c, INIT, events);
    RunKeeps(c, Run(c, INIT, events), more);
    var db, db' := Run(c, INIT, events).db, Run(c, Run(c, INIT, events), more).db;
    assert db.history[i] == db'.history[i] && db.rows[i] == db'.rows[i];
  }

  /** A replica's table is rows s, s + 1, ... of the primary's: names, indices, hashes, previous hashes and
      sizes agree, the stored files are the primary's files, and the key holder recovers from each the very
      segment that was archived under that name. */
  ghost predicate Mirrors(c: Crypto, db: Db, rep: Replica, s: nat) {
    && s + |rep.rows| <= |db.rows| == |db.history|
    && rep.rows == db.rows[s..s + |rep.rows|]
    && forall k :: 0 <= k < |rep.rows| ==>
         && rep.rows[k].name in rep.files && rep.rows[k].name in db.blobs
         && rep.files[rep.rows[k].name] == db.blobs[rep.rows[k].name]
         && OpenBlob(c, rep.rows[k].name, rep.rows[k].index, rep.files[rep.rows[k].name])
             == Some(db.history[s + k].plain)
  }

  lemma BlockMirrors(c: Crypto, db: Db, rep: Replica, s: nat)
    requires PrimaryInv(c, db) && BlockFrom(db, rep, s)
    ensures Mirrors(c, db, rep, s)
  {
    forall k | 0 <= k < |rep.rows| ensures rep.rows[k] == db.rows[s + k] {}
  }

  /** In every reachable state a replica holds one contiguous block of the primary's chain. */
  lemma ReplicaHoldsBlock(c: Crypto, events: seq<Event>, e: Endpoint)
    requires Lawful(c) && forall x :: x in events ==> Sound(x)
    ensures exists s :: Mirrors(c, Run(c, INIT, events).db, NodeAt(Run(c, INIT, events), e), s)
  {
    InitHolds(c);
    RunKeeps(c, INIT, events);
    var sys := Run(c, INIT, events);
    var rep := NodeAt(sys, e);
    var s: nat := if rep.rows == [] then 0 else rep.rows[0].index;
    BlockMirrors(c, sys.db, rep, s);
  }

  /** A shipment marked shipped is held by its replica, in every reachable state; attempts never pass 5. */
  lemma ShippedMeansHeld(c: Crypto, events: seq<Event>, id: nat)
    requires Lawful(c) && forall e :: e in events ==> Sound(e)
    requires id < |Run(c, INIT, events).db.shipments|
    ensures var sys := Run(c, INIT, events);
            var s := sys.db.shipments[id];
            && s.attempts <= 5
            && (s.status.Shipped? ==> HasRow(NodeAt(sys, s.endpoint).rows, s.name))
            && (s.status.Failed? ==> s.attempts == 5)
  {
    InitHolds(c);
    RunKeeps(c, INIT, events);
    assert Run(c, INIT, events).db.shipments[id] in Run(c, INIT, events).db.shipments;
  }

  lemma SettlesExactly(c: Crypto, db: Db, id: nat, response: Response)
    requires PrimaryInv(c, db) && id < |db.shipments|
    ensures var s := db.shipments[id];
            Settle(db, id, response).shipments
            == db.shipments[id := if s.attempts == 5 then Shipment(s.endpoint, s.name, Failed, 5)
                                  else if response == Accepts then Shipment(s.endpoint, s.name, Shipped, s.attempts)
                                  else Shipment(s.endpoint, s.name, s.status, s.attempts + 1)]
  {
    assert db.shipments[id] in db.shipments;
  }

  lemma PostedFor(c: Crypto, db: Db, name: Name, i: nat)
    requires PrimaryInv(c, db) && i < |db.rows| && db.rows[i].name == name
    ensures HasRow(db.rows, name) && name in db.blobs && Posted(db, name) == RequestFor(db, i)
  {
    assert db.rows[i] in db.rows;
    PostedIsGenuine(c, db, name);
    assert RowFor(db.rows, name) == i;
  }

  /** Whether a turn's request, for row i, is taken. */
  ghost predicate Takes(c: Crypto, sys: System, id: nat, outcome: Outcome, i: nat)
    requires id < |sys.db.shipments| && i < |sys.db.rows| && i < |sys.db.history|
  {
    outcome.Answered? && Refuses(c, NodeAt(sys, sys.db.shipments[id].endpoint), RequestFor(sys.db, i)).None?
  }

  lemma ShipSettles(c: Crypto, sys: System, id: nat, outcome: Outcome, i: nat)
    requires Inv(c, sys) && id < |sys.db.shipments| && i < |sys.db.rows|
    requires sys.db.rows[i].name == sys.db.shipments[id].name
    ensures Ship(c, sys, id, outcome).db
            == if sys.db.shipments[id].attempts < 5 && outcome.SentThenDied? then sys.db
               else Settle(sys.db, id, if Takes(c, sys, id, outcome, i) then Accepts else Refused)
  {
    assert sys.db.shipments[id] in sys.db.shipments;
    PostedFor(c, sys.db, sys.db.shipments[id].name, i);
  }

  /** What one turn makes of its shipment, for row i: given up after 5 attempts; shipped when its replica takes the
      request for that row; pending with one more attempt when the blob is unreadable, no answer comes or the
      replica refuses; untouched when the process dies after sending. */
  lemma TurnsExactly(c: Crypto, sys: System, id: nat, outcome: Outcome, i: nat)
    requires Inv(c, sys) && id < |sys.db.shipments| && sys.db.shipments[id].status.Pending?
    requires i < |sys.db.rows| && sys.db.rows[i].name == sys.db.shipments[id].name
    ensures var s := sys.db.shipments[id];
            Ship(c, sys, id, outcome).db.shipments
            == if s.attempts < 5 && outcome.SentThenDied? then sys.db.shipments
               else sys.db.shipments[id := if s.attempts == 5 then Shipment(s.endpoint, s.name, Failed, 5)
                                           else if Takes(c, sys, id, outcome, i)
                                           then Shipment(s.endpoint, s.name, Shipped, s.attempts)
                                           else Shipment(s.endpoint, s.name, Pending, s.attempts + 1)]
  {
    ShipSettles(c, sys, id, outcome, i);
    SettlesExactly(c, sys.db, id, if Takes(c, sys, id, outcome, i) then Accepts else Refused);
  }

  /** What a turn does to its replica and to the wire: the request for that row is sent unless the shipment is given
      up or its blob unreadable, and received when it is answered. */
  lemma SendsExactly(c: Crypto, sys: System, id: nat, outcome: Outcome, i: nat)
    requires Inv(c, sys) && id < |sys.db.shipments| && sys.db.shipments[id].status.Pending?
    requires i < |sys.db.rows| && sys.db.rows[i].name == sys.db.shipments[id].name
    ensures var s, sys' := sys.db.shipments[id], Ship(c, sys, id, outcome);
            if s.attempts == 5 || outcome.Unreadable? then sys'.net == sys.net && sys'.nodes == sys.nodes
            else
              && sys'.net == sys.net + {Message(s.endpoint, RequestFor(sys.db, i))}
              && sys'.nodes == if outcome.Answered?
                               then sys.nodes[s.endpoint := Receive(c, NodeAt(sys, s.endpoint), RequestFor(sys.db, i))]
                               else sys.nodes
  {
    assert sys.db.shipments[id] in sys.db.shipments;
    PostedFor(c, sys.db, sys.db.shipments[id].name, i);
  }

  // ----- every shipment is settled -----

  /** A drain that reaches every pending shipment. */
  ghost predicate Completes(sys: System, event: Event) {
    && event.Drains?
    && |event.turns| >= |PendingIds(sys.db.shipments)|
    && forall t :: t in event.turns ==> !t.outcome.SentThenDied?
  }

  ghost function CompletedDrains(c: Crypto, sys: System, events: seq<Event>): nat
    decreases |events|
  {
    if events == [] then 0
    else (if Completes(sys, events[0]) then 1 else 0) + CompletedDrains(c, Next(c, sys, events[0]), events[1..])
  }

  lemma ShipSpends(c: Crypto, sys: System, id: nat, outcome: Outcome)
    requires Inv(c, sys) && id < |sys.db.shipments| && sys.db.shipments[id].status.Pending?
    requires !outcome.SentThenDied?
    ensures Patience(Ship(c, sys, id, outcome).db.shipments[id]) < Patience(sys.db.shipments[id])
  {
    SettleSpendsPatience(c, sys.db, id, ReadFails);
    SettleSpendsPatience(c, sys.db, id, NoAnswer);
    SettleSpendsPatience(c, sys.db, id, Accepts);
    SettleSpendsPatience(c, sys.db, id, Refused);
  }

  lemma {:induction false} ShipAllSpends(c: Crypto, sys: System, ids: seq<nat>, turns: seq<Turn>)
    requires Inv(c, sys) && Fresh(sys, ids) && |turns| >= |ids|
    requires forall t :: t in turns ==> !t.outcome.SentThenDied?
    ensures var sys' := ShipAll(c, sys, ids, turns);
            && (forall id :: 0 <= id < |sys.db.shipments| && id !in ids ==>
                sys'.db.shipments[id] == sys.db.shipments[id])
            && (forall id :: id in ids ==> Patience(sys'.db.shipments[id]) < Patience(sys.db.shipments[id]))
    decreases |ids|
  {
    if ids != [] {
      var mid := ArriveAll(c, sys, turns[0].arrivals);
      var sys' := Ship(c, mid, ids[0], turns[0].outcome);
      assert turns[0] in turns && forall t :: t in turns[1..] ==> t in turns;
      ArriveAllKeeps(c, sys, turns[0].arrivals);
      ShipKeeps(c, mid, ids[0], turns[0].outcome);
      ShipSpends(c, mid, ids[0], turns[0].outcome);
      ShipLeavesOthers(c, sys, ids, turns[0]);
      ShipAllSpends(c, sys', ids[1..], turns[1..]);
      assert ids[0] !in ids[1..];
      assert forall id :: id in ids <==> id == ids[0] || id in ids[1..];
    }
  }

  lemma ProgressPatience(s: Shipment, s': Shipment)
    requires Progresses(s, s')
    ensures Patience(s') <= Patience(s)
  {}

  lemma NextSpends(c: Crypto, sys: System, event: Event, id: nat)
    requires Lawful(c) && Inv(c, sys) && Sound(event) && id < |sys.db.shipments|
    ensures id < |Next(c, sys, event).db.shipments|
    ensures var s, s' := sys.db.shipments[id], Next(c, sys, event).db.shipments[id];
            Patience(s') <= if Completes(sys, event) && Patience(s) > 0 then Patience(s) - 1 else Patience(s)
  {
    NextKeeps(c, sys, event);
    ProgressPatience(sys.db.shipments[id], Next(c, sys, event).db.shipments[id]);
    if Completes(sys, event) {
      PendingIdsExact(sys.db.shipments);
      ShipAllSpends(c, sys, PendingIds(sys.db.shipments), event.turns);
    }
  }

  lemma {:induction false} RunSpends(c: Crypto, sys: System, events: seq<Event>, id: nat)
    requires Lawful(c) && Inv(c, sys) && (forall e :: e in events ==> Sound(e)) && id < |sys.db.shipments|
    ensures id < |Run(c, sys, events).db.shipments|
    ensures var s, s' := sys.db.shipments[id], Run(c, sys, events).db.shipments[id];
            Patience(s') == 0 || Patience(s') + CompletedDrains(c, sys, events) <= Patience(s)
    decreases |events|
  {
    if events != [] {
      assert events[0] in events && forall e :: e in events[1..] ==> e in events;
      NextKeeps(c, sys, events[0]);
      NextSpends(c, sys, events[0], id);
      RunSpends(c, Next(c, sys, events[0]), events[1..], id);
    }
  }

  /** Six completed drains settle every shipment there was, whatever else happens meanwhile, and a settled
      shipment stays as it is. */
  lemma SixDrainsSettle(c: Crypto, events: seq<Event>, more: seq<Event>, id: nat)
    requires Lawful(c) && forall e :: e in events || e in more ==> Sound(e)
    requires id < |Run(c, INIT, events).db.shipments|
    requires CompletedDrains(c, Run(c, INIT, events), more) >= 6
    ensures var new_ := Run(c, Run(c, INIT, events), more);
            id < |new_.db.shipments| && !new_.db.shipments[id].status.Pending?
  {
    InitHolds(c);
    RunKeeps(c, INIT, events);
    RunKeeps(c, Run(c, INIT, events), more);
    RunSpends(c, Run(c, INIT, events), more, id);
    var end := Run(c, Run(c, INIT, events), more);
    assert end.db.shipments[id] in end.db.shipments;
  }
}
