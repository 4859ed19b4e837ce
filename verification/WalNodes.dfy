/** The two ends of replication as objects: the methods of `ReplicationManager` and `Database` that update
    the tables in place, each proved to take the step that the protocol's proofs are about. */
module WalNodes {
  import opened Bytes
  import opened Sorting
  import opened SegmentNames
  import opened WalPrimary
  import opened WalReplica
  import opened WalSystem

  /** What the loop goes on with after one file: nothing, when the pass stops there. */
  ghost function AfterFile(c: Crypto, db: Db, link: Link, name: Name, rest: seq<Name>, fate: Fate,
                           fates: seq<Fate>, gone: set<Name>): Db
  {
    match fate
    case CopyFails => Archive(c, db, link, rest, fates, gone)
    case Dies(debris) => WriteDebris(db, name, debris)
    case Records(nonce, plain, enqueued, removed) =>
      var blob := SealedBlob(c, name, link, nonce, plain);
      var db' := Record(c, db, link, name, blob, plain, FirstOf(db.replicas, enqueued));
      if enqueued < |db.replicas| then db'
      else Archive(c, db', NextLink(c, link, blob), rest, fates, Removed(gone, name, removed))
  }

  lemma ArchiveHead(c: Crypto, db: Db, link: Link, name: Name, rest: seq<Name>, fates: seq<Fate>, f: nat,
                    gone: set<Name>)
    requires f < |fates|
    ensures Archive(c, db, link, [name] + rest, fates[f..], gone)
            == AfterFile(c, db, link, name, rest, Effective(fates[f], name in gone), fates[f + 1..], gone)
  {
    assert ([name] + rest)[1..] == rest && fates[f..][1..] == fates[f + 1..];
  }

  lemma UnprocessedHead(names: seq<Name>, rows: seq<Row>, i: nat)
    requires i < |names|
    ensures Unprocessed(names[i..], rows)
            == if HasRow(rows, names[i]) then Unprocessed(names[i + 1..], rows)
               else [names[i]] + Unprocessed(names[i + 1..], rows)
  {
    var rest := Unprocessed(names[i + 1..], rows);
    assert names[i..][1..] == names[i + 1..] && [] + rest == rest;
  }

  /** What one drain makes of a shipment at its turn. */
  ghost predicate TurnedInto(s: Shipment, s': Shipment, recorded: bool, response: Response) {
    && s'.endpoint == s.endpoint && s'.name == s.name
    && (s.attempts >= 5 || !recorded ==> s'.status == Failed && s'.attempts == s.attempts)
    && (s.attempts < 5 && recorded && response == Accepts ==> s'.status == Shipped && s'.attempts == s.attempts)
    && (s.attempts < 5 && recorded && response != Accepts ==> s'.status == s.status && s'.attempts == s.attempts + 1)
  }

  lemma {:induction false} DrainTurnsEach(db: Db, ids: seq<nat>, responses: seq<Response>)
    requires Distinct(ids) && forall k :: 0 <= k < |ids| ==> ids[k] < |db.shipments|
    ensures var end := Drain(db, ids, responses);
            && |end.shipments| == |db.shipments| && end == db.(shipments := end.shipments)
            && (forall k :: 0 <= k < |ids| && k < |responses| ==>
                  TurnedInto(db.shipments[ids[k]], end.shipments[ids[k]],
                             HasRow(db.rows, db.shipments[ids[k]].name), responses[k]))
            && (forall id :: 0 <= id < |db.shipments|
                             && (forall k :: 0 <= k < |ids| && k < |responses| ==> ids[k] != id) ==>
                  end.shipments[id] == db.shipments[id])
    decreases |ids|
  {
    if ids != [] && responses != [] {
      var mid, end := Settle(db, ids[0], responses[0]), Drain(db, ids, responses);
      DrainTurnsEach(mid, ids[1..], responses[1..]);
      forall k | 0 <= k < |ids| && k < |responses|
        ensures TurnedInto(db.shipments[ids[k]], end.shipments[ids[k]],
                           HasRow(db.rows, db.shipments[ids[k]].name), responses[k])
      {
        if k > 0 {
          assert ids[k] == ids[1..][k - 1] != ids[0] && responses[1..][k - 1] == responses[k];
        } else {
          assert forall l :: 0 <= l < |ids[1..]| ==> ids[1..][l] == ids[l + 1] != ids[0];
        }
      }
      forall id | 0 <= id < |db.shipments| && (forall k :: 0 <= k < |ids| && k < |responses| ==> ids[k] != id)
        ensures end.shipments[id] == db.shipments[id]
      {
        assert ids[0] != id && forall l :: 0 <= l < |ids[1..]| && l < |responses[1..]| ==>
            ids[1..][l] == ids[l + 1] != id;
      }
    }
  }

  lemma DrainTurnsPending(db: Db, responses: seq<Response>)
    ensures var ids := PendingIds(db.shipments);
            var end := Drain(db, ids, responses);
            && |end.shipments| == |db.shipments|
            && (forall k :: 0 <= k < |ids| ==>
                  if k < |responses|
                  then TurnedInto(db.shipments[ids[k]], end.shipments[ids[k]],
                                  HasRow(db.rows, db.shipments[ids[k]].name), responses[k])
                  else end.shipments[ids[k]] == db.shipments[ids[k]])
            && (forall id :: 0 <= id < |db.shipments| && !db.shipments[id].status.Pending?
                  ==> end.shipments[id] == db.shipments[id])
  {
    PendingIdsExact(db.shipments);
    DrainTurnsEach(db, PendingIds(db.shipments), responses);
  }

  class PrimaryNode {
    const c: Crypto
    var rows: seq<Row>
    ghost var history: seq<Archived>
    var blobs: map<Name, Bytes>
    var replicas: seq<Endpoint>
    var shipments: seq<Shipment>

    ghost function State(): Db
      reads this
    {
      Db(rows, history, blobs, replicas, shipments)
    }

    constructor (c: Crypto)
      ensures this.c == c && State() == EMPTY_DB
    {
      this.c := c;
      rows, history, blobs, replicas, shipments := [], [], map[], [], [];
    }

    method AddInstanceReplica(endpoint: Endpoint) returns (added: bool)
      modifies this`replicas
      ensures State() == Register(old(State()), endpoint)
      ensures added <==> endpoint !in old(replicas)
      ensures endpoint in replicas && replicas == old(replicas) + if added then [endpoint] else []
    {
      added := endpoint !in replicas;
      if added {
        replicas := replicas + [endpoint];
      }
    }

    method InsertWalSegment(row: Row, ghost archived: Archived)
      modifies this`rows, this`history
      ensures State() == InsertSegment(old(State()), row, archived)
      ensures rows == old(rows) + if exists r :: r in old(rows) && r.name == row.name then [] else [row]
    {
      if !HasRow(rows, row.name) {
        rows := rows + [row];
        history := history + [archived];
      }
    }

    method EnqueueReplicaShipment(endpoint: Endpoint, name: Name) returns (added: bool)
      modifies this`shipments
      ensures State() == Enqueue(old(State()), endpoint, name)
      ensures added <==> !exists s :: s in old(shipments) && s.endpoint == endpoint && s.name == name
      ensures shipments == old(shipments) + if added then [Shipment(endpoint, name, Pending, 0)] else []
    {
      added := !HasShipment(shipments, endpoint, name);
      if added {
        shipments := shipments + [Shipment(endpoint, name, Pending, 0)];
      }
    }

    /** The enqueue loop of one file. */
    method EnqueueEach(endpoints: seq<Endpoint>, name: Name)
      modifies this`shipments
      ensures State() == EnqueueAll(old(State()), endpoints, name)
    {
      ghost var start := State();
      for k := 0 to |endpoints|
        invariant State() == EnqueueAll(start, endpoints[..k], name)
      {
        assert endpoints[..k + 1][..k] == endpoints[..k];
        var _ := EnqueueReplicaShipment(endpoints[k], name);
      }
      assert endpoints[..|endpoints|] == endpoints;
    }

    /** Blob write, row insert and enqueueing of one sealed file. */
    method RecordFile(name: Name, prevHash: Bytes, chainIndex: int, onDisk: Bytes, ghost plain: Bytes, enqueued: nat)
      returns (hash: Bytes)
      modifies this
      ensures State() == Record(c, old(State()), Link(prevHash, chainIndex), name, onDisk, plain,
                                FirstOf(old(replicas), enqueued))
      ensures hash == c.sha(prevHash + onDisk) && replicas == old(replicas)
      ensures blobs == old(blobs)[name := onDisk]
      ensures rows == old(rows) + if exists r :: r in old(rows) && r.name == name then []
                                  else [Row(name, hash, prevHash, |onDisk|, chainIndex)]
    {
      hash := c.sha(prevHash + onDisk);
      blobs := blobs[name := onDisk];
      InsertWalSegment(Row(name, hash, prevHash, |onDisk|, chainIndex), Archived(onDisk, plain));
      EnqueueEach(FirstOf(replicas, enqueued), name);
    }

    /** One file of the loop; no link to go on with when the pass stops there. */
    method VisitFile(name: Name, link: Link, fate: Fate) returns (next: Option<Link>)
      modifies this
      ensures fate.CopyFails? ==> State() == old(State()) && next == Some(link)
      ensures fate.Dies? ==> State() == WriteDebris(old(State()), name, fate.debris) && next == None
      ensures fate.Records? ==>
                var blob := SealedBlob(c, name, link, fate.nonce, fate.plain);
                && State() == Record(c, old(State()), link, name, blob, fate.plain,
                                     FirstOf(old(replicas), fate.enqueued))
                && next == if fate.enqueued < |old(replicas)| then None else Some(NextLink(c, link, blob))
    {
      match fate {
        case CopyFails => return Some(link);
        case Dies(debris) =>
          if debris.Some? {
            blobs := blobs[name := debris.value];
          }
          return None;
        case Records(nonce, plain, enqueued, _) =>
          var onDisk := nonce + c.seal(nonce, name, link.index, plain);
          var hash := RecordFile(name, link.previous, link.index, onDisk, plain, enqueued);
          return if enqueued < |replicas| then None else Some(Link(hash, link.index + 1));
      }
    }

    /** The file loop of `process_instance_wal`. */
    method ArchiveFiles(walFiles: seq<Name>, processed: seq<Row>, link: Link, fates: seq<Fate>)
      modifies this
      ensures State() == Archive(c, old(State()), link, Unprocessed(walFiles, processed), fates, {})
    {
      var current := link;
      var f := 0;
      var gone: set<Name> := {};
      ghost var goal := Archive(c, State(), link, Unprocessed(walFiles, processed), fates, {});
      assert walFiles[0..] == walFiles && fates[0..] == fates;
      for i := 0 to |walFiles|
        invariant f <= |fates|
        invariant goal == Archive(c, State(), current, Unprocessed(walFiles[i..], processed), fates[f..], gone)
      {
        var name := walFiles[i];
        UnprocessedHead(walFiles, processed, i);
        if HasRow(processed, name) {
          continue;
        }
        if f == |fates| {
          return;
        }
        var fate := Effective(fates[f], name in gone);
        ArchiveHead(c, State(), current, name, Unprocessed(walFiles[i + 1..], processed), fates, f, gone);
        f := f + 1;
        var next := VisitFile(name, current, fate);
        if next.None? {
          return;
        }
        current := next.value;
        if fate.Records? {
          gone := Removed(gone, name, fate.removed);
        }
      }
    }

    /** `process_instance_wal`: one archiving pass over the trimmed lines of the listing. */
    method ProcessInstanceWal(lines: seq<Name>, fates: seq<Fate>)
      modifies this
      ensures State() == Pass(c, old(State()), lines, fates)
    {
      if PassPanics(lines) {
        return;
      }
      var walFiles := Valid(Listed(lines));
      var latest := Latest(rows);
      var prevHash: Bytes := if latest.Some? then latest.value.hash else [];
      var nextChainIndex := if latest.Some? then latest.value.index + 1 else 0;
      ArchiveFiles(walFiles, rows, Link(prevHash, nextChainIndex), fates);
    }

    method MarkShipment(id: nat, status: Status)
      requires id < |shipments|
      modifies this`shipments
      ensures State() == SetStatus(old(State()), id, status)
      ensures var s := old(shipments)[id];
              shipments == old(shipments)[id := Shipment(s.endpoint, s.name, status, s.attempts)]
    {
      shipments := shipments[id := shipments[id].(status := status)];
    }

    method IncrementShipmentAttempts(id: nat)
      requires id < |shipments|
      modifies this`shipments
      ensures State() == BumpAttempts(old(State()), id)
      ensures var s := old(shipments)[id];
              shipments == old(shipments)[id := Shipment(s.endpoint, s.name, s.status, s.attempts + 1)]
    {
      shipments := shipments[id := shipments[id].(attempts := shipments[id].attempts + 1)];
    }

    /** `ship_pending_segments`: one drain over a snapshot of the pending shipments. */
    method ShipPendingSegments(responses: seq<Response>)
      modifies this`shipments
      ensures State() == Drain(old(State()), PendingIds(old(shipments)), responses)
      ensures |shipments| == |old(shipments)|
      ensures var ids := PendingIds(old(shipments));
              forall k :: 0 <= k < |ids| ==>
                if k < |responses|
                then TurnedInto(old(shipments)[ids[k]], shipments[ids[k]],
                                HasRow(rows, old(shipments)[ids[k]].name), responses[k])
                else shipments[ids[k]] == old(shipments)[ids[k]]
      ensures forall id :: 0 <= id < |shipments| && !old(shipments)[id].status.Pending? ==>
          shipments[id] == old(shipments)[id]
    {
      var pending := PendingIds(shipments);
      var snapshot := shipments;
      PendingIdsExact(shipments);
      ghost var goal := Drain(State(), pending, responses);
      assert pending[0..] == pending && responses[0..] == responses;
      for k := 0 to |pending|
        invariant |shipments| == |snapshot|
        invariant forall j :: k <= j < |pending| ==> shipments[pending[j]] == snapshot[pending[j]]
        invariant k <= |responses| && goal == Drain(State(), pending[k..], responses[k..])
      {
        if k == |responses| {
          assert responses[k..] == [];
          break;
        }
        var id := pending[k];
        var shipment := snapshot[id];
        assert pending[k..][1..] == pending[k + 1..] && responses[k..][1..] == responses[k + 1..];
        if shipment.attempts >= MAX_SHIPMENT_ATTEMPTS {
          MarkShipment(id, Failed);
        } else if !HasRow(rows, shipment.name) {
          MarkShipment(id, Failed);
        } else {
          match responses[k] {
            case ReadFails => IncrementShipmentAttempts(id);
            case NoAnswer => IncrementShipmentAttempts(id);
            case Refused => IncrementShipmentAttempts(id);
            case Accepts => MarkShipment(id, Shipped);
          }
        }
      }
      assert State() == goal;
      DrainTurnsPending(old(State()), responses);
    }
  }

  class ReplicaNode {
    const c: Crypto
    var rows: seq<Row>
    var files: map<Name, Bytes>

    ghost function State(): Replica
      reads this
    {
      Replica(rows, files)
    }

    constructor (c: Crypto)
      ensures this.c == c && State() == EMPTY_REPLICA
    {
      this.c := c;
      rows, files := [], map[];
    }

    method InsertReplicaSegment(row: Row)
      modifies this`rows
      ensures rows == if HasRow(old(rows), row.name) then old(rows) else old(rows) + [row]
    {
      if !HasRow(rows, row.name) {
        rows := rows + [row];
      }
    }

    /** `receive_segment`, authentication aside. */
    method ReceiveSegment(req: Request) returns (r: Result<Row, Refusal>)
      modifies this
      ensures State() == Receive(c, old(State()), req)
      ensures r == match Refuses(c, old(State()), req) case Some(why) => Err(why) case None => Ok(RowOf(req))
      ensures r.Ok? <==>
                && PostgresName(req.name) && |req.body| >= 28 && req.hash == c.sha(req.previous + req.body)
                && (old(rows) == [] || (req.previous == Latest(old(rows)).value.hash
                                        && req.index == Latest(old(rows)).value.index + 1))
      ensures r.Ok? ==>
                && r.value == Row(req.name, req.hash, req.previous, |req.body|, req.index)
                && files == old(files)[req.name := req.body]
                && rows == old(rows) + if exists x :: x in old(rows) && x.name == req.name then [] else [r.value]
      ensures r.Err? ==> files == old(files) && rows == old(rows)
    {
      AcceptedExactlyWhen(c, State(), req);
      if ValidateSegmentName(req.name) != Accepted {
        return Err(BadName);
      }
      if |req.body| < NONCE_LEN + TAG_LEN {
        return Err(BodyTooSmall);
      }
      var chainHash := c.sha(req.previous + req.body);
      if chainHash != req.hash {
        return Err(HashMismatch);
      }
      var latest := Latest(rows);
      if latest.Some? {
        if req.previous != latest.value.hash {
          return Err(ChainBreak);
        }
        if req.index != latest.value.index + 1 {
          return Err(IndexGap);
        }
      }
      files := files[req.name := req.body];
      var row := Row(req.name, req.hash, req.previous, |req.body|, req.index);
      InsertReplicaSegment(row);
      return Ok(row);
    }
  }

  // ----- the protocol's drain is the primary's drain -----

  /** The primary's half of a drain in the whole system is `ShipPendingSegments` run on some responses. */
  lemma {:induction false} DrainsRefine(c: Crypto, sys: System, ids: seq<nat>, turns: seq<Turn>)
    returns (responses: seq<Response>)
    requires Inv(c, sys) && Fresh(sys, ids)
    ensures ShipAll(c, sys, ids, turns).db == Drain(sys.db, ids, responses)
    decreases |ids|
  {
    if ids == [] || turns == [] {
      responses := [];
    } else {
      var mid := ArriveAll(c, sys, turns[0].arrivals);
      var sys' := Ship(c, mid, ids[0], turns[0].outcome);
      ArriveAllKeeps(c, sys, turns[0].arrivals);
      ShipKeeps(c, mid, ids[0], turns[0].outcome);
      ShipLeavesOthers(c, sys, ids, turns[0]);
      var stops := turns[0].outcome.SentThenDied? && !GivesUp(sys.db, sys.db.shipments[ids[0]]);
      var first := ShipResponds(c, mid, ids[0], turns[0].outcome);
      if stops {
        responses := [];
      } else {
        var rest := DrainsRefine(c, sys', ids[1..], turns[1..]);
        responses := first + rest;
        assert responses[0] == first[0] && responses[1..] == rest;
      }
    }
  }

  /** One shipment settles as one response says, or the process dies with the shipment untouched. */
  lemma ShipResponds(c: Crypto, sys: System, id: nat, outcome: Outcome) returns (r: seq<Response>)
    requires Inv(c, sys) && id < |sys.db.shipments|
    ensures if outcome.SentThenDied? && !GivesUp(sys.db, sys.db.shipments[id])
            then r == [] && Ship(c, sys, id, outcome).db == sys.db
            else |r| == 1 && Ship(c, sys, id, outcome).db == Settle(sys.db, id, r[0])
  {
    var s := sys.db.shipments[id];
    assert GivesUp(sys.db, s) || s.name in sys.db.blobs by {
      if HasRow(sys.db.rows, s.name) {
        assert sys.db.rows[RowFor(sys.db.rows, s.name)].name in sys.db.blobs;
      }
    }
    if GivesUp(sys.db, s) || outcome.Unreadable? {
      r := [ReadFails];
    } else {
      match outcome {
        case SentThenDied => r := [];
        case Unanswered => r := [NoAnswer];
        case Answered =>
          r := [if Refuses(c, NodeAt(sys, s.endpoint), Posted(sys.db, s.name)).None? then Accepts else Refused];
      }
    }
  }
}
