/** The primary's side of WAL replication: its tables, the archiving pass and the shipment queue. */
module WalPrimary {
  import opened Bytes
  import opened Sorting
  import opened SegmentNames

  const NONCE_LEN := 12
  const TAG_LEN := 16
  const MAX_SHIPMENT_ATTEMPTS := 5

  type Name = Bytes
  type Endpoint = Bytes

  /** A row of `wal_segments` on the primary or of `replica_segments` on a replica. */
  datatype Row = Row(name: Name, hash: Bytes, previous: Bytes, size: nat, index: int)

  /** History variable: the blob that was hashed for a row, and the segment sealed inside it. */
  datatype Archived = Archived(blob: Bytes, plain: Bytes)

  datatype Status = Pending | Shipped | Failed
  datatype Shipment = Shipment(endpoint: Endpoint, name: Name, status: Status, attempts: nat)

  /** One instance's state on its primary. `blobs` is the directory of encrypted files, by segment name;
      a shipment's id is its place in `shipments`. */
  datatype Db = Db(rows: seq<Row>, history: seq<Archived>, blobs: map<Name, Bytes>,
                   replicas: seq<Endpoint>, shipments: seq<Shipment>)

  const EMPTY_DB := Db([], [], map[], [], [])

  /** SHA-256, and ChaCha20-Poly1305 under the instance's key with the segment's name and chain index as
      associated data. */
  datatype Crypto = Crypto(sha: Sha, seal: (Bytes, Name, int, Bytes) -> Bytes,
                           open: (Bytes, Name, int, Bytes) -> Option<Bytes>)

  ghost predicate Lawful(c: Crypto) {
    forall nonce, name, index, plain ::
      && |c.seal(nonce, name, index, plain)| == |plain| + TAG_LEN
      && c.open(nonce, name, index, c.seal(nonce, name, index, plain)) == Some(plain)
  }

  /** What the holder of the key recovers from a stored blob. */
  function OpenBlob(c: Crypto, name: Name, index: int, blob: Bytes): Option<Bytes> {
    if |blob| < NONCE_LEN + TAG_LEN then None else c.open(blob[..NONCE_LEN], name, index, blob[NONCE_LEN..])
  }

  // ----- tables -----

  predicate HasRow(rows: seq<Row>, name: Name) { exists r :: r in rows && r.name == name }

  /** `ORDER BY chain_index DESC LIMIT 1`. */
  function Latest(rows: seq<Row>): (r: Option<Row>)
    ensures r.None? <==> rows == []
  {
    if rows == [] then None
    else
      var last := rows[|rows| - 1];
      match Latest(rows[..|rows| - 1])
      case None => Some(last)
      case Some(best) => if last.index >= best.index then Some(last) else Some(best)
  }

  /** INSERT OR IGNORE on the unique segment name. */
  function InsertSegment(db: Db, row: Row, archived: Archived): Db {
    if HasRow(db.rows, row.name) then db
    else db.(rows := db.rows + [row], history := db.history + [archived])
  }

  predicate HasShipment(shipments: seq<Shipment>, endpoint: Endpoint, name: Name) {
    exists s :: s in shipments && s.endpoint == endpoint && s.name == name
  }

  /** INSERT OR IGNORE on the unique (endpoint, segment name). */
  function Enqueue(db: Db, endpoint: Endpoint, name: Name): Db {
    if HasShipment(db.shipments, endpoint, name) then db
    else db.(shipments := db.shipments + [Shipment(endpoint, name, Pending, 0)])
  }

  function EnqueueAll(db: Db, endpoints: seq<Endpoint>, name: Name): (db': Db)
    ensures db' == db.(shipments := db'.shipments) && db.shipments <= db'.shipments
  {
    if endpoints == [] then db
    else Enqueue(EnqueueAll(db, endpoints[..|endpoints| - 1], name), endpoints[|endpoints| - 1], name)
  }

  function Register(db: Db, endpoint: Endpoint): (db': Db)
    ensures endpoint in db'.replicas && db' == db.(replicas := db'.replicas)
    ensures db'.replicas == db.replicas || (endpoint !in db.replicas && db'.replicas == db.replicas + [endpoint])
  {
    if endpoint in db.replicas then db else db.(replicas := db.replicas + [endpoint])
  }

  // ----- one archiving pass -----

  /** What befalls one file of a pass. A pass that runs out of fates stopped there: a crash, or an error
      that ends it. `Dies` stops before the row insert and may leave debris, a torn or whole blob, in the
      encrypted directory. `Records` inserts the row and makes the first `enqueued` shipments; short of all
      of them the pass stops, else the archived file is removed, or that removal fails unnoticed. */
  datatype Fate =
    | CopyFails
    | Dies(debris: Option<Bytes>)
    | Records(nonce: Bytes, plain: Bytes, enqueued: nat, removed: bool)

  /** A file that is no longer in the archive cannot be copied. */
  function Effective(fate: Fate, missing: bool): Fate {
    if !missing then fate else if fate.Dies? then Dies(None) else CopyFails
  }

  /** The pass-local chain state. */
  datatype Link = Link(previous: Bytes, index: int)

  function CurrentLink(db: Db): Link {
    match Latest(db.rows)
    case None => Link([], 0)
    case Some(row) => Link(row.hash, row.index + 1)
  }

  function SealedBlob(c: Crypto, name: Name, link: Link, nonce: Bytes, plain: Bytes): Bytes {
    nonce + c.seal(nonce, name, link.index, plain)
  }

  function NextLink(c: Crypto, link: Link, blob: Bytes): Link {
    Link(c.sha(link.previous + blob), link.index + 1)
  }

  /** Blob write, row insert and enqueueing for one recorded file. */
  function Record(c: Crypto, db: Db, link: Link, name: Name, blob: Bytes, plain: Bytes, endpoints: seq<Endpoint>): Db {
    var row := Row(name, c.sha(link.previous + blob), link.previous, |blob|, link.index);
    EnqueueAll(InsertSegment(db.(blobs := db.blobs[name := blob]), row, Archived(blob, plain)), endpoints, name)
  }

  function WriteDebris(db: Db, name: Name, debris: Option<Bytes>): Db {
    if debris.None? then db else db.(blobs := db.blobs[name := debris.value])
  }

  function FirstOf(endpoints: seq<Endpoint>, n: nat): seq<Endpoint> {
    if n < |endpoints| then endpoints[..n] else endpoints
  }

  /** The file loop of a pass, over the names still to do; `gone` are the archived files it has removed. */
  function Archive(c: Crypto, db: Db, link: Link, todo: seq<Name>, fates: seq<Fate>, gone: set<Name>): Db
    decreases |todo|
  {
    if todo == [] || fates == [] then db
    else
      match Effective(fates[0], todo[0] in gone)
      case CopyFails => Archive(c, db, link, todo[1..], fates[1..], gone)
      case Dies(debris) => WriteDebris(db, todo[0], debris)
      case Records(nonce, plain, enqueued, removed) =>
        var blob := SealedBlob(c, todo[0], link, nonce, plain);
        var db' := Record(c, db, link, todo[0], blob, plain, FirstOf(db.replicas, enqueued));
        if enqueued < |db.replicas| then db'
        else Archive(c, db', NextLink(c, link, blob), todo[1..], fates[1..], Removed(gone, todo[0], removed))
  }

  function Removed(gone: set<Name>, name: Name, removed: bool): set<Name> { if removed then gone + {name} else gone }

  /** ".tmp". */
  const TMP: Bytes := [0x2e, 0x74, 0x6d, 0x70]

  function Kept(lines: seq<Name>): seq<Name> {
    if lines == [] then []
    else
      var last := lines[|lines| - 1];
      Kept(lines[..|lines| - 1]) + if last == [] || EndsWith(last, TMP) then [] else [last]
  }

  function Valid(names: seq<Name>): seq<Name> {
    if names == [] then []
    else
      (if IsValidWalName(names[0]) == Accepted then [names[0]] else []) + Valid(names[1..])
  }

  function Unprocessed(names: seq<Name>, rows: seq<Row>): seq<Name> {
    if names == [] then []
    else (if HasRow(rows, names[0]) then [] else [names[0]]) + Unprocessed(names[1..], rows)
  }

  predicate Before(a: Name, b: Name) { Less(a, b) }

  function Listed(lines: seq<Name>): seq<Name> { SortBy(Before, Kept(lines)) }

  /** The files a pass works on: the trimmed lines of the listing, filtered, sorted, validated and not yet
      recorded. */
  function Todo(db: Db, lines: seq<Name>): seq<Name> { Unprocessed(Valid(Listed(lines)), db.rows) }

  /** A name that splits a character at byte 8 makes the name filter panic. */
  predicate PassPanics(lines: seq<Name>) {
    exists name :: name in Listed(lines) && IsValidWalName(name) == Panicked
  }

  /** `process_instance_wal` on the trimmed lines of the archive listing. */
  function Pass(c: Crypto, db: Db, lines: seq<Name>, fates: seq<Fate>): Db {
    if PassPanics(lines) then db else Archive(c, db, CurrentLink(db), Todo(db, lines), fates, {})
  }

  // ----- the shipment queue -----

  /** What one shipment of a drain meets: an unreadable blob, no answer, or the replica's answer. */
  datatype Response = ReadFails | NoAnswer | Refused | Accepts

  function PendingIds(shipments: seq<Shipment>): (ids: seq<nat>)
    ensures forall k :: 0 <= k < |ids| ==> ids[k] < |shipments|
  {
    if shipments == [] then []
    else
      PendingIds(shipments[..|shipments| - 1])
      + if shipments[|shipments| - 1].status.Pending? then [|shipments| - 1] else []
  }

  function SetStatus(db: Db, id: nat, status: Status): Db
    requires id < |db.shipments|
  {
    db.(shipments := db.shipments[id := db.shipments[id].(status := status)])
  }

  function BumpAttempts(db: Db, id: nat): Db
    requires id < |db.shipments|
  {
    db.(shipments := db.shipments[id := db.shipments[id].(attempts := db.shipments[id].attempts + 1)])
  }

  /** The loop body of `ship_pending_segments`. */
  function Settle(db: Db, id: nat, response: Response): (db': Db)
    requires id < |db.shipments|
    ensures db' == db.(shipments := db'.shipments) && |db'.shipments| == |db.shipments|
  {
    var s := db.shipments[id];
    if s.attempts >= MAX_SHIPMENT_ATTEMPTS || !HasRow(db.rows, s.name) then SetStatus(db, id, Failed)
    else if response.Accepts? then SetStatus(db, id, Shipped)
    else BumpAttempts(db, id)
  }

  /** A drain: the i-th response goes to the i-th pending shipment; fewer responses mean it stopped early. */
  function Drain(db: Db, ids: seq<nat>, responses: seq<Response>): Db
    requires forall k :: 0 <= k < |ids| ==> ids[k] < |db.shipments|
    decreases |ids|
  {
    if ids == [] || responses == [] then db
    else Drain(Settle(db, ids[0], responses[0]), ids[1..], responses[1..])
  }

  // ----- the invariant of the primary -----

  /** Row i continues row i - 1: index i, the predecessor's hash, and the hash of both. */
  ghost predicate Chained(c: Crypto, rows: seq<Row>, history: seq<Archived>) {
    && |rows| == |history|
    && (rows != [] ==> rows[0].previous == [])
    && (forall i :: 0 < i < |rows| ==> rows[i].previous == rows[i - 1].hash)
    && forall i :: 0 <= i < |rows| ==>
         && rows[i].index == i
         && rows[i].hash == c.sha(rows[i].previous + history[i].blob)
         && rows[i].size == |history[i].blob| >= NONCE_LEN + TAG_LEN
  }

  ghost predicate Stored(c: Crypto, rows: seq<Row>, history: seq<Archived>, blobs: map<Name, Bytes>) {
    && |rows| == |history|
    && forall i :: 0 <= i < |rows| ==>
         && rows[i].name in blobs && blobs[rows[i].name] == history[i].blob
         && IsValidWalName(rows[i].name) == Accepted
         && OpenBlob(c, rows[i].name, rows[i].index, history[i].blob) == Some(history[i].plain)
  }

  ghost predicate NamesDistinct(rows: seq<Row>) {
    forall i, j :: 0 <= i < j < |rows| ==> rows[i].name != rows[j].name
  }

  ghost predicate ShipmentsKnown(db: Db) {
    && (forall s :: s in db.shipments ==>
          && HasRow(db.rows, s.name) && s.attempts <= MAX_SHIPMENT_ATTEMPTS
          && (s.status.Failed? ==> s.attempts == MAX_SHIPMENT_ATTEMPTS))
    && (forall i, j :: 0 <= i < j < |db.shipments| ==>
          db.shipments[i].endpoint != db.shipments[j].endpoint || db.shipments[i].name != db.shipments[j].name)
  }

  ghost predicate PrimaryInv(c: Crypto, db: Db) {
    && Chained(c, db.rows, db.history)
    && Stored(c, db.rows, db.history, db.blobs)
    && NamesDistinct(db.rows)
    && ShipmentsKnown(db)
    && Distinct(db.replicas)
  }

  /** Nothing recorded is lost or changed: rows and their hashed blobs are kept, in order. */
  ghost predicate Extends(db: Db, db': Db) {
    db.rows <= db'.rows && db.history <= db'.history && |db.shipments| <= |db'.shipments|
  }

  ghost predicate LinkOf(db: Db, link: Link) {
    link.index == |db.rows| && link.previous == if db.rows == [] then [] else db.rows[|db.rows| - 1].hash
  }

  ghost predicate NoneRecorded(db: Db, names: seq<Name>) {
    forall name :: name in names ==> !HasRow(db.rows, name)
  }

  lemma {:induction false} LatestIsLast(rows: seq<Row>)
    requires forall i :: 0 <= i < |rows| ==> rows[i].index == i
    ensures rows != [] ==> Latest(rows) == Some(rows[|rows| - 1])
  {
    if |rows| > 1 {
      LatestIsLast(rows[..|rows| - 1]);
    }
  }

  lemma CurrentLinkContinues(c: Crypto, db: Db)
    requires PrimaryInv(c, db)
    ensures LinkOf(db, CurrentLink(db))
  {
    LatestIsLast(db.rows);
  }

  lemma {:induction false} EnqueueAllKeeps(db: Db, endpoints: seq<Endpoint>, name: Name)
    requires ShipmentsKnown(db) && HasRow(db.rows, name)
    ensures ShipmentsKnown(EnqueueAll(db, endpoints, name))
  {
    if endpoints != [] {
      EnqueueAllKeeps(db, endpoints[..|endpoints| - 1], name);
    }
  }

  lemma OpensSealed(c: Crypto, name: Name, link: Link, nonce: Bytes, plain: Bytes)
    requires Lawful(c) && |nonce| == NONCE_LEN
    ensures var blob := SealedBlob(c, name, link, nonce, plain);
            |blob| >= NONCE_LEN + TAG_LEN && OpenBlob(c, name, link.index, blob) == Some(plain)
  {
    var blob := SealedBlob(c, name, link, nonce, plain);
    assert blob[..NONCE_LEN] == nonce && blob[NONCE_LEN..] == c.seal(nonce, name, link.index, plain);
  }

  lemma AppendKeepsChain(c: Crypto, db: Db, link: Link, row: Row, archived: Archived)
    requires Chained(c, db.rows, db.history) && LinkOf(db, link)
    requires row.index == link.index && row.previous == link.previous
    requires row.hash == c.sha(link.previous + archived.blob)
    requires row.size == |archived.blob| >= NONCE_LEN + TAG_LEN
    ensures Chained(c, db.rows + [row], db.history + [archived])
  {}

  lemma AppendKeepsStored(c: Crypto, db: Db, row: Row, archived: Archived)
    requires Stored(c, db.rows, db.history, db.blobs) && NamesDistinct(db.rows)
    requires IsValidWalName(row.name) == Accepted && !HasRow(db.rows, row.name)
    requires OpenBlob(c, row.name, row.index, archived.blob) == Some(archived.plain)
    ensures Stored(c, db.rows + [row], db.history + [archived], db.blobs[row.name := archived.blob])
    ensures NamesDistinct(db.rows + [row])
  {
    assert forall i :: 0 <= i < |db.rows| ==> db.rows[i] in db.rows;
  }

  lemma AppendKeepsKnown(db: Db, row: Row)
    ensures forall name :: HasRow(db.rows, name) ==> HasRow(db.rows + [row], name)
    ensures HasRow(db.rows + [row], row.name)
  {
    forall name | HasRow(db.rows, name) ensures HasRow(db.rows + [row], name) {
      var r :| r in db.rows && r.name == name;
      assert r in db.rows + [row];
    }
    assert row in db.rows + [row];
  }

  /** Recording one new file keeps the invariant and carries the chain state on. */
  lemma RecordKeeps(c: Crypto, db: Db, link: Link, name: Name, nonce: Bytes, plain: Bytes, endpoints: seq<Endpoint>)
    requires Lawful(c) && PrimaryInv(c, db) && LinkOf(db, link)
    requires |nonce| == NONCE_LEN && IsValidWalName(name) == Accepted && !HasRow(db.rows, name)
    ensures var blob := SealedBlob(c, name, link, nonce, plain);
            var db' := Record(c, db, link, name, blob, plain, endpoints);
            && PrimaryInv(c, db') && Extends(db, db') && LinkOf(db', NextLink(c, link, blob))
            && db'.replicas == db.replicas && |db'.rows| == |db.rows| + 1 && db'.rows[|db.rows|].name == name
  {
    var blob := SealedBlob(c, name, link, nonce, plain);
    var row := Row(name, c.sha(link.previous + blob), link.previous, |blob|, link.index);
    OpensSealed(c, name, link, nonce, plain);
    AppendKeepsChain(c, db, link, row, Archived(blob, plain));
    AppendKeepsStored(c, db, row, Archived(blob, plain));
    AppendKeepsKnown(db, row);
    var mid := InsertSegment(db.(blobs := db.blobs[name := blob]), row, Archived(blob, plain));
    assert mid.rows == db.rows + [row] && mid.history == db.history + [Archived(blob, plain)];
    EnqueueAllKeeps(mid, endpoints, name);
  }

  ghost predicate GoodNonces(fates: seq<Fate>) {
    forall f :: f in fates && f.Records? ==> |f.nonce| == NONCE_LEN
  }

  /** No removal of an archived file fails. */
  ghost predicate AllRemoved(fates: seq<Fate>) { forall f :: f in fates && f.Records? ==> f.removed }

  /** What the loop may rely on: a name it can still copy is not recorded, and will not come up again once it is,
      unless its file is gone by then. */
  ghost predicate Ready(db: Db, todo: seq<Name>, fates: seq<Fate>, gone: set<Name>) {
    && (forall name :: name in todo ==> IsValidWalName(name) == Accepted)
    && (forall name :: name in todo && HasRow(db.rows, name) ==> name in gone)
    && (Distinct(todo) || AllRemoved(fates))
  }

  lemma ReadyTail(db: Db, todo: seq<Name>, fates: seq<Fate>, gone: set<Name>)
    requires todo != [] && fates != [] && Ready(db, todo, fates, gone)
    ensures Ready(db, todo[1..], fates[1..], gone)
    ensures todo[0] !in gone ==> !HasRow(db.rows, todo[0])
  {
    assert forall name :: name in todo[1..] ==> name in todo;
    assert forall f :: f in fates[1..] ==> f in fates;
    assert todo[0] in todo;
  }

  lemma ReadyAfterRecord(db: Db, db': Db, todo: seq<Name>, fates: seq<Fate>, gone: set<Name>)
    requires todo != [] && fates != [] && Ready(db, todo, fates, gone) && fates[0].Records?
    requires db.rows <= db'.rows && |db'.rows| == |db.rows| + 1 && db'.rows[|db.rows|].name == todo[0]
    ensures Ready(db', todo[1..], fates[1..], Removed(gone, todo[0], fates[0].removed))
  {
    ReadyTail(db, todo, fates, gone);
    assert fates[0] in fates;
    forall name | name in todo[1..] && HasRow(db'.rows, name)
      ensures name in Removed(gone, todo[0], fates[0].removed)
    {
      var k :| 0 <= k < |db'.rows| && db'.rows[k].name == name;
      if k < |db.rows| {
        assert db.rows[k] in db.rows && HasRow(db.rows, name);
      }
    }
  }

  /** One step of the loop on a file that gets recorded. */
  lemma RecordStep(c: Crypto, db: Db, link: Link, todo: seq<Name>, fates: seq<Fate>, gone: set<Name>)
    requires Lawful(c) && PrimaryInv(c, db) && LinkOf(db, link) && GoodNonces(fates)
    requires todo != [] && fates != [] && Ready(db, todo, fates, gone) && todo[0] !in gone && fates[0].Records?
    ensures var f := fates[0];
            var blob := SealedBlob(c, todo[0], link, f.nonce, f.plain);
            var db' := Record(c, db, link, todo[0], blob, f.plain, FirstOf(db.replicas, f.enqueued));
            && PrimaryInv(c, db') && Extends(db, db') && LinkOf(db', NextLink(c, link, blob))
            && db'.replicas == db.replicas && Ready(db', todo[1..], fates[1..], Removed(gone, todo[0], f.removed))
  {
    var f := fates[0];
    assert f in fates && todo[0] in todo;
    ReadyTail(db, todo, fates, gone);
    var blob := SealedBlob(c, todo[0], link, f.nonce, f.plain);
    var endpoints := FirstOf(db.replicas, f.enqueued);
    RecordKeeps(c, db, link, todo[0], f.nonce, f.plain, endpoints);
    ReadyAfterRecord(db, Record(c, db, link, todo[0], blob, f.plain, endpoints), todo, fates, gone);
  }

  lemma GoodTail(fates: seq<Fate>)
    requires fates != [] && GoodNonces(fates)
    ensures GoodNonces(fates[1..])
  {
    assert forall f :: f in fates[1..] ==> f in fates;
  }

  /** The archiving loop keeps the invariant and every recorded segment, whatever each file meets. */
  lemma {:induction false} ArchiveKeeps(c: Crypto, db: Db, link: Link, todo: seq<Name>, fates: seq<Fate>,
                                        gone: set<Name>)
    requires Lawful(c) && PrimaryInv(c, db) && LinkOf(db, link) && GoodNonces(fates)
    requires Ready(db, todo, fates, gone)
    ensures PrimaryInv(c, Archive(c, db, link, todo, fates, gone))
    ensures Extends(db, Archive(c, db, link, todo, fates, gone))
    ensures Archive(c, db, link, todo, fates, gone).replicas == db.replicas
    decreases |todo|
  {
    if todo != [] && fates != [] {
      ReadyTail(db, todo, fates, gone);
      GoodTail(fates);
      match Effective(fates[0], todo[0] in gone)
      case CopyFails => ArchiveKeeps(c, db, link, todo[1..], fates[1..], gone);
      case Dies(debris) => if todo[0] !in gone { DebrisHarmless(c, db, todo[0], debris); }
      case Records(nonce, plain, enqueued, removed) =>
        RecordStep(c, db, link, todo, fates, gone);
        if enqueued >= |db.replicas| {
          var blob := SealedBlob(c, todo[0], link, nonce, plain);
          var db' := Record(c, db, link, todo[0], blob, plain, FirstOf(db.replicas, enqueued));
          ArchiveKeeps(c, db', NextLink(c, link, blob), todo[1..], fates[1..], Removed(gone, todo[0], removed));
        }
    }
  }

  /** A torn or orphaned blob of an unrecorded name touches nothing that is recorded. */
  lemma DebrisHarmless(c: Crypto, db: Db, name: Name, debris: Option<Bytes>)
    requires PrimaryInv(c, db) && !HasRow(db.rows, name)
    ensures PrimaryInv(c, WriteDebris(db, name, debris)) && Extends(db, WriteDebris(db, name, debris))
  {
    assert forall i :: 0 <= i < |db.rows| ==> db.rows[i] in db.rows;
  }

  // ----- what a listing turns into -----

  lemma {:induction false} UnprocessedNames(names: seq<Name>, rows: seq<Row>)
    ensures forall name :: name in Unprocessed(names, rows) <==> name in names && !HasRow(rows, name)
    ensures Distinct(names) ==> Distinct(Unprocessed(names, rows))
    ensures SortedBy(Before, names) ==> SortedBy(Before, Unprocessed(names, rows))
  {
    if names != [] {
      UnprocessedNames(names[1..], rows);
      assert names == [names[0]] + names[1..];
      if SortedBy(Before, names) { HeadBeforePicked(Before, names, Unprocessed(names[1..], rows)); }
    }
  }

  lemma {:induction false} ValidNames(names: seq<Name>)
    ensures forall name :: name in Valid(names) <==> name in names && IsValidWalName(name) == Accepted
    ensures Distinct(names) ==> Distinct(Valid(names))
    ensures SortedBy(Before, names) ==> SortedBy(Before, Valid(names))
  {
    if names != [] {
      ValidNames(names[1..]);
      assert names == [names[0]] + names[1..];
      if SortedBy(Before, names) { HeadBeforePicked(Before, names, Valid(names[1..])); }
    }
  }

  lemma {:induction false} KeptNames(lines: seq<Name>)
    ensures forall name :: name in Kept(lines) <==> name in lines && name != [] && !EndsWith(name, TMP)
    ensures Distinct(lines) ==> Distinct(Kept(lines))
  {
    if lines != [] {
      KeptNames(lines[..|lines| - 1]);
      assert lines == lines[..|lines| - 1] + [lines[|lines| - 1]];
      assert Distinct(lines) ==> lines[|lines| - 1] !in lines[..|lines| - 1];
    }
  }

  lemma BeforeIsStrict()
    ensures StrictOrder(Before)
  {
    forall a: Name, b: Name ensures Before(a, b) ==> !Before(b, a) { LessTotal(a, b); }
    forall a: Name, b: Name ensures Before(a, b) || a == b || Before(b, a) { LessTotal(a, b); }
    forall a: Name, b: Name, c: Name | Before(a, b) && Before(b, c) ensures Before(a, c) { LessTransitive(a, b, c); }
  }

  lemma ListedNames(lines: seq<Name>)
    ensures forall name :: name in Listed(lines) <==> name in lines && name != [] && !EndsWith(name, TMP)
    ensures SortedBy(Before, Listed(lines))
  {
    KeptNames(lines);
    SortByPermutes(Before, Kept(lines));
    MembersOfPermutation(Kept(lines), Listed(lines));
    assert forall name :: name in Listed(lines) <==> name in Elements(Listed(lines));
    assert forall name :: name in Kept(lines) <==> name in Elements(Kept(lines));
    BeforeIsStrict();
    SortBySorts(Before, Kept(lines));
  }

  /** No documented name is taken for a temporary file. */
  lemma NoTemporaryName(name: Name)
    requires PostgresName(name)
    ensures name != [] && !EndsWith(name, TMP)
  {
    assert |name| >= 4 ==> name[|name| - 1] == name[|name| - 4..][3];
    assert |name| == 32 ==> name[31] == name[24..][7];
    assert |name| == 16 ==> name[15] == name[8..][7];
  }

  /** No valid name is listed twice, once the lines are trimmed. */
  ghost predicate NoRepeats(lines: seq<Name>) { Distinct(Valid(Listed(lines))) }

  lemma DistinctLinesHaveNoRepeats(lines: seq<Name>)
    requires Distinct(lines)
    ensures NoRepeats(lines)
  {
    KeptNames(lines);
    SortByPermutes(Before, Kept(lines));
    MembersOfPermutation(Kept(lines), Listed(lines));
    ValidNames(Listed(lines));
  }

  lemma TodoNames(db: Db, lines: seq<Name>)
    ensures NoneRecorded(db, Todo(db, lines))
    ensures forall name :: name in Todo(db, lines) ==> IsValidWalName(name) == Accepted
    ensures NoRepeats(lines) ==> Distinct(Todo(db, lines))
  {
    ValidNames(Listed(lines));
    UnprocessedNames(Valid(Listed(lines)), db.rows);
  }

  /** The work list holds exactly the listed names of a documented form that are not recorded, in name order. */
  lemma TodoExactly(db: Db, lines: seq<Name>)
    ensures forall name :: name in Todo(db, lines) <==> name in lines && PostgresName(name) && !HasRow(db.rows, name)
    ensures forall i, j :: 0 <= i < j < |Todo(db, lines)| ==>
              Todo(db, lines)[i] == Todo(db, lines)[j] || Precedes(Todo(db, lines)[i], Todo(db, lines)[j])
  {
    ListedNames(lines);
    ValidNames(Listed(lines));
    UnprocessedNames(Valid(Listed(lines)), db.rows);
    forall name ensures name in Todo(db, lines) <==> name in lines && PostgresName(name) && !HasRow(db.rows, name) {
      ValidatorsAgree(name);
      if PostgresName(name) { NoTemporaryName(name); }
    }
    forall i, j | 0 <= i < j < |Todo(db, lines)|
      ensures Todo(db, lines)[i] == Todo(db, lines)[j] || Precedes(Todo(db, lines)[i], Todo(db, lines)[j])
    {
      LessTotal(Todo(db, lines)[i], Todo(db, lines)[j]);
      LessExactlyWhen(Todo(db, lines)[i], Todo(db, lines)[j]);
    }
  }

  /** A pass panics, and does nothing, exactly when some listed name of admissible length, temporary files apart,
      has a character across bytes 7 and 8. */
  lemma PanicsExactlyWhen(c: Crypto, db: Db, lines: seq<Name>, fates: seq<Fate>)
    ensures PassPanics(lines) <==>
            exists name :: && name in lines && 9 <= |name| <= 32 && 0x80 <= name[8] <= 0xbf
                           && name[|name| - 4..] != [0x2e, 0x74, 0x6d, 0x70]
    ensures PassPanics(lines) ==> Pass(c, db, lines, fates) == db
  {
    ListedNames(lines);
    forall name: Name ensures IsValidWalName(name) == Panicked <==> 9 <= |name| <= 32 && 0x80 <= name[8] <= 0xbf {
      ValidatorsAgree(name);
    }
  }

  /** A pass that dies right after a row insert: the row is there, no shipment for it is, and no later pass makes one,
      as its name is recorded. */
  lemma CrashLosesShipments(c: Crypto, db: Db, link: Link, todo: seq<Name>, nonce: Bytes, plain: Bytes, removed: bool)
    requires db.replicas != [] && todo != [] && !HasRow(db.rows, todo[0])
    ensures var end := Archive(c, db, link, todo, [Records(nonce, plain, 0, removed)], {});
            && end.shipments == db.shipments && |end.rows| == |db.rows| + 1 && end.rows[|db.rows|].name == todo[0]
            && forall lines :: todo[0] !in Todo(end, lines)
  {
    var end := Archive(c, db, link, todo, [Records(nonce, plain, 0, removed)], {});
    assert FirstOf(db.replicas, 0) == [];
    RecordRows(c, db, link, todo[0], SealedBlob(c, todo[0], link, nonce, plain), plain, []);
    forall lines ensures todo[0] !in Todo(end, lines) {
      TodoNames(end, lines);
    }
  }

  // ----- a pass that goes through -----

  /** Every file is copied and recorded to the end. */
  ghost predicate AllRecorded(db: Db, fates: seq<Fate>) {
    forall f :: f in fates ==> f.Records? && f.enqueued >= |db.replicas|
  }

  /** The rows from `start` on are in name order, and none comes after a name still to do. */
  ghost predicate NewInOrder(rows: seq<Row>, start: nat, todo: seq<Name>) {
    && start <= |rows|
    && (forall i, j :: start <= i < j < |rows| ==> Before(rows[i].name, rows[j].name))
    && forall i, name :: start <= i < |rows| && name in todo ==> !Before(name, rows[i].name)
  }

  lemma InOrderWithout(rows: seq<Row>, start: nat, todo: seq<Name>)
    requires todo != [] && NewInOrder(rows, start, todo)
    ensures NewInOrder(rows, start, todo[1..])
  {
    assert forall name :: name in todo[1..] ==> name in todo;
  }

  lemma InOrderWith(rows: seq<Row>, start: nat, todo: seq<Name>, row: Row)
    requires todo != [] && SortedBy(Before, todo) && NewInOrder(rows, start, todo)
    requires row.name == todo[0] && !HasRow(rows, todo[0])
    ensures NewInOrder(rows + [row], start, todo[1..])
  {
    InOrderWithout(rows, start, todo);
    forall i | start <= i < |rows| ensures Before(rows[i].name, row.name) {
      assert todo[0] in todo && rows[i] in rows;
      LessTotal(rows[i].name, row.name);
    }
    forall name | name in todo[1..] ensures !Before(name, row.name) {
      var k :| 0 <= k < |todo[1..]| && todo[1..][k] == name;
      assert todo[k + 1] == name;
    }
  }

  lemma RecordRows(c: Crypto, db: Db, link: Link, name: Name, blob: Bytes, plain: Bytes, endpoints: seq<Endpoint>)
    ensures var db' := Record(c, db, link, name, blob, plain, endpoints);
            && db'.replicas == db.replicas && HasRow(db'.rows, name)
            && (if HasRow(db.rows, name) then db'.rows == db.rows && db'.history == db.history
                else db'.rows == db.rows + [Row(name, c.sha(link.previous + blob), link.previous, |blob|, link.index)]
                     && db'.history == db.history + [Archived(blob, plain)])
  {
    if !HasRow(db.rows, name) {
      var db' := Record(c, db, link, name, blob, plain, endpoints);
      assert db'.rows[|db.rows|] in db'.rows;
    }
  }

  /** The state after a file that goes through, and the files gone by then. */
  function Through(c: Crypto, db: Db, link: Link, name: Name, fate: Fate): Db
    requires fate.Records?
  {
    Record(c, db, link, name, SealedBlob(c, name, link, fate.nonce, fate.plain), fate.plain,
           FirstOf(db.replicas, fate.enqueued))
  }

  lemma GoesOn(c: Crypto, db: Db, link: Link, todo: seq<Name>, fates: seq<Fate>, gone: set<Name>)
    requires AllRecorded(db, fates) && fates != [] && todo != [] && todo[0] !in gone
    ensures fates[0] in fates && fates[0].Records? && AllRecorded(Through(c, db, link, todo[0], fates[0]), fates[1..])
    ensures var f := fates[0];
            Archive(c, db, link, todo, fates, gone)
            == Archive(c, Through(c, db, link, todo[0], f),
                       NextLink(c, link, SealedBlob(c, todo[0], link, f.nonce, f.plain)),
                       todo[1..], fates[1..], Removed(gone, todo[0], f.removed))
  {
    assert fates[0] in fates && forall f :: f in fates[1..] ==> f in fates;
    var f := fates[0];
    RecordRows(c, db, link, todo[0], SealedBlob(c, todo[0], link, f.nonce, f.plain), f.plain,
               FirstOf(db.replicas, f.enqueued));
  }

  lemma RowsStay(rows: seq<Row>, rows': seq<Row>)
    requires rows <= rows'
    ensures forall name :: HasRow(rows, name) ==> HasRow(rows', name)
  {
    forall name | HasRow(rows, name) ensures HasRow(rows', name) {
      var r :| r in rows && r.name == name;
      assert r in rows';
    }
  }

  lemma {:induction false} ArchiveGoesThrough(c: Crypto, db: Db, link: Link, todo: seq<Name>, fates: seq<Fate>,
                                              gone: set<Name>, start: nat)
    requires AllRecorded(db, fates) && |fates| >= |todo| && forall name :: name in gone ==> HasRow(db.rows, name)
    requires SortedBy(Before, todo) && NewInOrder(db.rows, start, todo)
    ensures var end := Archive(c, db, link, todo, fates, gone);
            && db.rows <= end.rows && NewInOrder(end.rows, start, [])
            && (forall name :: name in todo ==> HasRow(end.rows, name))
            && (forall k :: |db.rows| <= k < |end.rows| ==> end.rows[k].name in todo)
    decreases |todo|
  {
    if todo != [] {
      var end := Archive(c, db, link, todo, fates, gone);
      if todo[0] in gone {
        assert fates[0] in fates && forall f :: f in fates[1..] ==> f in fates;
        InOrderWithout(db.rows, start, todo);
        ArchiveGoesThrough(c, db, link, todo[1..], fates[1..], gone, start);
        RowsStay(db.rows, end.rows);
      } else {
        var f := fates[0];
        GoesOn(c, db, link, todo, fates, gone);
        var blob := SealedBlob(c, todo[0], link, f.nonce, f.plain);
        var db' := Through(c, db, link, todo[0], f);
        RecordRows(c, db, link, todo[0], blob, f.plain, FirstOf(db.replicas, f.enqueued));
        RowsStay(db.rows, db'.rows);
        if HasRow(db.rows, todo[0]) {
          InOrderWithout(db.rows, start, todo);
        } else {
          InOrderWith(db.rows, start, todo, db'.rows[|db.rows|]);
        }
        ArchiveGoesThrough(c, db', NextLink(c, link, blob), todo[1..], fates[1..],
                           Removed(gone, todo[0], f.removed), start);
        RowsStay(db'.rows, end.rows);
      }
    }
  }

  /** A pass that does not panic and whose files are all copied and recorded leaves a row for every listed name of
      a documented form; what it adds are such names only, in strictly ascending name order. */
  lemma PassGoesThrough(c: Crypto, db: Db, lines: seq<Name>, fates: seq<Fate>)
    requires !PassPanics(lines) && AllRecorded(db, fates) && |fates| >= |Todo(db, lines)|
    ensures var end := Pass(c, db, lines, fates);
            && db.rows <= end.rows
            && (forall name :: name in lines && PostgresName(name) ==> HasRow(end.rows, name))
            && (forall k :: |db.rows| <= k < |end.rows| ==> end.rows[k].name in lines && PostgresName(end.rows[k].name))
            && (forall i, j :: |db.rows| <= i < j < |end.rows| ==> Precedes(end.rows[i].name, end.rows[j].name))
  {
    var todo, end := Todo(db, lines), Pass(c, db, lines, fates);
    TodoExactly(db, lines);
    ListedNames(lines);
    ValidNames(Listed(lines));
    UnprocessedNames(Valid(Listed(lines)), db.rows);
    ArchiveGoesThrough(c, db, CurrentLink(db), todo, fates, {}, |db.rows|);
    RowsStay(db.rows, end.rows);
    forall i, j | |db.rows| <= i < j < |end.rows| ensures Precedes(end.rows[i].name, end.rows[j].name) {
      LessExactlyWhen(end.rows[i].name, end.rows[j].name);
    }
  }

  /** The k-th new row is for the k-th name, and what was archived for it is the k-th copied file. */
  ghost predicate RecordsEach(db: Db, end: Db, todo: seq<Name>, fates: seq<Fate>) {
    && |fates| >= |todo| && (forall f :: f in fates ==> f.Records?)
    && |end.rows| == |end.history| == |db.rows| + |todo|
    && forall k :: 0 <= k < |todo| ==>
         && fates[k] in fates && end.rows[|db.rows| + k].name == todo[k]
         && end.history[|db.rows| + k].plain == fates[k].plain
  }

  lemma RecordsOneMore(db: Db, db': Db, end: Db, todo: seq<Name>, fates: seq<Fate>)
    requires todo != [] && |fates| >= |todo| && (forall f :: f in fates ==> f.Records?)
    requires RecordsEach(db', end, todo[1..], fates[1..])
    requires |db'.rows| == |db'.history| == |db.rows| + 1 && db'.rows <= end.rows && db'.history <= end.history
    requires db'.rows[|db.rows|].name == todo[0] && db'.history[|db.rows|].plain == fates[0].plain
    ensures RecordsEach(db, end, todo, fates)
  {
    forall k | 0 <= k < |todo|
      ensures end.rows[|db.rows| + k].name == todo[k] && end.history[|db.rows| + k].plain == fates[k].plain
    {
      if k > 0 {
        assert todo[1..][k - 1] == todo[k] && fates[1..][k - 1] == fates[k];
        assert |db'.rows| + (k - 1) == |db.rows| + k;
      }
    }
  }

  /** When no name comes up twice, every file is recorded in its place. */
  lemma {:induction false} ArchiveRecordsEach(c: Crypto, db: Db, link: Link, todo: seq<Name>, fates: seq<Fate>,
                                              gone: set<Name>)
    requires AllRecorded(db, fates) && |fates| >= |todo| && Distinct(todo) && NoneRecorded(db, todo)
    requires |db.rows| == |db.history| && gone * Elements(todo) == {}
    ensures var end := Archive(c, db, link, todo, fates, gone);
            RecordsEach(db, end, todo, fates) && db.rows <= end.rows && db.history <= end.history
    decreases |todo|
  {
    if todo != [] {
      assert todo[0] in Elements(todo) && forall name :: name in todo[1..] ==>
          name in Elements(todo) && name != todo[0];
      var f := fates[0];
      assert todo[0] !in gone * Elements(todo);
      GoesOn(c, db, link, todo, fates, gone);
      var blob := SealedBlob(c, todo[0], link, f.nonce, f.plain);
      var db' := Through(c, db, link, todo[0], f);
      RecordRows(c, db, link, todo[0], blob, f.plain, FirstOf(db.replicas, f.enqueued));
      StillUnrecorded(db, db', todo);
      ArchiveRecordsEach(c, db', NextLink(c, link, blob), todo[1..], fates[1..], Removed(gone, todo[0], f.removed));
      RecordsOneMore(db, db', Archive(c, db, link, todo, fates, gone), todo, fates);
    }
  }

  lemma StillUnrecorded(db: Db, db': Db, todo: seq<Name>)
    requires todo != [] && Distinct(todo) && NoneRecorded(db, todo)
    requires db.rows <= db'.rows && |db'.rows| == |db.rows| + 1 && db'.rows[|db.rows|].name == todo[0]
    ensures NoneRecorded(db', todo[1..])
  {
    forall name | name in todo[1..] ensures !HasRow(db'.rows, name) {
      assert name in todo && name != todo[0];
      assert db'.rows == db.rows + [db'.rows[|db.rows|]];
    }
  }

  /** Row i is for `name`, and its stored blob opens to `plain`. */
  ghost predicate StoresCopy(c: Crypto, db: Db, i: nat, name: Name, plain: Bytes) {
    && i < |db.rows| && db.rows[i].name == name && name in db.blobs
    && var blob := db.blobs[name];
    |blob| >= 28 && c.open(blob[..12], name, i, blob[12..]) == Some(plain)
  }

  lemma RecordedIsStored(c: Crypto, db: Db, end: Db, todo: seq<Name>, fates: seq<Fate>, k: nat)
    requires PrimaryInv(c, end) && RecordsEach(db, end, todo, fates) && k < |todo|
    ensures fates[k] in fates && StoresCopy(c, end, |db.rows| + k, todo[k], fates[k].plain)
  {
    assert Stored(c, end.rows, end.history, end.blobs) && Chained(c, end.rows, end.history);
    assert end.rows[|db.rows| + k].index == |db.rows| + k;
  }

  /** So the stored blob of each new row opens to the file that was copied for it. */
  lemma PassStoresCopies(c: Crypto, db: Db, lines: seq<Name>, fates: seq<Fate>, todo: seq<Name>, k: nat)
    requires Lawful(c) && PrimaryInv(c, db) && GoodNonces(fates) && NoRepeats(lines) && todo == Todo(db, lines)
    requires !PassPanics(lines) && AllRecorded(db, fates) && |fates| >= |todo| && k < |todo|
    ensures fates[k] in fates && StoresCopy(c, Pass(c, db, lines, fates), |db.rows| + k, todo[k], fates[k].plain)
  {
    PassRecordsEach(c, db, lines, fates, todo);
    PassKeeps(c, db, lines, fates);
    RecordedIsStored(c, db, Pass(c, db, lines, fates), todo, fates, k);
  }

  lemma PassRecordsEach(c: Crypto, db: Db, lines: seq<Name>, fates: seq<Fate>, todo: seq<Name>)
    requires PrimaryInv(c, db) && NoRepeats(lines) && todo == Todo(db, lines)
    requires !PassPanics(lines) && AllRecorded(db, fates) && |fates| >= |todo|
    ensures RecordsEach(db, Pass(c, db, lines, fates), todo, fates) && Distinct(todo)
  {
    TodoNames(db, lines);
    ArchiveRecordsEach(c, db, CurrentLink(db), todo, fates, {});
  }

  /** A pass whose names differ, or whose removals succeed, keeps the chain and every recorded blob. */
  lemma PassKeeps(c: Crypto, db: Db, lines: seq<Name>, fates: seq<Fate>)
    requires Lawful(c) && PrimaryInv(c, db) && GoodNonces(fates)
    requires Distinct(Todo(db, lines)) || AllRemoved(fates)
    ensures PrimaryInv(c, Pass(c, db, lines, fates)) && Extends(db, Pass(c, db, lines, fates))
    ensures Pass(c, db, lines, fates).replicas == db.replicas
  {
    if !PassPanics(lines) {
      TodoNames(db, lines);
      CurrentLinkContinues(c, db);
      ArchiveKeeps(c, db, CurrentLink(db), Todo(db, lines), fates, {});
    }
  }

  // ----- when a pass is safe -----

  function Skips(k: nat): seq<Fate> { if k == 0 then [] else [CopyFails] + Skips(k - 1) }

  lemma {:induction false} SkipFiles(c: Crypto, db: Db, link: Link, todo: seq<Name>, k: nat, rest: seq<Fate>)
    requires k <= |todo|
    ensures Archive(c, db, link, todo, Skips(k) + rest, {}) == Archive(c, db, link, todo[k..], rest, {})
  {
    if k == 0 {
      assert Skips(0) + rest == rest && todo[0..] == todo;
    } else {
      var fates := Skips(k) + rest;
      assert fates[0] == CopyFails && fates[1..] == Skips(k - 1) + rest;
      SkipFiles(c, db, link, todo[1..], k - 1, rest);
      assert todo[1..][k - 1..] == todo[k..];
    }
  }

  /** A visit that records the file but fails to remove it, and a later visit that a crash stops just after
      opening the blob's file for writing: that truncates it. */
  function TwiceFates(db: Db, between: nat, nonce: Bytes): seq<Fate> {
    [Records(nonce, [], |db.replicas|, false)] + (Skips(between) + [Dies(Some([]))])
  }

  lemma RecordFirst(c: Crypto, db: Db, link: Link, todo: seq<Name>, nonce: Bytes, rest: seq<Fate>)
    requires todo != []
    ensures var blob := SealedBlob(c, todo[0], link, nonce, []);
            Archive(c, db, link, todo, [Records(nonce, [], |db.replicas|, false)] + rest, {})
            == Archive(c, Record(c, db, link, todo[0], blob, [], db.replicas), NextLink(c, link, blob),
                       todo[1..], rest, {})
  {
    var fates := [Records(nonce, [], |db.replicas|, false)] + rest;
    assert fates[1..] == rest;
  }

  lemma DiesAt(c: Crypto, db: Db, link: Link, todo: seq<Name>, k: nat, debris: Option<Bytes>)
    requires k < |todo|
    ensures Archive(c, db, link, todo, Skips(k) + [Dies(debris)], {}) == WriteDebris(db, todo[k], debris)
  {
    SkipFiles(c, db, link, todo, k, [Dies(debris)]);
  }

  /** A file recorded, and then its blob truncated. */
  function TwiceVisited(c: Crypto, db: Db, link: Link, name: Name, nonce: Bytes): Db {
    var blob := SealedBlob(c, name, link, nonce, []);
    WriteDebris(Record(c, db, link, name, blob, [], db.replicas), name, Some([]))
  }

  lemma TwiceEnds(c: Crypto, db: Db, link: Link, todo: seq<Name>, j: nat, nonce: Bytes)
    requires 0 < j < |todo| && todo[0] == todo[j]
    ensures Archive(c, db, link, todo, TwiceFates(db, j - 1, nonce), {}) == TwiceVisited(c, db, link, todo[0], nonce)
  {
    var blob := SealedBlob(c, todo[0], link, nonce, []);
    var db' := Record(c, db, link, todo[0], blob, [], db.replicas);
    RecordFirst(c, db, link, todo, nonce, Skips(j - 1) + [Dies(Some([]))]);
    DiesAt(c, db', NextLink(c, link, blob), todo[1..], j - 1, Some([]));
  }

  /** A name met twice: its first visit records a blob, its second truncates it. */
  lemma SecondVisitTruncates(c: Crypto, db: Db, link: Link, name: Name, nonce: Bytes)
    requires Lawful(c) && PrimaryInv(c, db) && LinkOf(db, link) && |nonce| == NONCE_LEN
    requires IsValidWalName(name) == Accepted && !HasRow(db.rows, name)
    ensures !PrimaryInv(c, TwiceVisited(c, db, link, name, nonce))
  {
    var blob := SealedBlob(c, name, link, nonce, []);
    var db' := Record(c, db, link, name, blob, [], db.replicas);
    RecordKeeps(c, db, link, name, nonce, [], db.replicas);
    assert db'.blobs[name] == blob && |blob| >= NONCE_LEN;
    BlobReplaced(c, db', TwiceVisited(c, db, link, name, nonce), |db.rows|, name);
  }

  lemma BlobReplaced(c: Crypto, db: Db, end: Db, i: nat, name: Name)
    requires PrimaryInv(c, db) && i < |db.rows| && db.rows[i].name == name
    requires end.rows == db.rows && end.history == db.history
    requires name in end.blobs && end.blobs[name] != db.blobs[name]
    ensures !PrimaryInv(c, end)
  {
    assert db.blobs[name] == db.history[i].blob;
  }

  lemma {:induction false} SkipsThen(k: nat, rest: seq<Fate>)
    requires GoodNonces(rest)
    ensures GoodNonces(Skips(k) + rest)
  {
    if k > 0 {
      SkipsThen(k - 1, rest);
      assert Skips(k) + rest == [CopyFails] + (Skips(k - 1) + rest);
    } else {
      assert Skips(0) + rest == rest;
    }
  }

  lemma TwiceGood(db: Db, between: nat, nonce: Bytes)
    requires |nonce| == NONCE_LEN
    ensures GoodNonces(TwiceFates(db, between, nonce))
  {
    SkipsThen(between, [Dies(Some([]))]);
  }

  /** Fates that break the invariant when a name comes up twice: skip to its first visit, then both visits. */
  function BreakingFates(db: Db, i: nat, j: nat, nonce: Bytes): seq<Fate>
    requires i < j
  {
    Skips(i) + TwiceFates(db, j - i - 1, nonce)
  }

  lemma BreakingGood(db: Db, i: nat, j: nat, nonce: Bytes)
    requires |nonce| == NONCE_LEN && i < j
    ensures GoodNonces(BreakingFates(db, i, j, nonce))
  {
    TwiceGood(db, j - i - 1, nonce);
    SkipsThen(i, TwiceFates(db, j - i - 1, nonce));
  }

  lemma BreakingEnds(c: Crypto, db: Db, link: Link, todo: seq<Name>, i: nat, j: nat, nonce: Bytes)
    requires i < j < |todo| && todo[i] == todo[j]
    ensures Archive(c, db, link, todo, BreakingFates(db, i, j, nonce), {}) == TwiceVisited(c, db, link, todo[i], nonce)
  {
    var rest := todo[i..];
    assert rest[0] == todo[i] && rest[j - i] == todo[j];
    TwiceEnds(c, db, link, rest, j - i, nonce);
    SkipFiles(c, db, link, todo, i, TwiceFates(db, j - i - 1, nonce));
  }

  /** A pass is safe, whatever happens to its files, exactly when the names it works on differ, or no removal of
      an archived file fails, or the name filter panics and it does nothing. Trimming the listing's lines can
      make two names one. */
  lemma PassSafeExactlyWhen(c: Crypto, db: Db, lines: seq<Name>, removals: bool)
    requires Lawful(c) && PrimaryInv(c, db)
    ensures (forall fates :: GoodNonces(fates) && (removals ==> AllRemoved(fates))
                             ==> PrimaryInv(c, Pass(c, db, lines, fates)))
            <==> PassPanics(lines) || Distinct(Todo(db, lines)) || removals
  {
    if PassPanics(lines) || Distinct(Todo(db, lines)) || removals {
      forall fates | GoodNonces(fates) && (removals ==> AllRemoved(fates))
        ensures PrimaryInv(c, Pass(c, db, lines, fates))
      {
        if !PassPanics(lines) {
          PassKeeps(c, db, lines, fates);
        }
      }
    } else {
      var todo, link := Todo(db, lines), CurrentLink(db);
      var nonce := [0, 0, 0, 0, 0, 0, 0, 0, 0, 0, 0, 0];
      var i, j :| 0 <= i < j < |todo| && todo[i] == todo[j];
      TodoNames(db, lines);
      CurrentLinkContinues(c, db);
      assert todo[i] in todo;
      BreakingEnds(c, db, link, todo, i, j, nonce);
      SecondVisitTruncates(c, db, link, todo[i], nonce);
      BreakingGood(db, i, j, nonce);
      assert !PrimaryInv(c, Pass(c, db, lines, BreakingFates(db, i, j, nonce)));
    }
  }

  // ----- the shipment queue keeps the tables -----

  lemma SettleKeeps(c: Crypto, db: Db, id: nat, response: Response)
    requires PrimaryInv(c, db) && id < |db.shipments|
    ensures PrimaryInv(c, Settle(db, id, response))
  {
    assert db.shipments[id] in db.shipments;
    forall s | s in Settle(db, id, response).shipments
      ensures HasRow(db.rows, s.name) && s.attempts <= MAX_SHIPMENT_ATTEMPTS
      ensures s.status.Failed? ==> s.attempts == MAX_SHIPMENT_ATTEMPTS
    {
      var k :| 0 <= k < |db.shipments| && Settle(db, id, response).shipments[k] == s;
      assert db.shipments[k] in db.shipments;
    }
  }

  /** A shipment is left alone once it is shipped or failed, and its attempts only grow, to at most 5. */
  ghost predicate Progresses(s: Shipment, s': Shipment) {
    && s'.endpoint == s.endpoint && s'.name == s.name && s.attempts <= s'.attempts
    && (!s.status.Pending? ==> s' == s)
  }

  /** Completed drains a shipment can still sit through: one per attempt left, and the one that gives up. */
  function Patience(s: Shipment): nat {
    if s.status.Pending? && s.attempts <= MAX_SHIPMENT_ATTEMPTS then MAX_SHIPMENT_ATTEMPTS + 1 - s.attempts else 0
  }

  lemma SettleSpendsPatience(c: Crypto, db: Db, id: nat, response: Response)
    requires PrimaryInv(c, db) && id < |db.shipments| && db.shipments[id].status.Pending?
    ensures var s, s' := db.shipments[id], Settle(db, id, response).shipments[id];
            Progresses(s, s') && Patience(s') < Patience(s) && (s'.status.Pending? || Patience(s') == 0)
  {
    assert db.shipments[id] in db.shipments;
  }
}
