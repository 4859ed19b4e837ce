/** The replica's side: `receive_segment` and its table. */
module WalReplica {
  import opened Bytes
  import opened SegmentNames
  import opened WalPrimary

  /** The headers and body of a POST to `/replication/receive`. */
  datatype Request = Request(name: Name, hash: Bytes, previous: Bytes, index: int, body: Bytes)

  /** One instance's state on one replica: the table and the stored files, by segment name. */
  datatype Replica = Replica(rows: seq<Row>, files: map<Name, Bytes>)

  const EMPTY_REPLICA := Replica([], map[])

  datatype Refusal = BadName | BodyTooSmall | HashMismatch | ChainBreak | IndexGap

  /** The checks, in the source's order. */
  function Refuses(c: Crypto, rep: Replica, req: Request): Option<Refusal> {
    if ValidateSegmentName(req.name) != Accepted then Some(BadName)
    else if |req.body| < NONCE_LEN + TAG_LEN then Some(BodyTooSmall)
    else if c.sha(req.previous + req.body) != req.hash then Some(HashMismatch)
    else
      match Latest(rep.rows)
      case None => None
      case Some(latest) =>
        if req.previous != latest.hash then Some(ChainBreak)
        else if req.index != latest.index + 1 then Some(IndexGap)
        else None
  }

  function RowOf(req: Request): Row { Row(req.name, req.hash, req.previous, |req.body|, req.index) }

  /** File write, then INSERT OR IGNORE on the unique segment name. */
  function Store(rep: Replica, req: Request): Replica {
    Replica(if HasRow(rep.rows, req.name) then rep.rows else rep.rows + [RowOf(req)],
            rep.files[req.name := req.body])
  }

  function Receive(c: Crypto, rep: Replica, req: Request): Replica {
    if Refuses(c, rep, req).Some? then rep else Store(rep, req)
  }

  /** A replica that crashes between the file write and the row insert, leaving any bytes in the file. */
  function ReceiveTorn(c: Crypto, rep: Replica, req: Request, debris: Bytes): Replica {
    if Refuses(c, rep, req).Some? then rep else rep.(files := rep.files[req.name := debris])
  }

  // ----- what the receiver does with any request at all -----

  /** The row with the highest index. */
  ghost predicate IsTop(rows: seq<Row>, top: Row) { top in rows && forall r :: r in rows ==> r.index <= top.index }

  lemma {:induction false} LatestIsTop(rows: seq<Row>)
    ensures rows != [] ==> Latest(rows).Some? && IsTop(rows, Latest(rows).value)
  {
    if rows != [] {
      var front, last := rows[..|rows| - 1], rows[|rows| - 1];
      LatestIsTop(front);
      assert rows == front + [last];
    }
  }

  /** Accepted exactly when the name has a documented form, the body can hold a nonce and a tag, the hash is that
      of the previous hash and the body, and the replica is empty or the request continues its latest row. */
  lemma AcceptedExactlyWhen(c: Crypto, rep: Replica, req: Request)
    ensures Refuses(c, rep, req).None? <==>
            && PostgresName(req.name) && |req.body| >= 28 && req.hash == c.sha(req.previous + req.body)
            && (rep.rows == [] || (var top := Latest(rep.rows).value;
                                   req.previous == top.hash && req.index == top.index + 1))
    ensures rep.rows != [] ==> IsTop(rep.rows, Latest(rep.rows).value)
  {
    ValidatorsAgree(req.name);
    LatestIsTop(rep.rows);
  }

  /** What a request leaves behind: nothing when it is refused; else its body, or debris after a crash, in its file,
      and its row unless there was a crash or a row of that name. */
  lemma ReceivedExactly(c: Crypto, rep: Replica, req: Request, debris: Bytes)
    ensures var taken := Receive(c, rep, req);
            var torn := ReceiveTorn(c, rep, req, debris);
            if Refuses(c, rep, req).Some? then taken == torn == rep
            else
              && taken.files == rep.files[req.name := req.body] && torn.files == rep.files[req.name := debris]
              && torn.rows == rep.rows
              && taken.rows == rep.rows + if exists r :: r in rep.rows && r.name == req.name then []
                                          else [Row(req.name, req.hash, req.previous, |req.body|, req.index)]
  {
  }

  /** Which error is answered: the first test that fails. */
  lemma RefusedExactlyWhen(c: Crypto, rep: Replica, req: Request)
    ensures var named := PostgresName(req.name);
            var sized := |req.body| >= 28;
            var hashed := c.sha(req.previous + req.body) == req.hash;
            var linked := rep.rows == [] || req.previous == Latest(rep.rows).value.hash;
            && (Refuses(c, rep, req) == Some(BadName) <==> !named)
            && (Refuses(c, rep, req) == Some(BodyTooSmall) <==> named && !sized)
            && (Refuses(c, rep, req) == Some(HashMismatch) <==> named && sized && !hashed)
            && (Refuses(c, rep, req) == Some(ChainBreak) <==> named && sized && hashed && !linked)
            && (Refuses(c, rep, req) == Some(IndexGap) <==>
                  named && sized && hashed && linked && rep.rows != [] && req.index != Latest(rep.rows).value.index + 1)
  {
    ValidatorsAgree(req.name);
  }

  /** A request as it comes in; `torn` is a crash while its body is stored. */
  datatype Delivery = Delivery(request: Request, torn: Option<Bytes>)

  function Deliver(c: Crypto, rep: Replica, d: Delivery): Replica {
    match d.torn
    case None => Receive(c, rep, d.request)
    case Some(debris) => ReceiveTorn(c, rep, d.request, debris)
  }

  function DeliverAll(c: Crypto, rep: Replica, ds: seq<Delivery>): Replica {
    if ds == [] then rep else Deliver(c, DeliverAll(c, rep, ds[..|ds| - 1]), ds[|ds| - 1])
  }

  /** A row that some request of the list came with: its own fields, a documented name, a body of a possible size,
      and the hash of its previous hash and that body. */
  ghost predicate CameWith(c: Crypto, ds: seq<Delivery>, row: Row) {
    exists d :: d in ds && Bears(c, d.request, row)
  }

  ghost predicate Bears(c: Crypto, req: Request, row: Row) {
    && row == Row(req.name, req.hash, req.previous, |req.body|, req.index)
    && PostgresName(req.name) && |req.body| >= 28 && row.hash == c.sha(row.previous + req.body)
  }

  /** Indices follow one another, each row continues the one before, and names differ. */
  ghost predicate Consecutive(rows: seq<Row>) {
    && (forall k :: 0 <= k < |rows| ==> rows[k].index == rows[0].index + k)
    && (forall k :: 0 < k < |rows| ==> rows[k].previous == rows[k - 1].hash)
    && forall i, j :: 0 <= i < j < |rows| ==> rows[i].name != rows[j].name
  }

  lemma ConsecutiveMore(rows: seq<Row>, row: Row)
    requires Consecutive(rows) && !HasRow(rows, row.name)
    requires rows != [] ==> var top := Latest(rows).value; row.index == top.index + 1 && row.previous == top.hash
    ensures Consecutive(rows + [row])
  {
    if rows != [] { LatestOfRun(rows, rows[0].index); }
    assert forall k :: 0 <= k < |rows| ==> rows[k] in rows;
  }

  lemma CameWithMore(c: Crypto, ds: seq<Delivery>, d: Delivery, row: Row)
    requires CameWith(c, ds, row) || Bears(c, d.request, row)
    ensures CameWith(c, ds + [d], row)
  {
    if Bears(c, d.request, row) {
      assert d in ds + [d];
    } else {
      var e :| e in ds && Bears(c, e.request, row);
      assert e in ds + [d];
    }
  }

  /** What one delivery does to the rows: nothing, or it adds the row of an acceptable request. */
  lemma DeliveryAdds(c: Crypto, rep: Replica, d: Delivery)
    requires Consecutive(rep.rows)
    ensures var rows := Deliver(c, rep, d).rows;
            Consecutive(rows) && forall r :: r in rows ==> r in rep.rows || Bears(c, d.request, r)
  {
    AcceptedExactlyWhen(c, rep, d.request);
    if d.torn.None? && Refuses(c, rep, d.request).None? && !HasRow(rep.rows, d.request.name) {
      ConsecutiveMore(rep.rows, RowOf(d.request));
    }
  }

  /** After any requests whatever, whole or torn: every row came with a request whose body it hashes, and the rows
      form one chain with consecutive indices and different names. */
  lemma {:induction false} RowsAreSound(c: Crypto, ds: seq<Delivery>)
    ensures var rep := DeliverAll(c, EMPTY_REPLICA, ds);
            (forall r :: r in rep.rows ==> CameWith(c, ds, r)) && Consecutive(rep.rows)
    decreases |ds|
  {
    if ds != [] {
      var front, last := ds[..|ds| - 1], ds[|ds| - 1];
      var before := DeliverAll(c, EMPTY_REPLICA, front);
      var after := DeliverAll(c, EMPTY_REPLICA, ds);
      assert ds == front + [last] && after == Deliver(c, before, last);
      RowsAreSound(c, front);
      DeliveryAdds(c, before, last);
      forall r | r in after.rows ensures CameWith(c, ds, r) {
        CameWithMore(c, front, last, r);
      }
    }
  }

  // ----- a replica's rows as a block of the primary's chain -----

  /** The rows are rows s, s + 1, ... of the primary, and each stored file is the blob that was hashed. */
  ghost predicate BlockFrom(db: Db, rep: Replica, s: nat) {
    && |db.rows| == |db.history|
    && s + |rep.rows| <= |db.rows|
    && rep.rows == db.rows[s..s + |rep.rows|]
    && forall k :: 0 <= k < |rep.rows| ==>
         rep.rows[k].name in rep.files && rep.files[rep.rows[k].name] == db.history[s + k].blob
  }

  ghost predicate ReplicaInv(db: Db, rep: Replica) {
    rep.rows == [] || (rep.rows[0].index >= 0 && BlockFrom(db, rep, rep.rows[0].index))
  }

  function RequestFor(db: Db, i: nat): Request
    requires i < |db.rows| && i < |db.history|
  {
    var row := db.rows[i];
    Request(row.name, row.hash, row.previous, row.index, db.history[i].blob)
  }

  /** What an honest primary ever puts on the wire. */
  ghost predicate Genuine(db: Db, req: Request) {
    |db.rows| == |db.history| && exists i :: 0 <= i < |db.rows| && req == RequestFor(db, i)
  }

  lemma LatestOfBlock(db: Db, rep: Replica)
    requires forall i :: 0 <= i < |db.rows| ==> db.rows[i].index == i
    requires ReplicaInv(db, rep) && rep.rows != []
    ensures Latest(rep.rows) == Some(rep.rows[|rep.rows| - 1])
  {
    var s := rep.rows[0].index;
    forall k | 0 <= k < |rep.rows| ensures rep.rows[k].index == s + k {
      assert rep.rows[k] == db.rows[s + k];
    }
    LatestOfRun(rep.rows, s);
  }

  lemma {:induction false} LatestOfRun(rows: seq<Row>, s: int)
    requires rows != [] && forall k :: 0 <= k < |rows| ==> rows[k].index == s + k
    ensures Latest(rows) == Some(rows[|rows| - 1])
  {
    if |rows| > 1 {
      LatestOfRun(rows[..|rows| - 1], s);
    }
  }

  /** A genuine request meets every check but the two on the chain. */
  lemma OnlyTheChainRefuses(c: Crypto, db: Db, rep: Replica, i: nat)
    requires PrimaryInv(c, db) && i < |db.rows|
    ensures Refuses(c, rep, RequestFor(db, i)) ==
            match Latest(rep.rows)
            case None => None
            case Some(latest) =>
              if db.rows[i].previous != latest.hash then Some(ChainBreak)
              else if i != latest.index + 1 then Some(IndexGap)
              else None
  {
    ValidatorsAgree(db.rows[i].name);
  }

  lemma LastOfBlock(c: Crypto, db: Db, rep: Replica)
    requires PrimaryInv(c, db) && ReplicaInv(db, rep) && rep.rows != []
    ensures var n := rep.rows[0].index + |rep.rows|;
            && 0 < n <= |db.rows| && Latest(rep.rows) == Some(db.rows[n - 1]) && db.rows[n - 1].index == n - 1
            && (n < |db.rows| ==> db.rows[n].previous == db.rows[n - 1].hash)
  {
    LatestOfBlock(db, rep);
    assert rep.rows[|rep.rows| - 1] == db.rows[rep.rows[0].index + (|rep.rows| - 1)];
  }

  /** A genuine request is accepted exactly when the replica is empty or holds the row before it. */
  lemma AcceptsExactlyNext(c: Crypto, db: Db, rep: Replica, i: nat)
    requires PrimaryInv(c, db) && ReplicaInv(db, rep) && i < |db.rows|
    ensures Refuses(c, rep, RequestFor(db, i)).None? <==>
            rep.rows == [] || i == rep.rows[0].index + |rep.rows|
  {
    OnlyTheChainRefuses(c, db, rep, i);
    if rep.rows != [] {
      LastOfBlock(c, db, rep);
    }
  }

  lemma NewName(c: Crypto, db: Db, rep: Replica, i: nat)
    requires PrimaryInv(c, db) && ReplicaInv(db, rep) && i < |db.rows|
    requires rep.rows == [] || i == rep.rows[0].index + |rep.rows|
    ensures !HasRow(rep.rows, db.rows[i].name)
  {
    forall k | 0 <= k < |rep.rows| ensures rep.rows[k].name != db.rows[i].name {
      assert rep.rows[k] == db.rows[rep.rows[0].index + k];
    }
  }

  lemma StoreKeeps(db: Db, rep: Replica, i: nat)
    requires ReplicaInv(db, rep) && |db.rows| == |db.history| && i < |db.rows|
    requires rep.rows == [] || i == rep.rows[0].index + |rep.rows|
    requires !HasRow(rep.rows, db.rows[i].name)
    requires RowOf(RequestFor(db, i)) == db.rows[i] && i == db.rows[i].index
    ensures ReplicaInv(db, Store(rep, RequestFor(db, i)))
  {
    var rep' := Store(rep, RequestFor(db, i));
    var s := i - |rep.rows|;
    assert rep'.rows == rep.rows + [db.rows[i]];
    assert rep'.rows == db.rows[s..s + |rep'.rows|];
    forall k | 0 <= k < |rep'.rows|
      ensures rep'.rows[k].name in rep'.files && rep'.files[rep'.rows[k].name] == db.history[s + k].blob
    {
      if k < |rep.rows| {
        assert rep.rows[k] in rep.rows;
      }
    }
  }

  /** Receiving anything an honest primary ever sent, however late or often, keeps the block. */
  lemma ReceiveKeeps(c: Crypto, db: Db, rep: Replica, req: Request)
    requires PrimaryInv(c, db) && ReplicaInv(db, rep) && Genuine(db, req)
    ensures ReplicaInv(db, Receive(c, rep, req))
    ensures Refuses(c, rep, req).None? ==> Receive(c, rep, req).rows == rep.rows + [RowOf(req)]
  {
    var i :| 0 <= i < |db.rows| && req == RequestFor(db, i);
    AcceptsExactlyNext(c, db, rep, i);
    if Refuses(c, rep, req).None? {
      NewName(c, db, rep, i);
      StoreKeeps(db, rep, i);
    }
  }

  lemma DebrisOutsideBlock(db: Db, rep: Replica, name: Name, debris: Bytes)
    requires ReplicaInv(db, rep) && !HasRow(rep.rows, name)
    ensures ReplicaInv(db, rep.(files := rep.files[name := debris]))
  {
    assert forall k :: 0 <= k < |rep.rows| ==> rep.rows[k] in rep.rows;
  }

  /** A crash inside the receiver leaves at most an unrecorded file. */
  lemma ReceiveTornKeeps(c: Crypto, db: Db, rep: Replica, req: Request, debris: Bytes)
    requires PrimaryInv(c, db) && ReplicaInv(db, rep) && Genuine(db, req)
    ensures ReplicaInv(db, ReceiveTorn(c, rep, req, debris))
    ensures ReceiveTorn(c, rep, req, debris).rows == rep.rows
  {
    var i :| 0 <= i < |db.rows| && req == RequestFor(db, i);
    AcceptsExactlyNext(c, db, rep, i);
    if Refuses(c, rep, req).None? {
      NewName(c, db, rep, i);
      DebrisOutsideBlock(db, rep, req.name, debris);
    }
  }

  /** The primary's growth moves no replica's block. */
  lemma GrowthKeeps(db: Db, db': Db, rep: Replica)
    requires ReplicaInv(db, rep) && Extends(db, db') && |db'.rows| == |db'.history|
    ensures ReplicaInv(db', rep)
  {
    if rep.rows != [] {
      var s := rep.rows[0].index;
      assert db.rows[s..s + |rep.rows|] == db'.rows[s..s + |rep.rows|];
    }
  }

  lemma GenuineStays(db: Db, db': Db, req: Request)
    requires Genuine(db, req) && Extends(db, db') && |db'.rows| == |db'.history|
    ensures Genuine(db', req)
  {
    var i :| 0 <= i < |db.rows| && req == RequestFor(db, i);
    assert req == RequestFor(db', i);
  }

  /** The receiver trusts names to be new: a proper next link under a held name is answered with success,
      replaces that name's file and records no row. */
  lemma HeldNameOverwrites(c: Crypto, rep: Replica, req: Request)
    requires Refuses(c, rep, req).None? && HasRow(rep.rows, req.name)
    ensures Receive(c, rep, req).rows == rep.rows && Receive(c, rep, req).files[req.name] == req.body
  {}
}
