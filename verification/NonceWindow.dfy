/** The replay protection of `sigauth.rs`: the pruned map of seen nonces and the timestamp window. */
module NonceWindow {
  import opened Bytes

  type Nonce = Bytes

  /** Instants in milliseconds on the monotonic clock. */
  const NONCE_RETENTION := 600_000
  const NONCE_CLEANUP_THRESHOLD := 100_000
  const SIG_TIMESTAMP_SKEW_SECS := 300
  const MAX_NONCE_LEN := 128

  /** When each seen nonce expires. */
  type Seen = map<Nonce, nat>

  function Pruned(seen: Seen, now: nat): Seen {
    if |seen| > NONCE_CLEANUP_THRESHOLD then map n | n in seen && seen[n] > now :: seen[n] else seen
  }

  predicate IsFresh(seen: Seen, nonce: Nonce, now: nat) { !(nonce in seen && seen[nonce] > now) }

  function Recorded(seen: Seen, nonce: Nonce, now: nat): Seen {
    var kept := Pruned(seen, now);
    if IsFresh(kept, nonce, now) then kept[nonce := now + NONCE_RETENTION] else kept
  }

  class SeenNonces {
    var seen: Seen

    constructor ()
      ensures seen == map[]
    {
      seen := map[];
    }

    method CheckAndRecordNonce(nonce: Nonce, now: nat) returns (isNew: bool)
      modifies this
      ensures isNew == IsFresh(old(seen), nonce, now) && seen == Recorded(old(seen), nonce, now)
      ensures isNew <==> !(nonce in old(seen) && old(seen)[nonce] > now)
      ensures isNew ==> nonce in seen && seen[nonce] == now + 600_000
      ensures forall n :: n in old(seen) && old(seen)[n] > now && (n != nonce || !isNew) ==>
          n in seen && seen[n] == old(seen)[n]
      ensures forall n :: n in seen && (n != nonce || !isNew) ==> n in old(seen) && seen[n] == old(seen)[n]
      ensures |old(seen)| > 100_000 ==> forall n :: n in seen ==> seen[n] > now
      ensures |old(seen)| <= 100_000 ==> seen == if isNew then old(seen)[nonce := now + 600_000] else old(seen)
    {
      if |seen| > NONCE_CLEANUP_THRESHOLD {
        seen := map n | n in seen && seen[n] > now :: seen[n];
      }
      if nonce in seen && seen[nonce] > now {
        return false;
      }
      seen := seen[nonce := now + NONCE_RETENTION];
      return true;
    }
  }

  // ----- histories of requests -----

  /** A signed request: its nonce, its timestamp in Unix seconds, and the instant it is checked at. */
  datatype Request = Request(nonce: Nonce, ts: I64, now: nat)

  /** Unix seconds at an instant; `epoch` is the wall clock at instant 0, in milliseconds. */
  function Wall(epoch: nat, now: nat): nat { (epoch + now) / 1000 }

  /** i64 arithmetic of a release build: it wraps. */
  function Wrapped(x: int): int {
    if x > MAX_I64 then x - MAX_U64 - 1 else if x < MIN_I64 then x + MAX_U64 + 1 else x
  }

  /** `(now - ts).abs()`, which leaves the least i64 as it is. */
  function Skew(now: int, ts: int): int {
    var d := Wrapped(now - ts);
    if d < 0 then Wrapped(-d) else d
  }

  predicate InWindow(epoch: nat, r: Request) {
    Skew(Wall(epoch, r.now), r.ts) <= SIG_TIMESTAMP_SKEW_SECS && |r.nonce| <= MAX_NONCE_LEN
  }

  /** The window is 300 seconds either way; and, as the difference wraps, the timestamp exactly 2^63 seconds back
      and those about 2^64 seconds back. */
  lemma InWindowExactlyWhen(epoch: nat, r: Request, seconds: nat)
    requires 1000 * seconds <= epoch + r.now < 1000 * seconds + 1000 && seconds <= 0x7FFF_FFFF_FFFF_FFFF
    ensures var d := seconds - r.ts;
            InWindow(epoch, r) <==>
            && |r.nonce| <= 128
            && (-300 <= d <= 300 || d == 0x8000_0000_0000_0000 || d >= 0x1_0000_0000_0000_0000 - 300)
  {
    var d := seconds - r.ts;
    assert Wall(epoch, r.now) == seconds;
    assert Skew(seconds, r.ts) == if d == MAX_I64 + 1 then MIN_I64
                                             else if d > MAX_I64 then MAX_U64 + 1 - d
                                             else if d < 0 then -d else d;
  }

  /** The map after some requests; only those within the window reach it. */
  function SeenAfter(epoch: nat, rs: seq<Request>): Seen {
    if rs == [] then map[]
    else
      var r := rs[|rs| - 1];
      var seen := SeenAfter(epoch, rs[..|rs| - 1]);
      if InWindow(epoch, r) then Recorded(seen, r.nonce, r.now) else seen
  }

  /** Request k passes the timestamp and nonce checks. */
  predicate Passes(epoch: nat, rs: seq<Request>, k: nat)
    requires k < |rs|
  {
    InWindow(epoch, rs[k]) && IsFresh(SeenAfter(epoch, rs[..k]), rs[k].nonce, rs[k].now)
  }

  ghost predicate Chronological(rs: seq<Request>) { forall i, j :: 0 <= i < j < |rs| ==> rs[i].now <= rs[j].now }

  /** An entry stems from a passed request. */
  ghost predicate Stems(epoch: nat, rs: seq<Request>, n: nat, nonce: Nonce, expires: nat)
    requires n <= |rs|
  {
    exists j :: 0 <= j < n && Passes(epoch, rs, j) && rs[j].nonce == nonce && rs[j].now + NONCE_RETENTION == expires
  }

  /** The map holds every passed request that is still within retention at t, and what it holds unexpired
      stems from one. */
  ghost predicate Holds(epoch: nat, rs: seq<Request>, n: nat, seen: Seen, t: nat)
    requires n <= |rs|
  {
    forall j :: 0 <= j < n && Passes(epoch, rs, j) && rs[j].now + NONCE_RETENTION > t ==>
      rs[j].nonce in seen && seen[rs[j].nonce] >= rs[j].now + NONCE_RETENTION
  }

  ghost predicate Knows(epoch: nat, rs: seq<Request>, n: nat, seen: Seen, t: nat)
    requires n <= |rs|
  {
    && Holds(epoch, rs, n, seen, t)
    && forall nonce :: nonce in seen && seen[nonce] > t ==> Stems(epoch, rs, n, nonce, seen[nonce])
  }

  lemma KnowsLater(epoch: nat, rs: seq<Request>, n: nat, seen: Seen, t: nat, t': nat)
    requires n <= |rs| && Knows(epoch, rs, n, seen, t) && t <= t'
    ensures Knows(epoch, rs, n, seen, t') && Knows(epoch, rs, n, Pruned(seen, t'), t')
  {}

  lemma SeenStep(epoch: nat, rs: seq<Request>, k: nat)
    requires k < |rs|
    ensures SeenAfter(epoch, rs[..k + 1])
            == if InWindow(epoch, rs[k]) then Recorded(SeenAfter(epoch, rs[..k]), rs[k].nonce, rs[k].now)
               else SeenAfter(epoch, rs[..k])
  {
    assert rs[..k + 1][..k] == rs[..k];
  }

  lemma PrunedFresh(seen: Seen, nonce: Nonce, now: nat)
    ensures IsFresh(Pruned(seen, now), nonce, now) == IsFresh(seen, nonce, now)
  {}

  lemma StemsMore(epoch: nat, rs: seq<Request>, n: nat, nonce: Nonce, expires: nat)
    requires n < |rs| && Stems(epoch, rs, n, nonce, expires)
    ensures Stems(epoch, rs, n + 1, nonce, expires)
  {}

  /** Adding a request that passes at its instant. */
  lemma AddPassed(epoch: nat, rs: seq<Request>, k: nat, kept: Seen)
    requires Chronological(rs) && k < |rs| && Passes(epoch, rs, k) && Knows(epoch, rs, k, kept, rs[k].now)
    ensures Knows(epoch, rs, k + 1, kept[rs[k].nonce := rs[k].now + NONCE_RETENTION], rs[k].now)
  {
    var r := rs[k];
    var after := kept[r.nonce := r.now + NONCE_RETENTION];
    forall nonce | nonce in after && after[nonce] > r.now ensures Stems(epoch, rs, k + 1, nonce, after[nonce]) {
      if nonce != r.nonce {
        StemsMore(epoch, rs, k, nonce, kept[nonce]);
      }
    }
  }

  lemma AddRefused(epoch: nat, rs: seq<Request>, k: nat, kept: Seen)
    requires k < |rs| && !Passes(epoch, rs, k) && Knows(epoch, rs, k, kept, rs[k].now)
    ensures Knows(epoch, rs, k + 1, kept, rs[k].now)
  {
    forall nonce | nonce in kept && kept[nonce] > rs[k].now ensures Stems(epoch, rs, k + 1, nonce, kept[nonce]) {
      StemsMore(epoch, rs, k, nonce, kept[nonce]);
    }
  }

  lemma RecordingKnows(epoch: nat, rs: seq<Request>, k: nat, seen: Seen)
    requires Chronological(rs) && k < |rs| && InWindow(epoch, rs[k])
    requires Passes(epoch, rs, k) == IsFresh(seen, rs[k].nonce, rs[k].now)
    requires Knows(epoch, rs, k, seen, rs[k].now)
    ensures Knows(epoch, rs, k + 1, Recorded(seen, rs[k].nonce, rs[k].now), rs[k].now)
  {
    var r := rs[k];
    var kept := Pruned(seen, r.now);
    KnowsLater(epoch, rs, k, seen, r.now, r.now);
    PrunedFresh(seen, r.nonce, r.now);
    if Passes(epoch, rs, k) {
      AddPassed(epoch, rs, k, kept);
    } else {
      AddRefused(epoch, rs, k, kept);
    }
  }

  lemma RecordKnows(epoch: nat, rs: seq<Request>, k: nat)
    requires Chronological(rs) && k < |rs|
    requires Knows(epoch, rs, k, SeenAfter(epoch, rs[..k]), rs[k].now)
    ensures Knows(epoch, rs, k + 1, SeenAfter(epoch, rs[..k + 1]), rs[k].now)
  {
    var seen := SeenAfter(epoch, rs[..k]);
    SeenStep(epoch, rs, k);
    if InWindow(epoch, rs[k]) {
      RecordingKnows(epoch, rs, k, seen);
    } else {
      AddRefused(epoch, rs, k, seen);
    }
  }

  lemma {:induction false} MapKnows(epoch: nat, rs: seq<Request>, k: nat)
    requires Chronological(rs) && k < |rs|
    ensures Knows(epoch, rs, k, SeenAfter(epoch, rs[..k]), rs[k].now)
  {
    if k > 0 {
      MapKnows(epoch, rs, k - 1);
      RecordKnows(epoch, rs, k - 1);
      KnowsLater(epoch, rs, k, SeenAfter(epoch, rs[..k]), rs[k - 1].now, rs[k].now);
    } else {
      assert rs[..0] == [];
    }
  }

  /** The pruned map answers like the whole history, however often it was pruned: a request passes exactly
      when it is within the window and no request with its nonce passed less than 600 s before. */
  lemma PassesExactlyWhen(epoch: nat, rs: seq<Request>, k: nat)
    requires Chronological(rs) && k < |rs|
    ensures Passes(epoch, rs, k) <==>
            && InWindow(epoch, rs[k])
            && forall j :: 0 <= j < k && rs[j].nonce == rs[k].nonce && Passes(epoch, rs, j) ==>
                 rs[k].now - rs[j].now >= 600_000
  {
    MapKnows(epoch, rs, k);
    var seen := SeenAfter(epoch, rs[..k]);
    if InWindow(epoch, rs[k]) && !Passes(epoch, rs, k) {
      assert Stems(epoch, rs, k, rs[k].nonce, seen[rs[k].nonce]);
      var j :| 0 <= j < k && Passes(epoch, rs, j) && rs[j].nonce == rs[k].nonce
               && rs[j].now + NONCE_RETENTION == seen[rs[k].nonce];
    }
  }

  /** One signed request passes twice at most at the two ends of its window: first exactly 300 s before its
      timestamp and then exactly 300 s after it, in whole seconds, and at least 600 s apart; or the second
      time is 2^63 seconds or more after the timestamp. */
  lemma SameRequestTwice(epoch: nat, rs: seq<Request>, j: nat, k: nat)
    requires Chronological(rs) && j < k < |rs| && Wall(epoch, rs[k].now) <= MAX_I64
    requires rs[j].nonce == rs[k].nonce && rs[j].ts == rs[k].ts && Passes(epoch, rs, j) && Passes(epoch, rs, k)
    ensures rs[k].now - rs[j].now >= 600_000
    ensures var first, second := Wall(epoch, rs[j].now) - rs[j].ts, Wall(epoch, rs[k].now) - rs[k].ts;
            || (first == -300 && second == 300)
            || second > MAX_I64
  {
    PassesExactlyWhen(epoch, rs, k);
    InWindowExactlyWhen(epoch, rs[j], Wall(epoch, rs[j].now));
    InWindowExactlyWhen(epoch, rs[k], Wall(epoch, rs[k].now));
  }

  /** The ends of the window do meet: such a pair of presentations passes both times. */
  lemma WindowEndsMeet(epoch: nat, nonce: Nonce, ts: I64, first: nat, second: nat)
    requires |nonce| <= MAX_NONCE_LEN && second - first >= NONCE_RETENTION && Wall(epoch, second) <= MAX_I64
    requires Wall(epoch, first) == ts - SIG_TIMESTAMP_SKEW_SECS && Wall(epoch, second) == ts + SIG_TIMESTAMP_SKEW_SECS
    ensures var rs := [Request(nonce, ts, first), Request(nonce, ts, second)];
            Passes(epoch, rs, 0) && Passes(epoch, rs, 1)
  {
    var rs := [Request(nonce, ts, first), Request(nonce, ts, second)];
    InWindowExactlyWhen(epoch, rs[0], Wall(epoch, first));
    InWindowExactlyWhen(epoch, rs[1], Wall(epoch, second));
    PassesExactlyWhen(epoch, rs, 0);
    PassesExactlyWhen(epoch, rs, 1);
  }
}
