/** The WAL hash chain of `wal.ts`: `computeWALHash` and `verifyWALChain`. */
module WalChain {
  import opened Bytes

  datatype Entry = Entry(data: Bytes, hash: Bytes)

  /** The bytes hashed for one entry: the previous hash, when there is one, before the data. */
  function Linked(previous: Option<Digest>, data: Bytes): Bytes {
    match previous
    case None => data
    case Some(p) => p + data
  }

  function ComputeWalHash(H: Sha, data: Bytes, previous: Option<Digest>): Digest {
    H(Linked(previous, data))
  }

  /** The chain hash after all the given segments; none for no segment. */
  function ChainHead(H: Sha, datas: seq<Bytes>): (head: Option<Digest>)
    ensures head.None? <==> datas == []
  {
    if datas == [] then None
    else Some(ComputeWalHash(H, datas[|datas| - 1], ChainHead(H, datas[..|datas| - 1])))
  }

  function Datas(entries: seq<Entry>): (ds: seq<Bytes>)
    ensures |ds| == |entries|
    ensures forall i :: 0 <= i < |ds| ==> ds[i] == entries[i].data
  {
    if entries == [] then [] else Datas(entries[..|entries| - 1]) + [entries[|entries| - 1].data]
  }

  /** The chain that iterating `computeWALHash` over the segments builds. */
  function Build(H: Sha, datas: seq<Bytes>): (entries: seq<Entry>)
    ensures |entries| == |datas|
  {
    if datas == [] then []
    else Build(H, datas[..|datas| - 1]) + [Entry(datas[|datas| - 1], ChainHead(H, datas).value)]
  }

  lemma {:induction false} DatasOfBuild(H: Sha, datas: seq<Bytes>)
    ensures Datas(Build(H, datas)) == datas
  {
    if datas != [] {
      var front := datas[..|datas| - 1];
      DatasOfBuild(H, front);
      var built := Build(H, datas);
      assert built[..|built| - 1] == Build(H, front);
      assert Datas(built) == front + [datas[|datas| - 1]];
    }
  }

  /** The strings hashed while building or checking the chain. */
  ghost function ChainInputs(H: Sha, datas: seq<Bytes>): set<Bytes> {
    if datas == [] then {}
    else
      ChainInputs(H, datas[..|datas| - 1]) +
      {Linked(ChainHead(H, datas[..|datas| - 1]), datas[|datas| - 1])}
  }

  /** A prefix of an accepted chain is the accepted chain of the shorter segment list. */
  lemma {:induction false} BuildPrefix(H: Sha, datas: seq<Bytes>, n: nat)
    requires n <= |datas|
    ensures Build(H, datas)[..n] == Build(H, datas[..n])
  {
    if n == |datas| {
      assert datas[..n] == datas;
    } else {
      BuildPrefix(H, datas[..|datas| - 1], n);
      assert datas[..|datas| - 1][..n] == datas[..n];
    }
  }

  lemma BuildSnoc(H: Sha, datas: seq<Bytes>, front: seq<Bytes>, last: Bytes)
    requires datas == front + [last]
    ensures ChainHead(H, datas) == Some(ComputeWalHash(H, last, ChainHead(H, front)))
    ensures Build(H, datas) == Build(H, front) + [Entry(last, ComputeWalHash(H, last, ChainHead(H, front)))]
  {
    assert datas[..|datas| - 1] == front;
  }

  lemma SnocEqual(all: seq<Entry>, front: seq<Entry>, built: seq<Entry>, x: Entry, y: Entry)
    requires all == front + [x]
    ensures all == built + [y] <==> front == built && x == y
  {
    if all == built + [y] {
      assert |front| == |built|;
      assert all[..|front|] == front && (built + [y])[..|built|] == built;
      assert all[|front|] == x && (built + [y])[|built|] == y;
    }
  }

  /** One more entry agrees with the chain exactly when it carries the next chain hash. */
  lemma EntryExtends(H: Sha, segments: seq<Entry>, datas: seq<Bytes>, i: nat)
    requires |datas| == |segments| && i < |segments| && datas[i] == segments[i].data
    requires segments[..i] == Build(H, datas[..i])
    ensures var next := ComputeWalHash(H, segments[i].data, ChainHead(H, datas[..i]));
            && ChainHead(H, datas[..i + 1]) == Some(next)
            && (segments[i].hash == next <==> segments[..i + 1] == Build(H, datas[..i + 1]))
            && (segments[i].hash != next ==> segments != Build(H, datas))
  {
    var next := ComputeWalHash(H, segments[i].data, ChainHead(H, datas[..i]));
    BuildSnoc(H, datas[..i + 1], datas[..i], datas[i]);
    SnocEqual(segments[..i + 1], segments[..i], Build(H, datas[..i]), segments[i], Entry(segments[i].data, next));
    BuildPrefix(H, datas, i + 1);
  }

  /** Entry i carries the hash of its predecessor's hash, if there is one, and its own data. */
  ghost predicate LinkHolds(H: Sha, segments: seq<Entry>, i: nat)
    requires i < |segments|
  {
    segments[i].hash == if i == 0 then H(segments[i].data) else H(segments[i - 1].hash + segments[i].data)
  }

  lemma LinkIsNext(H: Sha, segments: seq<Entry>, datas: seq<Bytes>, i: nat)
    requires |datas| == |segments| && i < |segments|
    requires i > 0 ==> ChainHead(H, datas[..i]) == Some(segments[i - 1].hash)
    ensures LinkHolds(H, segments, i)
            <==> segments[i].hash == ComputeWalHash(H, segments[i].data, ChainHead(H, datas[..i]))
  {
    assert i == 0 ==> datas[..i] == [];
  }

  lemma {:induction false} LinkedPrefix(H: Sha, segments: seq<Entry>, datas: seq<Bytes>, n: nat)
    requires |datas| == |segments| && n <= |segments| && forall i :: 0 <= i < n ==> datas[i] == segments[i].data
    ensures segments[..n] == Build(H, datas[..n]) <==> forall i: nat :: i < n ==> LinkHolds(H, segments, i)
    ensures segments[..n] == Build(H, datas[..n]) && n > 0 ==> ChainHead(H, datas[..n]) == Some(segments[n - 1].hash)
  {
    if n > 0 {
      var i := n - 1;
      LinkedPrefix(H, segments, datas, i);
      if segments[..i] == Build(H, datas[..i]) {
        EntryExtends(H, segments, datas, i);
        LinkIsNext(H, segments, datas, i);
        assert segments[..i + 1] == Build(H, datas[..i + 1]) <==> LinkHolds(H, segments, i);
      } else if segments[..n] == Build(H, datas[..n]) {
        PrefixNeeded(H, segments, datas, n);
      }
    }
  }

  lemma PrefixNeeded(H: Sha, segments: seq<Entry>, datas: seq<Bytes>, n: nat)
    requires |datas| == |segments| && 0 < n <= |segments| && segments[..n] == Build(H, datas[..n])
    ensures segments[..n - 1] == Build(H, datas[..n - 1])
  {
    BuildPrefix(H, datas[..n], n - 1);
    assert datas[..n][..n - 1] == datas[..n - 1] && segments[..n][..n - 1] == segments[..n - 1];
  }

  /** Accepts exactly the chains that iterating `computeWALHash` builds. */
  method VerifyWalChain(H: Sha, segments: seq<Entry>) returns (ok: bool)
    ensures ok <==> segments == Build(H, Datas(segments))
    ensures ok <==> forall i: nat :: i < |segments| ==> LinkHolds(H, segments, i)
  {
    LinkedPrefix(H, segments, Datas(segments), |segments|);
    assert segments[..|segments|] == segments && Datas(segments)[..|segments|] == Datas(segments);
    var previousHash: Option<Digest> := None;
    for i := 0 to |segments|
      invariant segments[..i] == Build(H, Datas(segments)[..i])
      invariant previousHash == ChainHead(H, Datas(segments)[..i])
    {
      var entry := segments[i];
      EntryExtends(H, segments, Datas(segments), i);
      if |entry.hash| != 32 {
        return false;
      }
      var expectedHash := ComputeWalHash(H, entry.data, previousHash);
      var same := ConstantTimeEqual(expectedHash, entry.hash);
      if !same {
        return false;
      }
      previousHash := Some(entry.hash);
    }
    assert segments[..|segments|] == segments && Datas(segments)[..|segments|] == Datas(segments);
    return true;
  }

  /** Binding: equally long segment lists with one chain head are the same list, or their chains collide. */
  lemma {:induction false} HeadBinds(H: Sha, s: seq<Bytes>, t: seq<Bytes>)
    requires |s| == |t| && ChainHead(H, s) == ChainHead(H, t)
    ensures s == t || Collide(H, ChainInputs(H, s), ChainInputs(H, t))
  {
    if s != [] {
      var n := |s| - 1;
      var p, q := ChainHead(H, s[..n]), ChainHead(H, t[..n]);
      var x, y := Linked(p, s[n]), Linked(q, t[n]);
      assert x in ChainInputs(H, s) && y in ChainInputs(H, t) && H(x) == H(y);
      if x == y {
        if n > 0 {
          SplitConcat(p.value, s[n], q.value, t[n]);
        }
        HeadBinds(H, s[..n], t[..n]);
        if s[..n] == t[..n] {
          assert s == s[..n] + [s[n]] && t == t[..n] + [t[n]];
        } else {
          CollideMonotone(H, ChainInputs(H, s[..n]), ChainInputs(H, t[..n]), ChainInputs(H, s), ChainInputs(H, t));
        }
      }
    }
  }

  /** Two accepted chains of one length that end in one hash are the same chain, or an explicit collision. */
  lemma AcceptedChainsBind(H: Sha, s: seq<Bytes>, t: seq<Bytes>)
    requires |s| == |t| > 0 && Build(H, s)[|s| - 1].hash == Build(H, t)[|t| - 1].hash
    ensures Build(H, s) == Build(H, t) || Collide(H, ChainInputs(H, s), ChainInputs(H, t))
  {
    HeadBinds(H, s, t);
  }

  /** Equal length is needed: one segment that starts with a chain hash stands for a longer chain. */
  lemma LengthMatters(H: Sha, s: seq<Bytes>, d: Bytes)
    requires s != []
    ensures ChainHead(H, s + [d]) == ChainHead(H, [ChainHead(H, s).value + d]) && |s + [d]| != 1
  {
    assert (s + [d])[..|s|] == s;
    assert [ChainHead(H, s).value + d][..0] == [];
  }
}
