/** The class of `merkle.ts`: a keyed leaf map with cached sorted keys, its root, proofs and verification. */
module MerkleTree {
  import opened Bytes
  import opened Sorting
  import opened MerkleShape

  /** A JavaScript string, as its UTF-16 code units. */
  type Key = Word

  datatype Error = EmptyKey | BadValue | KeyNotFound | BadLeaf | BadRoot | SiblingTooLong

  const ZERO: Digest := [0, 0, 0, 0, 0, 0, 0, 0, 0, 0, 0, 0, 0, 0, 0, 0,
                        0, 0, 0, 0, 0, 0, 0, 0, 0, 0, 0, 0, 0, 0, 0, 0]

  // ----- what a tree with given contents must answer -----

  /** The leaves in key order; `order` is any duplicate-free listing of the keys. */
  function LeavesInOrder(order: seq<Key>, leaves: map<Key, Digest>): (level: Level)
    requires forall k :: k in order ==> k in leaves
    ensures |level| == |order|
    ensures forall i :: 0 <= i < |order| ==> level[i] == leaves[order[i]]
  {
    if order == [] then [] else [leaves[order[0]]] + LeavesInOrder(order[1..], leaves)
  }

  /** The keys in order, from the key set alone. */
  ghost function SortedKeysOf(keys: set<Key>): (s: seq<Key>)
    ensures Sorted(s) && Distinct(s) && Elements(s) == keys
  {
    if keys == {} then []
    else
      SortWithNewKey(AnyOf(keys), SortedKeysOf(keys - {AnyOf(keys)}));
      Sort([AnyOf(keys)] + SortedKeysOf(keys - {AnyOf(keys)}))
  }

  lemma SortWithNewKey(x: Key, s: seq<Key>)
    requires Distinct(s) && x !in Elements(s)
    ensures Sorted(Sort([x] + s)) && Distinct(Sort([x] + s)) && Elements(Sort([x] + s)) == Elements(s) + {x}
  {
    assert Distinct([x] + s);
    SortKeepsElements([x] + s);
  }

  ghost function LevelOf(leaves: map<Key, Digest>): (level: Level)
    ensures |level| == |SortedKeysOf(leaves.Keys)| && (leaves != map[] ==> level != [])
  {
    LeavesInOrder(SortedKeysOf(leaves.Keys), leaves)
  }

  ghost function RootOf(H: Sha, leaves: map<Key, Digest>): Digest {
    if leaves == map[] then ZERO else Root(H, Shape(LevelOf(leaves)))
  }

  /** The root of the recursive tree over the leaves in ascending key order. */
  ghost predicate IsRootInOrder(H: Sha, leaves: map<Key, Digest>, root: Digest) {
    exists keys :: AscendingKeys(keys, leaves.Keys) && keys != [] && root == Root(H, Shape(LeavesInOrder(keys, leaves)))
  }

  lemma RootIsInOrder(H: Sha, leaves: map<Key, Digest>)
    requires leaves != map[]
    ensures IsRootInOrder(H, leaves, RootOf(H, leaves))
  {
    SortedKeysAscend(leaves.Keys);
    assert AscendingKeys(SortedKeysOf(leaves.Keys), leaves.Keys);
  }

  /** `Array.indexOf` for a key that is listed. */
  ghost function Position(keys: seq<Key>, key: Key): (i: nat)
    requires key in keys
    ensures i < |keys| && keys[i] == key
  {
    if keys[0] == key then 0 else 1 + Position(keys[1..], key)
  }

  ghost function IndexOf(key: Key, leaves: map<Key, Digest>): (i: nat)
    requires key in leaves
    ensures i < |LevelOf(leaves)| && LevelOf(leaves)[i] == leaves[key]
  {
    assert key in Elements(SortedKeysOf(leaves.Keys));
    Position(SortedKeysOf(leaves.Keys), key)
  }

  ghost function ProofOf(H: Sha, leaves: map<Key, Digest>, key: Key): seq<Step>
    requires key in leaves
  {
    AuditPath(H, Shape(LevelOf(leaves)), IndexOf(key, leaves))
  }

  lemma RootUpOfLevel(H: Sha, leaves: map<Key, Digest>)
    requires leaves != map[]
    ensures LevelOf(leaves) != [] && RootUp(H, LevelOf(leaves)) == RootOf(H, leaves)
  {
    RootUpIsRoot(H, LevelOf(leaves));
  }

  lemma ProofUpOfLevel(H: Sha, leaves: map<Key, Digest>, key: Key)
    requires key in leaves
    ensures ProofUp(H, LevelOf(leaves), IndexOf(key, leaves)) == ProofOf(H, leaves, key)
  {
    ProofUpIsAuditPath(H, LevelOf(leaves), IndexOf(key, leaves));
  }

  /** `verifyProof`'s answer, or its exception. */
  function Verdict(H: Sha, leaf: Bytes, proof: seq<Step>, root: Bytes): Result<bool, Error> {
    if |leaf| != 32 then Err(BadLeaf)
    else if |root| != 32 then Err(BadRoot)
    else
      match Replay(H, leaf, proof)
      case None => Err(SiblingTooLong)
      case Some(current) => Ok(current == root)
  }

  /** Completeness: every key's own proof is accepted. */
  lemma OwnProofAccepted(H: Sha, leaves: map<Key, Digest>, key: Key)
    requires key in leaves
    ensures Verdict(H, leaves[key], ProofOf(H, leaves, key), RootOf(H, leaves)) == Ok(true)
  {
    ShapeHoldsLeaves(LevelOf(leaves));
    Completeness(H, Shape(LevelOf(leaves)), IndexOf(key, leaves));
  }

  /** Soundness: an accepted proof with the left/right list of `key`'s own proof carries that key's leaf
      and, cut or padded to 32 bytes, that key's siblings; or two hashed strings collide. */
  lemma AcceptedProofIsGenuine(H: Sha, leaves: map<Key, Digest>, key: Key, leaf: Bytes, proof: seq<Step>)
    requires key in leaves && Verdict(H, leaf, proof, RootOf(H, leaves)) == Ok(true)
    requires Positions(proof) == Positions(ProofOf(H, leaves, key))
    ensures
      || (leaf == leaves[key] && FittedProof(proof) == ProofOf(H, leaves, key))
      || Collide(H, ReplayInputs(H, leaf, proof), TreeInputs(H, Shape(LevelOf(leaves))))
    ensures (forall s :: s in proof ==> |s.hash| == 32) ==> FittedProof(proof) == proof
  {
    var level, i := LevelOf(leaves), IndexOf(key, leaves);
    ShapeHoldsLeaves(level);
    Soundness(H, Shape(level), leaf, proof);
    PositionsOfAuditPath(H, Shape(level), i);
    LandInvertsPositions(Shape(level), i, Positions(proof));
    FullSiblingsFit(proof);
  }

  lemma FullSiblingsFit(proof: seq<Step>)
    ensures (forall s :: s in proof ==> |s.hash| == 32) ==> FittedProof(proof) == proof
  {
    if forall s :: s in proof ==> |s.hash| == 32 {
      forall j | 0 <= j < |proof| ensures FittedProof(proof)[j] == proof[j] {
        assert proof[j] in proof;
        FittedDigest(proof[j].hash);
      }
    }
  }

  /** Different keys never share a left/right list, nor is one list the tail of another. */
  lemma ListIdentifiesKey(H: Sha, leaves: map<Key, Digest>, j: Key, k: Key)
    requires j in leaves && k in leaves && j != k
    ensures !IsSuffix(Positions(ProofOf(H, leaves, j)), Positions(ProofOf(H, leaves, k)))
  {
    var t := Shape(LevelOf(leaves));
    PositionsOfAuditPath(H, t, IndexOf(j, leaves));
    PositionsOfAuditPath(H, t, IndexOf(k, leaves));
    SuffixFree(t, IndexOf(j, leaves), IndexOf(k, leaves));
  }

  /** One root binds one leaf map, among maps with the same keys. */
  lemma RootBindsLeaves(H: Sha, m: map<Key, Digest>, n: map<Key, Digest>)
    requires m.Keys == n.Keys && RootOf(H, m) == RootOf(H, n)
    ensures m == n || Collide(H, TreeInputs(H, Shape(LevelOf(m))), TreeInputs(H, Shape(LevelOf(n))))
    decreases m
  {
    if m != map[] {
      var keys := SortedKeysOf(m.Keys);
      RootBinds(H, LevelOf(m), LevelOf(n));
      if LevelOf(m) == LevelOf(n) {
        forall k | k in m ensures m[k] == n[k] {
          var i := IndexOf(k, m);
          assert LevelOf(m)[i] == m[keys[i]] && LevelOf(n)[i] == n[keys[i]];
        }
      }
    }
  }

  // ----- histories -----

  datatype Op = Insert(key: Key, value: Bytes) | Remove(key: Key) | Query

  /** The fields of the class: the JavaScript map with its insertion order, and the key cache. */
  datatype Store = Store(order: seq<Key>, leaves: map<Key, Digest>, cache: Option<seq<Key>>)

  const EMPTY := Store([], map[], None)

  ghost predicate ValidStore(s: Store) {
    && Distinct(s.order)
    && Elements(s.order) == s.leaves.Keys
    && (s.cache.Some? ==> s.cache.value == Sort(s.order))
  }

  function Without(order: seq<Key>, key: Key): (r: seq<Key>)
  {
    if order == [] then []
    else
      Without(order[..|order| - 1], key) + if order[|order| - 1] == key then [] else [order[|order| - 1]]
  }

  lemma {:induction false} WithoutRemoves(order: seq<Key>, key: Key)
    ensures Elements(Without(order, key)) == Elements(order) - {key}
    ensures Distinct(order) ==> Distinct(Without(order, key))
  {
    if order != [] {
      var front, last := order[..|order| - 1], order[|order| - 1];
      WithoutRemoves(front, key);
      assert order == front + [last];
      assert Elements(order) == Elements(front) + {last};
      assert Elements(Without(front, key) + [last]) == Elements(Without(front, key)) + {last};
      assert Distinct(order) ==> last !in Elements(front);
    }
  }

  function Inserted(s: Store, key: Key, value: Digest): Store {
    Store(if key in s.leaves then s.order else s.order + [key], s.leaves[key := value], None)
  }

  function Removed(s: Store, key: Key): Store {
    if key in s.leaves then Store(Without(s.order, key), s.leaves - {key}, None) else s
  }

  function Queried(s: Store): Store {
    if s.cache.None? then s.(cache := Some(Sort(s.order))) else s
  }

  function Apply(s: Store, op: Op): Store {
    match op
    case Insert(key, value) => if key == [] || |value| != 32 then s else Inserted(s, key, value)
    case Remove(key) => Removed(s, key)
    case Query => Queried(s)
  }

  lemma ApplyKeepsValid(s: Store, op: Op)
    requires ValidStore(s)
    ensures ValidStore(Apply(s, op))
  {
    match op
    case Insert(key, value) => assert Elements(s.order + [key]) == Elements(s.order) + {key};
    case Remove(key) => WithoutRemoves(s.order, key);
    case Query =>
  }

  function Run(s: Store, ops: seq<Op>): Store {
    if ops == [] then s else Apply(Run(s, ops[..|ops| - 1]), ops[|ops| - 1])
  }

  lemma {:induction false} RunKeepsValid(s: Store, ops: seq<Op>)
    requires ValidStore(s)
    ensures ValidStore(Run(s, ops))
  {
    if ops != [] {
      RunKeepsValid(s, ops[..|ops| - 1]);
      ApplyKeepsValid(Run(s, ops[..|ops| - 1]), ops[|ops| - 1]);
    }
  }

  /** The keys in question, in ascending order of code units: each precedes all that follow. */
  ghost predicate AscendingKeys(keys: seq<Key>, all: set<Key>) {
    && (forall k :: k in keys <==> k in all)
    && forall i, j :: 0 <= i < j < |keys| ==> Precedes(keys[i], keys[j])
  }

  lemma SortedKeysAscend(all: set<Key>)
    ensures AscendingKeys(SortedKeysOf(all), all)
  {
    var keys := SortedKeysOf(all);
    forall k ensures k in keys <==> k in all {
      assert k in keys <==> k in Elements(keys);
    }
    forall i, j | 0 <= i < j < |keys| ensures Precedes(keys[i], keys[j]) {
      SortedPrecedes(keys, i, j);
    }
  }

  /** The keys the class works on are the sorted key set, whatever the insertion order or the cache. */
  lemma SortedKeysAreCanonical(s: Store)
    requires ValidStore(s)
    ensures Queried(s).cache == Some(SortedKeysOf(s.leaves.Keys))
    ensures AscendingKeys(Queried(s).cache.value, s.leaves.Keys)
  {
    SortKeepsElements(s.order);
    SortedUnique(Sort(s.order), SortedKeysOf(s.leaves.Keys));
    SortedKeysAscend(s.leaves.Keys);
  }

  /** What `getRoot` computes from the fields: levels over the cached keys, or over freshly sorted ones. */
  function StoredRoot(H: Sha, s: Store): Digest
    requires forall k :: k in Queried(s).cache.value ==> k in s.leaves
  {
    var level := LeavesInOrder(Queried(s).cache.value, s.leaves);
    if level == [] then ZERO else RootUp(H, level)
  }

  /** History independence and the cache's refinement: after any history the fields give the root of the
      final map alone, and list the keys in the one order every other history of that map would. */
  lemma HistoryIndependence(H: Sha, ops: seq<Op>)
    ensures var s := Run(EMPTY, ops);
            && Queried(s).cache == Some(SortedKeysOf(s.leaves.Keys))
            && AscendingKeys(Queried(s).cache.value, s.leaves.Keys)
            && (forall k :: k in Queried(s).cache.value ==> k in s.leaves)
            && LeavesInOrder(Queried(s).cache.value, s.leaves) == LevelOf(s.leaves)
            && StoredRoot(H, s) == RootOf(H, s.leaves)
  {
    var s := Run(EMPTY, ops);
    RunKeepsValid(EMPTY, ops);
    SortedKeysAreCanonical(s);
    assert forall k :: k in SortedKeysOf(s.leaves.Keys) ==> k in Elements(SortedKeysOf(s.leaves.Keys));
    if s.leaves != map[] {
      RootUpOfLevel(H, s.leaves);
    }
  }

  /** Verification throws exactly when some sibling does not fit into its half of the buffer, or, on the left,
      into the buffer. */
  lemma {:induction false} ReplayThrowsExactlyWhen(H: Sha, leaf: Bytes, proof: seq<Step>)
    ensures |leaf| == 32 ==>
              (Replay(H, leaf, proof).None? <==>
               exists s :: s in proof && |s.hash| > if s.position == Left then 64 else 32)
  {
    if |leaf| == 32 && proof != [] {
      var front, last := proof[..|proof| - 1], proof[|proof| - 1];
      ReplayThrowsExactlyWhen(H, leaf, front);
      assert proof == front + [last];
      assert forall s :: s in proof <==> s in front || s == last;
    }
  }

  // ----- one step of the level loops -----

  lemma PairAppended(H: Sha, level: Level, i: nat)
    requires i % 2 == 0 && i + 1 < |level|
    ensures NextLevel(H, level[..i + 2]) == NextLevel(H, level[..i]) + [HashPair(H, level[i], level[i + 1])]
  {
    var pair := level[i..i + 2];
    assert pair[2..] == [];
    NextLevelConcat(H, level[..i + 2], level[..i], pair);
  }

  lemma OddAppended(H: Sha, level: Level, i: nat)
    requires i % 2 == 0 && i + 1 == |level|
    ensures NextLevel(H, level) == NextLevel(H, level[..i]) + [level[i]]
  {
    var front, last := level[..i], [level[i]];
    NextLevelConcat(H, level, front, last);
  }

  // ----- the class -----

  class MerkleTree {
    const H: Sha
    var order: seq<Key>
    var leaves: map<Key, Digest>
    var sortedKeys: Option<seq<Key>>

    ghost function State(): Store
      reads this
    {
      Store(order, leaves, sortedKeys)
    }

    constructor (H: Sha)
      ensures this.H == H && State() == EMPTY && ValidStore(State())
    {
      this.H := H;
      order, leaves, sortedKeys := [], map[], None;
    }

    method Insert(key: Key, value: Bytes) returns (r: Result<(), Error>)
      requires ValidStore(State())
      modifies this
      ensures ValidStore(State()) && State() == Apply(old(State()), Op.Insert(key, value))
      ensures r == if key == [] then Err(EmptyKey) else if |value| != 32 then Err(BadValue) else Ok(())
      ensures r.Ok? ==> leaves == old(leaves)[key := value]
      ensures r.Err? ==> State() == old(State())
    {
      if key == [] {
        return Err(EmptyKey);
      }
      if |value| != 32 {
        return Err(BadValue);
      }
      ApplyKeepsValid(State(), Op.Insert(key, value));
      if key !in leaves {
        order := order + [key];
      }
      leaves := leaves[key := value];
      sortedKeys := None;
      return Ok(());
    }

    method Remove(key: Key)
      requires ValidStore(State())
      modifies this
      ensures ValidStore(State()) && State() == Apply(old(State()), Op.Remove(key))
      ensures leaves == old(leaves) - {key}
    {
      ApplyKeepsValid(State(), Op.Remove(key));
      if key in leaves {
        order := Without(order, key);
        leaves := leaves - {key};
        sortedKeys := None;
      }
    }

    method GetSortedKeys() returns (keys: seq<Key>)
      requires ValidStore(State())
      modifies this`sortedKeys
      ensures ValidStore(State()) && State() == Apply(old(State()), Query)
      ensures sortedKeys == Some(keys) && keys == SortedKeysOf(leaves.Keys)
      ensures leaves == old(leaves) && forall k :: k in keys <==> k in leaves
      ensures forall i, j :: 0 <= i < j < |keys| ==> Precedes(keys[i], keys[j])
    {
      SortedKeysAreCanonical(State());
      if sortedKeys.None? {
        sortedKeys := Some(Sort(order));
      }
      keys := sortedKeys.value;
    }

    /** One round of the level loop of `getRoot`. */
    method Pair(level: Level) returns (next: Level)
      ensures next == NextLevel(H, level)
    {
      next := [];
      var i := 0;
      while i < |level|
        invariant i % 2 == 0 && i <= |level| + 1
        invariant next == NextLevel(H, if i <= |level| then level[..i] else level)
      {
        if i + 1 < |level| {
          PairAppended(H, level, i);
          next := next + [HashPair(H, level[i], level[i + 1])];
        } else {
          OddAppended(H, level, i);
          next := next + [level[i]];
        }
        i := i + 2;
      }
      assert level[..|level|] == level;
    }

    /** The level loop of `getRoot`. */
    method Fold(leafLevel: Level) returns (root: Digest)
      requires leafLevel != []
      ensures root == RootUp(H, leafLevel)
    {
      var level := leafLevel;
      while |level| > 1
        invariant level != [] && RootUp(H, level) == RootUp(H, leafLevel)
        decreases |level|
      {
        level := Pair(level);
      }
      root := level[0];
    }

    method GetRoot() returns (root: Digest)
      requires ValidStore(State())
      modifies this`sortedKeys
      ensures ValidStore(State()) && leaves == old(leaves) && root == RootOf(H, leaves)
      ensures leaves == map[] ==> forall i :: 0 <= i < 32 ==> root[i] == 0
      ensures leaves != map[] ==> IsRootInOrder(H, leaves, root)
    {
      if |leaves| == 0 {
        return ZERO;
      }
      var keys := GetSortedKeys();
      RootUpOfLevel(H, leaves);
      RootIsInOrder(H, leaves);
      root := Fold(LeavesInOrder(keys, leaves));
    }

    /** The level loop of `getProof`. */
    method Climb(leafLevel: Level, leafIndex: nat) returns (proof: seq<Step>)
      requires leafIndex < |leafLevel|
      ensures proof == ProofUp(H, leafLevel, leafIndex)
    {
      var level: Level, targetIdx: nat := leafLevel, leafIndex;
      proof := [];
      while |level| > 1
        invariant targetIdx < |level|
        invariant proof + ProofUp(H, level, targetIdx) == ProofUp(H, leafLevel, leafIndex)
        decreases |level|
      {
        var entry, next, nextIdx := PairWithProof(level, targetIdx);
        assert (proof + entry) + ProofUp(H, next, nextIdx) == proof + (entry + ProofUp(H, next, nextIdx));
        proof, level, targetIdx := proof + entry, next, nextIdx;
      }
      assert proof + [] == proof;
    }

    method GetProof(key: Key) returns (r: Result<seq<Step>, Error>)
      requires ValidStore(State())
      modifies this`sortedKeys
      ensures ValidStore(State())
      ensures r == if key in leaves then Ok(ProofOf(H, leaves, key)) else Err(KeyNotFound)
      ensures leaves == old(leaves) && (r.Ok? <==> key in leaves)
      ensures r.Ok? ==> Verdict(H, leaves[key], r.value, RootOf(H, leaves)) == Ok(true)
    {
      if key !in leaves {
        return Err(KeyNotFound);
      }
      ProofUpOfLevel(H, leaves, key);
      OwnProofAccepted(H, leaves, key);
      if |leaves| == 1 {
        ElementCount(SortedKeysOf(leaves.Keys));
        return Ok([]);
      }
      var keys := GetSortedKeys();
      var leafIndex := FindKey(keys, key);
      assert leafIndex == IndexOf(key, leaves);
      var proof := Climb(LeavesInOrder(keys, leaves), leafIndex);
      return Ok(proof);
    }

    /** `keys.indexOf(key)` on a list that holds the key. */
    method FindKey(keys: seq<Key>, key: Key) returns (i: nat)
      requires key in keys
      ensures i < |keys| && keys[i] == key
    {
      i := 0;
      while i < |keys| && keys[i] != key
        invariant i <= |keys| && forall j :: 0 <= j < i ==> keys[j] != key
      {
        i := i + 1;
      }
    }

    /** One round of the level loop of `getProof`: the proof entry, the next level, the target's place in it. */
    method PairWithProof(level: Level, targetIdx: nat) returns (entry: seq<Step>, next: Level, nextIdx: nat)
      requires |level| > 1 && targetIdx < |level|
      ensures entry == Sibling(level, targetIdx) && next == NextLevel(H, level) && nextIdx == targetIdx / 2
    {
      entry, next := [], [];
      var nextTargetIdx := -1;
      var i := 0;
      while i < |level|
        invariant i % 2 == 0 && i <= |level| + 1
        invariant next == NextLevel(H, if i <= |level| then level[..i] else level)
        invariant entry == if targetIdx < i then Sibling(level, targetIdx) else []
        invariant nextTargetIdx == if targetIdx < i then targetIdx / 2 else -1
      {
        var pairIdx := i / 2;
        if i + 1 < |level| {
          if i == targetIdx {
            entry, nextTargetIdx := entry + [Step(level[i + 1], Right)], pairIdx;
          } else if i + 1 == targetIdx {
            entry, nextTargetIdx := entry + [Step(level[i], Left)], pairIdx;
          }
          PairAppended(H, level, i);
          next := next + [HashPair(H, level[i], level[i + 1])];
        } else {
          if i == targetIdx {
            nextTargetIdx := pairIdx;
          }
          OddAppended(H, level, i);
          next := next + [level[i]];
        }
        i := i + 2;
      }
      assert level[..|level|] == level;
      nextIdx := nextTargetIdx;
    }

    static method VerifyProof(H: Sha, leaf: Bytes, proof: seq<Step>, root: Bytes) returns (r: Result<bool, Error>)
      ensures r == Verdict(H, leaf, proof, root)
      ensures r == Err(BadLeaf) <==> |leaf| != 32
      ensures r == Err(BadRoot) <==> |leaf| == 32 && |root| != 32
      ensures r == Err(SiblingTooLong) <==>
                && |leaf| == 32 && |root| == 32
                && exists s :: s in proof && |s.hash| > if s.position == Left then 64 else 32
    {
      ReplayThrowsExactlyWhen(H, leaf, proof);
      if |leaf| != 32 {
        return Err(BadLeaf);
      }
      if |root| != 32 {
        return Err(BadRoot);
      }
      var current: Digest := leaf;
      for i := 0 to |proof|
        invariant Replay(H, leaf, proof[..i]) == Some(current)
      {
        assert proof[..i + 1][..i] == proof[..i];
        if Throws(proof[i]) {
          ReplayStaysNone(H, leaf, proof, i + 1);
          return Err(SiblingTooLong);
        }
        current := H(StepInput(current, proof[i]));
      }
      assert proof[..|proof|] == proof;
      var same := ConstantTimeEqual(current, root);
      return Ok(same);
    }
  }

  lemma {:induction false} ReplayStaysNone(H: Sha, leaf: Digest, proof: seq<Step>, i: nat)
    requires i <= |proof| && Replay(H, leaf, proof[..i]).None?
    ensures Replay(H, leaf, proof).None?
    decreases |proof| - i
  {
    if i == |proof| {
      assert proof[..i] == proof;
    } else {
      assert proof[..i + 1][..i] == proof[..i];
      ReplayStaysNone(H, leaf, proof, i + 1);
    }
  }

  lemma {:induction false} ElementCount(s: seq<Key>)
    requires Distinct(s)
    ensures |Elements(s)| == |s|
  {
    if s != [] {
      var n := |s| - 1;
      ElementCount(s[..n]);
      assert s == s[..n] + [s[n]];
      assert Elements(s) == Elements(s[..n]) + {s[n]};
    }
  }
}
