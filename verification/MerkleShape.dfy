/** The shape of `merkle.ts`: levels built bottom-up with the odd node promoted, against the recursive
    tree of RFC 6962 (section 2.1, audit paths of section 2.1.1) without its prefix bytes. */
module MerkleShape {
  import opened Bytes

  datatype Position = Left | Right
  datatype Step = Step(hash: Bytes, position: Position)

  type Level = seq<Digest>

  // ----- hashPair -----

  /** `hashPair`'s 64-byte buffer: `left` written at 0, then `right` written at 32 over it. */
  function Buffer(left: Bytes, right: Bytes): (b: Bytes)
    requires |left| <= 64 && |right| <= 32
    ensures |b| == 64
  {
    seq(64, i requires 0 <= i < 64 =>
      if 32 <= i < 32 + |right| then right[i - 32] else if i < |left| then left[i] else 0)
  }

  /** Node hash of two 32-byte children. */
  function HashPair(H: Sha, left: Digest, right: Digest): Digest { H(left + right) }

  /** What a sibling of any length contributes to the buffer: 32 bytes, cut off or zero-padded. */
  function Fitted(s: Bytes): Digest {
    seq(32, i requires 0 <= i < 32 => if i < |s| then s[i] else 0)
  }

  function FittedProof(proof: seq<Step>): (p: seq<Step>)
    ensures |p| == |proof|
    ensures forall i :: 0 <= i < |p| ==> p[i] == Step(Fitted(proof[i].hash), proof[i].position)
  {
    seq(|proof|, i requires 0 <= i < |proof| => Step(Fitted(proof[i].hash), proof[i].position))
  }

  function Positions(proof: seq<Step>): (p: seq<Position>)
    ensures |p| == |proof|
    ensures forall i :: 0 <= i < |p| ==> p[i] == proof[i].position
  {
    seq(|proof|, i requires 0 <= i < |proof| => proof[i].position)
  }

  /** `Uint8Array.set` throws when the bytes do not fit into the 64-byte buffer. */
  predicate Throws(step: Step) {
    if step.position.Left? then |step.hash| > 64 else |step.hash| > 32
  }

  /** The buffer that `verifyProof` hashes for one step. */
  function StepInput(current: Digest, step: Step): Bytes
    requires !Throws(step)
  {
    if step.position.Left? then Buffer(step.hash, current) else Buffer(current, step.hash)
  }

  lemma StepInputFits(current: Digest, step: Step)
    requires !Throws(step)
    ensures StepInput(current, step) ==
            if step.position.Left? then Fitted(step.hash) + current else current + Fitted(step.hash)
  {
    var both := if step.position.Left? then Fitted(step.hash) + current else current + Fitted(step.hash);
    forall i | 0 <= i < 64 ensures StepInput(current, step)[i] == both[i] {}
  }

  lemma FittedDigest(d: Digest)
    ensures Fitted(d) == d
  {}

  // ----- levels, bottom-up -----

  function NextLevel(H: Sha, level: Level): (next: Level)
    ensures |next| == (|level| + 1) / 2
  {
    if |level| <= 1 then level
    else [HashPair(H, level[0], level[1])] + NextLevel(H, level[2..])
  }

  function RootUp(H: Sha, level: Level): Digest
    requires level != []
    decreases |level|
  {
    if |level| == 1 then level[0] else RootUp(H, NextLevel(H, level))
  }

  /** The proof entry one level contributes: none for a promoted odd node. */
  function Sibling(level: Level, i: nat): seq<Step>
    requires i < |level|
  {
    if i % 2 == 1 then [Step(level[i - 1], Left)]
    else if i + 1 < |level| then [Step(level[i + 1], Right)]
    else []
  }

  function ProofUp(H: Sha, level: Level, i: nat): seq<Step>
    requires i < |level|
    decreases |level|
  {
    if |level| == 1 then [] else Sibling(level, i) + ProofUp(H, NextLevel(H, level), i / 2)
  }

  lemma {:induction false} NextLevelConcat(H: Sha, level: Level, a: Level, b: Level)
    requires level == a + b && |a| % 2 == 0
    ensures NextLevel(H, level) == NextLevel(H, a) + NextLevel(H, b)
    decreases |a|
  {
    if a == [] {
      assert level == b;
    } else {
      assert level[2..] == a[2..] + b;
      NextLevelConcat(H, level[2..], a[2..], b);
    }
  }

  // ----- the recursive tree -----

  ghost predicate IsPow2(k: nat) { k == 1 || (k > 1 && k % 2 == 0 && IsPow2(k / 2)) }

  /** The largest power of two below n. */
  function Split(n: nat): (k: nat)
    requires n >= 2
    ensures 0 < k < n <= 2 * k
  {
    if n == 2 then 1 else 2 * Split((n + 1) / 2)
  }

  lemma {:induction false} SplitIsLargestPow2(n: nat)
    requires n >= 2
    ensures IsPow2(Split(n)) && forall k: nat :: IsPow2(k) && k < n ==> k <= Split(n)
  {
    if n > 2 {
      SplitIsLargestPow2((n + 1) / 2);
      forall k: nat | IsPow2(k) && k < n ensures k <= Split(n) {
        if k > 1 {
          assert IsPow2(k / 2) && k / 2 < (n + 1) / 2;
        }
      }
    }
  }

  datatype Tree = Leaf(value: Digest) | Node(left: Tree, right: Tree)

  /** The tree of RFC 6962, section 2.1: split the leaves at the largest power of two below their number. */
  function Shape(leaves: Level): (t: Tree)
    requires leaves != []
    ensures Size(t) == |leaves|
  {
    if |leaves| == 1 then Leaf(leaves[0])
    else Node(Shape(leaves[..Split(|leaves|)]), Shape(leaves[Split(|leaves|)..]))
  }

  function Size(t: Tree): (n: nat)
    ensures n > 0
  {
    match t
    case Leaf(_) => 1
    case Node(l, r) => Size(l) + Size(r)
  }

  function Values(t: Tree): (vs: Level)
    ensures |vs| == Size(t)
  {
    match t
    case Leaf(v) => [v]
    case Node(l, r) => Values(l) + Values(r)
  }

  function Root(H: Sha, t: Tree): Digest {
    match t
    case Leaf(v) => v
    case Node(l, r) => HashPair(H, Root(H, l), Root(H, r))
  }

  /** The audit path of RFC 6962, section 2.1.1, from the leaf upwards. */
  function AuditPath(H: Sha, t: Tree, i: nat): seq<Step>
    requires i < Size(t)
  {
    match t
    case Leaf(_) => []
    case Node(l, r) =>
      if i < Size(l) then AuditPath(H, l, i) + [Step(Root(H, r), Right)]
      else AuditPath(H, r, i - Size(l)) + [Step(Root(H, l), Left)]
  }

  lemma {:induction false} ShapeHoldsLeaves(leaves: Level)
    requires leaves != []
    ensures Values(Shape(leaves)) == leaves
    decreases |leaves|
  {
    if |leaves| >= 2 {
      var k := Split(|leaves|);
      ShapeHoldsLeaves(leaves[..k]);
      ShapeHoldsLeaves(leaves[k..]);
      assert leaves == leaves[..k] + leaves[k..];
    } else {
      assert leaves == [leaves[0]];
    }
  }

  lemma ShapeIsNode(leaves: Level, a: Level, b: Level)
    requires |leaves| >= 2 && Split(|leaves|) == |a| && leaves == a + b
    ensures b != [] && a != []
    ensures Shape(leaves) == Node(Shape(a), Shape(b))
  {
    var k := Split(|leaves|);
    var a', b' := leaves[..k], leaves[k..];
    assert a == a' && b == b';
    assert Shape(leaves) == Node(Shape(a'), Shape(b'));
  }

  /** Pairing a level: its tree splits at an even point, and each half is paired on its own. */
  lemma PairingSplits(H: Sha, leaves: Level) returns (a: Level, b: Level)
    requires |leaves| >= 3
    ensures leaves == a + b && |a| == Split(|leaves|) && |a| % 2 == 0 && |a| >= 2 && b != []
    ensures Shape(leaves) == Node(Shape(a), Shape(b))
    ensures Shape(NextLevel(H, leaves)) == Node(Shape(NextLevel(H, a)), Shape(NextLevel(H, b)))
  {
    var k := Split(|leaves|);
    a, b := leaves[..k], leaves[k..];
    var next, a', b' := NextLevel(H, leaves), NextLevel(H, a), NextLevel(H, b);
    assert leaves == a + b;
    NextLevelConcat(H, leaves, a, b);
    ShapeIsNode(leaves, a, b);
    ShapeIsNode(next, a', b');
  }

  lemma PairOfTwo(H: Sha, leaves: Level)
    requires |leaves| == 2
    ensures Shape(leaves) == Node(Leaf(leaves[0]), Leaf(leaves[1]))
    ensures NextLevel(H, leaves) == [HashPair(H, leaves[0], leaves[1])]
  {
    assert leaves[2..] == [];
  }

  lemma PeelPairOfTwo(H: Sha, leaves: Level, i: nat)
    requires |leaves| == 2 && i < 2
    ensures AuditPath(H, Shape(leaves), i) == Sibling(leaves, i) + AuditPath(H, Shape(NextLevel(H, leaves)), i / 2)
  {
    PairOfTwo(H, leaves);
  }

  lemma {:induction false} PairingKeepsRoot(H: Sha, leaves: Level)
    requires leaves != []
    ensures Root(H, Shape(NextLevel(H, leaves))) == Root(H, Shape(leaves))
    decreases |leaves|
  {
    if |leaves| == 2 {
      PairOfTwo(H, leaves);
    } else if |leaves| > 2 {
      var a, b := PairingSplits(H, leaves);
      PairingKeepsRoot(H, a);
      PairingKeepsRoot(H, b);
    }
  }

  lemma PeelNode(H: Sha, l: Tree, r: Tree, l': Tree, r': Tree, i: nat, s: seq<Step>)
    requires Size(l) == 2 * Size(l') && Size(r') == (Size(r) + 1) / 2 && i < Size(l) + Size(r)
    requires Root(H, l') == Root(H, l) && Root(H, r') == Root(H, r)
    requires if i < Size(l) then AuditPath(H, l, i) == s + AuditPath(H, l', i / 2)
             else AuditPath(H, r, i - Size(l)) == s + AuditPath(H, r', (i - Size(l)) / 2)
    ensures AuditPath(H, Node(l, r), i) == s + AuditPath(H, Node(l', r'), i / 2)
  {
    if i < Size(l) {
      var path, last := AuditPath(H, l', i / 2), [Step(Root(H, r), Right)];
      assert (s + path) + last == s + (path + last);
    } else {
      var j := i - Size(l);
      assert i / 2 - Size(l') == j / 2;
      var path, last := AuditPath(H, r', j / 2), [Step(Root(H, l), Left)];
      assert (s + path) + last == s + (path + last);
    }
  }

  lemma SiblingOfHalves(level: Level, a: Level, b: Level, i: nat)
    requires level == a + b && |a| % 2 == 0 && i < |level|
    ensures Sibling(level, i) == if i < |a| then Sibling(a, i) else Sibling(b, i - |a|)
  {}

  lemma PeelHalves(H: Sha, level: Level, a: Level, b: Level, l: Tree, r: Tree, l': Tree, r': Tree, i: nat)
    requires level == a + b && |a| % 2 == 0 && i < |level|
    requires Size(l) == |a| == 2 * Size(l') && Size(r) == |b| && Size(r') == (|b| + 1) / 2
    requires Root(H, l') == Root(H, l) && Root(H, r') == Root(H, r)
    requires if i < |a| then AuditPath(H, l, i) == Sibling(a, i) + AuditPath(H, l', i / 2)
             else AuditPath(H, r, i - |a|) == Sibling(b, i - |a|) + AuditPath(H, r', (i - |a|) / 2)
    ensures AuditPath(H, Node(l, r), i) == Sibling(level, i) + AuditPath(H, Node(l', r'), i / 2)
  {
    SiblingOfHalves(level, a, b, i);
    PeelNode(H, l, r, l', r', i, Sibling(level, i));
  }

  lemma {:induction false} PairingPeelsPath(H: Sha, leaves: Level, i: nat)
    requires i < |leaves|
    ensures AuditPath(H, Shape(leaves), i) == Sibling(leaves, i) + AuditPath(H, Shape(NextLevel(H, leaves)), i / 2)
    decreases |leaves|
  {
    if |leaves| == 2 {
      PeelPairOfTwo(H, leaves, i);
    } else if |leaves| > 2 {
      var a, b := PairingSplits(H, leaves);
      var a', b' := NextLevel(H, a), NextLevel(H, b);
      PairingKeepsRoot(H, a);
      PairingKeepsRoot(H, b);
      if i < |a| { PairingPeelsPath(H, a, i); } else { PairingPeelsPath(H, b, i - |a|); }
      PeelHalves(H, leaves, a, b, Shape(a), Shape(b), Shape(a'), Shape(b'), i);
    }
  }

  /** The bottom-up root with odd promotion is the recursive tree's root. */
  lemma {:induction false} RootUpIsRoot(H: Sha, leaves: Level)
    requires leaves != []
    ensures RootUp(H, leaves) == Root(H, Shape(leaves))
    decreases |leaves|
  {
    if |leaves| >= 2 {
      PairingKeepsRoot(H, leaves);
      RootUpIsRoot(H, NextLevel(H, leaves));
    }
  }

  /** The proof collected bottom-up is the recursive tree's audit path. */
  lemma {:induction false} ProofUpIsAuditPath(H: Sha, leaves: Level, i: nat)
    requires i < |leaves|
    ensures ProofUp(H, leaves, i) == AuditPath(H, Shape(leaves), i)
    decreases |leaves|
  {
    if |leaves| >= 2 {
      PairingPeelsPath(H, leaves, i);
      ProofUpIsAuditPath(H, NextLevel(H, leaves), i / 2);
    }
  }

  /** The first few trees, written out. */
  lemma SmallRoots(H: Sha, a: Digest, b: Digest, d: Digest)
    ensures RootUp(H, [a]) == a
    ensures RootUp(H, [a, b]) == H(a + b)
    ensures RootUp(H, [a, b, d]) == H(H(a + b) + d)
  {
    assert [a, b][2..] == [] && [a, b, d][2..] == [d];
    var one: Level, pair: Level := [H(a + b)], [H(a + b), d];
    assert NextLevel(H, [a, b]) == one && NextLevel(H, [a, b, d]) == pair;
    assert pair[2..] == [] && NextLevel(H, pair) == [H(H(a + b) + d)];
    assert RootUp(H, [a, b]) == RootUp(H, one);
    assert RootUp(H, [a, b, d]) == RootUp(H, pair) == RootUp(H, NextLevel(H, pair));
  }

  // ----- proof length -----

  /** The least e with n <= 2^e. */
  function CeilLog2(n: nat): (e: nat)
    requires n >= 1
    ensures n <= Pow2(e) && (e > 0 ==> Pow2(e - 1) < n)
  {
    if n == 1 then 0 else 1 + CeilLog2((n + 1) / 2)
  }

  lemma {:induction false} ProofLength(H: Sha, leaves: Level, i: nat)
    requires i < |leaves|
    ensures |AuditPath(H, Shape(leaves), i)| <= CeilLog2(|leaves|)
    decreases |leaves|
  {
    if |leaves| >= 2 {
      PairingPeelsPath(H, leaves, i);
      ProofLength(H, NextLevel(H, leaves), i / 2);
    }
  }

  // ----- what a left/right list says about the tree -----

  function PathPositions(t: Tree, i: nat): seq<Position>
    requires i < Size(t)
  {
    match t
    case Leaf(_) => []
    case Node(l, r) =>
      if i < Size(l) then PathPositions(l, i) + [Right] else PathPositions(r, i - Size(l)) + [Left]
  }

  lemma {:induction false} PositionsOfAuditPath(H: Sha, t: Tree, i: nat)
    requires i < Size(t)
    ensures Positions(AuditPath(H, t, i)) == PathPositions(t, i)
  {
    if t.Node? {
      if i < Size(t.left) { PositionsOfAuditPath(H, t.left, i); }
      else { PositionsOfAuditPath(H, t.right, i - Size(t.left)); }
    }
  }

  /** Where a left/right list leads, read from the root down: to leaf i, to an inner node, or past leaf i
      with `extra` entries to spare. */
  datatype Landing = AtLeaf(i: nat) | AtInner(node: Tree) | PastLeaf(i: nat, extra: nat)

  function Shift(land: Landing, k: nat): Landing {
    match land
    case AtLeaf(i) => AtLeaf(i + k)
    case AtInner(node) => land
    case PastLeaf(i, extra) => PastLeaf(i + k, extra)
  }

  function Land(t: Tree, p: seq<Position>): (land: Landing)
    ensures match land
            case AtLeaf(i) => i < Size(t)
            case AtInner(node) => node.Node?
            case PastLeaf(i, extra) => i < Size(t) && 0 < extra <= |p|
  {
    match t
    case Leaf(_) => if p == [] then AtLeaf(0) else PastLeaf(0, |p|)
    case Node(l, r) =>
      if p == [] then AtInner(t)
      else if p[|p| - 1].Right? then Land(l, p[..|p| - 1])
      else Shift(Land(r, p[..|p| - 1]), Size(l))
  }

  /** A list leads to leaf i exactly when it is leaf i's own list: the list identifies the leaf. */
  lemma {:induction false} LandInvertsPositions(t: Tree, i: nat, p: seq<Position>)
    requires i < Size(t)
    ensures Land(t, p) == AtLeaf(i) <==> p == PathPositions(t, i)
  {
    if t.Node? && p != [] {
      var rest, last := p[..|p| - 1], p[|p| - 1];
      assert p == rest + [last];
      if i < Size(t.left) {
        LandInvertsPositions(t.left, i, rest);
        SnocEqual(rest, last, PathPositions(t.left, i), Right);
      } else {
        LandInvertsPositions(t.right, i - Size(t.left), rest);
        SnocEqual(rest, last, PathPositions(t.right, i - Size(t.left)), Left);
      }
    }
  }

  lemma SnocEqual(s: seq<Position>, x: Position, t: seq<Position>, y: Position)
    ensures s + [x] == t + [y] <==> s == t && x == y
  {
    if s + [x] == t + [y] {
      assert (s + [x])[..|s|] == s && (t + [y])[..|t|] == t;
      assert (s + [x])[|s|] == x && (t + [y])[|t|] == y;
    }
  }

  ghost predicate IsSuffix<T>(s: seq<T>, t: seq<T>) { |s| <= |t| && t[|t| - |s|..] == s }

  /** Extending a leaf's list at the leaf end leads past that leaf. */
  lemma {:induction false} LandOfExtension(t: Tree, i: nat, front: seq<Position>)
    requires i < Size(t) && front != []
    ensures Land(t, front + PathPositions(t, i)) == PastLeaf(i, |front|)
  {
    var whole := front + PathPositions(t, i);
    match t
    case Leaf(_) => assert whole == front;
    case Node(l, r) =>
      if i < Size(l) {
        LandOfExtension(l, i, front);
        assert whole[..|whole| - 1] == front + PathPositions(l, i);
      } else {
        LandOfExtension(r, i - Size(l), front);
        assert whole[..|whole| - 1] == front + PathPositions(r, i - Size(l));
      }
  }

  /** No leaf's left/right list is a suffix of another leaf's. */
  lemma SuffixFree(t: Tree, i: nat, j: nat)
    requires i < Size(t) && j < Size(t) && i != j
    ensures !IsSuffix(PathPositions(t, i), PathPositions(t, j))
  {
    var p, q := PathPositions(t, i), PathPositions(t, j);
    LandInvertsPositions(t, j, q);
    LandInvertsPositions(t, i, q);
    if IsSuffix(p, q) {
      var front := q[..|q| - |p|];
      assert q == front + p;
      if front != [] {
        LandOfExtension(t, i, front);
      }
    }
  }

  // ----- verifying -----

  /** The value `verifyProof` holds after all steps; an oversized sibling throws. */
  function Replay(H: Sha, leaf: Digest, proof: seq<Step>): Option<Digest> {
    if proof == [] then Some(leaf)
    else
      match Replay(H, leaf, proof[..|proof| - 1])
      case None => None
      case Some(current) =>
        var step := proof[|proof| - 1];
        if Throws(step) then None else Some(H(StepInput(current, step)))
  }

  /** The strings that replaying the proof hashes. */
  ghost function ReplayInputs(H: Sha, leaf: Digest, proof: seq<Step>): set<Bytes> {
    if proof == [] then {}
    else
      var front := proof[..|proof| - 1];
      var step := proof[|proof| - 1];
      var current := Replay(H, leaf, front);
      ReplayInputs(H, leaf, front) +
      if current.Some? && !Throws(step) then {StepInput(current.value, step)} else {}
  }

  /** The strings that building the tree hashes. */
  ghost function TreeInputs(H: Sha, t: Tree): set<Bytes> {
    match t
    case Leaf(_) => {}
    case Node(l, r) => {Root(H, l) + Root(H, r)} + TreeInputs(H, l) + TreeInputs(H, r)
  }

  /** One more step on a replay that has reached a child's root reaches the parent's. */
  lemma ReplayStep(H: Sha, leaf: Digest, front: seq<Step>, step: Step, current: Digest)
    requires Replay(H, leaf, front) == Some(current) && |step.hash| == 32
    ensures Replay(H, leaf, front + [step]) ==
            Some(if step.position.Left? then HashPair(H, step.hash, current) else HashPair(H, current, step.hash))
  {
    assert (front + [step])[..|front|] == front;
    StepInputFits(current, step);
    FittedDigest(step.hash);
  }

  /** Completeness: the audit path leads from each leaf to the root. */
  lemma {:induction false} Completeness(H: Sha, t: Tree, i: nat)
    requires i < Size(t)
    ensures Replay(H, Values(t)[i], AuditPath(H, t, i)) == Some(Root(H, t))
  {
    match t
    case Leaf(_) =>
    case Node(l, r) =>
      if i < Size(l) {
        Completeness(H, l, i);
        ReplayStep(H, Values(t)[i], AuditPath(H, l, i), Step(Root(H, r), Right), Root(H, l));
      } else {
        Completeness(H, r, i - Size(l));
        ReplayStep(H, Values(t)[i], AuditPath(H, r, i - Size(l)), Step(Root(H, l), Left), Root(H, r));
      }
  }

  /** What a proof says when its left/right list leads to `land`. */
  ghost predicate ProvesAt(H: Sha, t: Tree, leaf: Digest, proof: seq<Step>, land: Landing) {
    match land
    case AtLeaf(i) => i < Size(t) && leaf == Values(t)[i] && FittedProof(proof) == AuditPath(H, t, i)
    case AtInner(node) => leaf == Root(H, node)
    case PastLeaf(i, extra) =>
      i < Size(t) && extra <= |proof| && Replay(H, leaf, proof[..extra]) == Some(Values(t)[i])
  }

  /** What an accepted proof says, by where its left/right list leads. */
  ghost predicate Proves(H: Sha, t: Tree, leaf: Digest, proof: seq<Step>) {
    ProvesAt(H, t, leaf, proof, Land(t, Positions(proof)))
  }

  /** A last step that reaches an inner node's root comes from that node's own children, or collides. */
  lemma LastStepBinds(H: Sha, t: Tree, leaf: Digest, front: seq<Step>, step: Step)
    requires t.Node? && Replay(H, leaf, front + [step]) == Some(Root(H, t))
    ensures
      || Collide(H, ReplayInputs(H, leaf, front + [step]), TreeInputs(H, t))
      || (&& Replay(H, leaf, front) == Some(Root(H, if step.position.Right? then t.left else t.right))
          && Fitted(step.hash) == Root(H, if step.position.Right? then t.right else t.left))
  {
    assert (front + [step])[..|front|] == front;
    var current := Replay(H, leaf, front).value;
    var mine, theirs: Bytes := StepInput(current, step), Root(H, t.left) + Root(H, t.right);
    assert mine in ReplayInputs(H, leaf, front + [step]) && theirs in TreeInputs(H, t);
    if mine == theirs {
      StepInputFits(current, step);
      var fits := Fitted(step.hash);
      if step.position.Left? {
        SplitConcat(fits, current, Root(H, t.left), Root(H, t.right));
      } else {
        SplitConcat(current, fits, Root(H, t.left), Root(H, t.right));
      }
    }
  }

  /** Soundness for every proof: what it proves is the tree's own, or the verifier and the tree hashed
      two different strings to one digest. */
  lemma {:induction false} Soundness(H: Sha, t: Tree, leaf: Digest, proof: seq<Step>)
    requires Replay(H, leaf, proof) == Some(Root(H, t))
    ensures Proves(H, t, leaf, proof) || Collide(H, ReplayInputs(H, leaf, proof), TreeInputs(H, t))
  {
    if t.Leaf? {
      assert proof[..|proof|] == proof;
      assert proof == [] ==> FittedProof(proof) == [];
    } else if proof != [] {
      var front, step := proof[..|proof| - 1], proof[|proof| - 1];
      assert proof == front + [step];
      LastStepBinds(H, t, leaf, front, step);
      if !Collide(H, ReplayInputs(H, leaf, proof), TreeInputs(H, t)) {
        var side := if step.position.Right? then t.left else t.right;
        Soundness(H, side, leaf, front);
        if Proves(H, side, leaf, front) {
          ProvesLift(H, t, leaf, proof, front, step);
        } else {
          CollideMonotone(H, ReplayInputs(H, leaf, front), TreeInputs(H, side),
                          ReplayInputs(H, leaf, proof), TreeInputs(H, t));
        }
      }
    }
  }

  /** What a proof says about one child, one more genuine sibling makes it say about the parent. */
  lemma ProvesLift(H: Sha, t: Tree, leaf: Digest, proof: seq<Step>, front: seq<Step>, step: Step)
    requires t.Node? && proof == front + [step]
    requires Fitted(step.hash) == Root(H, if step.position.Right? then t.right else t.left)
    requires Proves(H, if step.position.Right? then t.left else t.right, leaf, front)
    ensures Proves(H, t, leaf, proof)
  {
    LandStep(t, proof, front, step);
    ProvesLiftAt(H, t, leaf, proof, front, step,
                 Land(if step.position.Right? then t.left else t.right, Positions(front)));
  }

  lemma ProvesLiftAt(H: Sha, t: Tree, leaf: Digest, proof: seq<Step>, front: seq<Step>, step: Step, land: Landing)
    requires t.Node? && proof == front + [step]
    requires Fitted(step.hash) == Root(H, if step.position.Right? then t.right else t.left)
    requires ProvesAt(H, if step.position.Right? then t.left else t.right, leaf, front, land)
    ensures ProvesAt(H, t, leaf, proof, if step.position.Right? then land else Shift(land, Size(t.left)))
  {
    match land
    case AtLeaf(i) => ProvesLiftLeaf(H, t, proof, front, step, i);
    case AtInner(node) =>
    case PastLeaf(i, extra) => assert front[..extra] == proof[..extra];
  }

  lemma ProvesLiftLeaf(H: Sha, t: Tree, proof: seq<Step>, front: seq<Step>, step: Step, i: nat)
    requires t.Node? && proof == front + [step]
    requires Fitted(step.hash) == Root(H, if step.position.Right? then t.right else t.left)
    requires i < Size(if step.position.Right? then t.left else t.right)
    requires FittedProof(front) == AuditPath(H, if step.position.Right? then t.left else t.right, i)
    ensures FittedProof(proof) == AuditPath(H, t, if step.position.Right? then i else i + Size(t.left))
  {
    assert FittedProof(proof) == FittedProof(front) + [Step(Fitted(step.hash), step.position)];
  }

  lemma LandStep(t: Tree, proof: seq<Step>, front: seq<Step>, step: Step)
    requires t.Node? && proof == front + [step]
    ensures Land(t, Positions(proof)) ==
            if step.position.Right? then Land(t.left, Positions(front))
            else Shift(Land(t.right, Positions(front)), Size(t.left))
  {
    var p := Positions(proof);
    assert p[..|front|] == Positions(front);
  }

  /** The inner case is real: with no prefix bytes an inner node passes as a leaf, so an accepted proof
      speaks about a leaf only when its left/right list is a leaf's list. */
  lemma InnerNodePassesAsLeaf(H: Sha, t: Tree)
    requires t.Node? && t.left.Node?
    ensures var proof := [Step(Root(H, t.right), Right)];
            && Replay(H, Root(H, t.left), proof) == Some(Root(H, t))
            && Land(t, Positions(proof)) == AtInner(t.left)
  {
    ReplayStep(H, Root(H, t.left), [], Step(Root(H, t.right), Right), Root(H, t.left));
    assert [] + [Step(Root(H, t.right), Right)] == [Step(Root(H, t.right), Right)];
    assert Positions([Step(Root(H, t.right), Right)])[..0] == [];
  }

  // Equal roots of inner nodes: the children's roots are equal in pairs, or the two nodes collide.
  lemma NodesBind(H: Sha, s: Tree, t: Tree)
    requires s.Node? && t.Node? && Root(H, s) == Root(H, t)
    ensures
      || Collide(H, TreeInputs(H, s), TreeInputs(H, t))
      || (Root(H, s.left) == Root(H, t.left) && Root(H, s.right) == Root(H, t.right))
  {
    var x, y: Bytes := Root(H, s.left) + Root(H, s.right), Root(H, t.left) + Root(H, t.right);
    assert x in TreeInputs(H, s) && y in TreeInputs(H, t) && H(x) == H(y);
    if x == y {
      SplitConcat(Root(H, s.left), Root(H, s.right), Root(H, t.left), Root(H, t.right));
    }
  }

  lemma CollisionOfChildren(H: Sha, s: Tree, t: Tree)
    requires s.Node? && t.Node?
    requires
      || Collide(H, TreeInputs(H, s.left), TreeInputs(H, t.left))
      || Collide(H, TreeInputs(H, s.right), TreeInputs(H, t.right))
    ensures Collide(H, TreeInputs(H, s), TreeInputs(H, t))
  {
    if Collide(H, TreeInputs(H, s.left), TreeInputs(H, t.left)) {
      CollideMonotone(H, TreeInputs(H, s.left), TreeInputs(H, t.left), TreeInputs(H, s), TreeInputs(H, t));
    } else {
      CollideMonotone(H, TreeInputs(H, s.right), TreeInputs(H, t.right), TreeInputs(H, s), TreeInputs(H, t));
    }
  }

  /** Two trees of one shape with one root hold the same leaves, or they collide. */
  lemma {:induction false} RootBinds(H: Sha, s: Level, t: Level)
    requires |s| == |t| > 0 && Root(H, Shape(s)) == Root(H, Shape(t))
    ensures s == t || Collide(H, TreeInputs(H, Shape(s)), TreeInputs(H, Shape(t)))
    decreases |s|
  {
    if |s| == 1 {
      assert s == [s[0]] && t == [t[0]];
    } else {
      var k := Split(|s|);
      var a, b, c, d := s[..k], s[k..], t[..k], t[k..];
      ShapeIsNode(s, a, b);
      ShapeIsNode(t, c, d);
      NodesBind(H, Shape(s), Shape(t));
      if !Collide(H, TreeInputs(H, Shape(s)), TreeInputs(H, Shape(t))) {
        RootBinds(H, a, c);
        RootBinds(H, b, d);
        if a != c || b != d { CollisionOfChildren(H, Shape(s), Shape(t)); }
        assert s == a + b && t == c + d;
      }
    }
  }

  /** Equal length is needed: pairing the leaves beforehand gives a shorter list with the same root. */
  lemma RootForgetsLength(H: Sha, leaves: Level)
    requires |leaves| >= 2
    ensures |NextLevel(H, leaves)| < |leaves|
    ensures Root(H, Shape(NextLevel(H, leaves))) == Root(H, Shape(leaves))
  {
    PairingKeepsRoot(H, leaves);
  }
}
