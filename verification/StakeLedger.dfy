/** Node staking in the on-chain registry: registration, heartbeats, deregistration, claiming, slashing. */
module StakeLedger {
  import opened Bytes

  datatype NodeStatus = NodeActive | NodeSuspended | Deregistering | Deregistered

  /** The configuration is written once; `cooldown` is not negative and `slashPercent` at most 100. */
  datatype Config = Config(minStake: U64, cooldown: I64, slashPercent: nat, rent: U64)

  ghost predicate ValidConfig(cfg: Config) { cfg.cooldown >= 0 && cfg.slashPercent <= 100 }

  /** One node account with its own lamports, and the lamports of its operator and of the treasury. */
  datatype Node = Node(registered: bool, capacity: nat, active: nat, stake: U64, lastHeartbeat: I64,
                       status: NodeStatus, lamports: U64, operator: U64, treasury: U64)

  datatype NodeError =
    | AlreadyRegistered | NotRegistered | InvalidCapacity | CapacityBelowActive | NodeNotActive
    | NodeNotDeregistering | ActiveInstancesRemaining | CooldownNotElapsed | NodeAtCapacity
    | TooFewLamports | NumericOverflow

  /** The program's instructions on one node, and `Fund`: lamports that anyone sends to the account's address. */
  datatype NodeInstruction =
    | RegisterNode(now: I64, capacity: nat)
    | UpdateCapacity(capacity: nat)
    | Heartbeat(now: I64)
    | DeregisterNode(now: I64)
    | ClaimStake(now: I64)
    | SlashNode
    | TakeInstance
    | ReleaseInstance
    | Fund(amount: U64)

  function SaturatingSub(a: I64, b: I64): I64 {
    if a - b > MAX_I64 then MAX_I64 else if a - b < MIN_I64 then MIN_I64 else a - b
  }

  function SlashAmount(cfg: Config, stake: U64): nat { stake * cfg.slashPercent / 100 }

  /** What creating the account takes from the operator: the rent not yet at its address. */
  function RentDue(cfg: Config, lamports: U64): U64 { if lamports < cfg.rent then cfg.rent - lamports else 0 }

  predicate SlashOverflows(cfg: Config, stake: U64) { stake * cfg.slashPercent > MAX_U64 }

  function Execute(cfg: Config, n: Node, i: NodeInstruction): Result<Node, NodeError> {
    match i
    case RegisterNode(now, capacity) =>
      if n.registered then Err(AlreadyRegistered)
      else if capacity == 0 then Err(InvalidCapacity)
      else if n.operator < RentDue(cfg, n.lamports) + cfg.minStake then Err(TooFewLamports)
      else if n.lamports + RentDue(cfg, n.lamports) + cfg.minStake > MAX_U64 then Err(NumericOverflow)
      else
        Ok(Node(true, capacity, 0, cfg.minStake, now, NodeActive, n.lamports + RentDue(cfg, n.lamports) + cfg.minStake,
                n.operator - RentDue(cfg, n.lamports) - cfg.minStake, n.treasury))
    case Fund(amount) =>
      if n.lamports + amount > MAX_U64 then Err(NumericOverflow) else Ok(n.(lamports := n.lamports + amount))
    case _ => if n.registered then ExecuteRegistered(cfg, n, i) else Err(NotRegistered)
  }

  function ExecuteRegistered(cfg: Config, n: Node, i: NodeInstruction): Result<Node, NodeError> {
    match i
    case RegisterNode(_, _) => Err(AlreadyRegistered)
    case Fund(_) => Err(NumericOverflow)
    case UpdateCapacity(capacity) =>
      if n.status != NodeActive then Err(NodeNotActive)
      else if capacity == 0 then Err(InvalidCapacity)
      else if capacity < n.active then Err(CapacityBelowActive)
      else Ok(n.(capacity := capacity))
    case Heartbeat(now) =>
      if n.status != NodeActive then Err(NodeNotActive) else Ok(n.(lastHeartbeat := now))
    case DeregisterNode(now) =>
      if n.status != NodeActive then Err(NodeNotActive)
      else Ok(n.(status := Deregistering, lastHeartbeat := now))
    case ClaimStake(now) =>
      if n.status != Deregistering then Err(NodeNotDeregistering)
      else if n.active != 0 then Err(ActiveInstancesRemaining)
      else if SaturatingSub(now, n.lastHeartbeat) < cfg.cooldown then Err(CooldownNotElapsed)
      else if n.lamports < n.stake then Err(TooFewLamports)
      else if n.operator + n.stake > MAX_U64 then Err(NumericOverflow)
      else
        Ok(n.(stake := 0, status := Deregistered, lamports := n.lamports - n.stake, operator := n.operator + n.stake))
    case SlashNode =>
      var amount := SlashAmount(cfg, n.stake);
      if SlashOverflows(cfg, n.stake) then Err(NumericOverflow)
      else if n.stake < amount then Err(NumericOverflow)
      else if n.lamports < amount then Err(TooFewLamports)
      else if n.treasury + amount > MAX_U64 then Err(NumericOverflow)
      else
        Ok(n.(stake := n.stake - amount, status := NodeSuspended, lamports := n.lamports - amount,
              treasury := n.treasury + amount))
    case TakeInstance =>
      if n.status != NodeActive then Err(NodeNotActive)
      else if n.active >= n.capacity then Err(NodeAtCapacity)
      else Ok(n.(active := n.active + 1))
    case ReleaseInstance =>
      if n.active == 0 then Err(NumericOverflow) else Ok(n.(active := n.active - 1))
  }

  function Commit(cfg: Config, n: Node, i: NodeInstruction): Node {
    match Execute(cfg, n, i)
    case Ok(n') => n'
    case Err(_) => n
  }

  function Run(cfg: Config, n: Node, ops: seq<NodeInstruction>): Node {
    if ops == [] then n else Commit(cfg, Run(cfg, n, ops[..|ops| - 1]), ops[|ops| - 1])
  }

  /** Instruction k of the run commits. */
  predicate Commits(cfg: Config, n: Node, ops: seq<NodeInstruction>, k: nat)
    requires k < |ops|
  {
    Execute(cfg, Run(cfg, n, ops[..k]), ops[k]).Ok?
  }

  // ----- conservation -----

  /** What has been slashed, and what has been claimed, over a run. */
  ghost function Slashed(cfg: Config, n: Node, ops: seq<NodeInstruction>): nat {
    if ops == [] then 0
    else
      var k := |ops| - 1;
      Slashed(cfg, n, ops[..k])
      + if ops[k].SlashNode? && Commits(cfg, n, ops, k) then SlashAmount(cfg, Run(cfg, n, ops[..k]).stake) else 0
  }

  ghost function Claimed(cfg: Config, n: Node, ops: seq<NodeInstruction>): nat {
    if ops == [] then 0
    else
      var k := |ops| - 1;
      Claimed(cfg, n, ops[..k])
      + if ops[k].ClaimStake? && Commits(cfg, n, ops, k) then Run(cfg, n, ops[..k]).stake else 0
  }

  /** What anyone sent to the account's address over a run. */
  ghost function Funded(cfg: Config, n: Node, ops: seq<NodeInstruction>): nat {
    if ops == [] then 0
    else
      var k := |ops| - 1;
      Funded(cfg, n, ops[..k]) + if ops[k].Fund? && Commits(cfg, n, ops, k) then ops[k].amount else 0
  }

  /** What the account holds beyond rent and stake once it is registered: what was at its address above the
      rent, and what was sent to it since. */
  ghost function Surplus(cfg: Config, n: Node, ops: seq<NodeInstruction>): nat {
    if ops == [] then 0
    else
      var k := |ops| - 1;
      var surplus := Surplus(cfg, n, ops[..k]);
      if Commits(cfg, n, ops, k) then SurplusAfter(cfg, Run(cfg, n, ops[..k]), surplus, ops[k]) else surplus
  }

  ghost function SurplusAfter(cfg: Config, n: Node, surplus: nat, i: NodeInstruction): nat {
    match i
    case RegisterNode(_, _) => n.lamports + RentDue(cfg, n.lamports) - cfg.rent
    case Fund(amount) => surplus + if n.registered then amount else 0
    case _ => surplus
  }

  /** The books of a node that began as `start`. */
  ghost predicate Books(cfg: Config, start: Node, n: Node, slashed: nat, claimed: nat, funded: nat, surplus: nat) {
    && (if n.registered
        then cfg.minStake == n.stake + slashed + claimed && n.lamports == cfg.rent + n.stake + surplus
        else n == start.(lamports := n.lamports) && n.lamports == start.lamports + funded && slashed == 0 == claimed
             && surplus == 0)
    && surplus <= start.lamports + funded
    && n.treasury == start.treasury + slashed
    && n.lamports + n.operator + n.treasury == start.lamports + start.operator + start.treasury + funded
  }

  lemma CommitKeepsBooks(cfg: Config, start: Node, n: Node, slashed: nat, claimed: nat, funded: nat, surplus: nat,
                         i: NodeInstruction)
    requires !start.registered && Books(cfg, start, n, slashed, claimed, funded, surplus)
    ensures Books(cfg, start, Commit(cfg, n, i),
                  slashed + (if i.SlashNode? && Execute(cfg, n, i).Ok? then SlashAmount(cfg, n.stake) else 0),
                  claimed + (if i.ClaimStake? && Execute(cfg, n, i).Ok? then n.stake else 0),
                  funded + (if i.Fund? && Execute(cfg, n, i).Ok? then i.amount else 0),
                  if Execute(cfg, n, i).Ok? then SurplusAfter(cfg, n, surplus, i) else surplus)
  {}

  /** Stake conservation over every run of an unregistered node: the initial stake is what is still staked plus
      what was slashed plus what was claimed; the account holds its rent, its stake and exactly what reached
      its address besides; and operator, treasury and account together hold what they held and what came in. */
  lemma {:induction false} StakeConserved(cfg: Config, n: Node, ops: seq<NodeInstruction>)
    requires !n.registered
    ensures Books(cfg, n, Run(cfg, n, ops), Slashed(cfg, n, ops), Claimed(cfg, n, ops), Funded(cfg, n, ops),
                  Surplus(cfg, n, ops))
  {
    if ops != [] {
      var k := |ops| - 1;
      var front := ops[..k];
      StakeConserved(cfg, n, front);
      CommitKeepsBooks(cfg, n, Run(cfg, n, front), Slashed(cfg, n, front), Claimed(cfg, n, front),
                       Funded(cfg, n, front), Surplus(cfg, n, front), ops[k]);
    }
  }

  // ----- claiming -----

  /** A deregistering node was deregistered at its recorded time, and nothing has committed a heartbeat or
      another deregistration since. */
  ghost predicate DeregisteredAt(cfg: Config, n: Node, ops: seq<NodeInstruction>, i: nat, upTo: nat)
    requires upTo <= |ops|
  {
    && i < upTo && ops[i].DeregisterNode? && Commits(cfg, n, ops, i)
    && forall k :: i < k < upTo && (ops[k].Heartbeat? || ops[k].DeregisterNode?) ==> !Commits(cfg, n, ops, k)
  }

  lemma RunStep(cfg: Config, n: Node, ops: seq<NodeInstruction>, k: nat)
    requires k < |ops|
    ensures Run(cfg, n, ops[..k + 1]) == Commit(cfg, Run(cfg, n, ops[..k]), ops[k])
  {
    assert ops[..k + 1][..k] == ops[..k];
  }

  lemma StillDeregistering(cfg: Config, n: Node, i: NodeInstruction)
    requires Commit(cfg, n, i).registered && Commit(cfg, n, i).status == Deregistering
    ensures if i.DeregisterNode? && Execute(cfg, n, i).Ok? then Commit(cfg, n, i).lastHeartbeat == i.now
            else
              && n.registered && n.status == Deregistering && Commit(cfg, n, i).lastHeartbeat == n.lastHeartbeat
              && (i.Heartbeat? ==> Execute(cfg, n, i).Err?)
  {}

  lemma {:induction false} FindDeregistration(cfg: Config, n: Node, ops: seq<NodeInstruction>, j: nat) returns (i: nat)
    requires !n.registered && j <= |ops| && Run(cfg, n, ops[..j]).registered
    requires Run(cfg, n, ops[..j]).status == Deregistering
    ensures DeregisteredAt(cfg, n, ops, i, j) && Run(cfg, n, ops[..j]).lastHeartbeat == ops[i].now
  {
    RunStep(cfg, n, ops, j - 1);
    StillDeregistering(cfg, Run(cfg, n, ops[..j - 1]), ops[j - 1]);
    if ops[j - 1].DeregisterNode? && Commits(cfg, n, ops, j - 1) {
      i := j - 1;
    } else {
      i := FindDeregistration(cfg, n, ops, j - 1);
    }
  }

  /** A claim commits only on a node without instances, and only once the cooldown has passed since a
      deregistration after which no heartbeat moved the recorded time. */
  lemma ClaimAfterCooldown(cfg: Config, n: Node, ops: seq<NodeInstruction>, j: nat)
    requires !n.registered && ValidConfig(cfg)
    requires j < |ops| && ops[j].ClaimStake? && Commits(cfg, n, ops, j)
    ensures Run(cfg, n, ops[..j]).active == 0
    ensures exists i: nat :: DeregisteredAt(cfg, n, ops, i, j) && ops[j].now - ops[i].now >= cfg.cooldown
  {
    var i := FindDeregistration(cfg, n, ops, j);
  }

  ghost predicate Over(n: Node) { n.registered && (n.status == Deregistered || n.status == NodeSuspended) }

  lemma {:induction false} OverIsForever(cfg: Config, n: Node, ops: seq<NodeInstruction>, j: nat, k: nat)
    requires j <= k <= |ops| && Over(Run(cfg, n, ops[..j]))
    ensures Over(Run(cfg, n, ops[..k]))
    decreases k - j
  {
    if j < k {
      RunStep(cfg, n, ops, j);
      OverIsForever(cfg, n, ops, j + 1, k);
    }
  }

  /** A node that was claimed or slashed is done: no claim, heartbeat, deregistration or new instance
      commits afterwards. So the stake is claimed at most once, and a slashed node's rest never. */
  lemma NothingAfterTheEnd(cfg: Config, n: Node, ops: seq<NodeInstruction>, j: nat, k: nat)
    requires j < k < |ops| && (ops[j].ClaimStake? || ops[j].SlashNode?) && Commits(cfg, n, ops, j)
    ensures Commits(cfg, n, ops, k) ==> ops[k].SlashNode? || ops[k].ReleaseInstance? || ops[k].Fund?
  {
    RunStep(cfg, n, ops, j);
    OverIsForever(cfg, n, ops, j + 1, k);
  }

  /** The active count never exceeds the capacity. */
  lemma {:induction false} CapacityRespected(cfg: Config, n: Node, ops: seq<NodeInstruction>)
    requires !n.registered && n.active == 0
    ensures Run(cfg, n, ops).active <= Run(cfg, n, ops).capacity
    decreases ops
  {
    if ops != [] {
      CapacityRespected(cfg, n, ops[..|ops| - 1]);
    }
  }

  // ----- what each instruction does, in whole numbers -----

  lemma RegisterExactly(cfg: Config, n: Node, now: I64, capacity: nat, rent: nat)
    requires rent == if n.lamports < cfg.rent then cfg.rent - n.lamports else 0
    ensures Execute(cfg, n, RegisterNode(now, capacity)).Ok? <==>
            && !n.registered && capacity > 0 && n.operator >= rent + cfg.minStake
            && n.lamports + rent + cfg.minStake <= MAX_U64
    ensures Execute(cfg, n, RegisterNode(now, capacity)).Ok? ==>
              var n' := Execute(cfg, n, RegisterNode(now, capacity)).value;
              && n'.registered && n'.capacity == capacity && n'.active == 0 && n'.stake == cfg.minStake
              && n'.lastHeartbeat == now && n'.status == NodeActive
              && n'.lamports == n.lamports + rent + cfg.minStake && n'.operator == n.operator - rent - cfg.minStake
              && n'.treasury == n.treasury
  {
  }

  lemma BeatExactly(cfg: Config, n: Node, now: I64)
    ensures Execute(cfg, n, Heartbeat(now)).Ok? <==> n.registered && n.status == NodeActive
    ensures Execute(cfg, n, Heartbeat(now)).Ok? ==> Execute(cfg, n, Heartbeat(now)).value == n.(lastHeartbeat := now)
  {
  }

  lemma DeregisterExactly(cfg: Config, n: Node, now: I64)
    ensures Execute(cfg, n, DeregisterNode(now)).Ok? <==> n.registered && n.status == NodeActive
    ensures Execute(cfg, n, DeregisterNode(now)).Ok? ==>
              Execute(cfg, n, DeregisterNode(now)).value == n.(status := Deregistering, lastHeartbeat := now)
  {
  }

  /** The saturating difference decides like the plain one. */
  lemma ClaimExactly(cfg: Config, n: Node, now: I64)
    requires ValidConfig(cfg)
    ensures Execute(cfg, n, ClaimStake(now)).Ok? <==>
            && n.registered && n.status == Deregistering && n.active == 0 && now - n.lastHeartbeat >= cfg.cooldown
            && n.lamports >= n.stake && n.operator + n.stake <= MAX_U64
    ensures Execute(cfg, n, ClaimStake(now)).Ok? ==>
              var n' := Execute(cfg, n, ClaimStake(now)).value;
              && n' == n.(stake := 0, status := Deregistered, lamports := n'.lamports, operator := n'.operator)
              && n'.lamports == n.lamports - n.stake && n'.operator == n.operator + n.stake
  {
  }

  /** Which error an operator gets for a claim, and for a registration: the first check that fails. */
  lemma ClaimErrsExactly(cfg: Config, n: Node, now: I64)
    requires ValidConfig(cfg)
    ensures var r := Execute(cfg, n, ClaimStake(now));
            var cooled := now - n.lastHeartbeat >= cfg.cooldown;
            && (r == Err(NotRegistered) <==> !n.registered)
            && (r == Err(NodeNotDeregistering) <==> n.registered && n.status != Deregistering)
            && (r == Err(ActiveInstancesRemaining) <==> n.registered && n.status == Deregistering && n.active != 0)
            && (r == Err(CooldownNotElapsed) <==> n.registered && n.status == Deregistering && n.active == 0 && !cooled)
  {
  }

  lemma RegisterErrsExactly(cfg: Config, n: Node, now: I64, capacity: nat, rent: nat)
    requires rent == if n.lamports < cfg.rent then cfg.rent - n.lamports else 0
    ensures var r := Execute(cfg, n, RegisterNode(now, capacity));
            && (r == Err(AlreadyRegistered) <==> n.registered)
            && (r == Err(InvalidCapacity) <==> !n.registered && capacity == 0)
            && (r == Err(TooFewLamports) <==> !n.registered && capacity > 0 && n.operator < rent + cfg.minStake)
  {
  }

  lemma SlashExactly(cfg: Config, n: Node, amount: int)
    requires amount == n.stake * cfg.slashPercent / 100
    ensures Execute(cfg, n, SlashNode).Ok? <==>
            && n.registered && n.stake * cfg.slashPercent <= MAX_U64
            && amount <= n.stake && amount <= n.lamports && n.treasury + amount <= MAX_U64
    ensures Execute(cfg, n, SlashNode).Ok? ==>
              var n' := Execute(cfg, n, SlashNode).value;
              && n' == n.(stake := n'.stake, status := NodeSuspended, lamports := n'.lamports, treasury := n'.treasury)
              && n'.stake == n.stake - amount && n'.lamports == n.lamports - amount
              && n'.treasury == n.treasury + amount
  {
  }

  /** Slashing takes at most the stake, and all of it at 100 percent. */
  lemma SlashBounds(cfg: Config, n: Node)
    requires ValidConfig(cfg)
    ensures 0 <= SlashAmount(cfg, n.stake) <= n.stake
    ensures n.stake * cfg.slashPercent - 100 < 100 * SlashAmount(cfg, n.stake) <= n.stake * cfg.slashPercent
    ensures cfg.slashPercent == 100 ==> SlashAmount(cfg, n.stake) == n.stake
  {
    PercentBounds(n.stake, cfg.slashPercent, n.stake * cfg.slashPercent);
  }

  lemma PercentBounds(stake: nat, percent: nat, product: nat)
    requires percent <= 100 && product == stake * percent
    ensures 100 * (product / 100) <= product < 100 * (product / 100) + 100 && product / 100 <= stake
  {
    AtMost(stake, percent);
  }

  lemma AtMost(stake: nat, percent: nat)
    requires percent <= 100
    ensures stake * percent <= 100 * stake
  {
  }

  lemma CountersExactly(cfg: Config, n: Node, capacity: nat)
    ensures Execute(cfg, n, TakeInstance).Ok? <==> n.registered && n.status == NodeActive && n.active < n.capacity
    ensures Execute(cfg, n, TakeInstance).Ok? ==> Execute(cfg, n, TakeInstance).value == n.(active := n.active + 1)
    ensures Execute(cfg, n, ReleaseInstance).Ok? <==> n.registered && n.active > 0
    ensures Execute(cfg, n, ReleaseInstance).Ok? ==>
        Execute(cfg, n, ReleaseInstance).value == n.(active := n.active - 1)
    ensures Execute(cfg, n, UpdateCapacity(capacity)).Ok? <==>
            n.registered && n.status == NodeActive && capacity > 0 && capacity >= n.active
    ensures Execute(cfg, n, UpdateCapacity(capacity)).Ok? ==>
              Execute(cfg, n, UpdateCapacity(capacity)).value == n.(capacity := capacity)
  {
  }

  // ----- the instructions as the program runs them -----

  /** An instruction either commits what the specification says, or reverts with its error. */
  ghost predicate Runs(before: Node, spec: Result<Node, NodeError>, r: Result<(), NodeError>, after: Node) {
    match spec
    case Ok(n) => r == Ok(()) && after == n
    case Err(e) => r == Err(e) && after == before
  }

  class NodeProgram {
    const cfg: Config
    var registered: bool
    var capacity: nat
    var active: nat
    var stake: U64
    var lastHeartbeat: I64
    var status: NodeStatus
    var lamports: U64
    var operator: U64
    var treasury: U64

    ghost function State(): Node
      reads this
    {
      Node(registered, capacity, active, stake, lastHeartbeat, status, lamports, operator, treasury)
    }

    constructor (cfg: Config, operator: U64, treasury: U64, lamports: U64)
      ensures this.cfg == cfg && !registered && active == 0
      ensures this.operator == operator && this.treasury == treasury && this.lamports == lamports
    {
      this.cfg, this.operator, this.treasury, this.lamports := cfg, operator, treasury, lamports;
      registered, capacity, active, stake, lastHeartbeat, status := false, 0, 0, 0, 0, NodeActive;
    }

    method Register(now: I64, newCapacity: nat) returns (r: Result<(), NodeError>)
      modifies this
      ensures Runs(old(State()), Execute(cfg, old(State()), RegisterNode(now, newCapacity)), r, State())
    {
      if registered {
        return Err(AlreadyRegistered);
      }
      if newCapacity == 0 {
        return Err(InvalidCapacity);
      }
      var rentDue := RentDue(cfg, lamports);
      if operator < rentDue + cfg.minStake {
        return Err(TooFewLamports);
      }
      if lamports + rentDue + cfg.minStake > MAX_U64 {
        return Err(NumericOverflow);
      }
      operator := operator - rentDue - cfg.minStake;
      lamports := lamports + rentDue + cfg.minStake;
      registered, capacity, active, stake := true, newCapacity, 0, cfg.minStake;
      lastHeartbeat, status := now, NodeActive;
      return Ok(());
    }

    method Beat(now: I64) returns (r: Result<(), NodeError>)
      modifies this`lastHeartbeat
      ensures Runs(old(State()), Execute(cfg, old(State()), Heartbeat(now)), r, State())
    {
      if !registered {
        return Err(NotRegistered);
      }
      if status != NodeActive {
        return Err(NodeNotActive);
      }
      lastHeartbeat := now;
      return Ok(());
    }

    method Deregister(now: I64) returns (r: Result<(), NodeError>)
      modifies this`status, this`lastHeartbeat
      ensures Runs(old(State()), Execute(cfg, old(State()), DeregisterNode(now)), r, State())
    {
      if !registered {
        return Err(NotRegistered);
      }
      if status != NodeActive {
        return Err(NodeNotActive);
      }
      status := Deregistering;
      lastHeartbeat := now;
      return Ok(());
    }

    method Claim(now: I64) returns (r: Result<(), NodeError>)
      modifies this
      ensures Runs(old(State()), Execute(cfg, old(State()), ClaimStake(now)), r, State())
    {
      if !registered {
        return Err(NotRegistered);
      }
      if status != Deregistering {
        return Err(NodeNotDeregistering);
      }
      if active != 0 {
        return Err(ActiveInstancesRemaining);
      }
      var elapsed := SaturatingSub(now, lastHeartbeat);
      if elapsed < cfg.cooldown {
        return Err(CooldownNotElapsed);
      }
      var stakeAmount := stake;
      if lamports < stakeAmount {
        return Err(TooFewLamports);
      }
      if operator + stakeAmount > MAX_U64 {
        return Err(NumericOverflow);
      }
      stake := 0;
      status := Deregistered;
      lamports := lamports - stakeAmount;
      operator := operator + stakeAmount;
      return Ok(());
    }

    method Slash() returns (r: Result<(), NodeError>)
      modifies this
      ensures Runs(old(State()), Execute(cfg, old(State()), SlashNode), r, State())
    {
      if !registered {
        return Err(NotRegistered);
      }
      if SlashOverflows(cfg, stake) {
        return Err(NumericOverflow);
      }
      var slashAmount := SlashAmount(cfg, stake);
      if stake < slashAmount {
        return Err(NumericOverflow);
      }
      if lamports < slashAmount {
        return Err(TooFewLamports);
      }
      if treasury + slashAmount > MAX_U64 {
        return Err(NumericOverflow);
      }
      stake := stake - slashAmount;
      status := NodeSuspended;
      lamports := lamports - slashAmount;
      treasury := treasury + slashAmount;
      return Ok(());
    }
  }
}
