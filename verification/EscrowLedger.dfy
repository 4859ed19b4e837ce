/** Payment escrow of the on-chain registry: deposits, the permissionless distribution crank, refunds.
    Amounts are u64 and timestamps i64; an instruction that errors leaves no trace. */
module EscrowLedger {
  import opened Bytes

  const MAX_REPLICA_NODES := 3

  /** A token account: who may move its tokens, what it is an account of, and which one it is. */
  datatype Owner = EscrowPda | AgentKey | Someone
  datatype Account = Account(owner: Owner, mint: nat, id: nat)

  const USDC: nat := 0

  /** The escrow's associated token account, the only one that deposits go to. */
  const VAULT := Account(EscrowPda, USDC, 0)

  type Tokens = map<Account, U64>

  datatype Status = Provisioning | Active | Migrating | Suspended | Destroyed
  datatype Error =
    | InvalidAmount | Overflow | InsufficientFunds | MintMismatch | ConstraintViolated | NotInitialized

  datatype Escrow = Escrow(deposited: U64, distributed: U64, rate: U64, last: I64)

  /** One instance: its escrow account (if created), token balances, instance status, its primary node's
      active count, and the configured hourly rate. */
  datatype Ledger = Ledger(created: bool, escrow: Escrow, tokens: Tokens, status: Status, active: nat, defaultRate: U64)

  const NEW_ESCROW := Escrow(0, 0, 0, 0)

  // ----- token transfers -----

  function Balance(t: Tokens, a: Account): U64 { if a in t then t[a] else 0 }

  /** An SPL token transfer; the program skips transfers of nothing. */
  function Transfer(t: Tokens, from: Account, to: Account, amount: nat): Result<Tokens, Error> {
    if amount == 0 then Ok(t)
    else if Balance(t, from) < amount then Err(InsufficientFunds)
    else if from.mint != to.mint then Err(MintMismatch)
    else if from == to then Ok(t)
    else if Balance(t, to) + amount > MAX_U64 then Err(Overflow)
    else Ok(t[from := Balance(t, from) - amount][to := Balance(t, to) + amount])
  }

  datatype Payment = Payment(to: Account, amount: nat)

  function PayAll(t: Tokens, source: Account, payments: seq<Payment>): Result<Tokens, Error> {
    if payments == [] then Ok(t)
    else
      match PayAll(t, source, payments[..|payments| - 1])
      case Err(e) => Err(e)
      case Ok(t') => Transfer(t', source, payments[|payments| - 1].to, payments[|payments| - 1].amount)
  }

  function Total(payments: seq<Payment>): nat {
    if payments == [] then 0 else Total(payments[..|payments| - 1]) + payments[|payments| - 1].amount
  }

  /** What of the payments goes into the vault, because the recipient named is the vault. */
  function ToVault(payments: seq<Payment>): nat {
    if payments == [] then 0
    else
      ToVault(payments[..|payments| - 1])
      + if payments[|payments| - 1].to == VAULT then payments[|payments| - 1].amount else 0
  }

  // ----- instructions -----

  /** The instance account a crank names: its number of replica nodes, and whether it is this escrow's own
      instance (any instance with the same 16-byte id will do). */
  datatype Named = Named(replicas: nat, own: bool)

  /** The program's instructions on this escrow, and a transfer that some other account's owner orders. The
      program takes the account that a crank or a refund draws on from its caller. */
  datatype Instruction =
    | DepositPayment(now: I64, from: Account, amount: U64)
    | DistributePayment(now: I64, source: Account, primary: Account, extras: seq<Account>, instance: Named)
    | DestroyInstance(source: Account, to: Account)
    | TokenTransfer(from: Account, to: Account, amount: U64)

  function Deposit(l: Ledger, now: I64, from: Account, amount: U64): Result<Ledger, Error> {
    if from.owner != AgentKey || from.mint != USDC then Err(ConstraintViolated)
    else if amount == 0 then Err(InvalidAmount)
    else
      match Transfer(l.tokens, from, VAULT, amount)
      case Err(e) => Err(e)
      case Ok(t) =>
        var e := if l.escrow.deposited == 0 && l.escrow.distributed == 0 && l.escrow.rate == 0
                 then l.escrow.(rate := l.defaultRate, last := now) else l.escrow;
        if e.deposited + amount > MAX_U64 then Err(Overflow)
        else Ok(l.(created := true, escrow := e.(deposited := e.deposited + amount), tokens := t))
  }

  /** `checked_sub` on i64, then `as u64`: a negative difference becomes its two's complement. */
  function Elapsed(now: I64, last: I64): Option<U64> {
    var d := now - last;
    if d < MIN_I64 || d > MAX_I64 then None else if d < 0 then Some(d + MAX_U64 + 1) else Some(d)
  }

  /** The capped payment of a crank. */
  function Due(e: Escrow, now: I64): Result<U64, Error> {
    match Elapsed(now, e.last)
    case None => Err(Overflow)
    case Some(elapsed) =>
      if elapsed * e.rate > MAX_U64 then Err(Overflow)
      else if e.deposited < e.distributed then Err(Overflow)
      else Ok(Min(elapsed * e.rate / 3600, e.deposited - e.distributed))
  }

  function Min(a: nat, b: nat): nat { if a < b then a else b }
  function PrimaryShare(a: nat): nat { a * 70 / 100 }
  function ReplicaShare(a: nat): nat { a * 15 / 100 }

  function PaidReplicas(replicas: nat, extras: seq<Account>): (n: nat)
    ensures n <= replicas && n <= 3 && n <= |extras| && (n == replicas || n == 3 || n == |extras|)
  {
    Min(Min(replicas, MAX_REPLICA_NODES), |extras|)
  }

  /** The transfers of one crank, in order. */
  function Payments(a: nat, primary: Account, replicas: seq<Account>): seq<Payment> {
    if replicas == [] then [Payment(primary, PrimaryShare(a))]
    else Payments(a, primary, replicas[..|replicas| - 1]) + [Payment(replicas[|replicas| - 1], ReplicaShare(a))]
  }

  /** The payments of a crank, if it gets as far as paying. */
  function CrankPayments(l: Ledger, now: I64, primary: Account, extras: seq<Account>, replicas: nat): seq<Payment> {
    match Due(l.escrow, now)
    case Err(_) => []
    case Ok(a) => if a == 0 then [] else Payments(a, primary, extras[..PaidReplicas(replicas, extras)])
  }

  /** The payments made and booked. */
  function Settled(l: Ledger, now: I64, source: Account, payments: seq<Payment>, own: bool): Result<Ledger, Error> {
    match PayAll(l.tokens, source, payments)
    case Err(e) => Err(e)
    case Ok(t) =>
      var distributed := l.escrow.distributed + Total(payments);
      if distributed > MAX_U64 || l.escrow.deposited < distributed then Err(Overflow)
      else
        Ok(l.(escrow := l.escrow.(distributed := distributed, last := now), tokens := t,
              status := if own && l.escrow.deposited == distributed then Suspended else l.status))
  }

  function Crank(l: Ledger, now: I64, source: Account, primary: Account, extras: seq<Account>, instance: Named)
    : Result<Ledger, Error>
  {
    if !l.created then Err(NotInitialized)
    else if source.owner != EscrowPda then Err(ConstraintViolated)
    else
      match Due(l.escrow, now)
      case Err(e) => Err(e)
      case Ok(a) =>
        if a == 0 then Ok(l)
        else if a * 70 > MAX_U64 then Err(Overflow)
        else Settled(l, now, source, CrankPayments(l, now, primary, extras, instance.replicas), instance.own)
  }

  function Destroy(l: Ledger, source: Account, to: Account): Result<Ledger, Error> {
    if !l.created then Err(NotInitialized)
    else if source.owner != EscrowPda || to.owner != AgentKey then Err(ConstraintViolated)
    else if l.active == 0 || l.escrow.deposited < l.escrow.distributed then Err(Overflow)
    else
      match Transfer(l.tokens, source, to, l.escrow.deposited - l.escrow.distributed)
      case Err(e) => Err(e)
      case Ok(t) => Ok(l.(tokens := t, status := Destroyed, active := l.active - 1))
  }

  /** Anyone but the escrow moves tokens without the program. */
  function Move(l: Ledger, from: Account, to: Account, amount: U64): Result<Ledger, Error> {
    if from.owner == EscrowPda then Err(ConstraintViolated)
    else
      match Transfer(l.tokens, from, to, amount)
      case Err(e) => Err(e)
      case Ok(t) => Ok(l.(tokens := t))
  }

  function Execute(l: Ledger, i: Instruction): Result<Ledger, Error> {
    match i
    case DepositPayment(now, from, amount) => Deposit(l, now, from, amount)
    case DistributePayment(now, source, primary, extras, instance) => Crank(l, now, source, primary, extras, instance)
    case DestroyInstance(source, to) => Destroy(l, source, to)
    case TokenTransfer(from, to, amount) => Move(l, from, to, amount)
  }

  // ----- the split -----

  lemma {:induction false} TotalOfPayments(a: nat, primary: Account, replicas: seq<Account>)
    ensures Total(Payments(a, primary, replicas)) == PrimaryShare(a) + |replicas| * ReplicaShare(a)
  {
    var p := Payments(a, primary, replicas);
    if replicas == [] {
      assert p[..0] == [];
    } else {
      TotalOfPayments(a, primary, replicas[..|replicas| - 1]);
      assert p[..|p| - 1] == Payments(a, primary, replicas[..|replicas| - 1]);
      assert |replicas| * ReplicaShare(a) == (|replicas| - 1) * ReplicaShare(a) + ReplicaShare(a);
    }
  }

  /** Rounding: never more than (70 + 15 r)% of the capped payment, so never more than all of it with two
      replicas, and with exactly two at most 2 units less. */
  lemma SplitBounds(a: nat, primary: Account, replicas: seq<Account>)
    requires |replicas| <= MAX_REPLICA_NODES
    ensures var total := Total(Payments(a, primary, replicas));
            && 100 * total <= (70 + 15 * |replicas|) * a
            && (|replicas| <= 2 ==> total <= a)
            && (|replicas| == 2 ==> total >= a - 2)
  {
    TotalOfPayments(a, primary, replicas);
    ShareBounds(a, |replicas|);
  }

  lemma ShareBounds(a: nat, r: nat)
    requires r <= 3
    ensures var total := PrimaryShare(a) + r * ReplicaShare(a);
            100 * total <= (70 + 15 * r) * a && (r <= 2 ==> total <= a) && (r == 2 ==> total >= a - 2)
  {
    var p, q := PrimaryShare(a), ReplicaShare(a);
    assert 100 * p <= 70 * a < 100 * p + 100 && 100 * q <= 15 * a < 100 * q + 100;
    if r == 0 {
      assert r * q == 0 && (70 + 15 * r) * a == 70 * a;
    } else if r == 1 {
      assert r * q == q && (70 + 15 * r) * a == 85 * a;
    } else if r == 2 {
      assert r * q == 2 * q && (70 + 15 * r) * a == 100 * a;
    } else {
      assert r * q == 3 * q && (70 + 15 * r) * a == 115 * a;
    }
  }

  /** Three replicas: the crank then pays more than the capped payment exactly for these amounts. */
  lemma OverpaysExactlyWhen(a: nat, primary: Account, replicas: seq<Account>)
    requires |replicas| <= MAX_REPLICA_NODES
    ensures Total(Payments(a, primary, replicas)) > a <==> |replicas| == 3 && (14 <= a <= 16 || a >= 20)
  {
    TotalOfPayments(a, primary, replicas);
    if |replicas| <= 2 {
      SplitBounds(a, primary, replicas);
    } else {
      ThreeWaySplit(a);
    }
  }

  lemma ThreeWaySplit(a: nat)
    ensures PrimaryShare(a) + 3 * ReplicaShare(a) > a <==> 14 <= a <= 16 || a >= 20
  {
    if a >= 27 {
      assert PrimaryShare(a) + 3 * ReplicaShare(a) > a;
    }
  }

  /** A crank whose capped payment is 1 pays no one, yet uses up the accrued time. */
  lemma PaysNothingExactlyWhen(a: nat, primary: Account, replicas: seq<Account>)
    ensures Total(Payments(a, primary, replicas)) == 0 <==> a <= 1
  {
    TotalOfPayments(a, primary, replicas);
    if a <= 1 {
      assert |replicas| * 0 == 0;
    } else {
      assert PrimaryShare(a) >= 1;
    }
  }

  /** A crank for all that is left, with three replicas to pay, always reverts: it never empties the escrow. */
  lemma WholeRemainderReverts(l: Ledger, now: I64, source: Account, primary: Account, extras: seq<Account>,
                              instance: Named)
    requires Due(l.escrow, now) == Ok(l.escrow.deposited - l.escrow.distributed)
    requires PaidReplicas(instance.replicas, extras) == 3
    requires var rest := l.escrow.deposited - l.escrow.distributed; 14 <= rest <= 16 || rest >= 20
    ensures Crank(l, now, source, primary, extras, instance).Err?
  {
    OverpaysExactlyWhen(l.escrow.deposited - l.escrow.distributed, primary, extras[..3]);
  }

  // ----- what each instruction does, in whole numbers -----

  /** A transfer commits exactly when it moves nothing or finds funds, one mint and room; and then moves the amount. */
  lemma TransferExactly(t: Tokens, from: Account, to: Account, amount: nat)
    ensures Transfer(t, from, to, amount).Ok? <==>
            amount == 0 || (&& Balance(t, from) >= amount && from.mint == to.mint
                            && (from == to || Balance(t, to) + amount <= MAX_U64))
    ensures Transfer(t, from, to, amount).Ok? ==>
              var t' := Transfer(t, from, to, amount).value;
              && (from != to ==> && Balance(t', from) == Balance(t, from) - amount
                                 && Balance(t', to) == Balance(t, to) + amount)
              && (from == to ==> Balance(t', from) == Balance(t, from))
              && forall x :: x != from && x != to ==> Balance(t', x) == Balance(t, x)
  {
  }

  /** Other accounts' owners move what they hold, and never the program's own accounts. */
  lemma MoveExactly(l: Ledger, from: Account, to: Account, amount: U64)
    ensures Move(l, from, to, amount).Ok? <==>
            && from.owner != EscrowPda
            && (amount > 0 ==> && Balance(l.tokens, from) >= amount && from.mint == to.mint
                               && (from == to || Balance(l.tokens, to) + amount <= MAX_U64))
    ensures Move(l, from, to, amount).Ok? ==>
              var l' := Move(l, from, to, amount).value;
              && l' == l.(tokens := l'.tokens)
              && (from != to ==> && Balance(l'.tokens, from) == Balance(l.tokens, from) - amount
                                 && Balance(l'.tokens, to) == Balance(l.tokens, to) + amount)
              && (from == to ==> Balance(l'.tokens, from) == Balance(l.tokens, from))
              && forall x :: x != from && x != to ==> Balance(l'.tokens, x) == Balance(l.tokens, x)
  {
    TransferExactly(l.tokens, from, to, amount);
  }

  lemma DepositExactly(l: Ledger, now: I64, from: Account, amount: U64)
    ensures Deposit(l, now, from, amount).Ok? <==>
            && from.owner == AgentKey && from.mint == USDC && amount > 0
            && Balance(l.tokens, from) >= amount && Balance(l.tokens, VAULT) + amount <= MAX_U64
            && l.escrow.deposited + amount <= MAX_U64
    ensures Deposit(l, now, from, amount).Ok? ==>
              var l' := Deposit(l, now, from, amount).value;
              var opens := l.escrow.deposited == l.escrow.distributed == l.escrow.rate == 0;
              && l'.created && l'.status == l.status && l'.active == l.active && l'.defaultRate == l.defaultRate
              && l'.escrow == Escrow(l.escrow.deposited + amount, l.escrow.distributed,
                                     if opens then l.defaultRate else l.escrow.rate,
                                     if opens then now else l.escrow.last)
              && Balance(l'.tokens, from) == Balance(l.tokens, from) - amount
              && Balance(l'.tokens, VAULT) == Balance(l.tokens, VAULT) + amount
              && forall x :: x != from && x != VAULT ==> Balance(l'.tokens, x) == Balance(l.tokens, x)
  {
    TransferExactly(l.tokens, from, VAULT, amount);
  }

  lemma DestroyExactly(l: Ledger, source: Account, to: Account)
    ensures var rest := l.escrow.deposited - l.escrow.distributed;
            Destroy(l, source, to).Ok? <==>
            && l.created && source.owner == EscrowPda && to.owner == AgentKey && l.active > 0 && rest >= 0
            && (rest > 0 ==> && Balance(l.tokens, source) >= rest && source.mint == to.mint
                             && Balance(l.tokens, to) + rest <= MAX_U64)
    ensures Destroy(l, source, to).Ok? ==>
              var l', rest := Destroy(l, source, to).value, l.escrow.deposited - l.escrow.distributed;
              && l' == l.(tokens := l'.tokens, status := Destroyed, active := l.active - 1)
              && Balance(l'.tokens, source) == Balance(l.tokens, source) - rest
              && Balance(l'.tokens, to) == Balance(l.tokens, to) + rest
              && forall x :: x != source && x != to ==> Balance(l'.tokens, x) == Balance(l.tokens, x)
  {
    if l.escrow.deposited >= l.escrow.distributed {
      TransferExactly(l.tokens, source, to, l.escrow.deposited - l.escrow.distributed);
    }
  }

  /** The recipients are different, and none is the account drawn on. */
  ghost predicate DistinctPayees(source: Account, payments: seq<Payment>) {
    && (forall i :: 0 <= i < |payments| ==> payments[i].to != source)
    && forall i, j :: 0 <= i < j < |payments| ==> payments[i].to != payments[j].to
  }

  ghost predicate CanReceive(t: Tokens, source: Account, to: Account, amount: nat) {
    amount > 0 ==> source.mint == to.mint && Balance(t, to) + amount <= MAX_U64
  }

  /** Each recipient gets its own amount, and the source gives them all; nobody else notices. */
  ghost predicate PaysEach(t: Tokens, t': Tokens, source: Account, payments: seq<Payment>) {
    && Balance(t', source) == Balance(t, source) - Total(payments)
    && (forall k :: 0 <= k < |payments| ==>
          Balance(t', payments[k].to) == Balance(t, payments[k].to) + payments[k].amount)
    && forall x :: x != source && (forall k :: 0 <= k < |payments| ==> payments[k].to != x) ==>
        Balance(t', x) == Balance(t, x)
  }

  lemma {:induction false} PayAllExactly(t: Tokens, source: Account, payments: seq<Payment>)
    requires DistinctPayees(source, payments)
    ensures PayAll(t, source, payments).Ok? <==>
            && (Total(payments) == 0 || Balance(t, source) >= Total(payments))
            && forall k :: 0 <= k < |payments| ==> CanReceive(t, source, payments[k].to, payments[k].amount)
    ensures PayAll(t, source, payments).Ok? ==> PaysEach(t, PayAll(t, source, payments).value, source, payments)
  {
    if payments != [] {
      var front, last := payments[..|payments| - 1], payments[|payments| - 1];
      PayAllExactly(t, source, front);
      assert forall k :: 0 <= k < |front| ==> front[k] == payments[k];
      if PayAll(t, source, front).Ok? {
        var mid := PayAll(t, source, front).value;
        assert Balance(mid, last.to) == Balance(t, last.to);
        TransferExactly(mid, source, last.to, last.amount);
      }
    }
  }

  lemma {:induction false} PaymentsAre(a: nat, primary: Account, replicas: seq<Account>)
    ensures var p := Payments(a, primary, replicas);
            && |p| == 1 + |replicas| && p[0] == Payment(primary, a * 70 / 100)
            && forall k :: 0 <= k < |replicas| ==> p[k + 1] == Payment(replicas[k], a * 15 / 100)
  {
    if replicas != [] {
      PaymentsAre(a, primary, replicas[..|replicas| - 1]);
    }
  }

  /** What a crank has to pay at most: rate times the seconds passed, per hour and rounded down, or what is left. */
  ghost predicate IsDue(e: Escrow, now: I64, a: int) {
    var accrued, rest := (now - e.last) * e.rate / 3600, e.deposited - e.distributed;
    a == if accrued < rest then accrued else rest
  }

  lemma DueExactly(e: Escrow, now: I64)
    requires now >= e.last
    ensures Due(e, now).Ok? <==>
            now - e.last <= MAX_I64 && (now - e.last) * e.rate <= MAX_U64 && e.deposited >= e.distributed
    ensures Due(e, now).Ok? ==> IsDue(e, now, Due(e, now).value)
  {
  }

  /** 70%, and 15% for each of n replicas, of what is due, each share rounded down. */
  ghost predicate AreShares(a: int, n: nat, paid: int) { paid == a * 70 / 100 + n * (a * 15 / 100) }

  lemma SharesAreTotal(a: nat, primary: Account, replicas: seq<Account>, paid: int)
    requires AreShares(a, |replicas|, paid)
    ensures Total(Payments(a, primary, replicas)) == paid && (a == 0 ==> paid == 0)
  {
    TotalOfPayments(a, primary, replicas);
    if a == 0 { assert |replicas| * 0 == 0; }
  }

  /** A committed crank with no time gone back: the books grow by exactly the shares of what is due; the payout
      time moves unless nothing is due; the escrow's own instance is suspended when nothing is left. */
  lemma CrankExactly(l: Ledger, now: I64, source: Account, primary: Account, extras: seq<Account>, instance: Named,
                     a: nat, paid: int)
    requires Crank(l, now, source, primary, extras, instance).Ok? && now >= l.escrow.last && IsDue(l.escrow, now, a)
    requires AreShares(a, PaidReplicas(instance.replicas, extras), paid)
    ensures var l' := Crank(l, now, source, primary, extras, instance).value;
            && l'.escrow.distributed == l.escrow.distributed + paid
            && l'.escrow.last == (if a == 0 then l.escrow.last else now)
            && l' == l.(escrow := l.escrow.(distributed := l'.escrow.distributed, last := l'.escrow.last),
                        tokens := l'.tokens, status := l'.status)
            && l'.status == if a > 0 && instance.own && l'.escrow.distributed == l.escrow.deposited then Suspended
                            else l.status
  {
    DueExactly(l.escrow, now);
    SharesAreTotal(a, primary, extras[..PaidReplicas(instance.replicas, extras)], paid);
  }

  /** To whom a crank pays. */
  function Payees(primary: Account, extras: seq<Account>, instance: Named): (to: seq<Account>)
    ensures |to| == 1 + PaidReplicas(instance.replicas, extras) && to[0] == primary
    ensures forall k :: 1 <= k < |to| ==> to[k] == extras[k - 1]
  {
    [primary] + extras[..PaidReplicas(instance.replicas, extras)]
  }

  ghost predicate Apart(source: Account, to: seq<Account>) {
    (forall i :: 0 <= i < |to| ==> to[i] != source) && forall i, j :: 0 <= i < j < |to| ==> to[i] != to[j]
  }

  function Share(a: nat, k: nat): nat { if k == 0 then a * 70 / 100 else a * 15 / 100 }

  lemma PayeesDistinct(a: nat, source: Account, primary: Account, extras: seq<Account>, instance: Named)
    requires Apart(source, Payees(primary, extras, instance))
    ensures var p := Payments(a, primary, extras[..PaidReplicas(instance.replicas, extras)]);
            var to := Payees(primary, extras, instance);
            && DistinctPayees(source, p) && |p| == |to|
            && forall k :: 0 <= k < |p| ==> p[k] == Payment(to[k], Share(a, k))
  {
    var to, paid := Payees(primary, extras, instance), extras[..PaidReplicas(instance.replicas, extras)];
    var p := Payments(a, primary, paid);
    PaymentsAre(a, primary, paid);
    forall k | 0 <= k < |p| ensures p[k] == Payment(to[k], Share(a, k)) {
      if k > 0 { assert p[(k - 1) + 1] == Payment(paid[k - 1], a * 15 / 100); }
    }
  }

  /** Each recipient gets its own share, 70% or 15%, when they are different accounts and not the one drawn on. */
  lemma CrankPaysEach(l: Ledger, now: I64, source: Account, primary: Account, extras: seq<Account>, instance: Named,
                      a: nat, paid: int)
    requires Crank(l, now, source, primary, extras, instance).Ok? && now >= l.escrow.last && IsDue(l.escrow, now, a)
    requires AreShares(a, PaidReplicas(instance.replicas, extras), paid)
    requires Apart(source, Payees(primary, extras, instance))
    ensures var t := Crank(l, now, source, primary, extras, instance).value.tokens;
            var to := Payees(primary, extras, instance);
            && Balance(t, source) == Balance(l.tokens, source) - paid
            && Balance(t, primary) == Balance(l.tokens, primary) + a * 70 / 100
            && (forall k :: 1 <= k < |to| ==> Balance(t, to[k]) == Balance(l.tokens, to[k]) + a * 15 / 100)
            && forall x :: x != source && x !in to ==> Balance(t, x) == Balance(l.tokens, x)
  {
    DueExactly(l.escrow, now);
    var t := Crank(l, now, source, primary, extras, instance).value.tokens;
    var replicas := extras[..PaidReplicas(instance.replicas, extras)];
    SharesAreTotal(a, primary, replicas, paid);
    if a > 0 {
      assert PayAll(l.tokens, source, Payments(a, primary, replicas)) == Ok(t);
      EachPayeeGets(l.tokens, t, source, primary, extras, instance, a);
    }
  }

  lemma EachPayeeGets(t: Tokens, t': Tokens, source: Account, primary: Account, extras: seq<Account>, instance: Named,
                      a: nat)
    requires Apart(source, Payees(primary, extras, instance))
    requires PayAll(t, source, Payments(a, primary, extras[..PaidReplicas(instance.replicas, extras)])) == Ok(t')
    ensures var to := Payees(primary, extras, instance);
            && Balance(t', source)
               == Balance(t, source) - Total(Payments(a, primary, extras[..PaidReplicas(instance.replicas, extras)]))
            && (forall k :: 0 <= k < |to| ==> Balance(t', to[k]) == Balance(t, to[k]) + Share(a, k))
            && forall x :: x != source && x !in to ==> Balance(t', x) == Balance(t, x)
  {
    var to := Payees(primary, extras, instance);
    var p := Payments(a, primary, extras[..PaidReplicas(instance.replicas, extras)]);
    PayeesDistinct(a, source, primary, extras, instance);
    PayAllExactly(t, source, p);
    assert forall k :: 0 <= k < |p| ==> p[k].to == to[k] && p[k].amount == Share(a, k);
  }

  /** When a crank commits: there is an escrow and the source is its own; the time passed and its price fit their
      types; and, if anything is due, the shares fit into what is left and into what the source holds, and every
      recipient of a share has the source's mint and room. */
  lemma CrankCommitsExactlyWhen(l: Ledger, now: I64, source: Account, primary: Account, extras: seq<Account>,
                                instance: Named, a: int, paid: int)
    requires now >= l.escrow.last && IsDue(l.escrow, now, a)
    requires AreShares(a, PaidReplicas(instance.replicas, extras), paid)
    requires Apart(source, Payees(primary, extras, instance))
    ensures Crank(l, now, source, primary, extras, instance).Ok? <==>
            && l.created && source.owner == EscrowPda
            && now - l.escrow.last <= MAX_I64 && (now - l.escrow.last) * l.escrow.rate <= MAX_U64
            && l.escrow.deposited >= l.escrow.distributed
            && (a > 0 ==>
                  && a * 70 <= MAX_U64 && l.escrow.distributed + paid <= l.escrow.deposited
                  && (paid == 0 || Balance(l.tokens, source) >= paid)
                  && CanReceiveAll(l.tokens, source, Payees(primary, extras, instance), a))
  {
    DueExactly(l.escrow, now);
    if l.created && source.owner == EscrowPda && Due(l.escrow, now).Ok? && a > 0 && a * 70 <= MAX_U64 {
      SettlesExactlyWhen(l, now, source, primary, extras, instance, a, paid);
    }
  }

  ghost predicate CanReceiveAll(t: Tokens, source: Account, to: seq<Account>, a: nat) {
    forall k :: 0 <= k < |to| ==> CanReceive(t, source, to[k], Share(a, k))
  }

  lemma SettlesExactlyWhen(l: Ledger, now: I64, source: Account, primary: Account, extras: seq<Account>,
                           instance: Named, a: nat, paid: int)
    requires AreShares(a, PaidReplicas(instance.replicas, extras), paid)
    requires Apart(source, Payees(primary, extras, instance))
    ensures Settled(l, now, source, Payments(a, primary, extras[..PaidReplicas(instance.replicas, extras)]),
                    instance.own).Ok?
            <==> && l.escrow.distributed + paid <= l.escrow.deposited
                 && (paid == 0 || Balance(l.tokens, source) >= paid)
                 && CanReceiveAll(l.tokens, source, Payees(primary, extras, instance), a)
  {
    var replicas, to := extras[..PaidReplicas(instance.replicas, extras)], Payees(primary, extras, instance);
    var p := Payments(a, primary, replicas);
    PayeesDistinct(a, source, primary, extras, instance);
    SharesAreTotal(a, primary, replicas, paid);
    PayAllExactly(l.tokens, source, p);
    assert forall k :: 0 <= k < |p| ==>
             (CanReceive(l.tokens, source, p[k].to, p[k].amount) <==> CanReceive(l.tokens, source, to[k], Share(a, k)));
  }

  // ----- runs -----

  /** The ledger with what went in, out and back so far: `drawn` is what cranks paid out of the vault itself,
      `returned` what came into it other than by deposits. `first` is the time of the first deposit;
      `destroyed` counts committed destroys. */
  datatype Book = Book(ledger: Ledger, first: I64, putIn: nat, paidOut: nat, drawn: nat, returned: nat,
                       refunded: nat, destroyed: nat)

  /** What the instruction pays out as a crank. */
  function PaidBy(l: Ledger, i: Instruction): nat {
    if i.DistributePayment? && Execute(l, i).Ok?
    then Total(CrankPayments(l, i.now, i.primary, i.extras, i.instance.replicas)) else 0
  }

  function Commit(b: Book, i: Instruction): Book {
    match Execute(b.ledger, i)
    case Err(_) => b
    case Ok(l) =>
      match i
      case DepositPayment(now, _, amount) =>
        b.(ledger := l, putIn := b.putIn + amount, first := if b.ledger.created then b.first else now)
      case DistributePayment(now, source, primary, extras, instance) =>
        var payments := CrankPayments(b.ledger, now, primary, extras, instance.replicas);
        b.(ledger := l, paidOut := b.paidOut + Total(payments), returned := b.returned + ToVault(payments),
           drawn := b.drawn + if source == VAULT then Total(payments) else 0)
      case DestroyInstance(_, _) =>
        b.(ledger := l, destroyed := b.destroyed + 1,
           refunded := b.refunded + b.ledger.escrow.deposited - b.ledger.escrow.distributed)
      case TokenTransfer(_, to, amount) =>
        b.(ledger := l, returned := b.returned + if to == VAULT then amount else 0)
  }

  function Run(b: Book, instructions: seq<Instruction>): Book
    decreases |instructions|
  {
    if instructions == [] then b else Run(Commit(b, instructions[0]), instructions[1..])
  }

  /** A new instance: no escrow yet. */
  ghost predicate Opening(b: Book) {
    && !b.ledger.created && b.ledger.escrow == NEW_ESCROW
    && b.putIn == b.paidOut == b.drawn == b.returned == b.refunded == b.destroyed == 0
  }

  /** The books balance, given what the vault held at the start. */
  ghost predicate Balanced(b: Book, start: nat) {
    var e, vault := b.ledger.escrow, Balance(b.ledger.tokens, VAULT);
    && e.deposited == b.putIn
    && e.distributed == b.paidOut <= b.putIn
    && b.drawn <= b.paidOut
    && (!b.ledger.created ==> e == NEW_ESCROW && b.destroyed == 0)
    && (b.destroyed == 0 ==> b.refunded == 0 && vault == start + b.putIn - b.drawn + b.returned)
  }

  lemma {:induction false} PayAllAndVault(t: Tokens, source: Account, payments: seq<Payment>)
    requires PayAll(t, source, payments).Ok?
    ensures Balance(PayAll(t, source, payments).value, VAULT)
            == Balance(t, VAULT) - (if source == VAULT then Total(payments) else 0) + ToVault(payments)
  {
    if payments != [] {
      PayAllAndVault(t, source, payments[..|payments| - 1]);
    }
  }

  lemma CommitBalances(b: Book, start: nat, i: Instruction)
    requires Balanced(b, start)
    ensures Balanced(Commit(b, i), start)
    ensures Commit(b, i).destroyed == b.destroyed + (if i.DestroyInstance? && Execute(b.ledger, i).Ok? then 1 else 0)
  {
    if i.DistributePayment? {
      var payments := CrankPayments(b.ledger, i.now, i.primary, i.extras, i.instance.replicas);
      if PayAll(b.ledger.tokens, i.source, payments).Ok? {
        PayAllAndVault(b.ledger.tokens, i.source, payments);
      }
    }
  }

  lemma {:induction false} RunBalances(b: Book, start: nat, instructions: seq<Instruction>)
    requires Balanced(b, start)
    ensures Balanced(Run(b, instructions), start)
    decreases |instructions|
  {
    if instructions != [] {
      CommitBalances(b, start, instructions[0]);
      RunBalances(Commit(b, instructions[0]), start, instructions[1..]);
    }
  }

  /** Every committed crank of the run that pays anything draws on the vault. */
  ghost predicate DrawsOnVault(b: Book, instructions: seq<Instruction>)
    decreases |instructions|
  {
    instructions == [] ||
    (&& (PaidBy(b.ledger, instructions[0]) > 0 ==> instructions[0].source == VAULT)
     && DrawsOnVault(Commit(b, instructions[0]), instructions[1..]))
  }

  lemma CommitDraws(b: Book, i: Instruction)
    ensures var b' := Commit(b, i);
            b'.paidOut - b'.drawn
            == b.paidOut - b.drawn + if i.DistributePayment? && i.source != VAULT then PaidBy(b.ledger, i) else 0
  {
  }

  lemma {:induction false} DrawnExactly(b: Book, instructions: seq<Instruction>)
    ensures var end := Run(b, instructions);
            && end.paidOut - end.drawn >= b.paidOut - b.drawn
            && (end.paidOut - end.drawn == b.paidOut - b.drawn <==> DrawsOnVault(b, instructions))
    decreases |instructions|
  {
    if instructions != [] {
      CommitDraws(b, instructions[0]);
      DrawnExactly(Commit(b, instructions[0]), instructions[1..]);
    }
  }

  /** Escrow conservation over every run from a new instance, any accounts and any number of replicas: never
      more distributed than deposited; and until the first destroy the vault holds what it held at the start
      plus deposits minus payments (and what came in besides) exactly when every paying crank drew on it. */
  lemma EscrowConserved(b: Book, instructions: seq<Instruction>)
    requires Opening(b)
    ensures var end := Run(b, instructions);
            && end.ledger.escrow.deposited == end.putIn && end.ledger.escrow.distributed == end.paidOut
            && end.paidOut <= end.putIn
            && (end.destroyed == 0 ==>
                  (Balance(end.ledger.tokens, VAULT)
                   == Balance(b.ledger.tokens, VAULT) + end.putIn - end.paidOut + end.returned
                   <==> DrawsOnVault(b, instructions)))
  {
    RunBalances(b, Balance(b.ledger.tokens, VAULT), instructions);
    DrawnExactly(b, instructions);
  }

  /** It can fail: 100 deposited, and a crank that pays 70 tokens of another mint out of another account of the
      escrow. The vault still holds all 100, with 30 on the books. */
  lemma ForeignMintBreaks(b: Book, spare: Account, payee: Account, agent: Account)
    requires Opening(b) && b.ledger.defaultRate == 360000
    requires spare == Account(EscrowPda, 1, 0) && payee == Account(Someone, 1, 0) && agent == Account(AgentKey, USDC, 0)
    requires b.ledger.tokens == map[agent := 100, spare := 100]
    ensures var end := Run(b, [DepositPayment(0, agent, 100), DistributePayment(1, spare, payee, [], Named(0, true))]);
            && end.destroyed == 0 && Balance(end.ledger.tokens, VAULT) == 100
            && end.ledger.escrow.deposited == 100 && end.ledger.escrow.distributed == 70
  {
    var crank := DistributePayment(1, spare, payee, [], Named(0, true));
    var instructions := [DepositPayment(0, agent, 100), crank];
    var mid := Commit(b, instructions[0]);
    assert Balance(mid.ledger.tokens, spare) == 100 && Balance(mid.ledger.tokens, VAULT) == 100;
    assert Due(mid.ledger.escrow, 1) == Ok(100);
    var payments := Payments(100, payee, []);
    assert payments == [Payment(payee, 70)] && payments[..0] == [];
    TotalOfPayments(100, payee, []);
    assert Total(payments) == 70;
    assert CrankPayments(mid.ledger, 1, payee, [], 0) == payments;
    assert PayAll(mid.ledger.tokens, spare, payments) == Transfer(mid.ledger.tokens, spare, payee, 70);
    assert Run(b, instructions) == Run(mid, [crank]) == Run(Commit(mid, crank), []);
  }

  /** The first destroy settles the account: everything ever deposited was paid out or is refunded. The vault
      is back at its start, but for what came in besides, exactly when every paying crank drew on it and so
      does the refund, if there is one. */
  lemma FirstDestroySettles(b: Book, instructions: seq<Instruction>, source: Account, to: Account)
    requires Opening(b) && Run(b, instructions).destroyed == 0
    requires Execute(Run(b, instructions).ledger, DestroyInstance(source, to)).Ok?
    ensures var end := Commit(Run(b, instructions), DestroyInstance(source, to));
            && end.putIn == end.paidOut + end.refunded
            && (Balance(end.ledger.tokens, VAULT) == Balance(b.ledger.tokens, VAULT) + end.returned
                <==> DrawsOnVault(b, instructions) && (source == VAULT || end.refunded == 0))
  {
    RunBalances(b, Balance(b.ledger.tokens, VAULT), instructions);
    DrawnExactly(b, instructions);
  }

  /** Before the first destroy the vault always covers the refund; another account of the escrow has to. */
  lemma DestroyCommitsExactlyWhen(b: Book, instructions: seq<Instruction>, source: Account, to: Account)
    requires Opening(b) && Run(b, instructions).destroyed == 0
    ensures var end := Run(b, instructions);
            var rest := end.putIn - end.paidOut;
            Execute(end.ledger, DestroyInstance(source, to)).Ok? <==>
            && end.ledger.created && end.ledger.active > 0
            && source.owner == EscrowPda && to.owner == AgentKey
            && (rest > 0 ==>
                  && source.mint == to.mint && Balance(end.ledger.tokens, to) + rest <= MAX_U64
                  && (source != VAULT ==> Balance(end.ledger.tokens, source) >= rest))
  {
    RunBalances(b, Balance(b.ledger.tokens, VAULT), instructions);
  }

  // ----- total supply -----

  /** All tokens of one mint. */
  ghost function Supply(t: Tokens, mint: nat): nat
    decreases t.Keys
  {
    if t.Keys == {} then 0 else Of(t, AnyOf(t.Keys), mint) + Supply(t - {AnyOf(t.Keys)}, mint)
  }

  function Of(t: Tokens, a: Account, mint: nat): nat { if a.mint == mint then Balance(t, a) else 0 }

  lemma {:induction false} SupplyWithout(t: Tokens, a: Account, mint: nat)
    requires a in t
    ensures Supply(t, mint) == Of(t, a, mint) + Supply(t - {a}, mint)
    decreases t.Keys
  {
    var x := AnyOf(t.Keys);
    if x != a {
      SupplyWithout(t - {x}, a, mint);
      SupplyWithout(t - {a}, x, mint);
      assert t - {x} - {a} == t - {a} - {x};
    }
  }

  lemma SupplyUpdate(t: Tokens, a: Account, v: U64, mint: nat)
    ensures Supply(t[a := v], mint) == Supply(t, mint) - Of(t, a, mint) + if a.mint == mint then v else 0
  {
    SupplyWithout(t[a := v], a, mint);
    if a in t {
      SupplyWithout(t, a, mint);
      assert t[a := v] - {a} == t - {a};
    } else {
      assert t[a := v] - {a} == t;
    }
  }

  lemma TransferKeepsSupply(t: Tokens, from: Account, to: Account, amount: nat, mint: nat)
    requires Transfer(t, from, to, amount).Ok?
    ensures Supply(Transfer(t, from, to, amount).value, mint) == Supply(t, mint)
  {
    if from != to && amount != 0 {
      var mid := t[from := Balance(t, from) - amount];
      SupplyUpdate(t, from, Balance(t, from) - amount, mint);
      SupplyUpdate(mid, to, Balance(t, to) + amount, mint);
    }
  }

  lemma {:induction false} PayAllKeepsSupply(t: Tokens, source: Account, payments: seq<Payment>, mint: nat)
    requires PayAll(t, source, payments).Ok?
    ensures Supply(PayAll(t, source, payments).value, mint) == Supply(t, mint)
  {
    if payments != [] {
      PayAllKeepsSupply(t, source, payments[..|payments| - 1], mint);
      var last := payments[|payments| - 1];
      TransferKeepsSupply(PayAll(t, source, payments[..|payments| - 1]).value, source, last.to, last.amount, mint);
    }
  }

  lemma ExecuteKeepsSupply(l: Ledger, i: Instruction, mint: nat)
    requires Execute(l, i).Ok?
    ensures Supply(Execute(l, i).value.tokens, mint) == Supply(l.tokens, mint)
  {
    match i
    case DepositPayment(now, from, amount) => TransferKeepsSupply(l.tokens, from, VAULT, amount, mint);
    case DistributePayment(now, source, primary, extras, instance) =>
      if Due(l.escrow, now) != Ok(0) {
        PayAllKeepsSupply(l.tokens, source, CrankPayments(l, now, primary, extras, instance.replicas), mint);
      }
    case DestroyInstance(source, to) =>
      TransferKeepsSupply(l.tokens, source, to, l.escrow.deposited - l.escrow.distributed, mint);
    case TokenTransfer(from, to, amount) => TransferKeepsSupply(l.tokens, from, to, amount, mint);
  }

  /** No instruction, committed or reverted, makes or destroys tokens of any mint. */
  lemma {:induction false} RunKeepsSupply(b: Book, instructions: seq<Instruction>, mint: nat)
    ensures Supply(Run(b, instructions).ledger.tokens, mint) == Supply(b.ledger.tokens, mint)
    decreases |instructions|
  {
    if instructions != [] {
      if Execute(b.ledger, instructions[0]).Ok? {
        ExecuteKeepsSupply(b.ledger, instructions[0], mint);
      }
      RunKeepsSupply(Commit(b, instructions[0]), instructions[1..], mint);
    }
  }

  // ----- accrual -----

  predicate Timed(i: Instruction) { i.DepositPayment? || i.DistributePayment? }

  /** The clock never goes back. */
  ghost predicate Chronological(instructions: seq<Instruction>, since: I64)
    decreases |instructions|
  {
    instructions == [] ||
    (if Timed(instructions[0])
     then instructions[0].now >= since && Chronological(instructions[1..], instructions[0].now)
     else Chronological(instructions[1..], since))
  }

  ghost predicate PaysAtMost(instructions: seq<Instruction>, most: nat) {
    forall i :: i in instructions && i.DistributePayment? ==> PaidReplicas(i.instance.replicas, i.extras) <= most
  }

  /** Paid so far, times 360000, against the rate over the time accounted for, times the share in percent. */
  ghost predicate WithinAccrual(b: Book, most: nat) {
    var e := b.ledger.escrow;
    if b.ledger.created then
      && b.first <= e.last && e.deposited > 0 && e.rate == b.ledger.defaultRate
      && e.distributed * 360000 <= (70 + 15 * most) * (e.rate * (e.last - b.first))
    else e == NEW_ESCROW
  }

  /** A crank before the last payout time has something to pay if and only if the rate is 1, something is left,
      and the clock is at most 2^63 seconds back: it then sees at least 2^63 seconds elapsed, which any other
      rate multiplies to nothing or past 64 bits. */
  lemma BackwardDueExactlyWhen(e: Escrow, now: I64)
    requires now < e.last
    ensures Due(e, now).Ok? && Due(e, now).value > 0
            <==> e.rate == 1 && e.deposited > e.distributed && e.last - now <= MAX_I64 + 1
  {
    if e.last - now <= MAX_I64 + 1 {
      var elapsed := now - e.last + MAX_U64 + 1;
      assert Elapsed(now, e.last) == Some(elapsed) && elapsed > MAX_I64;
      if e.rate >= 2 {
        MulMonotone(elapsed, 2, e.rate);
        assert elapsed * e.rate > MAX_U64;
      } else if e.rate == 1 {
        assert elapsed * e.rate == elapsed && elapsed / 3600 > 0;
      } else {
        assert elapsed * e.rate == 0;
      }
    }
  }

  lemma CrankAccrues(distributed: nat, total: nat, a: nat, rate: nat, percent: nat, first: int, last: int, now: int)
    requires first <= last <= now
    requires distributed * 360000 <= percent * (rate * (last - first))
    requires 100 * total <= percent * a && a <= (now - last) * rate / 3600
    ensures (distributed + total) * 360000 <= percent * (rate * (now - first))
  {
    var more := (now - last) * rate;
    assert a * 3600 <= more;
    MulMonotone(percent, a * 3600, more);
    assert percent * (a * 3600) == (percent * a) * 3600;
    assert rate * (now - first) == rate * (last - first) + more;
    assert percent * (rate * (now - first)) == percent * (rate * (last - first)) + percent * more;
  }

  lemma MulMonotone(k: nat, x: int, y: int)
    requires x <= y
    ensures k * x <= k * y
  {}

  lemma MulMonotoneLeft(j: nat, k: nat, x: nat)
    requires j <= k
    ensures j * x <= k * x
  {}

  lemma PaidWithinDue(a: nat, primary: Account, paid: seq<Account>, most: nat)
    requires |paid| <= most && |paid| <= MAX_REPLICA_NODES
    ensures 100 * Total(Payments(a, primary, paid)) <= (70 + 15 * most) * a
  {
    SplitBounds(a, primary, paid);
    MulMonotoneLeft(70 + 15 * |paid|, 70 + 15 * most, a);
  }

  lemma CommitAccrues(b: Book, i: Instruction, most: nat)
    requires WithinAccrual(b, most)
    requires i.DistributePayment? ==>
               && PaidReplicas(i.instance.replicas, i.extras) <= most
               && (i.now >= b.ledger.escrow.last || b.ledger.escrow.rate != 1)
    ensures WithinAccrual(Commit(b, i), most)
    ensures b.ledger.created ==>
              Commit(b, i).first == b.first && Commit(b, i).ledger.escrow.rate == b.ledger.escrow.rate
  {
    if i.DistributePayment? && Execute(b.ledger, i).Ok? && Due(b.ledger.escrow, i.now).value != 0 {
      var e, a := b.ledger.escrow, Due(b.ledger.escrow, i.now).value;
      var total := PaidBy(b.ledger, i);
      if i.now < e.last { BackwardDueExactlyWhen(e, i.now); }
      PaidWithinDue(a, i.primary, i.extras[..PaidReplicas(i.instance.replicas, i.extras)], most);
      CrankAccrues(e.distributed, total, a, e.rate, 70 + 15 * most, b.first, e.last, i.now);
    }
  }

  /** Either the rate is not 1, or the clock never goes back from here. */
  ghost predicate SafeClock(b: Book, instructions: seq<Instruction>, since: I64) {
    || b.ledger.defaultRate != 1
    || (Chronological(instructions, since) && (b.ledger.created ==> b.ledger.escrow.last <= since))
  }

  lemma SafeClockStays(b: Book, instructions: seq<Instruction>, since: I64, most: nat)
    requires instructions != [] && SafeClock(b, instructions, since) && WithinAccrual(b, most)
    ensures SafeClock(Commit(b, instructions[0]), instructions[1..],
                      if Timed(instructions[0]) then instructions[0].now else since)
  {
  }

  lemma {:induction false} RunAccrues(b: Book, instructions: seq<Instruction>, since: I64, most: nat)
    requires WithinAccrual(b, most) && PaysAtMost(instructions, most) && SafeClock(b, instructions, since)
    ensures WithinAccrual(Run(b, instructions), most)
    ensures b.ledger.created ==>
              && Run(b, instructions).first == b.first
              && Run(b, instructions).ledger.escrow.rate == b.ledger.escrow.rate
    decreases |instructions|
  {
    if instructions != [] {
      var i := instructions[0];
      assert i in instructions && forall j :: j in instructions[1..] ==> j in instructions;
      if i.DistributePayment? && !b.ledger.created {
        RunAccrues(b, instructions[1..], i.now, most);
      } else {
        CommitAccrues(b, i, most);
        SafeClockStays(b, instructions, since, most);
        RunAccrues(Commit(b, i), instructions[1..], if Timed(i) then i.now else since, most);
      }
    }
  }

  /** Accrual bound over every run with a rate other than 1, or with a clock that never goes back: what was
      paid out never exceeds the hourly rate over the time from the first deposit to the last payout, times
      70% plus 15% per replica that any crank pays. */
  lemma AccrualBound(b: Book, instructions: seq<Instruction>, since: I64, most: nat)
    requires Opening(b) && PaysAtMost(instructions, most)
    requires b.ledger.defaultRate != 1 || Chronological(instructions, since)
    ensures var end := Run(b, instructions);
            var e := end.ledger.escrow;
            end.ledger.created ==>
              && end.first <= e.last
              && 360000 * end.paidOut <= (70 + 15 * most) * (e.rate * (e.last - end.first))
              && (most <= 2 ==> 3600 * end.paidOut <= e.rate * (e.last - end.first))
  {
    RunBalances(b, Balance(b.ledger.tokens, VAULT), instructions);
    RunAccrues(b, instructions, since, most);
    var end := Run(b, instructions);
    if end.ledger.created && most <= 2 {
      WithTwoReplicas(end.paidOut, end.ledger.escrow.rate, end.ledger.escrow.last - end.first, most);
    }
  }

  /** At rate 1 it can fail: 100 deposited at time 1000, and a crank at 999 pays 70 at once. */
  lemma RateOneBackwardsBreaks(b: Book, agent: Account, payee: Account)
    requires Opening(b) && b.ledger.defaultRate == 1 && b.ledger.tokens == map[agent := 100]
    requires agent == Account(AgentKey, USDC, 0) && payee == Account(Someone, USDC, 0)
    ensures var end := Run(b, [DepositPayment(1000, agent, 100),
                               DistributePayment(999, VAULT, payee, [], Named(0, true))]);
            end.ledger.created && end.paidOut == 70 && end.ledger.escrow.last == end.first - 1
  {
    var crank := DistributePayment(999, VAULT, payee, [], Named(0, true));
    var instructions := [DepositPayment(1000, agent, 100), crank];
    var mid := Commit(b, instructions[0]);
    assert Balance(mid.ledger.tokens, VAULT) == 100;
    assert Due(mid.ledger.escrow, 999) == Ok(100);
    var payments := Payments(100, payee, []);
    assert payments == [Payment(payee, 70)] && payments[..0] == [];
    TotalOfPayments(100, payee, []);
    assert Total(payments) == 70;
    assert CrankPayments(mid.ledger, 999, payee, [], 0) == payments;
    assert PayAll(mid.ledger.tokens, VAULT, payments) == Transfer(mid.ledger.tokens, VAULT, payee, 70);
    assert Run(b, instructions) == Run(mid, [crank]) == Run(Commit(mid, crank), []);
  }

  lemma WithTwoReplicas(paid: nat, rate: nat, time: nat, r: nat)
    requires r <= 2 && paid * 360000 <= (70 + 15 * r) * (rate * time)
    ensures 3600 * paid <= rate * time
  {
    MulMonotoneLeft(70 + 15 * r, 100, rate * time);
  }

  // ----- accrual from below -----

  /** The cranks of a run that commit with something due. */
  ghost function PayingCranks(b: Book, instructions: seq<Instruction>): nat
    decreases |instructions|
  {
    if instructions == [] then 0
    else
      (if Pays(b.ledger, instructions[0]) then 1 else 0)
      + PayingCranks(Commit(b, instructions[0]), instructions[1..])
  }

  ghost predicate Pays(l: Ledger, i: Instruction) {
    i.DistributePayment? && Execute(l, i).Ok? && Due(l.escrow, i.now) != Ok(0)
  }

  /** Every such crank pays exactly two replicas, and what has accrued does not exceed what is left. */
  ghost predicate PaysInFull(b: Book, instructions: seq<Instruction>)
    decreases |instructions|
  {
    instructions == [] ||
    (&& (Pays(b.ledger, instructions[0]) ==>
           var i, e := instructions[0], b.ledger.escrow;
           && PaidReplicas(i.instance.replicas, i.extras) == 2
           && (i.now - e.last) * e.rate / 3600 <= e.deposited - e.distributed)
     && PaysInFull(Commit(b, instructions[0]), instructions[1..]))
  }

  ghost predicate AccruedAtLeast(b: Book, cranks: nat) {
    b.ledger.created ==>
      3600 * b.ledger.escrow.distributed >= b.ledger.escrow.rate * (b.ledger.escrow.last - b.first) - 10800 * cranks
  }

  lemma CrankAtLeast(distributed: int, total: int, a: int, rate: nat, first: int, last: int, now: int, cranks: int)
    requires 3600 * distributed >= rate * (last - first) - 10800 * cranks
    requires total >= a - 2 && a == (now - last) * rate / 3600
    ensures 3600 * (distributed + total) >= rate * (now - first) - 10800 * (cranks + 1)
  {
    var more := (now - last) * rate;
    assert 3600 * a > more - 3600;
    assert rate * (now - first) == rate * (last - first) + more;
  }

  lemma CommitAtLeast(b: Book, i: Instruction, most: nat, cranks: nat)
    requires WithinAccrual(b, most) && AccruedAtLeast(b, cranks)
    requires i.DistributePayment? ==> i.now >= b.ledger.escrow.last || b.ledger.escrow.rate != 1
    requires Pays(b.ledger, i) ==>
               && PaidReplicas(i.instance.replicas, i.extras) == 2
               && (i.now - b.ledger.escrow.last) * b.ledger.escrow.rate / 3600
                  <= b.ledger.escrow.deposited - b.ledger.escrow.distributed
    ensures AccruedAtLeast(Commit(b, i), cranks + if Pays(b.ledger, i) then 1 else 0)
  {
    if Pays(b.ledger, i) {
      var e, a := b.ledger.escrow, Due(b.ledger.escrow, i.now).value;
      if i.now < e.last { BackwardDueExactlyWhen(e, i.now); }
      DueExactly(e, i.now);
      SplitBounds(a, i.primary, i.extras[..2]);
      CrankAtLeast(e.distributed, PaidBy(b.ledger, i), a, e.rate, b.first, e.last, i.now, cranks);
    }
  }

  lemma {:induction false} RunAtLeast(b: Book, instructions: seq<Instruction>, since: I64, most: nat, cranks: nat)
    requires WithinAccrual(b, most) && PaysAtMost(instructions, most) && SafeClock(b, instructions, since)
    requires AccruedAtLeast(b, cranks) && PaysInFull(b, instructions)
    ensures AccruedAtLeast(Run(b, instructions), cranks + PayingCranks(b, instructions))
    decreases |instructions|
  {
    if instructions != [] {
      var i := instructions[0];
      assert i in instructions && forall j :: j in instructions[1..] ==> j in instructions;
      if i.DistributePayment? && !b.ledger.created {
        RunAtLeast(b, instructions[1..], i.now, most, cranks);
      } else {
        CommitAccrues(b, i, most);
        CommitAtLeast(b, i, most, cranks);
        SafeClockStays(b, instructions, since, most);
        RunAtLeast(Commit(b, i), instructions[1..], if Timed(i) then i.now else since, most,
                   cranks + if Pays(b.ledger, i) then 1 else 0);
      }
    }
  }

  /** The same bound from below: over every run in which each paying crank pays two replicas and finds enough left,
      at most 3 units per paying crank are lost to rounding. */
  lemma AccrualFromBelow(b: Book, instructions: seq<Instruction>, since: I64)
    requires Opening(b) && PaysInFull(b, instructions)
    requires b.ledger.defaultRate != 1 || Chronological(instructions, since)
    ensures var end := Run(b, instructions);
            end.ledger.created ==>
              3600 * end.paidOut >= end.ledger.escrow.rate * (end.ledger.escrow.last - end.first)
                                    - 10800 * PayingCranks(b, instructions)
  {
    RunBalances(b, Balance(b.ledger.tokens, VAULT), instructions);
    RunAtLeast(b, instructions, since, 3, 0);
  }

  /** A crank either leaves the escrow as it was, when nothing is due, or moves the payout time to now. */
  lemma ZeroDueLosesNothing(l: Ledger, now: I64, source: Account, primary: Account, extras: seq<Account>,
                            instance: Named)
    requires Crank(l, now, source, primary, extras, instance).Ok?
    ensures var l' := Crank(l, now, source, primary, extras, instance).value;
            if Due(l.escrow, now) == Ok(0) then l' == l else l'.escrow.last == now
  {}

  // ----- the instructions as the program runs them -----

  /** An instruction either commits what the specification says, or reverts with its error. */
  ghost predicate Runs(before: Ledger, spec: Result<Ledger, Error>, r: Result<(), Error>, after: Ledger) {
    match spec
    case Ok(l) => r == Ok(()) && after == l
    case Err(e) => r == Err(e) && after == before
  }

  lemma PaymentsStep(a: nat, primary: Account, replicas: seq<Account>, k: nat, t: Tokens, source: Account)
    requires k < |replicas|
    ensures Payments(a, primary, replicas[..k + 1])
            == Payments(a, primary, replicas[..k]) + [Payment(replicas[k], ReplicaShare(a))]
    ensures Total(Payments(a, primary, replicas[..k + 1]))
            == Total(Payments(a, primary, replicas[..k])) + ReplicaShare(a)
    ensures PayAll(t, source, Payments(a, primary, replicas[..k + 1]))
            == match PayAll(t, source, Payments(a, primary, replicas[..k]))
               case Err(e) => Err(e)
               case Ok(t') => Transfer(t', source, replicas[k], ReplicaShare(a))
  {
    assert replicas[..k + 1][..k] == replicas[..k];
    var front := Payments(a, primary, replicas[..k]);
    assert (front + [Payment(replicas[k], ReplicaShare(a))])[..|front|] == front;
  }

  lemma {:induction false} PayErrorStays(t: Tokens, source: Account, a: nat, primary: Account, replicas: seq<Account>,
                                         k: nat)
    requires k <= |replicas| && PayAll(t, source, Payments(a, primary, replicas[..k])).Err?
    ensures PayAll(t, source, Payments(a, primary, replicas)) == PayAll(t, source, Payments(a, primary, replicas[..k]))
    decreases |replicas| - k
  {
    if k == |replicas| {
      assert replicas[..k] == replicas;
    } else {
      PaymentsStep(a, primary, replicas, k, t, source);
      PayErrorStays(t, source, a, primary, replicas, k + 1);
    }
  }

  class EscrowProgram {
    const defaultRate: U64
    var created: bool
    var deposited: U64
    var distributed: U64
    var rate: U64
    var last: I64
    var tokens: Tokens
    var status: Status
    var active: nat

    ghost function State(): Ledger
      reads this
    {
      Ledger(created, Escrow(deposited, distributed, rate, last), tokens, status, active, defaultRate)
    }

    constructor (defaultRate: U64, tokens: Tokens, active: nat)
      ensures Opening(Book(State(), 0, 0, 0, 0, 0, 0, 0))
      ensures this.defaultRate == defaultRate && this.tokens == tokens && this.active == active
    {
      this.defaultRate, this.tokens, this.active := defaultRate, tokens, active;
      created, deposited, distributed, rate, last, status := false, 0, 0, 0, 0, Provisioning;
    }

    method MoveTokens(from: Account, to: Account, amount: nat) returns (r: Result<(), Error>)
      modifies this`tokens
      ensures match Transfer(old(tokens), from, to, amount)
              case Ok(t) => r == Ok(()) && tokens == t
              case Err(e) => r == Err(e) && tokens == old(tokens)
    {
      if amount == 0 {
        return Ok(());
      }
      if Balance(tokens, from) < amount {
        return Err(InsufficientFunds);
      }
      if from.mint != to.mint {
        return Err(MintMismatch);
      }
      if from != to {
        if Balance(tokens, to) + amount > MAX_U64 {
          return Err(Overflow);
        }
        tokens := tokens[from := Balance(tokens, from) - amount][to := Balance(tokens, to) + amount];
      }
      return Ok(());
    }

    method Deposit(now: I64, from: Account, amount: U64) returns (r: Result<(), Error>)
      modifies this
      ensures Runs(old(State()), Execute(old(State()), DepositPayment(now, from, amount)), r, State())
    {
      if from.owner != AgentKey || from.mint != USDC {
        return Err(ConstraintViolated);
      }
      if amount == 0 {
        return Err(InvalidAmount);
      }
      var saved := tokens;
      r := MoveTokens(from, VAULT, amount);
      if r.Err? {
        return;
      }
      if deposited + amount > MAX_U64 {
        tokens := saved;
        return Err(Overflow);
      }
      if deposited == 0 && distributed == 0 && rate == 0 {
        rate, last := defaultRate, now;
      }
      created := true;
      deposited := deposited + amount;
    }

    /** The replica loop of `distribute_payment`, after the primary's share. */
    method PayReplicas(a: nat, source: Account, primary: Account, extras: seq<Account>, ghost start: Tokens)
      returns (r: Result<nat, Error>)
      requires PayAll(start, source, Payments(a, primary, [])) == Ok(tokens)
      modifies this`tokens
      ensures match PayAll(start, source, Payments(a, primary, extras))
              case Ok(t) => tokens == t && r == Ok(Total(Payments(a, primary, extras)))
              case Err(e) => r == Err(e)
    {
      var share := ReplicaShare(a);
      var total := PrimaryShare(a);
      assert extras[..0] == [] && Payments(a, primary, [])[..0] == [];
      for i := 0 to |extras|
        invariant PayAll(start, source, Payments(a, primary, extras[..i])) == Ok(tokens)
        invariant total == Total(Payments(a, primary, extras[..i]))
      {
        PaymentsStep(a, primary, extras, i, start, source);
        var paid := MoveTokens(source, extras[i], share);
        if paid.Err? {
          PayErrorStays(start, source, a, primary, extras, i + 1);
          return Err(paid.error);
        }
        total := total + share;
      }
      assert extras[..|extras|] == extras;
      return Ok(total);
    }

    /** The primary's share, then the replica loop. */
    method PaySplit(a: nat, source: Account, primary: Account, extras: seq<Account>) returns (r: Result<nat, Error>)
      modifies this`tokens
      ensures match PayAll(old(tokens), source, Payments(a, primary, extras))
              case Ok(t) => tokens == t && r == Ok(Total(Payments(a, primary, extras)))
              case Err(e) => r == Err(e)
    {
      ghost var start := tokens;
      var first := MoveTokens(source, primary, PrimaryShare(a));
      assert Payments(a, primary, [])[..0] == [] && extras[..0] == [];
      if first.Err? {
        PayErrorStays(start, source, a, primary, extras, 0);
        return Err(first.error);
      }
      r := PayReplicas(a, source, primary, extras, start);
    }

    /** The transfers of a crank and the bookkeeping after them. */
    method Settle(now: I64, a: nat, source: Account, primary: Account, extras: seq<Account>, own: bool)
      returns (r: Result<(), Error>)
      modifies this
      ensures Runs(old(State()), Settled(old(State()), now, source, Payments(a, primary, extras), own), r, State())
    {
      var saved := tokens;
      var total := PaySplit(a, source, primary, extras);
      if total.Err? {
        tokens := saved;
        return Err(total.error);
      }
      if distributed + total.value > MAX_U64 || deposited < distributed + total.value {
        tokens := saved;
        return Err(Overflow);
      }
      distributed := distributed + total.value;
      last := now;
      if own && deposited - distributed == 0 {
        status := Suspended;
      }
      return Ok(());
    }

    method Distribute(now: I64, source: Account, primary: Account, extras: seq<Account>, instance: Named)
      returns (r: Result<(), Error>)
      modifies this
      ensures Runs(old(State()), Execute(old(State()), DistributePayment(now, source, primary, extras, instance)),
                   r, State())
    {
      if !created {
        return Err(NotInitialized);
      }
      if source.owner != EscrowPda {
        return Err(ConstraintViolated);
      }
      var due := Due(Escrow(deposited, distributed, rate, last), now);
      if due.Err? {
        return Err(due.error);
      }
      var a := due.value;
      if a == 0 {
        return Ok(());
      }
      if a * 70 > MAX_U64 {
        return Err(Overflow);
      }
      r := Settle(now, a, source, primary, extras[..PaidReplicas(instance.replicas, extras)], instance.own);
    }

    method Destroy(source: Account, to: Account) returns (r: Result<(), Error>)
      modifies this
      ensures Runs(old(State()), Execute(old(State()), DestroyInstance(source, to)), r, State())
    {
      if !created {
        return Err(NotInitialized);
      }
      if source.owner != EscrowPda || to.owner != AgentKey {
        return Err(ConstraintViolated);
      }
      if active == 0 || deposited < distributed {
        return Err(Overflow);
      }
      r := MoveTokens(source, to, deposited - distributed);
      if r.Ok? {
        status := Destroyed;
        active := active - 1;
      }
    }
  }
}
