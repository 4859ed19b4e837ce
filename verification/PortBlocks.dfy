/** The port-block allocator: first fit in blocks of ten, in 16-bit arithmetic. */
module PortBlocks {
  import opened Bytes

  const PORTS_PER_INSTANCE := 10
  const TWO_16 := 0x1_0000

  type Port = p: int | 0 <= p < TWO_16
  type Id = string

  /** The `port_allocations` rows by base port, with the instance a block is bound to, if any. */
  type Table = map<Port, Option<Id>>

  /** `SELECT base_port ... ORDER BY base_port`, from `low` on. */
  function InOrder(table: Table, low: nat): (bases: seq<Port>)
    decreases table, TWO_16 - low
  {
    if low >= TWO_16 then []
    else (if low in table then [low] else []) + InOrder(table, low + 1)
  }

  /** `+ PORTS_PER_INSTANCE` on u16 in a release build: it wraps. */
  function Plus10(p: Port): Port {
    if p + PORTS_PER_INSTANCE < TWO_16 then p + PORTS_PER_INSTANCE else p + PORTS_PER_INSTANCE - TWO_16
  }

  /** The loop over the allocated bases. */
  function Walk(bases: seq<Port>, candidate: Port): Port {
    if bases == [] || Plus10(candidate) <= bases[0] then candidate
    else if Plus10(bases[0]) > candidate then Walk(bases[1..], Plus10(bases[0]))
    else Walk(bases[1..], candidate)
  }

  function Allocate(table: Table, start: Port, end: Port): Option<Port> {
    var candidate := Walk(InOrder(table, 0), start);
    if Plus10(candidate) > end then None else Some(candidate)
  }

  // ----- what it should find -----

  predicate Apart(a: nat, b: nat) { a + 10 <= b || b + 10 <= a }

  ghost predicate FreeBlock(table: Table, b: nat) { forall used :: used in table ==> Apart(b, used) }

  ghost predicate IsFirstFit(table: Table, start: nat, b: nat) {
    b >= start && FreeBlock(table, b) && forall x :: start <= x < b ==> !FreeBlock(table, x)
  }

  /** The loop in unbounded arithmetic. */
  function Fit(bases: seq<Port>, candidate: nat): (b: nat)
    ensures b >= candidate
  {
    if bases == [] || candidate + PORTS_PER_INSTANCE <= bases[0] then candidate
    else Fit(bases[1..], if bases[0] + PORTS_PER_INSTANCE > candidate then bases[0] + PORTS_PER_INSTANCE else candidate)
  }

  function FirstFit(table: Table, start: nat): nat { Fit(InOrder(table, 0), start) }

  ghost predicate Ascending(bases: seq<Port>) { forall i, j :: 0 <= i < j < |bases| ==> bases[i] < bases[j] }

  lemma {:induction false} InOrderLists(table: Table, low: nat)
    ensures Ascending(InOrder(table, low))
    ensures forall p :: p in InOrder(table, low) <==> p in table && p >= low
    decreases table, TWO_16 - low
  {
    if low < TWO_16 {
      InOrderLists(table, low + 1);
      var rest := InOrder(table, low + 1);
      forall i | 0 <= i < |rest| ensures rest[i] > low {
        assert rest[i] in rest;
      }
    }
  }

  ghost predicate ClearOf(bases: seq<Port>, b: nat) { forall i :: 0 <= i < |bases| ==> Apart(b, bases[i]) }

  lemma ClearOfTail(bases: seq<Port>, b: nat)
    requires bases != []
    ensures ClearOf(bases, b) <==> Apart(b, bases[0]) && ClearOf(bases[1..], b)
  {
    if Apart(b, bases[0]) && ClearOf(bases[1..], b) {
      forall i | 0 <= i < |bases| ensures Apart(b, bases[i]) {
        if i > 0 {
          assert bases[i] == bases[1..][i - 1];
        }
      }
    }
    if ClearOf(bases, b) {
      forall i | 0 <= i < |bases[1..]| ensures Apart(b, bases[1..][i]) {
        assert bases[1..][i] == bases[i + 1];
      }
    }
  }

  /** The walk ends at the least block from the candidate on that is clear of all the bases. */
  lemma {:induction false} FitIsLeast(bases: seq<Port>, candidate: nat)
    requires Ascending(bases)
    ensures ClearOf(bases, Fit(bases, candidate))
    ensures forall x :: candidate <= x < Fit(bases, candidate) ==> !ClearOf(bases, x)
  {
    if bases != [] && candidate + PORTS_PER_INSTANCE > bases[0] {
      var next := if bases[0] + PORTS_PER_INSTANCE > candidate then bases[0] + PORTS_PER_INSTANCE else candidate;
      var b := Fit(bases[1..], next);
      FitIsLeast(bases[1..], next);
      ClearOfTail(bases, b);
      forall x: nat | candidate <= x < b ensures !ClearOf(bases, x) {
        ClearOfTail(bases, x);
      }
    }
  }

  lemma ClearMeansFree(table: Table, x: nat)
    ensures ClearOf(InOrder(table, 0), x) <==> FreeBlock(table, x)
  {
    var bases := InOrder(table, 0);
    InOrderLists(table, 0);
    if ClearOf(bases, x) {
      forall used | used in table ensures Apart(x, used) {
        assert used in bases;
      }
    } else {
      var i :| 0 <= i < |bases| && !Apart(x, bases[i]);
      assert bases[i] in bases;
    }
  }

  /** Exact first fit: the least base from the start on whose ten ports avoid every allocated block. */
  lemma FirstFitIsFirstFit(table: Table, start: nat)
    ensures IsFirstFit(table, start, FirstFit(table, start))
  {
    InOrderLists(table, 0);
    FitIsLeast(InOrder(table, 0), start);
    ClearMeansFree(table, FirstFit(table, start));
    forall x: nat | start <= x < FirstFit(table, start) ensures !FreeBlock(table, x) {
      ClearMeansFree(table, x);
    }
  }

  // ----- 16 bits -----

  const LAST_BASE := TWO_16 - 1 - PORTS_PER_INSTANCE

  /** Every allocated block ends by 65535. */
  ghost predicate Fits16(table: Table) { forall used :: used in table ==> used <= LAST_BASE }

  /** The walk never goes back; up to 65525 its tests do not wrap. */
  lemma {:induction false} WalkGrows(bases: seq<Port>, candidate: Port)
    requires forall i :: 0 <= i < |bases| ==> bases[i] <= LAST_BASE
    ensures Walk(bases, candidate) >= candidate
  {
    if bases != [] {
      WalkGrows(bases[1..], candidate);
      WalkGrows(bases[1..], Plus10(bases[0]));
    }
  }

  lemma {:induction false} WalkIsFit(bases: seq<Port>, candidate: Port)
    requires forall i :: 0 <= i < |bases| ==> bases[i] <= LAST_BASE
    ensures if Fit(bases, candidate) <= LAST_BASE then Walk(bases, candidate) == Fit(bases, candidate)
            else Walk(bases, candidate) > LAST_BASE
  {
    if candidate > LAST_BASE {
      WalkGrows(bases, candidate);
    } else if bases != [] && candidate + PORTS_PER_INSTANCE > bases[0] {
      var next := bases[0] + PORTS_PER_INSTANCE;
      WalkIsFit(bases[1..], if next > candidate then next else candidate);
    }
  }

  /** What exact first fit within the range answers. */
  function Ideal(table: Table, start: Port, end: Port): Option<Port> {
    var b := FirstFit(table, start);
    if b + PORTS_PER_INSTANCE > end then None else Some(b)
  }

  /** It fails only when no free block of the range is left. */
  lemma FailsExactlyWhen(table: Table, start: Port, end: Port)
    ensures Ideal(table, start, end).None? <==>
            forall x: nat :: x >= start && x + 10 <= end ==> !FreeBlock(table, x)
  {
    FirstFitIsFirstFit(table, start);
  }

  /** The allocator is exact first fit exactly when the first free block starts at 65525 or below, or the
      wrapped end of the candidate still exceeds the range end: else the end-of-range test wraps, and a block
      that passes the end of the range is handed out. Range ends from 9 on leave only the first condition. */
  lemma ExactExactlyWhen(table: Table, start: Port, end: Port)
    requires Fits16(table)
    ensures Allocate(table, start, end) == Ideal(table, start, end) <==>
            FirstFit(table, start) <= 65525 || Plus10(Walk(InOrder(table, 0), start)) > end
    ensures end >= 9 ==>
              (Allocate(table, start, end) == Ideal(table, start, end) <==> FirstFit(table, start) <= 65525)
    ensures FirstFit(table, start) > 65525 ==> Ideal(table, start, end).None?
  {
    InOrderLists(table, 0);
    var bases := InOrder(table, 0);
    assert forall i :: 0 <= i < |bases| ==> bases[i] in bases;
    WalkIsFit(bases, start);
  }

  // ----- runs -----

  /** The allocation table; the base port recorded for every instance whose block is not freed yet; and the
      base port of every instance that is not marked destroyed. */
  datatype State = State(table: Table, live: map<Id, Port>, unmarked: map<Id, Port>)

  const EMPTY := State(map[], map[], map[])

  /** How far provisioning gets: block allocated, instance row written, block bound. */
  datatype Progress = OnlyAllocated | Recorded | Bound

  /** Teardown frees the block and then marks the instance; it may stop in between, and be repeated. */
  datatype Event = Provision(id: Id, progress: Progress) | TearDown(id: Id, marks: bool)

  function Bind(table: Table, base: Port, id: Id): Table {
    if base in table then table[base := Some(id)] else table
  }

  function Freed(table: Table, id: Id): Table { map p | p in table && table[p] != Some(id) :: table[p] }

  function Next(s: State, event: Event, start: Port, end: Port): State {
    match event
    case TearDown(id, marks) =>
      State(Freed(s.table, id), s.live - {id}, if marks then s.unmarked - {id} else s.unmarked)
    case Provision(id, progress) =>
      match Allocate(s.table, start, end)
      case None => s
      case Some(base) =>
        var table := s.table[base := None];
        if progress.OnlyAllocated? || id in s.unmarked then s.(table := table)
        else State(if progress.Bound? then Bind(table, base, id) else table, s.live[id := base], s.unmarked[id := base])
  }

  function Run(s: State, events: seq<Event>, start: Port, end: Port): State {
    if events == [] then s else Next(Run(s, events[..|events| - 1], start, end), events[|events| - 1], start, end)
  }

  ghost predicate Inv(s: State, start: Port, end: Port) {
    && (forall a, b :: a in s.table && b in s.table && a != b ==> Apart(a, b))
    && (forall a :: a in s.table ==> start <= a && a + PORTS_PER_INSTANCE <= end)
    && (forall id :: id in s.live ==>
          s.live[id] in s.table && (s.table[s.live[id]].None? || s.table[s.live[id]] == Some(id)))
    && (forall a :: a in s.table && s.table[a].Some? ==>
          s.table[a].value in s.live && s.live[s.table[a].value] == a)
    && (forall i, j :: i in s.live && j in s.live && i != j ==> s.live[i] != s.live[j])
    && (forall id :: id in s.live ==> id in s.unmarked && s.unmarked[id] == s.live[id])
  }

  lemma NewBlock(s: State, start: Port, end: Port)
    requires Inv(s, start, end) && start <= LAST_BASE && end <= LAST_BASE
    requires Allocate(s.table, start, end).Some?
    ensures var base := Allocate(s.table, start, end).value;
            start <= base && base + PORTS_PER_INSTANCE <= end && forall a :: a in s.table ==> Apart(base, a)
  {
    FirstFitIsFirstFit(s.table, start);
    ExactExactlyWhen(s.table, start, end);
    assert FreeBlock(s.table, LAST_BASE);
  }

  lemma TearDownKeeps(s: State, id: Id, marks: bool, start: Port, end: Port)
    requires Inv(s, start, end)
    ensures Inv(Next(s, TearDown(id, marks), start, end), start, end)
  {
    var t := Freed(s.table, id);
    assert forall a :: a in t <==> a in s.table && s.table[a] != Some(id);
    assert forall a :: a in t ==> t[a] == s.table[a];
  }

  /** A new base joins the table, and the live instances if one came up on it. */
  lemma JoinKeeps(s: State, base: Port, start: Port, end: Port, id: Id, bound: bool)
    requires Inv(s, start, end) && start <= base && base + PORTS_PER_INSTANCE <= end
    requires forall a :: a in s.table ==> Apart(base, a)
    ensures Inv(s.(table := s.table[base := None]), start, end)
    ensures id !in s.unmarked ==>
              Inv(State(s.table[base := if bound then Some(id) else None], s.live[id := base], s.unmarked[id := base]),
                  start, end)
  {
    assert base !in s.table;
  }

  lemma NextKeeps(s: State, event: Event, start: Port, end: Port)
    requires Inv(s, start, end) && start <= LAST_BASE && end <= LAST_BASE
    ensures Inv(Next(s, event, start, end), start, end)
  {
    match event
    case TearDown(id, marks) => TearDownKeeps(s, id, marks, start, end);
    case Provision(id, progress) =>
      if Allocate(s.table, start, end).Some? {
        var base := Allocate(s.table, start, end).value;
        NewBlock(s, start, end);
        JoinKeeps(s, base, start, end, id, progress.Bound?);
        assert s.table[base := None][base := Some(id)] == s.table[base := Some(id)];
      }
  }

  lemma {:induction false} RunKeeps(events: seq<Event>, start: Port, end: Port)
    requires start <= LAST_BASE && end <= LAST_BASE
    ensures Inv(Run(EMPTY, events, start, end), start, end)
  {
    if events != [] {
      RunKeeps(events[..|events| - 1], start, end);
      NextKeeps(Run(EMPTY, events[..|events| - 1], start, end), events[|events| - 1], start, end);
    }
  }

  /** What provisioning and teardown do to the tables: a provisioned instance gets the block found, bound to it;
      teardown takes its block, and no other, out of the table. */
  lemma ProvisionExactly(s: State, id: Id, progress: Progress, start: Port, end: Port)
    ensures var s' := Next(s, Provision(id, progress), start, end);
            match Allocate(s.table, start, end)
            case None => s' == s
            case Some(base) =>
              if progress.OnlyAllocated? || id in s.unmarked then s' == s.(table := s.table[base := None])
              else
                && s'.table == s.table[base := if progress.Bound? then Some(id) else None]
                && s'.live == s.live[id := base] && s'.unmarked == s.unmarked[id := base]
  {
    if Allocate(s.table, start, end).Some? {
      var base := Allocate(s.table, start, end).value;
      assert s.table[base := None][base := Some(id)] == s.table[base := Some(id)];
    }
  }

  lemma TearDownExactly(s: State, id: Id, marks: bool, start: Port, end: Port)
    ensures var s' := Next(s, TearDown(id, marks), start, end);
            && (forall p :: p in s'.table <==> p in s.table && s.table[p] != Some(id))
            && (forall p :: p in s'.table ==> s'.table[p] == s.table[p])
            && s'.live == s.live - {id} && s'.unmarked == if marks then s.unmarked - {id} else s.unmarked
  {
  }

  /** The ports of a block: kong at +0 up to functions at +8, and the Next.js sidecar at +9. */
  ghost predicate Uses(base: Port, port: int) { base <= port < base + 10 }

  /** In every reachable state no port belongs to two live instances, and all lie within the range. */
  lemma NoSharedPort(events: seq<Event>, start: Port, end: Port, i: Id, j: Id, port: int)
    requires start <= 65525 && end <= 65525
    requires var live := Run(EMPTY, events, start, end).live;
             i in live && j in live && Uses(live[i], port)
    ensures start <= port < end
    ensures i != j ==> !Uses(Run(EMPTY, events, start, end).live[j], port)
  {
    RunKeeps(events, start, end);
    SeparateBlocks(Run(EMPTY, events, start, end), start, end, i, j, port);
  }

  /** Between freeing and marking the guarantee is gone: an instance whose teardown stopped there still has its
      row, and the next one gets its ports. Two unmarked instances share a port only when one of them is freed. */
  lemma SharedOnlyAfterFreeing(events: seq<Event>, start: Port, end: Port, i: Id, j: Id, port: int)
    requires start <= LAST_BASE && end <= LAST_BASE && i != j
    requires var unmarked := Run(EMPTY, events, start, end).unmarked;
             i in unmarked && j in unmarked && Uses(unmarked[i], port) && Uses(unmarked[j], port)
    ensures i !in Run(EMPTY, events, start, end).live || j !in Run(EMPTY, events, start, end).live
  {
    RunKeeps(events, start, end);
    var s := Run(EMPTY, events, start, end);
    if i in s.live && j in s.live {
      SeparateBlocks(s, start, end, i, j, port);
    }
  }

  lemma StoppedTearDownShares(s: State, i: Id, j: Id, start: Port, end: Port)
    requires Inv(s, start, end) && start <= LAST_BASE && end <= LAST_BASE
    requires i in s.live && j !in s.unmarked && s.table[s.live[i]] == Some(i)
    requires IsFirstFit(Freed(s.table, i), start, s.live[i])
    ensures var s' := Next(Next(s, TearDown(i, false), start, end), Provision(j, Bound), start, end);
            i in s'.unmarked && j in s'.live && s'.unmarked[i] == s'.live[j]
  {
    var mid := Next(s, TearDown(i, false), start, end);
    TearDownKeeps(s, i, false, start, end);
    FirstFitIsFirstFit(mid.table, start);
    FirstFitUnique(mid.table, start, FirstFit(mid.table, start), s.live[i]);
    ExactExactlyWhen(mid.table, start, end);
  }

  lemma FirstFitUnique(table: Table, start: nat, a: nat, b: nat)
    requires IsFirstFit(table, start, a) && IsFirstFit(table, start, b)
    ensures a == b
  {
  }

  lemma SeparateBlocks(s: State, start: Port, end: Port, i: Id, j: Id, port: int)
    requires Inv(s, start, end) && i in s.live && j in s.live && Uses(s.live[i], port)
    ensures start <= port < end && (i != j ==> !Uses(s.live[j], port))
  {
    assert i != j ==> Apart(s.live[i], s.live[j]);
  }

  // ----- the database's methods -----

  class PortAllocations {
    var table: Table

    constructor ()
      ensures table == map[]
    {
      table := map[];
    }

    method AllocatePortBlock(rangeStart: Port, rangeEnd: Port) returns (r: Option<Port>)
      modifies this
      ensures r == Allocate(old(table), rangeStart, rangeEnd)
      ensures table == if r.Some? then old(table)[r.value := None] else old(table)
    {
      var bases := InOrder(table, 0);
      var candidate := rangeStart;
      assert bases[0..] == bases;
      for i := 0 to |bases|
        invariant Walk(bases[i..], candidate) == Walk(bases, rangeStart)
      {
        var used := bases[i];
        assert bases[i..][1..] == bases[i + 1..];
        if Plus10(candidate) <= used {
          assert Walk(bases[i..], candidate) == candidate;
          break;
        }
        if Plus10(used) > candidate {
          candidate := Plus10(used);
        }
      }
      if Plus10(candidate) > rangeEnd {
        return None;
      }
      table := table[candidate := None];
      return Some(candidate);
    }

    method BindPortToInstance(basePort: Port, id: Id)
      modifies this
      ensures table == if basePort in old(table) then old(table)[basePort := Some(id)] else old(table)
    {
      if basePort in table {
        table := table[basePort := Some(id)];
      }
    }

    method FreePortBlock(id: Id)
      modifies this
      ensures table == Freed(old(table), id)
      ensures forall p :: p in table <==> p in old(table) && old(table)[p] != Some(id)
      ensures forall p :: p in table ==> table[p] == old(table)[p]
    {
      table := map p | p in table && table[p] != Some(id) :: table[p];
    }
  }
}
