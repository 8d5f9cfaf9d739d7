/** The lock-free client registry of src/client.c as a transition system: one transition per atomic
  * access to shared memory, taken by any thread in any order. */
module ClientRegistry {
  import opened Counting
  import opened Options

  const SLOT_COUNT := 32
  /** connection_count is a size_t. */
  const WORD := 0x1_0000_0000_0000_0000

  type Conn = nat

  /** What a slot holds. The ticket numbers the registration; it is history that no transition reads. */
  datatype Claim = Claim(conn: Conn, ticket: nat)

  datatype Operation = Register(conn: Conn) | Unregister(conn: Conn) | Destroy

  /** Where a thread stands: the atomic access it performs next. */
  datatype Thread =
    | Idle
    | RegLoadShutdown(conn: Conn)
    | RegLoadOwner(conn: Conn)
    | RegCas(conn: Conn, i: nat)
    | RegStoreOwner(conn: Conn)
    | RegStoreActive(conn: Conn)
    | RegCount
    | UnregCas(conn: Conn, i: nat)
    | DestroyMark
    | DestroyExchange(i: nat)
    | DropCount(claim: Claim, resume: Option<nat>)
    | DropActive(claim: Claim, resume: Option<nat>)
    | DropOwner(claim: Claim, resume: Option<nat>)
    | DropDetach(claim: Claim, resume: Option<nat>)

  datatype State = State(
    shuttingDown: bool,
    count: nat,
    slots: seq<Option<Claim>>,
    owned: set<Conn>,
    active: set<Conn>,
    threads: seq<Thread>,
    issued: seq<Conn>,
    detached: seq<Claim>)

  function Init(threadCount: nat): (s: State) {
    State(false, 0, seq(SLOT_COUNT, _ => None), {}, {}, seq(threadCount, _ => Idle), [], [])
  }

  function Enter(op: Operation): (t: Thread) {
    match op
    case Register(conn) => RegLoadShutdown(conn)
    case Unregister(conn) => UnregCas(conn, 0)
    case Destroy => DestroyMark
  }

  /** A loop over the slots that has reached index i. */
  function RegisterFrom(conn: Conn, i: nat): Thread {
    if i < SLOT_COUNT then RegCas(conn, i) else Idle
  }

  function UnregisterFrom(conn: Conn, i: nat): Thread {
    if i < SLOT_COUNT then UnregCas(conn, i) else Idle
  }

  function DestroyFrom(i: nat): Thread {
    if i < SLOT_COUNT then DestroyExchange(i) else Idle
  }

  predicate HoldsClaim(t: Thread) {
    t.DropCount? || t.DropActive? || t.DropOwner? || t.DropDetach?
  }

  predicate InRange(t: Thread) {
    t.RegCas? || t.UnregCas? || t.DestroyExchange? ==> t.i < SLOT_COUNT
  }

  predicate WellFormed(s: State) {
    && |s.slots| == SLOT_COUNT
    && forall t :: 0 <= t < |s.threads| ==> InRange(s.threads[t])
  }

  /** One atomic access to shared memory; Load stands for every access that changes nothing. */
  datatype Access =
    | Load
    | MarkShutdown
    | FillSlot(i: nat, conn: Conn)
    | ClearSlot(i: nat)
    | AddCount(delta: int)
    | SetOwner(conn: Conn, on: bool)
    | SetActive(conn: Conn, on: bool)
    | Detach(claim: Claim)

  /** The access thread th performs in s and where it stands afterwards; an idle thread enters op. */
  function Perform(s: State, th: Thread, op: Operation): (r: (Access, Thread))
    requires |s.slots| == SLOT_COUNT && InRange(th)
    ensures InRange(r.1)
    ensures r.0.FillSlot? ==> r.0.i < SLOT_COUNT && s.slots[r.0.i].None?
    ensures r.0.ClearSlot? ==> r.0.i < SLOT_COUNT && s.slots[r.0.i].Some?
  {
    match th
    case Idle => (Load, Enter(op))
    case RegLoadShutdown(conn) => (Load, if s.shuttingDown then Idle else RegLoadOwner(conn))
    case RegLoadOwner(conn) => (Load, if conn in s.owned then Idle else RegCas(conn, 0))
    case RegCas(conn, i) =>
      if s.slots[i].Some? then (Load, RegisterFrom(conn, i + 1)) else (FillSlot(i, conn), RegStoreOwner(conn))
    case RegStoreOwner(conn) => (SetOwner(conn, true), RegStoreActive(conn))
    case RegStoreActive(conn) => (SetActive(conn, true), RegCount)
    case RegCount => (AddCount(1), Idle)
    case UnregCas(conn, i) =>
      if s.slots[i].Some? && s.slots[i].value.conn == conn
      then (ClearSlot(i), DropCount(s.slots[i].value, None))
      else (Load, UnregisterFrom(conn, i + 1))
    case DestroyMark => (MarkShutdown, DestroyExchange(0))
    case DestroyExchange(i) =>
      if s.slots[i].Some? then (ClearSlot(i), DropCount(s.slots[i].value, Some(i + 1)))
      else (Load, DestroyFrom(i + 1))
    case DropCount(claim, resume) => (AddCount(-1), DropActive(claim, resume))
    case DropActive(claim, resume) => (SetActive(claim.conn, false), DropOwner(claim, resume))
    case DropOwner(claim, resume) => (SetOwner(claim.conn, false), DropDetach(claim, resume))
    case DropDetach(claim, resume) => (Detach(claim), if resume.Some? then DestroyFrom(resume.value) else Idle)
  }

  function NewClaim(s: State, conn: Conn): Claim {
    Claim(conn, |s.issued|)
  }

  function Commit(s: State, access: Access): (s': State)
    requires access.FillSlot? || access.ClearSlot? ==> access.i < |s.slots|
  {
    match access
    case Load => s
    case MarkShutdown => s.(shuttingDown := true)
    case FillSlot(i, conn) => s.(slots := s.slots[i := Some(NewClaim(s, conn))], issued := s.issued + [conn])
    case ClearSlot(i) => s.(slots := s.slots[i := None])
    case AddCount(delta) => s.(count := (s.count + delta) % WORD)
    case SetOwner(conn, on) => s.(owned := if on then s.owned + {conn} else s.owned - {conn})
    case SetActive(conn, on) => s.(active := if on then s.active + {conn} else s.active - {conn})
    case Detach(claim) => s.(detached := s.detached + [claim])
  }

  /** The transition thread t takes from s. */
  function Step(s: State, t: nat, op: Operation): (s': State)
    requires WellFormed(s) && t < |s.threads|
    ensures WellFormed(s') && |s'.threads| == |s.threads|
  {
    var (access, next) := Perform(s, s.threads[t], op);
    Commit(s, access).(threads := s.threads[t := next])
  }

  /** A schedule names, for each transition, the thread that moves and what it enters if idle. */
  type Schedule = seq<(nat, Operation)>

  function Run(s: State, schedule: Schedule): (s': State)
    requires WellFormed(s)
    ensures WellFormed(s') && |s'.threads| == |s.threads|
    decreases |schedule|
  {
    if schedule == [] then s else Run(Move(s, schedule[0]), schedule[1..])
  }

  function Move(s: State, entry: (nat, Operation)): (s': State)
    requires WellFormed(s)
    ensures WellFormed(s') && |s'.threads| == |s.threads|
  {
    if entry.0 < |s.threads| then Step(s, entry.0, entry.1) else s
  }

  // ---- Weighing slots and threads ----

  function IsSome(slot: Option<Claim>): int {
    if slot.Some? then 1 else 0
  }

  function IsPendingIncrement(t: Thread): int {
    if t.RegStoreOwner? || t.RegStoreActive? || t.RegCount? then 1 else 0
  }

  function IsPendingDecrement(t: Thread): int {
    if t.DropCount? then 1 else 0
  }

  function Occupied(s: State): int {
    Total(s.slots, IsSome)
  }

  function PendingIncrements(s: State): int {
    Total(s.threads, IsPendingIncrement)
  }

  function PendingDecrements(s: State): int {
    Total(s.threads, IsPendingDecrement)
  }

  /** A weight of claims, lifted to the places that can hold one. */
  function OnSlot(weight: Claim -> int): Option<Claim> -> int {
    (slot: Option<Claim>) => if slot.Some? then weight(slot.value) else 0
  }

  function ThreadWeight(weight: Claim -> int, t: Thread): int {
    if HoldsClaim(t) then weight(t.claim) else 0
  }

  function OnThread(weight: Claim -> int): Thread -> int {
    (t: Thread) => ThreadWeight(weight, t)
  }

  /** The weight of all claims: in slots, in the hands of removers, and in the detach log. */
  function Everywhere(s: State, weight: Claim -> int): int {
    Total(s.slots, OnSlot(weight)) + Total(s.threads, OnThread(weight)) + Total(s.detached, weight)
  }

  function HasTicket(ticket: nat): Claim -> int {
    (c: Claim) => if c.ticket == ticket then 1 else 0
  }

  function HasConn(conn: Conn): Claim -> int {
    (c: Claim) => if c.conn == conn then 1 else 0
  }

  function IsConn(conn: Conn): Conn -> int {
    (c: Conn) => if c == conn then 1 else 0
  }

  // ---- Invariants ----

  /** What the counter stands for, before it is cut to a machine word. */
  function Expected(s: State): int {
    Occupied(s) - PendingIncrements(s) + PendingDecrements(s)
  }

  predicate CounterInv(s: State) {
    s.count == Expected(s) % WORD
  }

  /** Every registration's ticket is in exactly one place: a slot, a remover's hands, or the detach log. */
  ghost predicate TicketInv(s: State) {
    forall ticket: nat :: Everywhere(s, HasTicket(ticket)) == if ticket < |s.issued| then 1 else 0
  }

  /** Each connection's registrations are all accounted for. */
  ghost predicate ConnInv(s: State) {
    forall conn: Conn :: Everywhere(s, HasConn(conn)) == Total(s.issued, IsConn(conn))
  }

  /** What one access adds to the number of occupied slots. */
  function Filled(access: Access): int {
    if access.FillSlot? then 1 else if access.ClearSlot? then -1 else 0
  }

  /** Locally, a change of the counter or of a slot is always balanced by the thread's pending work. */
  lemma PerformBalances(s: State, th: Thread, op: Operation)
    requires |s.slots| == SLOT_COUNT && InRange(th)
    ensures var (access, next) := Perform(s, th, op);
            (if access.AddCount? then access.delta else 0) ==
              Filled(access)
              - (IsPendingIncrement(next) - IsPendingIncrement(th))
              + (IsPendingDecrement(next) - IsPendingDecrement(th))
  {
  }

  lemma CommitOccupies(s: State, access: Access)
    requires access.FillSlot? ==> access.i < |s.slots| && s.slots[access.i].None?
    requires access.ClearSlot? ==> access.i < |s.slots| && s.slots[access.i].Some?
    ensures Occupied(Commit(s, access)) == Occupied(s) + Filled(access)
  {
    if access.FillSlot? || access.ClearSlot? {
      TotalOfUpdate(s.slots, access.i, Commit(s, access).slots[access.i], IsSome);
    }
  }

  lemma StepShiftsExpected(s: State, t: nat, op: Operation)
    requires WellFormed(s) && t < |s.threads|
    ensures var access := Perform(s, s.threads[t], op).0;
            Expected(Step(s, t, op)) == Expected(s) + if access.AddCount? then access.delta else 0
  {
    var (access, next) := Perform(s, s.threads[t], op);
    PerformBalances(s, s.threads[t], op);
    CommitOccupies(s, access);
    TotalOfUpdate(s.threads, t, next, IsPendingIncrement);
    TotalOfUpdate(s.threads, t, next, IsPendingDecrement);
  }

  lemma WordSum(x: int, d: int)
    ensures (x % WORD + d) % WORD == (x + d) % WORD
  {
    assert x + d == x / WORD * WORD + (x % WORD + d);
  }

  lemma StepCounts(s: State, t: nat, op: Operation)
    requires WellFormed(s) && t < |s.threads|
    ensures var access := Perform(s, s.threads[t], op).0;
            Step(s, t, op).count == if access.AddCount? then (s.count + access.delta) % WORD else s.count
  {
  }

  lemma StepKeepsCounter(s: State, t: nat, op: Operation)
    requires WellFormed(s) && t < |s.threads| && CounterInv(s)
    ensures CounterInv(Step(s, t, op))
  {
    var access := Perform(s, s.threads[t], op).0;
    StepShiftsExpected(s, t, op);
    StepCounts(s, t, op);
    if access.AddCount? {
      WordSum(Expected(s), access.delta);
    }
  }

  /** Locally, a claim leaving a slot or a thread arrives in the thread or in the detach log. */
  lemma PerformPassesClaim(s: State, th: Thread, op: Operation, weight: Claim -> int)
    requires |s.slots| == SLOT_COUNT && InRange(th)
    ensures var (access, next) := Perform(s, th, op);
            OnThread(weight)(next) - OnThread(weight)(th) ==
              if access.ClearSlot? then OnSlot(weight)(s.slots[access.i])
              else if access.Detach? then -weight(access.claim)
              else 0
  {
  }

  /** A transition moves claims between places; only a successful registration adds one. */
  lemma StepMovesClaims(s: State, t: nat, op: Operation, weight: Claim -> int)
    requires WellFormed(s) && t < |s.threads|
    ensures var access := Perform(s, s.threads[t], op).0;
            Everywhere(Step(s, t, op), weight) ==
              Everywhere(s, weight) + if access.FillSlot? then weight(NewClaim(s, access.conn)) else 0
  {
    var s' := Step(s, t, op);
    var (access, next) := Perform(s, s.threads[t], op);
    PerformPassesClaim(s, s.threads[t], op, weight);
    TotalOfUpdate(s.threads, t, next, OnThread(weight));
    if access.FillSlot? || access.ClearSlot? {
      TotalOfUpdate(s.slots, access.i, s'.slots[access.i], OnSlot(weight));
    } else if access.Detach? {
      TotalOfAppend(s.detached, access.claim, weight);
    }
  }

  lemma StepKeepsClaims(s: State, t: nat, op: Operation)
    requires WellFormed(s) && t < |s.threads| && TicketInv(s) && ConnInv(s)
    ensures TicketInv(Step(s, t, op)) && ConnInv(Step(s, t, op))
  {
    var access := Perform(s, s.threads[t], op).0;
    forall ticket: nat
      ensures Everywhere(Step(s, t, op), HasTicket(ticket)) == if ticket < |Step(s, t, op).issued| then 1 else 0
    {
      StepMovesClaims(s, t, op, HasTicket(ticket));
    }
    forall conn: Conn
      ensures Everywhere(Step(s, t, op), HasConn(conn)) == Total(Step(s, t, op).issued, IsConn(conn))
    {
      StepMovesClaims(s, t, op, HasConn(conn));
      if access.FillSlot? {
        TotalOfAppend(s.issued, access.conn, IsConn(conn));
      }
    }
  }

  // ---- Every reachable state ----

  ghost predicate Inv(s: State) {
    WellFormed(s) && CounterInv(s) && TicketInv(s) && ConnInv(s)
  }

  lemma InitHolds(threadCount: nat)
    ensures Inv(Init(threadCount))
  {
    var s := Init(threadCount);
    TotalOfConstant(SLOT_COUNT, None, IsSome);
    TotalOfConstant(threadCount, Idle, IsPendingIncrement);
    TotalOfConstant(threadCount, Idle, IsPendingDecrement);
    forall weight: Claim -> int
      ensures Everywhere(s, weight) == 0
    {
      TotalOfConstant(SLOT_COUNT, None, OnSlot(weight));
      TotalOfConstant(threadCount, Idle, OnThread(weight));
    }
  }

  lemma {:induction false} RunKeepsInv(s: State, schedule: Schedule)
    requires Inv(s)
    ensures Inv(Run(s, schedule))
    decreases |schedule|
  {
    if schedule == [] {
    } else {
      var (t, op) := schedule[0];
      if t < |s.threads| {
        StepKeepsCounter(s, t, op);
        StepKeepsClaims(s, t, op);
        RunKeepsInv(Step(s, t, op), schedule[1..]);
      } else {
        RunKeepsInv(s, schedule[1..]);
      }
    }
  }

  /** In every interleaving: the counter is the number of occupied slots, less the increments and
    * plus the decrements still to be performed, as a machine word. */
  lemma CounterInEveryRun(threadCount: nat, schedule: Schedule)
    ensures var s := Run(Init(threadCount), schedule);
            s.count == (Occupied(s) - PendingIncrements(s) + PendingDecrements(s)) % WORD
  {
    InitHolds(threadCount);
    RunKeepsInv(Init(threadCount), schedule);
  }

  /** In every interleaving: a registration is detached at most once, and once detached is in no
    * slot and in no remover's hands, however unregister and destroy race. */
  lemma DetachedOnceInEveryRun(threadCount: nat, schedule: Schedule, i: nat)
    requires i < |Run(Init(threadCount), schedule).detached|
    ensures var s := Run(Init(threadCount), schedule);
            var ticket := s.detached[i].ticket;
            && ticket < |s.issued|
            && (forall j :: i < j < |s.detached| ==> s.detached[j].ticket != ticket)
            && (forall k :: 0 <= k < |s.slots| && s.slots[k].Some? ==> s.slots[k].value.ticket != ticket)
            && (forall t :: 0 <= t < |s.threads| && HoldsClaim(s.threads[t]) ==> s.threads[t].claim.ticket != ticket)
  {
    InitHolds(threadCount);
    RunKeepsInv(Init(threadCount), schedule);
    var s := Run(Init(threadCount), schedule);
    var ticket := s.detached[i].ticket;
    var weight := HasTicket(ticket);
    TotalBounds(s.detached, i, weight);
    TotalNonNegative(s.slots, OnSlot(weight));
    TotalNonNegative(s.threads, OnThread(weight));
    assert Everywhere(s, weight) <= 1;
    forall k | 0 <= k < |s.slots| && s.slots[k].Some?
      ensures s.slots[k].value.ticket != ticket
    {
      TotalBounds(s.slots, k, OnSlot(weight));
    }
    forall t | 0 <= t < |s.threads| && HoldsClaim(s.threads[t])
      ensures s.threads[t].claim.ticket != ticket
    {
      TotalBounds(s.threads, t, OnThread(weight));
    }
  }

  ghost predicate Quiet(s: State) {
    forall t :: 0 <= t < |s.threads| ==> s.threads[t].Idle?
  }

  /** Whenever no operation is in progress the counter is exact and every connection's registrations
    * are either still in a slot or have been detached, once each. */
  lemma QuietStates(threadCount: nat, schedule: Schedule, conn: Conn)
    requires Quiet(Run(Init(threadCount), schedule))
    ensures var s := Run(Init(threadCount), schedule);
            && s.count == Occupied(s)
            && Total(s.issued, IsConn(conn)) == Total(s.slots, OnSlot(HasConn(conn))) + Total(s.detached, HasConn(conn))
  {
    CounterExactly(threadCount, schedule);
    InitHolds(threadCount);
    RunKeepsInv(Init(threadCount), schedule);
    var s := Run(Init(threadCount), schedule);
    TotalAllZero(s.threads, IsPendingIncrement);
    TotalAllZero(s.threads, IsPendingDecrement);
    TotalAllZero(s.threads, OnThread(HasConn(conn)));
    assert Everywhere(s, HasConn(conn)) == Total(s.issued, IsConn(conn));
  }

  lemma WordOf(x: int, d: int)
    requires 0 <= x < WORD
    ensures (x + d) % WORD == x <==> d % WORD == 0
  {
    var (q, r) := (d / WORD, d % WORD);
    assert x + d == q * WORD + (x + r);
    if x + r < WORD {
      assert (x + d) % WORD == x + r;
    } else {
      assert x + d == (q + 1) * WORD + (x + r - WORD);
      assert (x + d) % WORD == x + r - WORD;
    }
  }

  /** The exact condition: in every interleaving the counter shows the occupied slots if and only if the
    * increments and the decrements still to be performed balance, as machine words. */
  lemma CounterExactly(threadCount: nat, schedule: Schedule)
    ensures var s := Run(Init(threadCount), schedule);
            s.count == Occupied(s) <==> (PendingDecrements(s) - PendingIncrements(s)) % WORD == 0
  {
    CounterInEveryRun(threadCount, schedule);
    var s := Run(Init(threadCount), schedule);
    OccupiedBound(s.slots);
    WordOf(Occupied(s), PendingDecrements(s) - PendingIncrements(s));
  }

  lemma {:induction false} OccupiedBound(slots: seq<Option<Claim>>)
    ensures 0 <= Total(slots, IsSome) <= |slots|
  {
    if slots == [] {
    } else {
      OccupiedBound(slots[1..]);
    }
  }

  lemma RunOfTwo(s: State, a: (nat, Operation), b: (nat, Operation))
    requires WellFormed(s)
    ensures Run(s, [a, b]) == Move(Move(s, a), b)
  {
    assert [a, b][1..] == [b] && [b][1..] == [];
    assert Run(Move(s, a), [b]) == Run(Move(Move(s, a), b), []);
  }

  /** A register that has filled its slot but not yet counted it, on the first of two threads. */
  lemma RegisterPaused(conn: Conn)
    ensures var s := Run(Init(2), [(0, Register(conn)), (0, Destroy), (0, Destroy), (0, Destroy)]);
            && s.count == 0 && s.slots[0] == Some(Claim(conn, 0)) && s.threads == [RegStoreOwner(conn), Idle]
            && forall i :: 1 <= i < SLOT_COUNT ==> s.slots[i].None?
  {
    var (a, b) := ((0, Register(conn)), (0, Destroy));
    RunOfTwo(Init(2), a, b);
    var s2 := Run(Init(2), [a, b]);
    assert s2.threads[0] == RegLoadOwner(conn);
    RunOfTwo(s2, b, b);
    assert [a, b, b, b] == [a, b] + [b, b];
    RunConcat(Init(2), [a, b], [b, b]);
  }

  lemma UnregisterOvertakes(s: State, conn: Conn)
    requires WellFormed(s) && s.count == 0 && s.slots[0] == Some(Claim(conn, 0))
    requires |s.threads| == 2 && s.threads[1].Idle?
    ensures Run(s, [(1, Unregister(conn)), (1, Destroy), (1, Destroy)]).count == WORD - 1
  {
    var (a, b) := ((1, Unregister(conn)), (1, Destroy));
    assert Move(s, a).threads[1] == UnregCas(conn, 0);
    assert Move(Move(s, a), b).threads[1] == DropCount(Claim(conn, 0), None);
    RunOfTwo(Move(s, a), b, b);
    assert [a, b, b][1..] == [b, b];
  }

  lemma {:induction false} RunConcat(s: State, a: Schedule, b: Schedule)
    requires WellFormed(s)
    ensures Run(s, a + b) == Run(Run(s, a), b)
    decreases |a|
  {
    if a == [] {
      assert a + b == b;
    } else {
      assert (a + b)[1..] == a[1..] + b;
      RunConcat(Move(s, a[0]), a[1..], b);
    }
  }

  /** The counter is not always small: an unregister that overtakes the register it undoes leaves it,
    * for a while, at its largest value. */
  lemma CounterCanWrap(conn: Conn) returns (schedule: Schedule)
    ensures Run(Init(2), schedule).count == WORD - 1
  {
    var first := [(0, Register(conn)), (0, Destroy), (0, Destroy), (0, Destroy)];
    var second := [(1, Unregister(conn)), (1, Destroy), (1, Destroy)];
    RegisterPaused(conn);
    UnregisterOvertakes(Run(Init(2), first), conn);
    RunConcat(Init(2), first, second);
    schedule := first + second;
  }

  // ---- Shutdown ----

  /** The thread has taken a registration of the connection out of a slot and has yet to clear its owner. */
  predicate Releases(t: Thread, conn: Conn) {
    (t.DropCount? || t.DropActive? || t.DropOwner?) && t.claim.conn == conn
  }

  predicate InSlot(s: State, conn: Conn) {
    exists i :: 0 <= i < |s.slots| && s.slots[i].Some? && s.slots[i].value.conn == conn
  }

  predicate Releasing(s: State, conn: Conn) {
    exists t :: 0 <= t < |s.threads| && Releases(s.threads[t], conn)
  }

  /** Owned, in no slot, and nobody is about to clear the owner: a register that overtook its own detach
    * has left the connection so. */
  predicate Stranded(s: State, conn: Conn) {
    conn in s.owned && !InSlot(s, conn) && !Releasing(s, conn)
  }

  /** A register past the shutdown check, not yet in a slot, whose connection is not stranded. */
  predicate MayClaim(s: State, t: Thread) {
    t.RegCas? || (t.RegLoadOwner? && !Stranded(s, t.conn))
  }

  /** Shutting down, with no registration past the check that could still fill a slot. */
  ghost predicate Sealed(s: State) {
    s.shuttingDown && forall t :: 0 <= t < |s.threads| ==> !MayClaim(s, s.threads[t])
  }

  predicate EmptyBelow(s: State, n: nat) {
    forall i :: 0 <= i < n && i < |s.slots| ==> s.slots[i].None?
  }

  /** How many slots a destroying thread has already swept. */
  function Swept(t: Thread): (n: nat) {
    if t.DestroyExchange? then t.i
    else if HoldsClaim(t) && t.resume.Some? then t.resume.value
    else SLOT_COUNT
  }

  /** Everything a sweep in progress has passed is empty; a sweep not in progress has passed all slots. */
  ghost predicate Sweeping(s: State, d: nat)
    requires d < |s.threads|
  {
    Sealed(s) && (EmptyBelow(s, Swept(s.threads[d])) || EmptyBelow(s, SLOT_COUNT))
  }

  predicate Claims(t: Thread, conn: Conn) {
    t.RegCas? && t.conn == conn
  }

  /** No step of a thread that is not itself filling a slot for it puts a stranded connection back. */
  lemma StrandedStays(s: State, t: nat, op: Operation, conn: Conn)
    requires WellFormed(s) && t < |s.threads| && !Claims(s.threads[t], conn) && Stranded(s, conn)
    ensures Stranded(Step(s, t, op), conn) && !Claims(Step(s, t, op).threads[t], conn)
  {
    var s' := Step(s, t, op);
    assert !Releases(s.threads[t], conn);
    assert forall i :: 0 <= i < SLOT_COUNT ==>
             s'.slots[i] == s.slots[i] || s'.slots[i].None? || s'.slots[i].value.conn != conn;
    assert !Releases(s'.threads[t], conn);
    assert forall u :: 0 <= u < |s.threads| && u != t ==> s'.threads[u] == s.threads[u];
  }

  lemma StepKeepsSealed(s: State, t: nat, op: Operation)
    requires WellFormed(s) && t < |s.threads| && Sealed(s)
    ensures Sealed(Step(s, t, op))
  {
    var s' := Step(s, t, op);
    assert !MayClaim(s, s.threads[t]);
    assert !s'.threads[t].RegCas? && !s'.threads[t].RegLoadOwner?;
    forall u | 0 <= u < |s.threads|
      ensures !MayClaim(s', s'.threads[u])
    {
      if u != t && s.threads[u].RegLoadOwner? {
        assert !MayClaim(s, s.threads[u]);
        StrandedStays(s, t, op, s.threads[u].conn);
      }
    }
  }

  lemma StepKeepsSweep(s: State, d: nat, t: nat, op: Operation)
    requires WellFormed(s) && d < |s.threads| && t < |s.threads| && Sweeping(s, d)
    ensures Sweeping(Step(s, t, op), d)
  {
    var s' := Step(s, t, op);
    StepKeepsSealed(s, t, op);
    assert !MayClaim(s, s.threads[t]);
    assert forall i :: 0 <= i < SLOT_COUNT && s.slots[i].None? ==> s'.slots[i].None?;
  }

  lemma {:induction false} RunKeepsSweep(s: State, d: nat, schedule: Schedule)
    requires WellFormed(s) && d < |s.threads| && Sweeping(s, d)
    ensures Sweeping(Run(s, schedule), d)
    decreases |schedule|
  {
    if schedule == [] {
    } else {
      var (t, op) := schedule[0];
      if t < |s.threads| {
        StepKeepsSweep(s, d, t, op);
        RunKeepsSweep(Step(s, t, op), d, schedule[1..]);
      } else {
        RunKeepsSweep(s, d, schedule[1..]);
      }
    }
  }

  /** A destroy that starts its sweep when no registration past the shutdown check can still fill a slot
    * empties the registry: in every interleaving, once that thread is no longer sweeping, every slot is empty. */
  lemma SealedDestroyEmpties(s: State, d: nat, schedule: Schedule)
    requires WellFormed(s) && d < |s.threads| && Sealed(s) && s.threads[d] == DestroyExchange(0)
    ensures var s' := Run(s, schedule);
            s'.threads[d].Idle? ==> Occupied(s') == 0
  {
    RunKeepsSweep(s, d, schedule);
    var s' := Run(s, schedule);
    if s'.threads[d].Idle? {
      TotalAllZero(s'.slots, IsSome);
    }
  }

  // ---- A registration that comes too late for the sweep ----

  /** The thread is inside a destroy's loop. */
  predicate InSweep(t: Thread) {
    t.DestroyExchange? || (HoldsClaim(t) && t.resume.Some? && t.resume.value <= SLOT_COUNT)
  }

  /** Accesses left at most. */
  function SweepLeft(t: Thread): (n: int) {
    5 * (SLOT_COUNT - Swept(t)) +
    (if t.DropCount? then 4
     else if t.DropActive? then 3
     else if t.DropOwner? then 2
     else if t.DropDetach? then 1
     else 0)
  }

  lemma SweepStep(s: State, d: nat)
    requires WellFormed(s) && d < |s.threads| && InSweep(s.threads[d]) && EmptyBelow(s, Swept(s.threads[d]))
    ensures var s' := Move(s, (d, Destroy));
            && s'.threads == s.threads[d := s'.threads[d]]
            && (InSweep(s'.threads[d]) || s'.threads[d].Idle?) && EmptyBelow(s', Swept(s'.threads[d]))
            && 0 <= SweepLeft(s'.threads[d]) < SweepLeft(s.threads[d])
  {
  }

  /** A connection whose owner the sweep clears, now or later, or has no owner. */
  ghost predicate Freed(s: State, d: nat, conn: Conn)
    requires d < |s.threads|
  {
    conn !in s.owned || InSlot(s, conn) || Releases(s.threads[d], conn)
  }

  lemma SweepStepFrees(s: State, d: nat, conn: Conn)
    requires WellFormed(s) && d < |s.threads| && InSweep(s.threads[d]) && Freed(s, d, conn)
    ensures Freed(Move(s, (d, Destroy)), d, conn)
  {
    var s' := Move(s, (d, Destroy));
    if InSlot(s, conn) {
      var i :| 0 <= i < |s.slots| && s.slots[i].Some? && s.slots[i].value.conn == conn;
      assert s'.slots[i] == s.slots[i] || Releases(s'.threads[d], conn);
    }
  }

  /** A destroy left alone finishes, with every slot empty, no other thread moved, and the connections it
    * found in slots without an owner. */
  lemma {:induction false} SweepAlone(s: State, d: nat, conn: Conn) returns (schedule: Schedule)
    requires WellFormed(s) && d < |s.threads|
    requires InSweep(s.threads[d]) || s.threads[d].Idle?
    requires EmptyBelow(s, Swept(s.threads[d]))
    ensures var s' := Run(s, schedule);
            && s'.threads == s.threads[d := Idle] && EmptyBelow(s', SLOT_COUNT)
            && (Freed(s, d, conn) ==> conn !in s'.owned)
    decreases SweepLeft(s.threads[d])
  {
    if s.threads[d].Idle? {
      schedule := [];
    } else {
      SweepStep(s, d);
      if Freed(s, d, conn) {
        SweepStepFrees(s, d, conn);
      }
      var rest := SweepAlone(Move(s, (d, Destroy)), d, conn);
      schedule := [(d, Destroy)] + rest;
      assert schedule[1..] == rest;
    }
  }

  lemma ClaimAfterSweep(s: State, t: nat)
    requires WellFormed(s) && t < |s.threads| && s.threads[t].RegCas? && EmptyBelow(s, SLOT_COUNT)
    ensures var s' := Move(s, (t, Destroy));
            Occupied(s') > 0 && forall u :: 0 <= u < |s.threads| && u != t ==> s'.threads[u] == s.threads[u]
  {
    var s' := Move(s, (t, Destroy));
    TotalBounds(s'.slots, s.threads[t].i, IsSome);
  }

  /** The state after one more entry of a schedule. */
  lemma OneMore(s: State, schedule: Schedule, entry: (nat, Operation))
    requires WellFormed(s)
    ensures Run(s, schedule + [entry]) == Move(Run(s, schedule), entry)
  {
    var last: Schedule := [entry];
    RunConcat(s, schedule, last);
    assert last[1..] == [];
    assert Run(Run(s, schedule), last) == Run(Move(Run(s, schedule), entry), []);
  }

  lemma ClaimantSurvives(s: State, d: nat, t: nat) returns (schedule: Schedule)
    requires WellFormed(s) && d < |s.threads| && s.threads[d] == DestroyExchange(0)
    requires t < |s.threads| && s.threads[t].RegCas?
    ensures var s' := Run(s, schedule);
            s'.threads[d].Idle? && Occupied(s') > 0
  {
    var sweep := SweepAlone(s, d, 0);
    ClaimAfterSweep(Run(s, sweep), t);
    OneMore(s, sweep, (t, Destroy));
    schedule := sweep + [(t, Destroy)];
  }

  /** The sweep itself clears the owner of a connection it finds in a slot; a register that loads the owner
    * afterwards goes on to fill a slot. */
  lemma ReregistrantSurvives(s: State, d: nat, t: nat) returns (schedule: Schedule)
    requires WellFormed(s) && d < |s.threads| && s.threads[d] == DestroyExchange(0)
    requires t < |s.threads| && s.threads[t].RegLoadOwner? && Freed(s, d, s.threads[t].conn)
    ensures var s' := Run(s, schedule);
            s'.threads[d].Idle? && Occupied(s') > 0
  {
    var sweep := SweepAlone(s, d, s.threads[t].conn);
    OneMore(s, sweep, (t, Destroy));
    var loaded := Run(s, sweep + [(t, Destroy)]);
    assert loaded.threads[t].RegCas? && loaded.threads[d].Idle? && EmptyBelow(loaded, SLOT_COUNT);
    ClaimAfterSweep(loaded, t);
    OneMore(s, sweep + [(t, Destroy)], (t, Destroy));
    schedule := sweep + [(t, Destroy)] + [(t, Destroy)];
  }

  /** A thread that has yet to clear an owner can do so before anybody else moves. */
  lemma {:induction false} OwnerCleared(s: State, h: nat, conn: Conn) returns (schedule: Schedule)
    requires WellFormed(s) && h < |s.threads| && Releases(s.threads[h], conn)
    ensures var s' := Run(s, schedule);
            && conn !in s'.owned && s'.slots == s.slots
            && s'.threads == s.threads[h := s'.threads[h]] && s'.threads[h].DropDetach?
    decreases if s.threads[h].DropCount? then 2 else if s.threads[h].DropActive? then 1 else 0
  {
    var s1 := Move(s, (h, Destroy));
    if s.threads[h].DropOwner? {
      schedule := [(h, Destroy)];
      assert schedule[1..] == [] && Run(s, schedule) == Run(s1, []);
    } else {
      var rest := OwnerCleared(s1, h, conn);
      schedule := [(h, Destroy)] + rest;
      assert schedule[1..] == rest;
    }
  }

  /** A register past the shutdown check can fill a slot the sweep has passed: there is a schedule after
    * which the destroy is done and a slot is occupied. */
  lemma LateRegisterSurvives(s: State, d: nat, t: nat) returns (schedule: Schedule)
    requires WellFormed(s) && d < |s.threads| && s.threads[d] == DestroyExchange(0)
    requires t < |s.threads| && MayClaim(s, s.threads[t])
    ensures var s' := Run(s, schedule);
            s'.threads[d].Idle? && Occupied(s') > 0
  {
    if s.threads[t].RegCas? {
      schedule := ClaimantSurvives(s, d, t);
    } else if Freed(s, d, s.threads[t].conn) {
      schedule := ReregistrantSurvives(s, d, t);
    } else {
      var h :| 0 <= h < |s.threads| && Releases(s.threads[h], s.threads[t].conn);
      var first := OwnerCleared(s, h, s.threads[t].conn);
      var rest := ReregistrantSurvives(Run(s, first), d, t);
      RunConcat(s, first, rest);
      schedule := first + rest;
    }
  }

  ghost predicate AlwaysEmpties(s: State, d: nat)
    requires WellFormed(s) && d < |s.threads|
  {
    forall schedule :: Run(s, schedule).threads[d].Idle? ==> Occupied(Run(s, schedule)) == 0
  }

  /** The exact condition: the destroy empties the registry in every interleaving if and only if no
    * register past the shutdown check can still fill a slot when its sweep begins. */
  lemma SweepEmptiesExactly(s: State, d: nat)
    requires WellFormed(s) && d < |s.threads| && s.threads[d] == DestroyExchange(0) && s.shuttingDown
    ensures AlwaysEmpties(s, d) <==> Sealed(s)
  {
    if Sealed(s) {
      forall schedule
        ensures Run(s, schedule).threads[d].Idle? ==> Occupied(Run(s, schedule)) == 0
      {
        SealedDestroyEmpties(s, d, schedule);
      }
    } else {
      var t :| 0 <= t < |s.threads| && MayClaim(s, s.threads[t]);
      var schedule := LateRegisterSurvives(s, d, t);
      assert Run(s, schedule).threads[d].Idle? && Occupied(Run(s, schedule)) > 0;
    }
  }

  /** It happens from the start: the first thread passes the check, the second begins to destroy. */
  lemma LateRegisterExample(conn: Conn) returns (schedule: Schedule)
    ensures var s := Run(Init(2), schedule);
            s.shuttingDown && s.threads[1].Idle? && Occupied(s) > 0
  {
    var (a, b, c) := ((0, Register(conn)), (0, Destroy), (1, Destroy));
    RunOfTwo(Init(2), a, b);
    var s2 := Run(Init(2), [a, b]);
    assert s2.threads == [RegLoadOwner(conn), Idle];
    RunOfTwo(s2, c, c);
    RunConcat(Init(2), [a, b], [c, c]);
    var s4 := Run(Init(2), [a, b] + [c, c]);
    assert s4.threads == [RegLoadOwner(conn), DestroyExchange(0)] && s4.shuttingDown;
    var rest := LateRegisterSurvives(s4, 1, 0);
    RunConcat(Init(2), [a, b] + [c, c], rest);
    StaysShut(s4, rest);
    schedule := [a, b] + [c, c] + rest;
  }

  lemma {:induction false} StaysShut(s: State, schedule: Schedule)
    requires WellFormed(s) && s.shuttingDown
    ensures Run(s, schedule).shuttingDown
    decreases |schedule|
  {
    if schedule == [] {
    } else {
      StaysShut(Move(s, schedule[0]), schedule[1..]);
    }
  }
}
