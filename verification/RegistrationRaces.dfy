/** What registers and unregisters of one connection do to each other when they overlap (src/client.c): a
  * connection can be lost to the registry, and it can be in two slots. */
module RegistrationRaces {
  import opened Counting
  import opened Options
  import opened ClientRegistry

  // ---- The states along a run ----

  /** The state after the first n entries of a schedule. */
  function Along(s: State, schedule: Schedule, n: nat): (s': State)
    requires WellFormed(s) && n <= |schedule|
    ensures WellFormed(s') && |s'.threads| == |s.threads|
  {
    Run(s, schedule[..n])
  }

  lemma AlongNext(s: State, schedule: Schedule, n: nat)
    requires WellFormed(s) && n < |schedule|
    ensures Along(s, schedule, n + 1) == Move(Along(s, schedule, n), schedule[n])
  {
    assert schedule[..n + 1] == schedule[..n] + [schedule[n]];
    OneMore(s, schedule[..n], schedule[n]);
  }

  /** A property that does not hold at the start and holds later comes to hold in some step. */
  lemma {:induction false} FirstTime(s: State, schedule: Schedule, p: State -> bool, n: nat) returns (k: nat)
    requires WellFormed(s) && n <= |schedule| && !p(s) && p(Along(s, schedule, n))
    ensures k < n && !p(Along(s, schedule, k)) && p(Along(s, schedule, k + 1))
  {
    assert Along(s, schedule, 0) == s by {
      assert schedule[..0] == [];
    }
    if p(Along(s, schedule, n - 1)) {
      k := FirstTime(s, schedule, p, n - 1);
    } else {
      k := n - 1;
    }
  }

  // ---- A registration that outlives its own detach ----

  /** The entry stores the owner of a connection whose slot is gone again, with nobody left to clear it. */
  predicate Overtaken(s: State, entry: (nat, Operation), conn: Conn) {
    && entry.0 < |s.threads| && s.threads[entry.0] == RegStoreOwner(conn)
    && !InSlot(s, conn) && !Releasing(s, conn)
  }

  /** A step other than a store of its owner strands nothing. */
  lemma OnlyStoreStrands(s: State, t: nat, op: Operation, conn: Conn)
    requires WellFormed(s) && t < |s.threads| && !Stranded(s, conn) && s.threads[t] != RegStoreOwner(conn)
    ensures !Stranded(Step(s, t, op), conn)
  {
    var s' := Step(s, t, op);
    if conn in s'.owned {
      if i :| 0 <= i < |s.slots| && s.slots[i].Some? && s.slots[i].value.conn == conn {
        assert s'.slots[i] == s.slots[i] || Releases(s'.threads[t], conn);
      } else {
        var u :| 0 <= u < |s.threads| && Releases(s.threads[u], conn);
        assert Releases(s'.threads[u], conn);
      }
    }
  }

  lemma StoreStrandsExactly(s: State, t: nat, op: Operation, conn: Conn)
    requires WellFormed(s) && t < |s.threads| && s.threads[t] == RegStoreOwner(conn)
    ensures Stranded(Step(s, t, op), conn) <==> !InSlot(s, conn) && !Releasing(s, conn)
  {
    var s' := Step(s, t, op);
    assert s'.slots == s.slots;
    assert forall u :: 0 <= u < |s.threads| ==> (Releases(s'.threads[u], conn) <==> Releases(s.threads[u], conn));
  }

  /** The exact condition for one step: a connection becomes stranded if and only if its owner is stored
    * after its slot was taken and its owner cleared. */
  lemma StrandsExactly(s: State, entry: (nat, Operation), conn: Conn)
    requires WellFormed(s) && !Stranded(s, conn)
    ensures Stranded(Move(s, entry), conn) <==> Overtaken(s, entry, conn)
  {
    if entry.0 < |s.threads| {
      if s.threads[entry.0] == RegStoreOwner(conn) {
        StoreStrandsExactly(s, entry.0, entry.1, conn);
      } else {
        OnlyStoreStrands(s, entry.0, entry.1, conn);
      }
    }
  }

  /** The exact condition for a whole run: it strands the connection at some point if and only if one of
    * its steps is such a store. */
  lemma StrandedInRunExactly(s: State, schedule: Schedule, conn: Conn)
    requires WellFormed(s) && !Stranded(s, conn)
    ensures (exists n :: 0 <= n <= |schedule| && Stranded(Along(s, schedule, n), conn)) <==>
            (exists n :: 0 <= n < |schedule| && Overtaken(Along(s, schedule, n), schedule[n], conn))
  {
    if n :| 0 <= n <= |schedule| && Stranded(Along(s, schedule, n), conn) {
      var k := FirstTime(s, schedule, (x: State) => Stranded(x, conn), n);
      AlongNext(s, schedule, k);
      StrandsExactly(Along(s, schedule, k), schedule[k], conn);
    }
    if n :| 0 <= n < |schedule| && Overtaken(Along(s, schedule, n), schedule[n], conn) {
      if !Stranded(Along(s, schedule, n), conn) {
        AlongNext(s, schedule, n);
        StrandsExactly(Along(s, schedule, n), schedule[n], conn);
        assert Stranded(Along(s, schedule, n + 1), conn);
      }
    }
  }

  /** The connection is lost to the registry: stranded, with nobody filling a slot for it. */
  ghost predicate Lost(s: State, conn: Conn) {
    Stranded(s, conn) && forall t :: 0 <= t < |s.threads| ==> !Claims(s.threads[t], conn)
  }

  /** A step loses a connection if and only if it is such a store and no other register is filling a slot. */
  lemma LosesExactly(s: State, entry: (nat, Operation), conn: Conn)
    requires WellFormed(s) && !Stranded(s, conn)
    ensures Lost(Move(s, entry), conn) <==>
            Overtaken(s, entry, conn) && forall t :: 0 <= t < |s.threads| ==> !Claims(s.threads[t], conn)
  {
    StrandsExactly(s, entry, conn);
    if Overtaken(s, entry, conn) {
      var s' := Move(s, entry);
      assert forall t :: 0 <= t < |s.threads| ==> (Claims(s'.threads[t], conn) <==> Claims(s.threads[t], conn));
    }
  }

  /** A lost connection is never in a slot again, whatever any thread calls: every later register finds an
    * owner and ends there. */
  lemma {:induction false} LostForGood(s: State, schedule: Schedule, conn: Conn)
    requires WellFormed(s) && Lost(s, conn)
    ensures Lost(Run(s, schedule), conn) && !InSlot(Run(s, schedule), conn)
    decreases |schedule|
  {
    if schedule == [] {
    } else {
      var (t, op) := schedule[0];
      if t < |s.threads| {
        StrandedStays(s, t, op, conn);
      }
      LostForGood(Move(s, schedule[0]), schedule[1..], conn);
    }
  }

  lemma UnregisterTakes(s: State, conn: Conn)
    requires WellFormed(s) && s.slots[0] == Some(Claim(conn, 0)) && s.threads == [RegStoreOwner(conn), Idle]
    requires forall i :: 1 <= i < SLOT_COUNT ==> s.slots[i].None?
    ensures var s' := Run(s, [(1, Unregister(conn)), (1, Destroy)]);
            && EmptyBelow(s', SLOT_COUNT) && s'.threads == [RegStoreOwner(conn), DropCount(Claim(conn, 0), None)]
  {
    RunOfTwo(s, (1, Unregister(conn)), (1, Destroy));
    var s1 := Move(s, (1, Unregister(conn)));
    assert s1.slots == s.slots && s1.threads == [RegStoreOwner(conn), UnregCas(conn, 0)];
  }

  lemma OwnerStoredLate(s: State, conn: Conn)
    requires WellFormed(s) && EmptyBelow(s, SLOT_COUNT) && |s.threads| == 2
    requires s.threads[0] == RegStoreOwner(conn) && s.threads[1].DropDetach?
    ensures Lost(Move(s, (0, Destroy)), conn)
  {
  }

  /** It happens: an unregister that runs between the two stores of a register, the slot's and the
    * owner's, leaves the connection lost. */
  lemma RegisterCanLose(conn: Conn) returns (schedule: Schedule)
    ensures Lost(Run(Init(2), schedule), conn)
  {
    var first := [(0, Register(conn)), (0, Destroy), (0, Destroy), (0, Destroy)];
    var second := [(1, Unregister(conn)), (1, Destroy)];
    RegisterPaused(conn);
    var s1 := Run(Init(2), first);
    UnregisterTakes(s1, conn);
    RunConcat(Init(2), first, second);
    var s2 := Run(Init(2), first + second);
    var third := OwnerCleared(s2, 1, conn);
    RunConcat(Init(2), first + second, third);
    OwnerStoredLate(Run(s2, third), conn);
    OneMore(Init(2), first + second + third, (0, Destroy));
    schedule := first + second + third + [(0, Destroy)];
  }

  // ---- A connection in two slots ----

  predicate HoldsConn(slot: Option<Claim>, conn: Conn) {
    slot.Some? && slot.value.conn == conn
  }

  predicate InTwoSlots(s: State, conn: Conn) {
    exists i, j :: 0 <= i < j < |s.slots| && HoldsConn(s.slots[i], conn) && HoldsConn(s.slots[j], conn)
  }

  /** The entry fills a slot for a connection that is in one already. */
  predicate FillsAgain(s: State, entry: (nat, Operation), conn: Conn)
    requires WellFormed(s)
  {
    && entry.0 < |s.threads| && Claims(s.threads[entry.0], conn)
    && s.slots[s.threads[entry.0].i].None? && InSlot(s, conn)
  }

  lemma FillingAgainDoubles(s: State, entry: (nat, Operation), conn: Conn)
    requires WellFormed(s) && FillsAgain(s, entry, conn)
    ensures InTwoSlots(Move(s, entry), conn)
  {
    var s' := Move(s, entry);
    var i := s.threads[entry.0].i;
    var j :| 0 <= j < |s.slots| && s.slots[j].Some? && s.slots[j].value.conn == conn;
    assert i != j && HoldsConn(s'.slots[i], conn) && HoldsConn(s'.slots[j], conn);
    if i < j {
      assert InTwoSlots(s', conn);
    }
  }

  /** A slot that comes to hold the connection was empty and is filled by a register of it. */
  lemma NewlyHeld(s: State, entry: (nat, Operation), conn: Conn, i: nat)
    requires WellFormed(s) && i < SLOT_COUNT && !HoldsConn(s.slots[i], conn) && HoldsConn(Move(s, entry).slots[i], conn)
    ensures entry.0 < |s.threads| && Claims(s.threads[entry.0], conn) && s.threads[entry.0].i == i && s.slots[i].None?
    ensures forall j :: 0 <= j < SLOT_COUNT && j != i ==> Move(s, entry).slots[j] == s.slots[j]
  {
  }

  lemma DoublingFillsAgain(s: State, entry: (nat, Operation), conn: Conn)
    requires WellFormed(s) && !InTwoSlots(s, conn) && InTwoSlots(Move(s, entry), conn)
    ensures FillsAgain(s, entry, conn)
  {
    var s' := Move(s, entry);
    var i, j :| 0 <= i < j < |s'.slots| && HoldsConn(s'.slots[i], conn) && HoldsConn(s'.slots[j], conn);
    if HoldsConn(s.slots[i], conn) {
      NewlyHeld(s, entry, conn, j);
    } else {
      NewlyHeld(s, entry, conn, i);
      assert HoldsConn(s.slots[j], conn);
    }
    assert InSlot(s, conn);
  }

  /** The exact condition for one step. */
  lemma DoublesExactly(s: State, entry: (nat, Operation), conn: Conn)
    requires WellFormed(s) && !InTwoSlots(s, conn)
    ensures InTwoSlots(Move(s, entry), conn) <==> FillsAgain(s, entry, conn)
  {
    if FillsAgain(s, entry, conn) {
      FillingAgainDoubles(s, entry, conn);
    } else if InTwoSlots(Move(s, entry), conn) {
      DoublingFillsAgain(s, entry, conn);
    }
  }

  /** And for a whole run. */
  lemma DoubledInRunExactly(s: State, schedule: Schedule, conn: Conn)
    requires WellFormed(s) && !InTwoSlots(s, conn)
    ensures (exists n :: 0 <= n <= |schedule| && InTwoSlots(Along(s, schedule, n), conn)) <==>
            (exists n :: 0 <= n < |schedule| && FillsAgain(Along(s, schedule, n), schedule[n], conn))
  {
    if n :| 0 <= n <= |schedule| && InTwoSlots(Along(s, schedule, n), conn) {
      var k := FirstTime(s, schedule, (x: State) => InTwoSlots(x, conn), n);
      AlongNext(s, schedule, k);
      DoublesExactly(Along(s, schedule, k), schedule[k], conn);
    }
    if n :| 0 <= n < |schedule| && FillsAgain(Along(s, schedule, n), schedule[n], conn) {
      if !InTwoSlots(Along(s, schedule, n), conn) {
        AlongNext(s, schedule, n);
        DoublesExactly(Along(s, schedule, n), schedule[n], conn);
        assert InTwoSlots(Along(s, schedule, n + 1), conn);
      }
    }
  }

  // ---- Registers that do not overlap ----

  function Claiming(conn: Conn): Thread -> int {
    (t: Thread) => if Claims(t, conn) then 1 else 0
  }

  function Storing(conn: Conn): Thread -> int {
    (t: Thread) => if t == RegStoreOwner(conn) then 1 else 0
  }

  function Clearing(conn: Conn): Thread -> int {
    (t: Thread) => if Releases(t, conn) then 1 else 0
  }

  /** Registrations of the connection that are in a slot or whose owner is yet to be cleared. */
  function Present(s: State, conn: Conn): int {
    Total(s.slots, OnSlot(HasConn(conn))) + Total(s.threads, Clearing(conn))
  }

  /** At most one register of the connection is between loading its owner and storing it. */
  ghost predicate Alone(s: State, conn: Conn) {
    Total(s.threads, Claiming(conn)) + Total(s.threads, Storing(conn)) <= 1
  }

  /** There is at most one registration, or one register about to make it; and while there is one, its
    * owner is set or about to be. */
  ghost predicate OneAtMost(s: State, conn: Conn) {
    && Present(s, conn) + Total(s.threads, Claiming(conn)) <= 1
    && (Present(s, conn) == 1 && Total(s.threads, Storing(conn)) == 0 ==> conn in s.owned)
  }

  /** What a step adds to the slots that hold the connection. */
  function SlotDelta(s: State, access: Access, conn: Conn): int
    requires access.ClearSlot? ==> access.i < |s.slots|
  {
    if access.FillSlot? && access.conn == conn then 1
    else if access.ClearSlot? && HoldsConn(s.slots[access.i], conn) then -1
    else 0
  }

  /** One thread's step, weighed for one connection: only a register that finds no owner adds anything,
    * only a register's store or another connection's leaves an owner behind, and only the clearing of an
    * owner takes one away. */
  lemma StepEffect(s: State, t: nat, op: Operation, conn: Conn)
    requires WellFormed(s) && t < |s.threads|
    ensures var (th, next) := (s.threads[t], Step(s, t, op).threads[t]);
            var delta := SlotDelta(s, Perform(s, th, op).0, conn) + Clearing(conn)(next) - Clearing(conn)(th);
            && (if th == RegLoadOwner(conn) && conn !in s.owned then delta == 0 && Claiming(conn)(next) == 1
                else delta + Claiming(conn)(next) - Claiming(conn)(th) <= 0)
            && -1 <= delta <= 1
            && (delta == 1 ==> Storing(conn)(th) == 0 && Storing(conn)(next) == 1)
            && (Storing(conn)(next) < Storing(conn)(th) ==> conn in Step(s, t, op).owned)
            && (conn in s.owned && conn !in Step(s, t, op).owned ==> delta == -1)
  {
  }

  lemma StepTotals(s: State, t: nat, op: Operation, weight: Thread -> int)
    requires WellFormed(s) && t < |s.threads|
    ensures var s' := Step(s, t, op);
            Total(s'.threads, weight) == Total(s.threads, weight) - weight(s.threads[t]) + weight(s'.threads[t])
  {
    TotalOfUpdate(s.threads, t, Step(s, t, op).threads[t], weight);
  }

  lemma StepSlots(s: State, t: nat, op: Operation, conn: Conn)
    requires WellFormed(s) && t < |s.threads|
    ensures Total(Step(s, t, op).slots, OnSlot(HasConn(conn)))
         == Total(s.slots, OnSlot(HasConn(conn))) + SlotDelta(s, Perform(s, s.threads[t], op).0, conn)
  {
    var access := Perform(s, s.threads[t], op).0;
    if access.FillSlot? || access.ClearSlot? {
      TotalOfUpdate(s.slots, access.i, Step(s, t, op).slots[access.i], OnSlot(HasConn(conn)));
    }
  }

  /** The counts before and after a step, known only by how they are related. */
  lemma StepCounts(s: State, t: nat, op: Operation, conn: Conn)
    returns (delta: int, claims: int, claims': int, stores: int, stores': int)
    requires WellFormed(s) && t < |s.threads|
    ensures var s' := Step(s, t, op);
            && Present(s', conn) == Present(s, conn) + delta
            && Total(s'.threads, Claiming(conn)) == Total(s.threads, Claiming(conn)) - claims + claims'
            && Total(s'.threads, Storing(conn)) == Total(s.threads, Storing(conn)) - stores + stores'
            && (delta + claims' - claims > 0 ==> conn !in s.owned && delta == stores == stores' == 0 && claims' == 1)
            && (delta == 1 ==> stores == 0 && stores' == 1) && (stores' < stores ==> conn in s'.owned)
            && (conn in s.owned && conn !in s'.owned ==> delta == -1)
            && 0 <= claims <= 1 && 0 <= claims' <= 1 && 0 <= stores <= 1 && 0 <= stores' <= 1 && -1 <= delta <= 1
  {
    var (th, next) := (s.threads[t], Step(s, t, op).threads[t]);
    StepEffect(s, t, op, conn);
    StepSlots(s, t, op, conn);
    StepTotals(s, t, op, Clearing(conn));
    StepTotals(s, t, op, Claiming(conn));
    StepTotals(s, t, op, Storing(conn));
    delta := SlotDelta(s, Perform(s, th, op).0, conn) + Clearing(conn)(next) - Clearing(conn)(th);
    claims, claims', stores, stores' :=
      Claiming(conn)(th), Claiming(conn)(next), Storing(conn)(th), Storing(conn)(next);
  }

  lemma CountsNonNegative(s: State, conn: Conn)
    ensures Total(s.slots, OnSlot(HasConn(conn))) >= 0 && Total(s.threads, Clearing(conn)) >= 0
    ensures Total(s.threads, Claiming(conn)) >= 0 && Total(s.threads, Storing(conn)) >= 0
  {
    TotalNonNegative(s.slots, OnSlot(HasConn(conn)));
    TotalNonNegative(s.threads, Clearing(conn));
    TotalNonNegative(s.threads, Claiming(conn));
    TotalNonNegative(s.threads, Storing(conn));
  }

  lemma StepKeepsOne(s: State, t: nat, op: Operation, conn: Conn)
    requires WellFormed(s) && t < |s.threads| && OneAtMost(s, conn) && Alone(Step(s, t, op), conn)
    ensures OneAtMost(Step(s, t, op), conn)
  {
    var delta, claims, claims', stores, stores' := StepCounts(s, t, op, conn);
    CountsNonNegative(s, conn);
    CountsNonNegative(Step(s, t, op), conn);
  }

  lemma InitHasNone(threadCount: nat, conn: Conn)
    ensures OneAtMost(Init(threadCount), conn)
  {
    TotalOfConstant(SLOT_COUNT, None, OnSlot(HasConn(conn)));
    TotalOfConstant(threadCount, Idle, Clearing(conn));
    TotalOfConstant(threadCount, Idle, Claiming(conn));
  }

  lemma {:induction false} RunKeepsOne(threadCount: nat, schedule: Schedule, conn: Conn, n: nat)
    requires n <= |schedule| && forall k :: 0 <= k <= n ==> Alone(Along(Init(threadCount), schedule, k), conn)
    ensures OneAtMost(Along(Init(threadCount), schedule, n), conn)
  {
    if n == 0 {
      InitHasNone(threadCount, conn);
    } else {
      RunKeepsOne(threadCount, schedule, conn, n - 1);
      AlongNext(Init(threadCount), schedule, n - 1);
      var (s, entry) := (Along(Init(threadCount), schedule, n - 1), schedule[n - 1]);
      if entry.0 < |s.threads| {
        StepKeepsOne(s, entry.0, entry.1, conn);
      }
    }
  }

  lemma TwoSlotsCount(slots: seq<Option<Claim>>, i: nat, j: nat, weight: Option<Claim> -> int)
    requires i < j < |slots| && weight(slots[i]) == 1 && weight(slots[j]) == 1 && forall x :: weight(x) >= 0
    ensures Total(slots, weight) >= 2
  {
    TotalOfConcat(slots[..j], slots[j..], weight);
    assert slots[..j] + slots[j..] == slots;
    TotalBounds(slots[..j], i, weight);
    TotalBounds(slots[j..], 0, weight);
  }

  /** As long as no two registers of a connection are between loading and storing its owner at once, it is
    * in at most one slot in every interleaving, unregisters and destroys included. */
  lemma OneSlotWithoutOverlap(threadCount: nat, schedule: Schedule, conn: Conn, n: nat)
    requires n <= |schedule| && forall k :: 0 <= k <= n ==> Alone(Along(Init(threadCount), schedule, k), conn)
    ensures !InTwoSlots(Along(Init(threadCount), schedule, n), conn)
  {
    RunKeepsOne(threadCount, schedule, conn, n);
    var s := Along(Init(threadCount), schedule, n);
    CountsNonNegative(s, conn);
    if i, j :| 0 <= i < j < |s.slots| && HoldsConn(s.slots[i], conn) && HoldsConn(s.slots[j], conn) {
      TwoSlotsCount(s.slots, i, j, OnSlot(HasConn(conn)));
    }
  }

  /** A register that has loaded the owner, on a thread that was idle. */
  lemma OwnerLoaded(s: State, t: nat, conn: Conn)
    requires WellFormed(s) && t < |s.threads| && s.threads[t].Idle? && !s.shuttingDown && conn !in s.owned
    ensures Run(s, [(t, Register(conn)), (t, Destroy)] + [(t, Destroy)])
         == s.(threads := s.threads[t := RegCas(conn, 0)])
  {
    var (a, b) := ((t, Register(conn)), (t, Destroy));
    RunOfTwo(s, a, b);
    OneMore(s, [a, b], b);
  }

  lemma BothFill(s: State, conn: Conn)
    requires WellFormed(s) && EmptyBelow(s, SLOT_COUNT) && s.threads == [RegCas(conn, 0), RegCas(conn, 0)]
    ensures InTwoSlots(Run(s, [(0, Destroy), (1, Destroy)] + [(1, Destroy)]), conn)
  {
    var (a, b) := ((0, Destroy), (1, Destroy));
    RunOfTwo(s, a, b);
    OneMore(s, [a, b], b);
    var s' := Run(s, [a, b] + [b]);
    assert HoldsConn(s'.slots[0], conn) && HoldsConn(s'.slots[1], conn);
  }

  /** Without that it happens: two registers that both load the owner before either stores it. */
  lemma RegisterCanDouble(conn: Conn) returns (schedule: Schedule)
    ensures InTwoSlots(Run(Init(2), schedule), conn)
  {
    var first := [(0, Register(conn)), (0, Destroy)] + [(0, Destroy)];
    var second := [(1, Register(conn)), (1, Destroy)] + [(1, Destroy)];
    var third := [(0, Destroy), (1, Destroy)] + [(1, Destroy)];
    OwnerLoaded(Init(2), 0, conn);
    OwnerLoaded(Run(Init(2), first), 1, conn);
    RunConcat(Init(2), first, second);
    BothFill(Run(Init(2), first + second), conn);
    RunConcat(Init(2), first + second, third);
    schedule := first + second + third;
  }
}
