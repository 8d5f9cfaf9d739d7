/** What each call of the client registry comes to when no other thread moves in between (src/client.c). */
module ClientCalls {
  import opened Options
  import opened Searching
  import opened ClientRegistry

  // ---- A thread left alone ----

  /** The shared state and where the thread stands. */
  datatype Solo = Solo(s: State, th: Thread)

  predicate Fit(x: Solo) {
    |x.s.slots| == SLOT_COUNT && InRange(x.th)
  }

  /** One access of the thread. */
  function Act(x: Solo): (y: Solo)
    requires Fit(x)
    ensures Fit(y)
  {
    var (access, next) := Perform(x.s, x.th, Destroy);
    Solo(Commit(x.s, access), next)
  }

  /** n accesses of the thread. */
  function Acts(x: Solo, n: nat): (y: Solo)
    requires Fit(x)
    ensures Fit(y)
    decreases n
  {
    if n == 0 then x else Acts(Act(x), n - 1)
  }

  lemma {:induction false} ActsOn(x: Solo, a: nat, b: nat)
    requires Fit(x)
    ensures Acts(x, a + b) == Acts(Acts(x, a), b)
    decreases a
  {
    if a == 0 {
    } else {
      ActsOn(Act(x), a - 1, b);
    }
  }

  /** Thread t moves n times. */
  function Steps(t: nat, n: nat): (schedule: Schedule) {
    if n == 0 then [] else [(t, Destroy)] + Steps(t, n - 1)
  }

  /** The shared state changes as if the thread were the only one; the other threads stand where they stood. */
  lemma {:induction false} ActsByRun(s: State, t: nat, n: nat)
    requires WellFormed(s) && t < |s.threads|
    ensures var y := Acts(Solo(s, s.threads[t]), n);
            Run(s, Steps(t, n)) == y.s.(threads := s.threads[t := y.th])
    decreases n
  {
    if n == 0 {
    } else {
      var s1 := Move(s, (t, Destroy));
      var y := Act(Solo(s, s.threads[t]));
      assert s1 == y.s.(threads := s.threads[t := y.th]);
      ActsByRun(s1, t, n - 1);
      ThreadsAside(Solo(y.s, y.th), s1.threads, n - 1);
      assert Steps(t, n)[1..] == Steps(t, n - 1);
    }
  }

  lemma ActAside(x: Solo, threads: seq<Thread>)
    requires Fit(x)
    ensures Act(x.(s := x.s.(threads := threads))) == Act(x).(s := Act(x).s.(threads := threads))
  {
  }

  lemma {:induction false} ThreadsAside(x: Solo, threads: seq<Thread>, n: nat)
    requires Fit(x)
    ensures Acts(x.(s := x.s.(threads := threads)), n) == Acts(x, n).(s := Acts(x, n).s.(threads := threads))
    decreases n
  {
    if n == 0 {
    } else {
      ActAside(x, threads);
      var x1 := OneAct(x, n);
      ThreadsAside(x1, threads, n - 1);
    }
  }

  /** The first of n accesses, known only by what is left to do. */
  lemma OneAct(x: Solo, n: nat) returns (x1: Solo)
    requires Fit(x) && n > 0
    ensures x1 == Act(x) && Fit(x1) && Acts(x, n) == Acts(x1, n - 1)
  {
    x1 := Act(x);
  }

  /** A call of an idle thread that takes n accesses. */
  lemma CallAlone(s: State, t: nat, op: Operation, n: nat, s': State)
    requires WellFormed(s) && t < |s.threads| && s.threads[t].Idle?
    requires Acts(Solo(s, Enter(op)), n) == Solo(s', Idle) && s'.threads == s.threads
    ensures Run(s, [(t, op)] + Steps(t, n)) == s'
  {
    var s1 := Move(s, (t, op));
    assert s1 == s.(threads := s.threads[t := Enter(op)]);
    ActsByRun(s1, t, n);
    ThreadsAside(Solo(s, Enter(op)), s1.threads, n);
    assert ([(t, op)] + Steps(t, n))[1..] == Steps(t, n);
    assert s.threads[t := Enter(op)][t := Idle] == s.threads;
  }

  // ---- Unregister ----

  function HoldsConn(conn: Conn): Option<Claim> -> bool {
    (slot: Option<Claim>) => slot.Some? && slot.value.conn == conn
  }

  /** The registration in slot k is gone: the slot is free, the connection has no owner and is not active, it is
    * counted out, and its claim is detached. */
  function Dropped(s: State, k: nat): (s': State)
    requires k < |s.slots| && s.slots[k].Some?
  {
    var claim := s.slots[k].value;
    s.(slots := s.slots[k := None], count := (s.count - 1) % WORD, owned := s.owned - {claim.conn},
       active := s.active - {claim.conn}, detached := s.detached + [claim])
  }

  /** What an unregister comes to: the lowest slot that holds the connection is given up. */
  function Unregistered(s: State, conn: Conn): (s': State) {
    var k := First(s.slots, HoldsConn(conn));
    if k < |s.slots| then Dropped(s, k) else s
  }

  /** A thread that has taken a claim out of slot k goes on to finish with it. */
  lemma DropAlone(s: State, k: nat, resume: Option<nat>) returns (n: nat)
    requires k < |s.slots| == SLOT_COUNT && s.slots[k].Some?
    ensures var x := Solo(s.(slots := s.slots[k := None]), DropCount(s.slots[k].value, resume));
            Acts(x, n) == Solo(Dropped(s, k), if resume.Some? then DestroyFrom(resume.value) else Idle)
  {
    var x := Solo(s.(slots := s.slots[k := None]), DropCount(s.slots[k].value, resume));
    var x2 := Act(Act(x));
    assert Acts(x, 4) == Acts(x2, 2);
    n := 4;
  }

  lemma UnregisterHit(s: State, conn: Conn, i: nat) returns (n: nat)
    requires i < |s.slots| == SLOT_COUNT && HoldsConn(conn)(s.slots[i])
    ensures Acts(Solo(s, UnregCas(conn, i)), n) == Solo(Dropped(s, i), Idle)
  {
    var rest := DropAlone(s, i, None);
    n := rest + 1;
    var x1 := OneAct(Solo(s, UnregCas(conn, i)), n);
    assert x1 == Solo(s.(slots := s.slots[i := None]), DropCount(s.slots[i].value, None));
  }

  lemma UnregisterMiss(s: State, conn: Conn, i: nat, n: nat)
    requires i < |s.slots| == SLOT_COUNT && !HoldsConn(conn)(s.slots[i]) && n > 0
    ensures Acts(Solo(s, UnregCas(conn, i)), n)
         == Acts(Solo(s, if i + 1 < SLOT_COUNT then UnregCas(conn, i + 1) else Idle), n - 1)
  {
  }

  lemma {:induction false} UnregisterScan(s: State, conn: Conn, i: nat) returns (n: nat)
    requires i < |s.slots| == SLOT_COUNT && forall j :: 0 <= j < i ==> !HoldsConn(conn)(s.slots[j])
    ensures Acts(Solo(s, UnregCas(conn, i)), n) == Solo(Unregistered(s, conn), Idle)
    decreases SLOT_COUNT - i
  {
    if HoldsConn(conn)(s.slots[i]) {
      FirstIs(s.slots, HoldsConn(conn), i);
      n := UnregisterHit(s, conn, i);
    } else {
      n := 1;
      if i + 1 < SLOT_COUNT {
        n := UnregisterScan(s, conn, i + 1);
        n := n + 1;
      } else {
        FirstIs(s.slots, HoldsConn(conn), SLOT_COUNT);
      }
      UnregisterMiss(s, conn, i, n);
    }
  }

  /** An unregister left alone gives up the lowest slot that holds the connection, with everything that goes
    * with it, or changes nothing when there is none. */
  lemma UnregisterAlone(s: State, t: nat, conn: Conn) returns (n: nat)
    requires WellFormed(s) && t < |s.threads| && s.threads[t].Idle?
    ensures Run(s, [(t, Unregister(conn))] + Steps(t, n)) == Unregistered(s, conn)
  {
    n := UnregisterScan(s, conn, 0);
    CallAlone(s, t, Unregister(conn), n, Unregistered(s, conn));
  }

  // ---- Register ----

  function IsFree(): Option<Claim> -> bool {
    (slot: Option<Claim>) => slot.None?
  }

  /** The connection is registered in slot k: owned, active and counted in. */
  function Taken(s: State, conn: Conn, k: nat): (s': State)
    requires k < |s.slots|
  {
    s.(slots := s.slots[k := Some(Claim(conn, |s.issued|))], issued := s.issued + [conn],
       owned := s.owned + {conn}, active := s.active + {conn}, count := (s.count + 1) % WORD)
  }

  /** What a register comes to: the lowest free slot is taken, unless the registry is shutting down, the
    * connection has an owner already, or there is no room. */
  function Registered(s: State, conn: Conn): (s': State) {
    var k := First(s.slots, IsFree());
    if s.shuttingDown || conn in s.owned || k == |s.slots| then s else Taken(s, conn, k)
  }

  lemma TakeAlone(s: State, conn: Conn, k: nat)
    requires k < |s.slots| == SLOT_COUNT && s.slots[k].None?
    ensures Acts(Solo(s, RegCas(conn, k)), 4) == Solo(Taken(s, conn, k), Idle)
  {
    var x := Act(Solo(s, RegCas(conn, k)));
    var x2 := Act(x);
    assert Acts(Solo(s, RegCas(conn, k)), 4) == Acts(x2, 2);
  }

  lemma {:induction false} RegisterScan(s: State, conn: Conn, i: nat) returns (n: nat)
    requires i < |s.slots| == SLOT_COUNT && !s.shuttingDown && conn !in s.owned
    requires forall j :: 0 <= j < i ==> s.slots[j].Some?
    ensures Acts(Solo(s, RegCas(conn, i)), n) == Solo(Registered(s, conn), Idle)
    decreases SLOT_COUNT - i
  {
    if s.slots[i].None? {
      FirstIs(s.slots, IsFree(), i);
      TakeAlone(s, conn, i);
      n := 4;
    } else if i + 1 < SLOT_COUNT {
      var rest := RegisterScan(s, conn, i + 1);
      n := rest + 1;
    } else {
      FirstIs(s.slots, IsFree(), SLOT_COUNT);
      n := 1;
    }
  }

  /** A register left alone puts the connection into the lowest free slot, owned, active and counted, unless it
    * is turned away. */
  lemma RegisterAlone(s: State, t: nat, conn: Conn) returns (n: nat)
    requires WellFormed(s) && t < |s.threads| && s.threads[t].Idle?
    ensures Run(s, [(t, Register(conn))] + Steps(t, n)) == Registered(s, conn)
  {
    if s.shuttingDown {
      n := 1;
    } else if conn in s.owned {
      n := 2;
      assert Acts(Solo(s, RegLoadShutdown(conn)), 2) == Acts(Solo(s, RegLoadOwner(conn)), 1);
    } else {
      var rest := RegisterScan(s, conn, 0);
      n := rest + 2;
      assert Acts(Solo(s, RegLoadShutdown(conn)), n) == Acts(Solo(s, RegLoadOwner(conn)), n - 1);
    }
    CallAlone(s, t, Register(conn), n, Registered(s, conn));
  }

  // ---- Destroy ----

  /** The registrations in the slots from i on, each given up in turn. */
  function Emptied(s: State, i: nat): (s': State)
    decreases |s.slots| - i
  {
    if i >= |s.slots| then s
    else if s.slots[i].Some? then Emptied(Dropped(s, i), i + 1)
    else Emptied(s, i + 1)
  }

  /** The claims in the slots from i on, in order. */
  function ClaimsFrom(slots: seq<Option<Claim>>, i: nat): (claims: seq<Claim>)
    decreases |slots| - i
  {
    if i >= |slots| then []
    else (if slots[i].Some? then [slots[i].value] else []) + ClaimsFrom(slots, i + 1)
  }

  lemma {:induction false} SameClaims(a: seq<Option<Claim>>, b: seq<Option<Claim>>, i: nat)
    requires |a| == |b| && forall j :: i <= j < |a| ==> a[j] == b[j]
    ensures ClaimsFrom(a, i) == ClaimsFrom(b, i)
    decreases |a| - i
  {
    if i >= |a| {
    } else {
      SameClaims(a, b, i + 1);
    }
  }

  /** Giving up all slots leaves none occupied and detaches every claim once, in slot order. */
  lemma {:induction false} EmptiedMeaning(s: State, i: nat)
    requires i <= |s.slots| && forall j :: 0 <= j < i ==> s.slots[j].None?
    ensures var s' := Emptied(s, i);
            && |s'.slots| == |s.slots| && (forall j :: 0 <= j < |s.slots| ==> s'.slots[j].None?)
            && s'.detached == s.detached + ClaimsFrom(s.slots, i)
            && s'.issued == s.issued && s'.threads == s.threads && s'.shuttingDown == s.shuttingDown
    decreases |s.slots| - i
  {
    if i == |s.slots| {
    } else if s.slots[i].Some? {
      var s1 := Dropped(s, i);
      EmptiedMeaning(s1, i + 1);
      SameClaims(s1.slots, s.slots, i + 1);
      assert s1.detached + ClaimsFrom(s.slots, i + 1) == s.detached + ClaimsFrom(s.slots, i);
    } else {
      EmptiedMeaning(s, i + 1);
    }
  }

  /** One slot of a sweep. */
  lemma SweepOne(s: State, i: nat) returns (n: nat, s1: State)
    requires i < |s.slots| == SLOT_COUNT
    ensures Acts(Solo(s, DestroyExchange(i)), n) == Solo(s1, DestroyFrom(i + 1))
    ensures |s1.slots| == SLOT_COUNT && Emptied(s1, i + 1) == Emptied(s, i)
  {
    if s.slots[i].Some? {
      var rest := DropAlone(s, i, Some(i + 1));
      n, s1 := rest + 1, Dropped(s, i);
      var x1 := OneAct(Solo(s, DestroyExchange(i)), n);
      assert x1 == Solo(s.(slots := s.slots[i := None]), DropCount(s.slots[i].value, Some(i + 1)));
    } else {
      n, s1 := 1, s;
    }
  }

  lemma {:induction false} DestroyScan(s: State, i: nat) returns (n: nat)
    requires i <= |s.slots| == SLOT_COUNT
    ensures Acts(Solo(s, DestroyFrom(i)), n) == Solo(Emptied(s, i), Idle)
    decreases SLOT_COUNT - i
  {
    if i == SLOT_COUNT {
      n := 0;
    } else {
      var first, s1 := SweepOne(s, i);
      var rest := DestroyScan(s1, i + 1);
      n := first + rest;
      ActsOn(Solo(s, DestroyExchange(i)), first, rest);
    }
  }

  /** A destroy left alone shuts the registry and gives up every slot in turn: in the end none is occupied, and
    * every claim has been detached. */
  lemma DestroyAlone(s: State, t: nat) returns (n: nat)
    requires WellFormed(s) && t < |s.threads| && s.threads[t].Idle?
    ensures var s' := Run(s, [(t, Destroy)] + Steps(t, n));
            && s' == Emptied(s.(shuttingDown := true), 0) && s'.shuttingDown
            && (forall j :: 0 <= j < SLOT_COUNT ==> s'.slots[j].None?)
            && s'.detached == s.detached + ClaimsFrom(s.slots, 0)
  {
    var shut := s.(shuttingDown := true);
    var rest := DestroyScan(shut, 0);
    n := rest + 1;
    EmptiedMeaning(shut, 0);
    CallAlone(s, t, Destroy, n, Emptied(shut, 0));
  }
}
