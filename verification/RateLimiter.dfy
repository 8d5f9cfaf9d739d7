/** The request rate limiter of src/translator.c and the timespec arithmetic under it. */
module RateLimiter {
  datatype Timespec = Timespec(sec: int, nsec: int)

  const NS_PER_SEC := 1_000_000_000
  const INTERVAL_NS := 800_000_000
  const PENALTY_NS := 3_000_000_000
  const UNSET := Timespec(0, 0)

  /** A time as the clock reports it. */
  predicate Normal(t: Timespec) {
    0 <= t.sec && 0 <= t.nsec < NS_PER_SEC
  }

  function ToNs(t: Timespec): int {
    t.sec * NS_PER_SEC + t.nsec
  }

  function Max(a: int, b: int): int {
    if a < b then b else a
  }

  /** C division and remainder, which truncate toward zero. */
  function TruncDiv(a: int, b: int): int
    requires b > 0
  {
    if a >= 0 then a / b else -(-a / b)
  }

  function TruncMod(a: int, b: int): int
    requires b > 0
  {
    a - TruncDiv(a, b) * b
  }

  /** translator_timespec_compare orders normal times as their nanosecond counts. */
  function Compare(a: Timespec, b: Timespec): (r: int)
    ensures Normal(a) && Normal(b) ==> (r < 0 <==> ToNs(a) < ToNs(b)) && (r > 0 <==> ToNs(a) > ToNs(b))
    ensures -1 <= r <= 1 && (r == 0 <==> a == b)
  {
    if a.sec != b.sec then (if a.sec < b.sec then -1 else 1)
    else if a.nsec != b.nsec then (if a.nsec < b.nsec then -1 else 1)
    else 0
  }

  /** translator_timespec_add_ns: exact addition, clamped at the epoch, always normal. */
  function AddNs(base: Timespec, nanoseconds: int): (r: Timespec)
    ensures Normal(base) ==> Normal(r) && ToNs(r) == Max(0, ToNs(base) + nanoseconds)
  {
    var seconds0 := TruncDiv(nanoseconds, NS_PER_SEC);
    var remainder0 := TruncMod(nanoseconds, NS_PER_SEC);
    var seconds := if remainder0 < 0 then seconds0 - 1 else seconds0;
    var remainder := if remainder0 < 0 then remainder0 + NS_PER_SEC else remainder0;
    var r1 := Timespec(base.sec + seconds, base.nsec + remainder);
    var r2 := if r1.nsec >= NS_PER_SEC then Timespec(r1.sec + 1, r1.nsec - NS_PER_SEC) else r1;
    var r3 := if r2.nsec < 0 then Timespec(r2.sec - 1, r2.nsec + NS_PER_SEC) else r2;
    if r3.sec < 0 then UNSET else r3
  }

  /** translator_timespec_diff: the distance from start up to end, or zero. */
  function Diff(end: Timespec, start: Timespec): (r: Timespec)
    ensures Normal(end) && Normal(start) ==> Normal(r) && ToNs(r) == Max(0, ToNs(end) - ToNs(start))
  {
    if Compare(end, start) <= 0 then UNSET
    else
      var r1 := Timespec(end.sec - start.sec, end.nsec - start.nsec);
      var r2 := if r1.nsec < 0 then Timespec(r1.sec - 1, r1.nsec + NS_PER_SEC) else r1;
      if r2.sec < 0 then UNSET else r2
  }

  lemma ToNsInjective(a: Timespec, b: Timespec)
    requires Normal(a) && Normal(b) && ToNs(a) == ToNs(b)
    ensures a == b
  {
  }

  /** Adding a non-negative duration and taking the difference undo each other, both ways. */
  lemma AddDiffInverse(base: Timespec, later: Timespec, duration: nat)
    requires Normal(base) && Normal(later) && ToNs(base) <= ToNs(later)
    ensures ToNs(Diff(AddNs(base, duration), base)) == duration
    ensures AddNs(base, ToNs(Diff(later, base))) == later
  {
    ToNsInjective(AddNs(base, ToNs(Diff(later, base))), later);
  }

  // ---- One critical section at a time ----

  datatype Outcome = Granted | Wait(duration: Timespec)

  /** The limiter's shared word, touched only while its mutex is held. */
  class Limiter {
    var next: Timespec

    constructor ()
      ensures next == UNSET
    {
      next := UNSET;
    }

    /** One pass through the loop of translator_rate_limit_wait: grant, or say how long to sleep. */
    method Attempt(now: Timespec) returns (outcome: Outcome)
      modifies this
      ensures next == Apply(old(next), Try(now))
      ensures outcome.Granted? <==> Grants(old(next), now)
      ensures outcome.Wait? && Normal(now) && Normal(next) ==>
                && Normal(outcome.duration) && ToNs(outcome.duration) > 0
                && ToNs(now) + ToNs(outcome.duration) == ToNs(next)
                && Grants(next, AddNs(now, ToNs(outcome.duration)))
    {
      if next.sec == 0 && next.nsec == 0 {
        next := AddNs(now, INTERVAL_NS);
        return Granted;
      }
      if Compare(now, next) >= 0 {
        next := AddNs(now, INTERVAL_NS);
        return Granted;
      }
      outcome := Wait(Diff(next, now));
    }

    /** translator_rate_limit_penalise_until */
    method PenaliseUntil(until: Timespec)
      modifies this
      ensures next == Apply(old(next), Penalise(until))
    {
      if Compare(until, next) > 0 {
        next := until;
      }
    }

    /** translator_rate_limit_penalize: only status 429 counts. */
    method Penalize(status: int, now: Timespec)
      modifies this
      ensures next == if status == 429 then Apply(old(next), Penalise(AddNs(now, 3_000_000_000))) else old(next)
    {
      if status != 429 {
        return;
      }
      PenaliseUntil(AddNs(now, PENALTY_NS));
    }
  }

  // ---- Whole runs: critical sections of any threads, in the order the mutex admits them ----

  datatype Event = Try(now: Timespec) | Penalise(until: Timespec)

  predicate Grants(next: Timespec, now: Timespec) {
    next == UNSET || Compare(now, next) >= 0
  }

  function Apply(next: Timespec, event: Event): (r: Timespec) {
    match event
    case Try(now) => if Grants(next, now) then AddNs(now, INTERVAL_NS) else next
    case Penalise(until) => if Compare(until, next) > 0 then until else next
  }

  function After(events: seq<Event>): (next: Timespec) {
    if events == [] then UNSET else Apply(After(events[..|events| - 1]), events[|events| - 1])
  }

  predicate NormalRun(events: seq<Event>) {
    forall i :: 0 <= i < |events| ==>
      Normal(match events[i] case Try(now) => now case Penalise(until) => until)
  }

  predicate GrantedAt(events: seq<Event>, i: nat)
    requires i < |events|
  {
    events[i].Try? && Grants(After(events[..i]), events[i].now)
  }

  /** The earliest nanosecond at which a later request may be granted, as far as event i is concerned. */
  function Deadline(events: seq<Event>, i: nat): (ns: int)
    requires i < |events|
  {
    match events[i]
    case Try(now) => if GrantedAt(events, i) then ToNs(now) + INTERVAL_NS else 0
    case Penalise(until) => ToNs(until)
  }

  lemma DeadlineOfPrefix(events: seq<Event>, n: nat, i: nat)
    requires i < n <= |events|
    ensures Deadline(events[..n], i) == Deadline(events, i)
  {
    assert events[..n][..i] == events[..i];
  }

  /** One critical section never lowers the shared word, and moves it only to its own deadline. */
  lemma ApplyRaises(next: Timespec, event: Event)
    requires Normal(next) && NormalRun([event])
    ensures var after := Apply(next, event);
            && Normal(after) && ToNs(next) <= ToNs(after)
            && (event.Penalise? ==> ToNs(event.until) <= ToNs(after))
            && (after == next || ToNs(after) == if event.Try? then ToNs(event.now) + INTERVAL_NS else ToNs(event.until))
  {
    assert Normal(match [event][0] case Try(now) => now case Penalise(until) => until);
  }

  /** No deadline set so far exceeds the shared word. */
  lemma {:induction false} NoDeadlineExceedsNext(events: seq<Event>)
    requires NormalRun(events)
    ensures Normal(After(events))
    ensures forall i :: 0 <= i < |events| ==> Deadline(events, i) <= ToNs(After(events))
  {
    if events == [] {
    } else {
      var n := |events| - 1;
      NoDeadlineExceedsNext(events[..n]);
      ApplyRaises(After(events[..n]), events[n]);
      forall i | 0 <= i < |events|
        ensures Deadline(events, i) <= ToNs(After(events))
      {
        if i < n {
          DeadlineOfPrefix(events, n, i);
        }
      }
    }
  }

  /** Once set, the shared word is the deadline of some event so far. */
  lemma {:induction false} NextIsSomeDeadline(events: seq<Event>) returns (i: nat)
    requires NormalRun(events) && After(events) != UNSET
    ensures i < |events| && Deadline(events, i) == ToNs(After(events))
  {
    var n := |events| - 1;
    NoDeadlineExceedsNext(events[..n]);
    ApplyRaises(After(events[..n]), events[n]);
    if After(events) == After(events[..n]) {
      i := NextIsSomeDeadline(events[..n]);
      DeadlineOfPrefix(events, n, i);
    } else {
      i := n;
    }
  }

  /** A request is granted exactly when it comes at least 800 ms after every earlier grant and not
    * before any earlier penalty deadline, however the threads interleave. */
  lemma GrantedExactly(events: seq<Event>, j: nat)
    requires NormalRun(events) && j < |events| && events[j].Try?
    ensures GrantedAt(events, j) <==>
            forall i | 0 <= i < j ::
              && (GrantedAt(events, i) ==> ToNs(events[j].now) >= ToNs(events[i].now) + 800_000_000)
              && (events[i].Penalise? ==> ToNs(events[j].now) >= ToNs(events[i].until))
  {
    var before := events[..j];
    NoDeadlineExceedsNext(before);
    if GrantedAt(events, j) {
      forall i | 0 <= i < j
        ensures GrantedAt(events, i) ==> ToNs(events[j].now) >= ToNs(events[i].now) + INTERVAL_NS
        ensures events[i].Penalise? ==> ToNs(events[j].now) >= ToNs(events[i].until)
      {
        DeadlineOfPrefix(events, j, i);
        assert Deadline(before, i) <= ToNs(After(before));
      }
    } else {
      var i := NextIsSomeDeadline(before);
      DeadlineOfPrefix(events, j, i);
    }
  }
}
