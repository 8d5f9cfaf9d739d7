/** The main poll (src/host/json_api.c): each user's ballot is kept in that user's preference record,
  * tagged with the id of the poll it was cast in. */
module MainPoll {
  import opened Bytes
  import opened Counting
  import opened PollState
  import opened Options
  import opened Searching

  type Text = seq<Byte>

  datatype Preference = Preference(inUse: bool, username: Text, ip: Text, lastPollId: nat, lastPollChoice: int)

  datatype Host = Host(poll: Poll, preferences: seq<Preference>)

  const BLANK := Preference(false, [], [], 0, 0)

  /** A host with room for the given number of preference records. */
  function Fresh(capacity: nat): (h: Host) {
    Host(Poll(false, false, 0, 0, [0, 0, 0, 0, 0]), seq(capacity, _ => BLANK))
  }

  // ---- Finding a record ----

  predicate Usable(p: Preference, username: Text) {
    p.inUse && p.username == username
  }

  /** The record of this user and address, or of this user with no address when none is asked for. */
  predicate Exact(p: Preference, username: Text, ip: Text) {
    Usable(p, username) && p.ip == ip
  }

  /** host_find_preference_locked: an exact record if there is one, else the first with the name. */
  method FindPreference(preferences: seq<Preference>, username: Text, ip: Text) returns (found: Option<nat>)
    ensures username == [] ==> found.None?
    ensures found.Some? ==> found.value < |preferences| && Usable(preferences[found.value], username)
    ensures found.Some? && (exists k :: 0 <= k < |preferences| && Exact(preferences[k], username, ip)) ==>
              Exact(preferences[found.value], username, ip)
    ensures found == Find(preferences, username, ip)
  {
    if username == [] {
      return None;
    }
    var fallback: Option<nat> := None;
    var i := 0;
    while i < |preferences|
      invariant i <= |preferences|
      invariant forall j :: 0 <= j < i ==> !Exact(preferences[j], username, ip)
      invariant fallback.Some? ==> fallback.value < i && Usable(preferences[fallback.value], username)
      invariant forall j :: 0 <= j < (if fallback.Some? then fallback.value else i) ==>
                  !Usable(preferences[j], username)
    {
      var p := preferences[i];
      if p.inUse && p.username == username {
        if |p.ip| > 0 && |ip| > 0 && p.ip == ip {
          FirstIs(preferences, p => Exact(p, username, ip), i);
          return Some(i);
        }
        if |ip| == 0 && |p.ip| == 0 {
          FirstIs(preferences, p => Exact(p, username, ip), i);
          return Some(i);
        }
        if fallback.None? {
          fallback := Some(i);
        }
      }
      i := i + 1;
    }
    FirstIs(preferences, p => Exact(p, username, ip), i);
    FirstIs(preferences, p => Usable(p, username), if fallback.Some? then fallback.value else i);
    return fallback;
  }

  /** The index a search found among n, if it found one. */
  function Hit(k: nat, n: nat): (found: Option<nat>) {
    if k < n then Some(k) else None
  }

  function Find(preferences: seq<Preference>, username: Text, ip: Text): (found: Option<nat>)
    ensures found.Some? ==> found.value < |preferences| && Usable(preferences[found.value], username)
  {
    if username == [] then None
    else
      var exact := Hit(First(preferences, p => Exact(p, username, ip)), |preferences|);
      if exact.Some? then exact else Hit(First(preferences, p => Usable(p, username)), |preferences|)
  }

  /** host_ensure_preference_locked: the record to vote with, creating one in a free slot if needed. */
  function Ensure(preferences: seq<Preference>, username: Text, ip: Text): (r: (seq<Preference>, Option<nat>))
    ensures |r.0| == |preferences|
    ensures r.1.Some? ==> r.1.value < |r.0| && r.0[r.1.value].inUse
  {
    var existing := Find(preferences, username, ip);
    if username == [] then (preferences, None)
    else if existing.Some? && (ip == [] || preferences[existing.value].ip != []) then (preferences, existing)
    else
      var free := Hit(First(preferences, (p: Preference) => !p.inUse), |preferences|);
      if free.Some? then (preferences[free.value := Preference(true, username, ip, 0, -1)], free)
      else (preferences, existing)
  }

  // ---- Voting ----

  predicate Picks(multiple: bool, choice: int, i: nat) {
    if multiple then choice >= 0 && HasBit(choice, i) else choice == i
  }

  /** The record holds a ballot of the poll with this id for option i. */
  function BallotFor(poll: Poll, i: nat): Preference -> int {
    (p: Preference) =>
      if p.inUse && p.lastPollId == poll.id && Picks(poll.allowMultiple, p.lastPollChoice, i) then 1 else 0
  }

  /** The record's ballot once it has been tagged with the running poll. */
  function Tagged(poll: Poll, p: Preference): (r: Preference) {
    if p.lastPollId != poll.id then p.(lastPollId := poll.id, lastPollChoice := -1) else p
  }

  function CastWith(h: Host, k: nat, o: nat): (r: (Host, Reply))
    requires k < |h.preferences| && o < |h.poll.votes| && h.poll.optionCount <= |h.poll.votes|
  {
    var poll := h.poll;
    var p := Tagged(poll, h.preferences[k]);
    if poll.allowMultiple then
      var mask := if p.lastPollChoice < 0 then 0 else p.lastPollChoice;
      var flipped := Flip(mask, o);
      var votes := if HasBit(mask, o) then Lower(poll.votes, o) else Raise(poll.votes, o);
      var p' := p.(lastPollChoice := if flipped == 0 then -1 else flipped);
      (Host(poll.(votes := votes), h.preferences[k := p']), if HasBit(mask, o) then Removed else Recorded)
    else if p.lastPollChoice == o then (h.(preferences := h.preferences[k := p]), AlreadyVoted)
    else
      var votes := if 0 <= p.lastPollChoice < poll.optionCount then Lower(poll.votes, p.lastPollChoice) else poll.votes;
      (Host(poll.(votes := Raise(votes, o)), h.preferences[k := p.(lastPollChoice := o)]), Recorded)
  }

  /** The vote branch of json_api_handle_poll_request. */
  function Cast(h: Host, username: Text, ip: Text, choice: nat): (r: (Host, Reply))
    requires h.poll.optionCount <= |h.poll.votes|
  {
    if choice == 0 then (h, BadChoice)
    else if !h.poll.active || h.poll.optionCount == 0 then (h, NotActive)
    else if choice - 1 >= h.poll.optionCount then (h, NoSuchOption)
    else
      var (preferences, k) := Ensure(h.preferences, username, ip);
      if k.None? then (h, Refused) else CastWith(h.(preferences := preferences), k.value, choice - 1)
  }

  /** The start branch, for operators: only the poll changes, never a record. */
  function Start(h: Host, operator: bool, optionCount: nat): (h': Host) {
    if operator && 2 <= optionCount <= MAX_OPTIONS then h.(poll := Started(h.poll, false, optionCount)) else h
  }

  function Close(h: Host, operator: bool): (h': Host) {
    if operator then h.(poll := h.poll.(active := false)) else h
  }

  // ---- Balance ----

  ghost predicate Balanced(h: Host) {
    && |h.poll.votes| == MAX_OPTIONS
    && forall i :: 0 <= i < MAX_OPTIONS ==> h.poll.votes[i] == Total(h.preferences, BallotFor(h.poll, i))
  }

  /** A record's tag is never from the future, and a ballot of the running poll is a possible one. */
  ghost predicate GoodRecord(poll: Poll, p: Preference) {
    p.inUse ==>
      && p.lastPollId <= poll.id
      && (p.lastPollId == poll.id ==>
            if poll.allowMultiple
            then p.lastPollChoice == -1 || (p.lastPollChoice > 0 && MaskWithin(p.lastPollChoice, poll.optionCount))
            else -1 <= p.lastPollChoice < poll.optionCount)
  }

  ghost predicate Inv(h: Host) {
    && Balanced(h)
    && h.poll.optionCount <= MAX_OPTIONS
    && forall k :: 0 <= k < |h.preferences| ==> GoodRecord(h.poll, h.preferences[k])
  }

  /** Replacing one record and adjusting the tallies by its difference keeps the balance. */
  lemma ReplaceKeepsInv(h: Host, k: nat, p: Preference, votes: seq<nat>)
    requires Inv(h) && k < |h.preferences| && GoodRecord(h.poll, p) && |votes| == MAX_OPTIONS
    requires forall i :: 0 <= i < MAX_OPTIONS ==>
               votes[i] == h.poll.votes[i] - BallotFor(h.poll, i)(h.preferences[k]) + BallotFor(h.poll, i)(p)
    ensures Inv(Host(h.poll.(votes := votes), h.preferences[k := p]))
  {
    var h' := Host(h.poll.(votes := votes), h.preferences[k := p]);
    forall i | 0 <= i < MAX_OPTIONS
      ensures votes[i] == Total(h'.preferences, BallotFor(h'.poll, i))
    {
      TotalOfUpdate(h.preferences, k, p, BallotFor(h.poll, i));
      assert Total(h'.preferences, BallotFor(h'.poll, i)) == Total(h'.preferences, BallotFor(h.poll, i)) by {
        SameTotal(h'.preferences, BallotFor(h'.poll, i), BallotFor(h.poll, i));
      }
    }
  }

  lemma {:induction false} SameTotal<T>(xs: seq<T>, f: T -> int, g: T -> int)
    requires forall k :: 0 <= k < |xs| ==> f(xs[k]) == g(xs[k])
    ensures Total(xs, f) == Total(xs, g)
  {
    if xs == [] {
    } else {
      SameTotal(xs[1..], f, g);
    }
  }

  /** A record holding a ballot for option i makes that tally positive: no guard suppresses a decrement. */
  lemma GuardNeverSuppresses(h: Host, k: nat, i: nat)
    requires Inv(h) && k < |h.preferences| && i < MAX_OPTIONS && BallotFor(h.poll, i)(h.preferences[k]) == 1
    ensures h.poll.votes[i] > 0
  {
    TotalBounds(h.preferences, k, BallotFor(h.poll, i));
  }

  lemma EnsureKeepsInv(h: Host, username: Text, ip: Text)
    requires Inv(h)
    ensures Inv(h.(preferences := Ensure(h.preferences, username, ip).0))
  {
    var (preferences, k) := Ensure(h.preferences, username, ip);
    if preferences != h.preferences {
      forall i | 0 <= i < MAX_OPTIONS
        ensures BallotFor(h.poll, i)(h.preferences[k.value]) == 0 == BallotFor(h.poll, i)(preferences[k.value])
      {
      }
      ReplaceKeepsInv(h, k.value, preferences[k.value], h.poll.votes);
    }
  }

  lemma CastWithKeepsInv(h: Host, k: nat, o: nat)
    requires Inv(h) && k < |h.preferences| && h.preferences[k].inUse && o < h.poll.optionCount
    ensures Inv(CastWith(h, k, o).0)
  {
    var (h', reply) := CastWith(h, k, o);
    var old_ := h.preferences[k];
    var p := Tagged(h.poll, old_);
    if h.poll.allowMultiple {
      var mask := if p.lastPollChoice < 0 then 0 else p.lastPollChoice;
      forall i: nat
        ensures !HasBit(0, i) && (HasBit(Flip(mask, o), i) <==> (HasBit(mask, i) != (o == i)))
      {
        ZeroHasNoBit(i);
        FlipChangesOneBit(mask, o, i);
      }
      if HasBit(mask, o) {
        GuardNeverSuppresses(h, k, o);
      }
      ReplaceKeepsInv(h, k, h'.preferences[k], h'.poll.votes);
    } else if p.lastPollChoice != o {
      if p.lastPollChoice >= 0 {
        GuardNeverSuppresses(h, k, p.lastPollChoice);
      }
      ReplaceKeepsInv(h, k, h'.preferences[k], h'.poll.votes);
    } else {
      assert h.preferences[k := p] == h.preferences;
    }
  }

  lemma CastKeepsInv(h: Host, username: Text, ip: Text, choice: nat)
    requires Inv(h)
    ensures Inv(Cast(h, username, ip, choice).0)
  {
    var (preferences, k) := Ensure(h.preferences, username, ip);
    if 0 < choice <= h.poll.optionCount && k.Some? {
      EnsureKeepsInv(h, username, ip);
      CastWithKeepsInv(h.(preferences := preferences), k.value, choice - 1);
    }
  }

  // ---- Starting a poll ----

  /** The record holds no ballot that a poll with this id would count. */
  predicate Silent(id: nat, p: Preference) {
    p.inUse && p.lastPollId == id ==> !(0 <= p.lastPollChoice < MAX_OPTIONS)
  }

  /** Starting a poll leaves tallies and records in balance exactly when no record already carries a
    * ballot under the new id. */
  lemma StartBalancedExactly(h: Host, optionCount: nat)
    requires Inv(h) && 2 <= optionCount <= MAX_OPTIONS
    ensures var h' := Start(h, true, optionCount);
            && h'.preferences == h.preferences
            && (Balanced(h') <==> forall k :: 0 <= k < |h.preferences| ==> Silent(NextId(h.poll.id), h.preferences[k]))
  {
    var h' := Start(h, true, optionCount);
    if k :| 0 <= k < |h.preferences| && !Silent(NextId(h.poll.id), h.preferences[k]) {
      var i := h.preferences[k].lastPollChoice;
      TotalBounds(h.preferences, k, BallotFor(h'.poll, i));
      assert h'.poll.votes[i] == 0;
    } else {
      forall i | 0 <= i < MAX_OPTIONS
        ensures Total(h.preferences, BallotFor(h'.poll, i)) == 0
      {
        assert forall k :: 0 <= k < |h.preferences| ==> Silent(NextId(h.poll.id), h.preferences[k]);
        TotalAllZero(h.preferences, BallotFor(h'.poll, i));
      }
    }
  }

  /** Below the largest id, starting a poll voids every old ballot without touching a record. */
  lemma StartKeepsInv(h: Host, operator: bool, optionCount: nat)
    requires Inv(h) && h.poll.id < MAX_ID
    ensures Inv(Start(h, operator, optionCount))
  {
    if operator && 2 <= optionCount <= MAX_OPTIONS {
      forall k | 0 <= k < |h.preferences|
        ensures Silent(NextId(h.poll.id), h.preferences[k])
      {
        assert GoodRecord(h.poll, h.preferences[k]);
      }
      StartBalancedExactly(h, optionCount);
    }
  }

  /** At the largest id the counter comes round to 1, and a ballot of the very first poll counts again. */
  lemma WrappedIdRevivesBallot()
    ensures var h := Host(Poll(true, false, MAX_ID, 2, [0, 0, 0, 0, 0]), [Preference(true, [98], [], 1, 0)]);
            Inv(h) && !Balanced(Start(h, true, 2))
  {
    var old_ := Preference(true, [98], [], 1, 0);
    var h := Host(Poll(true, false, MAX_ID, 2, [0, 0, 0, 0, 0]), [old_]);
    forall i | 0 <= i < MAX_OPTIONS
      ensures Total(h.preferences, BallotFor(h.poll, i)) == 0
    {
      TotalAllZero(h.preferences, BallotFor(h.poll, i));
    }
    assert !Silent(NextId(MAX_ID), h.preferences[0]);
    StartBalancedExactly(h, 2);
  }

  // ---- Whole runs ----

  datatype Event =
    | VoteFor(username: Text, ip: Text, choice: nat)
    | StartPoll(operator: bool, optionCount: nat)
    | ClosePoll(operator: bool)

  /** The request starts a poll. */
  predicate Starting(e: Event) {
    e.StartPoll? && e.operator && 2 <= e.optionCount <= MAX_OPTIONS
  }

  ghost function Apply(h: Host, e: Event): (h': Host)
    requires Inv(h)
  {
    match e
    case VoteFor(username, ip, choice) => Cast(h, username, ip, choice).0
    case StartPoll(operator, optionCount) => Start(h, operator, optionCount)
    case ClosePoll(operator) => Close(h, operator)
  }

  lemma ApplyKeepsInv(h: Host, e: Event)
    requires Inv(h) && (Starting(e) ==> h.poll.id < MAX_ID)
    ensures Inv(Apply(h, e)) && Apply(h, e).poll.id == h.poll.id + if Starting(e) then 1 else 0
  {
    match e
    case VoteFor(username, ip, choice) => CastKeepsInv(h, username, ip, choice);
    case StartPoll(operator, optionCount) =>
      if Starting(e) {
        StartKeepsInv(h, operator, optionCount);
      }
    case ClosePoll(operator) =>
      forall i | 0 <= i < MAX_OPTIONS
        ensures Total(h.preferences, BallotFor(Close(h, operator).poll, i))
             == Total(h.preferences, BallotFor(h.poll, i))
      {
        SameTotal(h.preferences, BallotFor(Close(h, operator).poll, i), BallotFor(h.poll, i));
      }
  }

  lemma FreshHolds(capacity: nat)
    ensures Inv(Fresh(capacity))
  {
    var h := Fresh(capacity);
    forall i | 0 <= i < MAX_OPTIONS
      ensures Total(h.preferences, BallotFor(h.poll, i)) == 0
    {
      TotalAllZero(h.preferences, BallotFor(h.poll, i));
    }
  }

  /** The number of polls started in a history. */
  function Starts(events: seq<Event>): (n: nat) {
    if events == [] then 0
    else Starts(events[..|events| - 1]) + if Starting(events[|events| - 1]) then 1 else 0
  }

  /** The state after a history, up to as many polls as there are ids. */
  ghost function After(capacity: nat, events: seq<Event>): (h: Host)
    requires Starts(events) <= MAX_ID
    ensures Inv(h) && h.poll.id == Starts(events)
  {
    FreshHolds(capacity);
    if events == [] then Fresh(capacity)
    else
      var h := After(capacity, events[..|events| - 1]);
      ApplyKeepsInv(h, events[|events| - 1]);
      Apply(h, events[|events| - 1])
  }

  /** In every reachable state each tally counts the records tagged with the running poll that hold a
    * ballot for that option, and no record is tagged with an id not yet issued. */
  lemma ReachableIsBalanced(capacity: nat, events: seq<Event>)
    requires Starts(events) <= MAX_ID
    ensures var h := After(capacity, events);
            && (forall i :: 0 <= i < MAX_OPTIONS ==> h.poll.votes[i] == Total(h.preferences, BallotFor(h.poll, i)))
            && (forall k :: 0 <= k < |h.preferences| && h.preferences[k].inUse ==>
                  h.preferences[k].lastPollId <= h.poll.id == Starts(events))
  {
  }
}
