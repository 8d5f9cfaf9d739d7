/** The in-place form of the main poll: the tallies and the preference records, edited by the handlers. */
module MainPollBoard {
  import opened PollState
  import opened MainPoll
  import opened Options
  import opened Searching

  class Board {
    var active: bool
    var allowMultiple: bool
    var id: nat
    var optionCount: nat
    const votes: array<nat>
    const preferences: array<Preference>

    ghost predicate Valid()
      reads this
    {
      votes.Length == MAX_OPTIONS && optionCount <= MAX_OPTIONS
    }

    ghost function State(): (h: Host)
      reads this, votes, preferences
    {
      Host(Poll(active, allowMultiple, id, optionCount, votes[..]), preferences[..])
    }

    constructor (capacity: nat)
      ensures Valid() && State() == Fresh(capacity) && fresh(votes) && fresh(preferences)
    {
      active, allowMultiple, id, optionCount := false, false, 0, 0;
      votes := new nat[MAX_OPTIONS](_ => 0);
      preferences := new Preference[capacity](_ => BLANK);
    }

    /** host_ensure_preference_locked */
    method EnsurePreference(username: Text, ip: Text) returns (k: Option<nat>)
      requires Valid()
      modifies preferences
      ensures (preferences[..], k) == Ensure(old(preferences[..]), username, ip)
    {
      if username == [] {
        return None;
      }
      k := FindPreference(preferences[..], username, ip);
      if k.Some? && (ip == [] || preferences[k.value].ip != []) {
        return;
      }
      var free := FindFree();
      if free < preferences.Length {
        preferences[free] := Preference(true, username, ip, 0, -1);
        k := Some(free);
      }
    }

    method FindFree() returns (free: nat)
      ensures free <= preferences.Length
      ensures First(preferences[..], (p: Preference) => !p.inUse) == free
    {
      free := 0;
      while free < preferences.Length && preferences[free].inUse
        invariant free <= preferences.Length
        invariant forall j :: 0 <= j < free ==> preferences[j].inUse
      {
        free := free + 1;
      }
      FirstIs(preferences[..], (p: Preference) => !p.inUse, free);
    }

    method VoteWith(k: nat, o: nat) returns (reply: Reply)
      requires Valid() && k < preferences.Length && o < MAX_OPTIONS
      modifies votes, preferences
      ensures (State(), reply) == CastWith(old(State()), k, o)
    {
      var p := preferences[k];
      if p.lastPollId != id {
        p := p.(lastPollId := id, lastPollChoice := -1);
      }
      preferences[k] := p;
      if allowMultiple {
        var mask: nat := if p.lastPollChoice < 0 then 0 else p.lastPollChoice;
        var flipped := Flip(mask, o);
        if HasBit(mask, o) {
          LowerAt(votes, o);
          reply := Removed;
        } else {
          votes[o] := votes[o] + 1;
          reply := Recorded;
        }
        preferences[k] := p.(lastPollChoice := if flipped == 0 then -1 else flipped);
        assert votes[..] == if HasBit(mask, o) then Lower(old(votes[..]), o) else Raise(old(votes[..]), o);
      } else if p.lastPollChoice == o {
        reply := AlreadyVoted;
      } else {
        if 0 <= p.lastPollChoice < optionCount {
          LowerAt(votes, p.lastPollChoice);
        }
        ghost var lowered := votes[..];
        votes[o] := votes[o] + 1;
        assert votes[..] == Raise(lowered, o);
        preferences[k] := p.(lastPollChoice := o);
        reply := Recorded;
      }
      assert preferences[..] == old(preferences[..])[k := preferences[k]];
    }

    /** The vote branch of json_api_handle_poll_request. The balance of tallies and records is kept. */
    method Vote(username: Text, ip: Text, choice: nat) returns (reply: Reply)
      requires Valid()
      modifies votes, preferences
      ensures Valid() && (State(), reply) == Cast(old(State()), username, ip, choice)
      ensures old(Inv(State())) ==> Inv(State())
    {
      ghost var before := State();
      if Inv(before) {
        CastKeepsInv(before, username, ip, choice);
      }
      if choice == 0 {
        return BadChoice;
      }
      if !active || optionCount == 0 {
        return NotActive;
      }
      if choice - 1 >= optionCount {
        return NoSuchOption;
      }
      var k := EnsurePreference(username, ip);
      if k.None? {
        return Refused;
      }
      reply := VoteWith(k.value, choice - 1);
    }

    /** The start branch: a fresh id and empty tallies; no record is touched. */
    method Begin(operator: bool, count: nat)
      requires Valid()
      modifies this, votes
      ensures Valid() && State() == Start(old(State()), operator, count)
    {
      if !operator || !(2 <= count <= MAX_OPTIONS) {
        return;
      }
      id := NextId(id);
      active, allowMultiple, optionCount := true, false, count;
      for i := 0 to MAX_OPTIONS
        invariant votes.Length == MAX_OPTIONS && forall j :: 0 <= j < i ==> votes[j] == 0
        modifies votes
      {
        votes[i] := 0;
      }
      assert votes[..] == seq(MAX_OPTIONS, _ => 0);
    }
  }
}
