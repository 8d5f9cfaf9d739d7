/** The in-place form of a named poll: fixed arrays of tallies and voters, edited by the vote handler. */
module NamedPollBoard {
  import opened PollState
  import opened NamedPoll
  import opened Searching

  class Board {
    var active: bool
    var allowMultiple: bool
    var id: nat
    var optionCount: nat
    var owner: Name
    var voterCount: nat
    const votes: array<nat>
    const voters: array<Voter>

    ghost predicate Valid()
      reads this
    {
      && votes.Length == MAX_OPTIONS && voters.Length == MAX_VOTERS
      && optionCount <= MAX_OPTIONS && voterCount <= MAX_VOTERS
    }

    ghost function State(): (l: Ledger)
      requires Valid()
      reads this, votes, voters
    {
      Ledger(Poll(active, allowMultiple, id, optionCount, votes[..]), owner, voters[..voterCount])
    }

    constructor ()
      ensures Valid() && State() == EMPTY && fresh(votes) && fresh(voters)
    {
      active, allowMultiple, id, optionCount, owner, voterCount := false, false, 0, 0, [], 0;
      votes := new nat[MAX_OPTIONS](_ => 0);
      voters := new Voter[MAX_VOTERS](_ => Voter([], -1, 0));
    }

    /** The start branch: fresh tallies and an empty voter list, unless another user's poll is running. */
    method Begin(name: Name, operator: bool, multiple: bool, count: nat)
      requires Valid()
      modifies this, votes
      ensures Valid() && State() == Start(old(State()), name, operator, multiple, count)
    {
      if !(2 <= count <= MAX_OPTIONS) || (active && !operator && !SameName(owner, name)) {
        return;
      }
      id := NextId(id);
      active, allowMultiple, optionCount, owner, voterCount := true, multiple, count, name, 0;
      for i := 0 to MAX_OPTIONS
        invariant votes.Length == MAX_OPTIONS && forall j :: 0 <= j < i ==> votes[j] == 0
        modifies votes
      {
        votes[i] := 0;
      }
      assert votes[..] == seq(MAX_OPTIONS, _ => 0);
    }

    /** The scan for an existing voter. */
    method VoterIndex(name: Name) returns (k: nat)
      requires Valid()
      ensures k == FindVoter(State().voters, name)
    {
      k := 0;
      while k < voterCount && !SameName(voters[k].username, name)
        invariant k <= voterCount
        invariant forall j :: 0 <= j < k ==> !SameName(voters[j].username, name)
      {
        k := k + 1;
      }
      FirstIs(State().voters, Called(name), k);
    }

    /** The memmove that closes the gap left by voter k. */
    method RemoveVoter(k: nat)
      requires Valid() && k < voterCount
      modifies this`voterCount, voters
      ensures Valid() && voterCount == old(voterCount) - 1
      ensures voters[..voterCount] == old(voters[..k] + voters[k + 1..voterCount])
    {
      forall j | k <= j < voterCount - 1 {
        voters[j] := voters[j + 1];
      }
      voterCount := voterCount - 1;
      voters[voterCount] := Voter([], 0, 0);
    }

    /** A vote for option o by somebody not yet listed. */
    method Admit(v: Voter, o: nat)
      requires Valid() && o < MAX_OPTIONS && voterCount < MAX_VOTERS
      modifies this`voterCount, votes, voters
      ensures Valid() && voters[..voterCount] == old(voters[..voterCount]) + [v]
      ensures votes[..] == Raise(old(votes[..]), o)
    {
      votes[o] := votes[o] + 1;
      voters[voterCount] := v;
      voterCount := voterCount + 1;
    }

    /** A vote for option o that turns the entry of voter k into v. */
    method Revise(k: nat, v: Voter, o: nat)
      requires Valid() && o < MAX_OPTIONS && k < voterCount
      modifies votes, voters
      ensures voters[..voterCount] == old(voters[..voterCount])[k := v]
      ensures votes[..] == Raise(old(votes[..]), o)
    {
      votes[o] := votes[o] + 1;
      voters[k] := v;
    }

    /** Voter k gives up option o, and is dropped when it was the last one. */
    method Withdraw(k: nat, o: nat)
      requires Valid() && o < MAX_OPTIONS && k < voterCount
      modifies this`voterCount, votes, voters
      ensures Valid() && votes[..] == Lower(old(votes[..]), o)
      ensures var (l, v) := (old(State()), old(voters[k]));
              voters[..voterCount] == if Flip(v.mask, o) == 0 then l.voters[..k] + l.voters[k + 1..]
                                      else l.voters[k := Voter(v.username, o, Flip(v.mask, o))]
    {
      var v := voters[k];
      var mask := Flip(v.mask, o);
      LowerAt(votes, o);
      if mask == 0 {
        RemoveVoter(k);
        assert voters[..voterCount] == old(State().voters[..k] + State().voters[k + 1..]);
      } else {
        voters[k] := Voter(v.username, o, mask);
      }
    }

    method VoteMultiple(name: Name, o: nat) returns (reply: Reply)
      requires Valid() && o < MAX_OPTIONS
      modifies this`voterCount, votes, voters
      ensures Valid() && (State(), reply) == CastMultiple(old(State()), name, o)
    {
      var k := VoterIndex(name);
      if k < voterCount {
        var v := voters[k];
        if HasBit(v.mask, o) {
          Withdraw(k, o);
          return Removed;
        }
        Revise(k, Voter(v.username, o, Flip(v.mask, o)), o);
        return Recorded;
      }
      if voterCount >= MAX_VOTERS {
        return Full;
      }
      Admit(Voter(name, o, Flip(0, o)), o);
      return Recorded;
    }

    method VoteSingle(name: Name, o: nat) returns (reply: Reply)
      requires Valid() && o < MAX_OPTIONS
      modifies this`voterCount, votes, voters
      ensures Valid() && (State(), reply) == CastSingle(old(State()), name, o)
    {
      var k := VoterIndex(name);
      if k < voterCount {
        var v := voters[k];
        if v.choice == o {
          return AlreadyVoted;
        }
        if 0 <= v.choice < optionCount {
          LowerAt(votes, v.choice);
        }
        Revise(k, Voter(v.username, o, 0), o);
        return Recorded;
      }
      if voterCount >= MAX_VOTERS {
        return Full;
      }
      Admit(Voter(name, o, 0), o);
      return Recorded;
    }

    /** The vote branch of json_api_handle_vote_request. The ledger's invariant is kept. */
    method Vote(name: Name, choice: nat) returns (reply: Reply)
      requires Valid()
      modifies this`voterCount, votes, voters
      ensures Valid() && (State(), reply) == Cast(old(State()), name, choice)
      ensures old(Inv(State())) ==> Inv(State())
    {
      ghost var before := State();
      if choice == 0 {
        reply := BadChoice;
      } else if !active || optionCount == 0 {
        reply := NotActive;
      } else if choice - 1 >= optionCount {
        reply := NoSuchOption;
      } else if allowMultiple {
        reply := VoteMultiple(name, choice - 1);
      } else {
        reply := VoteSingle(name, choice - 1);
      }
      if Inv(before) {
        ApplyKeepsInv(before, VoteFor(name, choice));
      }
    }
  }
}
