/** The poll ledgers of src/host/json_api.c: named polls with their voter lists, and the main poll
  * whose ballots live in the users' preference records. */
module PollState {
  const MAX_OPTIONS := 5
  const MAX_ID := 0xFFFF_FFFF_FFFF_FFFF

  datatype Poll = Poll(active: bool, allowMultiple: bool, id: nat, optionCount: nat, votes: seq<nat>)

  datatype Reply = Recorded | Removed | AlreadyVoted | NotActive | NoSuchOption | BadChoice | Full | Refused

  function NextId(id: nat): (next: nat) {
    if id == MAX_ID then 1 else id + 1
  }

  /** A poll just started: a fresh id and empty tallies. */
  function Started(previous: Poll, allowMultiple: bool, optionCount: nat): (p: Poll) {
    Poll(true, allowMultiple, NextId(previous.id), optionCount, seq(MAX_OPTIONS, _ => 0))
  }

  function Raise(votes: seq<nat>, i: nat): (r: seq<nat>)
    requires i < |votes|
  {
    votes[i := votes[i] + 1]
  }

  /** The guarded decrement of the source: a tally already at zero stays there. */
  function Lower(votes: seq<nat>, i: nat): (r: seq<nat>)
    requires i < |votes|
  {
    if votes[i] > 0 then votes[i := votes[i] - 1] else votes
  }

  /** The same on the tallies in place. */
  method LowerAt(votes: array<nat>, i: nat)
    requires i < votes.Length
    modifies votes
    ensures votes[..] == Lower(old(votes[..]), i)
  {
    if votes[i] > 0 {
      votes[i] := votes[i] - 1;
    }
  }

  // ---- Choice masks: one bit per option ----

  /** mask & (1 << i) */
  predicate HasBit(mask: nat, i: nat) {
    if i == 0 then mask % 2 == 1 else HasBit(mask / 2, i - 1)
  }

  /** mask & ~(1 << i) when the bit is set, mask | (1 << i) when it is clear. */
  function Flip(mask: nat, i: nat): (r: nat) {
    if i == 0 then (if mask % 2 == 1 then mask - 1 else mask + 1)
    else 2 * Flip(mask / 2, i - 1) + mask % 2
  }

  function PowerOfTwo(i: nat): nat {
    if i == 0 then 1 else 2 * PowerOfTwo(i - 1)
  }

  lemma {:induction false} FlipAddsOrSubtracts(mask: nat, i: nat)
    ensures Flip(mask, i) == if HasBit(mask, i) then mask - PowerOfTwo(i) else mask + PowerOfTwo(i)
  {
    if i == 0 {
    } else {
      FlipAddsOrSubtracts(mask / 2, i - 1);
    }
  }

  lemma {:induction false} FlipChangesOneBit(mask: nat, i: nat, j: nat)
    ensures HasBit(Flip(mask, i), j) <==> (HasBit(mask, j) != (i == j))
    ensures Flip(Flip(mask, i), i) == mask
  {
    var f := Flip(mask, i);
    if i > 0 {
      assert f / 2 == Flip(mask / 2, i - 1) && f % 2 == mask % 2;
      FlipChangesOneBit(mask / 2, i - 1, if j > 0 then j - 1 else 0);
    } else {
      assert f / 2 == mask / 2;
    }
  }

  lemma {:induction false} ZeroHasNoBit(i: nat)
    ensures !HasBit(0, i)
  {
    if i == 0 {
    } else {
      ZeroHasNoBit(i - 1);
    }
  }

  /** The options a mask selects. */
  ghost predicate MaskWithin(mask: nat, optionCount: nat) {
    forall i: nat :: HasBit(mask, i) ==> i < optionCount
  }
}
