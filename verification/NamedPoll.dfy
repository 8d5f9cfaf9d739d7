/** Named polls (src/host/json_api.c): tallies beside a list of voters, kept consistent by hand. */
module NamedPoll {
  import opened Bytes
  import opened Counting
  import opened PollState
  import opened Searching

  const MAX_VOTERS := 256

  type Name = seq<Byte>

  function FoldByte(b: Byte): Byte {
    if 65 <= b <= 90 then b + 32 else b
  }

  function Fold(name: Name): Name {
    seq(|name|, i requires 0 <= i < |name| => FoldByte(name[i]))
  }

  /** strcasecmp(a, b) == 0 */
  predicate SameName(a: Name, b: Name) {
    Fold(a) == Fold(b)
  }

  /** A capital ASCII letter and its small form. */
  predicate CapitalOf(capital: Byte, small: Byte) {
    65 <= capital < 91 && small - 97 == capital - 65
  }

  /** Two names are the same exactly when they differ in nothing but the case of ASCII letters. */
  lemma SameNameExactly(a: Name, b: Name)
    ensures SameName(a, b) <==>
            && |a| == |b|
            && forall i :: 0 <= i < |a| ==> a[i] == b[i] || CapitalOf(a[i], b[i]) || CapitalOf(b[i], a[i])
  {
    if |a| == |b| {
      assert forall i :: 0 <= i < |a| ==>
          (Fold(a)[i] == Fold(b)[i] <==> a[i] == b[i] || CapitalOf(a[i], b[i]) || CapitalOf(b[i], a[i]));
    } else {
      assert |Fold(a)| == |a| && |Fold(b)| == |b|;
    }
  }

  datatype Voter = Voter(username: Name, choice: int, mask: nat)
  datatype Ledger = Ledger(poll: Poll, owner: Name, voters: seq<Voter>)

  const EMPTY := Ledger(Poll(false, false, 0, 0, [0, 0, 0, 0, 0]), [], [])

  /** Voter v supports option i: the choice field in single mode, the mask in multiple mode. */
  predicate Picks(multiple: bool, v: Voter, i: nat) {
    if multiple then HasBit(v.mask, i) else v.choice == i
  }

  function PickWeight(multiple: bool, i: nat): Voter -> int {
    (v: Voter) => if Picks(multiple, v, i) then 1 else 0
  }

  function Tally(l: Ledger, i: nat): int {
    Total(l.voters, PickWeight(l.poll.allowMultiple, i))
  }

  ghost predicate GoodVoter(poll: Poll, v: Voter) {
    if poll.allowMultiple then v.mask != 0 && MaskWithin(v.mask, poll.optionCount)
    else 0 <= v.choice < poll.optionCount
  }

  ghost predicate NamesDiffer(voters: seq<Voter>) {
    forall i, j :: 0 <= i < j < |voters| ==> !SameName(voters[i].username, voters[j].username)
  }

  /** The invariant of the ledger: every tally counts the voters who support the option, names are
    * distinct, and every entry is one the vote handler could have written. */
  ghost predicate Inv(l: Ledger) {
    && |l.poll.votes| == MAX_OPTIONS
    && l.poll.optionCount <= MAX_OPTIONS
    && |l.voters| <= MAX_VOTERS
    && NamesDiffer(l.voters)
    && (forall k :: 0 <= k < |l.voters| ==> GoodVoter(l.poll, l.voters[k]))
    && (forall i :: 0 <= i < MAX_OPTIONS ==> l.poll.votes[i] == Tally(l, i))
  }

  // ---- Transitions ----

  /** Index of the first voter with this name, or the length of the list. */
  function FindVoter(voters: seq<Voter>, name: Name): (k: nat)
    ensures k <= |voters|
    ensures k < |voters| ==> SameName(voters[k].username, name)
    ensures forall j :: 0 <= j < k ==> !SameName(voters[j].username, name)
  {
    First(voters, Called(name))
  }

  /** The voter has this name, in any letter case. */
  function Called(name: Name): Voter -> bool {
    (v: Voter) => SameName(v.username, name)
  }

  predicate Accepted(reply: Reply) {
    reply.Recorded? || reply.Removed?
  }

  function CastMultiple(l: Ledger, name: Name, o: nat): (r: (Ledger, Reply))
    requires o < |l.poll.votes|
  {
    var k := FindVoter(l.voters, name);
    if k < |l.voters| then
      var v := l.voters[k];
      var mask := Flip(v.mask, o);
      if HasBit(v.mask, o) then
        var votes := Lower(l.poll.votes, o);
        var voters := if mask == 0 then l.voters[..k] + l.voters[k + 1..]
                      else l.voters[k := Voter(v.username, o, mask)];
        (l.(poll := l.poll.(votes := votes), voters := voters), Removed)
      else
        var votes := Raise(l.poll.votes, o);
        (l.(poll := l.poll.(votes := votes), voters := l.voters[k := Voter(v.username, o, mask)]), Recorded)
    else if |l.voters| >= MAX_VOTERS then (l, Full)
    else
      var votes := Raise(l.poll.votes, o);
      (l.(poll := l.poll.(votes := votes), voters := l.voters + [Voter(name, o, Flip(0, o))]), Recorded)
  }

  function CastSingle(l: Ledger, name: Name, o: nat): (r: (Ledger, Reply))
    requires o < |l.poll.votes| && l.poll.optionCount <= |l.poll.votes|
  {
    var k := FindVoter(l.voters, name);
    if k < |l.voters| then
      var v := l.voters[k];
      if v.choice == o then (l, AlreadyVoted)
      else
        var votes := if 0 <= v.choice < l.poll.optionCount then Lower(l.poll.votes, v.choice) else l.poll.votes;
        (l.(poll := l.poll.(votes := Raise(votes, o)), voters := l.voters[k := Voter(v.username, o, 0)]), Recorded)
    else if |l.voters| >= MAX_VOTERS then (l, Full)
    else
      (l.(poll := l.poll.(votes := Raise(l.poll.votes, o)), voters := l.voters + [Voter(name, o, 0)]), Recorded)
  }

  /** The vote branch of json_api_handle_vote_request; choices are numbered from 1. */
  function Cast(l: Ledger, name: Name, choice: nat): (r: (Ledger, Reply))
    requires l.poll.optionCount <= |l.poll.votes|
  {
    if choice == 0 then (l, BadChoice)
    else if !l.poll.active || l.poll.optionCount == 0 then (l, NotActive)
    else if choice - 1 >= l.poll.optionCount then (l, NoSuchOption)
    else if l.poll.allowMultiple then CastMultiple(l, name, choice - 1)
    else CastSingle(l, name, choice - 1)
  }

  /** The start branch: an active poll may be replaced by its owner or an operator only. */
  function Start(l: Ledger, name: Name, operator: bool, multiple: bool, optionCount: nat): (l': Ledger) {
    if !(2 <= optionCount <= MAX_OPTIONS) then l
    else if l.poll.active && !operator && !SameName(l.owner, name) then l
    else Ledger(Started(l.poll, multiple, optionCount), name, [])
  }

  function Close(l: Ledger, name: Name, operator: bool): (l': Ledger) {
    if operator || SameName(l.owner, name) then l.(poll := l.poll.(active := false)) else l
  }

  datatype Event =
    | VoteFor(name: Name, choice: nat)
    | StartPoll(name: Name, operator: bool, multiple: bool, optionCount: nat)
    | ClosePoll(name: Name, operator: bool)

  ghost function Apply(l: Ledger, e: Event): (l': Ledger)
    requires Inv(l)
  {
    match e
    case VoteFor(name, choice) => Cast(l, name, choice).0
    case StartPoll(name, operator, multiple, optionCount) => Start(l, name, operator, multiple, optionCount)
    case ClosePoll(name, operator) => Close(l, name, operator)
  }

  // ---- Every reachable ledger is balanced ----

  lemma {:induction false} TallyBound(voters: seq<Voter>, weight: Voter -> int)
    requires forall v :: 0 <= weight(v) <= 1
    ensures 0 <= Total(voters, weight) <= |voters|
  {
    if voters == [] {
    } else {
      TallyBound(voters[1..], weight);
    }
  }

  /** Under the invariant a supported option has a positive tally, so no guard suppresses a decrement. */
  lemma GuardNeverSuppresses(l: Ledger, k: nat, i: nat)
    requires Inv(l) && k < |l.voters| && i < MAX_OPTIONS && Picks(l.poll.allowMultiple, l.voters[k], i)
    ensures l.poll.votes[i] > 0 && Lower(l.poll.votes, i)[i] == l.poll.votes[i] - 1
  {
    TotalBounds(l.voters, k, PickWeight(l.poll.allowMultiple, i));
  }

  lemma FlippedMaskWithin(mask: nat, o: nat, optionCount: nat)
    requires MaskWithin(mask, optionCount) && o < optionCount
    ensures MaskWithin(Flip(mask, o), optionCount)
  {
    forall i: nat | HasBit(Flip(mask, o), i)
      ensures i < optionCount
    {
      FlipChangesOneBit(mask, o, i);
    }
  }

  /** Replacing voter k, keeping the name, and adjusting every tally by the difference. */
  lemma ReplaceKeepsInv(l: Ledger, k: nat, v: Voter, votes: seq<nat>)
    requires Inv(l) && k < |l.voters| && v.username == l.voters[k].username && GoodVoter(l.poll, v)
    requires |votes| == MAX_OPTIONS
    requires forall i :: 0 <= i < MAX_OPTIONS ==>
               votes[i] == l.poll.votes[i] - PickWeight(l.poll.allowMultiple, i)(l.voters[k])
                                           + PickWeight(l.poll.allowMultiple, i)(v)
    ensures Inv(l.(poll := l.poll.(votes := votes), voters := l.voters[k := v]))
  {
    var l' := l.(poll := l.poll.(votes := votes), voters := l.voters[k := v]);
    forall i | 0 <= i < MAX_OPTIONS
      ensures votes[i] == Tally(l', i)
    {
      TotalOfUpdate(l.voters, k, v, PickWeight(l.poll.allowMultiple, i));
    }
  }

  lemma AppendKeepsInv(l: Ledger, v: Voter, votes: seq<nat>)
    requires Inv(l) && FindVoter(l.voters, v.username) == |l.voters| < MAX_VOTERS && GoodVoter(l.poll, v)
    requires |votes| == MAX_OPTIONS
    requires forall i :: 0 <= i < MAX_OPTIONS ==>
               votes[i] == l.poll.votes[i] + PickWeight(l.poll.allowMultiple, i)(v)
    ensures Inv(l.(poll := l.poll.(votes := votes), voters := l.voters + [v]))
  {
    var l' := l.(poll := l.poll.(votes := votes), voters := l.voters + [v]);
    forall i | 0 <= i < MAX_OPTIONS
      ensures votes[i] == Tally(l', i)
    {
      TotalOfAppend(l.voters, v, PickWeight(l.poll.allowMultiple, i));
    }
  }

  lemma RemoveKeepsInv(l: Ledger, k: nat, votes: seq<nat>)
    requires Inv(l) && k < |l.voters|
    requires |votes| == MAX_OPTIONS
    requires forall i :: 0 <= i < MAX_OPTIONS ==>
               votes[i] == l.poll.votes[i] - PickWeight(l.poll.allowMultiple, i)(l.voters[k])
    ensures Inv(l.(poll := l.poll.(votes := votes), voters := l.voters[..k] + l.voters[k + 1..]))
  {
    var l' := l.(poll := l.poll.(votes := votes), voters := l.voters[..k] + l.voters[k + 1..]);
    forall i | 0 <= i < MAX_OPTIONS
      ensures votes[i] == Tally(l', i)
    {
      TotalOfRemoval(l.voters, k, PickWeight(l.poll.allowMultiple, i));
    }
  }

  /** The voter's entry after one option is toggled. */
  function Toggled(v: Voter, o: nat): Voter {
    Voter(v.username, o, Flip(v.mask, o))
  }

  /** Toggling moves the voter's weight for that option and no other. */
  lemma ToggledWeight(v: Voter, o: nat, i: nat)
    ensures PickWeight(true, i)(Toggled(v, o)) ==
              PickWeight(true, i)(v) + if i != o then 0 else if HasBit(v.mask, o) then -1 else 1
  {
    FlipChangesOneBit(v.mask, o, i);
  }

  lemma ToggledWeights(v: Voter, o: nat)
    ensures forall i :: 0 <= i < MAX_OPTIONS ==>
              PickWeight(true, i)(Toggled(v, o)) ==
                PickWeight(true, i)(v) + if i != o then 0 else if HasBit(v.mask, o) then -1 else 1
  {
    forall i | 0 <= i < MAX_OPTIONS
      ensures PickWeight(true, i)(Toggled(v, o)) ==
                PickWeight(true, i)(v) + if i != o then 0 else if HasBit(v.mask, o) then -1 else 1
    {
      ToggledWeight(v, o, i);
    }
  }

  lemma EmptyWeights(v: Voter)
    requires v.mask == 0
    ensures forall i :: 0 <= i < MAX_OPTIONS ==> PickWeight(true, i)(v) == 0
  {
    forall i | 0 <= i < MAX_OPTIONS
      ensures PickWeight(true, i)(v) == 0
    {
      ZeroHasNoBit(i);
    }
  }

  lemma SetBitIsNonzero(mask: nat, o: nat)
    requires !HasBit(mask, o)
    ensures Flip(mask, o) != 0
  {
    FlipChangesOneBit(mask, o, o);
    ZeroHasNoBit(o);
  }

  /** An entry that had the option: it loses the option, and is dropped when it was the last one. */
  lemma WithdrawalKeepsInv(l: Ledger, k: nat, o: nat)
    requires Inv(l) && l.poll.allowMultiple && o < l.poll.optionCount && k < |l.voters| && HasBit(l.voters[k].mask, o)
    ensures var (votes, v) := (Lower(l.poll.votes, o), Toggled(l.voters[k], o));
            Inv(l.(poll := l.poll.(votes := votes),
                   voters := if v.mask == 0 then l.voters[..k] + l.voters[k + 1..] else l.voters[k := v]))
  {
    var v := Toggled(l.voters[k], o);
    GuardNeverSuppresses(l, k, o);
    ToggledWeights(l.voters[k], o);
    FlippedMaskWithin(l.voters[k].mask, o, l.poll.optionCount);
    if v.mask == 0 {
      EmptyWeights(v);
      RemoveKeepsInv(l, k, Lower(l.poll.votes, o));
    } else {
      ReplaceKeepsInv(l, k, v, Lower(l.poll.votes, o));
    }
  }

  lemma SupportKeepsInv(l: Ledger, k: nat, o: nat)
    requires Inv(l) && l.poll.allowMultiple && o < l.poll.optionCount && k < |l.voters| && !HasBit(l.voters[k].mask, o)
    ensures Inv(l.(poll := l.poll.(votes := Raise(l.poll.votes, o)), voters := l.voters[k := Toggled(l.voters[k], o)]))
  {
    ToggledWeights(l.voters[k], o);
    FlippedMaskWithin(l.voters[k].mask, o, l.poll.optionCount);
    SetBitIsNonzero(l.voters[k].mask, o);
    ReplaceKeepsInv(l, k, Toggled(l.voters[k], o), Raise(l.poll.votes, o));
  }

  lemma NewcomerKeepsInv(l: Ledger, name: Name, o: nat)
    requires Inv(l) && l.poll.allowMultiple && o < l.poll.optionCount
    requires FindVoter(l.voters, name) == |l.voters| < MAX_VOTERS
    ensures Inv(l.(poll := l.poll.(votes := Raise(l.poll.votes, o)), voters := l.voters + [Voter(name, o, Flip(0, o))]))
  {
    var blank := Voter(name, 0, 0);
    ToggledWeights(blank, o);
    EmptyWeights(blank);
    forall i: nat
      ensures !HasBit(0, i)
    {
      ZeroHasNoBit(i);
    }
    FlippedMaskWithin(0, o, l.poll.optionCount);
    SetBitIsNonzero(0, o);
    AppendKeepsInv(l, Toggled(blank, o), Raise(l.poll.votes, o));
  }

  lemma CastMultipleKeepsInv(l: Ledger, name: Name, o: nat)
    requires Inv(l) && l.poll.allowMultiple && o < l.poll.optionCount
    ensures Inv(CastMultiple(l, name, o).0)
  {
    var k := FindVoter(l.voters, name);
    if k < |l.voters| {
      if HasBit(l.voters[k].mask, o) {
        WithdrawalKeepsInv(l, k, o);
      } else {
        SupportKeepsInv(l, k, o);
      }
    } else if |l.voters| < MAX_VOTERS {
      NewcomerKeepsInv(l, name, o);
    }
  }

  lemma CastSingleKeepsInv(l: Ledger, name: Name, o: nat)
    requires Inv(l) && !l.poll.allowMultiple && o < l.poll.optionCount
    ensures Inv(CastSingle(l, name, o).0)
  {
    var k := FindVoter(l.voters, name);
    if k < |l.voters| {
      var v := l.voters[k];
      if v.choice != o {
        GuardNeverSuppresses(l, k, v.choice);
        ReplaceKeepsInv(l, k, Voter(v.username, o, 0), Raise(Lower(l.poll.votes, v.choice), o));
      }
    } else if |l.voters| < MAX_VOTERS {
      AppendKeepsInv(l, Voter(name, o, 0), Raise(l.poll.votes, o));
    }
  }

  /** What a vote comes down to: nothing, or a vote in the mode of the poll. */
  lemma CastIs(l: Ledger, name: Name, choice: nat)
    requires l.poll.optionCount <= |l.poll.votes|
    ensures if !l.poll.active || !(0 < choice <= l.poll.optionCount)
            then Cast(l, name, choice).0 == l && !Accepted(Cast(l, name, choice).1)
            else Cast(l, name, choice) ==
                 if l.poll.allowMultiple then CastMultiple(l, name, choice - 1) else CastSingle(l, name, choice - 1)
  {
  }

  /** The ledger after a vote that counts, known only by its invariant. */
  lemma AfterVote(l: Ledger, name: Name, o: nat) returns (l': Ledger)
    requires Inv(l) && o < l.poll.optionCount
    ensures Inv(l') && l' == if l.poll.allowMultiple then CastMultiple(l, name, o).0 else CastSingle(l, name, o).0
  {
    if l.poll.allowMultiple {
      CastMultipleKeepsInv(l, name, o);
      l' := CastMultiple(l, name, o).0;
    } else {
      CastSingleKeepsInv(l, name, o);
      l' := CastSingle(l, name, o).0;
    }
  }

  lemma CastKeepsInv(l: Ledger, name: Name, choice: nat)
    requires Inv(l)
    ensures Inv(Cast(l, name, choice).0)
  {
    CastIs(l, name, choice);
    if l.poll.active && 0 < choice <= l.poll.optionCount {
      var l' := AfterVote(l, name, choice - 1);
      assert Cast(l, name, choice).0 == l';
    }
  }

  lemma StartKeepsInv(l: Ledger, name: Name, operator: bool, multiple: bool, optionCount: nat)
    requires Inv(l)
    ensures Inv(Start(l, name, operator, multiple, optionCount))
  {
  }

  lemma CloseKeepsInv(l: Ledger, name: Name, operator: bool)
    requires Inv(l)
    ensures Inv(Close(l, name, operator))
  {
    assert forall i :: 0 <= i < MAX_OPTIONS ==> Tally(Close(l, name, operator), i) == Tally(l, i);
  }

  lemma ApplyKeepsInv(l: Ledger, e: Event)
    requires Inv(l)
    ensures Inv(Apply(l, e))
  {
    match e
    case VoteFor(name, choice) =>
      CastKeepsInv(l, name, choice);
    case StartPoll(name, operator, multiple, optionCount) =>
      StartKeepsInv(l, name, operator, multiple, optionCount);
    case ClosePoll(name, operator) =>
      CloseKeepsInv(l, name, operator);
  }

  /** The state after a history of requests, from the empty ledger. */
  ghost function After(events: seq<Event>): (l: Ledger)
    ensures Inv(l)
  {
    if events == [] then EMPTY
    else
      var l := After(events[..|events| - 1]);
      ApplyKeepsInv(l, events[|events| - 1]);
      Apply(l, events[|events| - 1])
  }

  /** In every reachable named poll each tally counts the voters supporting that option, nobody
    * votes under two spellings of a name, the list never overflows and no mask is empty. */
  lemma ReachableIsBalanced(events: seq<Event>)
    ensures var l := After(events);
            && (forall i :: 0 <= i < MAX_OPTIONS ==> l.poll.votes[i] == Tally(l, i) <= |l.voters| <= MAX_VOTERS)
            && NamesDiffer(l.voters)
            && (l.poll.allowMultiple ==> forall k :: 0 <= k < |l.voters| ==> l.voters[k].mask != 0)
  {
    var l := After(events);
    forall i | 0 <= i < MAX_OPTIONS
      ensures Tally(l, i) <= |l.voters|
    {
      TallyBound(l.voters, PickWeight(l.poll.allowMultiple, i));
    }
  }

  // ---- What a vote means ----

  /** Somebody called name, in any letter case, supports option i. */
  ghost predicate Selects(l: Ledger, name: Name, i: nat) {
    exists k :: 0 <= k < |l.voters| && SameName(l.voters[k].username, name)
                && Picks(l.poll.allowMultiple, l.voters[k], i)
  }

  /** Names being distinct, what somebody selects is what the entry under that name picks. */
  lemma SelectsIsEntry(l: Ledger, k: nat, name: Name, i: nat)
    requires NamesDiffer(l.voters) && k < |l.voters| && SameName(l.voters[k].username, name)
    ensures Selects(l, name, i) <==> Picks(l.poll.allowMultiple, l.voters[k], i)
  {
  }

  /** Editing one entry of the list leaves every other name's selection alone. */
  lemma EditLeavesOthers(l: Ledger, l': Ledger, k: nat, v: Voter, other: Name, i: nat)
    requires l'.poll.allowMultiple == l.poll.allowMultiple && k < |l.voters| && l'.voters == l.voters[k := v]
    requires v.username == l.voters[k].username && !SameName(v.username, other)
    ensures Selects(l', other, i) <==> Selects(l, other, i)
  {
    assert forall j :: 0 <= j < |l.voters| && j != k ==> l'.voters[j] == l.voters[j];
  }

  /** So does dropping it, and the dropped name selects nothing any more. */
  lemma RemovalLeavesOthers(l: Ledger, l': Ledger, k: nat, other: Name, i: nat)
    requires l'.poll.allowMultiple == l.poll.allowMultiple && NamesDiffer(l.voters)
    requires k < |l.voters| && l'.voters == l.voters[..k] + l.voters[k + 1..]
    ensures Selects(l', other, i) <==> Selects(l, other, i) && !SameName(l.voters[k].username, other)
  {
    if Selects(l', other, i) {
      var j :| 0 <= j < |l'.voters| && SameName(l'.voters[j].username, other)
               && Picks(l.poll.allowMultiple, l'.voters[j], i);
      RemainingWas(l.voters, k, j);
    }
    if Selects(l, other, i) && !SameName(l.voters[k].username, other) {
      var j :| 0 <= j < |l.voters| && SameName(l.voters[j].username, other)
               && Picks(l.poll.allowMultiple, l.voters[j], i);
      OtherRemains(l.voters, k, j);
    }
  }

  lemma RemainingWas(voters: seq<Voter>, k: nat, j: nat)
    requires NamesDiffer(voters) && k < |voters| && j < |voters| - 1
    ensures var v := (voters[..k] + voters[k + 1..])[j];
            v in voters && !SameName(voters[k].username, v.username)
  {
    assert (voters[..k] + voters[k + 1..])[j] == voters[if j < k then j else j + 1];
  }

  lemma OtherRemains(voters: seq<Voter>, k: nat, j: nat)
    requires k < |voters| && j < |voters| && j != k
    ensures voters[j] in voters[..k] + voters[k + 1..]
  {
    assert voters[j] == (voters[..k] + voters[k + 1..])[if j < k then j else j - 1];
  }

  lemma NewcomerSelects(l: Ledger, l': Ledger, v: Voter, other: Name, i: nat)
    requires l'.poll.allowMultiple == l.poll.allowMultiple && l'.voters == l.voters + [v]
    ensures Selects(l', other, i) <==>
            Selects(l, other, i) || (SameName(v.username, other) && Picks(l.poll.allowMultiple, v, i))
  {
    var n := |l.voters|;
    assert l'.voters[n] == v && forall j :: 0 <= j < n ==> l'.voters[j] == l.voters[j];
  }

  /** Toggling an option in the voter's entry toggles it in what that name selects. */
  lemma ToggledSelects(l: Ledger, l': Ledger, k: nat, o: nat, other: Name, i: nat)
    requires l.poll.allowMultiple && l'.poll.allowMultiple && NamesDiffer(l.voters) && k < |l.voters|
    requires l'.voters == l.voters[k := Toggled(l.voters[k], o)]
    ensures Selects(l', other, i) <==>
            (Selects(l, other, i) != (SameName(l.voters[k].username, other) && i == o))
  {
    if SameName(l.voters[k].username, other) {
      SelectsIsEntry(l, k, other, i);
      SelectsIsEntry(l', k, other, i);
      FlipChangesOneBit(l.voters[k].mask, o, i);
    } else {
      EditLeavesOthers(l, l', k, Toggled(l.voters[k], o), other, i);
    }
  }

  /** So does dropping the entry when that option was its only one. */
  lemma DroppedSelects(l: Ledger, l': Ledger, k: nat, o: nat, other: Name, i: nat)
    requires l.poll.allowMultiple && l'.poll.allowMultiple && NamesDiffer(l.voters) && k < |l.voters|
    requires l'.voters == l.voters[..k] + l.voters[k + 1..] && Flip(l.voters[k].mask, o) == 0
    ensures Selects(l', other, i) <==>
            (Selects(l, other, i) != (SameName(l.voters[k].username, other) && i == o))
  {
    RemovalLeavesOthers(l, l', k, other, i);
    if SameName(l.voters[k].username, other) {
      SelectsIsEntry(l, k, other, i);
      FlipChangesOneBit(l.voters[k].mask, o, i);
      ZeroHasNoBit(i);
    }
  }

  /** So does the first vote of a name that is not listed. */
  lemma AddedSelects(l: Ledger, l': Ledger, name: Name, o: nat, other: Name, i: nat)
    requires l.poll.allowMultiple && l'.poll.allowMultiple && FindVoter(l.voters, name) == |l.voters|
    requires l'.voters == l.voters + [Voter(name, o, Flip(0, o))]
    ensures Selects(l', other, i) <==> (Selects(l, other, i) != (SameName(name, other) && i == o))
  {
    FlipChangesOneBit(0, o, i);
    ZeroHasNoBit(i);
    NewcomerSelects(l, l', Voter(name, o, Flip(0, o)), other, i);
  }

  /** An accepted vote in multiple mode toggles one option of the voter and changes nobody else. */
  lemma MultipleMeaning(l: Ledger, name: Name, o: nat, other: Name, i: nat)
    requires Inv(l) && l.poll.allowMultiple && o < l.poll.optionCount && Accepted(CastMultiple(l, name, o).1)
    ensures var (l', reply) := CastMultiple(l, name, o);
            && (Selects(l', other, i) <==> (Selects(l, other, i) != (SameName(other, name) && i == o)))
            && (reply.Removed? <==> Selects(l, name, o))
            && l'.poll.votes == if Selects(l, name, o) then Lower(l.poll.votes, o) else Raise(l.poll.votes, o)
  {
    var (k, l') := (FindVoter(l.voters, name), CastMultiple(l, name, o).0);
    if k == |l.voters| {
      AddedSelects(l, l', name, o, other, i);
    } else {
      SelectsIsEntry(l, k, name, o);
      if HasBit(l.voters[k].mask, o) && Flip(l.voters[k].mask, o) == 0 {
        DroppedSelects(l, l', k, o, other, i);
      } else {
        ToggledSelects(l, l', k, o, other, i);
      }
    }
  }

  /** An accepted vote in single mode makes the option the voter's only one and changes nobody else. */
  lemma SingleMeaning(l: Ledger, name: Name, o: nat, other: Name, i: nat)
    requires Inv(l) && !l.poll.allowMultiple && o < l.poll.optionCount && Accepted(CastSingle(l, name, o).1)
    ensures var l' := CastSingle(l, name, o).0;
            Selects(l', other, i) <==> if SameName(other, name) then i == o else Selects(l, other, i)
  {
    var l' := CastSingle(l, name, o).0;
    CastSingleKeepsInv(l, name, o);
    var k := FindVoter(l.voters, name);
    if k == |l.voters| {
      NewcomerSelects(l, l', Voter(name, o, 0), other, i);
    } else if SameName(other, name) {
      SelectsIsEntry(l', k, other, i);
    } else {
      EditLeavesOthers(l, l', k, l'.voters[k], other, i);
    }
  }

  /** A refused vote changes nothing. */
  lemma RefusedMeansUnchanged(l: Ledger, name: Name, choice: nat)
    requires Inv(l) && !Accepted(Cast(l, name, choice).1)
    ensures Cast(l, name, choice).0 == l
  {
  }

  lemma ListedIsFound(voters: seq<Voter>, k: nat, name: Name)
    requires k < |voters| && SameName(voters[k].username, name)
    ensures FindVoter(voters, name) < |voters|
  {
  }

  lemma AcceptedWhen(l: Ledger, name: Name, o: nat)
    requires o < |l.poll.votes|
    ensures Accepted(CastMultiple(l, name, o).1) <==> FindVoter(l.voters, name) < |l.voters| || |l.voters| < MAX_VOTERS
  {
  }

  /** What an accepted vote does to the list: it edits the voter's entry, drops it, or adds one. */
  lemma ListAfter(l: Ledger, name: Name, o: nat)
    requires o < |l.poll.votes| && Accepted(CastMultiple(l, name, o).1)
    ensures var (k, after) := (FindVoter(l.voters, name), CastMultiple(l, name, o).0.voters);
            if k == |l.voters| then |after| == k + 1 && after[k].username == name
            else |after| == |l.voters| - 1 || (|after| == |l.voters| && after[k].username == l.voters[k].username)
  {
  }

  /** A voter whose vote was accepted can vote again: still listed, or the list has room. */
  lemma AcceptedAgain(l: Ledger, name: Name, o: nat)
    requires Inv(l) && o < l.poll.optionCount && Accepted(CastMultiple(l, name, o).1)
    ensures var l1 := CastMultiple(l, name, o).0;
            o < |l1.poll.votes| && Accepted(CastMultiple(l1, name, o).1)
  {
    var (k, l1) := (FindVoter(l.voters, name), CastMultiple(l, name, o).0);
    ListAfter(l, name, o);
    if |l1.voters| >= |l.voters| {
      ListedIsFound(l1.voters, k, name);
    }
    AcceptedWhen(l1, name, o);
  }

  /** The ledger after one accepted vote in multiple mode, and whether the voter had the option before. */
  lemma TalliesAfter(l: Ledger, name: Name, o: nat) returns (l': Ledger, had: bool)
    requires Inv(l) && l.poll.allowMultiple && o < l.poll.optionCount && Accepted(CastMultiple(l, name, o).1)
    ensures l' == CastMultiple(l, name, o).0 && Inv(l')
    ensures l'.poll == l.poll.(votes := l'.poll.votes)
    ensures had == Selects(l, name, o) && Selects(l', name, o) == !had
    ensures l'.poll.votes == if had then Lower(l.poll.votes, o) else Raise(l.poll.votes, o)
    ensures had ==> l.poll.votes[o] > 0
  {
    l', had := CastMultiple(l, name, o).0, Selects(l, name, o);
    CastMultipleKeepsInv(l, name, o);
    MultipleMeaning(l, name, o, name, o);
    if had {
      SelectedTallyPositive(l, name, o);
    }
  }

  lemma RaiseAndLower(votes: seq<nat>, o: nat)
    requires o < |votes|
    ensures Lower(Raise(votes, o), o) == votes
    ensures votes[o] > 0 ==> Raise(Lower(votes, o), o) == votes
  {
  }

  lemma TwiceRestores(l: Ledger, name: Name, o: nat) returns (l1: Ledger)
    requires Inv(l) && l.poll.allowMultiple && o < l.poll.optionCount && Accepted(CastMultiple(l, name, o).1)
    ensures l1 == CastMultiple(l, name, o).0 && Inv(l1) && l1.poll == l.poll.(votes := l1.poll.votes)
    ensures CastMultiple(l1, name, o).0.poll.votes == l.poll.votes
  {
    AcceptedAgain(l, name, o);
    var had, again;
    l1, had := TalliesAfter(l, name, o);
    var l2;
    l2, again := TalliesAfter(l1, name, o);
    RaiseAndLower(l.poll.votes, o);
  }

  /** The ledger after a first vote, known only by what a second one does to it. */
  lemma FirstVote(l: Ledger, name: Name, choice: nat) returns (l1: Ledger)
    requires Inv(l) && l.poll.allowMultiple && Accepted(Cast(l, name, choice).1)
    ensures l1 == Cast(l, name, choice).0 && Inv(l1) && l1.poll == l.poll.(votes := l1.poll.votes)
    ensures l.poll.active && 0 < choice <= l.poll.optionCount
    ensures CastMultiple(l1, name, choice - 1).0.poll.votes == l.poll.votes
  {
    CastIs(l, name, choice);
    l1 := TwiceRestores(l, name, choice - 1);
  }

  lemma CountedVote(l: Ledger, name: Name, choice: nat)
    requires l.poll.active && l.poll.allowMultiple && 0 < choice <= l.poll.optionCount <= |l.poll.votes|
    ensures Cast(l, name, choice) == CastMultiple(l, name, choice - 1)
  {
  }

  /** Voting the same option twice in multiple mode restores every tally. */
  lemma SecondVoteUndoes(l: Ledger, name: Name, choice: nat)
    requires Inv(l) && l.poll.allowMultiple && Accepted(Cast(l, name, choice).1)
    ensures var l1 := Cast(l, name, choice).0;
            Inv(l1) && Cast(l1, name, choice).0.poll.votes == l.poll.votes
  {
    var l1 := FirstVote(l, name, choice);
    CountedVote(l1, name, choice);
  }

  lemma SelectedTallyPositive(l: Ledger, name: Name, i: nat)
    requires Inv(l) && i < MAX_OPTIONS && Selects(l, name, i)
    ensures l.poll.votes[i] > 0
  {
    var k :| 0 <= k < |l.voters| && SameName(l.voters[k].username, name) && Picks(l.poll.allowMultiple, l.voters[k], i);
    GuardNeverSuppresses(l, k, i);
  }

  // ---- How a request is answered ----

  ghost predicate Listed(l: Ledger, name: Name) {
    exists k :: 0 <= k < |l.voters| && SameName(l.voters[k].username, name)
  }

  /** The reply to a vote, in terms of the poll, of what the voter selects and of whether the voter is listed. */
  lemma VoteReplies(l: Ledger, name: Name, choice: nat)
    requires Inv(l)
    ensures Cast(l, name, choice).1 ==
              if choice == 0 then BadChoice
              else if !l.poll.active || l.poll.optionCount == 0 then NotActive
              else if choice > l.poll.optionCount then NoSuchOption
              else if Selects(l, name, choice - 1) then (if l.poll.allowMultiple then Removed else AlreadyVoted)
              else if Listed(l, name) || |l.voters| < 256 then Recorded
              else Full
  {
    var k := FindVoter(l.voters, name);
    if k < |l.voters| && choice > 0 {
      SelectsIsEntry(l, k, name, choice - 1);
    }
  }

  /** A start takes effect exactly when it has two to five options and nobody else's poll is running, unless an
    * operator asks; then the poll is new: a fresh id, no vote, no voter. */
  lemma StartMeans(l: Ledger, name: Name, operator: bool, multiple: bool, optionCount: nat)
    requires l.poll.id <= 0xFFFF_FFFF_FFFF_FFFF
    ensures var l' := Start(l, name, operator, multiple, optionCount);
            if 2 <= optionCount <= 5 && (l.poll.active ==> operator || SameName(l.owner, name))
            then && l'.poll.active && l'.poll.allowMultiple == multiple && l'.poll.optionCount == optionCount
                 && l'.poll.votes == [0, 0, 0, 0, 0] && l'.voters == [] && l'.owner == name
                 && l'.poll.id == l.poll.id % 0xFFFF_FFFF_FFFF_FFFF + 1
            else l' == l
  {
  }

  /** A close by the owner or an operator stops the poll and keeps everything else; any other changes nothing. */
  lemma CloseMeans(l: Ledger, name: Name, operator: bool)
    ensures var l' := Close(l, name, operator);
            && l'.poll.active == (l.poll.active && !operator && !SameName(l.owner, name))
            && l' == l.(poll := l.poll.(active := l'.poll.active))
  {
  }
}
