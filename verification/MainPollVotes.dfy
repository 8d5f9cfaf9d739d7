/** What a request to the main poll means (src/host/json_api.c): which record carries the ballot, how it and the
  * tallies change, and when the request is answered how. */
module MainPollVotes {
  import opened Bytes
  import opened Counting
  import opened Options
  import opened PollState
  import opened Searching
  import opened MainPoll
  import opened MainPollBallots

  /** The option a record's ballot in the running poll selects: one per option in multiple mode. */
  ghost predicate Selects(poll: Poll, p: Preference, i: nat) {
    p.inUse && p.lastPollId == poll.id && Picks(poll.allowMultiple, p.lastPollChoice, i)
  }

  /** The record is in use for this user and this address, where an empty one stands only for itself. */
  predicate RecordOf(p: Preference, voter: Text, ip: Text) {
    p.inUse && p.username == voter && p.ip == ip
  }

  /** A named user's record is the first of user and address, and only when there is none, the first with the
    * name. */
  lemma FoundExactly(preferences: seq<Preference>, voter: Text, ip: Text, k: nat)
    ensures Find(preferences, voter, ip) == Some(k) <==>
            && voter != [] && k < |preferences|
            && preferences[k].inUse && preferences[k].username == voter
            && if exists j :: 0 <= j < |preferences| && RecordOf(preferences[j], voter, ip)
               then && RecordOf(preferences[k], voter, ip)
                    && forall j :: 0 <= j < k ==> !RecordOf(preferences[j], voter, ip)
               else forall j :: 0 <= j < k ==> preferences[j].inUse ==> preferences[j].username != voter
  {
    var (exact, named) := (First(preferences, p => Exact(p, voter, ip)), First(preferences, p => Usable(p, voter)));
    assert forall j :: 0 <= j < |preferences| ==>
        (RecordOf(preferences[j], voter, ip) <==> Exact(preferences[j], voter, ip));
  }

  /** The record a vote of this user is cast with: the one found, unless it has no address and the voter has
    * one; then, or when none is found, the first free one. */
  lemma RecordUsed(preferences: seq<Preference>, voter: Text, ip: Text) returns (k: Option<nat>)
    ensures k == Ensure(preferences, voter, ip).1
    ensures k.Some? <==> voter != [] && (Find(preferences, voter, ip).Some? || HasRoom(preferences))
    ensures k.Some? ==>
              && k.value < |preferences|
              && (Creates(preferences, voter, ip) ==>
                    !preferences[k.value].inUse && forall j :: 0 <= j < k.value ==> preferences[j].inUse)
              && (!Creates(preferences, voter, ip) ==> k == Find(preferences, voter, ip))
  {
    k := Ensure(preferences, voter, ip).1;
    EnsureIs(preferences, voter, ip);
    FirstFree(preferences);
  }

  lemma FirstFree(preferences: seq<Preference>)
    ensures First(preferences, (p: Preference) => !p.inUse) < |preferences| <==> HasRoom(preferences)
    ensures forall j :: 0 <= j < First(preferences, (p: Preference) => !p.inUse) ==> preferences[j].inUse
  {
    var p := (p: Preference) => !p.inUse;
    assert forall j :: 0 <= j < First(preferences, p) ==> !p(preferences[j]);
  }

  /** A vote with a given record in single mode: the ballot becomes that option and no other. */
  lemma SingleWith(h: Host, k: nat, o: nat)
    requires Inv(h) && !h.poll.allowMultiple && k < |h.preferences| && h.preferences[k].inUse && o < h.poll.optionCount
    ensures var (h', reply) := CastWith(h, k, o);
            && (reply == if Selects(h.poll, h.preferences[k], o) then AlreadyVoted else Recorded)
            && forall i: nat :: Selects(h.poll, h'.preferences[k], i) <==> i == o
  {
  }

  /** In multiple mode: that option is toggled, the others stay. */
  lemma MultipleWith(h: Host, k: nat, o: nat, i: nat)
    requires Inv(h) && h.poll.allowMultiple && k < |h.preferences| && h.preferences[k].inUse && o < h.poll.optionCount
    ensures var (h', reply) := CastWith(h, k, o);
            && (reply == if Selects(h.poll, h.preferences[k], o) then Removed else Recorded)
            && (Selects(h.poll, h'.preferences[k], i) <==> (Selects(h.poll, h.preferences[k], i) != (i == o)))
  {
    var p := Tagged(h.poll, h.preferences[k]);
    var mask := if p.lastPollChoice < 0 then 0 else p.lastPollChoice;
    FlipChangesOneBit(mask, o, i);
    ZeroHasNoBit(i);
    ZeroHasNoBit(o);
    assert GoodRecord(h.poll, h.preferences[k]);
  }

  /** How the tallies change: by what the one record's ballot changes. */
  lemma TalliesFollow(h: Host, k: nat, o: nat, i: nat)
    requires Inv(h) && k < |h.preferences| && h.preferences[k].inUse && o < h.poll.optionCount && i < MAX_OPTIONS
    ensures var h' := CastWith(h, k, o).0;
            && |h'.poll.votes| == MAX_OPTIONS && h'.poll == h.poll.(votes := h'.poll.votes)
            && h'.preferences == h.preferences[k := h'.preferences[k]]
            && h'.poll.votes[i] + (if Selects(h.poll, h.preferences[k], i) then 1 else 0)
            == h.poll.votes[i] + (if Selects(h.poll, h'.preferences[k], i) then 1 else 0)
  {
    var h' := CastWith(h, k, o).0;
    CastWithKeepsInv(h, k, o);
    SameTotal(h'.preferences, BallotFor(h'.poll, i), BallotFor(h.poll, i));
    TotalOfUpdate(h.preferences, k, h'.preferences[k], BallotFor(h.poll, i));
  }

  /** The change one vote for option o makes, as seen at option i: in the selections of the record it is cast
    * with, which go from p to p', in the tally, which goes from v to v', and in the reply. */
  ghost predicate Votes(poll: Poll, o: nat, reply: Reply, i: nat, p: Preference, p': Preference, v: nat, v': nat) {
    && (!poll.allowMultiple ==>
          && (reply == if Selects(poll, p, o) then AlreadyVoted else Recorded)
          && (Selects(poll, p', i) <==> i == o))
    && (poll.allowMultiple ==>
          && (reply == if Selects(poll, p, o) then Removed else Recorded)
          && (Selects(poll, p', i) <==> (Selects(poll, p, i) != (i == o))))
    && v' + (if Selects(poll, p, i) then 1 else 0) == v + (if Selects(poll, p', i) then 1 else 0)
  }

  /** The host after a vote with a given record, and the reply. */
  lemma CastWithMeans(h: Host, k: nat, o: nat, i: nat) returns (h': Host, reply: Reply)
    requires Inv(h) && k < |h.preferences| && h.preferences[k].inUse && o < h.poll.optionCount && i < MAX_OPTIONS
    ensures (h', reply) == CastWith(h, k, o)
    ensures |h'.poll.votes| == MAX_OPTIONS && h'.poll == h.poll.(votes := h'.poll.votes)
    ensures |h'.preferences| == |h.preferences| && h'.preferences == h.preferences[k := h'.preferences[k]]
    ensures h'.preferences[k].inUse && h'.preferences[k].username == h.preferences[k].username
    ensures Votes(h.poll, o, reply, i, h.preferences[k], h'.preferences[k], h.poll.votes[i], h'.poll.votes[i])
  {
    h', reply := CastWith(h, k, o).0, CastWith(h, k, o).1;
    CastWithKeepsName(h, k, o);
    TalliesFollow(h, k, o, i);
    if h.poll.allowMultiple {
      MultipleWith(h, k, o, i);
    } else {
      SingleWith(h, k, o);
    }
  }

  /** A vote that is taken up, in terms of the host before and after: one record, of this voter, holds the new
    * ballot; its selections and the tallies change by exactly the option voted for, and nothing else changes. */
  lemma VoteMeans(h: Host, voter: Text, ip: Text, choice: nat, i: nat) returns (k: nat, h': Host, reply: Reply)
    requires Inv(h) && Open(h, choice) && i < MAX_OPTIONS
    requires voter != [] && (Find(h.preferences, voter, ip).Some? || HasRoom(h.preferences))
    ensures (h', reply) == Cast(h, voter, ip, choice)
    ensures k < |h.preferences| == |h'.preferences| && Some(k) == Ensure(h.preferences, voter, ip).1
    ensures h'.preferences == h.preferences[k := h'.preferences[k]]
    ensures h'.preferences[k].inUse && h'.preferences[k].username == voter
    ensures |h'.poll.votes| == MAX_OPTIONS && h'.poll == h.poll.(votes := h'.poll.votes)
    ensures Votes(h.poll, choice - 1, reply, i, h.preferences[k], h'.preferences[k], h.poll.votes[i], h'.poll.votes[i])
  {
    var h1;
    h1, k := VoteStarts(h, voter, ip, choice, i);
    h', reply := CastWithMeans(h1, k, choice - 1, i);
    assert h.preferences[k := h1.preferences[k]][k := h'.preferences[k]] == h.preferences[k := h'.preferences[k]];
  }

  /** The host with the record to vote with in place: a new one selects nothing. */
  lemma VoteStarts(h: Host, voter: Text, ip: Text, choice: nat, i: nat) returns (h1: Host, k: nat)
    requires Inv(h) && Open(h, choice)
    requires voter != [] && (Find(h.preferences, voter, ip).Some? || HasRoom(h.preferences))
    ensures Inv(h1) && h1.poll == h.poll && Ensure(h.preferences, voter, ip).1 == Some(k)
    ensures k < |h.preferences| == |h1.preferences| && h1.preferences == h.preferences[k := h1.preferences[k]]
    ensures h1.preferences[k].inUse && h1.preferences[k].username == voter
    ensures Selects(h.poll, h1.preferences[k], i) <==> Selects(h.poll, h.preferences[k], i)
    ensures Selects(h.poll, h1.preferences[k], choice - 1) <==> Selects(h.poll, h.preferences[k], choice - 1)
    ensures Cast(h, voter, ip, choice) == CastWith(h1, k, choice - 1)
  {
    var used := RecordUsed(h.preferences, voter, ip);
    k := used.value;
    EnsuredRecord(h, voter, ip, k, i);
    EnsuredRecord(h, voter, ip, k, choice - 1);
    EnsureKeepsInv(h, voter, ip);
    h1 := h.(preferences := Ensure(h.preferences, voter, ip).0);
  }

  /** Looking for a record to vote with changes no selection, and leaves one of the voter's. */
  lemma EnsuredRecord(h: Host, voter: Text, ip: Text, k: nat, i: nat)
    requires Ensure(h.preferences, voter, ip).1 == Some(k) && k < |h.preferences|
    ensures var after := Ensure(h.preferences, voter, ip).0;
            && |after| == |h.preferences| && after == h.preferences[k := after[k]]
            && after[k].inUse && after[k].username == voter
            && (Selects(h.poll, after[k], i) <==> Selects(h.poll, h.preferences[k], i))
  {
    EnsureIs(h.preferences, voter, ip);
    ZeroHasNoBit(i);
  }

  /** Any other vote is refused, with the reason, and changes nothing. */
  lemma OtherwiseRefused(h: Host, voter: Text, ip: Text, choice: nat)
    requires Inv(h)
    requires !Open(h, choice) || voter == [] || (Find(h.preferences, voter, ip).None? && !HasRoom(h.preferences))
    ensures Cast(h, voter, ip, choice) ==
              (h, if choice == 0 then BadChoice
                  else if !h.poll.active || h.poll.optionCount == 0 then NotActive
                  else if choice > h.poll.optionCount then NoSuchOption
                  else Refused)
  {
    var used := RecordUsed(h.preferences, voter, ip);
  }

  /** A start by an operator, with two to five options, begins a single-choice poll with a fresh id and no votes;
    * any other changes nothing. No record is touched. */
  lemma StartMeans(h: Host, operator: bool, optionCount: nat)
    requires h.poll.id <= 0xFFFF_FFFF_FFFF_FFFF
    ensures var h' := Start(h, operator, optionCount);
            && h'.preferences == h.preferences
            && if operator && 2 <= optionCount <= 5
               then && h'.poll.active && !h'.poll.allowMultiple && h'.poll.optionCount == optionCount
                    && h'.poll.votes == [0, 0, 0, 0, 0] && h'.poll.id == h.poll.id % 0xFFFF_FFFF_FFFF_FFFF + 1
               else h' == h
  {
  }

  /** A close by an operator stops the poll and keeps everything else. */
  lemma CloseMeans(h: Host, operator: bool)
    ensures var h' := Close(h, operator);
            h'.poll.active == (h.poll.active && !operator) && h' == h.(poll := h.poll.(active := h'.poll.active))
  {
  }
}
