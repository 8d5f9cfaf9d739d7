/** How many ballots one name can hold in the main poll. A record without an address is not reused by a voter
  * who comes with one (src/host/transport/session_setup.c), so a name can get a second record, and vote twice. */
module MainPollBallots {
  import opened Bytes
  import opened Counting
  import opened Options
  import opened PollState
  import opened Searching
  import opened MainPoll

  // ---- Records of a name ----

  function OfName(name: Text): Preference -> int {
    (p: Preference) => if Usable(p, name) then 1 else 0
  }

  function Records(preferences: seq<Preference>, name: Text): int {
    Total(preferences, OfName(name))
  }

  predicate HasRoom(preferences: seq<Preference>) {
    exists k :: 0 <= k < |preferences| && !preferences[k].inUse
  }

  /** host_ensure_preference_locked makes a new record for this name and address. */
  predicate Creates(preferences: seq<Preference>, name: Text, ip: Text) {
    var found := Find(preferences, name, ip);
    && name != [] && HasRoom(preferences)
    && (found.None? || (ip != [] && preferences[found.value].ip == []))
  }

  /** The record a vote uses, and the records as the search for it leaves them. */
  lemma EnsureIs(preferences: seq<Preference>, name: Text, ip: Text)
    ensures var (after, k) := Ensure(preferences, name, ip);
            if Creates(preferences, name, ip)
            then k.Some? && !preferences[k.value].inUse
                 && after == preferences[k.value := Preference(true, name, ip, 0, -1)]
            else after == preferences && (k.Some? ==> Usable(preferences[k.value], name))
  {
    var free := First(preferences, (p: Preference) => !p.inUse);
    if HasRoom(preferences) {
      var k :| 0 <= k < |preferences| && !preferences[k].inUse;
      assert free < |preferences|;
    }
  }

  lemma FoundIfRecorded(preferences: seq<Preference>, name: Text, ip: Text)
    requires name != []
    ensures Find(preferences, name, ip).Some? <==> Records(preferences, name) >= 1
  {
    if Find(preferences, name, ip).Some? {
      TotalBounds(preferences, Find(preferences, name, ip).value, OfName(name));
    } else {
      TotalAllZero(preferences, OfName(name));
    }
  }

  lemma EnsureRecords(preferences: seq<Preference>, voter: Text, ip: Text, name: Text)
    ensures Records(Ensure(preferences, voter, ip).0, name) ==
            Records(preferences, name) + if voter == name && Creates(preferences, voter, ip) then 1 else 0
  {
    EnsureIs(preferences, voter, ip);
    if Creates(preferences, voter, ip) {
      var k := Ensure(preferences, voter, ip).1.value;
      TotalOfUpdate(preferences, k, Preference(true, voter, ip, 0, -1), OfName(name));
    }
  }

  /** Voting with a record changes neither its name nor any other record. */
  lemma CastWithKeepsName(h: Host, k: nat, o: nat)
    requires k < |h.preferences| && o < |h.poll.votes| && h.poll.optionCount <= |h.poll.votes|
    ensures var (after, p) := (CastWith(h, k, o).0.preferences, h.preferences[k]);
            && |after| == |h.preferences| && after == h.preferences[k := after[k]]
            && after[k].inUse == p.inUse && after[k].username == p.username
  {
  }

  predicate Open(h: Host, choice: nat) {
    h.poll.active && 0 < choice <= h.poll.optionCount
  }

  /** A vote that is refused before a record is looked for changes nothing. */
  lemma CastIs(h: Host, voter: Text, ip: Text, choice: nat)
    requires h.poll.optionCount <= |h.poll.votes|
    ensures var (preferences, k) := Ensure(h.preferences, voter, ip);
            Cast(h, voter, ip, choice).0 ==
              if !Open(h, choice) || k.None? then h
              else CastWith(h.(preferences := preferences), k.value, choice - 1).0
  {
  }

  lemma CastRecords(h: Host, voter: Text, ip: Text, choice: nat, name: Text)
    requires h.poll.optionCount <= |h.poll.votes|
    ensures Records(Cast(h, voter, ip, choice).0.preferences, name) == Records(h.preferences, name) +
              if Open(h, choice) && voter == name && Creates(h.preferences, voter, ip) then 1 else 0
  {
    var (preferences, k) := Ensure(h.preferences, voter, ip);
    CastIs(h, voter, ip, choice);
    EnsureIs(h.preferences, voter, ip);
    if Open(h, choice) && k.Some? {
      EnsureRecords(h.preferences, voter, ip, name);
      CastWithKeepsName(h.(preferences := preferences), k.value, choice - 1);
      var after := CastWith(h.(preferences := preferences), k.value, choice - 1).0.preferences;
      TotalOfUpdate(preferences, k.value, after[k.value], OfName(name));
    }
  }

  /** The vote gives a name that has a record another one: it comes with an address, the record found for it
    * has none, and there is room. */
  predicate Splits(h: Host, e: Event, name: Text) {
    && e.VoteFor? && e.username == name && Open(h, e.choice)
    && Creates(h.preferences, name, e.ip) && Find(h.preferences, name, e.ip).Some?
  }

  /** What one request adds to the records of a name. */
  lemma ApplyRecords(h: Host, e: Event, name: Text)
    requires Inv(h)
    ensures var (before, after) := (Records(h.preferences, name), Records(Apply(h, e).preferences, name));
            && before >= 0
            && (Splits(h, e, name) ==> before >= 1 && after == before + 1)
            && (!Splits(h, e, name) ==> after == before || (before == 0 && after == 1))
  {
    TotalNonNegative(h.preferences, OfName(name));
    if e.VoteFor? {
      CastRecords(h, e.username, e.ip, e.choice, name);
      if name != [] {
        FoundIfRecorded(h.preferences, name, e.ip);
      }
    }
  }

  /** No request of the history splits the name. */
  ghost predicate NeverSplit(capacity: nat, events: seq<Event>, name: Text)
    requires Starts(events) <= MAX_ID
  {
    events != [] ==>
      var before := events[..|events| - 1];
      NeverSplit(capacity, before, name) && !Splits(After(capacity, before), events[|events| - 1], name)
  }

  /** The exact condition: after a history a name has at most one record if and only if no vote of the history
    * split it. */
  lemma {:induction false} OneRecordExactly(capacity: nat, events: seq<Event>, name: Text)
    requires Starts(events) <= MAX_ID
    ensures Records(After(capacity, events).preferences, name) <= 1 <==> NeverSplit(capacity, events, name)
  {
    if events == [] {
      TotalOfConstant(capacity, BLANK, OfName(name));
    } else {
      var before := events[..|events| - 1];
      OneRecordExactly(capacity, before, name);
      ApplyRecords(After(capacity, before), events[|events| - 1], name);
    }
  }

  // ---- Ballots of a name ----

  /** The record holds a ballot in the running poll. */
  predicate Counted(poll: Poll, p: Preference) {
    p.inUse && p.lastPollId == poll.id && p.lastPollChoice >= 0
  }

  function BallotOf(poll: Poll, name: Text): Preference -> int {
    (p: Preference) => if Usable(p, name) && Counted(poll, p) then 1 else 0
  }

  function Ballots(h: Host, name: Text): int {
    Total(h.preferences, BallotOf(h.poll, name))
  }

  /** A name that was never split holds at most one ballot. */
  lemma OneBallot(capacity: nat, events: seq<Event>, name: Text)
    requires Starts(events) <= MAX_ID && NeverSplit(capacity, events, name)
    ensures Ballots(After(capacity, events), name) <= 1
  {
    var h := After(capacity, events);
    OneRecordExactly(capacity, events, name);
    TotalMonotone(h.preferences, BallotOf(h.poll, name), OfName(name));
  }

  /** A vote cast with a record that holds no ballot leaves one in it; other records are not touched. */
  lemma VoteFillsRecord(h: Host, k: nat, o: nat)
    requires k < |h.preferences| && o < |h.poll.votes| && h.poll.optionCount <= |h.poll.votes|
    requires h.preferences[k].inUse && h.preferences[k].lastPollChoice >= -1
    ensures CastWith(h, k, o).0.poll.id == h.poll.id
    ensures !Counted(h.poll, h.preferences[k]) ==> Counted(h.poll, CastWith(h, k, o).0.preferences[k])
  {
    FlipChangesOneBit(0, o, o);
    ZeroHasNoBit(o);
  }

  lemma SameBallots(preferences: seq<Preference>, poll: Poll, poll': Poll, name: Text)
    requires poll.id == poll'.id
    ensures Total(preferences, BallotOf(poll, name)) == Total(preferences, BallotOf(poll', name))
  {
    SameTotal(preferences, BallotOf(poll, name), BallotOf(poll', name));
  }

  /** What a vote adds to the ballots of a name. */
  lemma CastWithBallots(h: Host, k: nat, o: nat, name: Text)
    requires k < |h.preferences| && o < |h.poll.votes| && h.poll.optionCount <= |h.poll.votes|
    requires h.preferences[k].inUse && h.preferences[k].lastPollChoice >= -1
    ensures var added := Ballots(CastWith(h, k, o).0, name) - Ballots(h, name);
            if h.preferences[k].username == name && !Counted(h.poll, h.preferences[k])
            then added == 1 else -1 <= added <= 0
  {
    var h' := CastWith(h, k, o).0;
    CastWithKeepsName(h, k, o);
    VoteFillsRecord(h, k, o);
    SameBallots(h'.preferences, h'.poll, h.poll, name);
    TotalOfUpdate(h.preferences, k, h'.preferences[k], BallotOf(h.poll, name));
  }

  /** A new record holds no ballot, so looking for one changes no count. */
  lemma EnsureBallots(h: Host, voter: Text, ip: Text, name: Text)
    ensures Total(Ensure(h.preferences, voter, ip).0, BallotOf(h.poll, name)) == Ballots(h, name)
  {
    EnsureIs(h.preferences, voter, ip);
    if Creates(h.preferences, voter, ip) {
      var k := Ensure(h.preferences, voter, ip).1.value;
      TotalOfUpdate(h.preferences, k, Preference(true, voter, ip, 0, -1), BallotOf(h.poll, name));
    }
  }

  /** The request is a vote of this name that is cast with a record holding no ballot yet. */
  predicate VotesAfresh(h: Host, e: Event, name: Text) {
    && e.VoteFor? && e.username == name && Open(h, e.choice)
    && var (preferences, k) := Ensure(h.preferences, name, e.ip);
       k.Some? && !Counted(h.poll, preferences[k.value])
  }

  /** Records hold no choice below -1. */
  ghost predicate Sane(h: Host) {
    forall k :: 0 <= k < |h.preferences| ==> h.preferences[k].lastPollChoice >= -1
  }

  lemma CastBallots(h: Host, voter: Text, ip: Text, choice: nat, name: Text)
    requires Inv(h) && Sane(h)
    ensures var added := Ballots(Cast(h, voter, ip, choice).0, name) - Ballots(h, name);
            if VotesAfresh(h, VoteFor(voter, ip, choice), name) then added == 1 else -1 <= added <= 0
  {
    var (preferences, k) := Ensure(h.preferences, voter, ip);
    CastIs(h, voter, ip, choice);
    EnsureIs(h.preferences, voter, ip);
    if Open(h, choice) && k.Some? {
      EnsureBallots(h, voter, ip, name);
      CastWithBallots(h.(preferences := preferences), k.value, choice - 1, name);
    }
  }

  /** Below the largest id nobody holds a ballot in a poll that has just been started. */
  lemma StartHasNoBallots(h: Host, optionCount: nat, name: Text)
    requires Inv(h) && h.poll.id < MAX_ID && 2 <= optionCount <= MAX_OPTIONS
    ensures Ballots(Start(h, true, optionCount), name) == 0
  {
    var h' := Start(h, true, optionCount);
    forall k | 0 <= k < |h.preferences|
      ensures !Counted(h'.poll, h.preferences[k])
    {
      assert GoodRecord(h.poll, h.preferences[k]);
    }
    TotalAllZero(h.preferences, BallotOf(h'.poll, name));
  }

  /** What one request adds to the ballots of a name. */
  lemma ApplyBallots(h: Host, e: Event, name: Text)
    requires Inv(h) && Sane(h) && (Starting(e) ==> h.poll.id < MAX_ID)
    ensures var (before, after) := (Ballots(h, name), Ballots(Apply(h, e), name));
            before >= 0 && if VotesAfresh(h, e, name) then after == before + 1 else after <= before
  {
    TotalNonNegative(h.preferences, BallotOf(h.poll, name));
    match e
    case VoteFor(voter, ip, choice) => CastBallots(h, voter, ip, choice, name);
    case StartPoll(operator, optionCount) =>
      if Starting(e) {
        StartHasNoBallots(h, optionCount, name);
      }
    case ClosePoll(operator) => SameBallots(h.preferences, Close(h, operator).poll, h.poll, name);
  }

  lemma CastKeepsSane(h: Host, voter: Text, ip: Text, choice: nat)
    requires Inv(h) && Sane(h)
    ensures Sane(Cast(h, voter, ip, choice).0)
  {
    var (preferences, k) := Ensure(h.preferences, voter, ip);
    CastIs(h, voter, ip, choice);
    EnsureIs(h.preferences, voter, ip);
    if Open(h, choice) && k.Some? {
      CastWithKeepsName(h.(preferences := preferences), k.value, choice - 1);
    }
  }

  lemma {:induction false} AfterIsSane(capacity: nat, events: seq<Event>)
    requires Starts(events) <= MAX_ID
    ensures Sane(After(capacity, events))
  {
    if events == [] {
    } else {
      var h := After(capacity, events[..|events| - 1]);
      AfterIsSane(capacity, events[..|events| - 1]);
      match events[|events| - 1]
      case VoteFor(voter, ip, choice) => CastKeepsSane(h, voter, ip, choice);
      case StartPoll(_, _) =>
      case ClosePoll(_) =>
    }
  }

  /** At no point of the history does the name hold two ballots. */
  ghost predicate OneThroughout(capacity: nat, events: seq<Event>, name: Text)
    requires Starts(events) <= MAX_ID
  {
    && Ballots(After(capacity, events), name) <= 1
    && (events != [] ==> OneThroughout(capacity, events[..|events| - 1], name))
  }

  /** At no point does the name vote with a record without a ballot while it holds a ballot in another. */
  ghost predicate NeverTwice(capacity: nat, events: seq<Event>, name: Text)
    requires Starts(events) <= MAX_ID
  {
    events != [] ==>
      var (before, last) := (events[..|events| - 1], events[|events| - 1]);
      var h := After(capacity, before);
      NeverTwice(capacity, before, name) && !(VotesAfresh(h, last, name) && Ballots(h, name) == 1)
  }

  /** The exact condition for ballots: a name holds at most one throughout a history if and only if it never
    * votes with a record without a ballot while it holds one in another. */
  lemma {:induction false} OneBallotExactly(capacity: nat, events: seq<Event>, name: Text)
    requires Starts(events) <= MAX_ID
    ensures OneThroughout(capacity, events, name) <==> NeverTwice(capacity, events, name)
  {
    if events == [] {
      TotalOfConstant(capacity, BLANK, BallotOf(Fresh(capacity).poll, name));
    } else {
      var before := events[..|events| - 1];
      OneBallotExactly(capacity, before, name);
      AfterIsSane(capacity, before);
      ApplyBallots(After(capacity, before), events[|events| - 1], name);
    }
  }

  // ---- It happens ----

  lemma FirstVote(capacity: nat, name: Text)
    requires capacity >= 2 && name != []
    ensures var h := Start(Fresh(capacity), true, 2);
            Cast(h, name, [], 1).0 == Host(h.poll.(votes := [1, 0, 0, 0, 0]),
                                           h.preferences[0 := Preference(true, name, [], 1, 0)])
  {
    var h := Start(Fresh(capacity), true, 2);
    FirstIs(h.preferences, p => Exact(p, name, []), capacity);
    FirstIs(h.preferences, p => Usable(p, name), capacity);
    FirstIs(h.preferences, (p: Preference) => !p.inUse, 0);
  }

  lemma SecondVote(capacity: nat, name: Text, ip: Text, h: Host)
    requires capacity >= 2 && name != [] && ip != [] && Inv(h) && h.poll.active && h.poll.optionCount == 2
    requires h.poll.id == 1 && h.preferences == Fresh(capacity).preferences[0 := Preference(true, name, [], 1, 0)]
    ensures Splits(h, VoteFor(name, ip, 1), name) && VotesAfresh(h, VoteFor(name, ip, 1), name)
    ensures Ballots(h, name) == 1
  {
    assert !h.preferences[1].inUse;
    EnsureIs(h.preferences, name, ip);
    FirstIs(h.preferences, p => Exact(p, name, ip), capacity);
    FirstIs(h.preferences, p => Usable(p, name), 0);
    TotalOfConstant(capacity, BLANK, BallotOf(h.poll, name));
    TotalOfUpdate(Fresh(capacity).preferences, 0, h.preferences[0], BallotOf(h.poll, name));
  }

  /** A name that votes without an address and then with one holds two ballots. */
  lemma NameVotesTwice(capacity: nat, name: Text, ip: Text) returns (events: seq<Event>)
    requires capacity >= 2 && name != [] && ip != []
    ensures Starts(events) <= MAX_ID && Ballots(After(capacity, events), name) == 2
  {
    var (a, b, c) := (StartPoll(true, 2), VoteFor(name, [], 1), VoteFor(name, ip, 1));
    events := [a, b, c];
    assert events[..2] == [a, b] && [a, b][..1] == [a];
    assert Starts([a]) == 1 by {
      assert [a][..0] == [];
    }
    assert After(capacity, [a]) == Start(Fresh(capacity), true, 2) by {
      assert [a][..0] == [];
    }
    FirstVote(capacity, name);
    var h := After(capacity, [a, b]);
    SecondVote(capacity, name, ip, h);
    AfterIsSane(capacity, [a, b]);
    ApplyBallots(h, c, name);
  }
}
