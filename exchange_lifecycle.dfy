/** The life of one exchange record under ExchangeService: the guards and field
    updates of setMeetupDetails, confirmExchange and cancelExchange, as steps
    from the record before the call to the record after it. The effects of
    completion on users and books are ExchangeService's; here a step only says
    whether it completed the exchange. */
module ExchangeLifecycle {
  import opened Domain

  /** The user is one of the exchange's two parties, the only callers the
      exchange's operations accept. */
  predicate IsUserPartOfExchange(userId: UserId, e: Exchange)
  {
    e.user1 == userId || e.user2 == userId
  }

  /** What no step ever changes: who trades which book, and when it was proposed. */
  predicate SameDeal(e: Exchange, e': Exchange)
  {
    e'.user1 == e.user1 && e'.user2 == e.user2 && e'.book1 == e.book1 && e'.book2 == e.book2
    && e'.proposedAt == e.proposedAt
  }

  /** The exchange createExchange builds: PROPOSED, nothing arranged, nobody confirmed. */
  function Proposal(user1: UserId, user2: UserId, book1: BookId, book2: BookId, now: Time): (e: Exchange)
    ensures e.status == Proposed && !e.user1Confirmed && !e.user2Confirmed
    ensures e.meetupDateTime.None? && e.meetupLocation.None? && e.proposedAt == now
    ensures e.user1 == user1 && e.user2 == user2 && e.book1 == book1 && e.book2 == book2
  {
    Exchange(user1, user2, book1, book2, Proposed, now, None, None, false, false)
  }

  /** setMeetupDetails: a participant of a PROPOSED exchange fixes a time that
      is not before now, and a place. Every refusal is a BadRequest. */
  function SetMeetup(e: Exchange, userId: UserId, time: Time, location: string, now: Time): (r: Result<Exchange>)
    ensures r.Err? <==> !IsUserPartOfExchange(userId, e) || e.status != Proposed || time < now
    ensures r.Err? ==> r.error == BadRequest
    ensures r.Ok? ==>
      (SameDeal(e, r.value) && r.value.status == MeetupArranged
       && r.value.meetupDateTime == Some(time) && r.value.meetupLocation == Some(location)
       && r.value.user1Confirmed == e.user1Confirmed && r.value.user2Confirmed == e.user2Confirmed)
  {
    if !IsUserPartOfExchange(userId, e) then Err(BadRequest)
    else if e.status != Proposed then Err(BadRequest)
    else if time < now then Err(BadRequest)
    else Ok(e.(meetupDateTime := Some(time), meetupLocation := Some(location), status := MeetupArranged))
  }

  /** confirmExchange on the record: a participant of a MEETUP_ARRANGED exchange
      sets their own flag (user1's when the caller is user1, user2's otherwise);
      once both flags are set the exchange is COMPLETED. */
  function Confirm(e: Exchange, userId: UserId): (r: Result<Exchange>)
    ensures r.Err? <==> !IsUserPartOfExchange(userId, e) || e.status != MeetupArranged
    ensures r.Err? ==> r.error == BadRequest
    ensures r.Ok? && userId == e.user1 ==> r.value.user1Confirmed && r.value.user2Confirmed == e.user2Confirmed
    ensures r.Ok? && userId != e.user1 ==> r.value.user2Confirmed && r.value.user1Confirmed == e.user1Confirmed
    ensures r.Ok? ==>
      (SameDeal(e, r.value) && r.value.meetupDateTime == e.meetupDateTime
       && r.value.meetupLocation == e.meetupLocation)
    ensures r.Ok? ==> (r.value.status == Completed <==> r.value.user1Confirmed && r.value.user2Confirmed)
    ensures r.Ok? && r.value.status != Completed ==> r.value.status == MeetupArranged
  {
    if !IsUserPartOfExchange(userId, e) then Err(BadRequest)
    else if e.status != MeetupArranged then Err(BadRequest)
    else
      var flagged := if e.user1 == userId then e.(user1Confirmed := true) else e.(user2Confirmed := true);
      if flagged.user1Confirmed && flagged.user2Confirmed then Ok(flagged.(status := Completed))
      else Ok(flagged)
  }

  /** A confirmation that completes the exchange, the condition under which
      completeExchange runs. */
  predicate Completes(e: Exchange, userId: UserId)
  {
    var r := Confirm(e, userId);
    r.Ok? && r.value.status == Completed
  }

  /** cancelExchange: a participant cancels anything but a COMPLETED exchange,
      including one already CANCELLED; both flags are cleared. */
  function Cancel(e: Exchange, userId: UserId): (r: Result<Exchange>)
    ensures r.Err? <==> !IsUserPartOfExchange(userId, e) || e.status == Completed
    ensures r.Err? ==> r.error == BadRequest
    ensures r.Ok? ==>
      (SameDeal(e, r.value) && r.value.status == Cancelled
       && !r.value.user1Confirmed && !r.value.user2Confirmed
       && r.value.meetupDateTime == e.meetupDateTime && r.value.meetupLocation == e.meetupLocation)
  {
    if !IsUserPartOfExchange(userId, e) then Err(BadRequest)
    else if e.status == Completed then Err(BadRequest)
    else Ok(e.(status := Cancelled, user1Confirmed := false, user2Confirmed := false))
  }

  /** getExchangeDetails on the record: only participants may see it. */
  function View(e: Exchange, userId: UserId): (r: Result<Exchange>)
    ensures r.Ok? <==> IsUserPartOfExchange(userId, e)
    ensures r.Ok? ==> r.value == e
    ensures r.Err? ==> r.error == BadRequest
  {
    if IsUserPartOfExchange(userId, e) then Ok(e) else Err(BadRequest)
  }

  // ----- runs of calls on one exchange -----

  datatype Command =
    | SetMeetupDetails(caller: UserId, time: Time, location: string, now: Time)
    | ConfirmExchange(caller: UserId)
    | CancelExchange(caller: UserId)

  function Apply(e: Exchange, c: Command): Result<Exchange>
  {
    match c
    case SetMeetupDetails(u, t, l, now) => SetMeetup(e, u, t, l, now)
    case ConfirmExchange(u) => Confirm(e, u)
    case CancelExchange(u) => Cancel(e, u)
  }

  /** The record after a call; a refused call leaves it as it was. */
  function After(e: Exchange, c: Command): Exchange
  {
    var r := Apply(e, c);
    if r.Ok? then r.value else e
  }

  function Run(e: Exchange, cs: seq<Command>): Exchange
    decreases |cs|
  {
    if cs == [] then e else Run(After(e, cs[0]), cs[1..])
  }

  /** Whether a call runs completeExchange. */
  predicate StepCompletes(e: Exchange, c: Command)
  {
    c.ConfirmExchange? && Completes(e, c.caller)
  }

  /** How many calls of a run run completeExchange. */
  function Completions(e: Exchange, cs: seq<Command>): nat
    decreases |cs|
  {
    if cs == [] then 0
    else (if StepCompletes(e, cs[0]) then 1 else 0) + Completions(After(e, cs[0]), cs[1..])
  }

  /** Status and flags agree: nothing is confirmed before the meetup is
      arranged or after a cancellation, an arranged meetup has a time and is
      not yet confirmed by both, and a completed exchange is confirmed by both. */
  ghost predicate Coherent(e: Exchange)
  {
    match e.status
    case Proposed => !e.user1Confirmed && !e.user2Confirmed
    case MeetupArranged => e.meetupDateTime.Some? && !(e.user1Confirmed && e.user2Confirmed)
    case Completed => e.user1Confirmed && e.user2Confirmed && e.meetupDateTime.Some?
    case Cancelled => !e.user1Confirmed && !e.user2Confirmed
  }

  lemma ProposalCoherent(user1: UserId, user2: UserId, book1: BookId, book2: BookId, now: Time)
    ensures Coherent(Proposal(user1, user2, book1, book2, now))
  {
  }

  /** Every call keeps the record coherent. */
  lemma StepKeepsCoherent(e: Exchange, c: Command)
    requires Coherent(e)
    ensures Coherent(After(e, c))
  {
  }

  lemma {:induction false} RunKeepsCoherent(e: Exchange, cs: seq<Command>)
    requires Coherent(e)
    ensures Coherent(Run(e, cs))
    decreases |cs|
  {
    if cs != [] {
      StepKeepsCoherent(e, cs[0]);
      RunKeepsCoherent(After(e, cs[0]), cs[1..]);
    }
  }

  /** No run of calls changes the participants, the books or the proposal time. */
  lemma {:induction false} RunKeepsDeal(e: Exchange, cs: seq<Command>)
    ensures SameDeal(e, Run(e, cs))
    decreases |cs|
  {
    if cs != [] {
      RunKeepsDeal(After(e, cs[0]), cs[1..]);
    }
  }

  /** Every call by someone outside the exchange is refused, so no run of such
      calls changes the record or completes it. */
  lemma {:induction false} OutsidersChangeNothing(e: Exchange, cs: seq<Command>)
    requires forall i :: 0 <= i < |cs| ==> !IsUserPartOfExchange(cs[i].caller, e)
    ensures Run(e, cs) == e
    ensures Completions(e, cs) == 0
    decreases |cs|
  {
    if cs != [] {
      assert !IsUserPartOfExchange(cs[0].caller, e);
      assert Apply(e, cs[0]).Err?;
      assert forall i :: 0 <= i < |cs[1..]| ==> cs[1..][i] == cs[i + 1];
      OutsidersChangeNothing(e, cs[1..]);
    }
  }

  /** Every call on a COMPLETED exchange is refused, so it never changes again. */
  lemma {:induction false} CompletedIsFinal(e: Exchange, cs: seq<Command>)
    requires e.status == Completed
    ensures Run(e, cs) == e
    ensures Completions(e, cs) == 0
    decreases |cs|
  {
    if cs != [] {
      assert Apply(e, cs[0]).Err?;
      CompletedIsFinal(e, cs[1..]);
    }
  }

  /** Once completed, always completed. */
  lemma {:induction false} CompletedStaysCompleted(e: Exchange, cs: seq<Command>)
    requires e.status == Completed
    ensures Run(e, cs).status == Completed
  {
    CompletedIsFinal(e, cs);
  }

  /** A cancelled exchange stays cancelled: only cancelExchange accepts it, and
      that leaves it cancelled. */
  lemma {:induction false} CancelledStaysCancelled(e: Exchange, cs: seq<Command>)
    requires e.status == Cancelled
    ensures Run(e, cs).status == Cancelled
    ensures Completions(e, cs) == 0
    decreases |cs|
  {
    if cs != [] {
      assert After(e, cs[0]).status == Cancelled;
      assert !StepCompletes(e, cs[0]);
      CancelledStaysCancelled(After(e, cs[0]), cs[1..]);
    }
  }

  /** completeExchange runs at most once per exchange, whatever the calls. */
  lemma {:induction false} CompletesAtMostOnce(e: Exchange, cs: seq<Command>)
    requires e.status != Completed
    ensures Completions(e, cs) <= 1
    ensures Completions(e, cs) == 1 <==> Run(e, cs).status == Completed
    decreases |cs|
  {
    if cs != [] {
      var e' := After(e, cs[0]);
      if StepCompletes(e, cs[0]) {
        assert e'.status == Completed;
        CompletedIsFinal(e', cs[1..]);
      } else {
        assert e'.status != Completed;
        CompletesAtMostOnce(e', cs[1..]);
      }
    }
  }

  /** A meetup time equal to the clock's reading is accepted; only a time
      strictly before it is refused. */
  lemma MeetupAtNowAccepted(e: Exchange, userId: UserId, now: Time, location: string)
    requires IsUserPartOfExchange(userId, e) && e.status == Proposed
    ensures SetMeetup(e, userId, now, location, now).Ok?
    ensures SetMeetup(e, userId, now - 1, location, now) == Err(BadRequest)
  {
  }

  /** Confirming twice is confirming once: the flag is set, never cleared. */
  lemma ConfirmIdempotent(e: Exchange, userId: UserId)
    requires Confirm(e, userId).Ok?
    requires Confirm(e, userId).value.status != Completed
    ensures Confirm(Confirm(e, userId).value, userId) == Confirm(e, userId)
  {
  }

  /** The proposal's two participants confirming, in either order, complete it. */
  lemma {:induction false} BothConfirmationsComplete(e: Exchange, time: Time, location: string, now: Time, first: UserId)
    requires e.user1 != e.user2 && e.status == Proposed && Coherent(e)
    requires now <= time && IsUserPartOfExchange(first, e)
    ensures var second := if first == e.user1 then e.user2 else e.user1;
      var cs := [SetMeetupDetails(first, time, location, now), ConfirmExchange(first), ConfirmExchange(second)];
      Run(e, cs).status == Completed && Completions(e, cs) == 1
  {
    var second := if first == e.user1 then e.user2 else e.user1;
    var cs := [SetMeetupDetails(first, time, location, now), ConfirmExchange(first), ConfirmExchange(second)];
    var e1 := After(e, cs[0]);
    assert e1.status == MeetupArranged && !e1.user1Confirmed && !e1.user2Confirmed;
    var e2 := After(e1, cs[1]);
    assert e2.status == MeetupArranged;
    var e3 := After(e2, cs[2]);
    assert e3.status == Completed;
    assert cs[1..][0] == cs[1] && cs[1..][1..] == cs[2..];
    assert cs[2..][0] == cs[2] && cs[2..][1..] == [];
    assert Run(e, cs) == Run(e1, cs[1..]) == Run(e2, cs[2..]) == Run(e3, []) == e3;
    assert !StepCompletes(e, cs[0]) && !StepCompletes(e1, cs[1]) && StepCompletes(e2, cs[2]);
    assert Completions(e3, []) == 0;
    assert Completions(e, cs) == Completions(e1, cs[1..]) == Completions(e2, cs[2..]) == 1;
  }
}
