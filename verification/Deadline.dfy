/** Collecting a broker response chunk by chunk under one absolute deadline and one size bound. */
module Deadline {
  import opened Wrappers
  import opened Utf8
  import opened Authn

  const MAX_RESPONSE_SIZE := 65536

  datatype StreamStatus = Complete | Dropped | Cancelled

  /** How the race between a read and its timer ends. */
  datatype Race = Ready(status: StreamStatus, chunk: seq<byte>) | Expired

  /** One round: the clock when the budget is computed, the instant the timer is armed, and the race. */
  datatype Round = Round(now: nat, armed: nat, race: Race)

  /** A timer as handed to the clock. */
  datatype Timer = Timer(armed: nat, duration: nat)

  /** The saturating difference of two clock readings. */
  function Elapsed(started: nat, now: nat): nat { if now <= started then 0 else now - started }

  /** What is left of the budget, if anything. */
  function Remaining(started: nat, timeout: nat, now: nat): Option<nat> {
    if Elapsed(started, now) < timeout then Some(timeout - Elapsed(started, now)) else None
  }

  /** Budget is left exactly before the absolute deadline; a clock that runs back leaves all of it. */
  lemma RemainingExactly(started: nat, timeout: nat, now: nat, d: nat)
    ensures Remaining(started, timeout, now) == Some(d)
            <==> 0 < d && (if now < started then d == timeout else now + d == started + timeout)
  {
  }

  function Chunk(r: Round): seq<byte> { if r.race.Ready? then r.race.chunk else [] }

  /** The chunks of the first `n` rounds, in order. */
  function Received(rounds: seq<Round>, n: nat): seq<byte>
    requires n <= |rounds|
  {
    if n == 0 then [] else Received(rounds, n - 1) + Chunk(rounds[n - 1])
  }

  predicate InTime(started: nat, timeout: nat, r: Round) { Remaining(started, timeout, r.now).Some? }

  /** The first `n` rounds deliver a chunk in time and leave the stream open. */
  predicate Flowing(started: nat, timeout: nat, rounds: seq<Round>, n: nat)
    requires n <= |rounds|
  {
    forall i :: 0 <= i < n ==>
      InTime(started, timeout, rounds[i]) && rounds[i].race.Ready? && rounds[i].race.status == Complete
  }

  /** Every timer handed out so far runs for what is left of the budget at its own round. */
  predicate TimersMatch(started: nat, timeout: nat, rounds: seq<Round>, timers: seq<Timer>) {
    && |timers| <= |rounds|
    && forall i :: 0 <= i < |timers| ==>
         && Remaining(started, timeout, rounds[i].now) == Some(timers[i].duration)
         && timers[i].armed == rounds[i].armed
  }

  /** The first `n` rounds flow and fit; the round after them decides. */
  predicate ReachesRound(started: nat, timeout: nat, rounds: seq<Round>, n: nat) {
    n < |rounds| && Flowing(started, timeout, rounds, n) && |Received(rounds, n)| <= MAX_RESPONSE_SIZE
  }

  /** What the deciding round comes to; nothing while the stream stays open. */
  function Verdict(started: nat, timeout: nat, rounds: seq<Round>, n: nat, acknowledged: bool)
    : Option<Result<seq<byte>, BrokerCallError>>
    requires n < |rounds|
  {
    var r := rounds[n];
    if !InTime(started, timeout, r) || r.race.Expired? then Some(Err(BrokerCallError.Deadline))
    else if |Received(rounds, n + 1)| > MAX_RESPONSE_SIZE then Some(Err(ResponseBody))
    else
      match r.race.status
      case Complete => None
      case Dropped => Some(if acknowledged then Ok(Received(rounds, n + 1)) else Err(ResponseBody))
      case Cancelled => Some(Err(ResponseBody))
  }

  /** Round `n` is reached and decides, and a timer was armed for every round whose read was started. */
  predicate DecidedAt(started: nat, timeout: nat, rounds: seq<Round>, acknowledged: bool,
                      outcome: Option<Result<seq<byte>, BrokerCallError>>, armed: nat, n: nat)
  {
    && ReachesRound(started, timeout, rounds, n)
    && Verdict(started, timeout, rounds, n, acknowledged) == outcome
    && armed == (if InTime(started, timeout, rounds[n]) then n + 1 else n)
  }

  /** `with_deadline`: no budget, no timer; otherwise the race decides. */
  method WithDeadline(started: nat, timeout: nat, r: Round)
    returns (timer: Option<Timer>, read: Result<(StreamStatus, seq<byte>), BrokerCallError>)
    ensures timer == if InTime(started, timeout, r)
                     then Some(Timer(r.armed, timeout - Elapsed(started, r.now))) else None
    ensures read == if InTime(started, timeout, r) && r.race.Ready?
                    then Ok((r.race.status, r.race.chunk)) else Err(BrokerCallError.Deadline)
  {
    var remaining := Remaining(started, timeout, r.now);
    if remaining.None? { return None, Err(BrokerCallError.Deadline); }
    timer := Some(Timer(r.armed, remaining.value));
    match r.race
    case Ready(status, chunk) => read := Ok((status, chunk));
    case Expired => read := Err(BrokerCallError.Deadline);
  }

  /**
   `collect_broker_response` with `with_deadline` around every read, over a finite run of rounds;
   nothing is returned if the run ends with the stream still open.
   */
  method Collect(started: nat, timeout: nat, rounds: seq<Round>, acknowledged: bool)
    returns (outcome: Option<Result<seq<byte>, BrokerCallError>>, timers: seq<Timer>)
    ensures TimersMatch(started, timeout, rounds, timers)
    ensures outcome.Some? ==> exists n: nat :: DecidedAt(started, timeout, rounds, acknowledged, outcome, |timers|, n)
    ensures outcome.None? ==>
              && |timers| == |rounds| && Flowing(started, timeout, rounds, |rounds|)
              && |Received(rounds, |rounds|)| <= MAX_RESPONSE_SIZE
  {
    var output: seq<byte> := [];
    timers := [];
    for n := 0 to |rounds|
      invariant |timers| == n && TimersMatch(started, timeout, rounds, timers)
      invariant Flowing(started, timeout, rounds, n)
      invariant output == Received(rounds, n) && |output| <= MAX_RESPONSE_SIZE
    {
      var r := rounds[n];
      ghost var verdict := Verdict(started, timeout, rounds, n, acknowledged);
      assert DecidedAt(started, timeout, rounds, acknowledged, verdict,
                       if InTime(started, timeout, r) then n + 1 else n, n);
      var timer, read := WithDeadline(started, timeout, r);
      if timer.Some? { timers := timers + [timer.value]; }
      if read.Err? { return Some(Err(read.error)), timers; }
      var (status, chunk) := read.value;
      if |output| + |chunk| > MAX_RESPONSE_SIZE { return Some(Err(ResponseBody)), timers; }
      output := output + chunk;
      match status
      case Complete =>
      case Dropped => return Some(if acknowledged then Ok(output) else Err(ResponseBody)), timers;
      case Cancelled => return Some(Err(ResponseBody)), timers;
    }
    outcome := None;
  }

  /**
   However the rounds fall, every timer expires at the one absolute instant `started + timeout`, plus
   only the lag of arming that very timer; and it is armed only while budget is left.
   */
  lemma OneAbsoluteDeadline(started: nat, timeout: nat, rounds: seq<Round>, timers: seq<Timer>, i: nat)
    requires TimersMatch(started, timeout, rounds, timers) && i < |timers|
    requires started <= rounds[i].now <= rounds[i].armed
    ensures timers[i].armed + timers[i].duration == started + timeout + (rounds[i].armed - rounds[i].now)
    ensures rounds[i].now < started + timeout && timers[i].duration > 0
  {
  }

  lemma {:induction false} ReceivedGrows(rounds: seq<Round>, m: nat, n: nat)
    requires m <= n <= |rounds|
    ensures |Received(rounds, m)| <= |Received(rounds, n)|
  {
    if m == n {
    } else {
      ReceivedGrows(rounds, m, n - 1);
    }
  }

  /** At most one round decides: a flowing round never does. */
  lemma DecidingRoundIsUnique(started: nat, timeout: nat, rounds: seq<Round>, m: nat, n: nat, acknowledged: bool)
    requires ReachesRound(started, timeout, rounds, m) && ReachesRound(started, timeout, rounds, n)
    requires Verdict(started, timeout, rounds, m, acknowledged).Some?
    ensures n <= m
  {
    if m < n { ReceivedGrows(rounds, m + 1, n); }
  }

  /** The rounds end with the stream closed in time, everything before it flowing. */
  predicate ClosesAt(started: nat, timeout: nat, rounds: seq<Round>, n: nat) {
    && n < |rounds| && Flowing(started, timeout, rounds, n)
    && InTime(started, timeout, rounds[n]) && rounds[n].race.Ready? && rounds[n].race.status == Dropped
  }

  /**
   Success, both ways: the body is returned exactly when some round closes the stream in time, the
   chunks up to it total at most the bound, and the body is their concatenation in order.
   */
  lemma SucceedsExactly(started: nat, timeout: nat, rounds: seq<Round>, body: seq<byte>)
    ensures (exists n: nat :: ReachesRound(started, timeout, rounds, n)
                         && Verdict(started, timeout, rounds, n, true) == Some(Ok(body)))
            <==> exists n: nat :: ClosesAt(started, timeout, rounds, n) && body == Received(rounds, n + 1)
                             && |body| <= 65536
  {
    if n: nat :| ReachesRound(started, timeout, rounds, n)
                 && Verdict(started, timeout, rounds, n, true) == Some(Ok(body))
    {
      assert ClosesAt(started, timeout, rounds, n);
    }
    if n: nat :| ClosesAt(started, timeout, rounds, n) && body == Received(rounds, n + 1)
                 && |body| <= 65536
    {
      assert ReachesRound(started, timeout, rounds, n);
    }
  }

  /** Without its acknowledgement a closed stream is an error, never a body; nor is a cancelled one. */
  lemma UnacknowledgedNeverSucceeds(started: nat, timeout: nat, rounds: seq<Round>, n: nat)
    requires n < |rounds|
    ensures var v := Verdict(started, timeout, rounds, n, false); !(v.Some? && v.value.Ok?)
    ensures ClosesAt(started, timeout, rounds, n) ==>
              Verdict(started, timeout, rounds, n, false) == Some(Err(ResponseBody))
    ensures InTime(started, timeout, rounds[n]) && rounds[n].race.Ready? && rounds[n].race.status == Cancelled ==>
              Verdict(started, timeout, rounds, n, true) == Some(Err(ResponseBody))
  {
  }

  /** A deadline error means exactly that the deciding round ran out of budget or lost its race. */
  lemma DeadlineErrorExactly(started: nat, timeout: nat, rounds: seq<Round>, n: nat, acknowledged: bool)
    requires n < |rounds| && started <= rounds[n].now
    ensures Verdict(started, timeout, rounds, n, acknowledged) == Some(Err(BrokerCallError.Deadline))
            <==> rounds[n].now >= started + timeout || rounds[n].race.Expired?
  {
  }

  /** What a run that closes in time comes to: its whole body, or a refusal if that is over the bound. */
  function ClosedResult(body: seq<byte>): Result<seq<byte>, BrokerCallError> {
    if |body| <= 65536 then Ok(body) else Err(ResponseBody)
  }

  /** The last round up to `n` that starts within the bound. */
  lemma LastRoundWithin(rounds: seq<Round>, n: nat) returns (m: nat)
    requires n < |rounds|
    ensures m <= n && |Received(rounds, m)| <= MAX_RESPONSE_SIZE
    ensures m < n ==> |Received(rounds, m + 1)| > MAX_RESPONSE_SIZE
  {
    m := 0;
    while m < n && |Received(rounds, m + 1)| <= MAX_RESPONSE_SIZE
      invariant m <= n && |Received(rounds, m)| <= MAX_RESPONSE_SIZE
    {
      m := m + 1;
    }
  }

  /**
   A run that closes in time is decided, at the closing round or at an earlier one that is over the
   bound, and the total alone decides how.
   */
  lemma ClosedRunIsDecided(started: nat, timeout: nat, rounds: seq<Round>, n: nat) returns (m: nat)
    requires ClosesAt(started, timeout, rounds, n)
    ensures m <= n && ReachesRound(started, timeout, rounds, m)
    ensures Verdict(started, timeout, rounds, m, true) == Some(ClosedResult(Received(rounds, n + 1)))
  {
    m := LastRoundWithin(rounds, n);
    if m < n { ReceivedGrows(rounds, m + 1, n + 1); }
  }

  /**
   How the body was cut into chunks does not matter: two runs that close in time with the same total
   are decided alike, whichever rounds decide them, and within the bound or over it.
   */
  lemma ChunkingIsIrrelevant(started: nat, timeout: nat, one: seq<Round>, m: nat, other: seq<Round>, n: nat,
                             i: nat, j: nat)
    requires ClosesAt(started, timeout, one, m) && ClosesAt(started, timeout, other, n)
    requires Received(one, m + 1) == Received(other, n + 1)
    requires ReachesRound(started, timeout, one, i) && Verdict(started, timeout, one, i, true).Some?
    requires ReachesRound(started, timeout, other, j) && Verdict(started, timeout, other, j, true).Some?
    ensures Verdict(started, timeout, one, i, true) == Verdict(started, timeout, other, j, true)
            == Some(ClosedResult(Received(one, m + 1)))
  {
    DecidedAsClosed(started, timeout, one, m, i);
    DecidedAsClosed(started, timeout, other, n, j);
  }

  lemma DecidedAsClosed(started: nat, timeout: nat, rounds: seq<Round>, n: nat, i: nat)
    requires ClosesAt(started, timeout, rounds, n)
    requires ReachesRound(started, timeout, rounds, i) && Verdict(started, timeout, rounds, i, true).Some?
    ensures Verdict(started, timeout, rounds, i, true) == Some(ClosedResult(Received(rounds, n + 1)))
  {
    var m := ClosedRunIsDecided(started, timeout, rounds, n);
    DecidingRoundIsUnique(started, timeout, rounds, m, i, true);
    DecidingRoundIsUnique(started, timeout, rounds, i, m, true);
  }
}
