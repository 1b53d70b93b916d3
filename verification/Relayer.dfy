/** The relayer client's send loop: retry while the relayer boots, inside one time budget. */
module Relayer {
  import opened Wrappers

  /** What one attempt came to: the relayer (or the router in front of it) answered, the
      transport failed, or the request body could not be rewound for another try. */
  datatype Outcome = Response(status: nat) | TransportError | RewindFailure

  datatype Attempt = Attempt(outcome: Outcome, duration: nat)

  /** A pause between attempts ends by its timer, possibly late, or because the caller went away. */
  datatype Pause = Elapsed(lag: nat) | Cancelled

  /** Everything send cannot control: the clock at the call, the caller's deadline, and what
      each attempt and each pause will turn out to be. */
  datatype Call = Call(start: int, callerDeadline: Option<int>, budget: int, interval: int,
                       attempts: nat -> Attempt, pauses: nat -> Pause)

  datatype Sent = Returned(outcome: Outcome) | ContextDone

  predicate Booting(status: nat) { status in {502, 503, 504} }

  predicate Retryable(o: Outcome) { o.TransportError? || (o.Response? && Booting(o.status)) }

  function Deadline(c: Call): int {
    var own := c.start + c.budget;
    if c.callerDeadline.Some? && c.callerDeadline.value < own then c.callerDeadline.value else own
  }

  function Lag(p: Pause): nat { if p.Elapsed? then p.lag else 0 }

  /** When attempt i starts, if there is one. */
  function StartOf(c: Call, i: nat): int
    decreases i, 0
  {
    if i == 0 then c.start else FinishOf(c, i - 1) + c.interval + Lag(c.pauses(i - 1))
  }

  function FinishOf(c: Call, i: nat): int
    decreases i, 1
  {
    StartOf(c, i) + c.attempts(i).duration
  }

  /** Whether a pause after attempt i would still end before the deadline. */
  predicate TimeLeft(c: Call, i: nat) { FinishOf(c, i) + c.interval < Deadline(c) }

  /** Whether the call is over with attempt i or the pause after it. */
  predicate Stops(c: Call, i: nat) {
    !Retryable(c.attempts(i).outcome) || !TimeLeft(c, i) || c.pauses(i).Cancelled?
  }

  /** An outcome that is not retried: a response that is no gateway error, or a body that cannot be
      rewound. */
  predicate Final(o: Outcome) {
    o.RewindFailure? || (o.Response? && o.status != 502 && o.status != 503 && o.status != 504)
  }

  /** Attempt `i` failed in a way that may pass, and the pause after it was due to end inside the budget
      and before the caller's deadline. */
  predicate Retried(c: Call, i: nat) {
    && !Final(c.attempts(i).outcome)
    && FinishOf(c, i) + c.interval < c.start + c.budget
    && (c.callerDeadline.Some? ==> FinishOf(c, i) + c.interval < c.callerDeadline.value)
  }

  /** A pause after attempt `i` would reach the end of the budget or the caller's deadline. */
  predicate OutOfTime(c: Call, i: nat) {
    || c.start + c.budget <= FinishOf(c, i) + c.interval
    || (c.callerDeadline.Some? && c.callerDeadline.value <= FinishOf(c, i) + c.interval)
  }

  /** Attempts follow one another at the interval, each after the last has failed and the pause is over. */
  lemma StartsSpelled(c: Call, i: nat)
    ensures StartOf(c, 0) == c.start && FinishOf(c, i) == StartOf(c, i) + c.attempts(i).duration
    ensures c.pauses(i).Elapsed? ==> StartOf(c, i + 1) == FinishOf(c, i) + c.interval + c.pauses(i).lag
  {
  }

  lemma {:induction false} AttemptsAreSpaced(c: Call, i: nat)
    requires c.interval > 0
    ensures StartOf(c, i) >= c.start + i * c.interval
  {
    if i > 0 {
      AttemptsAreSpaced(c, i - 1);
      assert i * c.interval == (i - 1) * c.interval + c.interval;
    }
  }

  /** A pause is only begun with time for it, so the pauses fit the budget: (n - 1) * interval
      is less than the budget for every attempt after the first. */
  lemma PausesFitTheBudget(c: Call, i: nat)
    requires c.interval > 0 && TimeLeft(c, i)
    ensures (i + 1) * c.interval < c.budget
  {
    AttemptsAreSpaced(c, i);
    assert (i + 1) * c.interval == i * c.interval + c.interval;
  }

  /** send: last is the attempt that decided the call, the first that stops it. */
  method Send(c: Call) returns (sent: Sent, last: nat)
    requires c.interval > 0
    ensures Stops(c, last) && forall i: nat :: i < last ==> !Stops(c, i)
    ensures forall i: nat :: i < last ==> Retried(c, i)
    ensures sent.Returned? ==> sent.outcome == c.attempts(last).outcome && (Final(sent.outcome) || OutOfTime(c, last))
    ensures sent.ContextDone? ==> c.pauses(last).Cancelled? && !Final(c.attempts(last).outcome)
    ensures last > 0 ==> last * c.interval < c.budget
    ensures !Retryable(c.attempts(last).outcome) ==> sent == Returned(c.attempts(last).outcome)
    ensures Retryable(c.attempts(last).outcome) && !TimeLeft(c, last) ==> sent == Returned(c.attempts(last).outcome)
    ensures Retryable(c.attempts(last).outcome) && TimeLeft(c, last) ==> sent == ContextDone
  {
    var now, deadline := c.start, Deadline(c);
    last := 0;
    while true
      invariant now == StartOf(c, last)
      invariant last > 0 ==> last * c.interval < c.budget
      invariant forall i: nat :: i < last ==> !Stops(c, i) && Retried(c, i)
      decreases c.budget - last * c.interval
    {
      var attempt := c.attempts(last);
      now := now + attempt.duration;
      if !Retryable(attempt.outcome) {
        return Returned(attempt.outcome), last;
      }
      if deadline - now <= c.interval {
        return Returned(attempt.outcome), last;
      }
      match c.pauses(last) {
        case Cancelled => return ContextDone, last;
        case Elapsed(lag) => now := now + c.interval + lag;
      }
      PausesFitTheBudget(c, last);
      assert (last + 1) * c.interval == last * c.interval + c.interval;
      last := last + 1;
    }
  }

  // ---- What the retries are for -------------------------------------------------------------------

  predicate Answer(o: Outcome) { o.Response? && !Booting(o.status) }

  /** A relayer that is up from the given moment on: attempts started before it fail, within
      patience, and attempts started from then on get an answer of the relayer's own. */
  ghost predicate UpFrom(c: Call, boot: nat, patience: nat) {
    forall i: nat ::
      if StartOf(c, i) < c.start + boot then Retryable(c.attempts(i).outcome) && c.attempts(i).duration <= patience
      else Answer(c.attempts(i).outcome)
  }

  /** A boot that fits the budget with one attempt and one pause to spare becomes a slow success: the
      attempt that decides the call is one the relayer answered, whenever the attempts happen to fall. */
  lemma BootIsCovered(c: Call, boot: nat, patience: nat, last: nat)
    requires c.interval > 0 && UpFrom(c, boot, patience)
    requires c.start + boot + patience + c.interval <= Deadline(c)
    requires forall i :: c.pauses(i).Elapsed?
    requires Stops(c, last)
    ensures StartOf(c, last) >= c.start + boot && Answer(c.attempts(last).outcome)
  {
    assert StartOf(c, last) < c.start + boot ==> TimeLeft(c, last);
  }

  /** Attempts bounded by the deadline and punctual timers keep the whole call inside it. */
  lemma {:induction false} EndsByDeadline(c: Call, last: nat)
    requires c.interval > 0 && c.start <= Deadline(c)
    requires forall i: nat :: StartOf(c, i) <= Deadline(c) ==> FinishOf(c, i) <= Deadline(c)
    requires forall i :: Lag(c.pauses(i)) == 0
    requires forall i: nat :: i < last ==> !Stops(c, i)
    ensures FinishOf(c, last) <= Deadline(c)
  {
    if last > 0 {
      EndsByDeadline(c, last - 1);
      assert !Stops(c, last - 1);
    }
  }

  lemma {:induction false} InstantAttempts(c: Call, i: nat)
    requires forall j: nat :: j <= i ==> c.attempts(j).duration == 0 && Lag(c.pauses(j)) == 0
    ensures FinishOf(c, i) == c.start + i * c.interval
  {
    if i > 0 {
      InstantAttempts(c, i - 1);
      assert i * c.interval == (i - 1) * c.interval + c.interval;
    }
  }

  /** The bound is exact: a router that refuses at once, for as long as it is asked, is asked until
      no further pause fits the budget. */
  lemma BudgetIsUsed(c: Call, last: nat)
    requires c.interval > 0 && c.callerDeadline == None
    requires forall i :: c.attempts(i).duration == 0 && Retryable(c.attempts(i).outcome) && c.pauses(i) == Elapsed(0)
    requires Stops(c, last)
    ensures (last + 1) * c.interval >= c.budget
  {
    InstantAttempts(c, last);
    assert (last + 1) * c.interval == last * c.interval + c.interval;
  }
}
