/** resolveContracts: a pool of at most five workers fed by an unbuffered job channel,
    answering on a results channel with one slot per contract. The pool is a state
    machine; a run is any interleaving of its steps. */
module ResolvePool {
  import opened Wrappers

  const WORKERS := 5

  datatype Worker<J> = Idle | Busy(job: J) | Exited

  datatype Done<J, R> = Done(job: J, outcome: R)

  /** `queue` is what the feeding loop has still to send. */
  datatype Pool<J, R> = Pool(
    queue: seq<J>, closed: bool, workers: seq<Worker<J>>, results: seq<Done<J, R>>, capacity: nat)

  datatype Step<R> = Send(w: nat) | Finish(w: nat, outcome: R) | Close | Exit(w: nat)

  function Start<J, R>(contracts: seq<J>): Pool<J, R> {
    var n := if |contracts| < WORKERS then |contracts| else WORKERS;
    Pool(contracts, false, seq(n, _ => Idle), [], |contracts|)
  }

  /** A send on the results channel blocks when every slot is taken. */
  predicate Enabled<J, R>(s: Pool<J, R>, step: Step<R>) {
    match step
    case Send(w) => s.queue != [] && !s.closed && w < |s.workers| && s.workers[w].Idle?
    case Finish(w, _) => w < |s.workers| && s.workers[w].Busy? && |s.results| < s.capacity
    case Close => s.queue == [] && !s.closed
    case Exit(w) => s.closed && w < |s.workers| && s.workers[w].Idle?
  }

  function Apply<J, R>(s: Pool<J, R>, step: Step<R>): Pool<J, R>
    requires Enabled(s, step)
  {
    match step
    case Send(w) => s.(queue := s.queue[1..], workers := s.workers[w := Busy(s.queue[0])])
    case Finish(w, outcome) =>
      s.(workers := s.workers[w := Idle], results := s.results + [Done(s.workers[w].job, outcome)])
    case Close => s.(closed := true)
    case Exit(w) => s.(workers := s.workers[w := Exited])
  }

  /** workers.Wait() has returned. */
  predicate Terminal<J, R>(s: Pool<J, R>) {
    s.closed && forall w :: 0 <= w < |s.workers| ==> s.workers[w].Exited?
  }

  function Run<J, R>(s: Pool<J, R>, steps: seq<Step<R>>): Option<Pool<J, R>> {
    if steps == [] then Some(s)
    else
      match Run(s, steps[..|steps| - 1])
      case None => None
      case Some(t) => if Enabled(t, steps[|steps| - 1]) then Some(Apply(t, steps[|steps| - 1])) else None
  }

  // ---- Conservation -------------------------------------------------------------

  ghost function JobOf<J>(w: Worker<J>): multiset<J> {
    if w.Busy? then multiset{w.job} else multiset{}
  }

  ghost function InFlight<J>(ws: seq<Worker<J>>): multiset<J> {
    if ws == [] then multiset{} else InFlight(ws[1..]) + JobOf(ws[0])
  }

  ghost function Jobs<J, R>(results: seq<Done<J, R>>): multiset<J> {
    if results == [] then multiset{}
    else Jobs(results[..|results| - 1]) + multiset{results[|results| - 1].job}
  }

  ghost function Present<J>(ws: seq<Worker<J>>): nat {
    if ws == [] then 0 else Present(ws[1..]) + (if ws[0].Exited? then 0 else 1)
  }

  lemma Regroup<J>(a: multiset<J>, b: multiset<J>, c: multiset<J>)
    ensures a + b + c == a + c + b
  {
  }

  lemma {:induction false} UpdateWorker<J>(ws: seq<Worker<J>>, i: nat, w: Worker<J>)
    requires i < |ws|
    ensures InFlight(ws[i := w]) + JobOf(ws[i]) == InFlight(ws) + JobOf(w)
  {
    var rest := ws[1..];
    if i == 0 {
      assert ws[0 := w][1..] == rest;
      Regroup(InFlight(rest), JobOf(w), JobOf(ws[0]));
    } else {
      var rest' := rest[i - 1 := w];
      assert ws[i := w][1..] == rest';
      UpdateWorker(rest, i - 1, w);
      Regroup(InFlight(rest'), JobOf(ws[0]), JobOf(ws[i]));
      Regroup(InFlight(rest), JobOf(ws[0]), JobOf(w));
    }
  }

  lemma {:induction false} UpdatePresent<J>(ws: seq<Worker<J>>, i: nat, w: Worker<J>)
    requires i < |ws|
    ensures Present(ws[i := w]) + (if ws[i].Exited? then 0 else 1) == Present(ws) + (if w.Exited? then 0 else 1)
  {
    if i == 0 {
      assert ws[0 := w][1..] == ws[1..];
    } else {
      assert ws[i := w][1..] == ws[1..][i - 1 := w];
      UpdatePresent(ws[1..], i - 1, w);
    }
  }

  lemma {:induction false} BusyIsInFlight<J>(ws: seq<Worker<J>>, i: nat)
    requires i < |ws| && ws[i].Busy?
    ensures |InFlight(ws)| > 0
  {
    if i > 0 {
      BusyIsInFlight(ws[1..], i - 1);
    }
  }

  lemma {:induction false} NoneBusy<J>(ws: seq<Worker<J>>)
    requires forall i :: 0 <= i < |ws| ==> !ws[i].Busy?
    ensures InFlight(ws) == multiset{}
  {
    if ws != [] {
      NoneBusy(ws[1..]);
    }
  }

  lemma {:induction false} StartIsIdle<J>(ws: seq<Worker<J>>)
    requires forall i :: 0 <= i < |ws| ==> ws[i].Idle?
    ensures InFlight(ws) == multiset{} && Present(ws) == |ws|
  {
    if ws != [] {
      StartIsIdle(ws[1..]);
    }
  }

  lemma {:induction false} JobsSize<J, R>(results: seq<Done<J, R>>)
    ensures |Jobs(results)| == |results|
  {
    if results != [] {
      JobsSize(results[..|results| - 1]);
    }
  }

  /** Every contract is queued, in flight or finished, and none is there twice. */
  ghost predicate Conserved<J, R>(contracts: seq<J>, s: Pool<J, R>) {
    multiset(s.queue) + InFlight(s.workers) + Jobs(s.results) == multiset(contracts)
  }

  ghost predicate Inv<J, R>(contracts: seq<J>, s: Pool<J, R>) {
    && Conserved(contracts, s)
    && s.capacity == |contracts|
    && |s.workers| == (if |contracts| < WORKERS then |contracts| else WORKERS)
    && (s.closed ==> s.queue == [])
    && (!s.closed ==> forall w :: 0 <= w < |s.workers| ==> !s.workers[w].Exited?)
  }

  /** Sending, finishing, closing and exiting each use some of it up. */
  ghost function Measure<J, R>(s: Pool<J, R>): nat {
    3 * |s.queue| + 2 * |InFlight(s.workers)| + Present(s.workers) + (if s.closed then 0 else 1)
  }

  /** A job leaves the queue for a worker. */
  lemma SendMoves<J>(queue: seq<J>, ws: seq<Worker<J>>, w: nat, done: multiset<J>)
    requires queue != [] && w < |ws| && ws[w].Idle?
    ensures var ws' := ws[w := Busy(queue[0])];
            && multiset(queue[1..]) + InFlight(ws') + done == multiset(queue) + InFlight(ws) + done
            && |InFlight(ws')| == |InFlight(ws)| + 1 && Present(ws') == Present(ws)
  {
    var job := queue[0];
    UpdateWorker(ws, w, Busy(job));
    UpdatePresent(ws, w, Busy(job));
    assert InFlight(ws[w := Busy(job)]) == InFlight(ws) + multiset{job};
    assert queue == [job] + queue[1..];
    assert multiset(queue) == multiset(queue[1..]) + multiset{job};
  }

  /** A job leaves its worker for the results. */
  lemma FinishMoves<J>(queue: multiset<J>, ws: seq<Worker<J>>, w: nat, done: multiset<J>)
    requires w < |ws| && ws[w].Busy?
    ensures var ws' := ws[w := Idle];
            && queue + InFlight(ws') + (done + multiset{ws[w].job}) == queue + InFlight(ws) + done
            && |InFlight(ws')| == |InFlight(ws)| - 1 && Present(ws') == Present(ws)
  {
    UpdateWorker(ws, w, Idle);
    UpdatePresent(ws, w, Idle);
    assert InFlight(ws[w := Idle]) + multiset{ws[w].job} == InFlight(ws);
  }

  lemma SendKeeps<J, R>(contracts: seq<J>, s: Pool<J, R>, w: nat)
    requires Inv(contracts, s) && Enabled(s, Send(w))
    ensures Inv(contracts, Apply(s, Send(w))) && Measure(Apply(s, Send(w))) < Measure(s)
  {
    SendMoves(s.queue, s.workers, w, Jobs(s.results));
  }

  lemma FinishKeeps<J, R>(contracts: seq<J>, s: Pool<J, R>, w: nat, outcome: R)
    requires Inv(contracts, s) && Enabled(s, Finish(w, outcome))
    ensures Inv(contracts, Apply(s, Finish(w, outcome))) && Measure(Apply(s, Finish(w, outcome))) < Measure(s)
  {
    var d := Done(s.workers[w].job, outcome);
    FinishMoves(multiset(s.queue), s.workers, w, Jobs(s.results));
    assert (s.results + [d])[..|s.results|] == s.results;
    assert Jobs(s.results + [d]) == Jobs(s.results) + multiset{d.job};
  }

  lemma StepKeeps<J, R>(contracts: seq<J>, s: Pool<J, R>, step: Step<R>)
    requires Inv(contracts, s) && Enabled(s, step)
    ensures Inv(contracts, Apply(s, step)) && Measure(Apply(s, step)) < Measure(s)
  {
    match step
    case Send(w) => SendKeeps(contracts, s, w);
    case Finish(w, outcome) => FinishKeeps(contracts, s, w, outcome);
    case Close =>
    case Exit(w) =>
      UpdateWorker(s.workers, w, Exited);
      UpdatePresent(s.workers, w, Exited);
      var a, b := InFlight(s.workers[w := Exited]), InFlight(s.workers);
      assert a + multiset{} == b + multiset{} && a + multiset{} == a && b + multiset{} == b;
  }

  /** Over every interleaving: the contracts are conserved, and the run is bounded. */
  lemma {:induction false} RunKeeps<J, R>(contracts: seq<J>, steps: seq<Step<R>>)
    requires Run(Start<J, R>(contracts), steps).Some?
    ensures var s := Run(Start<J, R>(contracts), steps).value;
            Inv(contracts, s) && |steps| + Measure(s) <= 3 * |contracts| + WORKERS + 1
  {
    if steps == [] {
      StartInv<J, R>(contracts);
      StartIsIdle(Start<J, R>(contracts).workers);
    } else {
      var before := steps[..|steps| - 1];
      RunKeeps<J, R>(contracts, before);
      StepKeeps(contracts, Run(Start<J, R>(contracts), before).value, steps[|steps| - 1]);
    }
  }

  /** A worker holding an answer always finds a free slot on the results channel. */
  lemma NeverBlocks<J, R>(contracts: seq<J>, s: Pool<J, R>, w: nat)
    requires Inv(contracts, s) && w < |s.workers| && s.workers[w].Busy?
    ensures |s.results| < s.capacity
  {
    BusyIsInFlight(s.workers, w);
    JobsSize(s.results);
    assert |multiset(contracts)| == |multiset(s.queue)| + |InFlight(s.workers)| + |Jobs(s.results)|;
  }

  /** No deadlock: until every worker has exited, the feeder or some worker can move,
      provided each provider call returns some outcome. */
  lemma Progress<J, R>(contracts: seq<J>, s: Pool<J, R>, answer: R) returns (step: Step<R>)
    requires contracts != [] && Inv(contracts, s) && !Terminal(s)
    ensures Enabled(s, step)
    ensures step.Finish? ==> step.outcome == answer
  {
    if w :| 0 <= w < |s.workers| && s.workers[w].Busy? {
      NeverBlocks(contracts, s, w);
      step := Finish(w, answer);
    } else if !s.closed && s.queue == [] {
      step := Close;
    } else if !s.closed {
      assert s.workers[0].Idle?;
      step := Send(0);
    } else {
      var w :| 0 <= w < |s.workers| && !s.workers[w].Exited?;
      step := Exit(w);
    }
  }

  /** When the pool is done, the results hold each contract exactly as often as the input did. */
  lemma TerminalComplete<J, R>(contracts: seq<J>, s: Pool<J, R>)
    requires Inv(contracts, s) && Terminal(s)
    ensures Jobs(s.results) == multiset(contracts)
  {
    NoneBusy(s.workers);
  }

  /** Every complete run, whatever the interleaving, answers every contract once and is short. */
  lemma EveryRunCompletes<J, R>(contracts: seq<J>, steps: seq<Step<R>>)
    requires Run(Start<J, R>(contracts), steps).Some?
    requires Terminal(Run(Start<J, R>(contracts), steps).value)
    ensures Jobs(Run(Start<J, R>(contracts), steps).value.results) == multiset(contracts)
    ensures |steps| <= 3 * |contracts| + 6
  {
    RunKeeps<J, R>(contracts, steps);
    TerminalComplete(contracts, Run(Start<J, R>(contracts), steps).value);
  }

  /** In every run there are five workers, or as many as contracts if those are fewer. */
  lemma PoolSize<J, R>(contracts: seq<J>, steps: seq<Step<R>>)
    requires Run(Start<J, R>(contracts), steps).Some?
    ensures |Run(Start<J, R>(contracts), steps).value.workers| == if |contracts| < 5 then |contracts| else 5
  {
    RunKeeps<J, R>(contracts, steps);
  }

  /** The pool once the first n workers have been sent the first n contracts. */
  function Busied<J, R>(contracts: seq<J>, n: nat): Pool<J, R>
    requires n <= |contracts| && n <= 5
  {
    var size := if |contracts| < 5 then |contracts| else 5;
    Pool(contracts[n..], false, seq(size, i requires 0 <= i < size => if i < n then Busy(contracts[i]) else Idle), [],
         |contracts|)
  }

  function Sends<R>(n: nat): (steps: seq<Step<R>>)
    ensures |steps| == n
  {
    if n == 0 then [] else Sends<R>(n - 1) + [Send(n - 1)]
  }

  /** They can all be at work at once. */
  lemma {:induction false} AllAtOnce<J, R>(contracts: seq<J>, n: nat)
    requires n <= |contracts| && n <= 5
    ensures Run(Start<J, R>(contracts), Sends<R>(n)) == Some(Busied<J, R>(contracts, n))
  {
    if n == 0 {
      assert Start<J, R>(contracts).workers == Busied<J, R>(contracts, 0).workers;
    } else {
      var steps := Sends<R>(n);
      assert |steps| == n && steps[..n - 1] == Sends<R>(n - 1);
      AllAtOnce<J, R>(contracts, n - 1);
      var s := Busied<J, R>(contracts, n - 1);
      var last: Step<R> := Send(n - 1);
      assert Enabled(s, last) && steps[n - 1] == last;
      assert Apply(s, last).workers == Busied<J, R>(contracts, n).workers;
    }
  }

  // ---- The pool at work -----------------------------------------------------------

  predicate CanMove<J, R>(s: Pool<J, R>, w: nat)
    requires w < |s.workers|
  {
    s.workers[w].Busy? || (s.workers[w].Idle? && (s.closed || s.queue != []))
  }

  /** Any step the scheduler may take next; a worker that finishes reports `resolve` of its job. */
  method Schedule<J(==), R>(ghost contracts: seq<J>, s: Pool<J, R>, resolve: J -> R) returns (step: Step<R>)
    requires contracts != [] && Inv(contracts, s) && !Terminal(s)
    ensures Enabled(s, step)
    ensures step.Finish? ==> step.outcome == resolve(s.workers[step.w].job)
  {
    assert s.closed ==> exists w :: 0 <= w < |s.workers| && !s.workers[w].Exited? && CanMove(s, w);
    assert !s.closed && s.queue != [] ==> CanMove(s, 0);
    if
    case s.queue == [] && !s.closed =>
      step := Close;
    case exists w :: 0 <= w < |s.workers| && CanMove(s, w) =>
      var w :| 0 <= w < |s.workers| && CanMove(s, w);
      match s.workers[w]
      case Busy(job) =>
        NeverBlocks(contracts, s, w);
        step := Finish(w, resolve(job));
      case Idle =>
        step := if s.closed then Exit(w) else Send(w);
  }

  ghost predicate Answered<J, R>(s: Pool<J, R>, resolve: J -> R) {
    forall i :: 0 <= i < |s.results| ==> s.results[i].outcome == resolve(s.results[i].job)
  }

  lemma StepAnswers<J, R>(s: Pool<J, R>, step: Step<R>, resolve: J -> R)
    requires Answered(s, resolve) && Enabled(s, step)
    requires step.Finish? ==> step.outcome == resolve(s.workers[step.w].job)
    ensures Answered(Apply(s, step), resolve)
  {
  }

  lemma StartInv<J, R>(contracts: seq<J>)
    ensures Inv(contracts, Start<J, R>(contracts))
  {
    StartIsIdle(Start<J, R>(contracts).workers);
  }

  /** Runs the pool to the end under an arbitrary scheduler. */
  method Resolve<J(==), R>(contracts: seq<J>, resolve: J -> R) returns (results: seq<Done<J, R>>)
    ensures Jobs(results) == multiset(contracts)
    ensures forall i :: 0 <= i < |results| ==> results[i].outcome == resolve(results[i].job)
  {
    if contracts == [] {
      return [];
    }
    var s: Pool<J, R> := Start(contracts);
    StartInv<J, R>(contracts);
    ghost var fuel := Measure(s);
    while !Terminal(s)
      invariant Inv(contracts, s) && fuel == Measure(s) && Answered(s, resolve)
      decreases fuel
    {
      var step := Schedule(contracts, s, resolve);
      StepKeeps(contracts, s, step);
      StepAnswers(s, step, resolve);
      s := Apply(s, step);
      fuel := Measure(s);
    }
    TerminalComplete(contracts, s);
    results := s.results;
  }
}
