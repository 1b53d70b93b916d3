/** Limiters with different windows on one key, as the two email limiters are. Whoever opens the key
    sets its expiry, so a long limiter's key may close after the other's short window. */
module SharedLimit {
  import opened Wrappers
  import opened RateLimit
  import Redis

  /** Requests of one limiter admitted at times in [lo, hi). */
  function AdmittedBy(events: seq<Event>, limiter: Limiter, lo: int, hi: int): nat {
    if events == [] then 0
    else
      var n := |events| - 1;
      AdmittedBy(events[..n], limiter, lo, hi)
      + (if Admitted(events, n) && lo <= events[n].at < hi && events[n].limiter == limiter then 1 else 0)
  }

  // ---- The bound -------------------------------------------------------------------------------

  /** A lifetime of the key: how many of the limiter's requests it admitted in the interval, when it
      was opened, and whether the limiter itself opened it. */
  datatype Lifetime = Lifetime(admitted: nat, since: int, own: bool)

  /** The present lifetime, the number of openings inside the interval, and the requests admitted in
      earlier lifetimes. */
  datatype Account = Account(now: Lifetime, openings: nat, rest: nat)

  /** The limiter, the shortest window on its key, and the start of an interval as long as its window. */
  datatype Terms = Terms(limiter: Limiter, shortest: int, lo: int)

  ghost predicate Sensible(t: Terms) { 1 <= t.limiter.limit && 0 < t.shortest <= t.limiter.window }

  function End(t: Terms): int { t.lo + t.limiter.window }

  /** How long a lifetime lasts at least, by who opened it. */
  function AtLeast(t: Terms, own: bool): int { if own then t.limiter.window else t.shortest }

  /** What holds of the present lifetime. Unless the limiter opened it inside the interval, some
      request in it was not one of those counted. */
  ghost predicate Present(s: State, t: Terms, now: Lifetime) {
    && now.admitted <= t.limiter.limit
    && (s.cell.None? ==> now.admitted == 0)
    && (s.cell.Some? ==> now.admitted <= s.cell.value.value)
    && (s.cell.Some? && (now.since < t.lo || !now.own) ==>
          now.admitted < s.cell.value.value && now.admitted < t.limiter.limit)
    && (s.cell.Some? && s.cell.value.expiry.Some? ==> now.since + AtLeast(t, now.own) <= s.cell.value.expiry.value)
    && (forall w :: w in s.owed ==> AtLeast(t, now.own) <= w)
  }

  /** What the earlier lifetimes add up to. */
  ghost predicate Past(s: State, t: Terms, a: Account) {
    && a.rest <= a.openings * (t.limiter.limit - 1)
    && (a.openings == 0 <==> s.cell.None? || a.now.since < t.lo)
    && (a.openings > 0 ==> t.lo + (a.openings - 1) * t.shortest <= a.now.since)
  }

  /** The account after a run that left state `s`, admitted `count`, and ended at `last`. */
  ghost predicate Stands(s: State, count: nat, last: Option<int>, t: Terms, a: Account) {
    && count == a.now.admitted + a.rest
    && (count > 0 ==> last.Some? && t.lo <= last.value)
    && (s.cell.Some? ==> last.Some? && a.now.since <= last.value)
    && Present(s, t, a.now) && Past(s, t, a)
  }

  /** Whether an event is one of the requests counted. */
  function Counted(s: State, e: Event, t: Terms): nat {
    if e.Incr? && CountAt(s, e.at) <= e.limiter.limit && t.lo <= e.at < End(t) && e.limiter == t.limiter then 1 else 0
  }

  /** An event that may come next, inside the interval or before it. */
  ghost predicate Follows(s: State, last: Option<int>, e: Event, t: Terms) {
    && Inv(s) && Enabled(s, e) && (last.Some? ==> last.value <= e.at) && e.at < End(t)
    && (e.Incr? ==> t.shortest <= e.limiter.window)
  }

  lemma ExpireStands(s: State, count: nat, last: Option<int>, e: Event, t: Terms, a: Account)
    requires Sensible(t) && Follows(s, last, e, t) && e.Expire? && Stands(s, count, last, t, a)
    ensures Stands(Step(s, e), count + Counted(s, e, t), Some(e.at), t, a)
  {
    StepInv(s, e);
    assert s.owed[e.which] in s.owed;
  }

  /** One more request in an open key. */
  lemma JoinStands(s: State, count: nat, last: Option<int>, e: Event, t: Terms, a: Account)
    requires Sensible(t) && Follows(s, last, e, t) && e.Incr? && Open(s, e.at) && Stands(s, count, last, t, a)
    ensures Stands(Step(s, e), count + Counted(s, e, t), Some(e.at), t,
                   a.(now := a.now.(admitted := a.now.admitted + Counted(s, e, t))))
  {
  }

  /** A lifetime that has ended inside the interval left one request out, or it would not have ended. */
  lemma EndedLifetime(s: State, at: int, t: Terms, now: Lifetime)
    requires Sensible(t) && Present(s, t, now) && !Open(s, at) && at < End(t)
    ensures now.admitted <= t.limiter.limit - 1
    ensures s.cell.Some? ==> now.since + t.shortest <= at
  {
  }

  lemma OneOpeningMore(each: int, shortest: int, lo: int, since: int, at: int, openings: nat)
    requires openings > 0 ==> lo + (openings - 1) * shortest <= since && since + shortest <= at
    requires openings == 0 ==> lo <= at
    ensures lo + openings * shortest <= at
    ensures openings * each + each == (openings + 1) * each
  {
    if openings > 0 {
      assert openings * shortest == (openings - 1) * shortest + shortest;
    }
  }

  /** The account once the key is opened again. */
  function Reopened(s: State, e: Event, t: Terms, a: Account): Account
    requires e.Incr?
  {
    Account(Lifetime(Counted(s, e, t), e.at, e.limiter == t.limiter),
            if t.lo <= e.at then a.openings + 1 else 0, a.now.admitted + a.rest)
  }

  lemma OpenPresent(s: State, last: Option<int>, e: Event, t: Terms, a: Account)
    requires Sensible(t) && Follows(s, last, e, t) && e.Incr? && !Open(s, e.at)
    ensures Present(Step(s, e), t, Reopened(s, e, t, a).now)
  {
    StepInv(s, e);
  }

  lemma OpenPast(s: State, count: nat, last: Option<int>, e: Event, t: Terms, a: Account)
    requires Sensible(t) && Follows(s, last, e, t) && e.Incr? && !Open(s, e.at) && Stands(s, count, last, t, a)
    ensures Past(Step(s, e), t, Reopened(s, e, t, a))
  {
    EndedLifetime(s, e.at, t, a.now);
    if t.lo <= e.at {
      OneOpeningMore(t.limiter.limit - 1, t.shortest, t.lo, a.now.since, e.at, a.openings);
    }
  }

  /** Any event moves the account along with the run. */
  lemma EventStands(s: State, count: nat, last: Option<int>, e: Event, t: Terms, a: Account) returns (a': Account)
    requires Sensible(t) && Follows(s, last, e, t) && Stands(s, count, last, t, a)
    ensures Stands(Step(s, e), count + Counted(s, e, t), Some(e.at), t, a')
  {
    if e.Expire? {
      a' := a;
      ExpireStands(s, count, last, e, t, a);
    } else if Open(s, e.at) {
      a' := a.(now := a.now.(admitted := a.now.admitted + Counted(s, e, t)));
      JoinStands(s, count, last, e, t, a);
    } else {
      a' := Reopened(s, e, t, a);
      OpenPresent(s, last, e, t, a);
      OpenPast(s, count, last, e, t, a);
    }
  }

  /** An account of the run so far bounds what it has admitted. */
  lemma StandsBound(s: State, count: nat, last: int, t: Terms, a: Account, m: nat)
    requires Sensible(t) && t.limiter.window <= m * t.shortest
    requires Stands(s, count, Some(last), t, a) && last < End(t)
    ensures count <= (m + 1) * (t.limiter.limit - 1) + 1
  {
    FewOpenings(t.limiter.limit - 1, t.shortest, m, a.openings, last - t.lo);
  }

  function LastOf(events: seq<Event>): Option<int> {
    if events == [] then None else Some(LastAt(events))
  }

  /** The last event of a run, and what it adds. */
  lemma LastEvent(events: seq<Event>, t: Terms)
    requires events != [] && Valid(events) && WindowsAtLeast(events, t.shortest)
    ensures var n := |events| - 1;
            var s, e := Exec(events[..n]), events[n];
            && Valid(events[..n]) && WindowsAtLeast(events[..n], t.shortest)
            && Exec(events) == Step(s, e)
            && AdmittedBy(events, t.limiter, t.lo, End(t))
               == AdmittedBy(events[..n], t.limiter, t.lo, End(t)) + Counted(s, e, t)
            && (e.at < End(t) ==> Follows(s, LastOf(events[..n]), e, t))
            && (End(t) <= e.at ==> Counted(s, e, t) == 0)
            && (LastOf(events[..n]).Some? ==> LastOf(events[..n]).value <= e.at)
  {
    ExecInv(events[..|events| - 1]);
  }

  /** The bound, and an account that shows it as long as the run has not left the interval. */
  ghost predicate Bounded(s: State, count: nat, last: Option<int>, t: Terms, m: nat, a: Account) {
    && count <= (m + 1) * (t.limiter.limit - 1) + 1
    && (last.None? || last.value < End(t) ==> Stands(s, count, last, t, a))
  }

  lemma EventBounded(s: State, count: nat, last: Option<int>, e: Event, t: Terms, m: nat, a: Account)
    returns (a': Account)
    requires Sensible(t) && t.limiter.window <= m * t.shortest && Bounded(s, count, last, t, m, a)
    requires if e.at < End(t) then Follows(s, last, e, t) else Counted(s, e, t) == 0
    ensures Bounded(Step(s, e), count + Counted(s, e, t), Some(e.at), t, m, a')
  {
    a' := a;
    if e.at < End(t) {
      a' := EventStands(s, count, last, e, t, a);
      StandsBound(Step(s, e), count + Counted(s, e, t), e.at, t, a', m);
    }
  }

  ghost predicate Tallied(events: seq<Event>, t: Terms, m: nat, a: Account) {
    Bounded(Exec(events), AdmittedBy(events, t.limiter, t.lo, End(t)), LastOf(events), t, m, a)
  }

  lemma TallyLast(events: seq<Event>, t: Terms, m: nat, a: Account) returns (a': Account)
    requires Sensible(t) && t.limiter.window <= m * t.shortest
    requires events != [] && Valid(events) && WindowsAtLeast(events, t.shortest)
    requires Tallied(events[..|events| - 1], t, m, a)
    ensures Tallied(events, t, m, a')
  {
    var before, e := events[..|events| - 1], events[|events| - 1];
    LastEvent(events, t);
    a' := EventBounded(Exec(before), AdmittedBy(before, t.limiter, t.lo, End(t)), LastOf(before), e, t, m, a);
  }

  lemma NothingStands(t: Terms, m: nat)
    requires Sensible(t)
    ensures Tallied([], t, m, Account(Lifetime(0, 0, false), 0, 0))
  {
    assert (m + 1) * (t.limiter.limit - 1) >= 0;
  }

  lemma ValidBefore(events: seq<Event>, shortest: int)
    requires events != [] && Valid(events) && WindowsAtLeast(events, shortest)
    ensures Valid(events[..|events| - 1]) && WindowsAtLeast(events[..|events| - 1], shortest)
  {
  }

  lemma {:induction false} Tally(events: seq<Event>, t: Terms, m: nat) returns (a: Account)
    requires Sensible(t) && t.limiter.window <= m * t.shortest
    requires Valid(events) && WindowsAtLeast(events, t.shortest)
    ensures Tallied(events, t, m, a)
  {
    if events == [] {
      a := Account(Lifetime(0, 0, false), 0, 0);
      NothingStands(t, m);
    } else {
      ValidBefore(events, t.shortest);
      a := Tally(events[..|events| - 1], t, m);
      a := TallyLast(events, t, m, a);
    }
  }

  lemma FewOpenings(each: nat, shortest: int, m: nat, openings: nat, elapsed: int)
    requires 0 < shortest && elapsed < m * shortest
    requires openings > 0 ==> (openings - 1) * shortest <= elapsed
    ensures openings * each <= m * each && m * each + each == (m + 1) * each
  {
    if openings > m {
      MulGrows(m, openings - 1, shortest);
      assert false;
    }
    MulGrows(openings, m, each);
  }

  lemma {:induction false} MulGrows(a: nat, b: nat, c: nat)
    requires a <= b
    ensures a * c <= b * c
  {
    if a < b {
      MulGrows(a, b - 1, c);
      assert b * c == (b - 1) * c + c;
    }
  }

  /** Whatever shares its key, a limiter admits at most (m + 1) * (limit - 1) + 1 requests in an
      interval as long as its window, where m of the shortest windows on the key cover its own. */
  lemma SharedBound(events: seq<Event>, limiter: Limiter, shortest: int, m: nat, lo: int)
    requires 0 < shortest <= limiter.window <= m * shortest
    requires Valid(events) && WindowsAtLeast(events, shortest)
    ensures AdmittedBy(events, limiter, lo, lo + limiter.window)
            <= if limiter.limit < 1 then 0 else (m + 1) * (limiter.limit - 1) + 1
  {
    if limiter.limit < 1 {
      NoLimitNoRequests(events, limiter, lo, lo + limiter.window);
    } else {
      var _ := Tally(events, Terms(limiter, shortest, lo), m);
    }
  }

  lemma {:induction false} NoLimitNoRequests(events: seq<Event>, limiter: Limiter, lo: int, hi: int)
    requires limiter.limit < 1
    ensures AdmittedBy(events, limiter, lo, hi) == 0
  {
    if events != [] {
      NoLimitNoRequests(events[..|events| - 1], limiter, lo, hi);
    }
  }

  // ---- A run that reaches it -------------------------------------------------------------------

  ghost predicate OnlyOf(events: seq<Event>, a: Limiter, b: Limiter) {
    forall i :: 0 <= i < |events| && events[i].Incr? ==> events[i].limiter in {a, b}
  }

  /** The interval the requests are counted in, and the two limiters. */
  datatype Scene = Scene(limiter: Limiter, other: Limiter, lo: int, hi: int)

  /** The run so far ends by `at` with the counter at `count`, expiring at `expiry`, and has admitted
      `admitted` of the limiter's requests in the interval. */
  ghost predicate Reached(sc: Scene, events: seq<Event>, at: int, count: nat, expiry: int, admitted: nat) {
    && Valid(events) && OnlyOf(events, sc.limiter, sc.other) && events != [] && LastAt(events) <= at
    && Exec(events).cell == Some(Redis.Entry(count, Some(expiry)))
    && AdmittedBy(events, sc.limiter, sc.lo, sc.hi) == admitted
  }

  lemma OneMore(sc: Scene, events: seq<Event>, at: int, count: nat, expiry: int, admitted: nat)
    returns (longer: seq<Event>)
    requires Reached(sc, events, at, count, expiry, admitted)
    requires sc.lo <= at < sc.hi && at < expiry && count < sc.limiter.limit
    ensures Reached(sc, longer, at, count + 1, expiry, admitted + 1)
  {
    longer := events + [Incr(at, sc.limiter)];
    assert longer[..|longer| - 1] == events;
  }

  lemma {:induction false} Burst(sc: Scene, events: seq<Event>, at: int, n: nat, count: nat, expiry: int, admitted: nat)
    returns (longer: seq<Event>)
    requires Reached(sc, events, at, count, expiry, admitted)
    requires sc.lo <= at < sc.hi && at < expiry && count + n <= sc.limiter.limit
    ensures Reached(sc, longer, at, count + n, expiry, admitted + n)
    decreases n
  {
    longer := events;
    if n > 0 {
      longer := OneMore(sc, events, at, count, expiry, admitted);
      longer := Burst(sc, longer, at, n - 1, count + 1, expiry, admitted + 1);
    }
  }

  /** A closed key at the end of a run, ready to be openings at `at`. */
  ghost predicate Ready(sc: Scene, events: seq<Event>, at: int, admitted: nat) {
    && Valid(events) && OnlyOf(events, sc.limiter, sc.other) && (events != [] ==> LastAt(events) <= at)
    && !Open(Exec(events), at)
    && AdmittedBy(events, sc.limiter, sc.lo, sc.hi) == admitted
  }

  ghost function Counts(sc: Scene, who: Limiter, at: int): nat {
    if who == sc.limiter && sc.lo <= at < sc.hi then 1 else 0
  }

  lemma OpenedBy(sc: Scene, events: seq<Event>, who: Limiter, at: int, admitted: nat)
    requires Ready(sc, events, at, admitted) && who in {sc.limiter, sc.other} && (who == sc.limiter ==> 1 <= who.limit)
    ensures var one := events + [Incr(at, who)];
            && Valid(one) && OnlyOf(one, sc.limiter, sc.other)
            && Exec(one) == State(Some(Redis.Entry(1, None)), [who.window])
            && AdmittedBy(one, sc.limiter, sc.lo, sc.hi) == admitted + Counts(sc, who, at)
  {
    assert (events + [Incr(at, who)])[..|events|] == events;
    ExecInv(events);
    assert Exec(events).owed == [];
  }

  lemma Expires(sc: Scene, one: seq<Event>, window: int, at: int, admitted: nat)
    requires Valid(one) && OnlyOf(one, sc.limiter, sc.other) && one != [] && LastAt(one) == at
    requires Exec(one) == State(Some(Redis.Entry(1, None)), [window])
    requires AdmittedBy(one, sc.limiter, sc.lo, sc.hi) == admitted
    ensures Reached(sc, one + [Expire(at, 0)], at, 1, at + window, admitted)
  {
    assert (one + [Expire(at, 0)])[..|one|] == one;
    OnlyExpiry(Redis.Entry(1, None), window, at);
  }

  lemma Later(sc: Scene, events: seq<Event>, at: int, until: int, count: nat, expiry: int, admitted: nat)
    requires Reached(sc, events, at, count, expiry, admitted) && at <= until
    ensures Reached(sc, events, until, count, expiry, admitted)
  {
  }

  /** One lifetime: somebody opens the key at `at`, and the limiter fills it at `burst`. */
  lemma FullLifetime(sc: Scene, events: seq<Event>, who: Limiter, at: int, burst: int, admitted: nat)
    returns (longer: seq<Event>)
    requires Ready(sc, events, at, admitted) && who in {sc.limiter, sc.other} && 1 <= sc.limiter.limit
    requires sc.lo <= burst < sc.hi && at <= burst < at + who.window
    ensures Reached(sc, longer, burst, sc.limiter.limit, at + who.window,
                    admitted + Counts(sc, who, at) + (sc.limiter.limit - 1))
  {
    var sum := admitted + Counts(sc, who, at);
    longer := OpenAndExpire(sc, events, who, at, burst, admitted);
    longer := Burst(sc, longer, burst, sc.limiter.limit - 1, 1, at + who.window, sum);
  }

  lemma OpenAndExpire(sc: Scene, events: seq<Event>, who: Limiter, at: int, until: int, admitted: nat)
    returns (longer: seq<Event>)
    requires Ready(sc, events, at, admitted) && who in {sc.limiter, sc.other} && 1 <= sc.limiter.limit && at <= until
    ensures Reached(sc, longer, until, 1, at + who.window, admitted + Counts(sc, who, at))
  {
    var sum := admitted + Counts(sc, who, at);
    OpenedBy(sc, events, who, at, admitted);
    var one := events + [Incr(at, who)];
    Expires(sc, one, who.window, at, sum);
    longer := one + [Expire(at, 0)];
    Later(sc, longer, at, until, 1, at + who.window, sum);
  }

  lemma ReadyAtExpiry(sc: Scene, events: seq<Event>, at: int, count: nat, expiry: int, admitted: nat)
    requires Reached(sc, events, at, count, expiry, admitted) && at <= expiry
    ensures Ready(sc, events, expiry, admitted)
  {
  }

  /** Two limiters, the first with a window of m windows of the second, and the interval that starts
      at the last moment of the second's first window. */
  ghost predicate Staged(sc: Scene, m: nat) {
    && 1 <= sc.limiter.limit && 2 <= sc.other.window && m >= 1
    && sc.limiter.window == m * sc.other.window
    && sc.lo == sc.other.window - 1 && sc.hi == sc.lo + sc.limiter.window
  }

  lemma OthersDoNotCount(sc: Scene, m: nat, j: nat)
    requires Staged(sc, m) && j < m
    ensures Counts(sc, sc.other, j * sc.other.window) == 0
    ensures j > 0 ==> sc.lo <= j * sc.other.window
    ensures (j + 1) * sc.other.window <= sc.limiter.window
    ensures j * sc.other.window + sc.other.window == (j + 1) * sc.other.window
  {
    MulGrows(j + 1, m, sc.other.window);
    if j > 0 {
      MulGrows(1, j, sc.other.window);
    }
  }

  /** A window that the other limiter opens and this one fills. */
  lemma OtherLifetime(sc: Scene, events: seq<Event>, at: int, burst: int, admitted: nat) returns (longer: seq<Event>)
    requires Ready(sc, events, at, admitted) && 1 <= sc.limiter.limit && Counts(sc, sc.other, at) == 0
    requires sc.lo <= burst < sc.hi && at <= burst < at + sc.other.window
    ensures Ready(sc, longer, at + sc.other.window, admitted + (sc.limiter.limit - 1))
  {
    longer := FullLifetime(sc, events, sc.other, at, burst, admitted);
    ReadyAtExpiry(sc, longer, burst, sc.limiter.limit, at + sc.other.window, admitted + (sc.limiter.limit - 1));
  }

  lemma NothingYet(sc: Scene)
    ensures Ready(sc, [], 0, 0)
  {
  }

  /** The first j windows, all opened by the other limiter and filled by this one. */
  lemma {:induction false} ShortLifetimes(sc: Scene, m: nat, j: nat) returns (events: seq<Event>)
    requires Staged(sc, m) && 1 <= j <= m
    ensures Ready(sc, events, j * sc.other.window, j * (sc.limiter.limit - 1))
  {
    var w, each := sc.other.window, sc.limiter.limit - 1;
    OthersDoNotCount(sc, m, j - 1);
    if j == 1 {
      NothingYet(sc);
      events := OtherLifetime(sc, [], 0, w - 1, 0);
    } else {
      events := ShortLifetimes(sc, m, j - 1);
      events := OtherLifetime(sc, events, (j - 1) * w, (j - 1) * w, (j - 1) * each);
      assert (j - 1) * each + each == j * each;
    }
  }

  /** The bound is exact: for every two such limiters some run reaches it. */
  lemma SharedBoundAttained(limiter: Limiter, other: Limiter, m: nat) returns (events: seq<Event>, lo: int)
    requires 1 <= limiter.limit && 2 <= other.window && m >= 1 && limiter.window == m * other.window
    ensures Valid(events) && OnlyOf(events, limiter, other)
    ensures AdmittedBy(events, limiter, lo, lo + limiter.window) == (m + 1) * (limiter.limit - 1) + 1
  {
    lo := other.window - 1;
    var sc, each := Scene(limiter, other, lo, lo + limiter.window), limiter.limit - 1;
    events := ShortLifetimes(sc, m, m);
    MulGrows(1, m, other.window);
    events := FullLifetime(sc, events, limiter, limiter.window, limiter.window, m * each);
    assert m * each + each == (m + 1) * each;
  }

  const OTP := Limiter(3, Redis.HOUR)
  const RECOVERY := Limiter(3, 24 * Redis.HOUR)

  /** The email limiters: the one for recovery, three requests a day, can admit 51 in a day, because
      sign-in requests open the key it shares for an hour at a time. It never admits more. */
  lemma RecoveryRequestsInADay() returns (events: seq<Event>, lo: int)
    ensures Valid(events) && OnlyOf(events, RECOVERY, OTP)
    ensures AdmittedBy(events, RECOVERY, lo, lo + 24 * Redis.HOUR) == 51
    ensures forall run, from :: Valid(run) && OnlyOf(run, RECOVERY, OTP) ==> InADay(run, from) <= 51
  {
    events, lo := SharedBoundAttained(RECOVERY, OTP, 24);
    forall run, from | Valid(run) && OnlyOf(run, RECOVERY, OTP) ensures InADay(run, from) <= 51 {
      SharedBound(run, RECOVERY, Redis.HOUR, 24, from);
    }
  }

  function InADay(run: seq<Event>, from: int): nat { AdmittedBy(run, RECOVERY, from, from + 24 * Redis.HOUR) }
}
