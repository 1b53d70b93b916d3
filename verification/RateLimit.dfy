/** The fixed-window rate limiter: INCR on a shared Redis key, and EXPIRE by whichever
    request found the counter at one. The two commands of one request may be separated
    by commands of others, so a run is any interleaving of commands on a key. */
module RateLimit {
  import opened Wrappers
  import opened Text
  import Redis

  datatype Limiter = Limiter(limit: int, window: int)

  datatype Event =
    | Incr(at: int, limiter: Limiter)
    | Expire(at: int, which: nat)

  /** One key, and the windows of the requests that have still to send their EXPIRE; an Expire
      event names one of them by its place. */
  datatype State = State(cell: Option<Redis.Entry<nat>>, owed: seq<int>)

  const INITIAL := State(None, [])

  predicate Open(s: State, now: int) {
    s.cell.Some? && Redis.Alive(s.cell.value, now)
  }

  /** The value INCR returns. */
  function CountAt(s: State, now: int): nat {
    if Open(s, now) then s.cell.value.value + 1 else 1
  }

  predicate Enabled(s: State, e: Event) {
    e.Expire? ==> e.which < |s.owed|
  }

  function Step(s: State, e: Event): State {
    match e
    case Incr(at, limiter) =>
      State(Some(if Open(s, at) then s.cell.value.(value := CountAt(s, at)) else Redis.Entry(1, None)),
            if CountAt(s, at) == 1 then s.owed + [limiter.window] else s.owed)
    case Expire(at, which) =>
      if which >= |s.owed| then s
      else State(if Open(s, at) then Some(s.cell.value.(expiry := Some(at + s.owed[which]))) else s.cell,
                 s.owed[..which] + s.owed[which + 1..])
  }

  function Exec(events: seq<Event>): State {
    if events == [] then INITIAL else Step(Exec(events[..|events| - 1]), events[|events| - 1])
  }

  /** Commands arrive in time order, and only a request that saw one sends EXPIRE. */
  ghost predicate Valid(events: seq<Event>) {
    events != [] ==>
      var before, e := events[..|events| - 1], events[|events| - 1];
      Valid(before) && Enabled(Exec(before), e) && (before != [] ==> before[|before| - 1].at <= e.at)
  }

  /** The request whose INCR is event `i` is let through. */
  predicate Admitted(events: seq<Event>, i: nat)
    requires i < |events|
  {
    events[i].Incr? && CountAt(Exec(events[..i]), events[i].at) <= events[i].limiter.limit
  }

  predicate Opens(events: seq<Event>, i: nat)
    requires i < |events|
  {
    events[i].Incr? && CountAt(Exec(events[..i]), events[i].at) == 1
  }

  /** Requests admitted at times in [lo, hi) by limiters whose limit is at most `limit`,
      among events a .. |events|. */
  function AdmittedIn(events: seq<Event>, a: nat, lo: int, hi: int, limit: int): nat {
    if |events| <= a then 0
    else
      var n := |events| - 1;
      AdmittedIn(events[..n], a, lo, hi, limit)
      + (if Admitted(events, n) && lo <= events[n].at < hi && events[n].limiter.limit <= limit then 1 else 0)
  }

  ghost predicate WindowsAtLeast(events: seq<Event>, window: int) {
    forall i :: 0 <= i < |events| && events[i].Incr? ==> window <= events[i].limiter.window
  }

  /** An open key without an expiry is owed exactly one EXPIRE; no other key is. */
  ghost predicate Inv(s: State) {
    && |s.owed| <= 1
    && (|s.owed| == 1 <==> s.cell.Some? && s.cell.value.expiry.None?)
    && (s.cell.Some? ==> s.cell.value.value >= 1)
  }

  lemma StepInv(s: State, e: Event)
    requires Inv(s) && Enabled(s, e)
    ensures Inv(Step(s, e))
    ensures e.Expire? ==> s.cell.Some? && s.cell.value.expiry.None? && Open(s, e.at) && Step(s, e).owed == []
  {
  }

  lemma {:induction false} ExecInv(events: seq<Event>)
    requires Valid(events)
    ensures Inv(Exec(events))
  {
    if events != [] {
      ExecInv(events[..|events| - 1]);
      StepInv(Exec(events[..|events| - 1]), events[|events| - 1]);
    }
  }

  // ---- The sliding bound ------------------------------------------------------------

  function LastAt(events: seq<Event>): int
    requires events != []
  {
    events[|events| - 1].at
  }

  function LessOne(n: nat): nat { if n == 0 then 0 else n - 1 }

  /** Where a run stands relative to the interval [lo, lo + window): `cur` of the counted requests
      belong to the present key lifetime, opened at `since`, and `rest` to earlier ones. */
  ghost predicate Standing(events: seq<Event>, lo: int, window: int, limit: nat, cur: nat, rest: nat, since: int) {
    var s := Exec(events);
    && AdmittedIn(events, 0, lo, lo + window, limit) == cur + rest
    && cur <= limit && rest <= LessOne(limit)
    && (s.cell.Some? && since < lo ==> cur < s.cell.value.value && cur <= LessOne(limit))
    && (s.cell.Some? ==> cur <= s.cell.value.value && events != [] && since <= LastAt(events))
    && (s.cell.None? ==> cur == 0 && rest == 0)
    && (rest > 0 ==> lo <= since)
    && (cur + rest > 0 ==> events != [] && lo <= LastAt(events))
    && (s.cell.Some? && s.cell.value.expiry.Some? ==> since + window <= s.cell.value.expiry.value)
    && (forall w :: w in s.owed ==> window <= w)
  }

  lemma ExpireStanding(events: seq<Event>, e: Event, lo: int, window: int, limit: nat, cur: nat, rest: nat, since: int)
    requires Valid(events + [e]) && e.Expire? && Inv(Exec(events))
    requires Standing(events, lo, window, limit, cur, rest, since)
    ensures Standing(events + [e], lo, window, limit, cur, rest, since)
  {
    var all := events + [e];
    assert all[..|all| - 1] == events;
    StepInv(Exec(events), e);
    assert Exec(events).owed[e.which] in Exec(events).owed;
  }

  lemma IncrStanding(events: seq<Event>, e: Event, lo: int, window: int, limit: nat, cur: nat, rest: nat, since: int)
    returns (cur': nat, rest': nat, since': int)
    requires Valid(events + [e]) && e.Incr? && window <= e.limiter.window && e.at < lo + window
    requires Inv(Exec(events)) && Standing(events, lo, window, limit, cur, rest, since)
    ensures Standing(events + [e], lo, window, limit, cur', rest', since')
  {
    var all, s := events + [e], Exec(events);
    assert all[..|all| - 1] == events;
    var counted := lo <= e.at && e.limiter.limit <= limit && CountAt(s, e.at) <= e.limiter.limit;
    var one := if counted then 1 else 0;
    assert AdmittedIn(all, 0, lo, lo + window, limit) == cur + rest + one;
    if Open(s, e.at) {
      cur', rest', since' := cur + one, rest, since;
    } else {
      assert rest == 0;
      assert cur > 0 ==> since < lo;
      cur', rest', since' := one, cur, e.at;
    }
  }

  lemma {:induction false} Tally(events: seq<Event>, lo: int, window: int, limit: nat)
    returns (cur: nat, rest: nat, since: int)
    requires Valid(events) && WindowsAtLeast(events, window)
    ensures AdmittedIn(events, 0, lo, lo + window, limit) <= limit + LessOne(limit)
    ensures (events != [] && lo + window <= LastAt(events)) || Standing(events, lo, window, limit, cur, rest, since)
  {
    if events == [] {
      cur, rest, since := 0, 0, 0;
    } else {
      var before, e := events[..|events| - 1], LastAt(events);
      cur, rest, since := Tally(before, lo, window, limit);
      if e < lo + window {
        ExecInv(before);
        assert before + [events[|events| - 1]] == events;
        if events[|events| - 1].Incr? {
          cur, rest, since := IncrStanding(before, events[|events| - 1], lo, window, limit, cur, rest, since);
        } else {
          ExpireStanding(before, events[|events| - 1], lo, window, limit, cur, rest, since);
        }
      }
    }
  }

  /** However the commands interleave, every half-open interval as long as the window holds at
      most 2 * limit - 1 admitted requests (none if the limit is zero). Limiters sharing the key
      are counted together. */
  lemma SlidingBound(events: seq<Event>, lo: int, window: int, limit: nat)
    requires Valid(events) && WindowsAtLeast(events, window)
    ensures AdmittedIn(events, 0, lo, lo + window, limit) <= limit + LessOne(limit)
  {
    var _, _, _ := Tally(events, lo, window, limit);
  }

  ghost predicate OnlyBy(events: seq<Event>, limiter: Limiter) {
    forall i :: 0 <= i < |events| && events[i].Incr? ==> events[i].limiter == limiter
  }

  /** The limiter's run so far ends by `at` with the counter at `count`, expiring at `expiry`,
      and has admitted `admitted` requests in [lo, hi). */
  ghost predicate Reached(events: seq<Event>, limiter: Limiter, at: int, count: nat, expiry: int, lo: int, hi: int,
                          admitted: nat)
  {
    && Valid(events) && OnlyBy(events, limiter) && events != [] && LastAt(events) <= at
    && Exec(events).cell == Some(Redis.Entry(count, Some(expiry)))
    && AdmittedIn(events, 0, lo, hi, limiter.limit) == admitted
  }

  lemma OneMore(events: seq<Event>, limiter: Limiter, at: int, count: nat, expiry: int, lo: int, hi: int, admitted: nat)
    returns (longer: seq<Event>)
    requires Reached(events, limiter, at, count, expiry, lo, hi, admitted)
    requires lo <= at < hi && at < expiry && count < limiter.limit
    ensures Reached(longer, limiter, at, count + 1, expiry, lo, hi, admitted + 1)
  {
    longer := events + [Incr(at, limiter)];
    assert longer[..|longer| - 1] == events;
  }

  /** A burst into an open window is admitted whole while the counter stays within the limit. */
  lemma Burst(events: seq<Event>, limiter: Limiter, at: int, n: nat, count: nat, expiry: int, lo: int, hi: int,
              admitted: nat)
    returns (longer: seq<Event>)
    requires Reached(events, limiter, at, count, expiry, lo, hi, admitted)
    requires lo <= at < hi && at < expiry && count + n <= limiter.limit
    ensures Reached(longer, limiter, at, count + n, expiry, lo, hi, admitted + n)
    decreases n
  {
    longer := events;
    if n > 0 {
      longer := OneMore(events, limiter, at, count, expiry, lo, hi, admitted);
      longer := Burst(longer, limiter, at, n - 1, count + 1, expiry, lo, hi, admitted + 1);
    }
  }

  /** The INCR that opens a key. */
  lemma Opening(events: seq<Event>, limiter: Limiter, at: int, lo: int, hi: int)
    requires Valid(events) && (events != [] ==> LastAt(events) <= at)
    requires !Open(Exec(events), at) && 1 <= limiter.limit
    ensures var all := events + [Incr(at, limiter)];
            && Valid(all) && Exec(all) == State(Some(Redis.Entry(1, None)), [limiter.window])
            && AdmittedIn(all, 0, lo, hi, limiter.limit)
               == AdmittedIn(events, 0, lo, hi, limiter.limit) + (if lo <= at < hi then 1 else 0)
  {
    assert (events + [Incr(at, limiter)])[..|events|] == events;
    ExecInv(events);
    assert Exec(events).owed == [];
  }

  lemma OnlyExpiry(cell: Redis.Entry<nat>, window: int, at: int)
    requires Redis.Alive(cell, at)
    ensures Step(State(Some(cell), [window]), Expire(at, 0)) == State(Some(cell.(expiry := Some(at + window))), [])
  {
    assert [window][..0] + [window][1..] == [];
  }

  /** The EXPIRE that follows it. */
  lemma Expiring(one: seq<Event>, limiter: Limiter, at: int, lo: int, hi: int, admitted: nat)
    requires Valid(one) && OnlyBy(one, limiter) && one != [] && LastAt(one) == at && 0 < limiter.window
    requires Exec(one) == State(Some(Redis.Entry(1, None)), [limiter.window])
    requires AdmittedIn(one, 0, lo, hi, limiter.limit) == admitted
    ensures Reached(one + [Expire(at, 0)], limiter, at, 1, at + limiter.window, lo, hi, admitted)
  {
    assert (one + [Expire(at, 0)])[..|one|] == one;
    OnlyExpiry(Redis.Entry(1, None), limiter.window, at);
  }

  /** One request at `at` opens the key and sets its expiry. */
  lemma OpenWindow(events: seq<Event>, limiter: Limiter, at: int, lo: int, hi: int, admitted: nat)
    returns (longer: seq<Event>)
    requires Valid(events) && OnlyBy(events, limiter) && (events != [] ==> LastAt(events) <= at)
    requires !Open(Exec(events), at) && 1 <= limiter.limit && 0 < limiter.window
    requires AdmittedIn(events, 0, lo, hi, limiter.limit) == admitted
    ensures Reached(longer, limiter, at, 1, at + limiter.window, lo, hi, admitted + (if lo <= at < hi then 1 else 0))
  {
    Opening(events, limiter, at, lo, hi);
    Expiring(events + [Incr(at, limiter)], limiter, at, lo, hi, admitted + (if lo <= at < hi then 1 else 0));
    longer := events + [Incr(at, limiter)] + [Expire(at, 0)];
  }

  /** Opened at 0 and filled at the last moment of its window. */
  lemma LateBurst(limiter: Limiter) returns (events: seq<Event>)
    requires 1 <= limiter.limit && 2 <= limiter.window
    ensures var w := limiter.window;
            Reached(events, limiter, w - 1, limiter.limit, w, w - 1, w - 1 + w, limiter.limit - 1)
  {
    var w := limiter.window;
    events := OpenWindow([], limiter, 0, w - 1, w - 1 + w, 0);
    events := Burst(events, limiter, w - 1, limiter.limit - 1, 1, w, w - 1, w - 1 + w, 0);
  }

  /** Reopened as soon as its window ends. */
  lemma Reopened(events: seq<Event>, limiter: Limiter, at: int, count: nat, expiry: int, lo: int, hi: int,
                 admitted: nat)
    returns (longer: seq<Event>)
    requires Reached(events, limiter, at, count, expiry, lo, hi, admitted)
    requires 1 <= limiter.limit && 0 < limiter.window && at <= expiry && lo <= expiry < hi
    ensures Reached(longer, limiter, expiry, 1, expiry + limiter.window, lo, hi, admitted + 1)
  {
    longer := OpenWindow(events, limiter, expiry, lo, hi, admitted);
  }

  /** And filled at once. */
  lemma NextBurst(events: seq<Event>, limiter: Limiter, count: nat, lo: int, hi: int, admitted: nat)
    returns (longer: seq<Event>)
    requires 1 <= limiter.limit && 0 < limiter.window && lo <= limiter.window < hi
    requires Reached(events, limiter, limiter.window - 1, count, limiter.window, lo, hi, admitted)
    ensures Reached(longer, limiter, limiter.window, limiter.limit, 2 * limiter.window, lo, hi,
      admitted + limiter.limit)
  {
    var w := limiter.window;
    longer := Reopened(events, limiter, w - 1, count, w, lo, hi, admitted);
    longer := Burst(longer, limiter, w, limiter.limit - 1, 1, w + w, lo, hi, admitted + 1);
  }

  /** The bound is exact: for every limiter some run fills an interval with 2 * limit - 1 requests. */
  lemma BoundAttained(limiter: Limiter) returns (events: seq<Event>, lo: int)
    requires 1 <= limiter.limit && 2 <= limiter.window
    ensures Valid(events) && OnlyBy(events, limiter)
    ensures AdmittedIn(events, 0, lo, lo + limiter.window, limiter.limit) == 2 * limiter.limit - 1
  {
    lo := limiter.window - 1;
    events := LateBurst(limiter);
    events := NextBurst(events, limiter, limiter.limit, lo, lo + limiter.window, limiter.limit - 1);
  }

  /** The limiter has kept to its limit in the interval that starts at `lo`. */
  ghost predicate KeepsLimit(events: seq<Event>, limiter: Limiter, lo: int) {
    AdmittedIn(events, 0, lo, lo + limiter.window, limiter.limit) <= limiter.limit
  }

  /** A limiter keeps to its limit in every interval of every run if and only if that limit is at
      most one. */
  lemma LimitHeldIff(limiter: Limiter)
    requires 0 <= limiter.limit && 2 <= limiter.window
    ensures (forall events, lo :: Valid(events) && OnlyBy(events, limiter) ==> KeepsLimit(events, limiter, lo))
            <==> limiter.limit <= 1
  {
    if limiter.limit <= 1 {
      forall events, lo | Valid(events) && OnlyBy(events, limiter) ensures KeepsLimit(events, limiter, lo) {
        SlidingBound(events, lo, limiter.window, limiter.limit);
      }
    } else {
      var events, lo := BoundAttained(limiter);
      assert !KeepsLimit(events, limiter, lo);
    }
  }

  // ---- One key lifetime ----------------------------------------------------------------

  /** No event after `a` opens the key again. */
  predicate NoOpeningAfter(events: seq<Event>, a: nat) {
    |events| > a + 1 ==> NoOpeningAfter(events[..|events| - 1], a) && !Opens(events, |events| - 1)
  }

  /** Between two openings of the key, a limiter admits at most its own limit, whatever other
      limiters do to the same key. */
  lemma {:induction false} LifetimeBound(events: seq<Event>, a: nat, lo: int, hi: int, limit: nat)
    requires Valid(events) && NoOpeningAfter(events, a)
    ensures AdmittedIn(events, a, lo, hi, limit) <= limit
    ensures AdmittedIn(events, a, lo, hi, limit) > 0 ==>
      Exec(events).cell.Some? && AdmittedIn(events, a, lo, hi, limit) <= Exec(events).cell.value.value
  {
    if a < |events| {
      var n := |events| - 1;
      LifetimeBound(events[..n], a, lo, hi, limit);
      assert a < n ==> !Opens(events, n);
    }
  }

  // ---- The window rolls -------------------------------------------------------------------

  /** Once set, the expiry of a key stays put until it comes, however dense the traffic. */
  lemma {:induction false} ExpiryFixed(events: seq<Event>, n: nat, expiry: int)
    requires Valid(events) && n <= |events|
    requires Exec(events[..n]).cell.Some? && Exec(events[..n]).cell.value.expiry == Some(expiry)
    requires forall i :: n <= i < |events| ==> events[i].at < expiry
    ensures Exec(events).cell.Some? && Exec(events).cell.value.expiry == Some(expiry)
    decreases |events|
  {
    if n == |events| {
      assert events[..n] == events;
    } else {
      var before := events[..|events| - 1];
      assert before[..n] == events[..n];
      ExpiryFixed(before, n, expiry);
      ExecInv(before);
      StepInv(Exec(before), events[|events| - 1]);
    }
  }

  /** The first request at or after the expiry opens a new window; it is admitted if and only if
      the limit lets anything through. */
  lemma WindowRolls(events: seq<Event>, n: nat, expiry: int, at: int, limiter: Limiter)
    requires Valid(events) && n <= |events|
    requires Exec(events[..n]).cell.Some? && Exec(events[..n]).cell.value.expiry == Some(expiry)
    requires forall i :: n <= i < |events| ==> events[i].at < expiry
    requires expiry <= at
    ensures Opens(events + [Incr(at, limiter)], |events|)
    ensures Admitted(events + [Incr(at, limiter)], |events|) <==> 1 <= limiter.limit
  {
    ExpiryFixed(events, n, expiry);
    assert (events + [Incr(at, limiter)])[..|events|] == events;
  }

  // ---- The limiter over the whole keyspace ---------------------------------------------------

  /** Who a request is counted against. */
  datatype Subject =
    | IP(ip: string) | Email(address: string) | User(sub: string)
    | SessionAction(action: string, sub: string)
    | UserAction(action: string, sub: string)
    | IPAction(action: string, ip: string)

  function Key(s: Subject): string {
    match s
    case IP(ip) => "rl:" + ("ip" + ":" + ip)
    case Email(address) => "rl:" + ("email" + ":" + Lower(address))
    case User(sub) => "rl:" + ("sub" + ":" + sub)
    case SessionAction(action, sub) => "rl:" + ("sess-action" + ":" + (action + ":" + sub))
    case UserAction(action, sub) => "rl:" + ("sub-action" + ":" + (action + ":" + sub))
    case IPAction(action, ip) => "rl:" + ("ip-action" + ":" + (action + ":" + ip))
  }

  function Tag(s: Subject): string {
    match s
    case IP(_) => "ip"
    case Email(_) => "email"
    case User(_) => "sub"
    case SessionAction(_, _) => "sess-action"
    case UserAction(_, _) => "sub-action"
    case IPAction(_, _) => "ip-action"
  }

  function Rest(s: Subject): string {
    match s
    case IP(ip) => ip
    case Email(address) => Lower(address)
    case User(sub) => sub
    case SessionAction(action, sub) => action + ":" + sub
    case UserAction(action, sub) => action + ":" + sub
    case IPAction(action, ip) => action + ":" + ip
  }

  /** Action names carry no colon. */
  predicate PlainAction(s: Subject) {
    s.SessionAction? || s.UserAction? || s.IPAction? ==> Free(s.action, ':')
  }

  predicate SameBudget(a: Subject, b: Subject) {
    a == b || (a.Email? && b.Email? && Lower(a.address) == Lower(b.address))
  }

  /** Two subjects share a counter exactly when they are the same subject, emails up to case. */
  lemma KeySeparates(a: Subject, b: Subject)
    requires PlainAction(a) && PlainAction(b)
    ensures Key(a) == Key(b) <==> SameBudget(a, b)
  {
    if Key(a) == Key(b) {
      assert Key(a)[3..] == Tag(a) + ":" + Rest(a);
      assert Key(b)[3..] == Tag(b) + ":" + Rest(b);
      CutUnique(Tag(a), ':', Rest(a), Tag(b), Rest(b));
      assert Tag(a)[0] == Tag(b)[0] && |Tag(a)| == |Tag(b)|;
      match a {
        case SessionAction(action, sub) => CutUnique(action, ':', sub, b.action, b.sub);
        case UserAction(action, sub) => CutUnique(action, ':', sub, b.action, b.sub);
        case IPAction(action, ip) => CutUnique(action, ':', ip, b.action, b.ip);
        case _ =>
      }
    }
  }

  class RateLimiter {
    var keys: map<string, Redis.Entry<nat>>

    constructor ()
      ensures keys == map[]
    {
      keys := map[];
    }

    function CellOf(key: string): State
      reads this
    {
      State(if key in keys then Some(keys[key]) else None, [])
    }

    /** check, undisturbed: the key takes the INCR step, then the EXPIRE step if it was opened. */
    method Check(key: string, now: int, limiter: Limiter) returns (allowed: bool)
      modifies this
      ensures var incremented := Step(old(CellOf(key)), Incr(now, limiter));
              CellOf(key) == (if CountAt(old(CellOf(key)), now) == 1 then Step(incremented, Expire(now, 0))
                              else incremented)
      ensures allowed <==> CountAt(old(CellOf(key)), now) <= limiter.limit
      ensures forall k :: k != key ==> (k in keys <==> k in old(keys)) && (k in keys ==> keys[k] == old(keys[k]))
    {
      var live := Redis.Get(keys, key, now);
      var count := if live.Some? then live.value + 1 else 1;
      keys := keys[key := if live.Some? then keys[key].(value := count) else Redis.Entry(1, None)];
      if count == 1 {
        OnlyExpiry(keys[key], limiter.window, now);
        keys := keys[key := keys[key].(expiry := Some(now + limiter.window))];
      }
      allowed := count <= limiter.limit;
    }
  }
}
