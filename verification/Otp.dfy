/** One-time passwords: a code key and an attempts key in one Redis keyspace, each with
    its own expiry. One Verify call is one step. */
module Otp {
  import opened Wrappers
  import opened Text
  import Redis

  const TTL := 10 * Redis.MINUTE
  const MAX_ATTEMPTS := 5

  datatype Value = Code(text: string) | Count(n: nat)

  type Keyspace = map<string, Redis.Entry<Value>>

  const ATTEMPTS := "attempts:"

  function CodeKey(email: string): string { "otp:" + Lower(email) }

  function AttemptsKey(email: string): string { "otp:" + (ATTEMPTS + Lower(email)) }

  /** Identifiers whose code key cannot be taken for a counter key. */
  predicate Plain(email: string) {
    !(ATTEMPTS <= Lower(email))
  }

  /** An identifier's code key is some identifier's counter key exactly when, lower-cased, it
      starts with "attempts:". */
  lemma KeysCollideIff(email: string)
    ensures (exists other :: CodeKey(email) == AttemptsKey(other)) <==> !Plain(email)
    ensures !Plain(email) <==> |email| >= 9 && SameLetters(email[..9], "attempts:")
  {
    PlainSpelled(email);
    if !Plain(email) {
      var other := Lower(email)[|ATTEMPTS|..];
      assert Lower(other) == other by {
        assert forall i :: 0 <= i < |other| ==> LowerChar(other[i]) == other[i];
      }
      assert Lower(email) == ATTEMPTS + other;
      assert CodeKey(email) == AttemptsKey(other);
    }
    if other :| CodeKey(email) == AttemptsKey(other) {
      assert CodeKey(email)[4..] == Lower(email);
      assert AttemptsKey(other)[4..] == ATTEMPTS + Lower(other);
    }
  }

  lemma PlainSpelled(email: string)
    ensures !Plain(email) <==> |email| >= 9 && SameLetters(email[..9], "attempts:")
  {
    if |email| >= 9 {
      assert Lower("attempts:") == "attempts:";
      assert Lower(email)[..9] == Lower(email[..9]);
      LowerSame(email[..9], "attempts:");
    }
  }

  datatype Outcome = Missing | TooMany | Mismatch | Accepted | Broken

  /** The guess was compared with the stored code. */
  predicate Compares(o: Outcome) { o.Mismatch? || o.Accepted? }

  function GenerateStep(db: Keyspace, now: int, email: string, code: string): Keyspace {
    db[CodeKey(email) := Redis.Entry(Code(code), Some(now + TTL))] - {AttemptsKey(email)}
  }

  function NextAttempt(db: Keyspace, now: int, email: string): Option<nat> {
    var counter: Option<Value> := Redis.Get(db, AttemptsKey(email), now);
    match counter
    case None => Some(1)
    case Some(Count(n)) => Some(n + 1)
    case Some(Code(_)) => None
  }

  function VerifyOutcome(db: Keyspace, now: int, email: string, guess: string): Outcome {
    var entry: Option<Value> := Redis.Get(db, CodeKey(email), now);
    match entry
    case None => Missing
    case Some(Count(_)) => Broken
    case Some(Code(stored)) =>
      match NextAttempt(db, now, email)
      case None => Broken
      case Some(attempts) =>
        if attempts > MAX_ATTEMPTS then TooMany
        else if stored != guess then Mismatch
        else Accepted
  }

  function VerifyStep(db: Keyspace, now: int, email: string, guess: string): Keyspace {
    match VerifyOutcome(db, now, email, guess)
    case Missing => db
    case Broken => db
    case TooMany => db - {CodeKey(email), AttemptsKey(email)}
    case Accepted => db - {CodeKey(email), AttemptsKey(email)}
    case Mismatch =>
      db[AttemptsKey(email) := Redis.Entry(Count(NextAttempt(db, now, email).value), Some(now + TTL))]
  }

  // ---- Runs ---------------------------------------------------------------------------

  datatype Event =
    | Generate(at: int, email: string, code: string)
    | Verify(at: int, email: string, guess: string)

  function Step(db: Keyspace, e: Event): Keyspace {
    match e
    case Generate(at, email, code) => GenerateStep(db, at, email, code)
    case Verify(at, email, guess) => VerifyStep(db, at, email, guess)
  }

  function Exec(events: seq<Event>): Keyspace {
    if events == [] then map[] else Step(Exec(events[..|events| - 1]), events[|events| - 1])
  }

  ghost predicate Valid(events: seq<Event>) {
    && (forall i :: 0 <= i < |events| ==> Plain(events[i].email))
    && (forall i, j :: 0 <= i < j < |events| ==> events[i].at <= events[j].at)
  }

  predicate SameUser(a: Event, b: Event) { Lower(a.email) == Lower(b.email) }

  /** Event `g` issued a code, and no later event has replaced it. */
  ghost predicate Current(events: seq<Event>, g: nat) {
    && g < |events| && events[g].Generate?
    && forall i :: g < i < |events| && SameUser(events[i], events[g]) ==> events[i].Verify?
  }

  function OutcomeAt(events: seq<Event>, i: nat): Outcome
    requires i < |events| && events[i].Verify?
  {
    VerifyOutcome(Exec(events[..i]), events[i].at, events[i].email, events[i].guess)
  }

  /** How often the code issued at `g` has been compared, or accepted. */
  function CountSince(events: seq<Event>, g: nat, accepted: bool): nat
    requires g < |events|
  {
    if |events| == g + 1 then 0
    else
      var n := |events| - 1;
      CountSince(events[..n], g, accepted)
      + (if events[n].Verify? && SameUser(events[n], events[g])
            && (if accepted then OutcomeAt(events, n).Accepted? else Compares(OutcomeAt(events, n))) then 1 else 0)
  }

  /** The code issued at `g` is gone, or it is stored with a counter of the comparisons made so
      far that outlives it. */
  ghost predicate Guarded(events: seq<Event>, g: nat)
    requires g < |events| && events[g].Generate?
  {
    var db, issue := Exec(events), events[g];
    var compared, accepted := CountSince(events, g, false), CountSince(events, g, true);
    var codeKey, counterKey := CodeKey(issue.email), AttemptsKey(issue.email);
    && compared <= MAX_ATTEMPTS
    && accepted <= 1
    && (codeKey !in db ==> accepted == 1 || compared == MAX_ATTEMPTS)
    && (codeKey in db ==>
          && accepted == 0
          && db[codeKey] == Redis.Entry(Code(issue.code), Some(issue.at + TTL))
          && (counterKey in db <==> compared > 0)
          && (compared > 0 ==>
                && db[counterKey].value == Count(compared)
                && db[counterKey].expiry.Some?
                && issue.at + TTL <= db[counterKey].expiry.value))
  }

  lemma KeysApart(a: string, b: string)
    requires Plain(a) && Plain(b)
    ensures CodeKey(a) != AttemptsKey(b)
    ensures Lower(a) != Lower(b) ==> CodeKey(a) != CodeKey(b) && AttemptsKey(a) != AttemptsKey(b)
  {
    assert CodeKey(a)[4..] == Lower(a) && CodeKey(b)[4..] == Lower(b);
    assert AttemptsKey(a)[13..] == Lower(a) && AttemptsKey(b)[13..] == Lower(b);
    if CodeKey(a) == AttemptsKey(b) {
      KeysCollideIff(a);
    }
  }

  /** What another user does leaves both keys of this one alone. */
  lemma OtherUserKeeps(db: Keyspace, e: Event, email: string)
    requires Plain(e.email) && Plain(email) && Lower(e.email) != Lower(email)
    ensures forall k :: k == CodeKey(email) || k == AttemptsKey(email) ==>
      (k in Step(db, e) <==> k in db) && (k in db ==> Step(db, e)[k] == db[k])
  {
    KeysApart(e.email, email);
    KeysApart(email, e.email);
  }

  lemma OwnVerifyKeeps(events: seq<Event>, e: Event, g: nat)
    requires Valid(events + [e]) && Current(events, g) && Guarded(events, g)
    requires e.Verify? && SameUser(e, events[g])
    ensures Guarded(events + [e], g)
  {
    var all, db := events + [e], Exec(events);
    assert all[..|events|] == events && all[|events|] == e && all[g] == events[g];
    assert CodeKey(e.email) == CodeKey(events[g].email) && AttemptsKey(e.email) == AttemptsKey(events[g].email);
    KeysApart(e.email, e.email);
    assert Exec(all) == VerifyStep(db, e.at, e.email, e.guess);
    assert OutcomeAt(all, |events|) == VerifyOutcome(db, e.at, e.email, e.guess);
    assert events[g].at <= e.at by { assert all[g].at <= all[|events|].at; }
  }

  lemma OtherEventKeeps(events: seq<Event>, e: Event, g: nat)
    requires Valid(events + [e]) && Current(events, g) && Guarded(events, g)
    requires !SameUser(e, events[g])
    ensures Guarded(events + [e], g)
  {
    var all := events + [e];
    assert all[..|events|] == events && all[|events|] == e && all[g] == events[g];
    assert Plain(all[g].email) && Plain(all[|events|].email);
    OtherUserKeeps(Exec(events), e, events[g].email);
  }

  lemma {:induction false} ExecGuarded(events: seq<Event>, g: nat)
    requires Valid(events) && Current(events, g)
    ensures Guarded(events, g)
  {
    var before, e := events[..|events| - 1], events[|events| - 1];
    if g == |events| - 1 {
      assert Plain(e.email);
      KeysApart(e.email, e.email);
    } else {
      assert forall i :: 0 <= i < |before| ==> before[i] == events[i];
      ExecGuarded(before, g);
      assert before + [e] == events;
      if SameUser(e, events[g]) {
        OwnVerifyKeeps(before, e, g);
      } else {
        OtherEventKeeps(before, e, g);
      }
    }
  }

  /** Over every run, an issued code is compared at most five times and accepted at most once,
      and while it can still be read its counter is alive. */
  lemma CodeIsBounded(events: seq<Event>, g: nat, now: int)
    requires Valid(events) && Current(events, g)
    ensures CountSince(events, g, false) <= 5
    ensures CountSince(events, g, true) <= 1
    ensures Redis.Get(Exec(events), CodeKey(events[g].email), now).Some? && CountSince(events, g, false) > 0 ==>
      Redis.Get(Exec(events), AttemptsKey(events[g].email), now) == Some(Count(CountSince(events, g, false)))
  {
    ExecGuarded(events, g);
  }

  /** Event `g` issued the code that is current for the identifier, it has time and attempts left and
      was not accepted yet, and the guess is that code. */
  ghost predicate Acceptable(events: seq<Event>, g: nat, at: int, email: string, guess: string) {
    && Current(events, g) && SameLetters(events[g].email, email)
    && guess == events[g].code
    && at < events[g].at + 10 * 60 * 1000
    && CountSince(events, g, true) == 0 && CountSince(events, g, false) < 5
  }

  /** A guess is accepted exactly when it is the code issued last to that identifier, in any case of its
      letters, that code is less than ten minutes old, it was not accepted before and fewer than five
      guesses were compared with it. */
  lemma AcceptedIff(events: seq<Event>, at: int, email: string, guess: string)
    requires Valid(events) && Plain(email)
    ensures VerifyOutcome(Exec(events), at, email, guess).Accepted? <==>
      exists g :: Acceptable(events, g, at, email, guess)
  {
    forall g: nat | Current(events, g) && SameLetters(events[g].email, email)
      ensures VerifyOutcome(Exec(events), at, email, guess).Accepted? <==> Acceptable(events, g, at, email, guess)
    {
      LowerSame(events[g].email, email);
      CurrentDecides(events, g, at, email, guess);
    }
    var issued, g := FindCurrent(events, email);
    if issued {
      LowerSame(events[g].email, email);
    }
  }

  lemma CurrentDecides(events: seq<Event>, g: nat, at: int, email: string, guess: string)
    requires Valid(events) && Current(events, g) && Lower(email) == Lower(events[g].email)
    ensures VerifyOutcome(Exec(events), at, email, guess).Accepted? <==>
      && guess == events[g].code
      && at < events[g].at + 10 * 60 * 1000
      && CountSince(events, g, true) == 0 && CountSince(events, g, false) < 5
  {
    ExecGuarded(events, g);
  }

  /** The event that issued the current code, unless none ever was, and then none is stored. */
  lemma {:induction false} FindCurrent(events: seq<Event>, email: string) returns (issued: bool, g: nat)
    requires Valid(events) && Plain(email)
    ensures issued ==> Current(events, g) && Lower(events[g].email) == Lower(email)
    ensures !issued ==> CodeKey(email) !in Exec(events)
  {
    issued, g := false, 0;
    if events != [] {
      var before, e := events[..|events| - 1], events[|events| - 1];
      if e.Generate? && Lower(e.email) == Lower(email) {
        issued, g := true, |events| - 1;
      } else {
        issued, g := FindCurrent(before, email);
        if issued {
          assert forall i :: 0 <= i < |before| ==> before[i] == events[i];
        } else {
          assert Plain(e.email);
          NothingStored(Exec(before), e, email);
        }
      }
    }
  }

  lemma NothingStored(db: Keyspace, e: Event, email: string)
    requires Plain(e.email) && Plain(email) && CodeKey(email) !in db
    requires e.Generate? ==> Lower(e.email) != Lower(email)
    ensures CodeKey(email) !in Step(db, e)
  {
    KeysApart(email, e.email);
  }

  class OTPService {
    var db: Keyspace

    constructor ()
      ensures db == map[]
    {
      db := map[];
    }

    /** Generate; `code` is the random six-digit number. */
    method Generate(email: string, code: string, now: int)
      modifies this
      ensures db == GenerateStep(old(db), now, email, code)
    {
      db := db[CodeKey(email) := Redis.Entry(Code(code), Some(now + TTL))];
      db := db - {AttemptsKey(email)};
    }

    method Verify(email: string, guess: string, now: int) returns (outcome: Outcome)
      modifies this
      ensures outcome == VerifyOutcome(old(db), now, email, guess)
      ensures db == VerifyStep(old(db), now, email, guess)
    {
      var key, attemptsKey := CodeKey(email), AttemptsKey(email);
      var stored := Redis.Get(db, key, now);
      if stored.None? {
        return Missing;
      }
      if stored.value.Count? {
        return Broken;
      }
      var attempts := NextAttempt(db, now, email);
      if attempts.None? {
        return Broken;
      }
      db := db[attemptsKey := Redis.Entry(Count(attempts.value), Some(now + TTL))];
      if attempts.value > MAX_ATTEMPTS {
        db := db - {key, attemptsKey};
        return TooMany;
      }
      if stored.value.text != guess {
        return Mismatch;
      }
      db := db - {key, attemptsKey};
      outcome := Accepted;
    }
  }
}
