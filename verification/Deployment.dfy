/** One network per deployment: servers stamp their database and their Redis at startup and
    refuse to serve on a foreign stamp. Any number of servers start concurrently, and every
    statement of every server is a step of its own. */
module Deployment {
  import opened Wrappers

  /** A database: whether migrations have created deployment_network, and its one row. */
  datatype Database = Database(migrated: bool, stamp: Option<string>)

  /** How far a server's startup has come, in the order main runs the checks. */
  datatype Phase =
    | LookingForTable | CheckingStamp | Migrating | Stamping | ReadingStamp
    | StampingRedis | ReadingRedis | CheckingRPC | Serving | Refused

  datatype Server = Server(network: string, db: nat, redis: nat, phase: Phase)

  datatype World = World(dbs: map<nat, Database>, redises: map<nat, Option<string>>, servers: map<nat, Server>)

  /** A server starts, takes its next step, or fails on its infrastructure. */
  datatype Event =
    | Start(k: nat, network: string, db: nat, redis: nat)
    | Advance(k: nat, rpcOk: bool)
    | Fail(k: nat)

  function DbOf(w: World, d: nat): Database { if d in w.dbs then w.dbs[d] else Database(false, None) }

  function RedisOf(w: World, r: nat): Option<string> { if r in w.redises then w.redises[r] else None }

  function InPhase(w: World, k: nat, phase: Phase): World
    requires k in w.servers
  {
    w.(servers := w.servers[k := w.servers[k].(phase := phase)])
  }

  /** The first stamp wins: INSERT ... ON CONFLICT DO NOTHING in the database, SETNX in Redis. */
  function Claimed(stamp: Option<string>, network: string): (r: Option<string>)
    ensures r.Some? && (stamp.Some? ==> r == stamp)
  {
    if stamp.None? then Some(network) else stamp
  }

  /** Whether a stamp is no obstacle to serving the network. */
  predicate Open(stamp: Option<string>, network: string) { stamp.Some? ==> stamp.value == network }

  function NextStep(w: World, k: nat, rpcOk: bool): World
    requires k in w.servers
  {
    var s := w.servers[k];
    var db, redis := DbOf(w, s.db), RedisOf(w, s.redis);
    match s.phase
    case LookingForTable => InPhase(w, k, if db.migrated then CheckingStamp else Migrating)
    case CheckingStamp => InPhase(w, k, if Open(db.stamp, s.network) then Migrating else Refused)
    case Migrating => InPhase(w.(dbs := w.dbs[s.db := db.(migrated := true)]), k, Stamping)
    case Stamping =>
      if !db.migrated then InPhase(w, k, Refused)
      else InPhase(w.(dbs := w.dbs[s.db := db.(stamp := Claimed(db.stamp, s.network))]), k, ReadingStamp)
    case ReadingStamp => InPhase(w, k, if db.stamp == Some(s.network) then StampingRedis else Refused)
    case StampingRedis => InPhase(w.(redises := w.redises[s.redis := Claimed(redis, s.network)]), k, ReadingRedis)
    case ReadingRedis => InPhase(w, k, if redis == Some(s.network) then CheckingRPC else Refused)
    case CheckingRPC => InPhase(w, k, if rpcOk then Serving else Refused)
    case Serving => w
    case Refused => w
  }

  function Step(w: World, e: Event): World {
    match e
    case Start(k, network, db, redis) =>
      if k in w.servers then w else w.(servers := w.servers[k := Server(network, db, redis, LookingForTable)])
    case Advance(k, rpcOk) => if k in w.servers then NextStep(w, k, rpcOk) else w
    case Fail(k) => if k in w.servers then InPhase(w, k, Refused) else w
  }

  function Exec(w: World, events: seq<Event>): World {
    if events == [] then w else Step(Exec(w, events[..|events| - 1]), events[|events| - 1])
  }

  const EMPTY := World(map[], map[], map[])

  /** A stamp, once set, never changes: one step. */
  lemma StepKeepsStamps(w: World, e: Event, d: nat)
    ensures DbOf(w, d).stamp.Some? ==> DbOf(Step(w, e), d).stamp == DbOf(w, d).stamp
    ensures RedisOf(w, d).Some? ==> RedisOf(Step(w, e), d) == RedisOf(w, d)
  {
  }

  /** A stamp, once set, never changes: any run of any servers. */
  lemma {:induction false} StampsNeverChange(w: World, events: seq<Event>, d: nat)
    ensures DbOf(w, d).stamp.Some? ==> DbOf(Exec(w, events), d).stamp == DbOf(w, d).stamp
    ensures RedisOf(w, d).Some? ==> RedisOf(Exec(w, events), d) == RedisOf(w, d)
  {
    if events != [] {
      var before := events[..|events| - 1];
      StampsNeverChange(w, before, d);
      StepKeepsStamps(Exec(w, before), events[|events| - 1], d);
    }
  }

  predicate PastDatabase(p: Phase) { p.StampingRedis? || p.ReadingRedis? || p.CheckingRPC? || p.Serving? }

  predicate PastRedis(p: Phase) { p.CheckingRPC? || p.Serving? }

  /** A server past a check has seen its own network stamped there. */
  predicate Vouched(w: World, s: Server) {
    && (PastDatabase(s.phase) ==> DbOf(w, s.db).stamp == Some(s.network))
    && (PastRedis(s.phase) ==> RedisOf(w, s.redis) == Some(s.network))
  }

  /** A server gets past a check only on a stamp that was there before the step. */
  lemma StepChecked(w: World, e: Event, k: nat)
    requires k in w.servers ==> Vouched(w, w.servers[k])
    requires k in Step(w, e).servers
    ensures Vouched(w, Step(w, e).servers[k])
  {
    if k in w.servers && e.Advance? && e.k == k {
      var s, s' := w.servers[k], Step(w, e).servers[k];
      assert PastDatabase(s'.phase) ==> PastDatabase(s.phase) || s.phase.ReadingStamp?;
      assert PastRedis(s'.phase) ==> PastRedis(s.phase) || s.phase.ReadingRedis?;
    }
  }

  lemma StepVouches(w: World, e: Event, k: nat)
    requires k in w.servers ==> Vouched(w, w.servers[k])
    requires k in Step(w, e).servers
    ensures Vouched(Step(w, e), Step(w, e).servers[k])
  {
    StepChecked(w, e, k);
    StaysVouched(w, e, Step(w, e).servers[k]);
  }

  lemma StaysVouched(w: World, e: Event, s: Server)
    requires Vouched(w, s)
    ensures Vouched(Step(w, e), s)
  {
    StepKeepsStamps(w, e, s.db);
    StepKeepsStamps(w, e, s.redis);
  }

  lemma {:induction false} ExecVouches(events: seq<Event>, k: nat)
    requires k in Exec(EMPTY, events).servers
    ensures Vouched(Exec(EMPTY, events), Exec(EMPTY, events).servers[k])
  {
    if events != [] {
      var before := events[..|events| - 1];
      if k in Exec(EMPTY, before).servers {
        ExecVouches(before, k);
      }
      StepVouches(Exec(EMPTY, before), events[|events| - 1], k);
    }
  }

  /** In every interleaving, two servers that reach serving while sharing a database or a Redis
      serve the same network. */
  lemma ServersAgree(events: seq<Event>, a: nat, b: nat)
    requires var w := Exec(EMPTY, events);
             && a in w.servers && b in w.servers
             && w.servers[a].phase.Serving? && w.servers[b].phase.Serving?
             && (w.servers[a].db == w.servers[b].db || w.servers[a].redis == w.servers[b].redis)
    ensures Exec(EMPTY, events).servers[a].network == Exec(EMPTY, events).servers[b].network
  {
    ExecVouches(events, a);
    ExecVouches(events, b);
  }

  // ---- The wrong database is refused before it is written to ------------------------------------

  predicate Harmless(p: Phase) { p.LookingForTable? || p.CheckingStamp? || p.Refused? }

  /** A stamped database has its table. */
  ghost predicate StampsHaveTables(w: World) {
    forall d :: d in w.dbs && w.dbs[d].stamp.Some? ==> w.dbs[d].migrated
  }

  lemma {:induction false} TablesFirst(events: seq<Event>)
    ensures StampsHaveTables(Exec(EMPTY, events))
  {
    if events != [] {
      TablesFirst(events[..|events| - 1]);
    }
  }

  /** Whether server k, if it is a stranger to d's network, has only looked so far. */
  predicate Kept(w: World, k: nat, d: nat, network: string) {
    k in w.servers && w.servers[k].db == d && w.servers[k].network != network ==> Harmless(w.servers[k].phase)
  }

  lemma StepKept(w: World, e: Event, k: nat, d: nat, network: string)
    requires Kept(w, k, d, network)
    requires DbOf(w, d) == Database(true, Some(network))
    ensures Kept(Step(w, e), k, d, network)
  {
  }

  /** A server started on a database already stamped for another network never gets as far as
      migrating or writing it, and never serves; what it does next leaves every store alone. */
  lemma {:induction false} WrongDatabaseUntouched(before: seq<Event>, events: seq<Event>, k: nat, d: nat,
                                                  network: string)
    requires DbOf(Exec(EMPTY, before), d).stamp == Some(network) && k !in Exec(EMPTY, before).servers
    ensures var w := Exec(EMPTY, before + events);
            k in w.servers && w.servers[k].db == d && w.servers[k].network != network ==>
              && !w.servers[k].phase.Serving?
              && forall ok :: NextStep(w, k, ok).dbs == w.dbs && NextStep(w, k, ok).redises == w.redises
  {
    KeptThroughout(before, events, k, d, network);
  }

  lemma {:induction false} KeptThroughout(before: seq<Event>, events: seq<Event>, k: nat, d: nat, network: string)
    requires DbOf(Exec(EMPTY, before), d).stamp == Some(network) && k !in Exec(EMPTY, before).servers
    ensures Kept(Exec(EMPTY, before + events), k, d, network)
    decreases |events|
  {
    if events == [] {
      assert before + events == before;
    } else {
      var past := events[..|events| - 1];
      assert (before + events)[..|before + events| - 1] == before + past;
      KeptThroughout(before, past, k, d, network);
      TablesFirst(before + past);
      ExecAppend(before, past);
      StampsNeverChange(Exec(EMPTY, before), past, d);
      StepKept(Exec(EMPTY, before + past), events[|events| - 1], k, d, network);
    }
  }

  lemma {:induction false} ExecAppend(before: seq<Event>, events: seq<Event>)
    ensures Exec(EMPTY, before + events) == Exec(Exec(EMPTY, before), events)
    decreases |events|
  {
    if events == [] {
      assert before + events == before;
    } else {
      var all := before + events;
      assert all[..|all| - 1] == before + events[..|events| - 1];
      ExecAppend(before, events[..|events| - 1]);
    }
  }

  // ---- What serving takes -----------------------------------------------------------------------

  lemma ExecNext(w: World, events: seq<Event>, n: nat)
    requires n < |events|
    ensures Exec(w, events[..n + 1]) == Step(Exec(w, events[..n]), events[n])
  {
    assert events[..n + 1][..n] == events[..n];
  }

  /** A server that serves has been told by its RPC, in its last step, that the network is its own. */
  lemma {:induction false} ServingWasConfirmed(events: seq<Event>, k: nat, n: nat) returns (i: nat)
    requires n <= |events| && k in Exec(EMPTY, events[..n]).servers
      && Exec(EMPTY, events[..n]).servers[k].phase == Serving
    ensures i < n && events[i] == Advance(k, true)
    ensures k in Exec(EMPTY, events[..i]).servers && Exec(EMPTY, events[..i]).servers[k].phase == CheckingRPC
  {
    assert n > 0 by {
      assert events[..0] == [];
    }
    ExecNext(EMPTY, events, n - 1);
    var before := Exec(EMPTY, events[..n - 1]);
    if k in before.servers && before.servers[k].phase == Serving {
      i := ServingWasConfirmed(events, k, n - 1);
    } else {
      OnlyRPCServes(before, events[n - 1], k);
      i := n - 1;
    }
  }

  lemma OnlyRPCServes(w: World, e: Event, k: nat)
    requires k in Step(w, e).servers && Step(w, e).servers[k].phase == Serving
    requires !(k in w.servers && w.servers[k].phase == Serving)
    ensures e == Advance(k, true) && k in w.servers && w.servers[k].phase == CheckingRPC
  {
  }

  /** One server takes n steps, with an RPC that answers with its network. */
  function Steps(w: World, k: nat, n: nat): World
    requires k in w.servers
    decreases n
  {
    if n == 0 then w else StepKeepsServer(w, k); Steps(NextStep(w, k, true), k, n - 1)
  }

  lemma StepKeepsServer(w: World, k: nat)
    requires k in w.servers
    ensures k in NextStep(w, k, true).servers
  {
  }

  /** The server, its phase, and what its database and its Redis hold. */
  ghost predicate At(w: World, k: nat, s: Server, db: Database, redis: Option<string>) {
    k in w.servers && w.servers[k] == s && DbOf(w, s.db) == db && RedisOf(w, s.redis) == redis
  }

  /** What a server alone does next when nothing stands in its way. */
  lemma OnePhase(w: World, k: nat, s: Server, db: Database, redis: Option<string>)
    requires At(w, k, s, db, redis) && Open(db.stamp, s.network) && Open(redis, s.network)
    ensures var w' := NextStep(w, k, true);
            match s.phase
            case LookingForTable => At(w', k, s.(phase := if db.migrated then CheckingStamp else Migrating), db, redis)
            case CheckingStamp => At(w', k, s.(phase := Migrating), db, redis)
            case Migrating => At(w', k, s.(phase := Stamping), db.(migrated := true), redis)
            case Stamping => db.migrated ==> At(w', k, s.(phase := ReadingStamp), db.(stamp := Some(s.network)), redis)
            case ReadingStamp => db.stamp == Some(s.network) ==> At(w', k, s.(phase := StampingRedis), db, redis)
            case StampingRedis => At(w', k, s.(phase := ReadingRedis), db, Some(s.network))
            case ReadingRedis => redis == Some(s.network) ==> At(w', k, s.(phase := CheckingRPC), db, redis)
            case CheckingRPC => At(w', k, s.(phase := Serving), db, redis)
            case Serving => true
            case Refused => true
  {
  }

  /** From the stamping of the database on. */
  lemma FromStamping(w: World, k: nat, s: Server, db: Database, redis: Option<string>)
    requires At(w, k, s, db, redis) && s.phase == Stamping && db.migrated
    requires Open(db.stamp, s.network) && Open(redis, s.network)
    ensures At(Steps(w, k, 5), k, s.(phase := Serving), Database(true, Some(s.network)), Some(s.network))
  {
    var own, stamped := Some(s.network), Database(true, Some(s.network));
    OnePhase(w, k, s, db, redis);
    var w1 := NextStep(w, k, true);
    OnePhase(w1, k, s.(phase := ReadingStamp), stamped, redis);
    var w2 := NextStep(w1, k, true);
    OnePhase(w2, k, s.(phase := StampingRedis), stamped, redis);
    var w3 := NextStep(w2, k, true);
    OnePhase(w3, k, s.(phase := ReadingRedis), stamped, own);
    var w4 := NextStep(w3, k, true);
    OnePhase(w4, k, s.(phase := CheckingRPC), stamped, own);
    var w5 := NextStep(w4, k, true);
    assert Steps(w4, k, 1) == Steps(w5, k, 0) == w5;
    assert Steps(w3, k, 2) == Steps(w4, k, 1);
    assert Steps(w2, k, 3) == Steps(w3, k, 2);
    assert Steps(w1, k, 4) == Steps(w2, k, 3);
    assert Steps(w, k, 5) == Steps(w1, k, 4);
  }

  /** Startup succeeds: a server whose database and Redis are unstamped or its own, and whose RPC serves
      its network, serves after its eight steps, seven on a database without the table, and has stamped
      both. */
  lemma StartupServes(w: World, k: nat, s: Server, db: Database, redis: Option<string>)
    requires At(w, k, s, db, redis) && s.phase == LookingForTable
    requires Open(db.stamp, s.network) && Open(redis, s.network)
    ensures At(Steps(w, k, if db.migrated then 8 else 7), k, s.(phase := Serving),
               Database(true, Some(s.network)), Some(s.network))
  {
    var migrated := db.(migrated := true);
    OnePhase(w, k, s, db, redis);
    var w1 := NextStep(w, k, true);
    if db.migrated {
      OnePhase(w1, k, s.(phase := CheckingStamp), db, redis);
      var w2 := NextStep(w1, k, true);
      OnePhase(w2, k, s.(phase := Migrating), db, redis);
      var w3 := NextStep(w2, k, true);
      FromStamping(w3, k, s.(phase := Stamping), migrated, redis);
      assert Steps(w2, k, 6) == Steps(w3, k, 5);
      assert Steps(w1, k, 7) == Steps(w2, k, 6);
      assert Steps(w, k, 8) == Steps(w1, k, 7);
    } else {
      OnePhase(w1, k, s.(phase := Migrating), db, redis);
      var w2 := NextStep(w1, k, true);
      FromStamping(w2, k, s.(phase := Stamping), migrated, redis);
      assert Steps(w1, k, 6) == Steps(w2, k, 5);
      assert Steps(w, k, 7) == Steps(w1, k, 6);
    }
  }

  // ---- One server's startup ------------------------------------------------------------------------

  const RPC_ATTEMPTS := 3

  class Infrastructure {
    var db: Database
    var redis: Option<string>

    constructor ()
      ensures db == Database(false, None) && redis == None
    {
      db, redis := Database(false, None), None;
    }

    /** CheckDatabase: false when the database belongs to another network. */
    method CheckDatabase(network: string) returns (ok: bool)
      ensures ok <==> (db.migrated ==> Open(db.stamp, network))
    {
      if !db.migrated {
        return true;
      }
      ok := db.stamp.None? || db.stamp.value == network;
    }

    /** StampDatabase: writes the stamp only if there is none, then reads it back. */
    method StampDatabase(network: string) returns (ok: bool)
      modifies this`db
      ensures !old(db).migrated ==> !ok && db == old(db)
      ensures old(db).migrated ==>
        && db == old(db).(stamp := Claimed(old(db).stamp, network))
        && (ok <==> db.stamp == Some(network))
    {
      if !db.migrated {
        return false;
      }
      if db.stamp.None? {
        db := db.(stamp := Some(network));
      }
      ok := db.stamp == Some(network);
    }

    method StampRedis(network: string) returns (ok: bool)
      modifies this`redis
      ensures redis == Claimed(old(redis), network)
      ensures ok <==> redis == Some(network)
    {
      if redis.None? {
        redis := Some(network);
      }
      ok := redis == Some(network);
    }

    /** CheckRPC: at most three tries, settled by the first answer; None is a failed try, and the
        startup may be cancelled in the pause before a further one. */
    method CheckRPC(answers: nat -> Option<string>, cancelled: nat -> bool, want: string) returns (ok: bool)
      ensures ok <==> exists i :: 0 <= i < 3 && answers(i) == Some(want)
                                  && (forall j :: 0 <= j < i ==> answers(j) == None)
                                  && (forall j :: 0 < j <= i ==> !cancelled(j))
    {
      for attempt := 0 to RPC_ATTEMPTS
        invariant forall j :: 0 <= j < attempt ==> answers(j) == None
        invariant forall j :: 0 < j < attempt ==> !cancelled(j)
      {
        if attempt > 0 && cancelled(attempt) {
          return false;
        }
        if answers(attempt).Some? {
          return answers(attempt).value == want;
        }
      }
      ok := false;
    }

    /** The checks of main up to serving, undisturbed by other servers. It serves exactly when
        every stamp is absent or its own and the RPC agrees; a foreign database is left as it was. */
    method Startup(network: string, rpcOk: bool) returns (serving: bool)
      requires db.stamp.Some? ==> db.migrated
      modifies this
      ensures serving <==> Open(old(db).stamp, network) && Open(old(redis), network) && rpcOk
      ensures serving ==> db == Database(true, Some(network)) && redis == Some(network)
      ensures !Open(old(db).stamp, network) ==> db == old(db) && redis == old(redis)
    {
      serving := CheckDatabase(network);
      if !serving {
        return;
      }
      db := db.(migrated := true);
      serving := StampDatabase(network);
      if !serving {
        return;
      }
      serving := StampRedis(network);
      if !serving {
        return;
      }
      serving := rpcOk;
    }
  }
}
