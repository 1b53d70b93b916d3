/** The cosign queue and its sweeper. Every service call reads a row and then issues one
    guarded statement; reads, statements and sweeps of all callers interleave. */
module Cosign {
  import opened Wrappers
  import opened Sets
  import Redis

  const REQUEST_TTL := 23 * Redis.HOUR

  datatype Status = Pending | Submitted | Cancelled

  datatype Input = Input(queueIndex: string, unsignedTx: string, network: string, threshold: int)

  datatype Request = Request(input: Input, status: Status, txHash: Option<string>, expiresAt: int, createdAt: int)

  datatype Signature = Signature(authEntry: string, createdAt: int)

  /** cosign_requests, and cosign_signatures keyed by its unique (request_id, blind_signer_id). */
  datatype Tables = Tables(requests: map<string, Request>, signatures: map<(string, string), Signature>)

  // ---- The statements ------------------------------------------------------------------------

  /** The primary key refuses an id already stored. */
  function InsertRequest(t: Tables, id: string, input: Input, expiresAt: int, now: int): Tables {
    if id in t.requests then t
    else t.(requests := t.requests[id := Request(input, Pending, None, expiresAt, now)])
  }

  /** ON CONFLICT DO NOTHING; the foreign key refuses a request that is gone. */
  function InsertSignature(t: Tables, id: string, signer: string, authEntry: string, now: int): Tables {
    if id !in t.requests || (id, signer) in t.signatures then t
    else t.(signatures := t.signatures[(id, signer) := Signature(authEntry, now)])
  }

  /** UPDATE ... WHERE id = $1 AND status = 'pending'. */
  function Settle(t: Tables, id: string, status: Status, txHash: Option<string>): Tables {
    if id in t.requests && t.requests[id].status.Pending? then
      t.(requests := t.requests[id := t.requests[id].(status := status, txHash := txHash)])
    else t
  }

  /** DELETE ... WHERE expires_at < before, cascading to signatures. */
  function DeleteExpired(t: Tables, before: int): Tables {
    Tables(map id | id in t.requests && before <= t.requests[id].expiresAt :: t.requests[id],
           map key | key in t.signatures && key.0 in t.requests && before <= t.requests[key.0].expiresAt ::
               t.signatures[key])
  }

  // ---- Runs ---------------------------------------------------------------------------------------

  /** What a caller does after its read. */
  datatype Op =
    | AddSignature(id: string, signer: string, authEntry: string)
    | MarkSubmitted(id: string, hash: string)
    | Cancel(id: string)

  datatype Event =
    | Create(id: string, input: Input, appNow: int, dbNow: int)
    | Read(k: nat, op: Op)
    | Write(k: nat, now: int)
    | Sweep(now: int, retention: int)

  datatype State = State(t: Tables, callers: map<nat, Op>)

  const INITIAL := State(Tables(map[], map[]), map[])

  /** getByID, and the status check AddSignature makes on what it read. */
  predicate MayWrite(t: Tables, op: Op) {
    op.id in t.requests && (op.AddSignature? ==> t.requests[op.id].status.Pending?)
  }

  function Statement(t: Tables, op: Op, now: int): Tables {
    match op
    case AddSignature(id, signer, authEntry) => InsertSignature(t, id, signer, authEntry, now)
    case MarkSubmitted(id, hash) => Settle(t, id, Submitted, if hash == "" then None else Some(hash))
    case Cancel(id) => Settle(t, id, Cancelled, if id in t.requests then t.requests[id].txHash else None)
  }

  function Step(s: State, e: Event): State {
    match e
    case Create(id, input, appNow, dbNow) => s.(t := InsertRequest(s.t, id, input, appNow + REQUEST_TTL, dbNow))
    case Read(k, op) => if MayWrite(s.t, op) then s.(callers := s.callers[k := op]) else s.(callers := s.callers - {k})
    case Write(k, now) =>
      if k in s.callers then State(Statement(s.t, s.callers[k], now), s.callers - {k}) else s
    case Sweep(now, retention) => s.(t := DeleteExpired(s.t, now - retention))
  }

  function Exec(events: seq<Event>): State {
    if events == [] then INITIAL else Step(Exec(events[..|events| - 1]), events[|events| - 1])
  }

  /** Request ids are fresh, and a request is stamped no later than it is stored. */
  ghost predicate Valid(events: seq<Event>) {
    && (forall i, j :: 0 <= i < j < |events| && events[i].Create? && events[j].Create? ==> events[i].id != events[j].id)
    && (forall i :: 0 <= i < |events| && events[i].Create? ==> events[i].appNow <= events[i].dbNow)
  }

  function RequestsAfter(events: seq<Event>): map<string, Request> { Exec(events).t.requests }

  function SignaturesAfter(events: seq<Event>): map<(string, string), Signature> { Exec(events).t.signatures }

  lemma {:induction false} StoredWasCreated(events: seq<Event>, id: string) returns (i: nat)
    requires id in RequestsAfter(events)
    ensures i < |events| && events[i].Create? && events[i].id == id
  {
    var n := |events| - 1;
    if events[n].Create? && events[n].id == id {
      i := n;
    } else {
      i := StoredWasCreated(events[..n], id);
    }
  }

  /** A stored id is never created again, so a request that is gone stays gone. */
  lemma NotRecreated(events: seq<Event>, n: nat, id: string, j: nat)
    requires Valid(events) && n <= j < |events| && id in RequestsAfter(events[..n])
    ensures events[j].Create? ==> events[j].id != id
  {
    var i := StoredWasCreated(events[..n], id);
    assert events[..n][i] == events[i];
  }

  lemma ValidPrefix(events: seq<Event>, n: nat)
    requires Valid(events) && n <= |events|
    ensures Valid(events[..n])
  {
  }

  // ---- Once out of pending, never again ----------------------------------------------------------

  lemma {:induction false} SettledForever(events: seq<Event>, n: nat, id: string)
    requires Valid(events) && n <= |events|
    requires id in RequestsAfter(events[..n]) && !RequestsAfter(events[..n])[id].status.Pending?
    ensures id in RequestsAfter(events) ==> RequestsAfter(events)[id] == RequestsAfter(events[..n])[id]
    decreases |events|
  {
    if n == |events| {
      assert events[..n] == events;
    } else {
      var before := events[..|events| - 1];
      assert before[..n] == events[..n];
      ValidPrefix(events, |before|);
      SettledForever(before, n, id);
      NotRecreated(events, n, id, |before|);
    }
  }

  /** Event `i` takes request `id` out of pending. */
  ghost predicate Leaves(events: seq<Event>, i: nat, id: string) {
    && i < |events|
    && id in RequestsAfter(events[..i]) && RequestsAfter(events[..i])[id].status.Pending?
    && id in RequestsAfter(events[..i + 1]) && !RequestsAfter(events[..i + 1])[id].status.Pending?
  }

  /** Under every interleaving, a request leaves pending at most once. */
  lemma LeavesPendingOnce(events: seq<Event>, i: nat, j: nat, id: string)
    requires Valid(events) && Leaves(events, i, id) && Leaves(events, j, id)
    ensures i == j
  {
    var first, last := if i < j then i else j, if i < j then j else i;
    if first < last {
      assert events[..last][..first + 1] == events[..first + 1];
      ValidPrefix(events, last);
      SettledForever(events[..last], first + 1, id);
    }
  }

  /** A recorded submission hash never changes while the request exists. */
  lemma HashNeverChanges(events: seq<Event>, n: nat, id: string)
    requires Valid(events) && n <= |events|
    requires id in RequestsAfter(events[..n]) && RequestsAfter(events[..n])[id].txHash.Some?
    ensures id in RequestsAfter(events) ==>
      && RequestsAfter(events)[id].status.Submitted?
      && RequestsAfter(events)[id].txHash == RequestsAfter(events[..n])[id].txHash
  {
    HashMeansSubmitted(events[..n], id);
    SettledForever(events, n, id);
  }

  lemma {:induction false} HashMeansSubmitted(events: seq<Event>, id: string)
    requires id in RequestsAfter(events)
    ensures RequestsAfter(events)[id].txHash.Some? ==> RequestsAfter(events)[id].status.Submitted?
  {
    var before, e := events[..|events| - 1], events[|events| - 1];
    if id in RequestsAfter(before) {
      HashMeansSubmitted(before, id);
    }
  }

  // ---- Signatures ----------------------------------------------------------------------------------

  /** No signature outlives its request. */
  lemma {:induction false} NoOrphans(events: seq<Event>, key: (string, string))
    requires key in SignaturesAfter(events)
    ensures key.0 in RequestsAfter(events)
  {
    var before := events[..|events| - 1];
    if key in SignaturesAfter(before) {
      NoOrphans(before, key);
    }
  }

  /** A (request, signer) pair keeps its first auth entry for as long as it is stored. */
  lemma {:induction false} FirstEntryKept(events: seq<Event>, n: nat, key: (string, string))
    requires Valid(events) && n <= |events| && key in SignaturesAfter(events[..n])
    ensures key in SignaturesAfter(events) ==> SignaturesAfter(events)[key] == SignaturesAfter(events[..n])[key]
    ensures key in SignaturesAfter(events) <==> key.0 in RequestsAfter(events)
    decreases |events|
  {
    NoOrphans(events[..n], key);
    if n == |events| {
      assert events[..n] == events;
    } else {
      var before := events[..|events| - 1];
      assert before[..n] == events[..n];
      ValidPrefix(events, |before|);
      FirstEntryKept(before, n, key);
      NotRecreated(events, n, key.0, |before|);
    }
  }

  // ---- What each call does ---------------------------------------------------------------------

  lemma ExecNext(events: seq<Event>, n: nat)
    requires n < |events|
    ensures Exec(events[..n + 1]) == Step(Exec(events[..n]), events[n])
  {
    assert events[..n + 1][..n] == events[..n];
  }

  /** A caller that has read stays as it is until its next event. */
  lemma {:induction false} CallerStays(events: seq<Event>, k: nat, m: nat, n: nat)
    requires m <= n <= |events|
    requires forall j :: m <= j < n ==>
      !(events[j].Read? && events[j].k == k) && !(events[j].Write? && events[j].k == k)
    ensures k in Exec(events[..n]).callers <==> k in Exec(events[..m]).callers
    ensures k in Exec(events[..m]).callers ==> Exec(events[..n]).callers[k] == Exec(events[..m]).callers[k]
  {
    if m < n {
      CallerStays(events, k, m, n - 1);
      ExecNext(events, n - 1);
    }
  }

  /** Events `r` and `w` are the read and the write of one call. */
  ghost predicate CallOf(events: seq<Event>, r: nat, w: nat, op: Op, now: int) {
    && r < w < |events| && events[r].Read? && events[r].op == op && events[w] == Write(events[r].k, now)
    && forall j :: r < j < w ==>
         !(events[j].Read? && events[j].k == events[r].k) && !(events[j].Write? && events[j].k == events[r].k)
  }

  /** The read found the request, pending if it is to be signed. */
  ghost predicate ReadFinds(events: seq<Event>, r: nat, op: Op)
    requires r < |events|
  {
    && op.id in RequestsAfter(events[..r])
    && (op.AddSignature? ==> RequestsAfter(events[..r])[op.id].status == Pending)
  }

  /** The caller comes to its write with the call it read for, if the read let it. */
  lemma CallerAtWrite(events: seq<Event>, r: nat, w: nat, op: Op, now: int)
    requires CallOf(events, r, w, op, now)
    ensures events[r].k in Exec(events[..w]).callers <==> ReadFinds(events, r, op)
    ensures ReadFinds(events, r, op) ==> Exec(events[..w]).callers[events[r].k] == op
  {
    ExecNext(events, r);
    CallerStays(events, events[r].k, r + 1, w);
  }

  /** Marking as submitted: a request still pending at the write becomes submitted, with the hash given,
      none if it is empty. Nothing else changes, and otherwise nothing changes. */
  lemma SubmitEffect(events: seq<Event>, r: nat, w: nat, id: string, hash: string, now: int)
    requires CallOf(events, r, w, MarkSubmitted(id, hash), now)
    ensures SignaturesAfter(events[..w + 1]) == SignaturesAfter(events[..w])
    ensures RequestsAfter(events[..w + 1]) ==
      var rows := RequestsAfter(events[..w]);
      if ReadFinds(events, r, MarkSubmitted(id, hash)) && id in rows && rows[id].status == Pending then
        rows[id := rows[id].(status := Submitted, txHash := if |hash| == 0 then None else Some(hash))]
      else rows
  {
    CallerAtWrite(events, r, w, MarkSubmitted(id, hash), now);
    ExecNext(events, w);
  }

  /** Cancelling: a request still pending at the write becomes cancelled, and has no hash. */
  lemma CancelEffect(events: seq<Event>, r: nat, w: nat, id: string, now: int)
    requires CallOf(events, r, w, Cancel(id), now)
    ensures SignaturesAfter(events[..w + 1]) == SignaturesAfter(events[..w])
    ensures RequestsAfter(events[..w + 1]) ==
      var rows := RequestsAfter(events[..w]);
      if ReadFinds(events, r, Cancel(id)) && id in rows && rows[id].status == Pending then
        rows[id := rows[id].(status := Cancelled, txHash := None)]
      else rows
  {
    CallerAtWrite(events, r, w, Cancel(id), now);
    ExecNext(events, w);
    if id in RequestsAfter(events[..w]) {
      HashMeansSubmitted(events[..w], id);
    }
  }

  /** Signing: the first entry of a signer is stored, as given, if the request was pending when read
      and is still there at the write, whatever became of it meanwhile. */
  lemma SignEffect(events: seq<Event>, r: nat, w: nat, id: string, signer: string, entry: string, now: int)
    requires CallOf(events, r, w, AddSignature(id, signer, entry), now)
    ensures RequestsAfter(events[..w + 1]) == RequestsAfter(events[..w])
    ensures SignaturesAfter(events[..w + 1]) ==
      var rows := SignaturesAfter(events[..w]);
      if ReadFinds(events, r, AddSignature(id, signer, entry)) && id in RequestsAfter(events[..w])
          && (id, signer) !in rows then
        rows[(id, signer) := Signature(entry, now)]
      else rows
  {
    CallerAtWrite(events, r, w, AddSignature(id, signer, entry), now);
    ExecNext(events, w);
  }

  /** A request leaves pending only by the write of a caller that is marking it as submitted or
      cancelling it, and is left as that caller asked. */
  lemma LeavesHow(events: seq<Event>, i: nat, id: string)
    requires Leaves(events, i, id)
    ensures events[i].Write? && events[i].k in Exec(events[..i]).callers
    ensures var op, row := Exec(events[..i]).callers[events[i].k], RequestsAfter(events[..i + 1])[id];
            && op.id == id
            && match op
               case MarkSubmitted(_, hash) =>
                 row.status == Submitted && row.txHash == if |hash| == 0 then None else Some(hash)
               case Cancel(_) => row.status == Cancelled && row.txHash == None
               case AddSignature(_, _, _) => false
  {
    ExecNext(events, i);
    HashMeansSubmitted(events[..i], id);
  }

  /** A request is listed in its queue, and nowhere else, from its creation for 23 hours. */
  lemma CreateIsListed(events: seq<Event>, id: string, input: Input, appNow: int, dbNow: int, queueIndex: string,
                       now: int)
    requires id !in RequestsAfter(events)
    ensures var after := events + [Create(id, input, appNow, dbNow)];
            && id in RequestsAfter(after)
            && RequestsAfter(after)[id].input == input && RequestsAfter(after)[id].createdAt == dbNow
            && (id in Listed(Exec(after).t, queueIndex, now) <==>
                  queueIndex == input.queueIndex && now < appNow + 23 * 60 * 60 * 1000)
            && forall other :: other != id ==>
                 (other in RequestsAfter(after) <==> other in RequestsAfter(events))
                 && (other in RequestsAfter(events) ==> RequestsAfter(after)[other] == RequestsAfter(events)[other])
  {
    assert (events + [Create(id, input, appNow, dbNow)])[..|events|] == events;
  }

  /** A listing shows a request exactly while it is stored, pending and not yet expired. */
  lemma ListedIff(events: seq<Event>, id: string, queueIndex: string, now: int)
    ensures id in Listed(Exec(events).t, queueIndex, now) <==>
      && id in RequestsAfter(events) && RequestsAfter(events)[id].input.queueIndex == queueIndex
      && RequestsAfter(events)[id].status == Pending && now < RequestsAfter(events)[id].expiresAt
  {
  }

  // ---- The sweeper ------------------------------------------------------------------------------------

  /** The ids ListPendingCosignRequests returns. */
  ghost function Listed(t: Tables, queueIndex: string, now: int): set<string> {
    set id | id in t.requests && t.requests[id].input.queueIndex == queueIndex
             && t.requests[id].status.Pending? && now < t.requests[id].expiresAt
  }

  /** A sweep takes exactly the requests that expired longer ago than the retention, and their
      signatures, and alters none. */
  lemma SweepTakes(events: seq<Event>, now: int, retention: int, id: string, signer: string)
    ensures var after := events + [Sweep(now, retention)];
            && (id in RequestsAfter(after) <==>
                  id in RequestsAfter(events) && now - RequestsAfter(events)[id].expiresAt <= retention)
            && (id in RequestsAfter(after) ==> RequestsAfter(after)[id] == RequestsAfter(events)[id])
            && ((id, signer) in SignaturesAfter(after) <==>
                  (id, signer) in SignaturesAfter(events) && id in RequestsAfter(after))
            && ((id, signer) in SignaturesAfter(after) ==>
                  SignaturesAfter(after)[(id, signer)] == SignaturesAfter(events)[(id, signer)])
  {
    assert (events + [Sweep(now, retention)])[..|events|] == events;
  }

  /** A sweep never removes, or alters, a request a listing at that moment or later would return. */
  lemma SweepSparesListed(s: State, sweepAt: int, retention: int, queueIndex: string, now: int)
    requires 0 <= retention && sweepAt <= now
    ensures var s' := Step(s, Sweep(sweepAt, retention));
            && Listed(s'.t, queueIndex, now) == Listed(s.t, queueIndex, now)
            && forall id :: id in Listed(s.t, queueIndex, now) ==> s'.t.requests[id] == s.t.requests[id]
  {
    var s' := Step(s, Sweep(sweepAt, retention));
    assert forall id :: id in s.t.requests && now < s.t.requests[id].expiresAt ==> id in s'.t.requests;
  }

  /** A sweep at this moment leaves the listing as it is. */
  ghost predicate Spares(s: State, queueIndex: string, now: int, retention: int) {
    Listed(Step(s, Sweep(now, retention)).t, queueIndex, now) == Listed(s.t, queueIndex, now)
  }

  /** A millisecond before the only request of a run expires, a sweep with a negative retention
      takes it off the list. */
  lemma NegativeRetentionTakesListed(id: string, input: Input, hours: int)
    requires hours < 0
    ensures Valid([Create(id, input, 0, 0)])
    ensures !Spares(Exec([Create(id, input, 0, 0)]), input.queueIndex, REQUEST_TTL - 1, hours * Redis.HOUR)
  {
    var run, now := [Create(id, input, 0, 0)], REQUEST_TTL - 1;
    assert run[..0] == [];
    assert Exec(run) == Step(Exec([]), run[0]);
    assert id in Listed(Exec(run).t, input.queueIndex, now);
    assert id !in Step(Exec(run), Sweep(now, hours * Redis.HOUR)).t.requests;
  }

  /** For a retention configured in whole hours, sweeps spare what is listed at every point of every
      run if and only if the retention is not negative. */
  lemma SparesIffRetentionNotNegative(hours: int)
    ensures (forall events, q, now :: Valid(events) ==> Spares(Exec(events), q, now, hours * Redis.HOUR)) <==>
      0 <= hours
  {
    if 0 <= hours {
      forall events, q, now | Valid(events) ensures Spares(Exec(events), q, now, hours * Redis.HOUR) {
        SweepSparesListed(Exec(events), now, hours * Redis.HOUR, q, now);
      }
    } else {
      NegativeRetentionTakesListed("r", Input("q", "tx", "testnet", 1), hours);
    }
  }

  lemma {:induction false} ExpiryWithinTTL(events: seq<Event>, id: string)
    requires Valid(events) && id in RequestsAfter(events)
    ensures RequestsAfter(events)[id].expiresAt <= RequestsAfter(events)[id].createdAt + REQUEST_TTL
  {
    var before, e := events[..|events| - 1], events[|events| - 1];
    ValidPrefix(events, |before|);
    if id in RequestsAfter(before) {
      ExpiryWithinTTL(before, id);
    }
  }

  function CreatesSince(events: seq<Event>, cutoff: int): nat {
    if events == [] then 0
    else
      var e := events[|events| - 1];
      CreatesSince(events[..|events| - 1], cutoff) + (if e.Create? && cutoff <= e.dbNow then 1 else 0)
  }

  ghost function StoredSince(events: seq<Event>, cutoff: int): set<string> {
    set id | id in RequestsAfter(events) && cutoff <= RequestsAfter(events)[id].createdAt
  }

  lemma StoredGrowth(events: seq<Event>, e: Event, cutoff: int)
    ensures StoredSince(events + [e], cutoff) <=
              StoredSince(events, cutoff) + (if e.Create? && cutoff <= e.dbNow then {e.id} else {})
  {
    assert (events + [e])[..|events|] == events;
    forall id | id in StoredSince(events + [e], cutoff)
      ensures id in StoredSince(events, cutoff) + (if e.Create? && cutoff <= e.dbNow then {e.id} else {})
    {
    }
  }

  lemma {:induction false} StoredAreRecentCreates(events: seq<Event>, cutoff: int)
    ensures |StoredSince(events, cutoff)| <= CreatesSince(events, cutoff)
  {
    if events == [] {
      assert StoredSince(events, cutoff) == {};
    } else {
      var before, e := events[..|events| - 1], events[|events| - 1];
      StoredAreRecentCreates(before, cutoff);
      StoredGrowth(before, e, cutoff);
      assert before + [e] == events;
      var extra := if e.Create? && cutoff <= e.dbNow then {e.id} else {};
      SubsetSize(StoredSince(events, cutoff), StoredSince(before, cutoff) + extra);
    }
  }

  /** After a sweep every survivor was created at most retention plus 23 hours ago, so the table
      is no larger than the number of recent creates. */
  lemma SweepBoundsTable(events: seq<Event>, now: int, retention: int)
    requires Valid(events)
    ensures var after, cutoff := events + [Sweep(now, retention)], now - retention - 23 * Redis.HOUR;
            && (forall id :: id in RequestsAfter(after) ==> cutoff <= RequestsAfter(after)[id].createdAt)
            && |RequestsAfter(after)| <= CreatesSince(events, cutoff)
  {
    var after, cutoff := events + [Sweep(now, retention)], now - retention - REQUEST_TTL;
    assert after[..|events|] == events;
    forall id | id in RequestsAfter(after)
      ensures cutoff <= RequestsAfter(after)[id].createdAt
    {
      ExpiryWithinTTL(events, id);
    }
    StoredAreRecentCreates(after, cutoff);
    assert StoredSince(after, cutoff) == RequestsAfter(after).Keys;
  }

  // ---- The service over its tables --------------------------------------------------------------------

  datatype SignatureRow = SignatureRow(signer: string, signature: Signature)

  datatype View = View(id: string, request: Request, signatures: seq<SignatureRow>, signatureCount: nat)

  /** A result of ListCosignSignatures: the request's signatures, each once, oldest first. */
  ghost predicate SignatureList(t: Tables, id: string, rows: seq<SignatureRow>) {
    && (forall i :: 0 <= i < |rows| ==>
       (id, rows[i].signer) in t.signatures && t.signatures[(id, rows[i].signer)] == rows[i].signature)
    && (forall s :: (id, s) in t.signatures ==> exists i :: 0 <= i < |rows| && rows[i].signer == s)
    && (forall i, j :: 0 <= i < j < |rows| ==> rows[i].signer != rows[j].signer)
    && (forall i, j :: 0 <= i < j < |rows| ==> rows[i].signature.createdAt <= rows[j].signature.createdAt)
  }

  ghost function SignersIn(rows: seq<SignatureRow>): set<string> {
    set i | 0 <= i < |rows| :: rows[i].signer
  }

  lemma {:induction false} DistinctSigners(rows: seq<SignatureRow>)
    requires forall i, j :: 0 <= i < j < |rows| ==> rows[i].signer != rows[j].signer
    ensures |SignersIn(rows)| == |rows|
  {
    if rows == [] {
      assert SignersIn(rows) == {};
    } else {
      var before, last := rows[..|rows| - 1], rows[|rows| - 1].signer;
      DistinctSigners(before);
      assert SignersIn(rows) == SignersIn(before) + {last};
      assert last !in SignersIn(before);
    }
  }

  ghost function Signers(t: Tables, id: string): set<string> {
    set key | key in t.signatures && key.0 == id :: key.1
  }

  lemma ListedSigners(t: Tables, id: string, rows: seq<SignatureRow>)
    requires SignatureList(t, id, rows)
    ensures SignersIn(rows) == Signers(t, id)
  {
    forall s | s in Signers(t, id) ensures s in SignersIn(rows) {
      assert (id, s) in t.signatures;
    }
  }

  lemma SignerCount(t: Tables, id: string, rows: seq<SignatureRow>)
    requires SignatureList(t, id, rows)
    ensures |rows| == |Signers(t, id)|
  {
    DistinctSigners(rows);
    ListedSigners(t, id, rows);
  }

  /** assemble: the count is the number of distinct signers, and every auth entry is the stored one. */
  method Assemble(ghost t: Tables, id: string, request: Request, rows: seq<SignatureRow>) returns (view: View)
    requires SignatureList(t, id, rows)
    ensures view.id == id && view.request == request
    ensures view.signatureCount == |Signers(t, id)| == |view.signatures|
    ensures SignatureList(t, id, view.signatures)
  {
    var out := [];
    for n := 0 to |rows|
      invariant out == rows[..n]
    {
      out := out + [rows[n]];
    }
    assert out == rows;
    SignerCount(t, id, rows);
    view := View(id, request, out, |rows|);
  }

  datatype CosignError = NotFound | NotPending

  /** The requests a sweep leaves, and how many it takes. */
  method Unexpired(requests: map<string, Request>, before: int) returns (kept: map<string, Request>, removed: nat)
    ensures kept == map id | id in requests && before <= requests[id].expiresAt :: requests[id]
    ensures removed + |kept| == |requests|
  {
    var todo := requests.Keys;
    kept, removed := map[], 0;
    while todo != {}
      invariant todo <= requests.Keys
      invariant kept == map id | id in requests && id !in todo && before <= requests[id].expiresAt :: requests[id]
      invariant removed + |kept| + |todo| == |requests|
      decreases todo
    {
      var id :| id in todo;
      if requests[id].expiresAt < before {
        removed := removed + 1;
      } else {
        kept := kept[id := requests[id]];
      }
      todo := todo - {id};
    }
  }

  class CosignService {
    var t: Tables

    constructor ()
      ensures t == Tables(map[], map[])
    {
      t := Tables(map[], map[]);
    }

    method Create(id: string, input: Input, appNow: int, dbNow: int) returns (ok: bool)
      modifies this
      ensures ok <==> id !in old(t).requests
      ensures t == InsertRequest(old(t), id, input, appNow + REQUEST_TTL, dbNow)
    {
      if id in t.requests {
        return false;
      }
      ok := true;
      t := t.(requests := t.requests[id := Request(input, Pending, None, appNow + REQUEST_TTL, dbNow)]);
    }

    /** AddSignature, MarkSubmitted or Cancel with nothing in between: the read, then the statement. */
    method Perform(op: Op, now: int) returns (error: Option<CosignError>)
      modifies this
      ensures t == Alone(old(t), op, now)
      ensures error == if op.id !in old(t).requests then Some(NotFound)
                       else if op.AddSignature? && !old(t).requests[op.id].status.Pending? then Some(NotPending)
                       else None
    {
      if op.id !in t.requests {
        return Some(NotFound);
      }
      var row := t.requests[op.id];
      error := None;
      match op
      case AddSignature(id, signer, authEntry) =>
        if !row.status.Pending? {
          return Some(NotPending);
        }
        if (id, signer) !in t.signatures {
          t := t.(signatures := t.signatures[(id, signer) := Signature(authEntry, now)]);
        }
      case MarkSubmitted(id, hash) =>
        if row.status.Pending? {
          var recorded := if hash == "" then None else Some(hash);
          t := t.(requests := t.requests[id := row.(status := Submitted, txHash := recorded)]);
        }
      case Cancel(id) =>
        if row.status.Pending? {
          t := t.(requests := t.requests[id := row.(status := Cancelled)]);
        }
    }

    /** The cosign pass of CleanupService.Run; returns the number of requests removed. */
    method Sweep(now: int, retention: int) returns (removed: nat)
      modifies this
      ensures t == DeleteExpired(old(t), now - retention)
      ensures removed + |t.requests| == |old(t).requests|
    {
      var kept;
      kept, removed := Unexpired(t.requests, now - retention);
      t := Tables(kept, map key | key in t.signatures && key.0 in kept :: t.signatures[key]);
    }
  }

  /** One caller alone: its read event followed by its write event. */
  function Alone(t: Tables, op: Op, now: int): Tables {
    Step(Step(State(t, map[]), Read(0, op)), Write(0, now)).t
  }
}
