/** LookupUSD: identity-aware prices behind a positive and negative cache. */
module PriceLookup {
  import opened Wrappers
  import opened Strkey
  import opened Assets
  import opened Provider
  import Redis

  const CACHE_TTL := 60 * Redis.SECOND

  /** Library code the service leans on: strkeys, the derivation of a Stellar Asset
      Contract address, and "parses to a finite positive float64". */
  datatype Library = Library(codec: Codec, derive: AssetIdentity -> Option<string>, ok: string -> bool)

  datatype ContractReply = Error | NotFound | Descriptor(text: string)

  /** What the provider answers during one lookup. */
  datatype World = World(contractReply: string -> ContractReply, priceReply: Reply)

  datatype Resolution = Resolved(underlying: AssetIdentity) | Unsupported | Unresolved

  datatype PriceData = PriceData(price: string, change24h: Option<real>)

  /** A cached value, after JSON decoding. */
  datatype CacheValue = Undecodable | Decoded(found: bool, data: Option<PriceData>)

  type Cache = map<string, Redis.Entry<CacheValue>>

  // ---- Verdicts -------------------------------------------------------------------

  /** The asset the provider's description of a contract names, if it gives one that can be read. */
  function DescribedAs(lib: Library, world: World, contractId: string): Option<AssetIdentity> {
    var reply := world.contractReply(contractId);
    if reply.Descriptor? then ParseDescriptor(lib.codec, reply.text) else None
  }

  /** resolveSACIdentity: provider metadata counts only if the asset's derived contract
      address is the contract asked about. */
  function ResolveSAC(lib: Library, world: World, contractId: string): (r: Resolution)
    ensures r.Resolved? ==> IsCanonical(lib.codec, r.underlying) && r.underlying.kind != CONTRACT
    ensures forall a :: r == Resolved(a) <==>
      DescribedAs(lib, world, contractId) == Some(a) && lib.derive(a) == Some(contractId)
    ensures r == Unresolved <==>
      || world.contractReply(contractId) == Error
      || (DescribedAs(lib, world, contractId).Some? && lib.derive(DescribedAs(lib, world, contractId).value).None?)
  {
    match world.contractReply(contractId)
    case Error => Unresolved
    case NotFound => Unsupported
    case Descriptor(text) =>
      match ParseDescriptor(lib.codec, text)
      case None => Unsupported
      case Some(asset) =>
        match lib.derive(asset)
        case None => Unresolved
        case Some(id) => if id == contractId then Resolved(asset) else Unsupported
  }

  /** The price verdict on a native or classic asset. */
  ghost function PriceVerdict(lib: Library, world: World, a: AssetIdentity): Verdict {
    if world.priceReply.Failed? || ProviderID(a).None? then Uncertain
    else VerdictOf(lib.ok, world.priceReply.records, ProviderID(a).value)
  }

  /** The asset whose price stands for `a`: itself, or what its contract resolves to. */
  ghost function Underlying(lib: Library, world: World, a: AssetIdentity): Option<AssetIdentity> {
    if a.kind != CONTRACT then Some(a)
    else
      var r := ResolveSAC(lib, world, a.contractId);
      if r.Resolved? then Some(r.underlying) else None
  }

  /** The verdict on any asset with no cache in the way. */
  ghost function AssetVerdict(lib: Library, world: World, a: AssetIdentity): Verdict {
    if a.kind != CONTRACT then PriceVerdict(lib, world, a)
    else
      match ResolveSAC(lib, world, a.contractId)
      case Unresolved => Uncertain
      case Unsupported => Absent
      case Resolved(underlying) => PriceVerdict(lib, world, underlying)
  }

  function AnswerFor(v: Verdict): Option<PriceData> {
    if v.Priced? then Some(PriceData(v.text, None)) else None
  }

  function EntryFor(v: Verdict): CacheValue {
    Decoded(v.Priced?, AnswerFor(v))
  }

  /** validStellarPriceCacheEntry. */
  predicate ValidEntry(ok: string -> bool, v: CacheValue) {
    && v.Decoded?
    && if !v.found then v.data.None?
       else v.data.Some? && v.data.value.change24h.None? && ok(v.data.value.price)
  }

  /** The entries that are used: "no price", and a good price without a 24 h change. */
  lemma ValidEntryIff(ok: string -> bool, v: CacheValue)
    ensures ValidEntry(ok, v) <==>
      v == Decoded(false, None) || exists p :: v == Decoded(true, Some(PriceData(p, None))) && ok(p)
  {
    if ValidEntry(ok, v) && v.found {
      assert v == Decoded(true, Some(PriceData(v.data.value.price, None)));
    }
  }

  /** The verdict on a contract, from the provider's description of it and the address derived from
      that: no answer, or no derivation, leaves it open; no description, an unreadable one, or one of
      another contract's asset settles that it has no price; otherwise its asset's verdict is its own. */
  lemma ContractVerdict(lib: Library, world: World, a: AssetIdentity)
    requires a.kind == "contract"
    ensures var reply := world.contractReply(a.contractId);
            && (reply == Error ==> AssetVerdict(lib, world, a) == Uncertain)
            && (reply == NotFound ==> AssetVerdict(lib, world, a) == Absent)
            && (reply.Descriptor? && ParseDescriptor(lib.codec, reply.text).None? ==>
               AssetVerdict(lib, world, a) == Absent)
            && (reply.Descriptor? && ParseDescriptor(lib.codec, reply.text).Some? ==>
                  var asset := ParseDescriptor(lib.codec, reply.text).value;
                  AssetVerdict(lib, world, a) ==
                    if lib.derive(asset).None? then Uncertain
                    else if lib.derive(asset) != Some(a.contractId) then Absent
                    else AssetVerdict(lib, world, asset))
  {
  }

  /** What a client is told: the price if there is one, and nothing otherwise. */
  lemma AnswerSpelled(v: Verdict)
    ensures forall t :: AnswerFor(v) == Some(PriceData(t, None)) <==> v == Priced(t)
    ensures AnswerFor(v) == None <==> v == Absent || v == Uncertain
  {
  }

  /** The verdict on a native or classic asset is the records' verdict on its provider id. */
  lemma DirectVerdict(lib: Library, world: World, a: AssetIdentity)
    requires Lawful(lib.codec) && IsCanonical(lib.codec, a) && a.kind != "contract"
    ensures world.priceReply.Failed? ==> AssetVerdict(lib, world, a) == Uncertain
    ensures world.priceReply.Records? ==>
      ProviderID(a).Some?
      && AssetVerdict(lib, world, a) == VerdictOf(lib.ok, world.priceReply.records, ProviderID(a).value)
  {
    PrintThenParse(lib.codec, a);
  }

  /** Every entry the service writes passes the check made on reading, and reads back as written. */
  lemma WrittenEntryValid(lib: Library, world: World, a: AssetIdentity)
    ensures ValidEntry(lib.ok, EntryFor(AssetVerdict(lib, world, a)))
  {
    var v := AssetVerdict(lib, world, a);
    if v.Priced? {
      var u := if a.kind == CONTRACT then ResolveSAC(lib, world, a.contractId).underlying else a;
      assert v == VerdictOf(lib.ok, world.priceReply.records, ProviderID(u).value);
      assert PricedAs(lib.ok, world.priceReply.records, ProviderID(u).value, v.text);
    }
  }

  // ---- One lookup, as a function of what it read ------------------------------------

  /** What a read at `now` yields for an id: a usable entry, or a miss. */
  function Hit(ok: string -> bool, cache: Cache, reachable: bool, id: string, now: int): Option<CacheValue> {
    var v := if reachable then Redis.Get(cache, id, now) else None;
    if v.Some? && ValidEntry(ok, v.value) then v else None
  }

  type Canonicalizer = AssetIdentity -> Result<AssetIdentity, IdentityError>

  function CollectIdentities(canon: Canonicalizer, assets: seq<AssetIdentity>): (r: Option<map<string, AssetIdentity>>)
    ensures r.Some? ==> forall id :: id in r.value ==>
      CanonicalID(r.value[id]) == id && exists a :: canon(a) == Ok(r.value[id])
  {
    if assets == [] then Some(map[])
    else
      match CollectIdentities(canon, assets[..|assets| - 1])
      case None => None
      case Some(m) =>
        match canon(assets[|assets| - 1])
        case Err(_) => None
        case Ok(a) => Some(m[CanonicalID(a) := a])
  }

  /** The canonical identities of the inputs, by canonical id; None if any is invalid. */
  function CanonicalMap(codec: Codec, assets: seq<AssetIdentity>): (r: Option<map<string, AssetIdentity>>)
    ensures r.Some? ==> forall id :: id in r.value ==> IsCanonical(codec, r.value[id]) && CanonicalID(r.value[id]) == id
  {
    CollectIdentities(a => Canonicalize(codec, a), assets)
  }

  ghost function Uncached(lib: Library, world: World, canonical: map<string, AssetIdentity>):
    map<string, Option<PriceData>>
  {
    map id | id in canonical :: AnswerFor(AssetVerdict(lib, world, canonical[id]))
  }

  ghost function Answers(lib: Library, world: World, cache: Cache, now: int, reachable: bool,
                         canonical: map<string, AssetIdentity>): map<string, Option<PriceData>> {
    map id | id in canonical ::
      match Hit(lib.ok, cache, reachable, id, now)
      case Some(v) => if v.found then v.data else None
      case None => AnswerFor(AssetVerdict(lib, world, canonical[id]))
  }

  /** What the lookup hands to the cache writer. An uncertain identity is never in it. */
  ghost function Writes(lib: Library, world: World, cache: Cache, now: int, reachable: bool,
                        canonical: map<string, AssetIdentity>): map<string, CacheValue> {
    map id | id in canonical && reachable && Hit(lib.ok, cache, reachable, id, now).None?
             && AssetVerdict(lib, world, canonical[id]) != Uncertain ::
      EntryFor(AssetVerdict(lib, world, canonical[id]))
  }

  /** A write pipeline reaches Redis whole, in part or not at all. */
  function Persist(cache: Cache, writes: map<string, CacheValue>, now: int, persisted: set<string>): Cache {
    map id | id in cache.Keys + (writes.Keys * persisted) ::
      if id in writes && id in persisted then Redis.Entry(writes[id], Some(now + CACHE_TTL)) else cache[id]
  }

  // ---- Whole runs: lookups interleave between their read and their write -------------

  datatype Event =
    | Begin(k: nat, at: int, assets: seq<AssetIdentity>, reachable: bool, world: World)
    | End(k: nat, at: int, persisted: set<string>)

  datatype State = State(cache: Cache, pending: map<nat, map<string, CacheValue>>)

  /** A lookup that has read and fetched, and holds its writes. */
  function Hold(s: State, k: nat, writes: map<string, CacheValue>): State {
    s.(pending := s.pending[k := writes])
  }

  /** A lookup that lets go of its writes; only some of them may arrive. */
  function Release(s: State, k: nat, at: int, persisted: set<string>): State {
    if k in s.pending then State(Persist(s.cache, s.pending[k], at, persisted), s.pending - {k}) else s
  }

  ghost function Step(lib: Library, s: State, e: Event): State {
    match e
    case Begin(k, at, assets, reachable, world) =>
      (match CanonicalMap(lib.codec, assets)
       case None => s.(pending := s.pending - {k})
       case Some(canonical) => Hold(s, k, Writes(lib, world, s.cache, at, reachable, canonical)))
    case End(k, at, persisted) => Release(s, k, at, persisted)
  }

  ghost function Exec(lib: Library, initial: State, events: seq<Event>): State {
    if events == [] then initial
    else Step(lib, Exec(lib, initial, events[..|events| - 1]), events[|events| - 1])
  }

  lemma ReleaseWhatIsHeld(s: State, k: nat, writes: map<string, CacheValue>, at: int, persisted: set<string>)
    requires k !in s.pending
    ensures Release(Hold(s, k, writes), k, at, persisted) == State(Persist(s.cache, writes, at, persisted), s.pending)
  {
    assert s.pending[k := writes] - {k} == s.pending;
  }

  /** A lookup with nothing in between is its beginning and then its end. */
  lemma LookupIsTwoEvents(lib: Library, s: State, begin: Event, end: Event)
    requires begin.Begin? && end.End? && begin.k == end.k && begin.k !in s.pending
    requires CanonicalMap(lib.codec, begin.assets).Some?
    ensures var canonical := CanonicalMap(lib.codec, begin.assets).value;
            var writes := Writes(lib, begin.world, s.cache, begin.at, begin.reachable, canonical);
            Step(lib, Step(lib, s, begin), end) == State(Persist(s.cache, writes, end.at, end.persisted), s.pending)
  {
    var canonical := CanonicalMap(lib.codec, begin.assets).value;
    var writes := Writes(lib, begin.world, s.cache, begin.at, begin.reachable, canonical);
    ReleaseWhatIsHeld(s, begin.k, writes, end.at, end.persisted);
  }

  // ---- The cache is transparent --------------------------------------------------------

  /** What a client is told about each canonical id. */
  type Quotes = string -> Option<PriceData>

  function Shown(v: CacheValue): Option<PriceData> {
    if v.Decoded? && v.found then v.data else None
  }

  /** Every usable entry, live or in a writer's hands, shows the quote. */
  ghost predicate Agrees(ok: string -> bool, quote: Quotes, s: State) {
    && (forall id :: id in s.cache && ValidEntry(ok, s.cache[id].value) ==> Shown(s.cache[id].value) == quote(id))
    && (forall k, id :: k in s.pending && id in s.pending[k] ==> Shown(s.pending[k][id]) == quote(id))
  }

  /** Asked about what this lookup misses, and only that, the provider answers with the quotes.
      What it says of anything else, and whether it says "absent" or cannot tell, is open. */
  ghost predicate Quoted(lib: Library, quote: Quotes, cache: Cache, now: int, reachable: bool, world: World,
                         canonical: map<string, AssetIdentity>) {
    forall id :: id in canonical && Hit(lib.ok, cache, reachable, id, now).None? ==>
      AnswerFor(AssetVerdict(lib, world, canonical[id])) == quote(id)
  }

  ghost predicate BeginQuoted(lib: Library, quote: Quotes, s: State, e: Event) {
    e.Begin? && CanonicalMap(lib.codec, e.assets).Some? ==>
      Quoted(lib, quote, s.cache, e.at, e.reachable, e.world, CanonicalMap(lib.codec, e.assets).value)
  }

  lemma ReleaseAgrees(ok: string -> bool, quote: Quotes, s: State, k: nat, at: int, persisted: set<string>)
    requires Agrees(ok, quote, s)
    ensures Agrees(ok, quote, Release(s, k, at, persisted))
  {
  }

  lemma StepAgrees(lib: Library, quote: Quotes, s: State, e: Event)
    requires Agrees(lib.ok, quote, s) && BeginQuoted(lib, quote, s, e)
    ensures Agrees(lib.ok, quote, Step(lib, s, e))
  {
    if e.End? {
      ReleaseAgrees(lib.ok, quote, s, e.k, e.at, e.persisted);
    }
  }

  lemma {:induction false} ExecAgrees(lib: Library, quote: Quotes, initial: State, events: seq<Event>)
    requires Agrees(lib.ok, quote, initial)
    requires forall i :: 0 <= i < |events| ==> BeginQuoted(lib, quote, Exec(lib, initial, events[..i]), events[i])
    ensures Agrees(lib.ok, quote, Exec(lib, initial, events))
  {
    if events != [] {
      var before := events[..|events| - 1];
      forall i | 0 <= i < |before| ensures BeginQuoted(lib, quote, Exec(lib, initial, before[..i]), before[i]) {
        assert before[..i] == events[..i];
      }
      ExecAgrees(lib, quote, initial, before);
      StepAgrees(lib, quote, Exec(lib, initial, before), events[|events| - 1]);
    }
  }

  lemma AgreeingAnswers(lib: Library, quote: Quotes, s: State, world: World, now: int, reachable: bool,
                        canonical: map<string, AssetIdentity>)
    requires Agrees(lib.ok, quote, s) && Quoted(lib, quote, s.cache, now, reachable, world, canonical)
    ensures Answers(lib, world, s.cache, now, reachable, canonical) == map id | id in canonical :: quote(id)
  {
  }

  /** The cache is transparent. Each lookup puts its own query to the provider and gets its own
      reply, which depends on what was cached when it read. If each reply answers the misses it was
      asked about with the quotes, then every lookup returns the quotes of all its assets: after any
      history of interleaved lookups and lost writes, at any time, cache reachable or not. */
  lemma CacheTransparent(lib: Library, quote: Quotes, initial: State, events: seq<Event>,
                         assets: seq<AssetIdentity>, world: World, now: int, reachable: bool)
    requires Agrees(lib.ok, quote, initial)
    requires forall i :: 0 <= i < |events| ==> BeginQuoted(lib, quote, Exec(lib, initial, events[..i]), events[i])
    requires CanonicalMap(lib.codec, assets).Some?
    requires Quoted(lib, quote, Exec(lib, initial, events).cache, now, reachable, world,
                    CanonicalMap(lib.codec, assets).value)
    ensures var canonical := CanonicalMap(lib.codec, assets).value;
            Answers(lib, world, Exec(lib, initial, events).cache, now, reachable, canonical)
            == map id | id in canonical :: quote(id)
  {
    ExecAgrees(lib, quote, initial, events);
    AgreeingAnswers(lib, quote, Exec(lib, initial, events), world, now, reachable,
        CanonicalMap(lib.codec, assets).value);
  }

  lemma {:induction false} AllCollected(canon: Canonicalizer, assets: seq<AssetIdentity>)
    ensures CollectIdentities(canon, assets).Some? <==> forall i :: 0 <= i < |assets| ==> canon(assets[i]).Ok?
  {
    if assets != [] {
      var before := assets[..|assets| - 1];
      AllCollected(canon, before);
      assert forall i :: 0 <= i < |before| ==> before[i] == assets[i];
    }
  }

  lemma {:induction false} CollectedKeys(canon: Canonicalizer, assets: seq<AssetIdentity>)
    requires forall i :: 0 <= i < |assets| ==> canon(assets[i]).Ok?
    ensures CollectIdentities(canon, assets).Some?
    ensures CollectIdentities(canon, assets).value.Keys == set i | 0 <= i < |assets| ::
      CanonicalID(canon(assets[i]).value)
  {
    if assets != [] {
      var before, last := assets[..|assets| - 1], canon(assets[|assets| - 1]).value;
      CollectedKeys(canon, before);
      var m := CollectIdentities(canon, before).value;
      assert CollectIdentities(canon, assets) == Some(m[CanonicalID(last) := last]);
      forall id
        ensures id in m.Keys + {CanonicalID(last)} <==>
          exists i :: 0 <= i < |assets| && CanonicalID(canon(assets[i]).value) == id
      {
        assert forall i :: 0 <= i < |before| ==> before[i] == assets[i];
      }
    }
  }

  /** The answer's keys are exactly the canonical ids of the inputs, which must all be valid. */
  lemma AnswerKeys(lib: Library, world: World, cache: Cache, now: int, reachable: bool, assets: seq<AssetIdentity>)
    ensures CanonicalMap(lib.codec, assets).Some? <==>
              forall i :: 0 <= i < |assets| ==> Canonicalize(lib.codec, assets[i]).Ok?
    ensures CanonicalMap(lib.codec, assets).Some? ==>
      Answers(lib, world, cache, now, reachable, CanonicalMap(lib.codec, assets).value).Keys
      == set i | 0 <= i < |assets| :: CanonicalID(Canonicalize(lib.codec, assets[i]).value)
  {
    var canon := a => Canonicalize(lib.codec, a);
    assert forall i :: 0 <= i < |assets| ==> canon(assets[i]) == Canonicalize(lib.codec, assets[i]);
    AllCollected(canon, assets);
    if CollectIdentities(canon, assets).Some? {
      CollectedKeys(canon, assets);
    }
  }

  // ---- Where a cache entry comes from ---------------------------------------------------

  /** Event `i` began a lookup in which `v` was the provider's settled verdict on `id`. */
  ghost predicate Justifies(lib: Library, e: Event, id: string, v: CacheValue) {
    && e.Begin?
    && CanonicalMap(lib.codec, e.assets).Some?
    && id in CanonicalMap(lib.codec, e.assets).value
    && var verdict := AssetVerdict(lib, e.world, CanonicalMap(lib.codec, e.assets).value[id]);
       verdict != Uncertain && v == EntryFor(verdict)
  }

  type Justification = (Event, string, CacheValue) -> bool

  /** Event `i` is the last one of lookup `k`. */
  ghost predicate Latest(events: seq<Event>, i: int, k: nat) {
    && 0 <= i < |events| && events[i].k == k
    && forall m :: i < m < |events| ==> events[m].k != k
  }

  ghost predicate PendingJustified(j: Justification, events: seq<Event>, k: nat, id: string, v: CacheValue) {
    exists i :: Latest(events, i, k) && j(events[i], id, v)
  }

  /** Events `b` and `w` are the beginning and the write of one lookup that justifies the entry:
      nothing in between belongs to that lookup. */
  ghost predicate WrittenBy(j: Justification, events: seq<Event>, id: string, entry: Redis.Entry<CacheValue>, b: int,
                            w: int)
  {
    && 0 <= b < w < |events| && events[w].End? && Latest(events[..w], b, events[w].k)
    && j(events[b], id, entry.value)
    && entry.expiry == Some(events[w].at + CACHE_TTL)
  }

  ghost predicate EntryJustified(j: Justification, events: seq<Event>, id: string, entry: Redis.Entry<CacheValue>) {
    exists b, w :: WrittenBy(j, events, id, entry, b, w)
  }

  lemma EntryJustifiedGrows(j: Justification, events: seq<Event>, e: Event, id: string, entry: Redis.Entry<CacheValue>)
    requires EntryJustified(j, events, id, entry)
    ensures EntryJustified(j, events + [e], id, entry)
  {
    var b, w :| WrittenBy(j, events, id, entry, b, w);
    assert (events + [e])[..w] == events[..w];
    assert WrittenBy(j, events + [e], id, entry, b, w);
  }

  lemma PendingJustifiedGrows(j: Justification, events: seq<Event>, e: Event, k: nat, id: string, v: CacheValue)
    requires PendingJustified(j, events, k, id, v)
    ensures e.k != k ==> PendingJustified(j, events + [e], k, id, v)
    ensures e.End? && e.k == k ==> EntryJustified(j, events + [e], id, Redis.Entry(v, Some(e.at + CACHE_TTL)))
  {
    var i :| Latest(events, i, k) && j(events[i], id, v);
    var all := events + [e];
    assert all[..|events|] == events && all[i] == events[i];
    assert e.k != k ==> Latest(all, i, k);
    assert e.End? && e.k == k ==> WrittenBy(j, all, id, Redis.Entry(v, Some(e.at + CACHE_TTL)), i, |events|);
  }

  ghost predicate AllJustified(j: Justification, events: seq<Event>, s: State) {
    && (forall id :: id in s.cache ==> EntryJustified(j, events, id, s.cache[id]))
    && (forall k, id :: k in s.pending && id in s.pending[k] ==> PendingJustified(j, events, k, id, s.pending[k][id]))
  }

  /** What one event may do to the state: a beginning adds justified writes, an end stores some. */
  ghost predicate Moves(j: Justification, s: State, e: Event, s': State) {
    if e.Begin? then
      && s'.cache == s.cache
      && (forall k, id :: k in s'.pending && id in s'.pending[k] ==>
            if k == e.k then j(e, id, s'.pending[k][id])
            else k in s.pending && id in s.pending[k] && s.pending[k][id] == s'.pending[k][id])
    else
      s' == Release(s, e.k, e.at, e.persisted)
  }

  lemma MovesJustified(j: Justification, events: seq<Event>, s: State, e: Event, s': State)
    requires AllJustified(j, events, s) && Moves(j, s, e, s')
    ensures AllJustified(j, events + [e], s')
  {
    forall id | id in s'.cache ensures EntryJustified(j, events + [e], id, s'.cache[id]) {
      if e.End? && e.k in s.pending && id in s.pending[e.k] && id in e.persisted {
        PendingJustifiedGrows(j, events, e, e.k, id, s.pending[e.k][id]);
      } else {
        EntryJustifiedGrows(j, events, e, id, s.cache[id]);
      }
    }
    forall k, id | k in s'.pending && id in s'.pending[k]
      ensures PendingJustified(j, events + [e], k, id, s'.pending[k][id])
    {
      if k != e.k {
        PendingJustifiedGrows(j, events, e, k, id, s.pending[k][id]);
      } else {
        assert Latest(events + [e], |events|, k);
      }
    }
  }

  ghost function Provenance(lib: Library): Justification {
    (e, id, v) => Justifies(lib, e, id, v)
  }

  lemma HoldMoves(j: Justification, s: State, e: Event, writes: map<string, CacheValue>)
    requires e.Begin? && forall id :: id in writes ==> j(e, id, writes[id])
    ensures Moves(j, s, e, Hold(s, e.k, writes))
  {
  }

  lemma StepMoves(lib: Library, s: State, e: Event)
    ensures Moves(Provenance(lib), s, e, Step(lib, s, e))
  {
    if e.Begin? && CanonicalMap(lib.codec, e.assets).Some? {
      var canonical := CanonicalMap(lib.codec, e.assets).value;
      var writes := Writes(lib, e.world, s.cache, e.at, e.reachable, canonical);
      forall id | id in writes ensures Provenance(lib)(e, id, writes[id]) {
        assert Justifies(lib, e, id, writes[id]);
      }
      HoldMoves(Provenance(lib), s, e, writes);
    }
  }

  lemma {:induction false} ExecJustified(lib: Library, events: seq<Event>)
    ensures AllJustified(Provenance(lib), events, Exec(lib, State(map[], map[]), events))
  {
    if events != [] {
      var before, e := events[..|events| - 1], events[|events| - 1];
      var s := Exec(lib, State(map[], map[]), before);
      ExecJustified(lib, before);
      StepMoves(lib, s, e);
      MovesJustified(Provenance(lib), before, s, e, Step(lib, s, e));
      assert before + [e] == events;
    }
  }

  lemma Writer(j: Justification, events: seq<Event>, id: string, entry: Redis.Entry<CacheValue>)
    returns (b: nat, w: nat)
    requires EntryJustified(j, events, id, entry)
    ensures b < w < |events| && events[w].End? && events[b].k == events[w].k && j(events[b], id, entry.value)
    ensures forall m :: b < m < w ==> events[m].k != events[w].k
    ensures entry.expiry == Some(events[w].at + CACHE_TTL)
  {
    b, w :| WrittenBy(j, events, id, entry, b, w);
    forall m | b < m < w ensures events[m].k != events[w].k {
      assert events[..w][m] == events[m];
    }
  }

  /** In every run over a changing provider, an entry live at `now` was written less than 60 s
      before, by a lookup in which the provider gave exactly that verdict, and is readable. */
  lemma LiveEntryIsFresh(lib: Library, events: seq<Event>, id: string, now: int) returns (b: nat, w: nat)
    requires id in Exec(lib, State(map[], map[]), events).cache
    requires Redis.Alive(Exec(lib, State(map[], map[]), events).cache[id], now)
    ensures b < w < |events| && events[w].End? && events[b].k == events[w].k
    ensures forall m :: b < m < w ==> events[m].k != events[w].k
    ensures Justifies(lib, events[b], id, Exec(lib, State(map[], map[]), events).cache[id].value)
    ensures ValidEntry(lib.ok, Exec(lib, State(map[], map[]), events).cache[id].value)
    ensures now - events[w].at < 60 * Redis.SECOND
  {
    ExecJustified(lib, events);
    var entry := Exec(lib, State(map[], map[]), events).cache[id];
    b, w := Writer(Provenance(lib), events, id, entry);
    WrittenEntryValid(lib, events[b].world, CanonicalMap(lib.codec, events[b].assets).value[id]);
  }

  // ---- What an answer rests on ----------------------------------------------------------

  /** Lookup `b`..`w` wrote value `v` for the id less than a minute before `now`. */
  ghost predicate WroteLately(lib: Library, events: seq<Event>, b: nat, w: nat, id: string, v: CacheValue, now: int) {
    && b < w < |events| && events[w].End? && events[b].k == events[w].k
    && Justifies(lib, events[b], id, v)
    && now - events[w].at < 60000
  }

  /** A hit is an entry that is alive. */
  lemma HitIsAlive(ok: string -> bool, cache: Cache, reachable: bool, id: string, now: int)
    requires Hit(ok, cache, reachable, id, now).Some?
    ensures reachable && id in cache && Redis.Alive(cache[id], now)
    ensures Hit(ok, cache, reachable, id, now) == Some(cache[id].value)
  {
  }

  /** Over every run from an empty cache, what a lookup says of an asset is the verdict of its own reply,
      or what some lookup was told, and wrote, less than a minute before. */
  lemma AnswerIsFresh(lib: Library, events: seq<Event>, assets: seq<AssetIdentity>, world: World, now: int,
                      reachable: bool, id: string)
    requires CanonicalMap(lib.codec, assets).Some? && id in CanonicalMap(lib.codec, assets).value
    ensures var canonical := CanonicalMap(lib.codec, assets).value;
            var answer := Answers(lib, world, Exec(lib, State(map[], map[]), events).cache, now, reachable,
                canonical)[id];
            || answer == AnswerFor(AssetVerdict(lib, world, canonical[id]))
            || (reachable && exists b, w, v :: WroteLately(lib, events, b, w, id, v, now) && answer == Shown(v))
  {
    var cache := Exec(lib, State(map[], map[]), events).cache;
    var canonical := CanonicalMap(lib.codec, assets).value;
    if Hit(lib.ok, cache, reachable, id, now).Some? {
      HitIsAlive(lib.ok, cache, reachable, id, now);
      var v := cache[id].value;
      var b, w := LiveEntryIsFresh(lib, events, id, now);
      assert WroteLately(lib, events, b, w, id, v, now);
      HitAnswers(lib, world, cache, now, reachable, canonical, id);
    }
  }

  lemma HitAnswers(lib: Library, world: World, cache: Cache, now: int, reachable: bool,
                   canonical: map<string, AssetIdentity>, id: string)
    requires id in canonical && Hit(lib.ok, cache, reachable, id, now).Some?
    ensures Answers(lib, world, cache, now, reachable, canonical)[id]
            == Shown(Hit(lib.ok, cache, reachable, id, now).value)
  {
  }

  /** What an end stores stays until another end stores the id again. */
  lemma {:induction false} StoredStays(lib: Library, events: seq<Event>, id: string, n: nat)
    requires n <= |events| && id in Exec(lib, State(map[], map[]), events[..n]).cache
    requires forall m :: n <= m < |events| && events[m].End? ==> id !in events[m].persisted
    ensures id in Exec(lib, State(map[], map[]), events).cache
    ensures Exec(lib, State(map[], map[]), events).cache[id] == Exec(lib, State(map[], map[]), events[..n]).cache[id]
    decreases |events|
  {
    if n == |events| {
      assert events[..n] == events;
    } else {
      var before := events[..|events| - 1];
      assert before[..n] == events[..n];
      StoredStays(lib, before, id, n);
      StepLeavesEntry(lib, Exec(lib, State(map[], map[]), before), events[|events| - 1], id);
    }
  }

  lemma StepLeavesEntry(lib: Library, s: State, e: Event, id: string)
    requires id in s.cache && (e.End? ==> id !in e.persisted)
    ensures id in Step(lib, s, e).cache && Step(lib, s, e).cache[id] == s.cache[id]
  {
  }

  /** What a lookup holds stays in its hands until its end. */
  lemma {:induction false} HeldStays(lib: Library, events: seq<Event>, k: nat, n: nat)
    requires n <= |events| && k in Exec(lib, State(map[], map[]), events[..n]).pending
    requires forall m :: n <= m < |events| ==> events[m].k != k
    ensures k in Exec(lib, State(map[], map[]), events).pending
    ensures Exec(lib, State(map[], map[]), events).pending[k] == Exec(lib, State(map[], map[]), events[..n]).pending[k]
    decreases |events|
  {
    if n == |events| {
      assert events[..n] == events;
    } else {
      var before := events[..|events| - 1];
      assert before[..n] == events[..n];
      HeldStays(lib, before, k, n);
      StepLeavesHeld(lib, Exec(lib, State(map[], map[]), before), events[|events| - 1], k);
    }
  }

  lemma StepLeavesHeld(lib: Library, s: State, e: Event, k: nat)
    requires k in s.pending && e.k != k
    ensures k in Step(lib, s, e).pending && Step(lib, s, e).pending[k] == s.pending[k]
  {
  }

  /** A lookup that read the cache, missed the asset, and got a verdict on it. */
  ghost predicate Learns(lib: Library, events: seq<Event>, b: nat, id: string, verdict: Verdict) {
    && b < |events| && events[b].Begin? && events[b].reachable && verdict != Uncertain
    && CanonicalMap(lib.codec, events[b].assets).Some?
    && var canonical := CanonicalMap(lib.codec, events[b].assets).value;
       && id in canonical && AssetVerdict(lib, events[b].world, canonical[id]) == verdict
       && Hit(lib.ok, Exec(lib, State(map[], map[]), events[..b]).cache, true, id, events[b].at).None?
  }

  lemma ExecNext(lib: Library, events: seq<Event>, n: nat)
    requires n < |events|
    ensures Exec(lib, State(map[], map[]), events[..n + 1])
            == Step(lib, Exec(lib, State(map[], map[]), events[..n]), events[n])
  {
    assert events[..n + 1][..n] == events[..n];
  }

  /** The state after the first n events. */
  ghost function After(lib: Library, events: seq<Event>, n: nat): State
    requires n <= |events|
  {
    Exec(lib, State(map[], map[]), events[..n])
  }

  predicate Holds(s: State, k: nat, id: string, v: CacheValue) {
    k in s.pending && id in s.pending[k] && s.pending[k][id] == v
  }

  predicate Stores(s: State, id: string, v: CacheValue, expiry: int) {
    id in s.cache && s.cache[id] == Redis.Entry(v, Some(expiry))
  }

  lemma LearntIsHeld(lib: Library, events: seq<Event>, b: nat, id: string, verdict: Verdict)
    requires Learns(lib, events, b, id, verdict)
    ensures Holds(After(lib, events, b + 1), events[b].k, id, EntryFor(verdict))
  {
    ExecNext(lib, events, b);
    HeldAfterBegin(lib, Exec(lib, State(map[], map[]), events[..b]), events[b], id);
  }

  lemma ReleaseStores(s: State, k: nat, at: int, persisted: set<string>, id: string, v: CacheValue)
    requires Holds(s, k, id, v) && id in persisted
    ensures Stores(Release(s, k, at, persisted), id, v, at + 60000)
  {
  }

  lemma EndReleases(lib: Library, events: seq<Event>, w: nat)
    requires w < |events| && events[w].End?
    ensures After(lib, events, w + 1) == Release(After(lib, events, w), events[w].k, events[w].at, events[w].persisted)
  {
    ExecNext(lib, events, w);
  }

  lemma StillHeld(lib: Library, events: seq<Event>, k: nat, n: nat, w: nat, id: string, v: CacheValue)
    requires n <= w <= |events| && Holds(After(lib, events, n), k, id, v)
    requires forall m :: n <= m < w ==> events[m].k != k
    ensures Holds(After(lib, events, w), k, id, v)
  {
    assert events[..w][..n] == events[..n];
    HeldStays(lib, events[..w], k, n);
  }

  lemma StillStored(lib: Library, events: seq<Event>, n: nat, id: string, v: CacheValue, expiry: int)
    requires n <= |events| && Stores(After(lib, events, n), id, v, expiry)
    requires forall m :: n <= m < |events| && events[m].End? ==> id !in events[m].persisted
    ensures Stores(Exec(lib, State(map[], map[]), events), id, v, expiry)
  {
    StoredStays(lib, events, id, n);
  }

  /** What a lookup holds is in the cache once its end has stored it, and stays there. */
  lemma HeldIsStored(lib: Library, events: seq<Event>, n: nat, w: nat, id: string, v: CacheValue)
    requires n <= w < |events| && events[w].End? && id in events[w].persisted
    requires Holds(After(lib, events, n), events[w].k, id, v)
    requires forall m :: n <= m < w ==> events[m].k != events[w].k
    requires forall m :: w < m < |events| && events[m].End? ==> id !in events[m].persisted
    ensures Stores(Exec(lib, State(map[], map[]), events), id, v, events[w].at + 60000)
  {
    StillHeld(lib, events, events[w].k, n, w, id, v);
    ReleaseStores(After(lib, events, w), events[w].k, events[w].at, events[w].persisted, id, v);
    EndReleases(lib, events, w);
    StillStored(lib, events, w + 1, id, v, events[w].at + 60000);
  }

  lemma HeldAfterBegin(lib: Library, s: State, e: Event, id: string)
    requires e.Begin? && e.reachable && CanonicalMap(lib.codec, e.assets).Some?
    requires var canonical := CanonicalMap(lib.codec, e.assets).value;
             id in canonical && Hit(lib.ok, s.cache, true, id, e.at).None?
             && AssetVerdict(lib, e.world, canonical[id]) != Uncertain
    ensures e.k in Step(lib, s, e).pending && id in Step(lib, s, e).pending[e.k]
    ensures Step(lib, s, e).pending[e.k][id]
            == EntryFor(AssetVerdict(lib, e.world, CanonicalMap(lib.codec, e.assets).value[id]))
  {
  }

  /** The other half: what a lookup learnt and stored answers every reachable lookup in the next minute,
      whatever the provider says by then, unless it was stored again. */
  lemma StoredAnswers(lib: Library, events: seq<Event>, b: nat, w: nat, id: string, verdict: Verdict,
                      assets: seq<AssetIdentity>, world: World, now: int)
    requires Learns(lib, events, b, id, verdict) && b < w < |events| && events[w].End? && id in events[w].persisted
    requires events[b].k == events[w].k && forall m :: b < m < w ==> events[m].k != events[w].k
    requires forall m :: w < m < |events| && events[m].End? ==> id !in events[m].persisted
    requires CanonicalMap(lib.codec, assets).Some? && id in CanonicalMap(lib.codec, assets).value
    requires now < events[w].at + 60000
    ensures Answers(lib, world, Exec(lib, State(map[], map[]), events).cache, now, true,
                    CanonicalMap(lib.codec, assets).value)[id] == AnswerFor(verdict)
  {
    var s, canonical := Exec(lib, State(map[], map[]), events), CanonicalMap(lib.codec, assets).value;
    LearntIsHeld(lib, events, b, id, verdict);
    LearntIsValid(lib, events, b, id, verdict);
    HeldIsStored(lib, events, b + 1, w, id, EntryFor(verdict));
    StoredShows(lib, s, id, EntryFor(verdict), events[w].at + 60000, world, now, canonical);
  }

  lemma StoredShows(lib: Library, s: State, id: string, v: CacheValue, expiry: int, world: World, now: int,
                    canonical: map<string, AssetIdentity>)
    requires Stores(s, id, v, expiry) && ValidEntry(lib.ok, v) && now < expiry && id in canonical
    ensures Answers(lib, world, s.cache, now, true, canonical)[id] == Shown(v)
  {
    LiveEntryHits(lib.ok, s.cache, id, v, expiry, now);
    HitAnswers(lib, world, s.cache, now, true, canonical, id);
  }

  lemma LearntIsValid(lib: Library, events: seq<Event>, b: nat, id: string, verdict: Verdict)
    requires Learns(lib, events, b, id, verdict)
    ensures ValidEntry(lib.ok, EntryFor(verdict))
  {
    WrittenEntryValid(lib, events[b].world, CanonicalMap(lib.codec, events[b].assets).value[id]);
  }

  lemma LiveEntryHits(ok: string -> bool, cache: Cache, id: string, v: CacheValue, expiry: int, now: int)
    requires id in cache && cache[id] == Redis.Entry(v, Some(expiry)) && ValidEntry(ok, v) && now < expiry
    ensures Hit(ok, cache, true, id, now) == Some(v)
  {
  }

  /** A lookup that could not read the cache writes nothing to it. */
  lemma UnreadableIsUnwritten(lib: Library, world: World, cache: Cache, now: int, canonical: map<string, AssetIdentity>)
    ensures Writes(lib, world, cache, now, false, canonical) == map[]
  {
  }
}
