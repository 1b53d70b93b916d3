/** The price service itself: LookupUSD as the source runs it, loop by loop, against
    the cache it updates in place. */
module PriceService {
  import opened Wrappers
  import opened Strkey
  import opened Assets
  import opened Provider
  import opened PriceLookup
  import Redis
  import ResolvePool

  datatype Target = Target(original: AssetIdentity, underlying: AssetIdentity)

  ghost predicate Keyed(codec: Codec, m: map<string, AssetIdentity>) {
    forall id :: id in m ==> IsCanonical(codec, m[id]) && CanonicalID(m[id]) == id
  }

  /** `t` prices one of the missing assets. */
  ghost predicate GoodTarget(lib: Library, world: World, missing: map<string, AssetIdentity>, t: Target) {
    && CanonicalID(t.original) in missing && missing[CanonicalID(t.original)] == t.original
    && Underlying(lib, world, t.original) == Some(t.underlying)
  }

  /** The contracts among the misses, in any order. */
  ghost predicate ContractsOf(missing: map<string, AssetIdentity>, contracts: seq<AssetIdentity>) {
    && (forall a :: a in contracts ==> a.kind == CONTRACT && CanonicalID(a) in missing && missing[CanonicalID(a)] == a)
    && (forall id :: id in missing && missing[id].kind == CONTRACT ==> missing[id] in contracts)
  }

  /** The misses priced directly, as targets that stand for themselves. */
  ghost predicate DirectOf(missing: map<string, AssetIdentity>, targets: seq<Target>) {
    && (forall t :: t in targets ==> t.original == t.underlying && t.original.kind != CONTRACT
                                     && CanonicalID(t.original) in missing
                                        && missing[CanonicalID(t.original)] == t.original)
    && (forall id :: id in missing && missing[id].kind != CONTRACT ==> Target(missing[id], missing[id]) in targets)
  }

  /** Splits the misses into assets priced directly and contracts to resolve. */
  method SplitMissing(ghost codec: Codec, missing: map<string, AssetIdentity>)
    returns (targets: seq<Target>, contracts: seq<AssetIdentity>)
    requires Keyed(codec, missing)
    ensures DirectOf(missing, targets) && ContractsOf(missing, contracts)
  {
    targets, contracts := [], [];
    var todo := missing.Keys;
    while todo != {}
      invariant todo <= missing.Keys
      invariant forall t :: t in targets ==> t.original == t.underlying && t.original.kind != CONTRACT
                                             && CanonicalID(t.original) in missing
                                                && missing[CanonicalID(t.original)] == t.original
      invariant forall a :: a in contracts ==>
        a.kind == CONTRACT && CanonicalID(a) in missing && missing[CanonicalID(a)] == a
      invariant forall id :: id in missing && id !in todo ==>
        if missing[id].kind == CONTRACT then missing[id] in contracts else Target(missing[id], missing[id]) in targets
      decreases todo
    {
      var id :| id in todo;
      if missing[id].kind == CONTRACT {
        contracts := contracts + [missing[id]];
      } else {
        targets := targets + [Target(missing[id], missing[id])];
      }
      todo := todo - {id};
    }
  }

  type Answer = ResolvePool.Done<AssetIdentity, Resolution>

  /** The pool's answers sorted three ways. */
  datatype Sorted = Sorted(resolved: seq<Target>, unsupported: seq<AssetIdentity>, errors: seq<AssetIdentity>)

  function Sort(results: seq<Answer>): Sorted {
    if results == [] then Sorted([], [], [])
    else
      var before, last := Sort(results[..|results| - 1]), results[|results| - 1];
      match last.outcome
      case Unresolved => before.(errors := before.errors + [last.job])
      case Unsupported => before.(unsupported := before.unsupported + [last.job])
      case Resolved(underlying) => before.(resolved := before.resolved + [Target(last.job, underlying)])
  }

  ghost function Originals(targets: seq<Target>): multiset<AssetIdentity> {
    if targets == [] then multiset{}
    else Originals(targets[..|targets| - 1]) + multiset{targets[|targets| - 1].original}
  }

  /** Each contract ends in exactly one of resolved, unsupported and errors. */
  lemma {:induction false} SortConserves(results: seq<Answer>)
    ensures var s := Sort(results);
            Originals(s.resolved) + multiset(s.unsupported) + multiset(s.errors) == ResolvePool.Jobs(results)
  {
    if results != [] {
      var before, last := results[..|results| - 1], results[|results| - 1];
      SortConserves(before);
      var s := Sort(before);
      assert ResolvePool.Jobs(results) == ResolvePool.Jobs(before) + multiset{last.job};
      if last.outcome.Resolved? {
        var t := Target(last.job, last.outcome.underlying);
        assert (s.resolved + [t])[..|s.resolved|] == s.resolved;
        assert Originals(s.resolved + [t]) == Originals(s.resolved) + multiset{last.job};
        ResolvePool.Regroup(Originals(s.resolved), multiset{last.job}, multiset(s.unsupported));
      }
    }
  }

  lemma {:induction false} SortMembers(results: seq<Answer>)
    ensures forall t :: t in Sort(results).resolved <==> ResolvePool.Done(t.original, Resolved(t.underlying)) in results
    ensures forall a :: a in Sort(results).unsupported <==> ResolvePool.Done(a, Unsupported) in results
    ensures forall a :: a in Sort(results).errors <==> ResolvePool.Done(a, Unresolved) in results
  {
    if results != [] {
      var before, last := results[..|results| - 1], results[|results| - 1];
      SortMembers(before);
      assert results == before + [last];
    }
  }

  method Collect(results: seq<Answer>)
    returns (resolved: seq<Target>, unsupported: seq<AssetIdentity>, errors: seq<AssetIdentity>)
    ensures Sorted(resolved, unsupported, errors) == Sort(results)
  {
    resolved, unsupported, errors := [], [], [];
    for n := 0 to |results|
      invariant Sorted(resolved, unsupported, errors) == Sort(results[..n])
    {
      assert results[..n + 1][..n] == results[..n];
      match results[n].outcome
      case Unresolved =>
        errors := errors + [results[n].job];
      case Unsupported =>
        unsupported := unsupported + [results[n].job];
      case Resolved(underlying) =>
        resolved := resolved + [Target(results[n].job, underlying)];
    }
    assert results[..|results|] == results;
  }

  /** The underlying assets of the targets by canonical id. */
  method ByCanonicalID(ghost codec: Codec, targets: seq<Target>) returns (underlying: map<string, AssetIdentity>)
    requires Lawful(codec)
    requires forall t :: t in targets ==> IsCanonical(codec, t.underlying)
    ensures forall t :: t in targets ==>
      CanonicalID(t.underlying) in underlying && underlying[CanonicalID(t.underlying)] == t.underlying
    ensures forall id :: id in underlying ==> exists t :: t in targets && t.underlying == underlying[id]
  {
    underlying := map[];
    for n := 0 to |targets|
      invariant forall i :: 0 <= i < n ==> CanonicalID(targets[i].underlying) in underlying.Keys
                                           && underlying[CanonicalID(targets[i].underlying)] == targets[i].underlying
      invariant forall id :: id in underlying ==> exists i :: 0 <= i < n && targets[i].underlying == underlying[id]
    {
      var a := targets[n].underlying;
      forall i | 0 <= i < n && CanonicalID(targets[i].underlying) == CanonicalID(a)
        ensures targets[i].underlying == a
      {
        CanonicalIDInjective(codec, targets[i].underlying, a);
      }
      underlying := underlying[CanonicalID(a) := a];
    }
  }

  /** The assets to ask the provider about, one per canonical id. */
  method PriceAssets(ghost codec: Codec, targets: seq<Target>) returns (assets: seq<AssetIdentity>)
    requires Lawful(codec)
    requires forall t :: t in targets ==> IsCanonical(codec, t.underlying)
    ensures forall t :: t in targets ==> t.underlying in assets
    ensures forall a :: a in assets ==> exists t :: t in targets && t.underlying == a
  {
    var underlying := ByCanonicalID(codec, targets);
    assets := [];
    var todo := underlying.Keys;
    while todo != {}
      invariant todo <= underlying.Keys
      invariant forall a :: a in assets ==> exists t :: t in targets && t.underlying == a
      invariant forall id :: id in underlying && id !in todo ==> underlying[id] in assets
      decreases todo
    {
      var id :| id in todo;
      assets := assets + [underlying[id]];
      todo := todo - {id};
    }
  }

  /** The verdicts on the misses, as the last loop records them. */
  ghost predicate Recorded(lib: Library, world: World, missing: map<string, AssetIdentity>,
                           prices: map<string, PriceData>, entries: map<string, CacheValue>) {
    && entries.Keys <= missing.Keys
    && (forall id :: id in entries ==> AssetVerdict(lib, world, missing[id]) != Uncertain
                                       && entries[id] == EntryFor(AssetVerdict(lib, world, missing[id])))
    && (forall id :: id in prices <==> id in entries && AssetVerdict(lib, world, missing[id]).Priced?)
    && (forall id :: id in prices ==> Some(prices[id]) == AnswerFor(AssetVerdict(lib, world, missing[id])))
  }

  lemma RecordPriced(lib: Library, world: World, missing: map<string, AssetIdentity>,
                     prices: map<string, PriceData>, entries: map<string, CacheValue>, id: string, text: string)
    requires Recorded(lib, world, missing, prices, entries)
    requires id in missing && AssetVerdict(lib, world, missing[id]) == Priced(text)
    ensures var data := PriceData(text, None);
            Recorded(lib, world, missing, prices[id := data], entries[id := Decoded(true, Some(data))])
  {
  }

  lemma RecordAbsent(lib: Library, world: World, missing: map<string, AssetIdentity>,
                     prices: map<string, PriceData>, entries: map<string, CacheValue>, id: string)
    requires Recorded(lib, world, missing, prices, entries)
    requires id in missing && AssetVerdict(lib, world, missing[id]) == Absent
    ensures Recorded(lib, world, missing, prices, entries[id := Decoded(false, None)])
  {
  }

  /** The batch says of a target what is true of the miss it stands for. */
  ghost predicate Answered(lib: Library, world: World, missing: map<string, AssetIdentity>, batch: Batch, t: Target) {
    && CanonicalID(t.original) in missing
    && BatchSays(batch, CanonicalID(t.underlying)) == AssetVerdict(lib, world, missing[CanonicalID(t.original)])
  }

  /** Fills prices and cache entries from the batch. */
  method Record(lib: Library, ghost world: World, missing: map<string, AssetIdentity>, targets: seq<Target>,
                batch: Batch, negative: map<string, CacheValue>)
    returns (prices: map<string, PriceData>, entries: map<string, CacheValue>)
    requires forall t :: t in targets ==> Answered(lib, world, missing, batch, t)
    requires Recorded(lib, world, missing, map[], negative)
    ensures Recorded(lib, world, missing, prices, entries)
    ensures negative.Keys <= entries.Keys
    ensures forall t :: t in targets && BatchSays(batch, CanonicalID(t.underlying)) != Uncertain ==>
      CanonicalID(t.original) in entries
  {
    prices, entries := map[], negative;
    for n := 0 to |targets|
      invariant Recorded(lib, world, missing, prices, entries)
      invariant negative.Keys <= entries.Keys
      invariant forall i :: 0 <= i < n && BatchSays(batch, CanonicalID(targets[i].underlying)) != Uncertain ==>
        CanonicalID(targets[i].original) in entries
    {
      var t := targets[n];
      assert Answered(lib, world, missing, batch, t);
      var id := CanonicalID(t.underlying);
      if id in batch.prices {
        var data := PriceData(batch.prices[id], None);
        RecordPriced(lib, world, missing, prices, entries, CanonicalID(t.original), batch.prices[id]);
        prices := prices[CanonicalID(t.original) := data];
        entries := entries[CanonicalID(t.original) := Decoded(true, Some(data))];
      } else if id in batch.absent {
        RecordAbsent(lib, world, missing, prices, entries, CanonicalID(t.original));
        entries := entries[CanonicalID(t.original) := Decoded(false, None)];
      }
    }
  }

  // ---- From misses to settled verdicts -------------------------------------------------

  lemma {:induction false} JobsMembers(results: seq<Answer>, a: AssetIdentity)
    ensures a in ResolvePool.Jobs(results) <==> exists i :: 0 <= i < |results| && results[i].job == a
  {
    if results != [] {
      var before := results[..|results| - 1];
      JobsMembers(before, a);
      assert forall i :: 0 <= i < |before| ==> before[i] == results[i];
    }
  }

  ghost predicate PoolAnswer(lib: Library, world: World, contracts: seq<AssetIdentity>, results: seq<Answer>) {
    && ResolvePool.Jobs(results) == multiset(contracts)
    && forall i :: 0 <= i < |results| ==> results[i].outcome == ResolveSAC(lib, world, results[i].job.contractId)
  }

  /** The pool reports `r` for a contract exactly when resolving that contract gives `r`. */
  lemma PoolReports(lib: Library, world: World, contracts: seq<AssetIdentity>, results: seq<Answer>, a: AssetIdentity,
                    r: Resolution)
    requires PoolAnswer(lib, world, contracts, results)
    ensures ResolvePool.Done(a, r) in results <==> a in contracts && ResolveSAC(lib, world, a.contractId) == r
  {
    JobsMembers(results, a);
    assert a in multiset(contracts) <==> a in contracts;
    if ResolvePool.Done(a, r) in results {
      var i :| 0 <= i < |results| && results[i] == ResolvePool.Done(a, r);
    }
    if a in contracts {
      var i :| 0 <= i < |results| && results[i].job == a;
      assert results[i] == ResolvePool.Done(a, ResolveSAC(lib, world, a.contractId));
    }
  }

  ghost predicate AllTargets(lib: Library, world: World, missing: map<string, AssetIdentity>, targets: seq<Target>) {
    && (forall t :: t in targets ==> GoodTarget(lib, world, missing, t))
    && (forall id :: id in missing && Underlying(lib, world, missing[id]).Some? ==>
          Target(missing[id], Underlying(lib, world, missing[id]).value) in targets)
  }

  lemma SortedTargets(lib: Library, world: World, missing: map<string, AssetIdentity>, direct: seq<Target>,
                      contracts: seq<AssetIdentity>, results: seq<Answer>)
    requires Keyed(lib.codec, missing) && DirectOf(missing, direct) && ContractsOf(missing, contracts)
    requires PoolAnswer(lib, world, contracts, results)
    ensures AllTargets(lib, world, missing, direct + Sort(results).resolved)
  {
    var resolved := Sort(results).resolved;
    SortMembers(results);
    forall t | t in resolved ensures GoodTarget(lib, world, missing, t) {
      PoolReports(lib, world, contracts, results, t.original, Resolved(t.underlying));
    }
    forall id | id in missing && Underlying(lib, world, missing[id]).Some?
      ensures Target(missing[id], Underlying(lib, world, missing[id]).value) in direct + resolved
    {
      if missing[id].kind == CONTRACT {
        PoolReports(lib, world, contracts, results, missing[id], ResolveSAC(lib, world, missing[id].contractId));
      }
    }
  }

  lemma SortedRejections(lib: Library, world: World, missing: map<string, AssetIdentity>,
                         contracts: seq<AssetIdentity>, results: seq<Answer>)
    requires Keyed(lib.codec, missing) && ContractsOf(missing, contracts)
    requires PoolAnswer(lib, world, contracts, results)
    ensures RejectedContracts(lib, world, missing, Sort(results).unsupported)
  {
    SortMembers(results);
    forall a
      ensures a in Sort(results).unsupported <==>
        a.kind == CONTRACT && CanonicalID(a) in missing && missing[CanonicalID(a)] == a
        && ResolveSAC(lib, world, a.contractId).Unsupported?
    {
      PoolReports(lib, world, contracts, results, a, Unsupported);
    }
  }

  ghost predicate LeftUnresolved(lib: Library, world: World, a: AssetIdentity) {
    a.kind == CONTRACT && ResolveSAC(lib, world, a.contractId).Unresolved?
  }

  lemma SortedErrors(lib: Library, world: World, missing: map<string, AssetIdentity>,
                     contracts: seq<AssetIdentity>, results: seq<Answer>)
    requires ContractsOf(missing, contracts) && PoolAnswer(lib, world, contracts, results)
    ensures Sort(results).errors == [] <==> forall id :: id in missing ==> !LeftUnresolved(lib, world, missing[id])
  {
    var errors := Sort(results).errors;
    SortMembers(results);
    if errors != [] {
      assert errors[0] in errors;
      PoolReports(lib, world, contracts, results, errors[0], Unresolved);
    }
    forall id | id in missing && LeftUnresolved(lib, world, missing[id])
      ensures missing[id] in errors
    {
      PoolReports(lib, world, contracts, results, missing[id], Unresolved);
    }
  }

  /** Splits the misses, runs the pool and gathers everything that can be priced. */
  method GatherTargets(lib: Library, world: World, missing: map<string, AssetIdentity>)
    returns (targets: seq<Target>, unsupported: seq<AssetIdentity>, errors: seq<AssetIdentity>)
    requires Keyed(lib.codec, missing)
    ensures AllTargets(lib, world, missing, targets)
    ensures RejectedContracts(lib, world, missing, unsupported)
    ensures errors == [] <==> forall id :: id in missing ==> !LeftUnresolved(lib, world, missing[id])
  {
    var direct, contracts := SplitMissing(lib.codec, missing);
    var results := ResolvePool.Resolve(contracts, (a: AssetIdentity) => ResolveSAC(lib, world, a.contractId));
    assert PoolAnswer(lib, world, contracts, results);
    var resolved;
    resolved, unsupported, errors := Collect(results);
    targets := direct + resolved;
    SortedTargets(lib, world, missing, direct, contracts, results);
    SortedRejections(lib, world, missing, contracts, results);
    SortedErrors(lib, world, missing, contracts, results);
  }

  /** Unsupported contracts are remembered as having no price. */
  method Negatives(unsupported: seq<AssetIdentity>) returns (entries: map<string, CacheValue>)
    ensures forall id :: id in entries <==> exists a :: a in unsupported && CanonicalID(a) == id
    ensures forall id :: id in entries ==> entries[id] == Decoded(false, None)
  {
    entries := map[];
    for n := 0 to |unsupported|
      invariant forall id :: id in entries <==> exists i :: 0 <= i < n && CanonicalID(unsupported[i]) == id
      invariant forall id :: id in entries ==> entries[id] == Decoded(false, None)
    {
      entries := entries[CanonicalID(unsupported[n]) := Decoded(false, None)];
    }
  }

  /** A reply in which some record's identity cannot be read. */
  ghost predicate Garbled(world: World) {
    world.priceReply.Records? && HasUnreadable(world.priceReply.records)
  }

  /** The batch answers for each asset asked about, even when the exchange failed. */
  method FetchVerdicts(lib: Library, world: World, assets: seq<AssetIdentity>) returns (batch: Batch, failed: bool)
    requires Lawful(lib.codec) && Priceable(lib.codec, assets)
    ensures forall a :: a in assets ==> BatchSays(batch, CanonicalID(a)) == PriceVerdict(lib, world, a)
    ensures failed <==>
      (exists a :: a in assets && PriceVerdict(lib, world, a) == Uncertain) || (assets != [] && Garbled(world))
  {
    var errs;
    batch, errs := FetchUSDPrices(lib.codec, lib.ok, assets, world.priceReply);
    failed := errs != [];
    forall a | a in assets ensures BatchSays(batch, CanonicalID(a)) == PriceVerdict(lib, world, a) {
      var i :| 0 <= i < |assets| && assets[i] == a;
      PrintThenParse(lib.codec, a);
      if world.priceReply.Records? {
        assert AgreesWithVerdicts(lib.ok, world.priceReply.records, assets, batch);
      }
    }
    assert Covered(assets, batch) <==> forall a :: a in assets ==> PriceVerdict(lib, world, a) != Uncertain by {
      assert forall i :: 0 <= i < |assets| ==> assets[i] in assets;
    }
    if assets != [] && world.priceReply.Failed? {
      assert assets[0] in assets && PriceVerdict(lib, world, assets[0]) == Uncertain;
    }
  }

  ghost predicate Settled(lib: Library, world: World, missing: map<string, AssetIdentity>,
                          prices: map<string, PriceData>, entries: map<string, CacheValue>) {
    && Recorded(lib, world, missing, prices, entries)
    && forall id :: id in missing ==> (id in entries <==> AssetVerdict(lib, world, missing[id]) != Uncertain)
  }

  lemma TargetsPriceable(lib: Library, world: World, missing: map<string, AssetIdentity>, targets: seq<Target>,
                         t: Target)
    requires Keyed(lib.codec, missing) && AllTargets(lib, world, missing, targets) && t in targets
    ensures IsCanonical(lib.codec, t.underlying) && t.underlying.kind != CONTRACT
    ensures AssetVerdict(lib, world, t.original) == PriceVerdict(lib, world, t.underlying)
  {
    assert GoodTarget(lib, world, missing, t);
  }

  /** The misses that resolved to nothing with a price. */
  ghost predicate RejectedContracts(lib: Library, world: World, missing: map<string, AssetIdentity>,
                                    unsupported: seq<AssetIdentity>)
  {
    forall a :: a in unsupported <==>
      a.kind == CONTRACT && CanonicalID(a) in missing && missing[CanonicalID(a)] == a
          && ResolveSAC(lib, world, a.contractId).Unsupported?
  }

  /** A target or a rejection accounts for every settled miss. */
  lemma EverySettled(lib: Library, world: World, missing: map<string, AssetIdentity>, targets: seq<Target>,
                     unsupported: seq<AssetIdentity>, entries: map<string, CacheValue>, id: string)
    requires Keyed(lib.codec, missing) && AllTargets(lib, world, missing, targets)
    requires RejectedContracts(lib, world, missing, unsupported)
    requires forall a :: a in unsupported ==> CanonicalID(a) in entries
    requires forall t :: t in targets && PriceVerdict(lib, world, t.underlying) != Uncertain ==>
      CanonicalID(t.original) in entries
    requires id in missing && AssetVerdict(lib, world, missing[id]) != Uncertain
    ensures id in entries
  {
    if Underlying(lib, world, missing[id]).Some? {
      var t := Target(missing[id], Underlying(lib, world, missing[id]).value);
      assert t in targets;
    } else {
      assert missing[id] in unsupported;
    }
  }

  /** Something among the misses has a price to ask for. */
  ghost predicate Asks(lib: Library, world: World, missing: map<string, AssetIdentity>) {
    exists id :: id in missing && Underlying(lib, world, missing[id]).Some?
  }

  /** The lookup of these misses has something to report. */
  ghost predicate Fails(lib: Library, world: World, missing: map<string, AssetIdentity>) {
    || (exists id :: id in missing && AssetVerdict(lib, world, missing[id]) == Uncertain)
    || (Asks(lib, world, missing) && Garbled(world))
  }

  ghost predicate PriceUncertain(lib: Library, world: World, a: AssetIdentity) {
    Underlying(lib, world, a).Some? && AssetVerdict(lib, world, a) == Uncertain
  }

  /** A miss is uncertain because its contract did not resolve or because its price is. */
  lemma WhyUncertain(lib: Library, world: World, missing: map<string, AssetIdentity>, targets: seq<Target>)
    requires Keyed(lib.codec, missing) && AllTargets(lib, world, missing, targets)
    ensures (exists id :: id in missing && AssetVerdict(lib, world, missing[id]) == Uncertain) <==>
            || (exists id :: id in missing && LeftUnresolved(lib, world, missing[id]))
            || (exists t :: t in targets && PriceVerdict(lib, world, t.underlying) == Uncertain)
  {
    forall id | id in missing && Underlying(lib, world, missing[id]).Some?
      ensures Target(missing[id], Underlying(lib, world, missing[id]).value) in targets
    {
    }
    forall t | t in targets
      ensures CanonicalID(t.original) in missing
        && AssetVerdict(lib, world, missing[CanonicalID(t.original)]) == PriceVerdict(lib, world, t.underlying)
    {
      TargetsPriceable(lib, world, missing, targets, t);
      assert GoodTarget(lib, world, missing, t);
    }
    if id :| id in missing && PriceUncertain(lib, world, missing[id]) {
      var t := Target(missing[id], Underlying(lib, world, missing[id]).value);
      assert t in targets && PriceVerdict(lib, world, t.underlying) == Uncertain;
    }
  }

  /** Nothing to ask means no targets, and the other way round. */
  lemma AsksIffTargets(lib: Library, world: World, missing: map<string, AssetIdentity>, targets: seq<Target>)
    requires AllTargets(lib, world, missing, targets)
    ensures Asks(lib, world, missing) <==> targets != []
  {
    if targets != [] {
      assert targets[0] in targets && GoodTarget(lib, world, missing, targets[0]);
    }
  }

  /** The errors of the resolution and of the fetch are together what Fails says. */
  lemma FailsBecause(lib: Library, world: World, missing: map<string, AssetIdentity>, targets: seq<Target>,
                     assets: seq<AssetIdentity>, errors: seq<AssetIdentity>)
    requires Keyed(lib.codec, missing) && AllTargets(lib, world, missing, targets)
    requires errors == [] <==> forall id :: id in missing ==> !LeftUnresolved(lib, world, missing[id])
    requires forall t :: t in targets ==> t.underlying in assets
    requires forall a :: a in assets ==> exists t :: t in targets && t.underlying == a
    ensures Fails(lib, world, missing) <==>
            || errors != []
            || (exists a :: a in assets && PriceVerdict(lib, world, a) == Uncertain)
            || (assets != [] && Garbled(world))
  {
    assert assets == [] <==> targets == [] by {
      if targets != [] {
        assert targets[0] in targets;
      }
      if assets != [] {
        assert assets[0] in assets;
      }
    }
    WhyUncertain(lib, world, missing, targets);
    AsksIffTargets(lib, world, missing, targets);
  }

  /** What the provider is asked, and what the answer settles, for a set of misses: every asset
      with a settled verdict gets an entry, and there is an error exactly when Fails says so. */
  method Price(lib: Library, world: World, missing: map<string, AssetIdentity>)
    returns (prices: map<string, PriceData>, entries: map<string, CacheValue>, failed: bool)
    requires Lawful(lib.codec) && Keyed(lib.codec, missing)
    ensures Settled(lib, world, missing, prices, entries)
    ensures failed <==> Fails(lib, world, missing)
  {
    var targets, unsupported, errors := GatherTargets(lib, world, missing);
    var negative := Negatives(unsupported);
    assert Recorded(lib, world, missing, map[], negative);
    forall t | t in targets ensures IsCanonical(lib.codec, t.underlying) && t.underlying.kind != CONTRACT {
      TargetsPriceable(lib, world, missing, targets, t);
    }
    var assets := PriceAssets(lib.codec, targets);
    assert forall i :: 0 <= i < |assets| ==> assets[i] in assets;
    var batch, fetchFailed := FetchVerdicts(lib, world, assets);
    forall t | t in targets ensures Answered(lib, world, missing, batch, t) {
      TargetsPriceable(lib, world, missing, targets, t);
      assert GoodTarget(lib, world, missing, t);
    }
    prices, entries := Record(lib, world, missing, targets, batch, negative);
    failed := errors != [] || fetchFailed;
    forall id | id in missing && AssetVerdict(lib, world, missing[id]) != Uncertain ensures id in entries {
      EverySettled(lib, world, missing, targets, unsupported, entries, id);
    }
    FailsBecause(lib, world, missing, targets, assets, errors);
  }

  ghost function Misses(lib: Library, cache: Cache, now: int, reachable: bool, canonical: map<string, AssetIdentity>):
    map<string, AssetIdentity>
  {
    map id | id in canonical && Hit(lib.ok, cache, reachable, id, now).None? :: canonical[id]
  }

  /** What reading the cache leaves: the priced hits, and the misses. */
  ghost predicate ReadOf(lib: Library, cache: Cache, now: int, reachable: bool, canonical: map<string, AssetIdentity>,
                         found: map<string, PriceData>, missing: map<string, AssetIdentity>) {
    && missing == Misses(lib, cache, now, reachable, canonical)
    && (forall id :: id in found <==>
          id in canonical && Hit(lib.ok, cache, reachable, id, now).Some?
              && Hit(lib.ok, cache, reachable, id, now).value.found)
    && (forall id :: id in found ==> Hit(lib.ok, cache, reachable, id, now).value.data == Some(found[id]))
  }

  function Merge(canonical: map<string, AssetIdentity>, found: map<string, PriceData>, prices: map<string, PriceData>):
    map<string, Option<PriceData>>
  {
    map id | id in canonical ::
      if id in found then Some(found[id]) else if id in prices then Some(prices[id]) else None
  }

  lemma MergeIsAnswer(lib: Library, world: World, cache: Cache, now: int, reachable: bool, canonical: map<string,
                      AssetIdentity>,
                      found: map<string, PriceData>, missing: map<string, AssetIdentity>,
                      prices: map<string, PriceData>, entries: map<string, CacheValue>)
    requires ReadOf(lib, cache, now, reachable, canonical, found, missing)
    requires Settled(lib, world, missing, prices, entries)
    ensures Merge(canonical, found, prices) == Answers(lib, world, cache, now, reachable, canonical)
  {
    forall id | id in canonical
      ensures Merge(canonical, found, prices)[id] == Answers(lib, world, cache, now, reachable, canonical)[id]
    {
      if Hit(lib.ok, cache, reachable, id, now).None? {
        assert id in missing && missing[id] == canonical[id];
      } else {
        assert id !in missing;
        assert id !in entries && id !in prices;
      }
    }
  }

  lemma SettledWrites(lib: Library, world: World, cache: Cache, now: int, reachable: bool, canonical: map<string,
                      AssetIdentity>,
                      missing: map<string, AssetIdentity>, prices: map<string, PriceData>, entries: map<string,
                          CacheValue>)
    requires missing == Misses(lib, cache, now, reachable, canonical)
    requires Settled(lib, world, missing, prices, entries)
    ensures reachable ==> entries == Writes(lib, world, cache, now, reachable, canonical)
    ensures !reachable ==> Writes(lib, world, cache, now, reachable, canonical) == map[]
  {
    forall id | id in canonical && Hit(lib.ok, cache, reachable, id, now).None?
      ensures id in missing && missing[id] == canonical[id]
    {
    }
  }

  lemma PersistNothing(cache: Cache, now: int, persisted: set<string>)
    ensures Persist(cache, map[], now, persisted) == cache
  {
  }

  class StellarPriceService {
    const lib: Library
    var cache: Cache

    constructor (lib: Library)
      ensures this.lib == lib && cache == map[]
    {
      this.lib := lib;
      cache := map[];
    }

    method CanonicalizeAll(assets: seq<AssetIdentity>) returns (canonical: Option<map<string, AssetIdentity>>)
      ensures canonical == CanonicalMap(lib.codec, assets)
    {
      var m: map<string, AssetIdentity> := map[];
      for n := 0 to |assets|
        invariant CanonicalMap(lib.codec, assets[..n]) == Some(m)
      {
        assert assets[..n + 1][..n] == assets[..n];
        match Canonicalize(lib.codec, assets[n])
        case Err(_) =>
          InvalidInput(lib.codec, assets, n);
          return None;
        case Ok(a) =>
          m := m[CanonicalID(a) := a];
      }
      assert assets[..|assets|] == assets;
      canonical := Some(m);
    }

    /** readStellarPriceCache: usable entries, and the identities still to be looked up. */
    method ReadCache(canonical: map<string, AssetIdentity>, now: int, reachable: bool)
      returns (found: map<string, PriceData>, missing: map<string, AssetIdentity>)
      ensures ReadOf(lib, cache, now, reachable, canonical, found, missing)
    {
      found, missing := map[], map[];
      if !reachable {
        missing := canonical;
        return;
      }
      var todo := canonical.Keys;
      while todo != {}
        invariant todo <= canonical.Keys
        invariant missing == map id | id in canonical && id !in todo
          && Hit(lib.ok, cache, reachable, id, now).None? :: canonical[id]
        invariant forall id :: id in found <==>
          id in canonical && id !in todo && Hit(lib.ok, cache, reachable, id, now).Some?
              && Hit(lib.ok, cache, reachable, id, now).value.found
        invariant forall id :: id in found ==> Hit(lib.ok, cache, reachable, id, now).value.data == Some(found[id])
        decreases todo
      {
        var id :| id in todo;
        var value := Redis.Get(cache, id, now);
        if value.None? || !ValidEntry(lib.ok, value.value) {
          missing := missing[id := canonical[id]];
        } else if value.value.found {
          found := found[id := value.value.data.value];
        }
        todo := todo - {id};
      }
    }

    /** LookupUSD. The answer and the new cache are the functions of what was read that the
        run properties are about, and there is an error exactly when some miss stayed uncertain or
        the provider's reply was garbled. */
    method LookupUSD(assets: seq<AssetIdentity>, world: World, readAt: int, reachable: bool,
                     writeAt: int, persisted: set<string>)
      returns (result: Option<map<string, Option<PriceData>>>, failed: bool)
      requires Lawful(lib.codec)
      modifies this
      ensures result.Some? <==> CanonicalMap(lib.codec, assets).Some?
      ensures result.None? ==> failed && cache == old(cache)
      ensures result.Some? ==>
        var canonical := CanonicalMap(lib.codec, assets).value;
        && result.value == Answers(lib, world, old(cache), readAt, reachable, canonical)
        && cache == Persist(old(cache), Writes(lib, world, old(cache), readAt, reachable, canonical), writeAt,
           persisted)
        && (failed <==> Fails(lib, world, Misses(lib, old(cache), readAt, reachable, canonical)))
        && (!reachable ==> cache == old(cache))
        && (forall id :: id in old(cache) && Hit(lib.ok, old(cache), reachable, id, readAt).Some? ==>
              id in cache && cache[id] == old(cache)[id])
    {
      var inputs := CanonicalizeAll(assets);
      if inputs.None? {
        return None, true;
      }
      var canonical := inputs.value;
      var found, missing := ReadCache(canonical, readAt, reachable);
      var prices, entries;
      prices, entries, failed := Price(lib, world, missing);
      result := Some(Merge(canonical, found, prices));
      assert Settled(lib, world, missing, prices, entries);
      MergeIsAnswer(lib, world, cache, readAt, reachable, canonical, found, missing, prices, entries);
      SettledWrites(lib, world, cache, readAt, reachable, canonical, missing, prices, entries);
      if reachable {
        cache := Persist(cache, entries, writeAt, persisted);
      } else {
        PersistNothing(cache, writeAt, persisted);
      }
    }
  }

  lemma {:induction false} InvalidInput(codec: Codec, assets: seq<AssetIdentity>, n: nat)
    requires n < |assets| && Canonicalize(codec, assets[n]).Err?
    ensures CanonicalMap(codec, assets).None?
    decreases |assets|
  {
    if n < |assets| - 1 {
      InvalidInput(codec, assets[..|assets| - 1], n);
    }
  }
}
