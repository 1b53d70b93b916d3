/** The price provider's reply, sorted into priced, definitely absent and uncertain. */
module Provider {
  import opened Wrappers
  import opened Strkey
  import opened Assets

  /** One record of the provider's array. `Malformed` is a record whose JSON does not
      decode; `price` is the JSON number's text, or None when it is not a number. */
  datatype Record = Malformed | Record(asset: string, price: Option<string>)

  /** What the HTTP exchange produced: a usable record array, or a failure. */
  datatype Reply = Failed | Records(records: seq<Record>)

  datatype Batch = Batch(prices: map<string, string>, absent: set<string>)

  datatype FetchError =
    | UnsupportedAsset | ProviderFailed
    | MalformedIdentity(index: nat) | DuplicateRecord(asset: string) | InvalidPrice(asset: string)

  datatype Verdict = Priced(text: string) | Absent | Uncertain

  predicate Unreadable(r: Record) { r.Malformed? || r.asset == "" }

  predicate Names(r: Record, pid: string) { !Unreadable(r) && r.asset == pid }

  /** `ok` is "parses to a finite positive float64". */
  predicate ValidPrice(ok: string -> bool, r: Record) {
    r.Record? && r.price.Some? && ok(r.price.value)
  }

  function CountNaming(records: seq<Record>, pid: string): nat {
    if records == [] then 0
    else CountNaming(records[..|records| - 1], pid) + (if Names(records[|records| - 1], pid) then 1 else 0)
  }

  ghost predicate HasUnreadable(records: seq<Record>) {
    exists i :: 0 <= i < |records| && Unreadable(records[i])
  }

  predicate NamesAtPrice(ok: string -> bool, r: Record, pid: string, text: string) {
    Names(r, pid) && ValidPrice(ok, r) && r.price.value == text
  }

  /** Exactly one record names `pid`, and its price is the valid number `text`. */
  ghost predicate PricedAs(ok: string -> bool, records: seq<Record>, pid: string, text: string) {
    && CountNaming(records, pid) == 1
    && exists i :: 0 <= i < |records| && NamesAtPrice(ok, records[i], pid, text)
  }

  /** The declarative verdict on one provider id. */
  ghost function VerdictOf(ok: string -> bool, records: seq<Record>, pid: string): Verdict {
    if exists t :: PricedAs(ok, records, pid, t) then
      var t :| PricedAs(ok, records, pid, t); Priced(t)
    else if CountNaming(records, pid) == 0 && !HasUnreadable(records) then Absent
    else Uncertain
  }

  /** The verdict a batch carries for a canonical id; a price wins over an omission. */
  function BatchSays(b: Batch, id: string): Verdict {
    if id in b.prices then Priced(b.prices[id])
    else if id in b.absent then Absent
    else Uncertain
  }

  lemma {:induction false} NamingCounts(records: seq<Record>, pid: string, i: nat)
    requires i < |records| && Names(records[i], pid)
    ensures CountNaming(records, pid) >= 1
  {
    if i < |records| - 1 {
      NamingCounts(records[..|records| - 1], pid, i);
    }
  }

  lemma {:induction false} TwoNamingsCount(records: seq<Record>, pid: string, i: nat, j: nat)
    requires i < j < |records| && Names(records[i], pid) && Names(records[j], pid)
    ensures CountNaming(records, pid) >= 2
  {
    if j == |records| - 1 {
      NamingCounts(records[..j], pid, i);
    } else {
      TwoNamingsCount(records[..|records| - 1], pid, i, j);
    }
  }

  /** A provider id has at most one price. */
  lemma PricedAsUnique(ok: string -> bool, records: seq<Record>, pid: string, s: string, t: string)
    requires PricedAs(ok, records, pid, s) && PricedAs(ok, records, pid, t)
    ensures s == t
  {
    var i :| 0 <= i < |records| && NamesAtPrice(ok, records[i], pid, s);
    var j :| 0 <= j < |records| && NamesAtPrice(ok, records[j], pid, t);
    if i < j {
      TwoNamingsCount(records, pid, i, j);
    } else if j < i {
      TwoNamingsCount(records, pid, j, i);
    }
  }

  /** Scanning one more record: how the verdict on `pid` moves. */
  lemma PricedAsStep(ok: string -> bool, records: seq<Record>, r: Record, pid: string, text: string)
    ensures CountNaming(records + [r], pid) == CountNaming(records, pid) + (if Names(r, pid) then 1 else 0)
    ensures !Names(r, pid) ==> (PricedAs(ok, records + [r], pid, text) <==> PricedAs(ok, records, pid, text))
    ensures Names(r, pid) ==>
              (PricedAs(ok, records + [r], pid, text) <==>
                 CountNaming(records, pid) == 0 && ValidPrice(ok, r) && r.price.value == text)
  {
    var all := records + [r];
    assert all[..|all| - 1] == records;
    assert all[|records|] == r;
    if PricedAs(ok, records, pid, text) && !Names(r, pid) {
      var i :| 0 <= i < |records| && NamesAtPrice(ok, records[i], pid, text);
      assert all[i] == records[i];
    }
    if PricedAs(ok, all, pid, text) {
      var i :| 0 <= i < |all| && NamesAtPrice(ok, all[i], pid, text);
      if i < |records| {
        NamingCounts(records, pid, i);
        assert records[i] == all[i];
      }
    }
  }

  /** Record `i` names the asset. */
  predicate NamedAt(records: seq<Record>, pid: string, i: int)
    requires 0 <= i < |records|
  {
    records[i].Record? && records[i].asset == pid
  }

  lemma {:induction false} OnlyNaming(records: seq<Record>, pid: string, i: nat)
    requires pid != "" && i < |records| && NamedAt(records, pid, i)
    requires forall j :: 0 <= j < |records| && j != i ==> !NamedAt(records, pid, j)
    ensures CountNaming(records, pid) == 1
  {
    var n := |records| - 1;
    if i < n {
      assert !NamedAt(records, pid, n);
      assert forall j :: 0 <= j < n ==> (NamedAt(records[..n], pid, j) <==> NamedAt(records, pid, j));
      OnlyNaming(records[..n], pid, i);
    } else {
      forall j | 0 <= j < n ensures !NamedAt(records[..n], pid, j) {
        assert !NamedAt(records, pid, j);
      }
      NoNaming(records[..n], pid);
    }
  }

  lemma {:induction false} NoNaming(records: seq<Record>, pid: string)
    requires forall j :: 0 <= j < |records| ==> !NamedAt(records, pid, j)
    ensures CountNaming(records, pid) == 0
  {
    if records != [] {
      var n := |records| - 1;
      assert !NamedAt(records, pid, n);
      assert forall j :: 0 <= j < n ==> (NamedAt(records[..n], pid, j) <==> NamedAt(records, pid, j));
      NoNaming(records[..n], pid);
    }
  }

  /** The verdict in terms of the records themselves. A price: one record names the asset, no other
      does, and its price is a good number. Absent: every record is readable and none names it. */
  lemma VerdictSpelled(ok: string -> bool, records: seq<Record>, pid: string, t: string)
    requires pid != ""
    ensures VerdictOf(ok, records, pid) == Priced(t) <==>
      && ok(t)
      && exists i :: 0 <= i < |records| && records[i] == Record(pid, Some(t))
                     && forall j :: 0 <= j < |records| && j != i ==> !NamedAt(records, pid, j)
    ensures VerdictOf(ok, records, pid) == Absent <==>
      forall j :: 0 <= j < |records| ==> records[j].Record? && records[j].asset != "" && records[j].asset != pid
  {
    PricedSpelled(ok, records, pid, t);
    if s :| PricedAs(ok, records, pid, s) && PricedAs(ok, records, pid, t) {
      PricedAsUnique(ok, records, pid, s, t);
    }
    forall u, v | PricedAs(ok, records, pid, u) && PricedAs(ok, records, pid, v) ensures u == v {
      PricedAsUnique(ok, records, pid, u, v);
    }
    AbsentSpelled(records, pid);
    if u :| PricedAs(ok, records, pid, u) {
      assert CountNaming(records, pid) == 1;
    }
  }

  lemma PricedSpelled(ok: string -> bool, records: seq<Record>, pid: string, t: string)
    requires pid != ""
    ensures PricedAs(ok, records, pid, t) <==>
      && ok(t)
      && exists i :: 0 <= i < |records| && records[i] == Record(pid, Some(t))
                     && forall j :: 0 <= j < |records| && j != i ==> !NamedAt(records, pid, j)
  {
    if PricedAs(ok, records, pid, t) {
      var i :| 0 <= i < |records| && NamesAtPrice(ok, records[i], pid, t);
      assert records[i] == Record(pid, Some(t));
      forall j | 0 <= j < |records| && j != i ensures !NamedAt(records, pid, j) {
        if NamedAt(records, pid, j) {
          TwoNamingsCount(records, pid, if i < j then i else j, if i < j then j else i);
        }
      }
    }
    if i :| 0 <= i < |records| && records[i] == Record(pid, Some(t))
            && forall j :: 0 <= j < |records| && j != i ==> !NamedAt(records, pid, j) {
      assert NamedAt(records, pid, i);
      OnlyNaming(records, pid, i);
      assert ok(t) ==> NamesAtPrice(ok, records[i], pid, t);
    }
  }

  lemma AbsentSpelled(records: seq<Record>, pid: string)
    requires pid != ""
    ensures CountNaming(records, pid) == 0 && !HasUnreadable(records) <==>
      forall j :: 0 <= j < |records| ==> records[j].Record? && records[j].asset != "" && records[j].asset != pid
  {
    if CountNaming(records, pid) == 0 && !HasUnreadable(records) {
      forall j | 0 <= j < |records| ensures records[j].Record? && records[j].asset != "" && records[j].asset != pid {
        assert !Unreadable(records[j]);
        if Names(records[j], pid) {
          NamingCounts(records, pid, j);
        }
      }
    }
    if forall j :: 0 <= j < |records| ==> records[j].Record? && records[j].asset != "" && records[j].asset != pid {
      NoNaming(records, pid);
    }
  }

  // ---- The requested ids ----------------------------------------------------

  ghost predicate Injective(m: map<string, string>) {
    forall p, q :: p in m && q in m && m[p] == m[q] ==> p == q
  }

  /** The provider ids asked for, each with the canonical id of the first asset that has it. */
  method BuildRequested(assets: seq<AssetIdentity>) returns (requested: map<string, string>, bad: bool)
    ensures bad <==> exists i :: 0 <= i < |assets| && ProviderID(assets[i]).None?
    ensures !bad ==> forall i :: 0 <= i < |assets| ==> ProviderID(assets[i]).value in requested
    ensures !bad ==> Covers(assets, requested)
  {
    requested, bad := map[], false;
    for n := 0 to |assets|
      invariant !bad
      invariant forall i :: 0 <= i < n ==> ProviderID(assets[i]).Some? && ProviderID(assets[i]).value in requested
      invariant forall p :: p in requested ==>
        exists i :: 0 <= i < n && ProviderID(assets[i]) == Some(p) && requested[p] == CanonicalID(assets[i])
    {
      var pid := ProviderID(assets[n]);
      if pid.None? {
        return map[], true;
      }
      if pid.value !in requested {
        requested := requested[pid.value := CanonicalID(assets[n])];
      }
    }
  }

  // ---- The record loop --------------------------------------------------------

  /** A record the loop complains about: unreadable, a repeat, or badly priced. */
  ghost predicate Faulty(ok: string -> bool, requested: map<string, string>, records: seq<Record>, i: int)
    requires 0 <= i < |records|
  {
    || Unreadable(records[i])
    || (records[i].asset in requested
        && (CountNaming(records[..i], records[i].asset) > 0 || !ValidPrice(ok, records[i])))
  }

  /** The prices collected so far are exactly those of the records read so far. */
  ghost predicate Collected(ok: string -> bool, requested: map<string, string>, records: seq<Record>,
                            prices: map<string, string>)
  {
    forall p, t :: p in requested ==>
      (PricedAs(ok, records, p, t) <==> requested[p] in prices && prices[requested[p]] == t)
  }

  /** What one record does to the prices: a repeat withdraws the price, a first valid one enters it. */
  function Collect(ok: string -> bool, requested: map<string, string>, repeated: bool, prices: map<string, string>,
                   r: Record): map<string, string>
  {
    if Unreadable(r) || r.asset !in requested then prices
    else if repeated then prices - {requested[r.asset]}
    else if !ValidPrice(ok, r) then prices
    else prices[requested[r.asset] := r.price.value]
  }

  lemma CollectStep(ok: string -> bool, requested: map<string, string>, records: seq<Record>, prices: map<string,
                    string>, r: Record)
    requires Injective(requested) && Collected(ok, requested, records, prices)
    ensures var repeated := !Unreadable(r) && CountNaming(records, r.asset) > 0;
            Collected(ok, requested, records + [r], Collect(ok, requested, repeated, prices, r))
  {
    var next := Collect(ok, requested, !Unreadable(r) && CountNaming(records, r.asset) > 0, prices, r);
    forall p, t | p in requested
      ensures PricedAs(ok, records + [r], p, t) <==> requested[p] in next && next[requested[p]] == t
    {
      PricedAsStep(ok, records, r, p, t);
      if requested[p] in prices {
        assert PricedAs(ok, records, p, prices[requested[p]]);
      }
    }
  }

  method ScanRecords(ok: string -> bool, requested: map<string, string>, records: seq<Record>)
    returns (prices: map<string, string>, seen: set<string>, errs: seq<FetchError>, unknown: bool)
    ensures unknown <==> HasUnreadable(records)
    ensures forall p :: p in seen <==> p in requested && CountNaming(records, p) > 0
    ensures prices.Keys <= requested.Values
    ensures Injective(requested) ==> Collected(ok, requested, records, prices)
    ensures errs == [] <==> forall i :: 0 <= i < |records| ==> !Faulty(ok, requested, records, i)
  {
    prices, seen, errs, unknown := map[], {}, [], false;
    for n := 0 to |records|
      invariant unknown <==> HasUnreadable(records[..n])
      invariant forall p :: p in seen <==> p in requested && CountNaming(records[..n], p) > 0
      invariant prices.Keys <= requested.Values
      invariant Injective(requested) ==> Collected(ok, requested, records[..n], prices)
      invariant errs == [] <==> forall i :: 0 <= i < n ==> !Faulty(ok, requested, records, i)
    {
      var r := records[n];
      assert records[..n + 1] == records[..n] + [r];
      forall p {
        PricedAsStep(ok, records[..n], r, p, "");
      }
      if Injective(requested) {
        CollectStep(ok, requested, records[..n], prices, r);
      }
      assert unknown || Unreadable(r) <==> HasUnreadable(records[..n + 1]) by {
        assert Unreadable(r) ==> Unreadable(records[..n + 1][n]);
        assert forall i :: 0 <= i < n ==> records[..n][i] == records[..n + 1][i];
      }
      assert Faulty(ok, requested, records, n) <==>
             Unreadable(r) || (r.asset in requested && (r.asset in seen || !ValidPrice(ok, r)));
      if Unreadable(r) {
        unknown := true;
        errs := errs + [MalformedIdentity(n)];
      } else if r.asset in requested {
        if r.asset in seen {
          prices := prices - {requested[r.asset]};
          errs := errs + [DuplicateRecord(r.asset)];
        } else {
          seen := seen + {r.asset};
          if !ValidPrice(ok, r) {
            errs := errs + [InvalidPrice(r.asset)];
          } else {
            prices := prices[requested[r.asset] := r.price.value];
          }
        }
      }
    }
    assert records[..|records|] == records;
  }

  /** The canonical ids of the requested assets no record named. */
  method Omissions(requested: map<string, string>, seen: set<string>) returns (absent: set<string>)
    ensures absent == set p | p in requested && p !in seen :: requested[p]
  {
    absent := {};
    var todo := requested.Keys;
    while todo != {}
      invariant todo <= requested.Keys
      invariant absent == set p | p in requested && p !in seen && p !in todo :: requested[p]
      decreases todo
    {
      var p :| p in todo;
      if p !in seen {
        absent := absent + {requested[p]};
      }
      todo := todo - {p};
    }
  }

  /** Canonical native or classic assets: what LookupUSD passes to the provider. */
  ghost predicate Priceable(codec: Codec, assets: seq<AssetIdentity>) {
    forall i :: 0 <= i < |assets| ==> IsCanonical(codec, assets[i]) && assets[i].kind != CONTRACT
  }

  /** `requested` maps provider ids to the canonical ids of some of the assets. */
  ghost predicate Covers(assets: seq<AssetIdentity>, requested: map<string, string>) {
    forall p :: p in requested ==>
      exists i :: 0 <= i < |assets| && ProviderID(assets[i]) == Some(p) && requested[p] == CanonicalID(assets[i])
  }

  lemma RequestedInjective(codec: Codec, assets: seq<AssetIdentity>, requested: map<string, string>)
    requires Lawful(codec) && Priceable(codec, assets) && Covers(assets, requested)
    ensures Injective(requested)
  {
    forall p, q | p in requested && q in requested && requested[p] == requested[q]
      ensures p == q
    {
      var i :| 0 <= i < |assets| && ProviderID(assets[i]) == Some(p) && requested[p] == CanonicalID(assets[i]);
      var j :| 0 <= j < |assets| && ProviderID(assets[j]) == Some(q) && requested[q] == CanonicalID(assets[j]);
      CanonicalIDInjective(codec, assets[i], assets[j]);
    }
  }

  lemma RequestedExact(codec: Codec, assets: seq<AssetIdentity>, requested: map<string, string>, i: nat)
    requires Lawful(codec) && Priceable(codec, assets) && Covers(assets, requested) && i < |assets|
    requires ProviderID(assets[i]).Some? && ProviderID(assets[i]).value in requested
    ensures requested[ProviderID(assets[i]).value] == CanonicalID(assets[i])
  {
    var p := ProviderID(assets[i]).value;
    var j :| 0 <= j < |assets| && ProviderID(assets[j]) == Some(p) && requested[p] == CanonicalID(assets[j]);
    ProviderIDInjective(codec, assets[i], assets[j]);
  }

  ghost predicate AgreesWithVerdicts(ok: string -> bool, records: seq<Record>, assets: seq<AssetIdentity>, batch: Batch)
  {
    forall i :: 0 <= i < |assets| && ProviderID(assets[i]).Some? ==>
      BatchSays(batch, CanonicalID(assets[i])) == VerdictOf(ok, records, ProviderID(assets[i]).value)
  }

  /** What the record loop and the omission loop leave behind for one reply. */
  ghost predicate Scanned(ok: string -> bool, requested: map<string, string>, records: seq<Record>, batch: Batch) {
    && (forall p, t :: p in requested ==>
          (PricedAs(ok, records, p, t) <==> requested[p] in batch.prices && batch.prices[requested[p]] == t))
    && (forall p :: p in requested ==>
          (requested[p] in batch.absent <==> CountNaming(records, p) == 0 && !HasUnreadable(records)))
  }

  lemma ScannedAgrees(codec: Codec, ok: string -> bool, assets: seq<AssetIdentity>,
                      requested: map<string, string>, records: seq<Record>, batch: Batch)
    requires Lawful(codec) && Priceable(codec, assets) && Covers(assets, requested)
    requires forall i :: 0 <= i < |assets| ==> ProviderID(assets[i]).Some? && ProviderID(assets[i]).value in requested
    requires Scanned(ok, requested, records, batch)
    ensures AgreesWithVerdicts(ok, records, assets, batch)
  {
    forall i | 0 <= i < |assets|
      ensures BatchSays(batch, CanonicalID(assets[i])) == VerdictOf(ok, records, ProviderID(assets[i]).value)
    {
      var p := ProviderID(assets[i]).value;
      RequestedExact(codec, assets, requested, i);
      var id := requested[p];
      if id in batch.prices {
        assert PricedAs(ok, records, p, batch.prices[id]);
        forall t | PricedAs(ok, records, p, t) ensures t == batch.prices[id] {
          PricedAsUnique(ok, records, p, t, batch.prices[id]);
        }
      }
    }
  }

  /** A reply without complaints leaves no requested asset uncertain. */
  lemma CleanSettles(ok: string -> bool, requested: map<string, string>, records: seq<Record>, p: string)
    requires p in requested
    requires forall i :: 0 <= i < |records| ==> !Faulty(ok, requested, records, i)
    ensures !HasUnreadable(records)
    ensures CountNaming(records, p) == 0 || exists t :: PricedAs(ok, records, p, t)
  {
    assert forall i :: 0 <= i < |records| && Unreadable(records[i]) ==> Faulty(ok, requested, records, i);
    if CountNaming(records, p) > 0 {
      assert records[..|records|] == records;
      CleanCount(ok, requested, records, p, |records|);
    }
  }

  lemma {:induction false} CleanCount(ok: string -> bool, requested: map<string, string>, records: seq<Record>,
                                      p: string, n: nat)
    requires p in requested && n <= |records| && CountNaming(records[..n], p) > 0
    requires forall i :: 0 <= i < |records| ==> !Faulty(ok, requested, records, i)
    ensures exists t :: PricedAs(ok, records[..n], p, t)
    ensures n == |records| ==> exists t :: PricedAs(ok, records, p, t)
  {
    var r := records[n - 1];
    assert records[..n] == records[..n - 1] + [r];
    assert !Faulty(ok, requested, records, n - 1);
    assert n == |records| ==> records[..n] == records;
    if Names(r, p) {
      PricedAsStep(ok, records[..n - 1], r, p, r.price.value);
    } else {
      PricedAsStep(ok, records[..n - 1], r, p, "");
      CleanCount(ok, requested, records, p, n - 1);
      var t :| PricedAs(ok, records[..n - 1], p, t);
      PricedAsStep(ok, records[..n - 1], r, p, t);
    }
  }

  lemma {:induction false} CountWitness(records: seq<Record>, p: string) returns (i: nat)
    requires CountNaming(records, p) > 0
    ensures i < |records| && Names(records[i], p)
  {
    var n := |records| - 1;
    if Names(records[n], p) {
      i := n;
    } else {
      i := CountWitness(records[..n], p);
    }
  }

  /** Conversely, the loop has nothing to complain about when every identity is readable and
      every requested asset is settled. */
  lemma SettledIsClean(ok: string -> bool, requested: map<string, string>, records: seq<Record>, i: nat)
    requires !HasUnreadable(records) && i < |records|
    requires forall p :: p in requested ==> CountNaming(records, p) == 0 || exists t :: PricedAs(ok, records, p, t)
    ensures !Faulty(ok, requested, records, i)
  {
    assert !Unreadable(records[i]);
    var p := records[i].asset;
    if p in requested {
      NamingCounts(records, p, i);
      var t :| PricedAs(ok, records, p, t);
      var j :| 0 <= j < |records| && NamesAtPrice(ok, records[j], p, t);
      if i != j {
        TwoNamingsCount(records, p, if i < j then i else j, if i < j then j else i);
      }
      if CountNaming(records[..i], p) > 0 {
        var k := CountWitness(records[..i], p);
        TwoNamingsCount(records, p, k, i);
      }
    }
  }

  lemma ScannedDisjoint(ok: string -> bool, requested: map<string, string>, records: seq<Record>, batch: Batch)
    requires Scanned(ok, requested, records, batch)
    requires batch.prices.Keys <= requested.Values
    ensures batch.prices.Keys !! batch.absent
  {
    forall id | id in batch.prices ensures id !in batch.absent {
      var p :| p in requested && requested[p] == id;
      assert PricedAs(ok, records, p, batch.prices[id]);
    }
  }

  /** Every asset asked about is priced or absent. */
  ghost predicate Covered(assets: seq<AssetIdentity>, batch: Batch) {
    forall i :: 0 <= i < |assets| ==> CanonicalID(assets[i]) in batch.prices.Keys + batch.absent
  }

  lemma CleanIffCovered(codec: Codec, ok: string -> bool, assets: seq<AssetIdentity>,
                        requested: map<string, string>, records: seq<Record>, batch: Batch)
    requires Lawful(codec) && Priceable(codec, assets) && Covers(assets, requested)
    requires forall i :: 0 <= i < |assets| ==> ProviderID(assets[i]).Some? && ProviderID(assets[i]).value in requested
    requires Scanned(ok, requested, records, batch)
    ensures (forall i :: 0 <= i < |records| ==> !Faulty(ok, requested, records, i)) <==>
      !HasUnreadable(records) && Covered(assets, batch)
  {
    if forall i :: 0 <= i < |records| ==> !Faulty(ok, requested, records, i) {
      assert !HasUnreadable(records) by {
        assert forall i :: 0 <= i < |records| && Unreadable(records[i]) ==> Faulty(ok, requested, records, i);
      }
      forall i | 0 <= i < |assets| ensures CanonicalID(assets[i]) in batch.prices.Keys + batch.absent {
        RequestedExact(codec, assets, requested, i);
        CleanSettles(ok, requested, records, ProviderID(assets[i]).value);
      }
    }
    if !HasUnreadable(records) && Covered(assets, batch) {
      forall p | p in requested ensures CountNaming(records, p) == 0 || exists t :: PricedAs(ok, records, p, t) {
        var i :| 0 <= i < |assets| && ProviderID(assets[i]) == Some(p) && requested[p] == CanonicalID(assets[i]);
        if requested[p] in batch.prices {
          assert PricedAs(ok, records, p, batch.prices[requested[p]]);
        }
      }
      forall i | 0 <= i < |records| ensures !Faulty(ok, requested, records, i) {
        SettledIsClean(ok, requested, records, i);
      }
    }
  }

  /** FetchUSDPrices. For canonical assets the batch carries exactly the declarative verdict
      on each; priced and absent never overlap; and there is no error exactly when nothing was
      asked, or every identity in the reply is readable and every asset asked about is settled. */
  method FetchUSDPrices(ghost codec: Codec, ok: string -> bool, assets: seq<AssetIdentity>, reply: Reply)
    returns (batch: Batch, errs: seq<FetchError>)
    ensures assets == [] ==> batch == Batch(map[], {}) && errs == []
    ensures assets != [] && (reply.Failed? || exists i :: 0 <= i < |assets| && ProviderID(assets[i]).None?) ==>
      batch == Batch(map[], {}) && errs != []
    ensures batch.prices.Keys + batch.absent <= set i | 0 <= i < |assets| :: CanonicalID(assets[i])
    ensures Lawful(codec) && Priceable(codec, assets) && assets != [] && reply.Records? ==>
      && AgreesWithVerdicts(ok, reply.records, assets, batch)
      && batch.prices.Keys !! batch.absent
    ensures Lawful(codec) && Priceable(codec, assets) ==>
      (errs == [] <==> assets == [] || (reply.Records? && !HasUnreadable(reply.records) && Covered(assets, batch)))
  {
    batch, errs := Batch(map[], {}), [];
    if assets == [] {
      return;
    }
    var requested, bad := BuildRequested(assets);
    if bad {
      if Lawful(codec) && Priceable(codec, assets) {
        var i :| 0 <= i < |assets| && ProviderID(assets[i]).None?;
        PrintThenParse(codec, assets[i]);
      }
      return batch, [UnsupportedAsset];
    }
    if reply.Failed? {
      return batch, [ProviderFailed];
    }
    var prices, seen, recordErrs, unknown := ScanRecords(ok, requested, reply.records);
    var absent := {};
    if !unknown {
      absent := Omissions(requested, seen);
    }
    batch, errs := Batch(prices, absent), recordErrs;
    assert requested.Values <= set i | 0 <= i < |assets| :: CanonicalID(assets[i]);
    if Lawful(codec) && Priceable(codec, assets) {
      RequestedInjective(codec, assets, requested);
      assert Scanned(ok, requested, reply.records, batch);
      ScannedAgrees(codec, ok, assets, requested, reply.records, batch);
      ScannedDisjoint(ok, requested, reply.records, batch);
      CleanIffCovered(codec, ok, assets, requested, reply.records, batch);
    }
  }
}
