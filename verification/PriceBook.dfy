/** A provider that keeps one book of records and answers each query out of it, with the records
    of the assets asked about and no others. Lookups that find different things cached send
    different queries and get different replies; what they return is the same. */
module PriceBook {
  import opened Wrappers
  import opened Strkey
  import opened Assets
  import opened Provider
  import opened PriceLookup

  /** The records that name an asset asked about. */
  function Only(records: seq<Record>, asked: set<string>): seq<Record> {
    if records == [] then []
    else
      var n := |records| - 1;
      Only(records[..n], asked) + (if records[n].Record? && records[n].asset in asked then [records[n]] else [])
  }

  lemma {:induction false} OnlyReadable(records: seq<Record>, asked: set<string>, i: nat)
    requires !HasUnreadable(records) && i < |Only(records, asked)|
    ensures !Unreadable(Only(records, asked)[i])
  {
    var n := |records| - 1;
    assert !Unreadable(records[n]);
    assert !HasUnreadable(records[..n]) by {
      assert forall j :: 0 <= j < n ==> records[..n][j] == records[j];
    }
    if i < |Only(records[..n], asked)| {
      OnlyReadable(records[..n], asked, i);
    }
  }

  lemma {:induction false} OnlyPriced(ok: string -> bool, records: seq<Record>, asked: set<string>, p: string,
                                      t: string)
    requires p in asked
    ensures CountNaming(Only(records, asked), p) == CountNaming(records, p)
    ensures PricedAs(ok, Only(records, asked), p, t) <==> PricedAs(ok, records, p, t)
  {
    if records != [] {
      var n := |records| - 1;
      var before, last := records[..n], records[n];
      assert records == before + [last];
      OnlyPriced(ok, before, asked, p, t);
      PricedAsStep(ok, before, last, p, t);
      PricedAsStep(ok, Only(before, asked), last, p, t);
      assert Only(before, asked) + [] == Only(before, asked);
    }
  }

  /** Leaving out what was not asked does not change the verdict on what was. */
  lemma OnlyVerdict(ok: string -> bool, records: seq<Record>, asked: set<string>, p: string)
    requires p in asked && !HasUnreadable(records)
    ensures VerdictOf(ok, Only(records, asked), p) == VerdictOf(ok, records, p)
  {
    forall i | 0 <= i < |Only(records, asked)| ensures !Unreadable(Only(records, asked)[i]) {
      OnlyReadable(records, asked, i);
    }
    OnlyPriced(ok, records, asked, p, "");
    forall t ensures PricedAs(ok, Only(records, asked), p, t) <==> PricedAs(ok, records, p, t) {
      OnlyPriced(ok, records, asked, p, t);
    }
    forall s, t | PricedAs(ok, records, p, s) && PricedAs(ok, records, p, t) ensures s == t {
      PricedAsUnique(ok, records, p, s, t);
    }
  }

  /** The provider id whose price stands for an asset, if it has one. */
  ghost function PricedThrough(lib: Library, world: World, a: AssetIdentity): Option<string> {
    var u := Underlying(lib, world, a);
    if u.Some? then ProviderID(u.value) else None
  }

  /** The reply to a query that asks at least about what the lookup misses. */
  ghost predicate Extract(lib: Library, book: World, asked: set<string>, cache: Cache, now: int, reachable: bool,
                          world: World, canonical: map<string, AssetIdentity>) {
    && book.priceReply.Records?
    && world == World(book.contractReply, Records(Only(book.priceReply.records, asked)))
    && forall id :: id in canonical && Hit(lib.ok, cache, reachable, id, now).None? ==>
         var p := PricedThrough(lib, book, canonical[id]);
         p.Some? ==> p.value in asked
  }

  lemma ExtractPrice(lib: Library, book: World, asked: set<string>, a: AssetIdentity)
    requires book.priceReply.Records? && !HasUnreadable(book.priceReply.records)
    requires ProviderID(a).Some? ==> ProviderID(a).value in asked
    ensures var world := World(book.contractReply, Records(Only(book.priceReply.records, asked)));
            PriceVerdict(lib, world, a) == PriceVerdict(lib, book, a)
  {
    if ProviderID(a).Some? {
      OnlyVerdict(lib.ok, book.priceReply.records, asked, ProviderID(a).value);
    }
  }

  lemma SameContracts(lib: Library, v: World, w: World, contractId: string)
    requires v.contractReply == w.contractReply
    ensures ResolveSAC(lib, v, contractId) == ResolveSAC(lib, w, contractId)
  {
  }

  lemma ExtractVerdict(lib: Library, book: World, asked: set<string>, a: AssetIdentity)
    requires book.priceReply.Records? && !HasUnreadable(book.priceReply.records)
    requires PricedThrough(lib, book, a).Some? ==> PricedThrough(lib, book, a).value in asked
    ensures var world := World(book.contractReply, Records(Only(book.priceReply.records, asked)));
            AssetVerdict(lib, world, a) == AssetVerdict(lib, book, a)
  {
    SameContracts(lib, World(book.contractReply, Records(Only(book.priceReply.records, asked))), book, a.contractId);
    if Underlying(lib, book, a).Some? {
      ExtractPrice(lib, book, asked, Underlying(lib, book, a).value);
    }
  }

  /** What the book says of a canonical id. */
  ghost function BookQuote(lib: Library, book: World, id: string): Option<PriceData> {
    if exists a :: IsCanonical(lib.codec, a) && CanonicalID(a) == id then
      var a :| IsCanonical(lib.codec, a) && CanonicalID(a) == id;
      AnswerFor(AssetVerdict(lib, book, a))
    else None
  }

  ghost function BookQuotes(lib: Library, book: World): Quotes {
    id => BookQuote(lib, book, id)
  }

  lemma QuoteOf(lib: Library, book: World, a: AssetIdentity)
    requires Lawful(lib.codec) && IsCanonical(lib.codec, a)
    ensures BookQuote(lib, book, CanonicalID(a)) == AnswerFor(AssetVerdict(lib, book, a))
  {
    forall b | IsCanonical(lib.codec, b) && CanonicalID(b) == CanonicalID(a) ensures a == b {
      CanonicalIDInjective(lib.codec, a, b);
    }
  }

  lemma ExtractIsQuoted(lib: Library, book: World, asked: set<string>, cache: Cache, now: int, reachable: bool,
                        world: World, canonical: map<string, AssetIdentity>)
    requires Lawful(lib.codec) && Extract(lib, book, asked, cache, now, reachable, world, canonical)
    requires !HasUnreadable(book.priceReply.records)
    requires forall id :: id in canonical ==> IsCanonical(lib.codec, canonical[id]) && CanonicalID(canonical[id]) == id
    ensures Quoted(lib, BookQuotes(lib, book), cache, now, reachable, world, canonical)
  {
    forall id | id in canonical && Hit(lib.ok, cache, reachable, id, now).None?
      ensures AnswerFor(AssetVerdict(lib, world, canonical[id])) == BookQuotes(lib, book)(id)
    {
      ExtractVerdict(lib, book, asked, canonical[id]);
      QuoteOf(lib, book, canonical[id]);
    }
  }

  ghost predicate BeginExtracts(lib: Library, book: World, s: State, e: Event, asked: set<string>) {
    e.Begin? && CanonicalMap(lib.codec, e.assets).Some? ==>
      Extract(lib, book, asked, s.cache, e.at, e.reachable, e.world, CanonicalMap(lib.codec, e.assets).value)
  }

  /** From an empty cache, after any history of lookups that each asked about its own misses, a lookup
      returns what the whole book says of every asset, whatever part of it the provider was asked. */
  lemma BookTransparent(lib: Library, book: World, events: seq<Event>, queries: seq<set<string>>,
                        assets: seq<AssetIdentity>, asked: set<string>, world: World, now: int, reachable: bool)
    requires Lawful(lib.codec) && book.priceReply.Records? && !HasUnreadable(book.priceReply.records)
    requires |queries| == |events|
    requires forall i :: 0 <= i < |events| ==>
      BeginExtracts(lib, book, Exec(lib, State(map[], map[]), events[..i]), events[i], queries[i])
    requires CanonicalMap(lib.codec, assets).Some?
    requires Extract(lib, book, asked, Exec(lib, State(map[], map[]), events).cache, now, reachable, world,
                     CanonicalMap(lib.codec, assets).value)
    ensures var canonical := CanonicalMap(lib.codec, assets).value;
            Answers(lib, world, Exec(lib, State(map[], map[]), events).cache, now, reachable, canonical)
            == Uncached(lib, book, canonical)
  {
    var initial, canonical := State(map[], map[]), CanonicalMap(lib.codec, assets).value;
    var quote := BookQuotes(lib, book);
    forall i | 0 <= i < |events| ensures BeginQuoted(lib, quote, Exec(lib, initial, events[..i]), events[i]) {
      var s, e := Exec(lib, initial, events[..i]), events[i];
      assert BeginExtracts(lib, book, s, e, queries[i]);
      if e.Begin? && CanonicalMap(lib.codec, e.assets).Some? {
        ExtractIsQuoted(lib, book, queries[i], s.cache, e.at, e.reachable, e.world,
            CanonicalMap(lib.codec, e.assets).value);
      }
    }
    var cache := Exec(lib, initial, events).cache;
    ExtractIsQuoted(lib, book, asked, cache, now, reachable, world, canonical);
    CacheTransparent(lib, quote, initial, events, assets, world, now, reachable);
    BookAnswers(lib, book, canonical);
  }

  lemma BookAnswers(lib: Library, book: World, canonical: map<string, AssetIdentity>)
    requires Lawful(lib.codec)
    requires forall id :: id in canonical ==> IsCanonical(lib.codec, canonical[id]) && CanonicalID(canonical[id]) == id
    ensures (map id | id in canonical :: BookQuotes(lib, book)(id)) == Uncached(lib, book, canonical)
  {
    forall id | id in canonical ensures BookQuotes(lib, book)(id) == Uncached(lib, book, canonical)[id] {
      QuoteOf(lib, book, canonical[id]);
    }
  }
}
