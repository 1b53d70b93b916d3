/** Passkey sign-in: which WebAuthn keys an account registers, read rule by rule from the chain,
    and which origins a passkey may speak for. */
module SignerScan {
  import opened Wrappers
  import opened Codecs
  import opened Sets

  // ---- Context rules ------------------------------------------------------------------------------

  /** The contract values the scan tells apart; a nil pointer inside one reads as Other. */
  datatype ScVal =
    | U32(value: nat)
    | Symbol(name: string)
    | Bytes(data: seq<Byte>)
    | Vec(items: Option<seq<ScVal>>)
    | Map(entries: Option<seq<MapEntry>>)
    | Other

  datatype MapEntry = MapEntry(key: ScVal, val: ScVal)

  type Key = seq<Byte>

  const POINT_LENGTH := 65

  /** The point at the head of an External signer's key data, when it is an uncompressed one. */
  function PointOf(signer: ScVal): (r: Option<Key>)
    ensures r.Some? ==> |r.value| == POINT_LENGTH && r.value[0] == 4
  {
    if signer.Vec? && signer.items.Some? && |signer.items.value| == 3
       && signer.items.value[0] == Symbol("External") && signer.items.value[2].Bytes?
       && |signer.items.value[2].data| >= POINT_LENGTH && signer.items.value[2].data[0] == 4
    then Some(signer.items.value[2].data[..POINT_LENGTH])
    else None
  }

  predicate HoldsSigners(e: MapEntry) { e.key == Symbol("signers") && e.val.Vec? && e.val.items.Some? }

  /** Whether a rule registers the key, anywhere among its signers. */
  ghost predicate Registers(rule: ScVal, key: Key) {
    && rule.Map? && rule.entries.Some?
    && exists e, signer ::
         e in rule.entries.value && HoldsSigners(e) && signer in e.val.items.value && PointOf(signer) == Some(key)
  }

  /** One signers vector. */
  method SignerPoints(signers: seq<ScVal>) returns (keys: seq<Key>)
    ensures forall k :: k in keys <==> exists signer :: signer in signers && PointOf(signer) == Some(k)
  {
    keys := [];
    for i := 0 to |signers|
      invariant forall k :: k in keys <==> exists signer :: signer in signers[..i] && PointOf(signer) == Some(k)
    {
      var point := PointOf(signers[i]);
      assert signers[..i + 1] == signers[..i] + [signers[i]];
      if point.Some? {
        keys := keys + [point.value];
      }
    }
    assert signers[..|signers|] == signers;
  }

  /** webAuthnKeysFromRule: every registered key and nothing else. */
  method KeysFromRule(rule: ScVal) returns (keys: seq<Key>)
    ensures forall k :: k in keys <==> Registers(rule, k)
  {
    keys := [];
    if !rule.Map? || rule.entries.None? {
      return;
    }
    var entries := rule.entries.value;
    for i := 0 to |entries|
      invariant forall k :: k in keys <==> Registers(Map(Some(entries[..i])), k)
    {
      assert entries[..i + 1] == entries[..i] + [entries[i]];
      if HoldsSigners(entries[i]) {
        var more := SignerPoints(entries[i].val.items.value);
        keys := keys + more;
      }
    }
    assert entries[..|entries|] == entries;
  }

  // ---- The scan -----------------------------------------------------------------------------------

  /** A simulated read: the RPC failed, the call errored on chain, or it gave a value. */
  datatype Read = Failed | NoValue | Value(val: ScVal)

  datatype ScanError = RpcFailed | NoSigner

  const SLACK := 8
  const MAX_SCAN := 64

  function Limit(count: nat): nat { if count + SLACK > MAX_SCAN then MAX_SCAN else count + SLACK }

  function LiveIds(rule: nat -> Read, n: nat): set<nat> { set i: nat | i < n && rule(i).Value? }

  /** A key registered by some live rule with an id below n. */
  ghost predicate RegisteredBelow(rule: nat -> Read, n: nat, k: Key) {
    exists id: nat :: id < n && rule(id).Value? && Registers(rule(id).val, k)
  }

  predicate Distinct(keys: seq<Key>) { forall i, j :: 0 <= i < j < |keys| ==> keys[i] != keys[j] }

  /** Appends the keys not seen yet. */
  method AddNew(keys: seq<Key>, more: seq<Key>) returns (all: seq<Key>)
    requires Distinct(keys)
    ensures Distinct(all)
    ensures forall k :: k in all <==> k in keys || k in more
  {
    all := keys;
    for i := 0 to |more|
      invariant Distinct(all)
      invariant forall k :: k in all <==> k in keys || k in more[..i]
    {
      assert more[..i + 1] == more[..i] + [more[i]];
      if more[i] !in all {
        all := all + [more[i]];
      }
    }
    assert more[..|more|] == more;
  }

  lemma LiveStep(rule: nat -> Read, n: nat)
    ensures |LiveIds(rule, n + 1)| == |LiveIds(rule, n)| + (if rule(n).Value? then 1 else 0)
  {
    if rule(n).Value? {
      assert LiveIds(rule, n + 1) == LiveIds(rule, n) + {n};
    } else {
      assert LiveIds(rule, n + 1) == LiveIds(rule, n);
    }
  }

  predicate CountKnown(count: Read) { count.Value? && count.val.U32? && count.val.value > 0 }

  /** WebAuthnSignerKeys. asked is the number of rules read, all of them from id 0 up. */
  method WebAuthnSignerKeys(count: Read, rule: nat -> Read) returns (r: Result<seq<Key>, ScanError>, asked: nat)
    ensures count.Failed? ==> r == Err(RpcFailed)
    ensures !count.Failed? && !CountKnown(count) ==> r == Err(NoSigner)
    ensures CountKnown(count) ==>
      && asked <= count.val.value + 8 && asked <= 64
      && |LiveIds(rule, asked)| <= count.val.value
      && (forall id: nat :: id + 1 < asked ==> !rule(id).Failed?)
      && (r == Err(RpcFailed) <==> asked > 0 && rule(asked - 1).Failed?)
      && (r != Err(RpcFailed) ==>
            asked == count.val.value + 8 || asked == 64 || |LiveIds(rule, asked)| == count.val.value)
      && (r.Ok? ==> Distinct(r.value) && r.value != [] && forall k :: k in r.value <==> RegisteredBelow(rule, asked, k))
      && (r == Err(NoSigner) ==> forall k :: !RegisteredBelow(rule, asked, k))
  {
    asked := 0;
    if count.Failed? {
      return Err(RpcFailed), 0;
    }
    if !CountKnown(count) {
      return Err(NoSigner), 0;
    }
    var keys, found, limit := [], 0, Limit(count.val.value);
    while asked < limit && found < count.val.value
      invariant asked <= limit
      invariant found == |LiveIds(rule, asked)| <= count.val.value
      invariant forall id: nat :: id < asked ==> !rule(id).Failed?
      invariant Distinct(keys)
      invariant forall k :: k in keys <==> RegisteredBelow(rule, asked, k)
    {
      LiveStep(rule, asked);
      match rule(asked) {
        case Failed => return Err(RpcFailed), asked + 1;
        case NoValue =>
        case Value(val) =>
          found := found + 1;
          var more := KeysFromRule(val);
          keys := AddNew(keys, more);
      }
      asked := asked + 1;
    }
    if keys == [] {
      assert forall k: Key :: k !in keys;
      return Err(NoSigner), asked;
    }
    r := Ok(keys);
  }

  // ---- Completeness of the scan ----------------------------------------------------------------

  /** A scan of an account whose count is n, as WebAuthnSignerKeys leaves it when no read fails: it
      stops at id n + 8, at id 64, or once n rules have been found. */
  ghost predicate Scanned(rule: nat -> Read, n: nat, asked: nat) {
    && asked <= n + 8 && asked <= 64
    && (asked == n + 8 || asked == 64 || |LiveIds(rule, asked)| == n)
  }

  /** On an account with exactly as many live rules as its count says, a scan has read them all
      precisely when each id is below 64 and less than 8 past the count. */
  lemma ScanIsComplete(rule: nat -> Read, ids: set<nat>, asked: nat)
    requires forall id :: rule(id).Value? <==> id in ids
    requires Scanned(rule, |ids|, asked)
    ensures (forall id :: id in ids ==> id < asked) <==> (forall id :: id in ids ==> id < |ids| + 8 && id < 64)
  {
    if asked < |ids| + 8 && asked < 64 {
      var seen := LiveIds(rule, asked);
      assert seen <= ids;
      FullSubset(seen, ids);
    }
  }

  /** Then every registered key comes back, once, and nothing else does. */
  lemma CompleteScanFindsAll(rule: nat -> Read, ids: set<nat>, asked: nat, k: Key)
    requires forall id :: rule(id).Value? <==> id in ids
    requires Scanned(rule, |ids|, asked)
    requires forall id :: id in ids ==> id < |ids| + 8 && id < 64
    ensures RegisteredBelow(rule, asked, k) <==> exists id :: id in ids && Registers(rule(id).val, k)
  {
    ScanIsComplete(rule, ids, asked);
  }

  /** WebAuthnSignerKeys on such an account: exactly its registered keys, or no signer if it has none. */
  method SignerKeysOfAccount(ids: set<nat>, rule: nat -> Read) returns (r: Result<seq<Key>, ScanError>)
    requires forall id :: rule(id).Value? <==> id in ids
    requires forall id :: !rule(id).Failed?
    requires forall id :: id in ids ==> id < |ids| + 8 && id < 64
    ensures r.Ok? ==> Distinct(r.value) && r.value != []
    ensures r.Ok? ==> forall k :: k in r.value <==> exists id :: id in ids && Registers(rule(id).val, k)
    ensures r.Err? ==> r == Err(NoSigner) && forall id, k :: id in ids ==> !Registers(rule(id).val, k)
  {
    var asked;
    r, asked := WebAuthnSignerKeys(Value(U32(|ids|)), rule);
    if ids != {} {
      assert CountKnown(Value(U32(|ids|)));
      assert asked > 0 ==> !rule(asked - 1).Failed?;
      assert r != Err(RpcFailed);
      assert r.Err? ==> r.error == NoSigner;
      forall k: Key
        ensures RegisteredBelow(rule, asked, k) <==> exists id :: id in ids && Registers(rule(id).val, k)
      {
        CompleteScanFindsAll(rule, ids, asked, k);
      }
      if r.Err? {
        forall id, k | id in ids ensures !Registers(rule(id).val, k) {
          assert !RegisteredBelow(rule, asked, k);
        }
      }
    }
  }

  /** Past the slack the scan can miss the only signer: one live rule whose id is 9. */
  lemma WideGapIsMissed(signer: ScVal, rule: nat -> Read)
    requires PointOf(signer).Some?
    requires rule(9) == Value(Map(Some([MapEntry(Symbol("signers"), Vec(Some([signer])))])))
    requires forall id :: id != 9 ==> rule(id) == NoValue
    ensures Registers(rule(9).val, PointOf(signer).value)
    ensures forall asked: nat, k :: Scanned(rule, 1, asked) ==> !RegisteredBelow(rule, asked, k)
  {
    var e := MapEntry(Symbol("signers"), Vec(Some([signer])));
    assert e in rule(9).val.entries.value && HoldsSigners(e) && signer in e.val.items.value;
  }

  // ---- What counts as a registered key -----------------------------------------------------------

  /** The key is the 65 bytes, the first of them 4, that head the data of an External signer. */
  lemma PointOfIff(signer: ScVal, k: Key)
    ensures PointOf(signer) == Some(k) <==>
      && |k| == 65 && k[0] == 4
      && exists verifier, suffix :: signer == Vec(Some([Symbol("External"), verifier, Bytes(k + suffix)]))
  {
    if PointOf(signer) == Some(k) {
      var items := signer.items.value;
      var suffix := items[2].data[65..];
      assert items[2].data == k + suffix;
      assert items == [Symbol("External"), items[1], Bytes(k + suffix)];
    }
    if verifier, suffix :| signer == Vec(Some([Symbol("External"), verifier, Bytes(k + suffix)])) {
      assert (k + suffix)[..|k|] == k;
    }
  }

  /** And that signer is listed under "signers" in the rule. */
  lemma RegistersIff(rule: ScVal, k: Key)
    ensures Registers(rule, k) <==>
      && rule.Map? && rule.entries.Some?
      && exists signers, signer ::
           MapEntry(Symbol("signers"), Vec(Some(signers))) in rule.entries.value && signer in signers
           && PointOf(signer) == Some(k)
  {
    if Registers(rule, k) {
      var e, signer :| e in rule.entries.value && HoldsSigners(e) && signer in e.val.items.value
          && PointOf(signer) == Some(k);
      assert e == MapEntry(Symbol("signers"), Vec(Some(e.val.items.value)));
    }
    if rule.Map? && rule.entries.Some? {
      forall signers, signer
        | MapEntry(Symbol("signers"), Vec(Some(signers))) in rule.entries.value && signer in signers
            && PointOf(signer) == Some(k)
        ensures Registers(rule, k)
      {
        assert HoldsSigners(MapEntry(Symbol("signers"), Vec(Some(signers))));
      }
    }
  }

  // ---- Origins ------------------------------------------------------------------------------------

  const HTTPS := "https://"

  function HttpsForm(origin: string): string {
    if origin == "" || ':' in origin then origin else HTTPS + origin
  }

  predicate BareHost(s: string) { s != "" && ':' !in s }

  /** The same text, or a bare host and its https URL, either way round. */
  predicate SameOrigin(a: string, b: string) {
    a == b || (BareHost(a) && b == "https://" + a) || (BareHost(b) && a == "https://" + b)
  }

  /** Only the https spelling of a bare host is ever identified with another text. */
  lemma HttpsFormSeparates(a: string, b: string)
    ensures HttpsForm(a) == HttpsForm(b) <==> SameOrigin(a, b)
  {
    if HttpsForm(a) == HttpsForm(b) && BareHost(a) && BareHost(b) {
      assert a == HttpsForm(a)[|HTTPS|..] == HttpsForm(b)[|HTTPS|..] == b;
    }
    if BareHost(a) && b == HTTPS + a {
      assert b[5] == ':';
    }
    if BareHost(b) && a == HTTPS + b {
      assert a[5] == ':';
    }
  }

  /** originAllowed. */
  method OriginAllowed(origin: string, allowed: seq<string>) returns (ok: bool)
    ensures ok <==> origin != "" && exists a :: a in allowed && SameOrigin(origin, a)
  {
    if origin == "" {
      return false;
    }
    for i := 0 to |allowed|
      invariant forall j :: 0 <= j < i ==> !SameOrigin(origin, allowed[j])
    {
      HttpsFormSeparates(origin, allowed[i]);
      if origin == allowed[i] || HttpsForm(origin) == HttpsForm(allowed[i]) {
        return true;
      }
    }
    ok := false;
  }
}
