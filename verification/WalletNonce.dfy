/** Single-use challenge nonces in one Redis keyspace, shared by wallet sign-in, deploy
    proofs and passkey lookup. Issues and redemptions of any clients interleave freely. */
module WalletNonce {
  import opened Wrappers
  import opened Text
  import opened Codecs
  import opened Strkey
  import Redis

  const ED25519 := "ed25519"
  const PASSKEY := "passkey"

  // ---- Wallets and networks --------------------------------------------------------------

  predicate ValidWalletShape(codec: Codec, wallet: string, keyType: string) {
    if keyType == ED25519 then Decodes(codec, AccountId, wallet)
    else if keyType == PASSKEY then Decodes(codec, Contract, wallet)
    else false
  }

  function KeyTypeForWallet(codec: Codec, wallet: string): string {
    if Decodes(codec, AccountId, wallet) then ED25519
    else if Decodes(codec, Contract, wallet) then PASSKEY
    else ""
  }

  /** The key type inferred on refresh is the one the wallet signed in with. */
  lemma KeyTypeRecovered(codec: Codec, wallet: string, keyType: string)
    requires Lawful(codec)
    ensures ValidWalletShape(codec, wallet, keyType) <==> keyType != "" && KeyTypeForWallet(codec, wallet) == keyType
    ensures ValidWalletShape(codec, wallet, "ed25519") <==> codec.decode(AccountId, wallet).Some?
    ensures ValidWalletShape(codec, wallet, "passkey") <==> codec.decode(Contract, wallet).Some?
  {
  }

  const TESTNET := "testnet"
  const MAINNET := "mainnet"

  datatype NetworkError = InvalidNetwork | NetworkMismatch

  /** What deploynet.Get may return: the network that was set, or nothing before that. */
  predicate Deployment(deployed: string) { deployed in {"", TESTNET, MAINNET} }

  /** deploynet.Resolve on a deployment serving `deployed`: its own network and no other. Before a
      network is set, either one, and testnet if none is named. */
  function ResolveNetwork(raw: string, deployed: string): (r: Result<string, NetworkError>)
    requires Deployment(deployed)
    ensures r.Ok? ==> r.value in {TESTNET, MAINNET} && (deployed != "" ==> r.value == deployed)
  {
    var named := Lower(TrimSpace(raw));
    if named !in {"", TESTNET, MAINNET} then Err(InvalidNetwork)
    else if deployed == "" then Ok(if named == "" then TESTNET else named)
    else if named == "" || named == deployed then Ok(deployed)
    else Err(NetworkMismatch)
  }

  /** A request names a network in any case of its letters and with blanks around it. */
  predicate NamesNetwork(raw: string, name: string) { SameLetters(TrimSpace(raw), name) }

  /** What a deployment makes of each name: its own network or none, its network; the other one, a
      mismatch; anything else, an error. Before a network is set both are served. */
  lemma ResolveNetworkIff(raw: string, deployed: string)
    requires Deployment(deployed)
    ensures ResolveNetwork(raw, deployed) == Err(InvalidNetwork) <==>
      !NamesNetwork(raw, "") && !NamesNetwork(raw, "testnet") && !NamesNetwork(raw, "mainnet")
    ensures ResolveNetwork(raw, deployed) == Err(NetworkMismatch) <==>
      (deployed == "testnet" && NamesNetwork(raw, "mainnet")) || (deployed == "mainnet" && NamesNetwork(raw, "testnet"))
    ensures ResolveNetwork(raw, "") == Ok("testnet") <==> NamesNetwork(raw, "") || NamesNetwork(raw, "testnet")
    ensures ResolveNetwork(raw, "") == Ok("mainnet") <==> NamesNetwork(raw, "mainnet")
  {
    NetworkNamed(raw, "");
    NetworkNamed(raw, TESTNET);
    NetworkNamed(raw, MAINNET);
  }

  lemma NetworkNamed(raw: string, name: string)
    requires name in {"", TESTNET, MAINNET}
    ensures NamesNetwork(raw, name) <==> Lower(TrimSpace(raw)) == name
  {
    LowerSame(TrimSpace(raw), name);
    assert Lower(TESTNET) == TESTNET && Lower(MAINNET) == MAINNET && Lower("") == "";
  }

  /** Naming a network that resolves is the same as naming what it resolves to. */
  lemma ResolveIsStable(raw: string, deployed: string)
    requires Deployment(deployed) && ResolveNetwork(raw, deployed).Ok?
    ensures ResolveNetwork(ResolveNetwork(raw, deployed).value, deployed) == ResolveNetwork(raw, deployed)
  {
    TrimFixed(TESTNET);
    TrimFixed(MAINNET);
    assert Lower(TESTNET) == TESTNET && Lower(MAINNET) == MAINNET;
  }

  // ---- What a nonce is bound to --------------------------------------------------------------

  const PUBKEY_HEX_LEN := 130

  /** What the holder of a nonce may do with it. */
  datatype Purpose =
    | SignIn(wallet: string, keyType: string, network: string)
    | Deploy(keyRef: string, keyType: string, network: string)
    | Lookup

  predicate ValidKeyRef(codec: Codec, keyRef: string, keyType: string) {
    if keyType == "ed25519" then |keyRef| == 64 && HexDecode(keyRef).Some?
    else if keyType == "webauthn" then |keyRef| > PUBKEY_HEX_LEN && HexDecode(keyRef).Some?
    else if keyType == "delegated" then Decodes(codec, AccountId, keyRef)
    else false
  }

  /** What each flow checks before it touches the nonce store. */
  predicate Accepts(codec: Codec, p: Purpose) {
    match p
    case SignIn(wallet, keyType, network) => ValidWalletShape(codec, wallet, keyType) && network in {TESTNET, MAINNET}
    case Deploy(keyRef, keyType, network) => ValidKeyRef(codec, keyRef, keyType)
    case Lookup => true
  }

  /** Who may ask for a nonce. For a deployment: an ed25519 key of 32 bytes in hex, a WebAuthn public key
      of 65 bytes followed by a credential id, in hex, or an account address. For sign-in: a wallet of
      the shape its key type calls for. For a passkey lookup: anybody. */
  lemma AcceptedPurposes(codec: Codec, key: string, keyType: string, network: string)
    requires Lawful(codec)
    ensures Accepts(codec, Deploy(key, keyType, network)) <==>
      || (keyType == "ed25519" && HexDecode(key).Some? && |HexDecode(key).value| == 32)
      || (keyType == "webauthn" && HexDecode(key).Some? && |HexDecode(key).value| > 65)
      || (keyType == "delegated" && codec.decode(AccountId, key).Some?)
    ensures Accepts(codec, SignIn(key, keyType, network)) <==>
      && (network == "testnet" || network == "mainnet")
      && ((keyType == "ed25519" && codec.decode(AccountId, key).Some?)
          || (keyType == "passkey" && codec.decode(Contract, key).Some?))
    ensures Accepts(codec, Lookup)
  {
    if HexDecode(key).Some? {
      HexLength(key);
    }
  }

  lemma {:induction false} HexLength(s: string)
    requires HexDecode(s).Some?
    ensures |s| == 2 * |HexDecode(s).value|
  {
    if s != "" {
      HexLength(s[2..]);
    }
  }

  function Bind(wallet: string, keyType: string, network: string): string {
    wallet + "|" + (keyType + "|" + network)
  }

  const DEPLOY_SCOPE := "deploy:"
  const LOOKUP_KEY_TYPE := "webauthn-lookup"
  const LOOKUP_SCOPE := "passkey-lookup"

  function Holder(p: Purpose): string {
    match p case SignIn(wallet, _, _) => wallet case Deploy(keyRef, _, _) => keyRef case Lookup => ""
  }

  function HolderType(p: Purpose): string {
    match p case SignIn(_, keyType, _) => keyType case Deploy(_, keyType, _) => keyType case Lookup => LOOKUP_KEY_TYPE
  }

  function Scope(p: Purpose): string {
    match p
    case SignIn(_, _, network) => network
    case Deploy(_, _, network) => DEPLOY_SCOPE + network
    case Lookup => LOOKUP_SCOPE
  }

  function Binding(p: Purpose): string { Bind(Holder(p), HolderType(p), Scope(p)) }

  function LifeOf(p: Purpose): int {
    match p
    case SignIn(_, _, _) => 60 * Redis.SECOND
    case Deploy(_, _, _) => 5 * Redis.MINUTE
    case Lookup => 60 * Redis.SECOND
  }

  lemma HolderIsPlain(codec: Codec, p: Purpose)
    requires Lawful(codec) && Accepts(codec, p)
    ensures Free(Holder(p), '|') && Free(HolderType(p), '|')
  {
    if p.Deploy? && p.keyType != "delegated" {
      HexHasNoBar(p.keyRef);
    } else if p.Deploy? {
      StrkeyHasNoBar(codec, AccountId, p.keyRef);
    } else if p.SignIn? {
      StrkeyHasNoBar(codec, if p.keyType == ED25519 then AccountId else Contract, p.wallet);
    }
  }

  lemma HexHasNoBar(s: string)
    requires HexDecode(s).Some?
    ensures Free(s, '|')
  {
    forall i | 0 <= i < |s| ensures s[i] != '|' {
      HexIsPlain(s, i);
    }
  }

  lemma StrkeyHasNoBar(codec: Codec, version: Version, s: string)
    requires Lawful(codec) && Decodes(codec, version, s)
    ensures Free(s, '|')
  {
    assert forall i :: 0 <= i < |s| ==> Base32(s[i]);
  }

  /** The binding separates the three flows, and within a flow the key, the key type and the network. */
  lemma BindingInjective(codec: Codec, p: Purpose, q: Purpose)
    requires Lawful(codec) && Accepts(codec, p) && Accepts(codec, q)
    ensures Binding(p) == Binding(q) <==> p == q
  {
    if Binding(p) == Binding(q) {
      HolderIsPlain(codec, p);
      HolderIsPlain(codec, q);
      CutUnique(Holder(p), '|', HolderType(p) + "|" + Scope(p), Holder(q), HolderType(q) + "|" + Scope(q));
      CutUnique(HolderType(p), '|', Scope(p), HolderType(q), Scope(q));
      assert p.Deploy? ==> Scope(p)[0] == 'd' && Scope(p)[7..] == p.network;
      assert q.Deploy? ==> Scope(q)[0] == 'd' && Scope(q)[7..] == q.network;
    }
  }

  // ---- The store ---------------------------------------------------------------------------------

  type Keyspace = map<string, Redis.Entry<string>>

  datatype Event =
    | Issue(at: int, nonce: seq<Byte>, purpose: Purpose)
    | Consume(at: int, nonceHex: string, purpose: Purpose)

  datatype Outcome = Unknown | Mismatched | Redeemed

  /** The Redis key, without the prefix all nonce keys share. */
  function KeyOf(e: Event): string {
    match e case Issue(_, nonce, _) => HexEncode(nonce) case Consume(_, nonceHex, _) => nonceHex
  }

  /** A redemption that finds the key takes it away, whether or not the binding fits. */
  function Step(db: Keyspace, e: Event): Keyspace {
    match e
    case Issue(at, nonce, purpose) =>
      db[KeyOf(e) := Redis.Entry(Binding(purpose), Some(at + LifeOf(purpose)))]
    case Consume(at, nonceHex, purpose) =>
      if Redis.Get(db, KeyOf(e), at).Some? then db - {KeyOf(e)} else db
  }

  function OutcomeOf(db: Keyspace, e: Event): Outcome
    requires e.Consume?
  {
    var stored := Redis.Get(db, KeyOf(e), e.at);
    if stored.None? then Unknown
    else if stored.value != Binding(e.purpose) then Mismatched
    else Redeemed
  }

  function Exec(events: seq<Event>): Keyspace {
    if events == [] then map[] else Step(Exec(events[..|events| - 1]), events[|events| - 1])
  }

  /** Purposes pass their flow's checks, and random nonces never repeat. */
  ghost predicate Valid(codec: Codec, events: seq<Event>) {
    && (forall i :: 0 <= i < |events| ==> Accepts(codec, events[i].purpose))
    && (forall i, j :: 0 <= i < j < |events| && events[i].Issue? && events[j].Issue? ==>
       events[i].nonce != events[j].nonce)
  }

  ghost predicate Succeeds(events: seq<Event>, j: nat) {
    j < |events| && events[j].Consume? && OutcomeOf(Exec(events[..j]), events[j]).Redeemed?
  }

  /** Event `j` finds its nonce and so uses it up, whether or not the binding fits. */
  ghost predicate Takes(events: seq<Event>, j: nat) {
    j < |events| && events[j].Consume? && !OutcomeOf(Exec(events[..j]), events[j]).Unknown?
  }

  /** Nothing strictly between events `i` and `n` uses the key up. */
  ghost predicate Unused(events: seq<Event>, i: int, n: int, key: string)
    requires -1 <= i && n <= |events|
    decreases n - i
  {
    n > i + 1 ==> Unused(events, i, n - 1, key) && !(KeyOf(events[n - 1]) == key && Takes(events, n - 1))
  }

  lemma {:induction false} NotTaken(events: seq<Event>, i: int, n: int, key: string, k: nat)
    requires -1 <= i < k < n <= |events| && Unused(events, i, n, key) && KeyOf(events[k]) == key
    ensures !Takes(events, k)
    decreases n
  {
    if k < n - 1 {
      NotTaken(events, i, n - 1, key, k);
    }
  }

  /** Whether a key is used up before event n shows in the events before n. */
  lemma {:induction false} UnusedInPrefix(events: seq<Event>, p: nat, i: int, n: int, key: string)
    requires -1 <= i && n <= p <= |events|
    ensures Unused(events[..p], i, n, key) <==> Unused(events, i, n, key)
    decreases n - i
  {
    if n > i + 1 {
      UnusedInPrefix(events, p, i, n - 1, key);
      TakesInPrefix(events, p, n - 1);
    }
  }

  /** Event `i` issued `entry` under `key`, and nothing has used that key up since. */
  ghost predicate Origin(events: seq<Event>, i: int, key: string, entry: Redis.Entry<string>) {
    && 0 <= i < |events| && events[i].Issue? && KeyOf(events[i]) == key
    && entry == Redis.Entry(Binding(events[i].purpose), Some(events[i].at + LifeOf(events[i].purpose)))
    && Unused(events, i, |events|, key)
  }

  lemma TakesInPrefix(events: seq<Event>, n: nat, j: nat)
    requires j < n <= |events|
    ensures Takes(events[..n], j) <==> Takes(events, j)
  {
    assert events[..n][..j] == events[..j];
  }

  lemma OriginKept(events: seq<Event>, i: nat, key: string, entry: Redis.Entry<string>)
    requires events != [] && Origin(events[..|events| - 1], i, key, entry)
    requires KeyOf(events[|events| - 1]) == key ==> !Takes(events, |events| - 1)
    ensures Origin(events, i, key, entry)
  {
    UnusedInPrefix(events, |events| - 1, i, |events| - 1, key);
  }

  /** A redemption that leaves the key in place has not taken it. */
  lemma LeftInPlace(events: seq<Event>)
    requires events != [] && events[|events| - 1].Consume? && KeyOf(events[|events| - 1]) in Exec(events)
    ensures !Takes(events, |events| - 1)
  {
  }

  lemma {:induction false} StoredHasOrigin(events: seq<Event>, key: string) returns (i: nat)
    requires key in Exec(events)
    ensures Origin(events, i, key, Exec(events)[key])
  {
    var n := |events| - 1;
    var e := events[n];
    if e.Issue? && KeyOf(e) == key {
      i := n;
    } else {
      i := StoredHasOrigin(events[..n], key);
      if KeyOf(e) == key {
        LeftInPlace(events);
      }
      OriginKept(events, i, key, Exec(events)[key]);
    }
  }

  lemma SameKeySameNonce(a: seq<Byte>, b: seq<Byte>)
    requires HexEncode(a) == HexEncode(b)
    ensures a == b
  {
    HexRoundTrip(a);
    HexRoundTrip(b);
  }

  /** Issue `i` is of the nonce that event `j` presents, for the very flow, key, key type and network;
      it has not run out, and nothing has used the nonce up in between. */
  ghost predicate IssuedFor(events: seq<Event>, i: nat, j: nat) {
    && i < j < |events| && events[i].Issue? && events[j].Consume?
    && HexEncode(events[i].nonce) == events[j].nonceHex
    && events[i].purpose == events[j].purpose
    && events[j].at < events[i].at + (if events[i].purpose.Deploy? then 5 * 60 * 1000 else 60 * 1000)
    && Unused(events, i, j, KeyOf(events[j]))
  }

  lemma RedeemedAsIssued(codec: Codec, events: seq<Event>, j: nat) returns (i: nat)
    requires Lawful(codec) && Valid(codec, events) && Succeeds(events, j)
    ensures IssuedFor(events, i, j)
  {
    var before, key := events[..j], KeyOf(events[j]);
    i := StoredHasOrigin(before, key);
    assert before[i] == events[i];
    BindingInjective(codec, events[i].purpose, events[j].purpose);
    UnusedInPrefix(events, j, i, j, key);
  }

  lemma StepLeaves(db: Keyspace, e: Event, key: string)
    requires key in db && (KeyOf(e) == key ==> e.Consume? && OutcomeOf(db, e).Unknown?)
    ensures key in Step(db, e) && Step(db, e)[key] == db[key]
  {
  }

  lemma StaysOne(events: seq<Event>, key: string, n: nat)
    requires n < |events| && key in Exec(events[..n])
    requires KeyOf(events[n]) == key ==> events[n].Consume? && !Takes(events, n)
    ensures key in Exec(events[..n + 1]) && Exec(events[..n + 1])[key] == Exec(events[..n])[key]
  {
    assert events[..n + 1][..n] == events[..n];
    StepLeaves(Exec(events[..n]), events[n], key);
  }

  /** No event from m up to n issues the key. */
  predicate NotIssued(events: seq<Event>, m: nat, n: nat, key: string)
    requires n <= |events|
  {
    n > m ==> NotIssued(events, m, n - 1, key) && (events[n - 1].Issue? ==> KeyOf(events[n - 1]) != key)
  }

  /** A stored nonce stays as it is until something uses it up or issues it again. */
  lemma {:induction false} StaysStored(events: seq<Event>, key: string, m: nat, n: nat)
    requires m <= n <= |events| && key in Exec(events[..m])
    requires Unused(events, m - 1, n, key) && NotIssued(events, m, n, key)
    ensures key in Exec(events[..n]) && Exec(events[..n])[key] == Exec(events[..m])[key]
  {
    if m < n {
      StaysStored(events, key, m, n - 1);
      StaysOne(events, key, n - 1);
    }
  }

  lemma NotReissued(codec: Codec, events: seq<Event>, i: nat, k: nat)
    requires Valid(codec, events) && i < k < |events| && events[i].Issue? && events[k].Issue?
    ensures KeyOf(events[k]) != KeyOf(events[i])
  {
    if KeyOf(events[k]) == KeyOf(events[i]) {
      SameIssue(codec, events, i, k);
    }
  }

  lemma {:induction false} IssuedOnlyOnce(codec: Codec, events: seq<Event>, i: nat, n: nat)
    requires Valid(codec, events) && i < n <= |events| && events[i].Issue?
    ensures NotIssued(events, i + 1, n, KeyOf(events[i]))
    decreases n
  {
    if n > i + 1 {
      IssuedOnlyOnce(codec, events, i, n - 1);
      if events[n - 1].Issue? {
        NotReissued(codec, events, i, n - 1);
      }
    }
  }

  lemma JustIssued(events: seq<Event>, i: nat)
    requires i < |events| && events[i].Issue?
    ensures KeyOf(events[i]) in Exec(events[..i + 1])
    ensures Exec(events[..i + 1])[KeyOf(events[i])]
            == Redis.Entry(Binding(events[i].purpose), Some(events[i].at + LifeOf(events[i].purpose)))
  {
    assert events[..i + 1][..i] == events[..i];
  }

  /** What an issue stored is still there if nothing used it up. */
  lemma StoredSinceIssue(codec: Codec, events: seq<Event>, i: nat, n: nat)
    requires Valid(codec, events) && i < n <= |events| && events[i].Issue? && Unused(events, i, n, KeyOf(events[i]))
    ensures KeyOf(events[i]) in Exec(events[..n])
    ensures Exec(events[..n])[KeyOf(events[i])]
            == Redis.Entry(Binding(events[i].purpose), Some(events[i].at + LifeOf(events[i].purpose)))
  {
    JustIssued(events, i);
    IssuedOnlyOnce(codec, events, i, n);
    StaysStored(events, KeyOf(events[i]), i + 1, n);
  }

  lemma IssuedIsRedeemed(codec: Codec, events: seq<Event>, i: nat, j: nat)
    requires Lawful(codec) && Valid(codec, events) && IssuedFor(events, i, j)
    ensures Succeeds(events, j)
  {
    StoredSinceIssue(codec, events, i, j);
  }

  /** A redemption succeeds exactly when it answers such an issue. */
  lemma RedeemedIff(codec: Codec, events: seq<Event>, j: nat)
    requires Lawful(codec) && Valid(codec, events) && j < |events| && events[j].Consume?
    ensures Succeeds(events, j) <==> exists i :: IssuedFor(events, i, j)
  {
    if Succeeds(events, j) {
      var i := RedeemedAsIssued(codec, events, j);
    }
    if i: nat :| IssuedFor(events, i, j) {
      IssuedIsRedeemed(codec, events, i, j);
    }
  }

  /** Under every interleaving, a nonce is redeemed at most once. */
  lemma RedeemedOnce(codec: Codec, events: seq<Event>, j: nat, k: nat)
    requires Lawful(codec) && Valid(codec, events)
    requires j < k && Succeeds(events, j) && Succeeds(events, k)
    ensures events[j].nonceHex != events[k].nonceHex
  {
    var i := RedeemedAsIssued(codec, events, j);
    var i' := RedeemedAsIssued(codec, events, k);
    if events[j].nonceHex == events[k].nonceHex {
      SameIssue(codec, events, i, i');
      NotTaken(events, i, k, KeyOf(events[k]), j);
    }
  }

  lemma SameIssue(codec: Codec, events: seq<Event>, i: nat, k: nat)
    requires Valid(codec, events) && i < |events| && k < |events| && events[i].Issue? && events[k].Issue?
    requires KeyOf(events[i]) == KeyOf(events[k])
    ensures i == k
  {
    SameKeySameNonce(events[i].nonce, events[k].nonce);
  }

  // ---- The sign-in spelling --------------------------------------------------------------------

  /** The key SignIn looks up for the base64url text a client sends back. */
  function SignInKey(b64: string): Option<string> {
    match Base64Decode(b64)
    case None => None
    case Some(bytes) => if bytes == [] then None else Some(HexEncode(bytes))
  }

  /** What Challenge hands out for the stored hex key. */
  function ChallengeText(nonceHex: string): Option<string> {
    match HexDecode(nonceHex)
    case None => None
    case Some(bytes) => Some(Base64Encode(bytes))
  }

  /** The text Challenge hands out leads SignIn back to exactly the stored key. */
  lemma ChallengeRoundTrip(nonce: seq<Byte>)
    requires nonce != []
    ensures ChallengeText(HexEncode(nonce)).Some?
    ensures SignInKey(ChallengeText(HexEncode(nonce)).value) == Some(HexEncode(nonce))
    ensures SignInKey("") == None
  {
    HexRoundTrip(nonce);
    Base64RoundTrip(nonce);
  }

  class WalletNonceService {
    const codec: Codec
    var db: Keyspace

    constructor (codec: Codec)
      ensures this.codec == codec && db == map[]
    {
      this.codec := codec;
      db := map[];
    }

    /** IssueWithTTL behind a flow's Challenge; `nonce` is the 32 random bytes. */
    method Challenge(purpose: Purpose, nonce: seq<Byte>, now: int) returns (nonceHex: Option<string>)
      modifies this
      ensures nonceHex == if Accepts(codec, purpose) then Some(HexEncode(nonce)) else None
      ensures db == if Accepts(codec, purpose) then Step(old(db), Issue(now, nonce, purpose)) else old(db)
    {
      if !Accepts(codec, purpose) {
        return None;
      }
      var key := HexEncode(nonce);
      db := db[key := Redis.Entry(Binding(purpose), Some(now + LifeOf(purpose)))];
      nonceHex := Some(key);
    }

    /** Consume behind a flow's check; a purpose the flow rejects leaves the store alone. */
    method Redeem(purpose: Purpose, nonceHex: string, now: int) returns (outcome: Option<Outcome>)
      modifies this
      ensures outcome == if Accepts(codec, purpose) then Some(OutcomeOf(old(db), Consume(now, nonceHex, purpose)))
        else None
      ensures db == if Accepts(codec, purpose) then Step(old(db), Consume(now, nonceHex, purpose)) else old(db)
    {
      if !Accepts(codec, purpose) {
        return None;
      }
      var stored := Redis.Get(db, nonceHex, now);
      if stored.None? {
        return Some(Unknown);
      }
      db := db - {nonceHex};
      outcome := Some(if stored.value == Binding(purpose) then Redeemed else Mismatched);
    }

    /** WalletAuthService.Challenge on a deployment serving `deployed`. */
    method ChallengeSignIn(wallet: string, keyType: string, raw: string, deployed: string, nonce: seq<Byte>, now: int)
      returns (text: Option<string>)
      requires Deployment(deployed) && nonce != []
      modifies this
      ensures text.Some? <==> ValidWalletShape(codec, wallet, keyType) && ResolveNetwork(raw, deployed).Ok?
      ensures text.Some? ==>
        && SignInKey(text.value) == Some(HexEncode(nonce))
        && db == Step(old(db), Issue(now, nonce, SignIn(wallet, keyType, ResolveNetwork(raw, deployed).value)))
      ensures text.None? ==> db == old(db)
    {
      if !ValidWalletShape(codec, wallet, keyType) || ResolveNetwork(raw, deployed).Err? {
        return None;
      }
      var nonceHex := Challenge(SignIn(wallet, keyType, ResolveNetwork(raw, deployed).value), nonce, now);
      ChallengeRoundTrip(nonce);
      text := ChallengeText(nonceHex.value);
    }

    /** The part of WalletAuthService.SignIn up to the signature check. */
    method SignInNonce(wallet: string, keyType: string, raw: string, deployed: string, text: string, now: int)
      returns (redeemed: bool)
      requires Deployment(deployed)
      modifies this
      ensures
        var network, nonceHex := ResolveNetwork(raw, deployed), SignInKey(text);
        if ValidWalletShape(codec, wallet, keyType) && network.Ok? && nonceHex.Some? then
          var consume := Consume(now, nonceHex.value, SignIn(wallet, keyType, network.value));
          (redeemed <==> OutcomeOf(old(db), consume).Redeemed?) && db == Step(old(db), consume)
        else !redeemed && db == old(db)
    {
      if !ValidWalletShape(codec, wallet, keyType) || ResolveNetwork(raw, deployed).Err? || SignInKey(text).None? {
        return false;
      }
      var outcome := Redeem(SignIn(wallet, keyType, ResolveNetwork(raw, deployed).value), SignInKey(text).value, now);
      redeemed := outcome == Some(Redeemed);
    }
  }
}
