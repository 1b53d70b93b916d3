/** Refresh tokens: rows keyed by token hash, issued at sign-in and replaced on rotation.
    One rotation is one serialised transaction. */
module RefreshTokens {
  import opened Wrappers
  import opened Strkey
  import WalletNonce

  /** A refresh_tokens row; a CHECK constraint asks for at least one owner column. */
  datatype Row = Row(userId: Option<string>, wallet: Option<string>, expiresAt: int, revoked: bool)

  type Table = map<string, Row>

  /** The claims of an access token. */
  datatype Access = Access(sub: string, scope: string, kty: string)

  /** Who signed in: an email account, or a wallet with the key type it signed in with. */
  datatype Login = UserLogin(userId: string) | WalletLogin(wallet: string, keyType: string)

  datatype Config = Config(codec: Codec, hash: string -> string, ttl: int)

  ghost predicate Sound(c: Config) {
    Lawful(c.codec) && forall a, b :: c.hash(a) == c.hash(b) ==> a == b
  }

  function LoginAccess(login: Login): Access {
    match login
    case UserLogin(userId) => Access(userId, "", "")
    case WalletLogin(wallet, keyType) => Access(wallet, "wallet", keyType)
  }

  function LoginRow(login: Login, expiresAt: int): Row {
    match login
    case UserLogin(userId) => Row(Some(userId), None, expiresAt, false)
    case WalletLogin(wallet, _) => Row(None, Some(wallet), expiresAt, false)
  }

  /** The claims a rotated token gets: the wallet column wins, and its key type is inferred. */
  function RowAccess(codec: Codec, row: Row): Option<Access> {
    if row.wallet.Some? then
      Some(Access(row.wallet.value, "wallet", WalletNonce.KeyTypeForWallet(codec, row.wallet.value)))
    else if row.userId.Some? then Some(Access(row.userId.value, "", ""))
    else None
  }

  function Successor(row: Row, expiresAt: int): Row {
    Row(if row.wallet.Some? then None else row.userId, row.wallet, expiresAt, false)
  }

  // ---- Steps ------------------------------------------------------------------------------

  datatype Event =
    | Issue(at: int, raw: string, login: Login)
    | Rotate(at: int, raw: string, next: string)
    | Revoke(raw: string)

  /** An insert fails on a hash already in the table, and the transaction rolls back. */
  predicate Succeeds(c: Config, t: Table, e: Event) {
    match e
    case Issue(_, raw, _) => c.hash(raw) !in t
    case Rotate(at, raw, next) =>
      && c.hash(raw) in t
      && !t[c.hash(raw)].revoked && at <= t[c.hash(raw)].expiresAt
      && RowAccess(c.codec, t[c.hash(raw)]).Some?
      && c.hash(next) !in t
    case Revoke(raw) => c.hash(raw) in t
  }

  function Step(c: Config, t: Table, e: Event): Table {
    if !Succeeds(c, t, e) then t
    else
      match e
      case Issue(at, raw, login) => t[c.hash(raw) := LoginRow(login, at + c.ttl)]
      case Rotate(at, raw, next) =>
        var row := t[c.hash(raw)];
        t[c.hash(raw) := row.(revoked := true)][c.hash(next) := Successor(row, at + c.ttl)]
      case Revoke(raw) => t[c.hash(raw) := t[c.hash(raw)].(revoked := true)]
  }

  function Exec(c: Config, events: seq<Event>): Table {
    if events == [] then map[] else Step(c, Exec(c, events[..|events| - 1]), events[|events| - 1])
  }

  ghost predicate SucceedsAt(c: Config, events: seq<Event>, i: nat) {
    i < |events| && Succeeds(c, Exec(c, events[..i]), events[i])
  }

  /** Wallet sign-ins have passed ValidWalletShape. */
  ghost predicate Valid(c: Config, events: seq<Event>) {
    forall i :: 0 <= i < |events| && events[i].Issue? && events[i].login.WalletLogin? ==>
      WalletNonce.ValidWalletShape(c.codec, events[i].login.wallet, events[i].login.keyType)
  }

  // ---- Lineages ------------------------------------------------------------------------------

  /** For each stored hash, the hash its sign-in issued. */
  ghost function Roots(c: Config, events: seq<Event>): map<string, string> {
    if events == [] then map[]
    else
      var before, e := events[..|events| - 1], events[|events| - 1];
      var roots := Roots(c, before);
      if !Succeeds(c, Exec(c, before), e) then roots
      else
        match e
        case Issue(_, raw, _) => roots[c.hash(raw) := c.hash(raw)]
        case Rotate(_, raw, next) => if c.hash(raw) in roots then roots[c.hash(next) := roots[c.hash(raw)]] else roots
        case Revoke(_) => roots
  }

  ghost predicate Rooted(t: Table, roots: map<string, string>) {
    forall h :: h in t <==> h in roots
  }

  ghost predicate LineagesSingle(t: Table, roots: map<string, string>)
    requires Rooted(t, roots)
  {
    forall h, k :: h in t && k in t && !t[h].revoked && !t[k].revoked && roots[h] == roots[k] ==> h == k
  }

  /** A live token's root is not the root of a stranger, and a root names a stored hash. */
  ghost predicate Inv(t: Table, roots: map<string, string>) {
    && Rooted(t, roots)
    && LineagesSingle(t, roots)
    && roots.Values <= roots.Keys
    && (forall h :: h in t ==> t[h].wallet.None? || t[h].userId.None?)
  }

  lemma IssueInv(t: Table, roots: map<string, string>, h: string, row: Row)
    requires Inv(t, roots) && h !in t && (row.wallet.None? || row.userId.None?)
    ensures Inv(t[h := row], roots[h := h])
  {
    var t', roots' := t[h := row], roots[h := h];
    assert h !in roots.Values;
    assert roots'.Values <= roots.Values + {h};
    forall a, b | a in t' && b in t' && !t'[a].revoked && !t'[b].revoked && roots'[a] == roots'[b] ensures a == b {
      assert a != h ==> roots[a] in roots.Values;
      assert b != h ==> roots[b] in roots.Values;
    }
  }

  lemma RotateInv(t: Table, roots: map<string, string>, h: string, k: string, at: int)
    requires Inv(t, roots) && h in t && k !in t && !t[h].revoked
    ensures Inv(t[h := t[h].(revoked := true)][k := Successor(t[h], at)], roots[k := roots[h]])
  {
    var roots' := roots[k := roots[h]];
    assert roots[h] in roots.Values;
    assert roots'.Values <= roots.Values + {roots[h]};
  }

  lemma StepInv(c: Config, events: seq<Event>, e: Event)
    requires Inv(Exec(c, events), Roots(c, events))
    ensures Inv(Exec(c, events + [e]), Roots(c, events + [e]))
  {
    assert (events + [e])[..|events|] == events;
    var t, roots := Exec(c, events), Roots(c, events);
    if Succeeds(c, t, e) {
      match e
      case Issue(at, raw, login) => IssueInv(t, roots, c.hash(raw), LoginRow(login, at + c.ttl));
      case Rotate(at, raw, next) => RotateInv(t, roots, c.hash(raw), c.hash(next), at + c.ttl);
      case Revoke(raw) =>
    }
  }

  lemma {:induction false} ExecInv(c: Config, events: seq<Event>)
    ensures Inv(Exec(c, events), Roots(c, events))
  {
    if events != [] {
      ExecInv(c, events[..|events| - 1]);
      StepInv(c, events[..|events| - 1], events[|events| - 1]);
      assert events[..|events| - 1] + [events[|events| - 1]] == events;
    }
  }

  /** Over every run, a sign-in lineage never has two unrevoked tokens. */
  lemma OneLiveTokenPerLineage(c: Config, events: seq<Event>, h: string, k: string)
    requires h in Exec(c, events) && k in Exec(c, events)
    requires !Exec(c, events)[h].revoked && !Exec(c, events)[k].revoked
    ensures h in Roots(c, events) && k in Roots(c, events)
    ensures Roots(c, events)[h] == Roots(c, events)[k] ==> h == k
  {
    ExecInv(c, events);
  }

  /** A revoked token stays revoked. */
  lemma {:induction false} RevokedForever(c: Config, events: seq<Event>, n: nat, h: string)
    requires n <= |events| && h in Exec(c, events[..n]) && Exec(c, events[..n])[h].revoked
    ensures h in Exec(c, events) && Exec(c, events)[h].revoked
    decreases |events|
  {
    if n == |events| {
      assert events[..n] == events;
    } else {
      var before := events[..|events| - 1];
      assert before[..n] == events[..n];
      RevokedForever(c, before, n, h);
    }
  }

  /** A token rotates at most once, and never after it was revoked. */
  lemma RotatesOnce(c: Config, events: seq<Event>, i: nat, j: nat)
    requires Sound(c) && i < j && SucceedsAt(c, events, i) && SucceedsAt(c, events, j)
    requires (events[i].Rotate? || events[i].Revoke?) && events[j].Rotate?
    ensures events[i].raw != events[j].raw
  {
    var h := c.hash(events[i].raw);
    assert events[..i + 1][..i] == events[..i];
    assert events[..j][..i + 1] == events[..i + 1];
    assert Exec(c, events[..i + 1])[h].revoked;
    RevokedForever(c, events[..j], i + 1, h);
  }

  // ---- When a token is good ----------------------------------------------------------------

  /** Event `i` handed out the token: a sign-in, or a rotation. */
  ghost predicate Grants(c: Config, events: seq<Event>, i: nat, raw: string) {
    SucceedsAt(c, events, i)
    && ((events[i].Issue? && events[i].raw == raw) || (events[i].Rotate? && events[i].next == raw))
  }

  /** Event `k` used the token up: a rotation, or a revocation. */
  ghost predicate Spends(c: Config, events: seq<Event>, k: nat, raw: string) {
    SucceedsAt(c, events, k) && !events[k].Issue? && events[k].raw == raw
  }

  ghost predicate Granted(c: Config, events: seq<Event>, raw: string) { exists i :: Grants(c, events, i, raw) }

  /** Nothing after event `i` and before event `n` used the token up. */
  ghost predicate Unspent(c: Config, events: seq<Event>, i: nat, n: nat, raw: string) {
    n > i + 1 ==> Unspent(c, events, i, n - 1, raw) && !Spends(c, events, n - 1, raw)
  }

  lemma {:induction false} NotSpent(c: Config, events: seq<Event>, i: nat, n: nat, raw: string, k: nat)
    requires Unspent(c, events, i, n, raw) && i < k < n
    ensures !Spends(c, events, k, raw)
  {
    if k < n - 1 {
      NotSpent(c, events, i, n - 1, raw, k);
    }
  }

  lemma {:induction false} NotNamed(c: Config, events: seq<Event>, i: nat, n: nat, raw: string)
    requires n <= |events| && forall k :: i < k < n && !events[k].Issue? ==> events[k].raw != raw
    ensures Unspent(c, events, i, n, raw)
  {
    if n > i + 1 {
      NotNamed(c, events, i, n - 1, raw);
    }
  }

  /** Event `i` handed out the token, its lifetime is not over, and nothing has used it up since. */
  ghost predicate Good(c: Config, events: seq<Event>, i: nat, raw: string, at: int) {
    Grants(c, events, i, raw) && at <= events[i].at + c.ttl && Unspent(c, events, i, |events|, raw)
  }

  /** One event and a row that is already there: only its revoked flag may change, once and for all. */
  lemma StepRow(c: Config, t: Table, e: Event, h: string)
    requires h in t
    ensures h in Step(c, t, e) && Step(c, t, e)[h].expiresAt == t[h].expiresAt
    ensures RowAccess(c.codec, Step(c, t, e)[h]) == RowAccess(c.codec, t[h])
    ensures Step(c, t, e)[h].revoked <==> t[h].revoked || (Succeeds(c, t, e) && !e.Issue? && c.hash(e.raw) == h)
  {
  }

  lemma ExecStep(c: Config, events: seq<Event>, n: nat)
    requires n < |events|
    ensures Exec(c, events[..n + 1]) == Step(c, Exec(c, events[..n]), events[n])
  {
    assert events[..n + 1][..n] == events[..n];
  }

  /** A token's row, with the moment its lifetime is over, and whether it is still good. */
  ghost predicate HasRow(c: Config, t: Table, raw: string, expiresAt: int, good: bool) {
    && c.hash(raw) in t
    && t[c.hash(raw)].expiresAt == expiresAt && RowAccess(c.codec, t[c.hash(raw)]).Some?
    && (t[c.hash(raw)].revoked <==> !good)
  }

  lemma RowStep(c: Config, events: seq<Event>, n: nat, raw: string, expiresAt: int, good: bool)
    requires Sound(c) && n < |events| && HasRow(c, Exec(c, events[..n]), raw, expiresAt, good)
    ensures HasRow(c, Exec(c, events[..n + 1]), raw, expiresAt, good && !Spends(c, events, n, raw))
  {
    ExecStep(c, events, n);
    StepRow(c, Exec(c, events[..n]), events[n], c.hash(raw));
  }

  /** The row of a token handed out: good for the refresh lifetime, and revoked exactly when used up. */
  lemma {:induction false} RowOf(c: Config, events: seq<Event>, i: nat, n: nat, raw: string)
    requires Sound(c) && Grants(c, events, i, raw) && i < n <= |events|
    ensures HasRow(c, Exec(c, events[..n]), raw, events[i].at + c.ttl, Unspent(c, events, i, n, raw))
  {
    if i < n - 1 {
      RowOf(c, events, i, n - 1, raw);
      RowStep(c, events, n - 1, raw, events[i].at + c.ttl, Unspent(c, events, i, n - 1, raw));
    } else {
      ExecStep(c, events, i);
      NewRow(c, Exec(c, events[..i]), events[i], raw);
    }
  }

  /** The row an event stores for the token it hands out. */
  lemma NewRow(c: Config, t: Table, e: Event, raw: string)
    requires Succeeds(c, t, e) && ((e.Issue? && e.raw == raw) || (e.Rotate? && e.next == raw))
    ensures HasRow(c, Step(c, t, e), raw, e.at + c.ttl, true)
  {
  }

  /** A stored hash is that of a token some event handed out. */
  lemma {:induction false} StoredWasGranted(c: Config, events: seq<Event>, n: nat, h: string)
    returns (i: nat, raw: string)
    requires n <= |events| && h in Exec(c, events[..n])
    ensures i < n && Grants(c, events, i, raw) && c.hash(raw) == h
  {
    assert n > 0 by {
      assert events[..0] == [];
    }
    ExecStep(c, events, n - 1);
    if h in Exec(c, events[..n - 1]) {
      i, raw := StoredWasGranted(c, events, n - 1, h);
    } else {
      i := n - 1;
      raw := if events[i].Issue? then events[i].raw else if events[i].Rotate? then events[i].next else "";
    }
  }

  lemma StoredIff(c: Config, events: seq<Event>, raw: string)
    requires Sound(c)
    ensures c.hash(raw) in Exec(c, events) <==> Granted(c, events, raw)
  {
    assert events[..|events|] == events;
    if c.hash(raw) in Exec(c, events) {
      var i, same := StoredWasGranted(c, events, |events|, c.hash(raw));
    }
    if i: nat :| Grants(c, events, i, raw) {
      RowOf(c, events, i, |events|, raw);
    }
  }

  /** Exactly when each call succeeds, by what happened before. A sign-in or a rotation needs a token
      nobody was handed; a revocation one that was; and a token rotates until its lifetime is over,
      from the moment it was handed out, unless it was rotated or revoked. */
  lemma SucceedsIff(c: Config, events: seq<Event>, e: Event)
    requires Sound(c)
    ensures e.Issue? ==> (Succeeds(c, Exec(c, events), e) <==> !Granted(c, events, e.raw))
    ensures e.Revoke? ==> (Succeeds(c, Exec(c, events), e) <==> Granted(c, events, e.raw))
    ensures e.Rotate? ==>
      (Succeeds(c, Exec(c, events), e) <==>
         !Granted(c, events, e.next) && exists i :: Good(c, events, i, e.raw, e.at))
  {
    assert events[..|events|] == events;
    StoredIff(c, events, e.raw);
    if e.Rotate? {
      StoredIff(c, events, e.next);
      if i: nat :| Grants(c, events, i, e.raw) {
        RotatesFrom(c, events, i, e);
        assert Good(c, events, i, e.raw, e.at) <==>
               e.at <= events[i].at + c.ttl && Unspent(c, events, i, |events|, e.raw);
      }
      forall i: nat | Good(c, events, i, e.raw, e.at)
        ensures Succeeds(c, Exec(c, events), e) <==> c.hash(e.next) !in Exec(c, events)
      {
        RotatesFrom(c, events, i, e);
      }
    }
  }

  lemma RotatesFrom(c: Config, events: seq<Event>, i: nat, e: Event)
    requires Sound(c) && e.Rotate? && Grants(c, events, i, e.raw)
    ensures Succeeds(c, Exec(c, events), e) <==>
            c.hash(e.next) !in Exec(c, events) && Good(c, events, i, e.raw, e.at)
  {
    assert events[..|events|] == events;
    RowOf(c, events, i, |events|, e.raw);
  }

  /** The token of a sign-in rotates exactly until it expires, unless used or revoked. */
  lemma IssuedRotates(c: Config, events: seq<Event>, i: nat, at: int, next: string)
    requires Sound(c) && SucceedsAt(c, events, i) && events[i].Issue?
    requires forall k :: i < k < |events| && !events[k].Issue? ==> events[k].raw != events[i].raw
    ensures Succeeds(c, Exec(c, events), Rotate(at, events[i].raw, next)) <==>
            at <= events[i].at + c.ttl && c.hash(next) !in Exec(c, events)
  {
    assert events[..|events|] == events;
    NotNamed(c, events, i, |events|, events[i].raw);
    RowOf(c, events, i, |events|, events[i].raw);
  }

  /** So does the token a rotation hands out. */
  lemma SuccessorRotates(c: Config, events: seq<Event>, i: nat, at: int, next: string)
    requires Sound(c) && SucceedsAt(c, events, i) && events[i].Rotate?
    requires forall k :: i < k < |events| && !events[k].Issue? ==> events[k].raw != events[i].next
    ensures Succeeds(c, Exec(c, events), Rotate(at, events[i].next, next)) <==>
            at <= events[i].at + c.ttl && c.hash(next) !in Exec(c, events)
  {
    assert events[..|events|] == events;
    NotNamed(c, events, i, |events|, events[i].next);
    RowOf(c, events, i, |events|, events[i].next);
  }

  // ---- Claims along a lineage -------------------------------------------------------------------

  /** Event `i` is the sign-in whose row is stored under `root`. */
  ghost predicate IssuedAt(c: Config, events: seq<Event>, i: int, root: string) {
    0 <= i < |events| && events[i].Issue? && SucceedsAt(c, events, i) && c.hash(events[i].raw) == root
  }

  /** The row still carries the owner columns of a sign-in. */
  predicate OwnedBy(row: Row, login: Login) {
    row.wallet == LoginRow(login, 0).wallet && row.userId == LoginRow(login, 0).userId
  }

  lemma SucceedsInPrefix(c: Config, events: seq<Event>, n: nat, i: nat)
    requires i < n <= |events|
    ensures SucceedsAt(c, events[..n], i) <==> SucceedsAt(c, events, i)
  {
    assert events[..n][..i] == events[..i];
  }

  /** How a stored hash got there: it was there before, or the last event put it there. */
  lemma WhereFrom(c: Config, events: seq<Event>, h: string)
    requires events != [] && h in Exec(c, events)
    ensures var n := |events| - 1;
            var t, e := Exec(c, events[..n]), events[n];
            if h in t then
              h in Roots(c, events[..n]) && h in Roots(c, events) && Roots(c, events)[h] == Roots(c, events[..n])[h]
              && Exec(c, events)[h].wallet == t[h].wallet && Exec(c, events)[h].userId == t[h].userId
            else if e.Issue? then
              SucceedsAt(c, events, n) && h == c.hash(e.raw) && h in Roots(c, events) && Roots(c, events)[h] == h
              && OwnedBy(Exec(c, events)[h], e.login)
            else
              e.Rotate? && c.hash(e.raw) in t
              && c.hash(e.raw) in Roots(c, events[..n]) && h in Roots(c, events)
              && Roots(c, events)[h] == Roots(c, events[..n])[c.hash(e.raw)]
              && Exec(c, events)[h].wallet == t[c.hash(e.raw)].wallet
                 && Exec(c, events)[h].userId == t[c.hash(e.raw)].userId
  {
    ExecInv(c, events[..|events| - 1]);
  }

  lemma {:induction false} RootIsIssued(c: Config, events: seq<Event>, h: string) returns (i: nat)
    requires h in Exec(c, events)
    ensures h in Roots(c, events) && IssuedAt(c, events, i, Roots(c, events)[h])
    ensures OwnedBy(Exec(c, events)[h], events[i].login)
  {
    WhereFrom(c, events, h);
    var n := |events| - 1;
    if h !in Exec(c, events[..n]) && events[n].Issue? {
      i := n;
    } else {
      i := RootIsIssued(c, events[..n], if h in Exec(c, events[..n]) then h else c.hash(events[n].raw));
      SucceedsInPrefix(c, events, n, i);
      assert events[..n][i] == events[i];
    }
  }

  /** Every rotation mints the same subject, scope and key type as the sign-in its lineage began with. */
  lemma ClaimsNeverChange(c: Config, events: seq<Event>, j: nat) returns (i: nat)
    requires Sound(c) && Valid(c, events) && SucceedsAt(c, events, j) && events[j].Rotate?
    ensures i < j && events[i].Issue? && SucceedsAt(c, events, i)
    ensures c.hash(events[j].raw) in Roots(c, events[..j])
    ensures Roots(c, events[..j])[c.hash(events[j].raw)] == c.hash(events[i].raw)
    ensures var login := events[i].login;
            RowAccess(c.codec, Exec(c, events[..j])[c.hash(events[j].raw)])
            == Some(if login.UserLogin? then Access(login.userId, "", "")
                else Access(login.wallet, "wallet", login.keyType))
  {
    i := RootIsIssued(c, events[..j], c.hash(events[j].raw));
    assert events[..j][i] == events[i];
    SucceedsInPrefix(c, events, j, i);
    if events[i].login.WalletLogin? {
      WalletNonce.KeyTypeRecovered(c.codec, events[i].login.wallet, events[i].login.keyType);
    }
  }

  class AuthService {
    const c: Config
    var table: Table

    constructor (c: Config)
      ensures this.c == c && table == map[]
    {
      this.c := c;
      table := map[];
    }

    /** IssueTokenPair and IssueWalletTokenPair; `raw` is the random token. */
    method IssuePair(login: Login, raw: string, now: int) returns (access: Option<Access>)
      modifies this
      ensures table == Step(c, old(table), Issue(now, raw, login))
      ensures access.Some? <==> Succeeds(c, old(table), Issue(now, raw, login))
      ensures access.Some? ==>
        access.value == if login.UserLogin? then Access(login.userId, "", "")
            else Access(login.wallet, "wallet", login.keyType)
    {
      if c.hash(raw) in table {
        return None;
      }
      table := table[c.hash(raw) := LoginRow(login, now + c.ttl)];
      access := Some(LoginAccess(login));
    }

    /** RotateRefreshToken. A rotation that returns nothing has changed nothing. */
    method RotateRefreshToken(raw: string, next: string, now: int) returns (access: Option<Access>)
      modifies this
      ensures table == Step(c, old(table), Rotate(now, raw, next))
      ensures access.Some? <==> Succeeds(c, old(table), Rotate(now, raw, next))
      ensures access.Some? ==> access == RowAccess(c.codec, old(table)[c.hash(raw)])
      ensures access.None? ==> table == old(table)
    {
      var hash := c.hash(raw);
      if hash !in table || table[hash].revoked || now > table[hash].expiresAt {
        return None;
      }
      var row, saved := table[hash], table;
      table := table[hash := row.(revoked := true)];
      if RowAccess(c.codec, row).None? || c.hash(next) in table {
        table := saved;
        return None;
      }
      table := table[c.hash(next) := Successor(row, now + c.ttl)];
      access := RowAccess(c.codec, row);
    }

    method RevokeRefreshToken(raw: string)
      modifies this
      ensures table == Step(c, old(table), Revoke(raw))
    {
      if c.hash(raw) in table {
        table := table[c.hash(raw) := table[c.hash(raw)].(revoked := true)];
      }
    }
  }
}
