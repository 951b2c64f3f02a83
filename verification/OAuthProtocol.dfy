/**
  The OAuth service over the SQLite store: any number of exchanges, refreshes and revocations, each cut
  where the service awaits the store, in any order. Families of refresh tokens stay sound in every run.
 */
module OAuthProtocol {
  import opened Base
  import opened OAuthStore

  /** A request between two of its transactions. */
  datatype Flow =
    | Exchanging(codeHash: Hash, code: Code)
    | Refreshing(hash: Hash, current: RefreshToken)
    | Revoking(hash: Hash)

  datatype Server = Server(db: Db, flows: map<int, Flow>)

  // ---------------------------------------------------------------------------------------------
  // Steps
  // ---------------------------------------------------------------------------------------------

  /** `approveAuthorization`: the grant id is a fresh UUID. */
  ghost predicate Approve(s: Server, t: Server, hash: Hash, code: Code) {
    && hash !in s.db.codes && code.consumedAt.None? && code.revokedAt.None?
    && code.grantId !in s.db.grants && (forall c :: c in s.db.codes ==> s.db.codes[c].grantId != code.grantId)
    && t == s.(db := s.db.(codes := s.db.codes[hash := code]))
  }

  /** The code is used up even when the verifier or the resource turns out wrong. */
  ghost predicate StartExchange(s: Server, t: Server, f: int, codeHash: Hash, clientId: ClientId, redirectUri: string,
                                verifier: string, resource: string, now: Time) {
    && f !in s.flows && CodeUsable(s.db, codeHash, clientId, redirectUri, now)
    && var db := CodeConsumed(s.db, codeHash, now);
       var code := db.codes[codeHash];
       var accepted := S256(verifier) == code.challenge && code.resource == resource;
       t == Server(db, if accepted then s.flows[f := Exchanging(codeHash, code)] else s.flows)
  }

  /** New secrets hash to values never seen, a new family id is a fresh UUID. */
  ghost predicate FreshSecrets(db: Db, tokens: TokenSet) {
    tokens.accessHash !in db.access && tokens.refreshHash !in db.refresh
  }

  ghost predicate FreshFamily(db: Db, family: FamilyId) {
    forall h :: h in db.refresh ==> db.refresh[h].familyId != family
  }

  /** `issueTokenSet`. */
  ghost predicate Issued(code: Code, tokens: TokenSet) {
    && tokens.grantId == code.grantId && tokens.access.grantId == code.grantId && tokens.refresh.grantId == code.grantId
    && tokens.grant.userId == tokens.access.userId == tokens.refresh.userId == code.userId
    && tokens.grant.clientId == tokens.access.clientId == tokens.refresh.clientId == code.clientId
    && tokens.grant.resource == tokens.access.resource == tokens.refresh.resource == code.resource
    && tokens.grant.revokedAt.None? && tokens.access.revokedAt.None? && tokens.refresh.revokedAt.None?
    && tokens.refresh.replacedAt.None?
  }

  ghost predicate FinishExchange(s: Server, t: Server, f: int, tokens: TokenSet) {
    && f in s.flows && s.flows[f].Exchanging? && Issued(s.flows[f].code, tokens)
    && FreshSecrets(s.db, tokens) && FreshFamily(s.db, tokens.refresh.familyId)
    && t == Server(if Insertable(s.db, tokens) then TokenSetCreated(s.db, tokens) else s.db, s.flows - {f})
  }

  ghost predicate StartRefresh(s: Server, t: Server, f: int, hash: Hash, clientId: ClientId) {
    && f !in s.flows && hash in s.db.refresh && s.db.refresh[hash].clientId == clientId
    && t == s.(flows := s.flows[f := Refreshing(hash, s.db.refresh[hash])])
  }

  /** `makeTokenSet`: the next set inherits everything from the token that was read. */
  ghost predicate Inherits(current: RefreshToken, next: TokenSet) {
    && next.grantId == next.access.grantId == next.refresh.grantId == current.grantId
    && next.refresh.familyId == current.familyId
    && next.access.userId == next.refresh.userId == current.userId
    && next.access.clientId == next.refresh.clientId == current.clientId
    && next.access.resource == next.refresh.resource == current.resource
    && next.access.revokedAt.None? && next.refresh.revokedAt.None? && next.refresh.replacedAt.None?
  }

  ghost predicate FinishRefresh(s: Server, t: Server, f: int, resource: Option<string>, now: Time, next: TokenSet) {
    && f in s.flows && s.flows[f].Refreshing? && Inherits(s.flows[f].current, next) && FreshSecrets(s.db, next)
    && var hash := s.flows[f].hash;
       t == if Rotatable(s.db, hash, s.flows[f].current.clientId, resource, now)
            then Server(Rotated(s.db, hash, now, next), s.flows - {f})
            else s.(flows := s.flows[f := Revoking(hash)])
  }

  ghost predicate FinishRevoking(s: Server, t: Server, f: int, at: Time) {
    && f in s.flows && s.flows[f].Revoking?
    && t == Server(FamilyRevoked(s.db, s.flows[f].hash, at), s.flows - {f})
  }

  /** The two halves of `revokeToken`. */
  ghost predicate RevokeAccess(s: Server, t: Server, hash: Hash, at: Time) {
    AccessLive(s.db, hash) && t == s.(db := AccessRevoked(s.db, hash, at))
  }

  ghost predicate RevokeFamily(s: Server, t: Server, hash: Hash, at: Time) {
    t == s.(db := FamilyRevoked(s.db, hash, at))
  }

  ghost predicate RevokeGrant(s: Server, t: Server, user: UserId, g: GrantId, at: Time) {
    UserOwns(s.db, user, g) && t == s.(db := GrantRevoked(s.db, g, at))
  }

  datatype Action =
    | DoApprove(hash: Hash, code: Code)
    | DoStartExchange(f: int, codeHash: Hash, clientId: ClientId, redirectUri: string, verifier: string,
                      resource: string, now: Time)
    | DoFinishExchange(f: int, tokens: TokenSet)
    | DoStartRefresh(f: int, hash: Hash, clientId: ClientId)
    | DoFinishRefresh(f: int, requested: Option<string>, now: Time, tokens: TokenSet)
    | DoFinishRevoking(f: int, now: Time)
    | DoRevokeAccess(hash: Hash, now: Time)
    | DoRevokeFamily(hash: Hash, now: Time)
    | DoRevokeGrant(user: UserId, g: GrantId, now: Time)

  ghost predicate Step(s: Server, a: Action, t: Server) {
    match a
    case DoApprove(hash, code) => Approve(s, t, hash, code)
    case DoStartExchange(f, codeHash, clientId, redirectUri, verifier, resource, now) =>
      StartExchange(s, t, f, codeHash, clientId, redirectUri, verifier, resource, now)
    case DoFinishExchange(f, tokens) => FinishExchange(s, t, f, tokens)
    case DoStartRefresh(f, hash, clientId) => StartRefresh(s, t, f, hash, clientId)
    case DoFinishRefresh(f, requested, now, tokens) => FinishRefresh(s, t, f, requested, now, tokens)
    case DoFinishRevoking(f, now) => FinishRevoking(s, t, f, now)
    case DoRevokeAccess(hash, now) => RevokeAccess(s, t, hash, now)
    case DoRevokeFamily(hash, now) => RevokeFamily(s, t, hash, now)
    case DoRevokeGrant(user, g, now) => RevokeGrant(s, t, user, g, now)
  }

  // ---------------------------------------------------------------------------------------------
  // The invariant
  // ---------------------------------------------------------------------------------------------

  /** Two refresh tokens: one family exactly when one grant, and then at most one of them is live. */
  ghost predicate PairOk(a: RefreshToken, b: RefreshToken) {
    (a.familyId == b.familyId <==> a.grantId == b.grantId)
      && (a.familyId == b.familyId ==> a.revokedAt.Some? || b.revokedAt.Some?)
  }

  ghost predicate FamiliesOk(db: Db) {
    && (forall h, k :: h in db.refresh && k in db.refresh && h != k ==> PairOk(db.refresh[h], db.refresh[k]))
    && (forall h :: h in db.refresh && db.refresh[h].replacedAt.Some? ==> db.refresh[h].revokedAt.Some?)
  }

  /** A revoked grant has no live token left. */
  ghost predicate GrantDead(db: Db, g: GrantId) {
    && (forall h :: h in db.access && db.access[h].grantId == g ==> db.access[h].revokedAt.Some?)
    && (forall h :: h in db.refresh && db.refresh[h].grantId == g ==> db.refresh[h].revokedAt.Some?)
  }

  ghost predicate Revoked(db: Db, g: GrantId) {
    g in db.grants && db.grants[g].revokedAt.Some?
  }

  ghost predicate GrantsOk(db: Db) {
    && (forall h :: h in db.access ==> db.access[h].grantId in db.grants)
    && (forall h :: h in db.refresh ==> db.refresh[h].grantId in db.grants)
    && (forall g :: Revoked(db, g) ==> GrantDead(db, g))
  }

  ghost predicate CodesOk(db: Db) {
    && (forall c, d :: c in db.codes && d in db.codes && c != d ==> db.codes[c].grantId != db.codes[d].grantId)
    && (forall c :: c in db.codes && db.codes[c].grantId in db.grants ==> db.codes[c].consumedAt.Some?)
  }

  ghost predicate FlowOk(db: Db, flow: Flow) {
    match flow
    case Exchanging(codeHash, code) =>
      codeHash in db.codes && db.codes[codeHash].grantId == code.grantId && db.codes[codeHash].consumedAt.Some?
        && code.grantId !in db.grants
    case Refreshing(hash, current) =>
      hash in db.refresh && db.refresh[hash].familyId == current.familyId && db.refresh[hash].grantId == current.grantId
    case Revoking(hash) => hash in db.refresh
  }

  ghost predicate SameCode(a: Flow, b: Flow) {
    a.Exchanging? && b.Exchanging? && a.codeHash == b.codeHash
  }

  ghost predicate FlowsOk(s: Server) {
    && (forall f :: f in s.flows ==> FlowOk(s.db, s.flows[f]))
    && (forall e, f :: e in s.flows && f in s.flows && e != f ==> !SameCode(s.flows[e], s.flows[f]))
  }

  ghost predicate Inv(s: Server) {
    FamiliesOk(s.db) && GrantsOk(s.db) && CodesOk(s.db) && FlowsOk(s)
  }

  // ---------------------------------------------------------------------------------------------
  // Every step keeps it
  // ---------------------------------------------------------------------------------------------

  /** What a revocation may do to the tables: set `revoked_at` fields, nothing else. */
  ghost predicate OnlyRevokes(a: Db, b: Db) {
    && b.codes.Keys == a.codes.Keys && b.grants.Keys == a.grants.Keys && b.access.Keys == a.access.Keys
    && b.refresh.Keys == a.refresh.Keys
    && (forall c :: c in a.codes ==> b.codes[c] == a.codes[c].(revokedAt := b.codes[c].revokedAt))
    && (forall g :: g in a.grants ==> b.grants[g] == a.grants[g].(revokedAt := b.grants[g].revokedAt)
                                      && (a.grants[g].revokedAt.Some? ==> b.grants[g].revokedAt.Some?))
    && (forall h :: h in a.access ==> b.access[h] == a.access[h].(revokedAt := b.access[h].revokedAt)
                                      && (a.access[h].revokedAt.Some? ==> b.access[h].revokedAt.Some?))
    && (forall h :: h in a.refresh ==> b.refresh[h] == a.refresh[h].(revokedAt := b.refresh[h].revokedAt)
                                       && (a.refresh[h].revokedAt.Some? ==> b.refresh[h].revokedAt.Some?))
  }

  lemma RevocationKeepsInv(s: Server, t: Server)
    requires Inv(s) && OnlyRevokes(s.db, t.db) && t.flows == s.flows
    requires forall g :: Revoked(t.db, g) && !Revoked(s.db, g) ==> GrantDead(t.db, g)
    ensures Inv(t)
  {
    forall g | Revoked(t.db, g) ensures GrantDead(t.db, g) {
      if Revoked(s.db, g) { assert GrantDead(s.db, g); }
    }
    forall h, k | h in t.db.refresh && k in t.db.refresh && h != k ensures PairOk(t.db.refresh[h], t.db.refresh[k]) {
      assert PairOk(s.db.refresh[h], s.db.refresh[k]);
    }
    forall f | f in t.flows ensures FlowOk(t.db, t.flows[f]) { assert FlowOk(s.db, s.flows[f]); }
  }

  lemma FamilyRevocation(db: Db, hash: Hash, at: Time)
    requires FamiliesOk(db) && GrantsOk(db) && hash in db.refresh
    ensures OnlyRevokes(db, FamilyRevoked(db, hash, at))
    ensures var g := db.refresh[hash].grantId;
            Revoked(FamilyRevoked(db, hash, at), g) && GrantDead(FamilyRevoked(db, hash, at), g)
    ensures forall g :: Revoked(FamilyRevoked(db, hash, at), g) ==> g == db.refresh[hash].grantId || Revoked(db, g)
  {
    forall h | h in db.refresh && db.refresh[h].grantId == db.refresh[hash].grantId
      ensures db.refresh[h].familyId == db.refresh[hash].familyId
    {
      if h != hash { assert PairOk(db.refresh[h], db.refresh[hash]); }
    }
  }

  lemma GrantRevocation(db: Db, g: GrantId, at: Time)
    requires g in db.grants
    ensures OnlyRevokes(db, GrantRevoked(db, g, at))
    ensures Revoked(GrantRevoked(db, g, at), g) && GrantDead(GrantRevoked(db, g, at), g)
    ensures forall x :: Revoked(GrantRevoked(db, g, at), x) ==> x == g || Revoked(db, x)
  {
  }

  lemma FamilyRevocationKeepsInv(s: Server, hash: Hash, at: Time)
    requires Inv(s)
    ensures Inv(s.(db := FamilyRevoked(s.db, hash, at)))
  {
    if hash in s.db.refresh {
      FamilyRevocation(s.db, hash, at);
      RevocationKeepsInv(s, s.(db := FamilyRevoked(s.db, hash, at)));
    }
  }

  lemma DroppingFlowKeepsInv(s: Server, f: int)
    requires Inv(s)
    ensures Inv(s.(flows := s.flows - {f}))
  {
  }

  lemma ApproveKeepsInv(s: Server, t: Server, hash: Hash, code: Code)
    requires Inv(s) && Approve(s, t, hash, code)
    ensures Inv(t)
  {
    forall f | f in t.flows ensures FlowOk(t.db, t.flows[f]) { assert FlowOk(s.db, s.flows[f]); }
    assert forall g :: Revoked(t.db, g) ==> Revoked(s.db, g) && GrantDead(s.db, g);
  }

  lemma StartExchangeKeepsInv(s: Server, t: Server, f: int, codeHash: Hash, clientId: ClientId, redirectUri: string,
                              verifier: string, resource: string, now: Time)
    requires Inv(s) && StartExchange(s, t, f, codeHash, clientId, redirectUri, verifier, resource, now)
    ensures Inv(t)
  {
    forall e | e in t.flows ensures FlowOk(t.db, t.flows[e]) {
      if e in s.flows { assert FlowOk(s.db, s.flows[e]); }
    }
    forall d, e | d in t.flows && e in t.flows && d != e ensures !SameCode(t.flows[d], t.flows[e]) {
      if d in s.flows { assert FlowOk(s.db, s.flows[d]); }
      if e in s.flows { assert FlowOk(s.db, s.flows[e]); }
    }
    assert forall g :: Revoked(t.db, g) ==> Revoked(s.db, g) && GrantDead(s.db, g);
  }

  /** The insertion cannot fail: no grant row carries the id of a code whose exchange is under way. */
  lemma FinishExchangeKeepsInv(s: Server, t: Server, f: int, tokens: TokenSet)
    requires Inv(s) && FinishExchange(s, t, f, tokens)
    ensures Inv(t) && Insertable(s.db, tokens)
  {
    assert FlowOk(s.db, s.flows[f]);
    forall h, k | h in t.db.refresh && k in t.db.refresh && h != k ensures PairOk(t.db.refresh[h], t.db.refresh[k]) {
      if h in s.db.refresh && k in s.db.refresh { assert PairOk(s.db.refresh[h], s.db.refresh[k]); }
    }
    forall g | Revoked(t.db, g) ensures GrantDead(t.db, g) {
      assert Revoked(s.db, g) && GrantDead(s.db, g);
    }
    forall e | e in t.flows ensures FlowOk(t.db, t.flows[e]) {
      assert FlowOk(s.db, s.flows[e]) && !SameCode(s.flows[e], s.flows[f]);
    }
  }

  lemma StartRefreshKeepsInv(s: Server, t: Server, f: int, hash: Hash, clientId: ClientId)
    requires Inv(s) && StartRefresh(s, t, f, hash, clientId)
    ensures Inv(t)
  {
  }

  /** What the tables need of the next token set; it follows from how the set was built. */
  ghost predicate Succeeds(row: RefreshToken, next: TokenSet) {
    && next.refresh.familyId == row.familyId && next.refresh.replacedAt.None?
    && next.access.grantId == next.refresh.grantId == row.grantId
  }

  /** One token of a family is retired in favour of a new one. */
  lemma RotationKeepsFamilies(db: Db, hash: Hash, now: Time, next: TokenSet)
    requires FamiliesOk(db) && hash in db.refresh && db.refresh[hash].revokedAt.None?
    requires Succeeds(db.refresh[hash], next) && FreshSecrets(db, next)
    ensures FamiliesOk(Rotated(db, hash, now, next))
  {
    var before, after := db.refresh, Rotated(db, hash, now, next).refresh;
    forall h, k | h in after && k in after && h != k ensures PairOk(after[h], after[k]) {
      if h != next.refreshHash && k != next.refreshHash {
        assert PairOk(before[h], before[k]);
      } else {
        var other := if h == next.refreshHash then k else h;
        if other != hash { assert PairOk(before[hash], before[other]); }
      }
    }
  }

  lemma RotationKeepsGrants(db: Db, hash: Hash, now: Time, next: TokenSet)
    requires GrantsOk(db) && hash in db.refresh && db.refresh[hash].revokedAt.None?
    requires Succeeds(db.refresh[hash], next) && FreshSecrets(db, next)
    ensures GrantsOk(Rotated(db, hash, now, next))
  {
    var g := db.refresh[hash].grantId;
    assert Revoked(db, g) ==> GrantDead(db, g);
    forall x | Revoked(Rotated(db, hash, now, next), x) ensures GrantDead(Rotated(db, hash, now, next), x) {
      assert Revoked(db, x) && GrantDead(db, x) && x != g;
    }
  }

  lemma FinishRefreshKeepsInv(s: Server, t: Server, f: int, resource: Option<string>, now: Time, next: TokenSet)
    requires Inv(s) && FinishRefresh(s, t, f, resource, now, next)
    ensures Inv(t)
  {
    var hash := s.flows[f].hash;
    assert FlowOk(s.db, s.flows[f]);
    if Rotatable(s.db, hash, s.flows[f].current.clientId, resource, now) {
      RotationKeepsFamilies(s.db, hash, now, next);
      RotationKeepsGrants(s.db, hash, now, next);
      assert t.db.grants.Keys == s.db.grants.Keys;
      forall e | e in t.flows ensures FlowOk(t.db, t.flows[e]) { assert FlowOk(s.db, s.flows[e]); }
    }
  }

  lemma RevokeAccessKeepsInv(s: Server, t: Server, hash: Hash, at: Time)
    requires Inv(s) && RevokeAccess(s, t, hash, at)
    ensures Inv(t)
  {
    RevocationKeepsInv(s, t);
  }

  lemma RevokeGrantKeepsInv(s: Server, t: Server, user: UserId, g: GrantId, at: Time)
    requires Inv(s) && RevokeGrant(s, t, user, g, at)
    ensures Inv(t)
  {
    GrantRevocation(s.db, g, at);
    RevocationKeepsInv(s, t);
  }

  lemma FinishRevokingKeepsInv(s: Server, t: Server, f: int, at: Time)
    requires Inv(s) && FinishRevoking(s, t, f, at)
    ensures Inv(t)
  {
    FamilyRevocationKeepsInv(s, s.flows[f].hash, at);
    DroppingFlowKeepsInv(s.(db := t.db), f);
  }

  lemma StepKeepsInv(s: Server, a: Action, t: Server)
    requires Inv(s) && Step(s, a, t)
    ensures Inv(t)
  {
    match a
    case DoApprove(hash, code) => ApproveKeepsInv(s, t, hash, code);
    case DoStartExchange(f, codeHash, clientId, redirectUri, verifier, resource, now) =>
      StartExchangeKeepsInv(s, t, f, codeHash, clientId, redirectUri, verifier, resource, now);
    case DoFinishExchange(f, tokens) => FinishExchangeKeepsInv(s, t, f, tokens);
    case DoStartRefresh(f, hash, clientId) => StartRefreshKeepsInv(s, t, f, hash, clientId);
    case DoFinishRefresh(f, requested, now, tokens) => FinishRefreshKeepsInv(s, t, f, requested, now, tokens);
    case DoFinishRevoking(f, now) => FinishRevokingKeepsInv(s, t, f, now);
    case DoRevokeAccess(hash, now) => RevokeAccessKeepsInv(s, t, hash, now);
    case DoRevokeFamily(hash, now) => FamilyRevocationKeepsInv(s, hash, now);
    case DoRevokeGrant(user, g, now) => RevokeGrantKeepsInv(s, t, user, g, now);
  }

  // ---------------------------------------------------------------------------------------------
  // Whole runs
  // ---------------------------------------------------------------------------------------------

  ghost predicate IsRun(states: seq<Server>, actions: seq<Action>) {
    && |states| == |actions| + 1
    && states[0] == Server(Db(map[], map[], map[], map[]), map[])
    && forall i :: 0 <= i < |actions| ==> Step(states[i], actions[i], states[i + 1])
  }

  /** In every reachable state the families, grants and codes are in order. */
  lemma {:induction false} RunKeepsInv(states: seq<Server>, actions: seq<Action>, n: nat)
    requires IsRun(states, actions) && n < |states|
    ensures Inv(states[n])
  {
    if n > 0 {
      RunKeepsInv(states, actions, n - 1);
      StepKeepsInv(states[n - 1], actions[n - 1], states[n - 1 + 1]);
    }
  }

  /** In every run each family has at most one live token, and families and grants correspond one to one. */
  lemma FamiliesStaySound(states: seq<Server>, actions: seq<Action>, n: nat, h: Hash, k: Hash)
    requires IsRun(states, actions) && n < |states|
    requires h in states[n].db.refresh && k in states[n].db.refresh
    ensures var a, b := states[n].db.refresh[h], states[n].db.refresh[k];
            && (a.familyId == b.familyId <==> a.grantId == b.grantId)
            && (a.familyId == b.familyId && a.revokedAt.None? && b.revokedAt.None? ==> h == k)
  {
    RunKeepsInv(states, actions, n);
    if h != k { assert PairOk(states[n].db.refresh[h], states[n].db.refresh[k]); }
  }

  /** Every token of the grant in the second table was there, for the same grant, in the first. */
  ghost predicate NoNewTokens(a: Db, b: Db, g: GrantId) {
    && (forall h :: h in b.access && b.access[h].grantId == g ==> h in a.access && a.access[h].grantId == g)
    && (forall h :: h in b.refresh && b.refresh[h].grantId == g ==> h in a.refresh && a.refresh[h].grantId == g)
  }

  /** Once a grant is revoked no step revives it or adds a token to it. */
  lemma RevokedStaysRevoked(s: Server, a: Action, t: Server, g: GrantId)
    requires Inv(s) && Step(s, a, t) && Revoked(s.db, g)
    ensures Revoked(t.db, g) && NoNewTokens(s.db, t.db, g)
  {
    assert GrantDead(s.db, g);
    match a
    case DoFinishExchange(f, tokens) => FinishExchangeKeepsInv(s, t, f, tokens);
    case DoFinishRefresh(f, requested, now, tokens) => assert FlowOk(s.db, s.flows[f]);
    case DoFinishRevoking(f, now) =>
      if s.flows[f].hash in s.db.refresh { FamilyRevocation(s.db, s.flows[f].hash, now); }
    case DoRevokeFamily(hash, now) => if hash in s.db.refresh { FamilyRevocation(s.db, hash, now); }
    case _ =>
  }

  lemma RevokedStepAt(states: seq<Server>, actions: seq<Action>, j: nat, g: GrantId)
    requires IsRun(states, actions) && j < |actions| && Revoked(states[j].db, g)
    ensures Revoked(states[j + 1].db, g) && NoNewTokens(states[j].db, states[j + 1].db, g)
  {
    RunKeepsInv(states, actions, j);
    RevokedStaysRevoked(states[j], actions[j], states[j + 1], g);
  }

  lemma NoNewTokensTransitive(a: Db, b: Db, c: Db, g: GrantId)
    requires NoNewTokens(a, b, g) && NoNewTokens(b, c, g)
    ensures NoNewTokens(a, c, g)
  {
  }

  lemma {:induction false} RevocationPersists(states: seq<Server>, actions: seq<Action>, i: nat, j: nat, g: GrantId)
    requires IsRun(states, actions) && i <= j < |states| && Revoked(states[i].db, g)
    ensures Revoked(states[j].db, g) && NoNewTokens(states[i].db, states[j].db, g)
    decreases j
  {
    if i < j {
      RevocationPersists(states, actions, i, j - 1, g);
      RevokedStepAt(states, actions, j - 1, g);
      NoNewTokensTransitive(states[i].db, states[j - 1].db, states[j].db, g);
    }
  }

  /** No access token of the grant is accepted, and no refresh token of it can be rotated. */
  ghost predicate Refused(db: Db, g: GrantId) {
    && (forall h, resource, now :: h in db.access && db.access[h].grantId == g ==> !Accepted(db, h, resource, now))
    && (forall h, client, resource, now :: h in db.refresh && db.refresh[h].grantId == g
          ==> !Rotatable(db, h, client, resource, now))
  }

  /**
    A revoked grant is dead for good: from then on none of its access tokens is accepted, none of its
    refresh tokens can be rotated, and no token is ever issued for it again.
   */
  lemma RevokedForever(states: seq<Server>, actions: seq<Action>, i: nat, j: nat, g: GrantId)
    requires IsRun(states, actions) && i <= j < |states| && Revoked(states[i].db, g)
    ensures Revoked(states[j].db, g) && Refused(states[j].db, g) && NoNewTokens(states[i].db, states[j].db, g)
  {
    RevocationPersists(states, actions, i, j, g);
    RunKeepsInv(states, actions, j);
    assert GrantDead(states[j].db, g);
  }

  /** Grants and codes are only ever added, and a code keeps its grant id. */
  ghost predicate RowsKept(a: Db, b: Db) {
    a.grants.Keys <= b.grants.Keys && forall c :: c in a.codes
                                        ==> c in b.codes && b.codes[c].grantId == a.codes[c].grantId
  }

  lemma StepKeepsRows(s: Server, a: Action, t: Server)
    requires Step(s, a, t)
    ensures RowsKept(s.db, t.db)
  {
  }

  lemma RowsKeptTransitive(a: Db, b: Db, c: Db)
    requires RowsKept(a, b) && RowsKept(b, c)
    ensures RowsKept(a, c)
  {
  }

  lemma {:induction false} RowsKeptAlong(states: seq<Server>, actions: seq<Action>, i: nat, j: nat)
    requires IsRun(states, actions) && i <= j < |states|
    ensures RowsKept(states[i].db, states[j].db)
  {
    if i < j {
      RowsKeptAlong(states, actions, i, j - 1);
      StepKeepsRows(states[j - 1], actions[j - 1], states[j - 1 + 1]);
      RowsKeptTransitive(states[i].db, states[j - 1].db, states[j].db);
    }
  }

  /** The action stores a token set for this code. */
  ghost predicate IssuesFor(s: Server, a: Action, codeHash: Hash) {
    a.DoFinishExchange? && a.f in s.flows && s.flows[a.f].Exchanging? && s.flows[a.f].codeHash == codeHash
  }

  /** Each authorization code yields at most one token set, and the one it yields is stored. */
  lemma OneTokenSetPerCode(states: seq<Server>, actions: seq<Action>, i: nat, j: nat, codeHash: Hash)
    requires IsRun(states, actions) && i < |actions| && j < |actions|
    requires IssuesFor(states[i], actions[i], codeHash) && IssuesFor(states[j], actions[j], codeHash)
    ensures i == j
    ensures Insertable(states[i].db, actions[i].tokens)
    ensures states[i + 1].db == TokenSetCreated(states[i].db, actions[i].tokens)
  {
    IssuingTwiceIsImpossible(states, actions, i, j, codeHash);
    IssuingTwiceIsImpossible(states, actions, j, i, codeHash);
    RunKeepsInv(states, actions, i);
    assert Step(states[i], actions[i], states[i + 1]);
    FinishExchangeKeepsInv(states[i], states[i + 1], actions[i].f, actions[i].tokens);
  }

  lemma IssuingTwiceIsImpossible(states: seq<Server>, actions: seq<Action>, i: nat, j: nat, codeHash: Hash)
    requires IsRun(states, actions) && i < |actions| && j < |actions|
    requires IssuesFor(states[i], actions[i], codeHash) && IssuesFor(states[j], actions[j], codeHash)
    ensures j <= i
  {
    RunKeepsInv(states, actions, i);
    RunKeepsInv(states, actions, j);
    assert Step(states[i], actions[i], states[i + 1]);
    assert FlowOk(states[i].db, states[i].flows[actions[i].f]);
    assert FlowOk(states[j].db, states[j].flows[actions[j].f]);
    FinishExchangeKeepsInv(states[i], states[i + 1], actions[i].f, actions[i].tokens);
    if i < j {
      RowsKeptAlong(states, actions, i, j);
      RowsKeptAlong(states, actions, i + 1, j);
    }
  }

  /** A token set is only ever prepared by a client that knows the verifier behind the code's challenge. */
  lemma OnlyTheVerifierExchanges(s: Server, t: Server, f: int, codeHash: Hash, clientId: ClientId, redirectUri: string,
                                 verifier: string, resource: string, now: Time)
    requires StartExchange(s, t, f, codeHash, clientId, redirectUri, verifier, resource, now)
    ensures f in t.flows
            <==> verifier == s.db.codes[codeHash].challenge.verifier && resource == s.db.codes[codeHash].resource
    ensures forall c, u, time :: !CodeUsable(t.db, codeHash, c, u, time)
  {
  }

  /** A refresh with a token that was already rotated or revoked changes nothing but the request's next move. */
  lemma ReplayIsRefused(s: Server, t: Server, f: int, resource: Option<string>, now: Time, next: TokenSet)
    requires Inv(s) && FinishRefresh(s, t, f, resource, now, next)
    requires FlowOk(s.db, s.flows[f])
    requires (s.db.refresh[s.flows[f].hash].replacedAt.Some? || s.db.refresh[s.flows[f].hash].revokedAt.Some?)
    ensures t.db == s.db && t.flows[f] == Revoking(s.flows[f].hash)
  {
  }

  /** Whatever happened since the refusal, the revocation that follows it kills the grant for good. */
  lemma ReplayKillsTheGrant(states: seq<Server>, actions: seq<Action>, j: nat, k: nat, hash: Hash)
    requires IsRun(states, actions) && j < |actions| && j < k < |states| && actions[j].DoFinishRevoking?
    requires actions[j].f in states[j].flows && states[j].flows[actions[j].f] == Revoking(hash)
    ensures hash in states[j].db.refresh
    ensures var g := states[j].db.refresh[hash].grantId;
            Revoked(states[k].db, g) && Refused(states[k].db, g) && NoNewTokens(states[j + 1].db, states[k].db, g)
  {
    RunKeepsInv(states, actions, j);
    assert FlowOk(states[j].db, states[j].flows[actions[j].f]);
    assert Step(states[j], actions[j], states[j + 1]);
    FamilyRevocation(states[j].db, hash, actions[j].now);
    RevokedForever(states, actions, j + 1, k, states[j].db.refresh[hash].grantId);
  }
}
