/**
  The request methods of the OAuth service when no other request comes in between, and the protocol
  steps they consist of.
 */
module OAuthService {
  import opened Base
  import opened OAuthStore
  import opened OAuthProtocol

  datatype OAuthError = InvalidGrant | InvalidTarget | InvalidClient

  datatype Configuration = Configuration(resource: string, codeTtl: Time, accessTtl: Time, refreshTtl: Time)

  /** A stored authorization transaction: what the client asked for on the authorization page. */
  datatype Transaction = Transaction(clientId: ClientId, redirectUri: string, challenge: Challenge, resource: string)

  /** Values drawn at random: the digests of the two secrets and a family id. */
  datatype Draw = Draw(accessHash: Hash, refreshHash: Hash, familyId: FamilyId)

  function NewTokenSet(code: Code, clientName: string, now: Time, config: Configuration, draw: Draw): (tokens: TokenSet)
    ensures Issued(code, tokens)
  {
    TokenSet(code.grantId, Grant(code.userId, code.clientId, clientName, code.resource, now, None, None),
             draw.accessHash, AccessToken(code.userId, code.clientId, code.grantId, code.resource, now,
                                          now + config.accessTtl, None),
             draw.refreshHash, RefreshToken(draw.familyId, code.userId, code.clientId, code.grantId, code.resource, now,
                                            now + config.refreshTtl, None, None))
  }

  function MakeTokenSet(current: RefreshToken, clientName: string, now: Time, config: Configuration,
                        draw: Draw): (tokens: TokenSet)
    ensures Inherits(current, tokens)
  {
    TokenSet(current.grantId,
             Grant(current.userId, current.clientId, clientName, current.resource, now, Some(now), None),
             draw.accessHash, AccessToken(current.userId, current.clientId, current.grantId, current.resource, now,
                                          now + config.accessTtl, None),
             draw.refreshHash, RefreshToken(current.familyId, current.userId, current.clientId, current.grantId,
                                            current.resource, now,
                                            now + config.refreshTtl, None, None))
  }

  /** The access token under the hash is the user's, and accepted for the resource at exactly the times before `end`. */
  ghost predicate AccessUntil(db: Db, hash: Hash, user: UserId, resource: string, end: Time) {
    && hash in db.access && db.access[hash].userId == user
    && forall r: string, t: Time :: Accepted(db, hash, r, t) <==> r == resource && t < end
  }

  /**
    The refresh token under the hash is of the family, and can be rotated by exactly the client, for the resource or
    without naming one, at exactly the times before `end`.
   */
  ghost predicate RefreshUntil(db: Db, hash: Hash, family: FamilyId, client: ClientId, resource: string, end: Time) {
    && hash in db.refresh && db.refresh[hash].familyId == family
    && forall c: ClientId, r: Option<string>, t: Time ::
         Rotatable(db, hash, c, r, t) <==> c == client && (r.None? || r.value == resource) && t < end
  }

  /** The two hashes are the only new ones, and no other token changed except the one being replaced. */
  ghost predicate AddsTokens(before: Db, after: Db, draw: Draw, replaced: Option<Hash>) {
    && (forall h :: h in after.access <==> h in before.access || h == draw.accessHash)
    && (forall h :: h in after.refresh <==> h in before.refresh || h == draw.refreshHash)
    && (forall h :: h in before.access ==> after.access[h] == before.access[h])
    && forall h :: h in before.refresh && replaced != Some(h) ==> after.refresh[h] == before.refresh[h]
  }

  class Service {
    const store: SqliteOAuthStore
    const config: Configuration
    const clients: map<ClientId, string>

    constructor (store: SqliteOAuthStore, config: Configuration, clients: map<ClientId, string>)
      ensures this.store == store && this.config == config && this.clients == clients
    {
      this.store, this.config, this.clients := store, config, clients;
    }

    /** An approved transaction leaves a code that its client can use, at its redirect URI, until the code expires. */
    method ApproveAuthorization(t: Transaction, userId: UserId, approved: bool, codeHash: Hash, grantId: GrantId,
                                now: Time)
      returns (code: Option<Code>)
      requires codeHash !in store.codes
      modifies store
      ensures code.Some? <==> approved
      ensures !approved ==> store.View() == old(store.View())
      ensures approved ==> store.View() == old(store.View()).(codes := old(store.codes)[codeHash := code.value])
      ensures approved ==> code.value.grantId == grantId && code.value.userId == userId
      ensures approved ==> code.value.challenge == t.challenge && code.value.resource == t.resource
      ensures approved ==>
                forall client, uri, later ::
                  CodeUsable(store.View(), codeHash, client, uri, later)
                  <==> client == t.clientId && uri == t.redirectUri && later < now + config.codeTtl
    {
      if !approved { return None; }
      var issued :=
        Code(userId, t.clientId, grantId, t.redirectUri, t.challenge, t.resource, now + config.codeTtl, None, None);
      var _ := store.CreateAuthorizationCode(codeHash, issued);
      code := Some(issued);
    }

    /** A code that passes the store's test is spent, whatever the later checks say. */
    method ExchangeAuthorizationCode(codeHash: Hash, clientId: ClientId, redirectUri: string, verifier: string,
                                     now: Time, draw: Draw)
      returns (r: Result<TokenSet, OAuthError>)
      requires draw.accessHash !in store.access && draw.refreshHash !in store.refresh
      requires CodesOk(store.View())
      modifies store
      ensures var before, after := old(store.View()), store.View();
              var usable := 43 <= |verifier| <= 128 && CodeUsable(before, codeHash, clientId, redirectUri, now);
              && (!usable ==> r == Err(InvalidGrant) && after == before)
              && (usable ==>
                    var code := before.codes[codeHash];
                    && (r.Ok? <==>
                          S256(verifier) == code.challenge && code.resource == config.resource && clientId in clients)
                    && (r.Ok? ==>
                          && Issued(code, r.value)
                          && after == TokenSetCreated(CodeConsumed(before, codeHash, now), r.value))
                    && (r.Ok? ==>
                          && AccessUntil(after, draw.accessHash, code.userId, config.resource, now + config.accessTtl)
                          && RefreshUntil(after, draw.refreshHash, draw.familyId, clientId, config.resource,
                                          now + config.refreshTtl)
                          && AddsTokens(before, after, draw, None)
                          && after.codes == before.codes[codeHash := code.(consumedAt := Some(now))]
                          && after.grants
                             == before.grants[code.grantId := Grant(code.userId, clientId, clients[clientId],
                                                                    config.resource, now, None, None)])
                    && (r.Err? ==> after == CodeConsumed(before, codeHash, now))
                    && (r == Err(InvalidGrant) <==> S256(verifier) != code.challenge)
                    && (r == Err(InvalidTarget) <==>
                          S256(verifier) == code.challenge && code.resource != config.resource))
    {
      if |verifier| < 43 || |verifier| > 128 { return Err(InvalidGrant); }
      var code := store.ConsumeAuthorizationCode(codeHash, clientId, redirectUri, now);
      if code.None? || S256(verifier) != code.value.challenge { return Err(InvalidGrant); }
      if code.value.resource != config.resource { return Err(InvalidTarget); }
      if clientId !in clients { return Err(InvalidClient); }
      var tokens := NewTokenSet(code.value, clients[clientId], now, config, draw);
      var created := store.CreateTokenSet(tokens);
      assert created.Ok?;
      r := Ok(tokens);
    }

    /**
      Rotation succeeds exactly for the family's live token. Any other token of the client, be it rotated,
      revoked or expired, costs the whole family its life.
     */
    method RefreshAccessToken(hash: Hash, clientId: ClientId, requested: Option<string>, now: Time, draw: Draw)
      returns (r: Result<TokenSet, OAuthError>)
      requires draw.accessHash !in store.access && draw.refreshHash !in store.refresh
      modifies store
      ensures var before, after := old(store.View()), store.View();
              var known := hash in before.refresh && before.refresh[hash].clientId == clientId;
              && (!known ==> r == Err(InvalidGrant) && after == before)
              && (known ==>
                    var current := before.refresh[hash];
                    var target := (requested.None? || requested.value == current.resource)
                      && current.resource == config.resource;
                    && (!target ==> r == Err(InvalidTarget) && after == before)
                    && (target && clientId !in clients ==> r == Err(InvalidClient) && after == before)
                    && (target && clientId in clients ==>
                          && (r.Ok? <==> current.revokedAt.None? && current.replacedAt.None? && current.expiresAt > now)
                          && (r.Ok? ==> Inherits(current, r.value) && after == Rotated(before, hash, now, r.value))
                          && (r.Ok? ==>
                                && AccessUntil(after, draw.accessHash, current.userId, config.resource,
                                               now + config.accessTtl)
                                && RefreshUntil(after, draw.refreshHash, current.familyId, clientId, config.resource,
                                                now + config.refreshTtl)
                                && AddsTokens(before, after, draw, Some(hash)) && after.codes == before.codes
                                && after.refresh[hash]
                                   == current.(replacedAt := Some(now), revokedAt := Some(now)))
                          && (r.Err? ==> r == Err(InvalidGrant) && after == FamilyRevoked(before, hash, now))))
    {
      if hash !in store.refresh { return Err(InvalidGrant); }
      var current := store.refresh[hash];
      if current.clientId != clientId { return Err(InvalidGrant); }
      var resource := if requested.Some? then requested.value else current.resource;
      if resource != current.resource || resource != config.resource { return Err(InvalidTarget); }
      if clientId !in clients { return Err(InvalidClient); }
      var next := MakeTokenSet(current, clients[clientId], now, config, draw);
      var rotated := store.RotateRefreshToken(hash, clientId, requested, now, next);
      if !rotated {
        var _ := store.RevokeRefreshTokenFamilyByHash(hash, now);
        return Err(InvalidGrant);
      }
      r := Ok(next);
    }

    /** An access token goes alone; a refresh token takes its family and grant along. */
    method RevokeToken(hash: Hash, now: Time)
      modifies store
      ensures store.View() == if AccessLive(old(store.View()), hash) then AccessRevoked(old(store.View()), hash, now)
                              else FamilyRevoked(old(store.View()), hash, now)
    {
      var found := store.RevokeAccessTokenByHash(hash, now);
      if found { return; }
      var _ := store.RevokeRefreshTokenFamilyByHash(hash, now);
    }

    method VerifyAccessToken(hash: Hash, now: Time) returns (user: Option<UserId>)
      ensures user.Some? <==>
                && hash in store.access && store.access[hash].revokedAt.None? && now < store.access[hash].expiresAt
                && store.access[hash].resource == config.resource
      ensures user.Some? <==> Accepted(store.View(), hash, config.resource, now)
      ensures user.Some? ==> hash in store.access && user.value == store.access[hash].userId
    {
      if hash !in store.access || store.access[hash].revokedAt.Some? || store.access[hash].expiresAt <= now {
        return None;
      }
      if store.access[hash].resource != config.resource { return None; }
      user := Some(store.access[hash].userId);
    }
  }

  /** After a successful refresh the presented token is dead, its successor is the family's one live token. */
  lemma RotationHandsOver(db: Db, hash: Hash, now: Time, next: TokenSet)
    requires FamiliesOk(db) && hash in db.refresh && db.refresh[hash].revokedAt.None?
    requires Inherits(db.refresh[hash], next) && FreshSecrets(db, next)
    ensures var after := Rotated(db, hash, now, next);
            forall h :: h in after.refresh && after.refresh[h].familyId == db.refresh[hash].familyId ==>
              (after.refresh[h].revokedAt.None? <==> h == next.refreshHash)
  {
    forall h | h in db.refresh && h != hash ensures PairOk(db.refresh[hash], db.refresh[h]) {}
  }
}
