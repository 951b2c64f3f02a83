/**
  The SQLite tables of the OAuth server and the transactions on them: authorization codes, grants,
  access tokens and families of refresh tokens (RFC 6749 sections 4.1.2 and 6, RFC 9700 section 4.14,
  RFC 7009 section 2). Secrets appear only as their hashes; the one scope of the server is left implicit.
 */
module OAuthStore {
  import opened Base

  type Time = int
  type Hash = int
  type GrantId = int
  type FamilyId = int
  type UserId = string
  type ClientId = string

  /** A PKCE code challenge: the digest of the verifier, which nobody can compute without it. */
  datatype Challenge = S256(verifier: string)

  datatype Code = Code(userId: UserId, clientId: ClientId, grantId: GrantId, redirectUri: string, challenge: Challenge,
                       resource: string, expiresAt: Time, consumedAt: Option<Time>, revokedAt: Option<Time>)

  datatype Grant = Grant(userId: UserId, clientId: ClientId, clientName: string, resource: string, createdAt: Time,
                         lastUsedAt: Option<Time>, revokedAt: Option<Time>)

  datatype AccessToken = AccessToken(userId: UserId, clientId: ClientId, grantId: GrantId, resource: string,
                                     createdAt: Time, expiresAt: Time, revokedAt: Option<Time>)

  datatype RefreshToken = RefreshToken(familyId: FamilyId, userId: UserId, clientId: ClientId, grantId: GrantId,
                                       resource: string,
                                       createdAt: Time, expiresAt: Time, replacedAt: Option<Time>,
                                       revokedAt: Option<Time>)

  datatype Db = Db(codes: map<Hash, Code>, grants: map<GrantId, Grant>,
                   access: map<Hash, AccessToken>, refresh: map<Hash, RefreshToken>)

  datatype TokenSet = TokenSet(grantId: GrantId, grant: Grant, accessHash: Hash, access: AccessToken,
                               refreshHash: Hash, refresh: RefreshToken)

  datatype StoreError = ConstraintViolation

  // ---------------------------------------------------------------------------------------------
  // Transactions
  // ---------------------------------------------------------------------------------------------

  predicate CodeUsable(db: Db, codeHash: Hash, clientId: ClientId, redirectUri: string, now: Time) {
    codeHash in db.codes
    && var code := db.codes[codeHash];
       code.clientId == clientId && code.redirectUri == redirectUri && code.consumedAt.None? && code.revokedAt.None?
         && code.expiresAt > now
  }

  function CodeConsumed(db: Db, codeHash: Hash, now: Time): Db
    requires codeHash in db.codes
  {
    db.(codes := db.codes[codeHash := db.codes[codeHash].(consumedAt := Some(now))])
  }

  /** The unique columns that an insertion of this token set would collide with. */
  predicate Insertable(db: Db, tokens: TokenSet) {
    tokens.grantId !in db.grants && tokens.accessHash !in db.access && tokens.refreshHash !in db.refresh
  }

  function TokenSetCreated(db: Db, tokens: TokenSet): Db {
    db.(grants := db.grants[tokens.grantId := tokens.grant],
        access := db.access[tokens.accessHash := tokens.access],
        refresh := db.refresh[tokens.refreshHash := tokens.refresh])
  }

  predicate Rotatable(db: Db, hash: Hash, clientId: ClientId, resource: Option<string>, now: Time) {
    hash in db.refresh
    && var current := db.refresh[hash];
       current.clientId == clientId && current.revokedAt.None? && current.replacedAt.None? && current.expiresAt > now
       && (resource.None? || resource.value == current.resource)
  }

  function Touched(grants: map<GrantId, Grant>, g: GrantId, now: Time): map<GrantId, Grant> {
    if g in grants then grants[g := grants[g].(lastUsedAt := Some(now))] else grants
  }

  function Rotated(db: Db, hash: Hash, now: Time, next: TokenSet): Db
    requires hash in db.refresh
  {
    var current := db.refresh[hash];
    db.(grants := Touched(db.grants, current.grantId, now),
        access := db.access[next.accessHash := next.access],
        refresh := db.refresh[hash := current.(replacedAt := Some(now), revokedAt := Some(now))]
                              [next.refreshHash := next.refresh])
  }

  function AccessTokensRevoked(access: map<Hash, AccessToken>, g: GrantId, at: Time): map<Hash, AccessToken> {
    map h | h in access :: if access[h].grantId == g && access[h].revokedAt.None? then access[h].(revokedAt := Some(at))
                           else access[h]
  }

  function FamilyTokensRevoked(refresh: map<Hash, RefreshToken>, f: FamilyId, at: Time): map<Hash, RefreshToken> {
    map h | h in refresh :: if refresh[h].familyId == f && refresh[h].revokedAt.None?
                            then refresh[h].(revokedAt := Some(at)) else refresh[h]
  }

  function RefreshTokensRevoked(refresh: map<Hash, RefreshToken>, g: GrantId, at: Time): map<Hash, RefreshToken> {
    map h | h in refresh :: if refresh[h].grantId == g && refresh[h].revokedAt.None?
                            then refresh[h].(revokedAt := Some(at)) else refresh[h]
  }

  function CodesRevoked(codes: map<Hash, Code>, g: GrantId, at: Time): map<Hash, Code> {
    map h | h in codes ::
      if codes[h].grantId == g && codes[h].consumedAt.None?
        && codes[h].revokedAt.None? then codes[h].(revokedAt := Some(at)) else codes[h]
  }

  function GrantRowRevoked(grants: map<GrantId, Grant>, g: GrantId, at: Time): map<GrantId, Grant> {
    if g in grants && grants[g].revokedAt.None? then grants[g := grants[g].(revokedAt := Some(at))] else grants
  }

  /** `revokeRefreshTokenFamilyByHash`: refresh tokens by family, everything else by grant. */
  function FamilyRevoked(db: Db, hash: Hash, at: Time): Db {
    if hash !in db.refresh then db
    else
      var current := db.refresh[hash];
      Db(CodesRevoked(db.codes, current.grantId, at), GrantRowRevoked(db.grants, current.grantId, at),
         AccessTokensRevoked(db.access, current.grantId, at), FamilyTokensRevoked(db.refresh, current.familyId, at))
  }

  /** `revokeByGrantId`. */
  function GrantRevoked(db: Db, g: GrantId, at: Time): Db {
    Db(CodesRevoked(db.codes, g, at), GrantRowRevoked(db.grants, g, at),
       AccessTokensRevoked(db.access, g, at), RefreshTokensRevoked(db.refresh, g, at))
  }

  predicate UserOwns(db: Db, user: UserId, g: GrantId) {
    g in db.grants && db.grants[g].userId == user
  }

  /** One access token alone: the grant lives on (RFC 7009 section 2.1 allows this). */
  function AccessRevoked(db: Db, hash: Hash, at: Time): Db
    requires hash in db.access
  {
    db.(access := db.access[hash := db.access[hash].(revokedAt := Some(at))])
  }

  predicate AccessLive(db: Db, hash: Hash) {
    hash in db.access && db.access[hash].revokedAt.None?
  }

  /** `verifyAccessToken` up to the principal it returns. */
  predicate Accepted(db: Db, hash: Hash, resource: string, now: Time) {
    AccessLive(db, hash) && db.access[hash].expiresAt > now && db.access[hash].resource == resource
  }

  // ---------------------------------------------------------------------------------------------
  // What the revocations reach
  // ---------------------------------------------------------------------------------------------

  /** Between the states exactly the live rows of the grant were revoked, at the given time; no other row changed. */
  ghost predicate RevokesGrantRows(before: Db, after: Db, g: GrantId, at: Time) {
    && (forall h :: h in after.codes <==> h in before.codes)
    && (forall h :: h in before.codes
          ==> after.codes[h] == before.codes[h].(revokedAt := if before.codes[h].grantId == g
                                                                 && before.codes[h].consumedAt.None?
                                                                 && before.codes[h].revokedAt.None?
                                                              then Some(at) else before.codes[h].revokedAt))
    && (forall h :: h in after.access <==> h in before.access)
    && (forall h :: h in before.access
          ==> after.access[h] == before.access[h].(revokedAt := if before.access[h].grantId == g
                                                                   && before.access[h].revokedAt.None?
                                                                then Some(at) else before.access[h].revokedAt))
    && (forall i :: i in after.grants <==> i in before.grants)
    && forall i :: i in before.grants
         ==> after.grants[i] == before.grants[i].(revokedAt := if i == g && before.grants[i].revokedAt.None?
                                                               then Some(at) else before.grants[i].revokedAt)
  }

  /** A family goes together with the codes, access tokens and the row of its grant, and nothing else goes. */
  lemma FamilyRevokedIs(db: Db, hash: Hash, at: Time)
    ensures hash !in db.refresh ==> FamilyRevoked(db, hash, at) == db
    ensures hash in db.refresh ==>
              var after, family := FamilyRevoked(db, hash, at), db.refresh[hash].familyId;
              && RevokesGrantRows(db, after, db.refresh[hash].grantId, at)
              && (forall h :: h in after.refresh <==> h in db.refresh)
              && forall h :: h in db.refresh
                   ==> after.refresh[h] == db.refresh[h].(revokedAt := if db.refresh[h].familyId == family
                                                                          && db.refresh[h].revokedAt.None?
                                                                       then Some(at) else db.refresh[h].revokedAt)
  {
  }

  /** A revoked grant takes everything of the grant along, and nothing else. */
  lemma GrantRevokedIs(db: Db, g: GrantId, at: Time)
    ensures var after := GrantRevoked(db, g, at);
            && RevokesGrantRows(db, after, g, at)
            && (forall h :: h in after.refresh <==> h in db.refresh)
            && forall h :: h in db.refresh
                 ==> after.refresh[h] == db.refresh[h].(revokedAt := if db.refresh[h].grantId == g
                                                                        && db.refresh[h].revokedAt.None?
                                                                     then Some(at) else db.refresh[h].revokedAt)
  {
  }

  // ---------------------------------------------------------------------------------------------
  // The store object
  // ---------------------------------------------------------------------------------------------

  class SqliteOAuthStore {
    var codes: map<Hash, Code>
    var grants: map<GrantId, Grant>
    var access: map<Hash, AccessToken>
    var refresh: map<Hash, RefreshToken>

    constructor ()
      ensures View() == Db(map[], map[], map[], map[])
    {
      codes, grants, access, refresh := map[], map[], map[], map[];
    }

    ghost function View(): Db
      reads this
    {
      Db(codes, grants, access, refresh)
    }

    method CreateAuthorizationCode(hash: Hash, code: Code) returns (r: Result<(), StoreError>)
      modifies this
      ensures r.Ok? <==> hash !in old(codes)
      ensures View() == if r.Ok? then old(View()).(codes := old(codes)[hash := code]) else old(View())
    {
      if hash in codes { return Err(ConstraintViolation); }
      codes := codes[hash := code];
      r := Ok(());
    }

    method ConsumeAuthorizationCode(codeHash: Hash, clientId: ClientId, redirectUri: string, now: Time)
      returns (r: Option<Code>)
      modifies this
      ensures r.Some? <==> CodeUsable(old(View()), codeHash, clientId, redirectUri, now)
      ensures r.Some? <==>
                && codeHash in old(codes) && old(codes)[codeHash].clientId == clientId
                && old(codes)[codeHash].redirectUri == redirectUri && old(codes)[codeHash].consumedAt.None?
                && old(codes)[codeHash].revokedAt.None? && now < old(codes)[codeHash].expiresAt
      ensures View() == if r.Some? then CodeConsumed(old(View()), codeHash, now) else old(View())
      ensures r.Some? ==> codeHash in codes && r.value == codes[codeHash]
    {
      if codeHash !in codes { return None; }
      var record := codes[codeHash];
      if record.clientId != clientId || record.redirectUri != redirectUri || record.consumedAt.Some?
        || record.revokedAt.Some?
         || record.expiresAt <= now {
        return None;
      }
      codes := codes[codeHash := record.(consumedAt := Some(now))];
      r := Some(record.(consumedAt := Some(now)));
    }

    /** A violated unique column rolls the whole transaction back. */
    method CreateTokenSet(tokens: TokenSet) returns (r: Result<(), StoreError>)
      modifies this
      ensures r.Ok? <==> Insertable(old(View()), tokens)
      ensures View() == if r.Ok? then TokenSetCreated(old(View()), tokens) else old(View())
    {
      if tokens.grantId in grants || tokens.accessHash in access || tokens.refreshHash in refresh {
        return Err(ConstraintViolation);
      }
      grants := grants[tokens.grantId := tokens.grant];
      access := access[tokens.accessHash := tokens.access];
      refresh := refresh[tokens.refreshHash := tokens.refresh];
      r := Ok(());
    }

    method RotateRefreshToken(hash: Hash, clientId: ClientId, resource: Option<string>, now: Time, next: TokenSet)
      returns (rotated: bool)
      requires next.accessHash !in access && next.refreshHash !in refresh
      modifies this
      ensures rotated <==> Rotatable(old(View()), hash, clientId, resource, now)
      ensures rotated <==>
                && hash in old(refresh) && old(refresh)[hash].clientId == clientId
                && old(refresh)[hash].revokedAt.None? && old(refresh)[hash].replacedAt.None?
                && now < old(refresh)[hash].expiresAt
                && (resource.Some? ==> resource.value == old(refresh)[hash].resource)
      ensures View() == if rotated then Rotated(old(View()), hash, now, next) else old(View())
    {
      if hash !in refresh { return false; }
      var current := refresh[hash];
      if current.clientId != clientId || current.revokedAt.Some? || current.replacedAt.Some? || current.expiresAt <= now
         || (resource.Some? && resource.value != current.resource) {
        return false;
      }
      refresh := refresh[hash := current.(replacedAt := Some(now), revokedAt := Some(now))];
      if current.grantId in grants {
        grants := grants[current.grantId := grants[current.grantId].(lastUsedAt := Some(now))];
      }
      access := access[next.accessHash := next.access];
      refresh := refresh[next.refreshHash := next.refresh];
      rotated := true;
    }

    method RevokeAccessTokenByHash(hash: Hash, at: Time) returns (found: bool)
      modifies this
      ensures found <==> AccessLive(old(View()), hash)
      ensures found <==> hash in old(access) && old(access)[hash].revokedAt.None?
      ensures found ==> access == old(access)[hash := old(access)[hash].(revokedAt := Some(at))]
      ensures codes == old(codes) && grants == old(grants) && refresh == old(refresh)
      ensures View() == if found then AccessRevoked(old(View()), hash, at) else old(View())
    {
      if hash !in access || access[hash].revokedAt.Some? { return false; }
      access := access[hash := access[hash].(revokedAt := Some(at))];
      found := true;
    }

    method RevokeRefreshTokenFamilyByHash(hash: Hash, at: Time) returns (found: bool)
      modifies this
      ensures found <==> hash in old(refresh)
      ensures View() == FamilyRevoked(old(View()), hash, at)
    {
      if hash !in refresh { return false; }
      var current := refresh[hash];
      refresh := FamilyTokensRevoked(refresh, current.familyId, at);
      access := AccessTokensRevoked(access, current.grantId, at);
      codes := CodesRevoked(codes, current.grantId, at);
      grants := GrantRowRevoked(grants, current.grantId, at);
      found := true;
    }

    method RevokeByGrantId(g: GrantId, at: Time)
      modifies this
      ensures View() == GrantRevoked(old(View()), g, at)
    {
      access := AccessTokensRevoked(access, g, at);
      refresh := RefreshTokensRevoked(refresh, g, at);
      codes := CodesRevoked(codes, g, at);
      grants := GrantRowRevoked(grants, g, at);
    }

    method RevokeGrant(user: UserId, g: GrantId, at: Time) returns (found: bool)
      modifies this
      ensures found <==> UserOwns(old(View()), user, g)
      ensures found <==> g in old(grants) && old(grants)[g].userId == user
      ensures View() == if found then GrantRevoked(old(View()), g, at) else old(View())
    {
      if g !in grants || grants[g].userId != user { return false; }
      RevokeByGrantId(g, at);
      found := true;
    }
  }
}
