/** RefreshTokenService: the lifecycle of the opaque refresh tokens kept in the
    `refresh_tokens` collection. The collection has two unique indexes, `_id` and the
    token value; `username` is indexed but not unique. The clock, the UUID generator and
    the document id the store assigns are parameters. */
module RefreshTokens {
  import opened Lang
  import opened Seqs
  import opened Entities
  import opened Repositories

  // ----- the collection and its repository queries -----------------------------------

  function TokenId(t: RefreshToken): string { t.id }
  function TokenValue(t: RefreshToken): string { t.token }

  /** The unique indexes of `refresh_tokens`: `_id` and `token`. */
  ghost predicate TokensValid(records: seq<RefreshToken>) {
    UniqueBy(records, TokenId) && UniqueBy(records, TokenValue)
  }

  /** `findByToken`. */
  function FindRefreshTokenByToken(records: seq<RefreshToken>, token: string): (r: Option<RefreshToken>)
    ensures r.Some? ==> r.value in records && r.value.token == token
    ensures r.None? <==> forall i :: 0 <= i < |records| ==> records[i].token != token
  {
    Find(records, (t: RefreshToken) => t.token == token)
  }

  /** Whether `t` would share a unique key with the stored record `v`. */
  predicate TokenClash(v: RefreshToken, t: RefreshToken) {
    v.id == t.id || v.token == t.token
  }

  /** `save` of a new record: an insert, refused by a unique index on a clash. */
  function InsertRefreshToken(records: seq<RefreshToken>, t: RefreshToken): (r: Result<seq<RefreshToken>>)
    ensures r.Throws? <==> exists i :: 0 <= i < |records| && TokenClash(records[i], t)
    ensures r.Throws? ==> r.exception == DuplicateKeyException
    ensures r.Ok? ==> r.value == records + [t]
  {
    if exists i :: 0 <= i < |records| && TokenClash(records[i], t) then Throws(DuplicateKeyException)
    else Ok(records + [t])
  }

  /** `delete(entity)`: removes the record with the entity's id. */
  function DeleteRefreshTokenById(records: seq<RefreshToken>, id: string): (r: seq<RefreshToken>)
    ensures forall i :: 0 <= i < |r| ==> r[i] in records && r[i].id != id
    ensures forall i :: 0 <= i < |records| && records[i].id != id ==> records[i] in r
  {
    Filter(records, (t: RefreshToken) => t.id != id)
  }

  /** `deleteByToken`: removes every record holding that value, and only those. */
  function DeleteRefreshTokensByToken(records: seq<RefreshToken>, token: string): (r: seq<RefreshToken>)
    ensures forall i :: 0 <= i < |r| ==> r[i] in records && r[i].token != token
    ensures forall i :: 0 <= i < |records| && records[i].token != token ==> records[i] in r
    ensures FindRefreshTokenByToken(r, token).None?
  {
    Filter(records, (t: RefreshToken) => t.token != token)
  }

  /** `deleteByUsername`: removes every record of that user, and only those. */
  function DeleteRefreshTokensByUsername(records: seq<RefreshToken>, username: string): (r: seq<RefreshToken>)
    ensures forall i :: 0 <= i < |r| ==> r[i] in records && r[i].username != username
    ensures forall i :: 0 <= i < |records| && records[i].username != username ==> records[i] in r
  {
    Filter(records, (t: RefreshToken) => t.username != username)
  }

  // ----- the service ------------------------------------------------------------------

  /** The message of the exception `createRefreshToken` throws for an unknown user. */
  function UnknownUserMessage(username: string): string {
    "Error: User not found for refresh token creation - " + username
  }

  const ExpiredMessage := "Refresh token was expired. Please make a new signin request"

  /** The record `createRefreshToken` builds: the store's id, the UUID as token value,
      and an expiry `refreshTokenDurationMs` after `now`. */
  function NewRefreshToken(generatedId: string, uuid: string, username: string, now: nat, refreshTokenDurationMs: nat): (t: RefreshToken)
    ensures t.username == username && t.token == uuid && t.id == generatedId
    ensures t.expiryDate - now == refreshTokenDurationMs
  {
    RefreshToken(generatedId, uuid, username, now + refreshTokenDurationMs)
  }

  /** The RefreshTokenService bean over the `refresh_tokens` collection. */
  class RefreshTokenService {
    const refreshTokenDurationMs: nat
    var records: seq<RefreshToken>

    ghost predicate Valid()
      reads this
    {
      TokensValid(records)
    }

    constructor (refreshTokenDurationMs: nat)
      ensures Valid() && records == []
      ensures this.refreshTokenDurationMs == refreshTokenDurationMs
    {
      this.refreshTokenDurationMs := refreshTokenDurationMs;
      records := [];
    }

    /** `findByToken`: reads only. */
    method FindByToken(token: string) returns (r: Option<RefreshToken>)
      ensures r.Some? ==> r.value in records && r.value.token == token
      ensures r.None? <==> forall i :: 0 <= i < |records| ==> records[i].token != token
    {
      r := FindRefreshTokenByToken(records, token);
    }

    /** `createRefreshToken(username)`: an unknown user throws before anything is
        stored; otherwise the new record is inserted, or the insert is refused by a
        unique index. */
    method CreateRefreshToken(userRepo: UserRepo, username: string, generatedId: string, uuid: string, now: nat)
      returns (r: Result<RefreshToken>)
      requires Valid()
      modifies this
      ensures Valid()
      ensures FindUserByUsername(userRepo.users, username).None? ==>
        r == Throws(RuntimeException(UnknownUserMessage(username))) && records == old(records)
      ensures FindUserByUsername(userRepo.users, username).Some? ==>
        var t := NewRefreshToken(generatedId, uuid, username, now, refreshTokenDurationMs);
        match InsertRefreshToken(old(records), t)
        case Ok(s) => r == Ok(t) && records == s
        case Throws(e) => r == Throws(e) && records == old(records)
    {
      var user := FindUserByUsername(userRepo.users, username);
      if user.None? {
        return Throws(RuntimeException(UnknownUserMessage(username)));
      }
      var t := NewRefreshToken(generatedId, uuid, username, now, refreshTokenDurationMs);
      var saved := InsertRefreshToken(records, t);
      if saved.Throws? {
        return Throws(saved.exception);
      }
      InsertRefreshTokenKeepsValid(records, t);
      records := saved.value;
      r := Ok(t);
    }

    /** `verifyExpiration(token)`: an expiry strictly before `now` deletes the record and
        throws; otherwise the token is returned and nothing changes. */
    method VerifyExpiration(token: RefreshToken, now: nat) returns (r: Result<RefreshToken>)
      requires Valid()
      modifies this
      ensures Valid()
      ensures token.expiryDate < now ==>
        r == Throws(TokenRefreshException(token.token, ExpiredMessage))
        && records == DeleteRefreshTokenById(old(records), token.id)
      ensures now <= token.expiryDate ==> r == Ok(token) && records == old(records)
    {
      if token.expiryDate < now {
        DeleteRefreshTokenByIdKeepsValid(records, token.id);
        records := DeleteRefreshTokenById(records, token.id);
        return Throws(TokenRefreshException(token.token, ExpiredMessage));
      }
      r := Ok(token);
    }

    /** `deleteByToken(token)`, the logout step. */
    method DeleteByToken(token: string)
      requires Valid()
      modifies this
      ensures Valid()
      ensures records == DeleteRefreshTokensByToken(old(records), token)
    {
      FilterKeepsUniqueBy(records, (t: RefreshToken) => t.token != token, TokenId);
      FilterKeepsUniqueBy(records, (t: RefreshToken) => t.token != token, TokenValue);
      records := DeleteRefreshTokensByToken(records, token);
    }

    /** `deleteByUsername(username)`. */
    method DeleteByUsername(username: string)
      requires Valid()
      modifies this
      ensures Valid()
      ensures records == DeleteRefreshTokensByUsername(old(records), username)
    {
      FilterKeepsUniqueBy(records, (t: RefreshToken) => t.username != username, TokenId);
      FilterKeepsUniqueBy(records, (t: RefreshToken) => t.username != username, TokenValue);
      records := DeleteRefreshTokensByUsername(records, username);
    }
  }

  // ----- properties -------------------------------------------------------------------

  /** Inserting keeps token values (and ids) unique. */
  lemma InsertRefreshTokenKeepsValid(records: seq<RefreshToken>, t: RefreshToken)
    requires TokensValid(records) && InsertRefreshToken(records, t).Ok?
    ensures TokensValid(InsertRefreshToken(records, t).value)
  {
    AppendKeepsUniqueBy(records, t, TokenId);
    AppendKeepsUniqueBy(records, t, TokenValue);
  }

  /** Deleting by id keeps the unique indexes. */
  lemma DeleteRefreshTokenByIdKeepsValid(records: seq<RefreshToken>, id: string)
    requires TokensValid(records)
    ensures TokensValid(DeleteRefreshTokenById(records, id))
  {
    FilterKeepsUniqueBy(records, (t: RefreshToken) => t.id != id, TokenId);
    FilterKeepsUniqueBy(records, (t: RefreshToken) => t.id != id, TokenValue);
  }

  /** A fresh id and a fresh token value are all an insert needs. */
  lemma FreshRefreshTokenInserts(records: seq<RefreshToken>, t: RefreshToken)
    requires forall i :: 0 <= i < |records| ==> records[i].id != t.id && records[i].token != t.token
    ensures InsertRefreshToken(records, t) == Ok(records + [t])
  {
  }

  /** After a successful insert, the new record is the one found by its value. */
  lemma FindAfterInsert(records: seq<RefreshToken>, t: RefreshToken)
    requires TokensValid(records) && InsertRefreshToken(records, t).Ok?
    ensures FindRefreshTokenByToken(InsertRefreshToken(records, t).value, t.token) == Some(t)
  {
    var s := InsertRefreshToken(records, t).value;
    InsertRefreshTokenKeepsValid(records, t);
    assert s[|records|] == t;
    FindUnique(s, TokenValue, t.token, (v: RefreshToken) => v.token == t.token, t);
  }

  /** Deleting by value twice is deleting once. */
  lemma DeleteByTokenIdempotent(records: seq<RefreshToken>, token: string)
    ensures DeleteRefreshTokensByToken(DeleteRefreshTokensByToken(records, token), token)
         == DeleteRefreshTokensByToken(records, token)
  {
    FilterIdempotent(records, (t: RefreshToken) => t.token != token);
  }

  /** Deleting a value no record holds changes nothing. */
  lemma DeleteByTokenAbsent(records: seq<RefreshToken>, token: string)
    requires FindRefreshTokenByToken(records, token).None?
    ensures DeleteRefreshTokensByToken(records, token) == records
  {
    FilterKeepsAll(records, (t: RefreshToken) => t.token != token);
  }

  /** Deleting a user's records twice is deleting them once, and another user's
      records are untouched. */
  lemma DeleteByUsernameIdempotent(records: seq<RefreshToken>, username: string)
    ensures DeleteRefreshTokensByUsername(DeleteRefreshTokensByUsername(records, username), username)
         == DeleteRefreshTokensByUsername(records, username)
  {
    FilterIdempotent(records, (t: RefreshToken) => t.username != username);
  }

  /** Once `verifyExpiration` has deleted an expired stored token, its value is no
      longer found; every other stored record is still there. */
  lemma ExpiredTokenIsGone(records: seq<RefreshToken>, token: RefreshToken)
    requires TokensValid(records) && token in records
    ensures FindRefreshTokenByToken(DeleteRefreshTokenById(records, token.id), token.token).None?
    ensures forall i :: 0 <= i < |records| && records[i] != token ==>
      records[i] in DeleteRefreshTokenById(records, token.id)
  {
    var s := DeleteRefreshTokenById(records, token.id);
    var k :| 0 <= k < |records| && records[k] == token;
    forall i | 0 <= i < |s| ensures s[i].token != token.token {
      var j :| 0 <= j < |records| && records[j] == s[i];
      assert j != k;
    }
    forall i | 0 <= i < |records| && records[i] != token
      ensures records[i].id != token.id
    {
      assert i != k;
    }
  }
}
