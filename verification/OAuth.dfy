/** The authorization-code and refresh-token grants of the MCP endpoint: sections 4.1.2 and 6 of RFC 6749,
    section 4.6 of RFC 7636 and section 2 of RFC 7009. Each operation is one database transaction. */
module OAuth {
  import opened Common
  import Scopes

  /** Texts and their SHA-256 digests; different texts have different digests. */
  datatype Text = Raw(chars: string) | HexSha256(preimage: Text) | Base64Sha256(preimage: Text)

  datatype AuthMethod = NoSecret | ClientSecretPost

  datatype Client = Client(redirectUris: seq<string>, authMethod: AuthMethod, secretHash: Option<Text>)

  datatype ChallengeMethod = S256 | Plain

  datatype Code = Code(
    clientId: string, redirectUri: string, scope: string, challenge: Text, challengeMethod: ChallengeMethod,
    resource: string, subject: string, expiresAt: int, usedAt: Option<int>)

  datatype Token = Token(
    accessHash: Text, refreshHash: Text, clientId: string, subject: string, scope: string, resource: string,
    accessExpiresAt: int, refreshExpiresAt: int,
    revokedAt: Option<int>, rotatedAt: Option<int>, lastUsedAt: Option<int>, replacedBy: Option<nat>)

  /** Codes are unique by hash; tokens are rows by id. */
  datatype Db = Db(clients: map<string, Client>, codes: map<Text, Code>, tokens: map<nat, Token>)

  datatype Error =
    | InvalidRequest | InvalidClient | InvalidGrant | InvalidTarget | InvalidScope
    | UnsupportedResponseType | ServerError

  /** Random values drawn by the server, and the row id the database hands out. */
  datatype Draw = Draw(rowId: nat, access: Text, refresh: Text)

  datatype Issued = Issued(rowId: nat, access: Text, refresh: Text, scope: string)

  datatype Grant = Grant(clientId: string, scope: string, subject: string, rowId: nat)

  const ACCESS_TTL: int := 60 * 60 * 1000
  const REFRESH_TTL: int := 60 * 60 * 24 * 30 * 1000
  const CODE_TTL: int := 60 * 10 * 1000

  function HashToken(token: Text): Text {
    HexSha256(token)
  }

  predicate Missing(field: Option<Text>) {
    field.None? || field.value == Raw("")
  }

  predicate MissingString(field: Option<string>) {
    field.None? || field.value == ""
  }

  // ---- Clients ----

  function Register(db: Db, clientId: string, client: Client): Db {
    if clientId in db.clients then db else db.(clients := db.clients[clientId := client])
  }

  datatype Credentials = Credentials(clientId: Option<string>, clientSecret: Option<Text>)

  function AuthenticateClient(db: Db, who: Credentials): Result<string, Error> {
    if MissingString(who.clientId) then Err(InvalidRequest)
    else if who.clientId.value !in db.clients then Err(InvalidClient)
    else
      var client := db.clients[who.clientId.value];
      if client.authMethod.NoSecret? then Ok(who.clientId.value)
      else if client.secretHash.None? || Missing(who.clientSecret)
              || HashToken(who.clientSecret.value) != client.secretHash.value then Err(InvalidClient)
      else Ok(who.clientId.value)
  }

  // ---- Authorization codes ----

  datatype AuthorizeRequest = AuthorizeRequest(
    responseType: Option<string>, clientId: Option<string>, redirectUri: Option<string>,
    challenge: Option<Text>, challengeMethod: Option<string>, scope: Option<string>,
    resource: Option<string>, expectedResource: string)

  function ChallengeMethodOf(name: Option<string>): Option<ChallengeMethod> {
    if name.None? || name.value == "plain" then Some(Plain)
    else if name.value == "S256" then Some(S256)
    else None
  }

  /** Validate the request and prepare the code row. */
  function ValidateAuthorizationRequest(db: Db, req: AuthorizeRequest, subject: string, now: int): Result<Code, Error> {
    var scope := Scopes.ParseScopes(req.scope);
    var resource := if req.resource.Some? then req.resource.value else req.expectedResource;
    if scope.Err? then Err(InvalidScope)
    else if req.responseType != Some("code") then Err(UnsupportedResponseType)
    else if MissingString(req.clientId) || MissingString(req.redirectUri) || Missing(req.challenge)
    then Err(InvalidRequest)
    else if ChallengeMethodOf(req.challengeMethod).None? then Err(InvalidRequest)
    else if resource != req.expectedResource then Err(InvalidTarget)
    else if req.clientId.value !in db.clients then Err(InvalidClient)
    else if req.redirectUri.value !in db.clients[req.clientId.value].redirectUris then Err(InvalidRequest)
    else Ok(Code(
      req.clientId.value, req.redirectUri.value, scope.value, req.challenge.value,
      ChallengeMethodOf(req.challengeMethod).value, resource, subject, now + CODE_TTL, None))
  }

  function Authorize(db: Db, req: AuthorizeRequest, subject: string, code: Text, now: int): (Db, Result<Text, Error>) {
    var row := ValidateAuthorizationRequest(db, req, subject, now);
    if row.Err? then (db, Err(row.error))
    else if HashToken(code) in db.codes then (db, Err(ServerError))
    else (db.(codes := db.codes[HashToken(code) := row.value]), Ok(code))
  }

  predicate VerifyPkce(verifier: Text, challenge: Text, challengeMethod: ChallengeMethod) {
    (if challengeMethod.S256? then Base64Sha256(verifier) else verifier) == challenge
  }

  // ---- Tokens ----

  predicate SharesHash(token: Token, draw: Draw) {
    token.accessHash == HashToken(draw.access) || token.refreshHash == HashToken(draw.refresh)
  }

  /** The unique indexes on the two token hashes and the primary key. */
  predicate Collides(db: Db, draw: Draw) {
    || draw.rowId in db.tokens
    || (exists id :: id in db.tokens && SharesHash(db.tokens[id], draw))
  }

  function NewToken(draw: Draw, clientId: string, subject: string, scope: string, resource: string, now: int): Token {
    Token(HashToken(draw.access), HashToken(draw.refresh), clientId, subject, scope, resource,
          now + ACCESS_TTL, now + REFRESH_TTL, None, None, None, None)
  }

  function IssueTokens(
    db: Db, draw: Draw, clientId: string, subject: string, scope: string, resource: string, now: int)
    : (result: Result<Db, Error>)
    ensures result.Ok? ==> result.value.tokens.Keys == db.tokens.Keys + {draw.rowId}
  {
    if Collides(db, draw) then Err(ServerError)
    else Ok(db.(tokens := db.tokens[draw.rowId := NewToken(draw, clientId, subject, scope, resource, now)]))
  }

  datatype CodeForm = CodeForm(
    who: Credentials, code: Option<Text>, redirectUri: Option<string>, verifier: Option<Text>, resource: Option<string>)

  predicate CodeMatches(row: Code, clientId: string, redirectUri: string, now: int) {
    row.clientId == clientId && row.redirectUri == redirectUri && row.usedAt.None? && row.expiresAt > now
  }

  function ExchangeAuthorizationCode(db: Db, form: CodeForm, draw: Draw, now: int): (Db, Result<Issued, Error>) {
    var client := AuthenticateClient(db, form.who);
    if client.Err? then (db, Err(client.error))
    else if Missing(form.code) || MissingString(form.redirectUri) || Missing(form.verifier)
    then (db, Err(InvalidRequest))
    else
      var hash := HashToken(form.code.value);
      if hash !in db.codes || !CodeMatches(db.codes[hash], client.value, form.redirectUri.value, now) then
        (db, Err(InvalidGrant))
      else
        var row := db.codes[hash];
        if !MissingString(form.resource) && row.resource != form.resource.value then (db, Err(InvalidTarget))
        else if !VerifyPkce(form.verifier.value, row.challenge, row.challengeMethod) then (db, Err(InvalidGrant))
        else
          var used := db.(codes := db.codes[hash := row.(usedAt := Some(now))]);
          var issued := IssueTokens(used, draw, client.value, row.subject, row.scope, row.resource, now);
          if issued.Err? then (db, Err(issued.error))
          else (issued.value, Ok(Issued(draw.rowId, draw.access, draw.refresh, row.scope)))
  }

  datatype RefreshForm = RefreshForm(who: Credentials, refresh: Option<Text>)

  predicate Refreshable(token: Token, hash: Text, clientId: string, now: int) {
    token.refreshHash == hash && token.clientId == clientId && token.revokedAt.None? && token.refreshExpiresAt > now
  }

  function RefreshableRows(db: Db, hash: Text, clientId: string, now: int): set<nat> {
    set id | id in db.tokens && Refreshable(db.tokens[id], hash, clientId, now)
  }

  /** The three statements of a rotation: revoke the old row, insert the new one, link them. */
  function Rotate(db: Db, id: nat, draw: Draw, now: int): Result<Db, Error>
    requires id in db.tokens
  {
    var row := db.tokens[id];
    var revoked := db.(tokens := db.tokens[id := row.(revokedAt := Some(now), rotatedAt := Some(now))]);
    var issued := IssueTokens(revoked, draw, row.clientId, row.subject, row.scope, row.resource, now);
    if issued.Err? then issued
    else
      var d := issued.value;
      Ok(d.(tokens := d.tokens[id := d.tokens[id].(replacedBy := Some(draw.rowId))]))
  }

  /** The row the first statement updates; the unique index leaves no choice. */
  ghost function RotatedRow(db: Db, hash: Text, clientId: string, now: int): (id: nat)
    requires RefreshableRows(db, hash, clientId, now) != {}
    ensures id in db.tokens && Refreshable(db.tokens[id], hash, clientId, now)
  {
    var id :| id in RefreshableRows(db, hash, clientId, now);
    id
  }

  ghost function ExchangeRefreshToken(db: Db, form: RefreshForm, draw: Draw, now: int): (Db, Result<Issued, Error>) {
    var client := AuthenticateClient(db, form.who);
    if client.Err? then (db, Err(client.error))
    else if Missing(form.refresh) then (db, Err(InvalidRequest))
    else
      var hash := HashToken(form.refresh.value);
      if RefreshableRows(db, hash, client.value, now) == {} then (db, Err(InvalidGrant))
      else
        var id := RotatedRow(db, hash, client.value, now);
        var rotated := Rotate(db, id, draw, now);
        if rotated.Err? then (db, Err(rotated.error))
        else (rotated.value, Ok(Issued(draw.rowId, draw.access, draw.refresh, db.tokens[id].scope)))
  }

  function RevokeIf(token: Token, hit: bool, now: int): Token {
    if hit then token.(revokedAt := Some(now)) else token
  }

  function RevokeByAccess(db: Db, hash: Text, now: int): Db {
    db.(tokens := map id | id in db.tokens :: RevokeIf(db.tokens[id], db.tokens[id].accessHash == hash, now))
  }

  function RevokeByRefresh(db: Db, hash: Text, now: int): Db {
    db.(tokens := map id | id in db.tokens :: RevokeIf(db.tokens[id], db.tokens[id].refreshHash == hash, now))
  }

  /** Two separate statements, so other transactions may run between them. */
  function RevokeToken(db: Db, token: Option<Text>, now: int): (Db, Result<(), Error>) {
    if Missing(token) then (db, Err(InvalidRequest))
    else (RevokeByRefresh(RevokeByAccess(db, HashToken(token.value), now), HashToken(token.value), now), Ok(()))
  }

  predicate LiveAccess(token: Token, hash: Text) {
    token.accessHash == hash && token.revokedAt.None?
  }

  function LiveRows(db: Db, access: Text): set<nat> {
    set id | id in db.tokens && LiveAccess(db.tokens[id], HashToken(access))
  }

  /** The check of an access token; the row it found is touched by a second statement. */
  ghost function VerifyAccessToken(db: Db, access: Text, resource: string, now: int): Option<Grant> {
    var rows := LiveRows(db, access);
    if rows == {} then None
    else
      var id :| id in rows;
      var token := db.tokens[id];
      if token.accessExpiresAt <= now || token.resource != resource then None
      else if !Scopes.Allows(token.scope, Scopes.READ) then None
      else Some(Grant(token.clientId, token.scope, token.subject, id))
  }

  function Touch(db: Db, id: nat, now: int): Db {
    if id in db.tokens then db.(tokens := db.tokens[id := db.tokens[id].(lastUsedAt := Some(now))]) else db
  }

  // ---- The server object ----

  /** No two tokens share a hash. */
  ghost predicate UniqueHashes(db: Db) {
    forall a, b :: a in db.tokens && b in db.tokens
      && (db.tokens[a].accessHash == db.tokens[b].accessHash || db.tokens[a].refreshHash == db.tokens[b].refreshHash)
      ==> a == b
  }

  class OAuthServer {
    var clients: map<string, Client>
    var codes: map<Text, Code>
    var tokens: map<nat, Token>

    ghost function Contents(): Db
      reads this
    {
      Db(clients, codes, tokens)
    }

    constructor ()
      ensures Contents() == Db(map[], map[], map[])
    {
      clients, codes, tokens := map[], map[], map[];
    }

    method RegisterClient(clientId: string, client: Client)
      modifies this`clients
      ensures Contents() == Register(old(Contents()), clientId, client)
    {
      if clientId !in clients {
        clients := clients[clientId := client];
      }
    }

    method CreateAuthorizationCode(req: AuthorizeRequest, subject: string, code: Text, now: int)
      returns (result: Result<Text, Error>)
      modifies this`codes
      ensures (Contents(), result) == Authorize(old(Contents()), req, subject, code, now)
    {
      var row := ValidateAuthorizationRequest(Db(clients, codes, tokens), req, subject, now);
      if row.Err? {
        return Err(row.error);
      }
      if HashToken(code) in codes {
        return Err(ServerError);
      }
      codes := codes[HashToken(code) := row.value];
      result := Ok(code);
    }

    /** Marks the code used first and puts it back when a later check of the same transaction fails. */
    method ExchangeCode(form: CodeForm, draw: Draw, now: int) returns (result: Result<Issued, Error>)
      modifies this`codes, this`tokens
      ensures (Contents(), result) == ExchangeAuthorizationCode(old(Contents()), form, draw, now)
    {
      var client := AuthenticateClient(Db(clients, codes, tokens), form.who);
      if client.Err? {
        return Err(client.error);
      }
      if Missing(form.code) || MissingString(form.redirectUri) || Missing(form.verifier) {
        return Err(InvalidRequest);
      }
      var codesBefore := codes;
      var hash := HashToken(form.code.value);
      if hash !in codes || !CodeMatches(codes[hash], client.value, form.redirectUri.value, now) {
        return Err(InvalidGrant);
      }
      var row := codes[hash];
      codes := codes[hash := row.(usedAt := Some(now))];
      if !MissingString(form.resource) && row.resource != form.resource.value {
        codes := codesBefore;
        return Err(InvalidTarget);
      }
      if !VerifyPkce(form.verifier.value, row.challenge, row.challengeMethod) {
        codes := codesBefore;
        return Err(InvalidGrant);
      }
      var issued := IssueTokens(
        Db(clients, codes, tokens), draw, client.value, row.subject, row.scope, row.resource, now);
      if issued.Err? {
        codes := codesBefore;
        return Err(issued.error);
      }
      tokens := issued.value.tokens;
      result := Ok(Issued(draw.rowId, draw.access, draw.refresh, row.scope));
    }

    method ExchangeRefresh(form: RefreshForm, draw: Draw, now: int) returns (result: Result<Issued, Error>)
      requires UniqueHashes(Contents())
      modifies this`tokens
      ensures (Contents(), result) == ExchangeRefreshToken(old(Contents()), form, draw, now)
    {
      var client := AuthenticateClient(Db(clients, codes, tokens), form.who);
      if client.Err? {
        return Err(client.error);
      }
      if Missing(form.refresh) {
        return Err(InvalidRequest);
      }
      var rows := RefreshableRows(Db(clients, codes, tokens), HashToken(form.refresh.value), client.value, now);
      if rows == {} {
        return Err(InvalidGrant);
      }
      var id :| id in rows;
      var rotated := Rotate(Db(clients, codes, tokens), id, draw, now);
      if rotated.Err? {
        return Err(rotated.error);
      }
      result := Ok(Issued(draw.rowId, draw.access, draw.refresh, tokens[id].scope));
      tokens := rotated.value.tokens;
    }

    /** Two statements: by access hash, then by refresh hash. */
    method Revoke(token: Option<Text>, now: int) returns (result: Result<(), Error>)
      modifies this`tokens
      ensures (Contents(), result) == RevokeToken(old(Contents()), token, now)
    {
      if Missing(token) {
        return Err(InvalidRequest);
      }
      var hash := HashToken(token.value);
      tokens := RevokeByAccess(Db(clients, codes, tokens), hash, now).tokens;
      tokens := RevokeByRefresh(Db(clients, codes, tokens), hash, now).tokens;
      result := Ok(());
    }

    method Verify(access: Text, resource: string, now: int) returns (result: Option<Grant>)
      requires UniqueHashes(Contents())
      modifies this`tokens
      ensures result == VerifyAccessToken(old(Contents()), access, resource, now)
      ensures Contents() == if result.Some? then Touch(old(Contents()), result.value.rowId, now) else old(Contents())
    {
      var rows := LiveRows(Db(clients, codes, tokens), access);
      if rows == {} {
        return None;
      }
      var id :| id in rows;
      var token := tokens[id];
      if token.accessExpiresAt <= now || token.resource != resource {
        return None;
      }
      if !Scopes.Allows(token.scope, Scopes.READ) {
        return None;
      }
      tokens := tokens[id := token.(lastUsedAt := Some(now))];
      result := Some(Grant(token.clientId, token.scope, token.subject, id));
    }
  }
}
