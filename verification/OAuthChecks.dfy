/** What each endpoint demands, said of the form and the stored rows alone, and the error each failed demand gives. */
module OAuthChecks {
  import opened Common
  import opened OAuth
  import opened OAuthFamilies
  import opened OAuthGrants
  import opened OAuthRoundTrip
  import Scopes

  // ---- What a form has to show ----

  /** The form names a registered client and, if that client has a secret, presents it. */
  predicate Authentic(db: Db, who: Credentials, clientId: string) {
    && who.clientId == Some(clientId) && clientId != "" && clientId in db.clients
    && (db.clients[clientId].authMethod == ClientSecretPost ==>
          && who.clientSecret.Some? && who.clientSecret.value != Raw("")
          && db.clients[clientId].secretHash == Some(HexSha256(who.clientSecret.value)))
  }

  predicate Given(field: Option<Text>) {
    field.Some? && field.value != Raw("")
  }

  predicate Named(db: Db, who: Credentials) {
    who.clientId.Some? && Authentic(db, who, who.clientId.value)
  }

  /** The random values of an issue are new to the table. */
  predicate NewDraw(db: Db, draw: Draw) {
    && draw.rowId !in db.tokens
    && forall id :: id in db.tokens ==>
         db.tokens[id].accessHash != HexSha256(draw.access) && db.tokens[id].refreshHash != HexSha256(draw.refresh)
  }

  /** The row that an issue at this moment inserts: an hour of access, thirty days of refreshing. */
  function IssuedRow(draw: Draw, clientId: string, subject: string, scope: string, resource: string, now: int): Token {
    Token(HexSha256(draw.access), HexSha256(draw.refresh), clientId, subject, scope, resource,
          now + 3_600_000, now + 2_592_000_000, None, None, None, None)
  }

  /** The form may have this token refreshed: it presents its refresh token, as its client, in time. */
  predicate MayRefresh(token: Token, form: RefreshForm, now: int) {
    && form.refresh.Some? && token.refreshHash == HexSha256(form.refresh.value)
    && form.who.clientId == Some(token.clientId) && token.revokedAt == None && now < token.refreshExpiresAt
  }

  /** The form may have this code exchanged: its client, its redirect URI, its resource if one is named, the verifier
      of its challenge, once and in time. */
  predicate MayExchange(code: Code, form: CodeForm, now: int) {
    && form.who.clientId == Some(code.clientId) && form.redirectUri == Some(code.redirectUri)
    && code.usedAt == None && now < code.expiresAt
    && (form.resource == None || form.resource == Some("") || form.resource == Some(code.resource))
    && form.verifier.Some?
    && code.challenge == match code.challengeMethod
                         case S256 => Base64Sha256(form.verifier.value)
                         case Plain => form.verifier.value
  }

  // ---- Clients ----

  lemma AuthenticatesExactly(db: Db, who: Credentials)
    ensures AuthenticateClient(db, who) ==
            if who.clientId == None || who.clientId == Some("") then Err(InvalidRequest)
            else if Named(db, who) then Ok(who.clientId.value)
            else Err(InvalidClient)
  {
  }

  lemma CollidesExactly(db: Db, draw: Draw)
    ensures Collides(db, draw) <==> !NewDraw(db, draw)
  {
    if !NewDraw(db, draw) && draw.rowId in db.tokens {
    } else if !NewDraw(db, draw) {
      var id :| id in db.tokens && (db.tokens[id].accessHash == HexSha256(draw.access)
                                    || db.tokens[id].refreshHash == HexSha256(draw.refresh));
      assert SharesHash(db.tokens[id], draw);
    }
  }

  // ---- Refreshing ----

  lemma EntitledIsRefreshable(token: Token, form: RefreshForm, now: int)
    requires form.refresh.Some? && form.who.clientId.Some?
    ensures MayRefresh(token, form, now) <==>
            Refreshable(token, HashToken(form.refresh.value), form.who.clientId.value, now)
  {
  }

  predicate RefreshedBy(db: Db, after: Db, id: nat, draw: Draw, now: int) {
    && id in db.tokens
    && var t := db.tokens[id];
       after == Db(db.clients, db.codes,
                   db.tokens[id := t.(revokedAt := Some(now), rotatedAt := Some(now), replacedBy := Some(draw.rowId))]
                   [draw.rowId := IssuedRow(draw, t.clientId, t.subject, t.scope, t.resource, now)])
  }

  lemma CollidingRotation(db: Db, id: nat, draw: Draw, now: int)
    requires id in db.tokens && Collides(db, draw)
    ensures Rotate(db, id, draw, now) == Err(ServerError)
  {
    hide Collides, NewToken;
    var row := db.tokens[id];
    SameCollisions(db, db.(tokens := db.tokens[id := row.(revokedAt := Some(now), rotatedAt := Some(now))]), draw);
  }

  /** A form that may refresh a token: granted when the draw is new. */
  lemma RefreshOfToken(db: Db, form: RefreshForm, draw: Draw, now: int, id: nat)
    requires UniqueHashes(db) && Named(db, form.who) && Given(form.refresh)
    requires id in db.tokens && MayRefresh(db.tokens[id], form, now)
    ensures var (after, result) := ExchangeRefreshToken(db, form, draw, now);
            && (NewDraw(db, draw) ==>
                  RefreshedBy(db, after, id, draw, now)
                  && result == Ok(Issued(draw.rowId, draw.access, draw.refresh, db.tokens[id].scope)))
            && (!NewDraw(db, draw) ==> after == db && result == Err(ServerError))
  {
    AuthenticatesExactly(db, form.who);
    CollidesExactly(db, draw);
    hide NewDraw, AuthenticateClient, Collides, Rotate;
    if NewDraw(db, draw) {
      RefreshSucceeds(db, id, form, draw, now);
    } else {
      var rows := RefreshableRows(db, HashToken(form.refresh.value), form.who.clientId.value, now);
      assert id in rows;
      CollidingRotation(db, RotatedRow(db, HashToken(form.refresh.value), form.who.clientId.value, now), draw, now);
    }
  }

  lemma RefreshOfNothing(db: Db, form: RefreshForm, draw: Draw, now: int)
    requires Named(db, form.who) && Given(form.refresh)
    requires forall id :: id in db.tokens ==> !MayRefresh(db.tokens[id], form, now)
    ensures ExchangeRefreshToken(db, form, draw, now) == (db, Err(InvalidGrant))
  {
    AuthenticatesExactly(db, form.who);
    hide AuthenticateClient, Rotate;
    var rows := RefreshableRows(db, HashToken(form.refresh.value), form.who.clientId.value, now);
    forall id | id in rows
      ensures MayRefresh(db.tokens[id], form, now)
    {
    }
    assert rows == {};
  }

  ghost predicate SomeRefreshable(db: Db, form: RefreshForm, now: int) {
    exists id :: id in db.tokens && MayRefresh(db.tokens[id], form, now)
  }

  lemma RefreshOnRows(db: Db, form: RefreshForm, draw: Draw, now: int)
    requires UniqueHashes(db)
    ensures var (after, result) := ExchangeRefreshToken(db, form, draw, now);
            && (forall id :: result.Ok? && id in db.tokens && MayRefresh(db.tokens[id], form, now) ==>
                  RefreshedBy(db, after, id, draw, now)
                  && result == Ok(Issued(draw.rowId, draw.access, draw.refresh, db.tokens[id].scope)))
            && (result.Ok? <==>
                  Named(db, form.who) && Given(form.refresh) && SomeRefreshable(db, form, now) && NewDraw(db, draw))
            && (result.Err? ==> after == db && result.error == RefreshError(db, form, now))
  {
    if Named(db, form.who) && Given(form.refresh) {
      hide Named, Given, NewDraw, MayRefresh, RefreshedBy, ExchangeRefreshToken, UniqueHashes;
      forall id | id in db.tokens && MayRefresh(db.tokens[id], form, now)
        ensures var (after, result) := ExchangeRefreshToken(db, form, draw, now);
                && (NewDraw(db, draw) ==>
                      RefreshedBy(db, after, id, draw, now)
                      && result == Ok(Issued(draw.rowId, draw.access, draw.refresh, db.tokens[id].scope)))
                && (!NewDraw(db, draw) ==> after == db && result == Err(ServerError))
      {
        RefreshOfToken(db, form, draw, now, id);
      }
      if !SomeRefreshable(db, form, now) { RefreshOfNothing(db, form, draw, now); }
    } else {
      AuthenticatesExactly(db, form.who);
      hide Named, NewDraw, AuthenticateClient, Rotate, RefreshableRows, MayRefresh;
    }
  }

  /** Why a form is refused. */
  ghost function RefreshError(db: Db, form: RefreshForm, now: int): Error {
    if form.who.clientId == None || form.who.clientId == Some("") then InvalidRequest
    else if !Named(db, form.who) then InvalidClient
    else if !Given(form.refresh) then InvalidRequest
    else if !SomeRefreshable(db, form, now) then InvalidGrant
    else ServerError
  }

  /** After any run a refresh is granted exactly when its client is authentic, some token may be refreshed by the form
      and the draw is new. It spends that one token, links it to its successor, and changes nothing else. */
  lemma RefreshExactly(txs: seq<Tx>, form: RefreshForm, draw: Draw, now: int)
    ensures var db := After(txs).db;
            var (after, result) := ExchangeRefreshToken(db, form, draw, now);
            && (result.Ok? <==>
                  Named(db, form.who) && Given(form.refresh) && SomeRefreshable(db, form, now) && NewDraw(db, draw))
            && (forall id :: result.Ok? && id in db.tokens && MayRefresh(db.tokens[id], form, now) ==>
                  RefreshedBy(db, after, id, draw, now)
                  && result == Ok(Issued(draw.rowId, draw.access, draw.refresh, db.tokens[id].scope)))
            && (result.Err? ==> after == db && result.error == RefreshError(db, form, now))
  {
    HoldUnique(txs);
    hide *;
    RefreshOnRows(After(txs).db, form, draw, now);
  }

  /** A refresh token works for no other client than its own: after any run the form is refused, and nothing changes. */
  lemma OtherClientIsRefused(txs: seq<Tx>, id: nat, form: RefreshForm, draw: Draw, now: int)
    requires id in After(txs).db.tokens && form.refresh.Some?
    requires After(txs).db.tokens[id].refreshHash == HexSha256(form.refresh.value)
    requires form.who.clientId != Some(After(txs).db.tokens[id].clientId)
    ensures ExchangeRefreshToken(After(txs).db, form, draw, now).1.Err?
    ensures After(txs + [Refresh(form, draw, now)]) == After(txs)
  {
    var db := After(txs).db;
    HoldUnique(txs);
    SnocStep(txs, Refresh(form, draw, now));
    RefreshOnRows(db, form, draw, now);
    hide After, ExchangeRefreshToken, Named, Given, NewDraw;
    forall k | k in db.tokens
      ensures !MayRefresh(db.tokens[k], form, now)
    {
      if db.tokens[k].refreshHash == HexSha256(form.refresh.value) { OneHolder(db, k, id); }
    }
  }

  // ---- Exchanging a code ----

  /** The form answers the code it names. */
  predicate AnswersCode(db: Db, form: CodeForm, now: int) {
    && form.code.Some? && HexSha256(form.code.value) in db.codes
    && MayExchange(db.codes[HexSha256(form.code.value)], form, now)
  }

  /** A code is exchanged exactly when its client is authentic, no field is empty, the form may have it and the draw is
      new. It is marked used, one token with its attributes is added, and nothing else changes. */
  lemma ExchangeExactly(db: Db, form: CodeForm, draw: Draw, now: int)
    ensures var (after, result) := ExchangeAuthorizationCode(db, form, draw, now);
            && (result.Ok? <==>
                  Named(db, form.who) && NothingEmpty(form) && AnswersCode(db, form, now) && NewDraw(db, draw))
            && (result.Ok? ==>
                  ExchangedBy(db, after, HexSha256(form.code.value), draw, now)
                  && result == Ok(Issued(draw.rowId, draw.access, draw.refresh,
                                         db.codes[HexSha256(form.code.value)].scope)))
            && (result.Err? ==> after == db && result.error == ExchangeError(db, form, now))
  {
    if Named(db, form.who) && NothingEmpty(form) && AnswersCode(db, form, now) {
      ExchangeOfAnswer(db, form, draw, now);
      hide ExchangeAuthorizationCode, ExchangedBy, NewDraw, Named, NothingEmpty, AnswersCode;
    } else {
      AuthenticatesExactly(db, form.who);
      hide AuthenticateClient, NewDraw, Collides, NewToken;
    }
  }

  lemma ExchangeOfAnswer(db: Db, form: CodeForm, draw: Draw, now: int)
    requires Named(db, form.who) && NothingEmpty(form) && AnswersCode(db, form, now)
    ensures var (after, result) := ExchangeAuthorizationCode(db, form, draw, now);
            if NewDraw(db, draw)
            then ExchangedBy(db, after, HexSha256(form.code.value), draw, now)
                 && result == Ok(Issued(draw.rowId, draw.access, draw.refresh,
                                        db.codes[HexSha256(form.code.value)].scope))
            else after == db && result == Err(ServerError)
  {
    AuthenticatesExactly(db, form.who);
    CollidesExactly(db, draw);
    hide AuthenticateClient, Collides, NewDraw;
    var c := HexSha256(form.code.value);
    SameCollisions(db, db.(codes := db.codes[c := db.codes[c].(usedAt := Some(now))]), draw);
  }

  predicate NothingEmpty(form: CodeForm) {
    Given(form.code) && form.redirectUri.Some? && form.redirectUri.value != "" && Given(form.verifier)
  }

  predicate ExchangedBy(db: Db, after: Db, c: Text, draw: Draw, now: int) {
    && c in db.codes
    && var code := db.codes[c];
       after == Db(db.clients, db.codes[c := code.(usedAt := Some(now))],
                   db.tokens[draw.rowId :=
                     IssuedRow(draw, code.clientId, code.subject, code.scope, code.resource, now)])
  }

  /** Why a form is refused. The verifier is looked at last, and a form that fails only there counts as a bad grant. */
  function ExchangeError(db: Db, form: CodeForm, now: int): Error {
    if form.who.clientId == None || form.who.clientId == Some("") then InvalidRequest
    else if !Named(db, form.who) then InvalidClient
    else if !NothingEmpty(form) then InvalidRequest
    else if AnswersCode(db, form, now) then ServerError
    else if OnlyTheResourceIsWrong(db, form, now) then InvalidTarget
    else InvalidGrant
  }

  /** Everything before the resource fits, and the resource named is another one. */
  predicate OnlyTheResourceIsWrong(db: Db, form: CodeForm, now: int) {
    && form.code.Some? && HexSha256(form.code.value) in db.codes
    && var code := db.codes[HexSha256(form.code.value)];
       && form.who.clientId == Some(code.clientId) && form.redirectUri == Some(code.redirectUri)
       && code.usedAt == None && now < code.expiresAt
       && form.resource.Some? && form.resource.value != "" && form.resource.value != code.resource
  }

  /** A code is bound to its client, redirect URI, resource and verifier: after any run a form that differs in one of
      them is refused, and nothing changes. */
  lemma CodeIsBound(txs: seq<Tx>, form: CodeForm, draw: Draw, now: int)
    requires form.code.Some? && HexSha256(form.code.value) in After(txs).db.codes
    requires var code := After(txs).db.codes[HexSha256(form.code.value)];
             || form.who.clientId != Some(code.clientId)
             || form.redirectUri != Some(code.redirectUri)
             || (form.resource.Some? && form.resource.value !in {"", code.resource})
             || (code.challengeMethod == Plain && form.verifier != Some(code.challenge))
             || (code.challengeMethod == S256
                 && forall v :: form.verifier == Some(v) ==> Base64Sha256(v) != code.challenge)
    ensures ExchangeAuthorizationCode(After(txs).db, form, draw, now).1.Err?
    ensures After(txs + [Exchange(form, draw, now)]) == After(txs)
  {
    SnocStep(txs, Exchange(form, draw, now));
    ExchangeExactly(After(txs).db, form, draw, now);
    hide After, ExchangeAuthorizationCode, Named, NothingEmpty, NewDraw;
  }

  // ---- Asking for a code ----

  /** The verifier itself or its SHA-256, and the verifier itself when no method is named. */
  predicate KnownMethod(name: Option<string>) {
    name == None || name == Some("plain") || name == Some("S256")
  }

  lemma MethodsExactly(name: Option<string>)
    ensures KnownMethod(name) <==> ChallengeMethodOf(name).Some?
    ensures KnownMethod(name) ==> ChallengeMethodOf(name) == Some(if name == Some("S256") then S256 else Plain)
  {
  }

  predicate MayAuthorize(db: Db, req: AuthorizeRequest) {
    && req.responseType == Some("code") && Given(req.challenge)
    && KnownMethod(req.challengeMethod)
    && (req.resource == None || req.resource == Some(req.expectedResource))
    && req.clientId.Some? && req.clientId.value != "" && req.clientId.value in db.clients
    && req.redirectUri.Some? && req.redirectUri.value != ""
    && req.redirectUri.value in db.clients[req.clientId.value].redirectUris
  }

  /** A request is accepted exactly when its scope parses, its fields are as they have to be and the drawn code is new;
      then one code is stored under its digest, for ten minutes, with what the request says. */
  lemma AuthorizesExactly(db: Db, req: AuthorizeRequest, subject: string, code: Text, now: int)
    ensures var (after, result) := Authorize(db, req, subject, code, now);
            var scope := Scopes.ParseScopes(req.scope);
            && (result.Ok? <==> scope.Ok? && MayAuthorize(db, req) && HexSha256(code) !in db.codes)
            && (result.Ok? ==>
                  && result.value == code
                  && after == Db(db.clients, db.codes[HexSha256(code) := RequestedCode(req, scope.value, subject, now)],
                                 db.tokens))
            && (result.Err? ==> after == db && result.error == AuthorizeError(db, req))
  {
    MethodsExactly(req.challengeMethod);
    hide Scopes.ParseScopes, KnownMethod, ChallengeMethodOf;
  }

  function RequestedCode(req: AuthorizeRequest, scope: string, subject: string, now: int): Code
    requires req.clientId.Some? && req.redirectUri.Some? && req.challenge.Some?
  {
    Code(req.clientId.value, req.redirectUri.value, scope, req.challenge.value,
         if req.challengeMethod == Some("S256") then S256 else Plain,
         req.expectedResource, subject, now + 600_000, None)
  }

  function AuthorizeError(db: Db, req: AuthorizeRequest): Error {
    if Scopes.ParseScopes(req.scope).Err? then InvalidScope
    else if req.responseType != Some("code") then UnsupportedResponseType
    else if MissingString(req.clientId) || MissingString(req.redirectUri) || !Given(req.challenge)
            || !KnownMethod(req.challengeMethod) then InvalidRequest
    else if req.resource.Some? && req.resource.value != req.expectedResource then InvalidTarget
    else if req.clientId.value !in db.clients then InvalidClient
    else if req.redirectUri.value !in db.clients[req.clientId.value].redirectUris then InvalidRequest
    else ServerError
  }

  // ---- Revoking, verifying, registering ----

  /** A revocation stamps exactly the rows of which the text is the access or the refresh token. */
  lemma RevokesExactly(db: Db, token: Option<Text>, now: int)
    ensures var (after, result) := RevokeToken(db, token, now);
            && (result.Err? <==> !Given(token)) && (result.Err? ==> after == db && result.error == InvalidRequest)
            && (result.Ok? ==>
                  && after.clients == db.clients && after.codes == db.codes && after.tokens.Keys == db.tokens.Keys
                  && forall id :: id in db.tokens ==>
                       after.tokens[id] ==
                         if db.tokens[id].accessHash == HexSha256(token.value)
                            || db.tokens[id].refreshHash == HexSha256(token.value)
                         then db.tokens[id].(revokedAt := Some(now)) else db.tokens[id])
  {
  }

  /** The touch after a verification stamps the use of that one row. */
  lemma TouchesExactly(db: Db, id: nat, now: int)
    requires id in db.tokens
    ensures Touch(db, id, now) == Db(db.clients, db.codes, db.tokens[id := db.tokens[id].(lastUsedAt := Some(now))])
  {
  }

  /** A client id stands for whoever registered it first. */
  lemma {:induction false} FirstRegistrationStays(txs: seq<Tx>, i: nat, clientId: string, client: Client)
    requires i < |txs| && txs[i] == RegisterClient(clientId, client)
    requires forall k :: 0 <= k < i ==> !(txs[k].RegisterClient? && txs[k].clientId == clientId)
    ensures clientId in After(txs).db.clients && After(txs).db.clients[clientId] == client
  {
    var before := txs[..i];
    NotRegistered(before, clientId);
    SnocStep(before, txs[i]);
    assert before + [txs[i]] == txs[..i + 1] && txs[..i + 1] + txs[i + 1..] == txs;
    NothingIsUndone(txs[..i + 1], txs[i + 1..]);
    hide After;
  }

  lemma {:induction false} NotRegistered(txs: seq<Tx>, clientId: string)
    requires forall k :: 0 <= k < |txs| ==> !(txs[k].RegisterClient? && txs[k].clientId == clientId)
    ensures clientId !in After(txs).db.clients
  {
    if txs != [] {
      var n := |txs| - 1;
      NotRegistered(txs[..n], clientId);
      StepKeepsClients(After(txs[..n]).db, txs[n]);
      hide Step, NextFamilies;
      assert After(txs).db == Step(After(txs[..n]).db, txs[n]);
    }
  }

  lemma StepKeepsClients(db: Db, tx: Tx)
    ensures Step(db, tx).clients.Keys == db.clients.Keys + if tx.RegisterClient? then {tx.clientId} else {}
  {
    hide AuthenticateClient, RefreshableRows, Collides, ValidateAuthorizationRequest, VerifyPkce, CodeMatches;
  }

  // ---- What is stored ----

  predicate StoresDigests(db: Db) {
    && (forall id :: id in db.tokens ==> db.tokens[id].accessHash.HexSha256? && db.tokens[id].refreshHash.HexSha256?)
    && forall c :: c in db.codes ==> c.HexSha256?
  }

  /** After any run only digests of tokens and codes are stored. */
  lemma {:induction false} OnlyDigests(txs: seq<Tx>)
    ensures StoresDigests(After(txs).db)
  {
    if txs != [] {
      var n := |txs| - 1;
      OnlyDigests(txs[..n]);
      HoldUnique(txs[..n]);
      StepStoresDigests(After(txs[..n]).db, txs[n]);
      hide Step, NextFamilies, StoresDigests;
      assert After(txs).db == Step(After(txs[..n]).db, txs[n]);
    }
  }

  lemma StepStoresDigests(db: Db, tx: Tx)
    requires UniqueHashes(db) && StoresDigests(db)
    ensures StoresDigests(Step(db, tx))
  {
    match tx
    case CreateCode(req, subject, code, now) => AuthorizesExactly(db, req, subject, code, now);
    case Exchange(form, draw, now) => ExchangeExactly(db, form, draw, now);
    case Refresh(form, draw, now) => RefreshOnRows(db, form, draw, now);
    case _ =>
  }
}
