/** What a client gets from a grant: the code it asked for, tokens that work until they expire, and nothing for anyone
    without the verifier or the client secret. */
module OAuthRoundTrip {
  import opened Common
  import opened OAuth
  import opened OAuthFamilies
  import opened OAuthGrants
  import Scopes

  // ---- Secrets ----

  /** Only the client's own secret opens either grant for a client registered with one. */
  lemma OnlyTheSecretHolderExchanges(
    db: Db, codeForm: CodeForm, refreshForm: RefreshForm, draw: Draw, now: int, clientId: string, secret: Text)
    requires clientId in db.clients && db.clients[clientId].authMethod.ClientSecretPost?
    requires db.clients[clientId].secretHash == Some(HashToken(secret))
    ensures ExchangeAuthorizationCode(db, codeForm, draw, now).1.Ok? && codeForm.who.clientId == Some(clientId) ==>
              codeForm.who.clientSecret == Some(secret)
    ensures ExchangeRefreshToken(db, refreshForm, draw, now).1.Ok? && refreshForm.who.clientId == Some(clientId) ==>
              refreshForm.who.clientSecret == Some(secret)
  {
    hide Rotate, IssueTokens, RefreshableRows, CodeMatches, VerifyPkce;
  }

  /** Where a family began: an exchange that found its code as it still is, and its client as it still is. */
  lemma ExchangeBehind(txs: seq<Tx>, c: Text) returns (i: nat)
    requires c in After(txs).families
    ensures i < |txs| && Exchanged(txs, i, c)
    ensures var before, db := After(txs[..i]).db, After(txs).db;
            && c in before.codes && c in db.codes && StillGranted(before.codes[c], db.codes[c])
            && before.codes[c].clientId in before.clients && before.codes[c].clientId in db.clients
            && before.clients[before.codes[c].clientId] == db.clients[before.codes[c].clientId]
  {
    i := ExchangeOf(txs, c);
    var before := txs[..i];
    assert before + txs[i..] == txs;
    ExchangeEffect(After(before).db, txs[i].codeForm, txs[i].draw, txs[i].now);
    NothingIsUndone(before, txs[i..]);
    FamiliesHold(before);
    hide After, ExchangeAuthorizationCode, Chains, Apart, Covered, UniqueHashes, UsedExactly;
    assert StillGranted(After(before).db.codes[c], After(txs).db.codes[c]);
  }

  /** Over every run: no token descends from a code under the S256 challenge of a verifier unless that verifier was
      presented. */
  lemma FirstTokenNeedsVerifier(txs: seq<Tx>, c: Text, verifier: Text)
    requires c in After(txs).families && c in After(txs).db.codes
    requires After(txs).db.codes[c].challengeMethod.S256? && After(txs).db.codes[c].challenge == Base64Sha256(verifier)
    ensures exists i: nat :: i < |txs| && Exchanged(txs, i, c) && txs[i].codeForm.verifier == Some(verifier)
  {
    var i := ExchangeBehind(txs, c);
    var db := After(txs[..i]).db;
    ExchangeEffect(db, txs[i].codeForm, txs[i].draw, txs[i].now);
    hide After, ExchangeAuthorizationCode;
    OnlyTheVerifierExchanges(db, txs[i].codeForm, txs[i].draw, txs[i].now, verifier);
  }

  /** Over every run: no token descends from a code of a client registered with a secret unless that secret was
      presented. */
  lemma FirstTokenNeedsSecret(txs: seq<Tx>, c: Text, secret: Text)
    requires c in After(txs).families && c in After(txs).db.codes &&
        After(txs).db.codes[c].clientId in After(txs).db.clients
    requires var client := After(txs).db.clients[After(txs).db.codes[c].clientId];
             client.authMethod.ClientSecretPost? && client.secretHash == Some(HashToken(secret))
    ensures exists i: nat :: i < |txs| && Exchanged(txs, i, c) && txs[i].codeForm.who.clientSecret == Some(secret)
  {
    var i := ExchangeBehind(txs, c);
    var db, form := After(txs[..i]).db, txs[i].codeForm;
    ExchangeEffect(db, form, txs[i].draw, txs[i].now);
    ExchangedForClient(db, form, txs[i].draw, txs[i].now);
    hide After, ExchangeAuthorizationCode, ExchangeRefreshToken;
    var refresh := RefreshForm(form.who, None);
    OnlyTheSecretHolderExchanges(db, form, refresh, txs[i].draw, txs[i].now, db.codes[c].clientId, secret);
  }

  lemma ExchangedForClient(db: Db, form: CodeForm, draw: Draw, now: int)
    requires ExchangeAuthorizationCode(db, form, draw, now).1.Ok?
    ensures form.code.Some? && HashToken(form.code.value) in db.codes
    ensures form.who.clientId == Some(db.codes[HashToken(form.code.value)].clientId)
  {
    hide IssueTokens, VerifyPkce;
  }

  // ---- From request to access ----

  /** The form sent back with the code: right client, redirect, verifier and resource. */
  ghost predicate Answers(db: Db, form: CodeForm, code: Text, row: Code) {
    && form.code == Some(code) && form.redirectUri == Some(row.redirectUri) && row.redirectUri != ""
    && AuthenticateClient(db, form.who) == Ok(row.clientId)
    && !Missing(form.verifier) && VerifyPkce(form.verifier.value, row.challenge, row.challengeMethod)
    && (MissingString(form.resource) || form.resource.value == row.resource)
  }

  lemma AnswerSucceeds(db: Db, form: CodeForm, code: Text, draw: Draw, now: int)
    requires code != Raw("") && HashToken(code) in db.codes && db.codes[HashToken(code)].usedAt.None?
    requires Answers(db, form, code, db.codes[HashToken(code)])
    ensures ExchangeAuthorizationCode(db, form, draw, now).1 ==
            var row := db.codes[HashToken(code)];
            if row.expiresAt <= now then Err(InvalidGrant)
            else if Collides(db, draw) then Err(ServerError)
            else Ok(Issued(draw.rowId, draw.access, draw.refresh, row.scope))
  {
    hide AuthenticateClient, VerifyPkce, Collides, NewToken;
    var c := HashToken(code);
    SameCollisions(db, db.(codes := db.codes[c := db.codes[c].(usedAt := Some(now))]), draw);
  }

  /** A token row's own access token is accepted for its resource exactly while it is unrevoked and unexpired. */
  lemma StoredTokenVerifies(txs: seq<Tx>, id: nat, access: Text, now: int)
    requires id in After(txs).db.tokens && After(txs).db.tokens[id].accessHash == HashToken(access)
    ensures var db := After(txs).db;
            var token := db.tokens[id];
            VerifyAccessToken(db, access, token.resource, now) ==
              if token.revokedAt.None? && token.accessExpiresAt > now
              then Some(Grant(token.clientId, token.scope, token.subject, id)) else None
  {
    hide VerifyAccessToken, UniqueHashes;
    var db := After(txs).db;
    AcceptedExactly(txs, access, db.tokens[id].resource, now);
    HoldUnique(txs);
    forall k | k in db.tokens && db.tokens[k].accessHash == HashToken(access)
      ensures k == id
    {
      OneHolder(db, k, id);
    }
  }

  lemma OneHolder(db: Db, a: nat, b: nat)
    requires UniqueHashes(db) && a in db.tokens && b in db.tokens
    requires db.tokens[a].accessHash == db.tokens[b].accessHash || db.tokens[a].refreshHash == db.tokens[b].refreshHash
    ensures a == b
  {
  }

  /** The authorization-code grant end to end, after any run: an accepted request, answered by its client with the
      verifier, is exchanged exactly while the code is fresh, and the access token it gives is accepted for exactly one
      hour with the client, subject and scope of the request. */
  lemma GrantRoundTrip(
    txs: seq<Tx>, req: AuthorizeRequest, subject: string, code: Text, t0: int, form: CodeForm,
    draw: Draw, t1: int, t2: int)
    requires code != Raw("") && Authorize(After(txs).db, req, subject, code, t0).1.Ok?
    requires var db := After(txs + [CreateCode(req, subject, code, t0)]).db;
             && HashToken(code) in db.codes && Answers(db, form, code, db.codes[HashToken(code)]) && !Collides(db, draw)
    ensures req.clientId.Some? && Scopes.ParseScopes(req.scope).Ok?
    ensures var before := txs + [CreateCode(req, subject, code, t0)];
            var scope := Scopes.ParseScopes(req.scope).value;
            var result := ExchangeAuthorizationCode(After(before).db, form, draw, t1).1;
            && result == (if t1 < t0 + CODE_TTL then Ok(Issued(draw.rowId, draw.access, draw.refresh, scope))
                          else Err(InvalidGrant))
            && (t1 < t0 + CODE_TTL ==>
                  var after := After(before + [Exchange(form, draw, t1)]).db;
                  VerifyAccessToken(after, draw.access, req.expectedResource, t2)
                  == if t2 < t1 + ACCESS_TTL then Some(Grant(req.clientId.value, scope, subject, draw.rowId)) else None)
  {
    hide ValidateAuthorizationRequest, Answers, Collides, VerifyAccessToken, ExchangeAuthorizationCode, NextFamilies;
    var before := txs + [CreateCode(req, subject, code, t0)];
    SnocStep(txs, CreateCode(req, subject, code, t0));
    AcceptedRequest(After(txs).db, req, subject, t0);
    var db := After(before).db;
    AnswerSucceeds(db, form, code, draw, t1);
    if t1 < t0 + CODE_TTL {
      var exchange := Exchange(form, draw, t1);
      ExchangeEffect(db, form, draw, t1);
      SnocStep(before, exchange);
      AnsweredCode(db, form, code);
      StoredTokenVerifies(before + [exchange], draw.rowId, draw.access, t2);
    }
  }

  lemma AnsweredCode(db: Db, form: CodeForm, code: Text)
    requires HashToken(code) in db.codes && Answers(db, form, code, db.codes[HashToken(code)])
    ensures form.code == Some(code)
  {
  }

  // ---- From one token to the next ----

  /** A refresh after any run: a live token's refresh token, sent by its client, is exchanged exactly while it is
      fresh; then the old access token is refused at once and the new one works for its hour. */
  lemma RefreshRoundTrip(txs: seq<Tx>, id: nat, form: RefreshForm, draw: Draw, t1: int, access: Text, t2: int)
    requires id in After(txs).db.tokens && After(txs).db.tokens[id].revokedAt.None?
    requires form.refresh.Some? && !Missing(form.refresh)
    requires After(txs).db.tokens[id].refreshHash == HashToken(form.refresh.value)
    requires After(txs).db.tokens[id].accessHash == HashToken(access)
    requires AuthenticateClient(After(txs).db, form.who) == Ok(After(txs).db.tokens[id].clientId)
    requires !Collides(After(txs).db, draw)
    ensures var token := After(txs).db.tokens[id];
            var result := ExchangeRefreshToken(After(txs).db, form, draw, t1).1;
            var after := After(txs + [Refresh(form, draw, t1)]).db;
            && result == (if t1 < token.refreshExpiresAt
                          then Ok(Issued(draw.rowId, draw.access, draw.refresh, token.scope))
                          else Err(InvalidGrant))
            && (t1 < token.refreshExpiresAt ==>
                  && VerifyAccessToken(after, access, token.resource, t2) == None
                  && VerifyAccessToken(after, draw.access, token.resource, t2)
                     == if t2 < t1 + ACCESS_TTL
                        then Some(Grant(token.clientId, token.scope, token.subject, draw.rowId))
                        else None)
  {
    hide VerifyAccessToken, ExchangeRefreshToken, NextFamilies, Collides;
    var db := After(txs).db;
    HoldUnique(txs);
    RefreshSucceeds(db, id, form, draw, t1);
    if t1 < db.tokens[id].refreshExpiresAt {
      var refresh := Refresh(form, draw, t1);
      SnocStep(txs, refresh);
      NoCollision(db, draw);
      StoredTokenVerifies(txs + [refresh], id, access, t2);
      StoredTokenVerifies(txs + [refresh], draw.rowId, draw.access, t2);
    }
  }

  lemma RefreshSucceeds(db: Db, id: nat, form: RefreshForm, draw: Draw, now: int)
    requires UniqueHashes(db) && id in db.tokens && db.tokens[id].revokedAt.None? && !Collides(db, draw)
    requires form.refresh.Some? && !Missing(form.refresh) && db.tokens[id].refreshHash == HashToken(form.refresh.value)
    requires AuthenticateClient(db, form.who) == Ok(db.tokens[id].clientId)
    ensures var token := db.tokens[id];
            ExchangeRefreshToken(db, form, draw, now) ==
              if now < token.refreshExpiresAt
              then (db.(tokens := Rotated(db.tokens, id, draw, now)),
                    Ok(Issued(draw.rowId, draw.access, draw.refresh, token.scope)))
              else (db, Err(InvalidGrant))
  {
    hide AuthenticateClient, Collides, Rotate, Rotated;
    var rows := RefreshableRows(db, HashToken(form.refresh.value), db.tokens[id].clientId, now);
    forall k | k in rows
      ensures k == id
    {
      OneHolder(db, k, id);
    }
    if now < db.tokens[id].refreshExpiresAt {
      assert id in rows;
      RotateSucceeds(db, id, draw, now);
      RotateEffect(db, id, draw, now);
    }
  }

  lemma RotateSucceeds(db: Db, id: nat, draw: Draw, now: int)
    requires id in db.tokens && !Collides(db, draw)
    ensures Rotate(db, id, draw, now).Ok?
  {
    hide Collides, NewToken;
    var row := db.tokens[id];
    SameCollisions(db, db.(tokens := db.tokens[id := row.(revokedAt := Some(now), rotatedAt := Some(now))]), draw);
  }
}
