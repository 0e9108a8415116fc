/** Token families over every run of transactions: which tokens descend from which authorization code. */
module OAuthFamilies {
  import opened Common
  import opened OAuth
  import Scopes

  /** One committed transaction or single statement, with the values drawn for it. */
  datatype Tx =
    | RegisterClient(clientId: string, client: Client)
    | CreateCode(req: AuthorizeRequest, subject: string, code: Text, now: int)
    | Exchange(codeForm: CodeForm, draw: Draw, now: int)
    | Refresh(refreshForm: RefreshForm, draw: Draw, now: int)
    | RevokeAccess(hash: Text, now: int)
    | RevokeRefresh(hash: Text, now: int)
    | TouchRow(id: nat, now: int)

  ghost function Step(db: Db, tx: Tx): Db {
    match tx
    case RegisterClient(clientId, client) => Register(db, clientId, client)
    case CreateCode(req, subject, code, now) => Authorize(db, req, subject, code, now).0
    case Exchange(form, draw, now) => ExchangeAuthorizationCode(db, form, draw, now).0
    case Refresh(form, draw, now) => ExchangeRefreshToken(db, form, draw, now).0
    case RevokeAccess(hash, now) => RevokeByAccess(db, hash, now)
    case RevokeRefresh(hash, now) => RevokeByRefresh(db, hash, now)
    case TouchRow(id, now) => Touch(db, id, now)
  }

  /** The tokens issued for each code so far, in the order they were issued. */
  type Families = map<Text, seq<nat>>

  datatype State = State(db: Db, families: Families)

  ghost function NextFamilies(s: State, tx: Tx): Families {
    match tx
    case Exchange(form, draw, now) =>
      if ExchangeAuthorizationCode(s.db, form, draw, now).1.Ok?
      then s.families[HashToken(form.code.value) := [draw.rowId]]
      else s.families
    case Refresh(form, draw, now) => RefreshedFamilies(s, form, draw, now)
    case _ => s.families
  }

  ghost function RefreshedFamilies(s: State, form: RefreshForm, draw: Draw, now: int): Families {
    if ExchangeRefreshToken(s.db, form, draw, now).1.Ok?
    then Extended(s.families, RefreshedRow(s.db, form, now), draw.rowId)
    else s.families
  }

  /** The row a refresh request rotates. */
  ghost function RefreshedRow(db: Db, form: RefreshForm, now: int): (id: nat)
    requires form.refresh.Some? && AuthenticateClient(db, form.who).Ok?
    requires RefreshableRows(db, HashToken(form.refresh.value), AuthenticateClient(db, form.who).value, now) != {}
    ensures id in db.tokens
    ensures Refreshable(db.tokens[id], HashToken(form.refresh.value), AuthenticateClient(db, form.who).value, now)
  {
    RotatedRow(db, HashToken(form.refresh.value), AuthenticateClient(db, form.who).value, now)
  }

  function Extended(families: Families, id: nat, next: nat): Families {
    map c | c in families :: if id in families[c] then families[c] + [next] else families[c]
  }

  ghost function After(txs: seq<Tx>): State {
    if txs == [] then State(Db(map[], map[], map[]), map[])
    else
      var s := After(txs[..|txs| - 1]);
      State(Step(s.db, txs[|txs| - 1]), NextFamilies(s, txs[|txs| - 1]))
  }

  // ---- The invariant ----

  ghost predicate UsedExactly(s: State) {
    forall c :: c in s.families <==> c in s.db.codes && s.db.codes[c].usedAt.Some?
  }

  predicate FromCode(token: Token, code: Code) {
    && token.clientId == code.clientId && token.subject == code.subject
    && token.scope == code.scope && token.resource == code.resource
  }

  /** Position i of a family of n tokens: linked to the next and spent, or the unlinked last one. */
  predicate Linked(db: Db, family: seq<nat>, i: nat)
    requires i < |family|
  {
    && family[i] in db.tokens
    && var token := db.tokens[family[i]];
       if i + 1 < |family|
       then token.replacedBy == Some(family[i + 1]) && token.revokedAt.Some? && token.rotatedAt.Some?
       else token.replacedBy.None? && token.rotatedAt.None?
  }

  predicate Chain(db: Db, family: seq<nat>, code: Code) {
    && family != []
    && forall i :: 0 <= i < |family| ==> Linked(db, family, i) && FromCode(db.tokens[family[i]], code)
  }

  predicate Chains(s: State) {
    forall c :: c in s.families ==> c in s.db.codes && Chain(s.db, s.families[c], s.db.codes[c])
  }

  /** No token has two places. */
  predicate Apart(families: Families) {
    forall c, d, i, j ::
      c in families && d in families && 0 <= i < |families[c]| && 0 <= j < |families[d]|
      && families[c][i] == families[d][j]
      ==> c == d && i == j
  }

  predicate Covered(s: State) {
    forall id :: id in s.db.tokens ==> InSome(s.families, id)
  }

  predicate InSome(families: Families, id: nat) {
    exists c :: c in families && id in families[c]
  }

  predicate IsCanonical(scope: string) {
    scope == Scopes.Canonical(false) || scope == Scopes.Canonical(true)
  }

  predicate CodesOfClients(db: Db) {
    forall c :: c in db.codes ==>
      && db.codes[c].clientId in db.clients
      && db.codes[c].redirectUri in db.clients[db.codes[c].clientId].redirectUris
      && IsCanonical(db.codes[c].scope)
  }

  ghost predicate Inv(s: State) {
    UsedExactly(s) && Chains(s) && Apart(s.families) && Covered(s) && UniqueHashes(s.db) && CodesOfClients(s.db)
  }

  // ---- Each transaction keeps it ----

  /** A statement that may only revoke or touch: everything a family rests on is kept. */
  predicate OnlyRevokes(before: Db, after: Db) {
    && after.clients == before.clients && after.codes == before.codes && after.tokens.Keys == before.tokens.Keys
    && forall id :: id in before.tokens ==> SameOrRevoked(before.tokens[id], after.tokens[id])
  }

  predicate SameOrRevoked(t: Token, u: Token) {
    && u.accessHash == t.accessHash && u.refreshHash == t.refreshHash && u.clientId == t.clientId
    && u.subject == t.subject && u.scope == t.scope && u.resource == t.resource
    && u.replacedBy == t.replacedBy && u.rotatedAt == t.rotatedAt && (t.revokedAt.Some? ==> u.revokedAt.Some?)
  }

  lemma RevokingKeepsInv(s: State, after: Db)
    requires Inv(s) && OnlyRevokes(s.db, after)
    ensures Inv(State(after, s.families))
  {
    forall c | c in s.families
      ensures Chain(after, s.families[c], after.codes[c])
    {
      var family := s.families[c];
      forall i | 0 <= i < |family|
        ensures Linked(after, family, i) && FromCode(after.tokens[family[i]], after.codes[c])
      {
        assert Linked(s.db, family, i);
        assert SameOrRevoked(s.db.tokens[family[i]], after.tokens[family[i]]);
      }
    }
    forall a, b | a in after.tokens && b in after.tokens
      && (after.tokens[a].accessHash == after.tokens[b].accessHash ||
          after.tokens[a].refreshHash == after.tokens[b].refreshHash)
      ensures a == b
    {
      assert SameOrRevoked(s.db.tokens[a], after.tokens[a]) && SameOrRevoked(s.db.tokens[b], after.tokens[b]);
    }
  }

  /** A statement that adds clients or unused codes. */
  predicate OnlyAdds(before: Db, after: Db) {
    && after.tokens == before.tokens
    && before.clients.Keys <= after.clients.Keys && before.codes.Keys <= after.codes.Keys
    && (forall k :: k in before.clients ==> after.clients[k] == before.clients[k])
    && (forall c :: c in before.codes ==> after.codes[c] == before.codes[c])
    && forall c :: c in after.codes && c !in before.codes ==> after.codes[c].usedAt.None?
  }

  lemma AddingKeepsInv(s: State, after: Db)
    requires Inv(s) && OnlyAdds(s.db, after) && CodesOfClients(after)
    ensures Inv(State(after, s.families))
  {
    var t := State(after, s.families);
    assert UsedExactly(t) by {
      forall c
        ensures c in t.families <==> c in after.codes && after.codes[c].usedAt.Some?
      {
        assert c in s.families <==> c in s.db.codes && s.db.codes[c].usedAt.Some?;
      }
    }
    forall c | c in s.families
      ensures c in after.codes && Chain(after, s.families[c], after.codes[c])
    {
      var family := s.families[c];
      forall i | 0 <= i < |family|
        ensures Linked(after, family, i)
      {
        assert Linked(s.db, family, i);
      }
    }
    assert Covered(t) by {
      forall id | id in after.tokens
        ensures InSome(t.families, id)
      {
        assert InSome(s.families, id);
      }
    }
  }

  lemma AcceptedRequest(db: Db, req: AuthorizeRequest, subject: string, now: int)
    requires ValidateAuthorizationRequest(db, req, subject, now).Ok?
    ensures var code := ValidateAuthorizationRequest(db, req, subject, now).value;
            && code.clientId in db.clients && code.redirectUri in db.clients[code.clientId].redirectUris
            && IsCanonical(code.scope) && code.usedAt.None?
            && req.clientId == Some(code.clientId) && req.redirectUri == Some(code.redirectUri)
            && req.challenge == Some(code.challenge)
            && code.resource == req.expectedResource && code.subject == subject && code.expiresAt == now + CODE_TTL
            && Scopes.ParseScopes(req.scope) == Ok(code.scope)
            && ChallengeMethodOf(req.challengeMethod) == Some(code.challengeMethod)
  {
    hide Scopes.Words, Scopes.Canonical;
  }

  /** What a committed exchange of a code does. */
  lemma ExchangeEffect(db: Db, form: CodeForm, draw: Draw, now: int)
    requires ExchangeAuthorizationCode(db, form, draw, now).1.Ok?
    ensures form.code.Some?
    ensures var c := HashToken(form.code.value);
            && c in db.codes && db.codes[c].usedAt.None? && !Collides(db, draw)
            && ExchangeAuthorizationCode(db, form, draw, now).0 ==
               Db(db.clients, db.codes[c := db.codes[c].(usedAt := Some(now))],
                  db.tokens[draw.rowId := NewToken(draw, db.codes[c].clientId, db.codes[c].subject, db.codes[c].scope,
                                                   db.codes[c].resource, now)])
  {
    hide NewToken, Collides, VerifyPkce, AuthenticateClient;
    var c := HashToken(form.code.value);
    assert Collides(db.(codes := db.codes[c := db.codes[c].(usedAt := Some(now))]), draw) == Collides(db, draw) by {
      SameCollisions(db, db.(codes := db.codes[c := db.codes[c].(usedAt := Some(now))]), draw);
    }
  }

  predicate SameHashes(t: Token, u: Token) {
    t.accessHash == u.accessHash && t.refreshHash == u.refreshHash
  }

  lemma SameCollisions(d: Db, e: Db, draw: Draw)
    requires d.tokens.Keys == e.tokens.Keys
    requires forall id :: id in d.tokens ==> SameHashes(d.tokens[id], e.tokens[id])
    ensures Collides(d, draw) == Collides(e, draw)
  {
    if Collides(d, draw) && draw.rowId !in d.tokens {
      var id :| id in d.tokens && SharesHash(d.tokens[id], draw);
      assert SharesHash(e.tokens[id], draw);
    }
    if Collides(e, draw) && draw.rowId !in e.tokens {
      var id :| id in e.tokens && SharesHash(e.tokens[id], draw);
      assert SharesHash(d.tokens[id], draw);
    }
  }

  /** A fresh token under its own hashes keeps them unique. */
  lemma FreshHashes(db: Db, draw: Draw, token: Token)
    requires UniqueHashes(db) && !Collides(db, draw)
    requires token.accessHash == HashToken(draw.access) && token.refreshHash == HashToken(draw.refresh)
    ensures UniqueHashes(db.(tokens := db.tokens[draw.rowId := token]))
  {
    forall id | id in db.tokens
      ensures db.tokens[id].accessHash != token.accessHash && db.tokens[id].refreshHash != token.refreshHash
    {
      assert !SharesHash(db.tokens[id], draw);
    }
  }

  lemma ExchangeKeepsInv(s: State, form: CodeForm, draw: Draw, now: int)
    requires Inv(s) && ExchangeAuthorizationCode(s.db, form, draw, now).1.Ok?
    ensures Inv(State(Step(s.db, Exchange(form, draw, now)), NextFamilies(s, Exchange(form, draw, now))))
  {
    ExchangeEffect(s.db, form, draw, now);
    hide ExchangeAuthorizationCode;
    FirstTokenKeepsInv(s, HashToken(form.code.value), draw, now);
  }

  function Used(db: Db, hash: Text, draw: Draw, now: int): Db
    requires hash in db.codes
  {
    var code := db.codes[hash];
    Db(db.clients, db.codes[hash := code.(usedAt := Some(now))],
       db.tokens[draw.rowId := NewToken(draw, code.clientId, code.subject, code.scope, code.resource, now)])
  }

  lemma FirstTokenKeepsInv(s: State, hash: Text, draw: Draw, now: int)
    requires Inv(s) && hash in s.db.codes && s.db.codes[hash].usedAt.None? && !Collides(s.db, draw)
    ensures Inv(State(Used(s.db, hash, draw, now), s.families[hash := [draw.rowId]]))
  {
    hide UniqueHashes, Collides, Chains, Apart, CodesOfClients, Covered;
    var code := s.db.codes[hash];
    assert hash !in s.families;
    NoCollision(s.db, draw);
    NotPlaced(s, draw.rowId);
    FreshHashes(s.db, draw, NewToken(draw, code.clientId, code.subject, code.scope, code.resource, now));
    assert Used(s.db, hash, draw, now).tokens ==
           s.db.tokens[draw.rowId := NewToken(draw, code.clientId, code.subject, code.scope, code.resource, now)];
    SameTokensUnique(s.db.(tokens := Used(s.db, hash, draw, now).tokens), Used(s.db, hash, draw, now));
    FirstTokenChains(s, hash, draw, now);
    FirstTokenApart(s.families, hash, draw.rowId);
    FirstTokenCodes(s, hash, draw, now);
    var t := State(Used(s.db, hash, draw, now), s.families[hash := [draw.rowId]]);
    assert draw.rowId in t.families[hash];
    CoverageExtends(s, t, draw.rowId);
  }

  lemma SameTokensUnique(d: Db, e: Db)
    requires UniqueHashes(d) && d.tokens == e.tokens
    ensures UniqueHashes(e)
  {
  }

  lemma FirstTokenChains(s: State, hash: Text, draw: Draw, now: int)
    requires Chains(s) && hash in s.db.codes && hash !in s.families && draw.rowId !in s.db.tokens
    ensures Chains(State(Used(s.db, hash, draw, now), s.families[hash := [draw.rowId]]))
  {
    var after := Used(s.db, hash, draw, now);
    var families := s.families[hash := [draw.rowId]];
    forall c | c in families
      ensures c in after.codes && Chain(after, families[c], after.codes[c])
    {
      if c != hash {
        OldChainStays(s, after, c, draw.rowId);
      }
    }
  }

  lemma FirstTokenApart(families: Families, hash: Text, next: nat)
    requires Apart(families) && hash !in families
    requires forall c, i :: c in families && 0 <= i < |families[c]| ==> families[c][i] != next
    ensures Apart(families[hash := [next]])
  {
  }

  lemma FirstTokenCodes(s: State, hash: Text, draw: Draw, now: int)
    requires UsedExactly(s) && CodesOfClients(s.db) && hash in s.db.codes
    ensures UsedExactly(State(Used(s.db, hash, draw, now), s.families[hash := [draw.rowId]]))
    ensures CodesOfClients(Used(s.db, hash, draw, now))
  {
    hide IsCanonical;
  }

  /** Families hold stored tokens only. */
  lemma NotPlaced(s: State, next: nat)
    requires Chains(s) && next !in s.db.tokens
    ensures forall c, i :: c in s.families && 0 <= i < |s.families[c]| ==> s.families[c][i] != next
  {
    forall c, i | c in s.families && 0 <= i < |s.families[c]|
      ensures s.families[c][i] != next
    {
      assert Linked(s.db, s.families[c], i);
    }
  }

  /** A family untouched by a statement that writes only the row `next`, not yet in the table. */
  lemma OldChainStays(s: State, after: Db, c: Text, next: nat)
    requires Chains(s) && c in s.families && next !in s.db.tokens
    requires c in after.codes && FromSame(s.db.codes[c], after.codes[c])
    requires forall id :: id in s.families[c] && id in s.db.tokens ==>
        id in after.tokens && after.tokens[id] == s.db.tokens[id]
    ensures Chain(after, s.families[c], after.codes[c])
  {
    var family := s.families[c];
    forall i | 0 <= i < |family|
      ensures Linked(after, family, i) && FromCode(after.tokens[family[i]], after.codes[c])
    {
      assert Linked(s.db, family, i);
    }
  }

  predicate FromSame(c: Code, d: Code) {
    c.clientId == d.clientId && c.subject == d.subject && c.scope == d.scope && c.resource == d.resource
  }

  lemma CoverageExtends(s: State, t: State, next: nat)
    requires Covered(s) && t.db.tokens.Keys == s.db.tokens.Keys + {next} && InSome(t.families, next)
    requires forall c :: c in s.families ==> c in t.families && s.families[c] <= t.families[c]
    ensures Covered(t)
  {
    forall id | id in t.db.tokens
      ensures InSome(t.families, id)
    {
      if id != next {
        assert InSome(s.families, id);
        var c :| c in s.families && id in s.families[c];
        assert id in t.families[c];
      }
    }
  }

  // ---- Rotation ----

  /** What a committed rotation does: the row found is spent and linked, its successor added. */
  lemma RefreshEffect(db: Db, form: RefreshForm, draw: Draw, now: int)
    requires ExchangeRefreshToken(db, form, draw, now).1.Ok?
    ensures form.refresh.Some? && AuthenticateClient(db, form.who).Ok?
    ensures RefreshableRows(db, HashToken(form.refresh.value), AuthenticateClient(db, form.who).value, now) != {}
    ensures var id := RefreshedRow(db, form, now);
            && id in db.tokens && db.tokens[id].revokedAt.None? && !Collides(db, draw)
            && ExchangeRefreshToken(db, form, draw, now).0 == db.(tokens := Rotated(db.tokens, id, draw, now))
  {
    RotateEffect(db, RefreshedRow(db, form, now), draw, now);
    hide Rotate, AuthenticateClient, RefreshableRows, Collides, Rotated;
  }

  function Rotated(tokens: map<nat, Token>, id: nat, draw: Draw, now: int): map<nat, Token>
    requires id in tokens
  {
    var row := tokens[id];
    tokens[id := row.(revokedAt := Some(now), rotatedAt := Some(now), replacedBy := Some(draw.rowId))]
          [draw.rowId := NewToken(draw, row.clientId, row.subject, row.scope, row.resource, now)]
  }

  lemma RotateEffect(db: Db, id: nat, draw: Draw, now: int)
    requires id in db.tokens && Rotate(db, id, draw, now).Ok?
    ensures !Collides(db, draw) && Rotate(db, id, draw, now).value == db.(tokens := Rotated(db.tokens, id, draw, now))
  {
    hide Collides, NewToken;
    var row := db.tokens[id];
    var revoked := db.(tokens := db.tokens[id := row.(revokedAt := Some(now), rotatedAt := Some(now))]);
    SameCollisions(db, revoked, draw);
    assert draw.rowId !in db.tokens by {
      NoCollision(db, draw);
    }
    assert Rotate(db, id, draw, now).value.tokens == Rotated(db.tokens, id, draw, now);
  }

  lemma NoCollision(db: Db, draw: Draw)
    requires !Collides(db, draw)
    ensures draw.rowId !in db.tokens
  {
  }

  /** Where a token sits. */
  lemma PlaceOf(s: State, id: nat) returns (c: Text, i: nat)
    requires Inv(s) && id in s.db.tokens
    ensures c in s.families && i < |s.families[c]| && s.families[c][i] == id && Linked(s.db, s.families[c], i)
  {
    hide CodesOfClients, UniqueHashes, UsedExactly, Apart;
    assert InSome(s.families, id);
    c :| c in s.families && id in s.families[c];
    i :| 0 <= i < |s.families[c]| && s.families[c][i] == id;
    assert Chain(s.db, s.families[c], s.db.codes[c]);
  }

  lemma RefreshKeepsInv(s: State, form: RefreshForm, draw: Draw, now: int)
    requires Inv(s) && ExchangeRefreshToken(s.db, form, draw, now).1.Ok?
    ensures Inv(State(ExchangeRefreshToken(s.db, form, draw, now).0, RefreshedFamilies(s, form, draw, now)))
  {
    hide Inv, ExchangeRefreshToken, Rotated, Extended, AuthenticateClient, Refreshable, RefreshableRows;
    hide Collides, RefreshedRow;
    RefreshEffect(s.db, form, draw, now);
    RotationKeepsInv(s, RefreshedRow(s.db, form, now), draw, now);
  }

  lemma RotatedHashes(db: Db, id: nat, draw: Draw, now: int)
    requires UniqueHashes(db) && id in db.tokens && !Collides(db, draw)
    ensures UniqueHashes(db.(tokens := Rotated(db.tokens, id, draw, now)))
  {
    var row := db.tokens[id];
    var spent := row.(revokedAt := Some(now), rotatedAt := Some(now), replacedBy := Some(draw.rowId));
    var d := db.(tokens := db.tokens[id := spent]);
    assert UniqueHashes(d);
    SameCollisions(db, d, draw);
    FreshHashes(d, draw, NewToken(draw, row.clientId, row.subject, row.scope, row.resource, now));
  }

  /** An unrevoked token is the last of its family, so its successor goes right behind it. */
  lemma ExtendedFamily(s: State, id: nat, c: Text, i: nat, draw: Draw, now: int)
    requires Chains(s) && Apart(s.families) && c in s.families && i < |s.families[c]| && s.families[c][i] == id
    requires id in s.db.tokens && s.db.tokens[id].revokedAt.None? && draw.rowId !in s.db.tokens
    ensures i == |s.families[c]| - 1
    ensures var after := s.db.(tokens := Rotated(s.db.tokens, id, draw, now));
            Chain(after, s.families[c] + [draw.rowId], s.db.codes[c])
  {
    var after := s.db.(tokens := Rotated(s.db.tokens, id, draw, now));
    var family := s.families[c];
    var longer := family + [draw.rowId];
    assert Chain(s.db, family, s.db.codes[c]) && Linked(s.db, family, i);
    forall k | 0 <= k < |longer|
      ensures Linked(after, longer, k) && FromCode(after.tokens[longer[k]], s.db.codes[c])
    {
      if k < |family| {
        assert Linked(s.db, family, k) && FromCode(s.db.tokens[family[k]], s.db.codes[c]);
        if k < i {
          assert family[k] != id;
        }
      } else {
        assert FromCode(s.db.tokens[id], s.db.codes[c]);
      }
    }
  }

  lemma AppendApart(families: Families, c: Text, next: nat)
    requires Apart(families) && c in families
    requires forall d, i :: d in families && 0 <= i < |families[d]| ==> families[d][i] != next
    ensures Apart(families[c := families[c] + [next]])
  {
    var longer := families[c := families[c] + [next]];
    forall d, e, i, j | d in longer && e in longer && 0 <= i < |longer[d]| && 0 <= j < |longer[e]| &&
        longer[d][i] == longer[e][j]
      ensures d == e && i == j
    {
      if longer[d][i] != next {
        assert families[d][i] == families[e][j];
      }
    }
  }

  lemma ExtendedApart(s: State, id: nat, c: Text, next: nat)
    requires Chains(s) && Apart(s.families) && c in s.families && id in s.families[c] && next !in s.db.tokens
    ensures Apart(Extended(s.families, id, next))
    ensures forall d :: d in s.families && d != c ==> id !in s.families[d]
  {
    NotPlaced(s, next);
    AppendApart(s.families, c, next);
    hide Chains;
    forall d | d in s.families && id in s.families[d]
      ensures d == c
    {
      var i :| 0 <= i < |s.families[c]| && s.families[c][i] == id;
      var j :| 0 <= j < |s.families[d]| && s.families[d][j] == id;
    }
    hide Apart;
    assert Extended(s.families, id, next) == s.families[c := s.families[c] + [next]];
  }

  lemma RotationKeepsInv(s: State, id: nat, draw: Draw, now: int)
    requires Inv(s) && id in s.db.tokens && s.db.tokens[id].revokedAt.None? && !Collides(s.db, draw)
    ensures Inv(State(s.db.(tokens := Rotated(s.db.tokens, id, draw, now)), Extended(s.families, id, draw.rowId)))
  {
    hide UniqueHashes, Collides, Apart, Chains, Covered, UsedExactly, CodesOfClients;
    var c, i := PlaceOf(s, id);
    NoCollision(s.db, draw);
    RotatedHashes(s.db, id, draw, now);
    ExtendedApart(s, id, c, draw.rowId);
    RotationChains(s, id, c, i, draw, now);
    RotationCodes(s, id, draw, now);
    var t := State(s.db.(tokens := Rotated(s.db.tokens, id, draw, now)), Extended(s.families, id, draw.rowId));
    assert draw.rowId in t.families[c];
    CoverageExtends(s, t, draw.rowId);
  }

  lemma RotationChains(s: State, id: nat, c: Text, i: nat, draw: Draw, now: int)
    requires Chains(s) && Apart(s.families) && c in s.families && i < |s.families[c]| && s.families[c][i] == id
    requires id in s.db.tokens && s.db.tokens[id].revokedAt.None? && draw.rowId !in s.db.tokens
    requires forall d :: d in s.families && d != c ==> id !in s.families[d]
    ensures Chains(State(s.db.(tokens := Rotated(s.db.tokens, id, draw, now)), Extended(s.families, id, draw.rowId)))
  {
    hide Apart, Chain, Linked;
    var after := s.db.(tokens := Rotated(s.db.tokens, id, draw, now));
    var families := Extended(s.families, id, draw.rowId);
    forall d | d in families
      ensures d in after.codes && Chain(after, families[d], after.codes[d])
    {
      if d == c {
        ExtendedFamily(s, id, c, i, draw, now);
      } else {
        OldChainStays(s, after, d, draw.rowId);
      }
    }
  }

  lemma RotationCodes(s: State, id: nat, draw: Draw, now: int)
    requires UsedExactly(s) && CodesOfClients(s.db) && id in s.db.tokens
    ensures UsedExactly(State(s.db.(tokens := Rotated(s.db.tokens, id, draw, now)),
        Extended(s.families, id, draw.rowId)))
    ensures CodesOfClients(s.db.(tokens := Rotated(s.db.tokens, id, draw, now)))
  {
    hide IsCanonical, Rotated;
  }

  lemma RegisterKeepsInv(s: State, clientId: string, client: Client)
    requires Inv(s)
    ensures Inv(State(Register(s.db, clientId, client), s.families))
  {
    var after := Register(s.db, clientId, client);
    assert CodesOfClients(after) by {
      hide IsCanonical, Chains, Apart, Covered, UniqueHashes, UsedExactly;
    }
    hide Inv, CodesOfClients;
    AddingKeepsInv(s, after);
  }

  lemma NewCodeAdds(db: Db, hash: Text, code: Code)
    requires CodesOfClients(db) && hash !in db.codes && code.usedAt.None? && IsCanonical(code.scope)
    requires code.clientId in db.clients && code.redirectUri in db.clients[code.clientId].redirectUris
    ensures OnlyAdds(db, db.(codes := db.codes[hash := code])) && CodesOfClients(db.(codes := db.codes[hash := code]))
  {
    hide IsCanonical;
  }

  lemma CreateAdds(db: Db, req: AuthorizeRequest, subject: string, code: Text, now: int)
    requires CodesOfClients(db)
    ensures OnlyAdds(db, Authorize(db, req, subject, code, now).0)
    ensures CodesOfClients(Authorize(db, req, subject, code, now).0)
  {
    hide ValidateAuthorizationRequest, CodesOfClients, IsCanonical;
    var row := ValidateAuthorizationRequest(db, req, subject, now);
    if row.Ok? && HashToken(code) !in db.codes {
      AcceptedRequest(db, req, subject, now);
      NewCodeAdds(db, HashToken(code), row.value);
    }
  }

  lemma CreateKeepsInv(s: State, req: AuthorizeRequest, subject: string, code: Text, now: int)
    requires Inv(s)
    ensures Inv(State(Authorize(s.db, req, subject, code, now).0, s.families))
  {
    hide Authorize, CodesOfClients, Apart, Covered, UniqueHashes, UsedExactly, Chains, OnlyAdds;
    CreateAdds(s.db, req, subject, code, now);
    AddingKeepsInv(s, Authorize(s.db, req, subject, code, now).0);
  }

  lemma ExchangeStep(s: State, form: CodeForm, draw: Draw, now: int)
    requires Inv(s)
    ensures Inv(State(Step(s.db, Exchange(form, draw, now)), NextFamilies(s, Exchange(form, draw, now))))
  {
    hide Inv, ExchangeRefreshToken, ExchangeAuthorizationCode;
    if ExchangeAuthorizationCode(s.db, form, draw, now).1.Ok? {
      ExchangeKeepsInv(s, form, draw, now);
    } else {
      RefusedExchangeChangesNothing(s.db, form, draw, now);
    }
  }

  lemma RefreshStep(s: State, form: RefreshForm, draw: Draw, now: int)
    requires Inv(s)
    ensures Inv(State(ExchangeRefreshToken(s.db, form, draw, now).0, RefreshedFamilies(s, form, draw, now)))
  {
    hide Inv, ExchangeRefreshToken;
    if ExchangeRefreshToken(s.db, form, draw, now).1.Ok? {
      RefreshKeepsInv(s, form, draw, now);
    } else {
      RefusedRefreshChangesNothing(s.db, form, draw, now);
    }
  }

  lemma RefusedRefreshChangesNothing(db: Db, form: RefreshForm, draw: Draw, now: int)
    requires ExchangeRefreshToken(db, form, draw, now).1.Err?
    ensures ExchangeRefreshToken(db, form, draw, now).0 == db
  {
    hide Rotate, RefreshableRows, AuthenticateClient;
  }

  lemma RevokeIfOnlyRevokes(token: Token, hit: bool, now: int)
    ensures SameOrRevoked(token, RevokeIf(token, hit, now))
  {
  }

  lemma AccessRevokesOnly(db: Db, hash: Text, now: int)
    ensures OnlyRevokes(db, RevokeByAccess(db, hash, now))
  {
    hide RevokeIf, SameOrRevoked;
    forall id | id in db.tokens
      ensures SameOrRevoked(db.tokens[id], RevokeByAccess(db, hash, now).tokens[id])
    {
      RevokeIfOnlyRevokes(db.tokens[id], db.tokens[id].accessHash == hash, now);
    }
  }

  lemma RefreshRevokesOnly(db: Db, hash: Text, now: int)
    ensures OnlyRevokes(db, RevokeByRefresh(db, hash, now))
  {
    hide RevokeIf, SameOrRevoked;
    forall id | id in db.tokens
      ensures SameOrRevoked(db.tokens[id], RevokeByRefresh(db, hash, now).tokens[id])
    {
      RevokeIfOnlyRevokes(db.tokens[id], db.tokens[id].refreshHash == hash, now);
    }
  }

  lemma TouchRevokesOnly(db: Db, id: nat, now: int)
    ensures OnlyRevokes(db, Touch(db, id, now))
  {
  }

  lemma RevokesOnly(db: Db, hash: Text, id: nat, now: int)
    ensures OnlyRevokes(db, RevokeByAccess(db, hash, now))
    ensures OnlyRevokes(db, RevokeByRefresh(db, hash, now))
    ensures OnlyRevokes(db, Touch(db, id, now))
  {
    hide *;
    AccessRevokesOnly(db, hash, now);
    RefreshRevokesOnly(db, hash, now);
    TouchRevokesOnly(db, id, now);
  }

  lemma RevokeStep(s: State, hash: Text, id: nat, now: int)
    requires Inv(s)
    ensures Inv(State(RevokeByAccess(s.db, hash, now), s.families))
    ensures Inv(State(RevokeByRefresh(s.db, hash, now), s.families))
    ensures Inv(State(Touch(s.db, id, now), s.families))
  {
    RevokesOnly(s.db, hash, id, now);
    hide Inv, OnlyRevokes, RevokeByAccess, RevokeByRefresh, Touch;
    RevokingKeepsInv(s, RevokeByAccess(s.db, hash, now));
    RevokingKeepsInv(s, RevokeByRefresh(s.db, hash, now));
    RevokingKeepsInv(s, Touch(s.db, id, now));
  }

  /** Every transaction keeps the invariant. */
  lemma StepKeepsInv(s: State, tx: Tx)
    requires Inv(s)
    ensures Inv(State(Step(s.db, tx), NextFamilies(s, tx)))
  {
    hide Inv, Register, Authorize, ExchangeAuthorizationCode, ExchangeRefreshToken, RefreshedFamilies;
    hide RevokeByAccess, RevokeByRefresh, Touch;
    match tx
    case RegisterClient(clientId, client) => RegisterKeepsInv(s, clientId, client);
    case CreateCode(req, subject, code, now) => CreateKeepsInv(s, req, subject, code, now);
    case Exchange(form, draw, now) => ExchangeStep(s, form, draw, now);
    case Refresh(form, draw, now) => RefreshStep(s, form, draw, now);
    case RevokeAccess(hash, now) => RevokeStep(s, hash, 0, now);
    case RevokeRefresh(hash, now) => RevokeStep(s, hash, 0, now);
    case TouchRow(id, now) => RevokeStep(s, Raw(""), id, now);
  }

  lemma RefusedExchangeChangesNothing(db: Db, form: CodeForm, draw: Draw, now: int)
    requires ExchangeAuthorizationCode(db, form, draw, now).1.Err?
    ensures ExchangeAuthorizationCode(db, form, draw, now).0 == db
  {
  }

  lemma {:induction false} FamiliesHold(txs: seq<Tx>)
    ensures Inv(After(txs))
    decreases |txs|
  {
    if txs != [] {
      var s := After(txs[..|txs| - 1]);
      FamiliesHold(txs[..|txs| - 1]);
      StepKeepsInv(s, txs[|txs| - 1]);
      hide Inv, Step, NextFamilies;
      assert After(txs) == State(Step(s.db, txs[|txs| - 1]), NextFamilies(s, txs[|txs| - 1]));
    }
  }
}
