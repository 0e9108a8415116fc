/** What holds between any two moments of a run of grant transactions. */
module OAuthGrants {
  import opened Common
  import opened OAuth
  import opened OAuthFamilies
  import Scopes

  /** Nothing issued, linked, revoked or used is ever undone. */
  predicate Later(s: State, t: State) {
    && (forall k :: k in s.db.clients ==> k in t.db.clients && t.db.clients[k] == s.db.clients[k])
    && (forall c :: c in s.families ==> c in t.families && s.families[c] <= t.families[c])
    && (forall id :: id in s.db.tokens ==> id in t.db.tokens && StillIssued(s.db.tokens[id], t.db.tokens[id]))
    && (forall c :: c in s.db.codes ==> c in t.db.codes && StillGranted(s.db.codes[c], t.db.codes[c]))
  }

  predicate StillIssued(t: Token, u: Token) {
    && SameHashes(t, u)
    && u.clientId == t.clientId && u.subject == t.subject && u.scope == t.scope && u.resource == t.resource
    && (t.revokedAt.Some? ==> u.revokedAt.Some?)
    && (t.replacedBy.Some? ==> u.replacedBy == t.replacedBy)
  }

  predicate StillGranted(c: Code, d: Code) {
    d.(usedAt := c.usedAt) == c && (c.usedAt.Some? ==> d.usedAt == c.usedAt)
  }

  lemma LaterTransitive(s: State, t: State, u: State)
    requires Later(s, t) && Later(t, u)
    ensures Later(s, u)
  {
    forall c | c in s.families
      ensures c in u.families && s.families[c] <= u.families[c]
    {
      assert s.families[c] <= t.families[c] <= u.families[c];
    }
  }

  lemma RevokingIsLater(s: State, after: Db)
    requires OnlyRevokes(s.db, after)
    ensures Later(s, State(after, s.families))
  {
    forall id | id in s.db.tokens
      ensures StillIssued(s.db.tokens[id], after.tokens[id])
    {
      assert SameOrRevoked(s.db.tokens[id], after.tokens[id]);
    }
  }

  lemma FirstTokenIsLater(s: State, hash: Text, draw: Draw, now: int)
    requires hash in s.db.codes && s.db.codes[hash].usedAt.None? && hash !in s.families && draw.rowId !in s.db.tokens
    ensures Later(s, State(Used(s.db, hash, draw, now), s.families[hash := [draw.rowId]]))
  {
  }

  lemma ExchangeIsLater(s: State, form: CodeForm, draw: Draw, now: int)
    requires Inv(s)
    ensures Later(s, State(Step(s.db, Exchange(form, draw, now)), NextFamilies(s, Exchange(form, draw, now))))
  {
    hide ExchangeAuthorizationCode, Chains, Apart, Covered, CodesOfClients, UniqueHashes, Later;
    if ExchangeAuthorizationCode(s.db, form, draw, now).1.Ok? {
      ExchangeEffect(s.db, form, draw, now);
      NoCollision(s.db, draw);
      FirstTokenIsLater(s, HashToken(form.code.value), draw, now);
    } else {
      RefusedExchangeChangesNothing(s.db, form, draw, now);
      SameIsLater(s);
    }
  }

  lemma RotationIsLater(s: State, id: nat, draw: Draw, now: int)
    requires Inv(s) && id in s.db.tokens && s.db.tokens[id].revokedAt.None? && !Collides(s.db, draw)
    ensures Later(s, State(s.db.(tokens := Rotated(s.db.tokens, id, draw, now)), Extended(s.families, id, draw.rowId)))
  {
    hide UniqueHashes, CodesOfClients, UsedExactly, Apart, Covered, Collides, Chain;
    NoCollision(s.db, draw);
    var c, i := PlaceOf(s, id);
    assert s.db.tokens[id].replacedBy.None?;
  }

  lemma RefreshIsLater(s: State, form: RefreshForm, draw: Draw, now: int)
    requires Inv(s)
    ensures Later(s, State(ExchangeRefreshToken(s.db, form, draw, now).0, RefreshedFamilies(s, form, draw, now)))
  {
    hide Inv, ExchangeRefreshToken, Rotated, Extended, AuthenticateClient, Refreshable, RefreshableRows;
    hide Collides, RefreshedRow, Later;
    if ExchangeRefreshToken(s.db, form, draw, now).1.Ok? {
      RefreshEffect(s.db, form, draw, now);
      RotationIsLater(s, RefreshedRow(s.db, form, now), draw, now);
    } else {
      RefusedRefreshChangesNothing(s.db, form, draw, now);
      SameIsLater(s);
    }
  }

  lemma SameIsLater(s: State)
    ensures Later(s, s)
  {
  }

  lemma AddingIsLater(s: State, after: Db)
    requires OnlyAdds(s.db, after)
    ensures Later(s, State(after, s.families))
  {
  }

  lemma StepIsLater(s: State, tx: Tx)
    requires Inv(s)
    ensures Later(s, State(Step(s.db, tx), NextFamilies(s, tx)))
  {
    hide Register, Authorize, ExchangeAuthorizationCode, ExchangeRefreshToken, RefreshedFamilies, OnlyRevokes;
    hide OnlyAdds, Later;
    hide RevokeByAccess, RevokeByRefresh, Touch, UniqueHashes, UsedExactly, Apart, Covered, Chains;
    match tx
    case RegisterClient(clientId, client) =>
      RegisterAdds(s.db, clientId, client);
      AddingIsLater(s, Register(s.db, clientId, client));
    case CreateCode(req, subject, code, now) =>
      CreateAdds(s.db, req, subject, code, now);
      AddingIsLater(s, Authorize(s.db, req, subject, code, now).0);
    case Exchange(form, draw, now) => ExchangeIsLater(s, form, draw, now);
    case Refresh(form, draw, now) => RefreshIsLater(s, form, draw, now);
    case RevokeAccess(hash, now) =>
      RevokesOnly(s.db, hash, 0, now);
      RevokingIsLater(s, RevokeByAccess(s.db, hash, now));
    case RevokeRefresh(hash, now) =>
      RevokesOnly(s.db, hash, 0, now);
      RevokingIsLater(s, RevokeByRefresh(s.db, hash, now));
    case TouchRow(id, now) =>
      RevokesOnly(s.db, Raw(""), id, now);
      RevokingIsLater(s, Touch(s.db, id, now));
  }

  lemma RegisterAdds(db: Db, clientId: string, client: Client)
    ensures OnlyAdds(db, Register(db, clientId, client))
  {
  }

  lemma SnocStep(txs: seq<Tx>, tx: Tx)
    ensures var s := After(txs);
            After(txs + [tx]) == State(Step(s.db, tx), NextFamilies(s, tx))
  {
    hide Step, NextFamilies;
    assert (txs + [tx])[..|txs|] == txs;
  }

  /** Revoked tokens stay revoked, links and families only grow, used codes stay used: over any continuation. */
  lemma {:induction false} NothingIsUndone(txs: seq<Tx>, more: seq<Tx>)
    ensures Later(After(txs), After(txs + more))
    decreases |more|
  {
    hide Later, Step, NextFamilies, Inv;
    if more == [] {
      assert txs + more == txs;
      SameIsLater(After(txs));
    } else {
      var init, last := more[..|more| - 1], more[|more| - 1];
      NothingIsUndone(txs, init);
      FamiliesHold(txs + init);
      StepIsLater(After(txs + init), last);
      SnocStep(txs + init, last);
      assert txs + more == txs + init + [last];
      LaterTransitive(After(txs), After(txs + init), After(txs + more));
    }
  }

  // ---- One first token per code ----

  /** Transaction i of the run exchanged the code with this hash. */
  ghost predicate Exchanged(txs: seq<Tx>, i: nat, c: Text)
    requires i < |txs|
  {
    && txs[i].Exchange?
    && ExchangeAuthorizationCode(After(txs[..i]).db, txs[i].codeForm, txs[i].draw, txs[i].now).1.Ok?
    && HashToken(txs[i].codeForm.code.value) == c
  }

  lemma ExchangedMarks(txs: seq<Tx>, i: nat, c: Text)
    requires i < |txs| && Exchanged(txs, i, c)
    ensures c !in After(txs[..i]).families && c in After(txs[..i + 1]).families
    ensures After(txs[..i + 1]).families[c] == [txs[i].draw.rowId]
  {
    var before := txs[..i];
    FamiliesHold(before);
    ExchangeEffect(After(before).db, txs[i].codeForm, txs[i].draw, txs[i].now);
    assert txs[..i + 1] == before + [txs[i]];
    SnocStep(before, txs[i]);
    hide ExchangeAuthorizationCode, Step, Chains, Apart, Covered, CodesOfClients, UniqueHashes;
  }

  lemma FamiliesOnlyGrow(txs: seq<Tx>, i: nat, j: nat, c: Text)
    requires i <= j <= |txs| && c in After(txs[..i]).families
    ensures c in After(txs[..j]).families && After(txs[..i]).families[c] <= After(txs[..j]).families[c]
  {
    NothingIsUndone(txs[..i], txs[i..j]);
    assert txs[..i] + txs[i..j] == txs[..j];
  }

  lemma OneFirstToken(txs: seq<Tx>, i: nat, j: nat, c: Text)
    requires i < |txs| && j < |txs| && Exchanged(txs, i, c) && Exchanged(txs, j, c)
    ensures i == j
  {
    hide Exchanged;
    ExchangedMarks(txs, i, c);
    ExchangedMarks(txs, j, c);
    if i < j {
      FamiliesOnlyGrow(txs, i + 1, j, c);
    } else if j < i {
      FamiliesOnlyGrow(txs, j + 1, i, c);
    }
  }

  /** A code has a family, and is marked used, exactly when one transaction of the run exchanged it. */
  lemma {:induction false} UsedIffExchanged(txs: seq<Tx>, c: Text)
    ensures var s := After(txs);
            c in s.db.codes && s.db.codes[c].usedAt.Some? <==> exists i: nat :: i < |txs| && Exchanged(txs, i, c)
    ensures forall i: nat :: i < |txs| && Exchanged(txs, i, c) ==>
              c in After(txs).families && [txs[i].draw.rowId] <= After(txs).families[c]
    decreases |txs|
  {
    FamiliesHold(txs);
    hide Chains, Apart, Covered, CodesOfClients, UniqueHashes;
    forall i: nat | i < |txs| && Exchanged(txs, i, c)
      ensures c in After(txs).families && [txs[i].draw.rowId] <= After(txs).families[c]
    {
      ExchangedMarks(txs, i, c);
      FamiliesOnlyGrow(txs, i + 1, |txs|, c);
      assert txs[..|txs|] == txs;
    }
    if c in After(txs).families {
      var i := ExchangeOf(txs, c);
    }
  }

  lemma {:induction false} ExchangeOf(txs: seq<Tx>, c: Text) returns (i: nat)
    requires c in After(txs).families
    ensures i < |txs| && Exchanged(txs, i, c)
    decreases |txs|
  {
    var n := |txs| - 1;
    var s := After(txs[..n]);
    hide ExchangeAuthorizationCode, ExchangeRefreshToken, Step;
    if c in s.families {
      i := ExchangeOf(txs[..n], c);
      assert txs[..n][..i] == txs[..i];
    } else {
      i := n;
    }
  }

  // ---- The shape of a family ----

  predicate AllRevoked(db: Db, family: seq<nat>) {
    forall id :: id in family ==> id in db.tokens && db.tokens[id].revokedAt.Some?
  }

  predicate OnlyPlace(families: Families, c: Text, i: nat)
    requires c in families && i < |families[c]|
  {
    forall d, j :: d in families && 0 <= j < |families[d]| && families[d][j] == families[c][i] ==> d == c && j == i
  }

  /** After any run, a code's tokens form one chain: each spent token names its successor, only the last may be
      unrevoked, all carry the code's client, subject, scope and resource, and no token has another place. */
  lemma FamilyIsLinear(txs: seq<Tx>, c: Text, i: nat)
    requires c in After(txs).families && i < |After(txs).families[c]|
    ensures var db := After(txs).db;
            var family := After(txs).families[c];
            && c in db.codes && family[i] in db.tokens && FromCode(db.tokens[family[i]], db.codes[c])
            && db.tokens[family[i]].replacedBy == (if i + 1 < |family| then Some(family[i + 1]) else None)
            && (db.tokens[family[i]].revokedAt.None? ==> i == |family| - 1)
            && OnlyPlace(After(txs).families, c, i)
  {
    FamiliesHold(txs);
    hide Covered, CodesOfClients, UniqueHashes, UsedExactly;
    assert Linked(After(txs).db, After(txs).families[c], i);
  }

  /** A path along the stored links. */
  predicate LinkPath(db: Db, path: seq<nat>) {
    && (forall k :: 0 <= k < |path| ==> path[k] in db.tokens)
    && forall k :: 0 <= k < |path| - 1 ==> db.tokens[path[k]].replacedBy == Some(path[k + 1])
  }

  lemma LinkedAt(s: State, c: Text, i: nat)
    requires Inv(s) && c in s.families && i < |s.families[c]|
    ensures Linked(s.db, s.families[c], i)
  {
    hide Covered, CodesOfClients, UniqueHashes, UsedExactly, Apart;
  }

  lemma {:induction false} PathFollowsFamily(s: State, path: seq<nat>, c: Text, i: nat)
    requires Inv(s) && LinkPath(s.db, path) && path != []
    requires c in s.families && i < |s.families[c]| && s.families[c][i] == path[0]
    ensures i + |path| <= |s.families[c]|
    ensures forall k :: 0 <= k < |path| ==> path[k] == s.families[c][i + k]
    decreases |path|
  {
    hide Inv;
    LinkedAt(s, c, i);
    if |path| > 1 {
      assert s.db.tokens[path[0]].replacedBy == Some(path[0 + 1]);
      assert s.families[c][i + 1] == path[1];
      assert LinkPath(s.db, path[1..]);
      PathFollowsFamily(s, path[1..], c, i + 1);
      forall k | 0 <= k < |path|
        ensures path[k] == s.families[c][i + k]
      {
        if k > 0 {
          assert path[1..][k - 1] == s.families[c][i + 1 + (k - 1)];
        }
      }
    }
  }

  /** Following stored links never comes back, and from a family's first token reaches that family only. */
  lemma LinksAreAcyclic(txs: seq<Tx>, path: seq<nat>)
    requires LinkPath(After(txs).db, path) && |path| > 1
    ensures path[0] != path[|path| - 1]
  {
    FamiliesHold(txs);
    hide CodesOfClients, UniqueHashes, UsedExactly, Covered, Chains;
    var s := After(txs);
    var c, i := PlaceOf(s, path[0]);
    PathFollowsFamily(s, path, c, i);
    assert path[|path| - 1] == s.families[c][i + |path| - 1];
  }

  // ---- Dead families ----

  lemma RotationNeedsLive(s: State, c: Text, id: nat, next: nat)
    requires c in s.families && AllRevoked(s.db, s.families[c]) && id in s.db.tokens && s.db.tokens[id].revokedAt.None?
    ensures c in Extended(s.families, id, next) && Extended(s.families, id, next)[c] == s.families[c]
  {
  }

  lemma DeadStep(s: State, tx: Tx, c: Text)
    requires Inv(s) && c in s.families && AllRevoked(s.db, s.families[c])
    ensures c in NextFamilies(s, tx) && NextFamilies(s, tx)[c] == s.families[c]
  {
    hide ExchangeAuthorizationCode, ExchangeRefreshToken, Chains, Apart, Covered, CodesOfClients;
    hide UniqueHashes, AllRevoked;
    hide AuthenticateClient, Refreshable, RefreshableRows, Collides, RefreshedRow, Rotated, Extended;
    match tx
    case Exchange(form, draw, now) =>
      if ExchangeAuthorizationCode(s.db, form, draw, now).1.Ok? {
        ExchangeEffect(s.db, form, draw, now);
        assert HashToken(form.code.value) !in s.families;
      }
    case Refresh(form, draw, now) =>
      if ExchangeRefreshToken(s.db, form, draw, now).1.Ok? {
        RefreshEffect(s.db, form, draw, now);
        RotationNeedsLive(s, c, RefreshedRow(s.db, form, now), draw.rowId);
      }
    case _ =>
  }

  /** Once every token of a family is revoked, no later transaction adds to it or revives one of them. */
  lemma {:induction false} DeadFamilyIsFinal(txs: seq<Tx>, more: seq<Tx>, c: Text)
    requires c in After(txs).families && AllRevoked(After(txs).db, After(txs).families[c])
    ensures c in After(txs + more).families && After(txs + more).families[c] == After(txs).families[c]
    ensures AllRevoked(After(txs + more).db, After(txs).families[c])
    decreases |more|
  {
    hide Step, NextFamilies, Inv;
    NothingIsUndone(txs, more);
    if more == [] {
      assert txs + more == txs;
    } else {
      var init, last := more[..|more| - 1], more[|more| - 1];
      DeadFamilyIsFinal(txs, init, c);
      FamiliesHold(txs + init);
      DeadStep(After(txs + init), last, c);
      SnocStep(txs + init, last);
      assert txs + more == txs + init + [last];
    }
  }

  // ---- Replays ----

  /** A token whose row is revoked is refused: the hash finds no other row. */
  lemma RevokedIsRefused(db: Db, id: nat, form: RefreshForm, draw: Draw, now: int)
    requires UniqueHashes(db) && id in db.tokens && db.tokens[id].revokedAt.Some?
    requires form.refresh.Some? && db.tokens[id].refreshHash == HashToken(form.refresh.value)
    ensures ExchangeRefreshToken(db, form, draw, now).1.Err? && ExchangeRefreshToken(db, form, draw, now).0 == db
  {
    forall clientId
      ensures RefreshableRows(db, HashToken(form.refresh.value), clientId, now) == {}
    {
      forall k | k in db.tokens
        ensures !Refreshable(db.tokens[k], HashToken(form.refresh.value), clientId, now)
      {
        if db.tokens[k].refreshHash == HashToken(form.refresh.value) {
          assert k == id;
        }
      }
    }
    hide UniqueHashes, RefreshableRows, Refreshable, AuthenticateClient, Rotate;
  }

  /** A refresh token that was rotated once is refused ever after and its second use changes nothing. */
  lemma ReplayedRefreshIsRefused(
    txs: seq<Tx>, form: RefreshForm, draw: Draw, now: int, more: seq<Tx>, replay: RefreshForm, draw2: Draw, later: int)
    requires ExchangeRefreshToken(After(txs).db, form, draw, now).1.Ok? && replay.refresh == form.refresh
    ensures var db := After(txs + [Refresh(form, draw, now)] + more).db;
            ExchangeRefreshToken(db, replay, draw2, later).1.Err? &&
                ExchangeRefreshToken(db, replay, draw2, later).0 == db
  {
    hide *;
    var s := After(txs);
    var spent := txs + [Refresh(form, draw, now)];
    var id := SpentRow(txs, form, draw, now);
    NothingIsUndone(spent, more);
    LaterKeepsSpent(After(spent), After(spent + more), id);
    HoldUnique(spent + more);
    RevokedIsRefused(After(spent + more).db, id, replay, draw2, later);
  }

  lemma HoldUnique(txs: seq<Tx>)
    ensures UniqueHashes(After(txs).db)
  {
    FamiliesHold(txs);
    hide Chains, Apart, Covered, CodesOfClients, UniqueHashes, UsedExactly;
  }

  lemma LaterKeepsSpent(s: State, t: State, id: nat)
    requires Later(s, t) && id in s.db.tokens && s.db.tokens[id].revokedAt.Some?
    ensures id in t.db.tokens && t.db.tokens[id].revokedAt.Some? &&
        t.db.tokens[id].refreshHash == s.db.tokens[id].refreshHash
  {
  }

  lemma SpentRow(txs: seq<Tx>, form: RefreshForm, draw: Draw, now: int) returns (id: nat)
    requires ExchangeRefreshToken(After(txs).db, form, draw, now).1.Ok?
    ensures form.refresh.Some?
    ensures var db := After(txs + [Refresh(form, draw, now)]).db;
            id in db.tokens && db.tokens[id].revokedAt.Some? &&
                db.tokens[id].refreshHash == HashToken(form.refresh.value)
  {
    hide ExchangeRefreshToken, AuthenticateClient, RefreshableRows, Collides, NextFamilies;
    var db := After(txs).db;
    RefreshEffect(db, form, draw, now);
    id := RefreshedRow(db, form, now);
    NoCollision(db, draw);
    SnocStep(txs, Refresh(form, draw, now));
  }

  /** A code exchanged once is refused ever after. */
  lemma ReplayedCodeIsRefused(
    txs: seq<Tx>, form: CodeForm, draw: Draw, now: int, more: seq<Tx>, replay: CodeForm, draw2: Draw, later: int)
    requires ExchangeAuthorizationCode(After(txs).db, form, draw, now).1.Ok? && replay.code == form.code
    ensures var db := After(txs + [Exchange(form, draw, now)] + more).db;
            && ExchangeAuthorizationCode(db, replay, draw2, later).1.Err?
            && ExchangeAuthorizationCode(db, replay, draw2, later).0 == db
  {
    hide ExchangeAuthorizationCode, Step, NextFamilies, Inv;
    var run := txs + [Exchange(form, draw, now)] + more + [Exchange(replay, draw2, later)];
    var n := |txs| + 1 + |more|;
    assert run[..|txs|] == txs && run[..n] == txs + [Exchange(form, draw, now)] + more;
    if ExchangeAuthorizationCode(After(run[..n]).db, replay, draw2, later).1.Ok? {
      ExchangeEffect(After(txs).db, form, draw, now);
      OneFirstToken(run, |txs|, n, HashToken(form.code.value));
    } else {
      RefusedExchangeChangesNothing(After(run[..n]).db, replay, draw2, later);
    }
  }

  /** Proof key: a code issued under the S256 challenge of a verifier is exchanged with that verifier only. */
  lemma OnlyTheVerifierExchanges(db: Db, form: CodeForm, draw: Draw, now: int, verifier: Text)
    requires ExchangeAuthorizationCode(db, form, draw, now).1.Ok?
    requires form.code.Some? && HashToken(form.code.value) in db.codes
    requires db.codes[HashToken(form.code.value)].challengeMethod.S256?
    requires db.codes[HashToken(form.code.value)].challenge == Base64Sha256(verifier)
    ensures form.verifier == Some(verifier)
  {
    hide IssueTokens, AuthenticateClient;
  }

  // ---- Access tokens ----

  predicate Usable(token: Token, access: Text, resource: string, now: int) {
    && token.accessHash == HashToken(access) && token.revokedAt.None?
    && token.accessExpiresAt > now && token.resource == resource
  }

  lemma CanonicalAllowsReading(scope: string)
    requires IsCanonical(scope)
    ensures Scopes.Allows(scope, Scopes.READ)
  {
    Scopes.CanonicalWords(true);
    Scopes.CanonicalWords(false);
    hide Scopes.Words, Scopes.Canonical;
  }

  lemma IssuedScopeAllowsReading(s: State, id: nat)
    requires Inv(s) && id in s.db.tokens
    ensures Scopes.Allows(s.db.tokens[id].scope, Scopes.READ)
  {
    hide Apart, UniqueHashes, IsCanonical, Scopes.Allows;
    var c, i := PlaceOf(s, id);
    assert FromCode(s.db.tokens[id], s.db.codes[c]);
    CanonicalAllowsReading(s.db.codes[c].scope);
  }

  ghost predicate LastOfFamily(s: State, id: nat) {
    exists c :: c in s.families && c in s.db.codes && id in s.db.tokens && s.families[c] != []
      && s.families[c][|s.families[c]| - 1] == id && FromCode(s.db.tokens[id], s.db.codes[c])
  }

  lemma LiveIsLast(s: State, id: nat)
    requires Inv(s) && id in s.db.tokens && s.db.tokens[id].revokedAt.None?
    ensures LastOfFamily(s, id)
  {
    hide Apart, UniqueHashes, IsCanonical;
    var c, i := PlaceOf(s, id);
    assert FromCode(s.db.tokens[s.families[c][i]], s.db.codes[c]);
    assert i == |s.families[c]| - 1;
  }

  lemma AcceptedRow(db: Db, access: Text, resource: string, now: int)
    requires UniqueHashes(db)
    requires forall id :: id in db.tokens ==> Scopes.Allows(db.tokens[id].scope, Scopes.READ)
    ensures var grant := VerifyAccessToken(db, access, resource, now);
            && (grant.Some? <==> exists id :: id in db.tokens && Usable(db.tokens[id], access, resource, now))
            && (grant.Some? ==> Granted(db, grant.value, access, resource, now))
  {
    hide Scopes.Allows;
    var rows := LiveRows(db, access);
    if id :| id in db.tokens && Usable(db.tokens[id], access, resource, now) {
      assert id in rows;
      forall k | k in rows
        ensures k == id
      {
      }
    }
  }

  predicate Granted(db: Db, grant: Grant, access: Text, resource: string, now: int) {
    && grant.rowId in db.tokens
    && var token := db.tokens[grant.rowId];
       Usable(token, access, resource, now)
       && grant.clientId == token.clientId && grant.scope == token.scope && grant.subject == token.subject
  }

  /** After any run, an access token is accepted exactly when some row holds it unrevoked, unexpired and for this
      resource: the scope check never refuses an issued token. What it grants is the last of its family and
      carries what the code granted. */
  lemma AcceptedExactly(txs: seq<Tx>, access: Text, resource: string, now: int)
    ensures var db := After(txs).db;
            var grant := VerifyAccessToken(db, access, resource, now);
            && (grant.Some? <==> exists id :: id in db.tokens && Usable(db.tokens[id], access, resource, now))
            && (grant.Some? ==>
                Granted(db, grant.value, access, resource, now) && LastOfFamily(After(txs), grant.value.rowId))
  {
    hide Inv, Scopes.Allows, LastOfFamily, VerifyAccessToken, UniqueHashes;
    FamiliesHold(txs);
    HoldUnique(txs);
    var s := After(txs);
    forall id | id in s.db.tokens
      ensures Scopes.Allows(s.db.tokens[id].scope, Scopes.READ)
    {
      IssuedScopeAllowsReading(s, id);
    }
    AcceptedRow(s.db, access, resource, now);
    var grant := VerifyAccessToken(s.db, access, resource, now);
    if grant.Some? {
      LiveIsLast(s, grant.value.rowId);
    }
  }
}
