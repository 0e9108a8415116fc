/** What revoking a token achieves (section 2 of RFC 7009): the whole grant ends exactly when it is the latest one. */
module OAuthRevocation {
  import opened Common
  import opened OAuth
  import opened OAuthFamilies
  import opened OAuthGrants
  import opened OAuthRoundTrip

  /** The two statements of a revocation. */
  function Revocation(hash: Text, now: int): seq<Tx> {
    [RevokeAccess(hash, now), RevokeRefresh(hash, now)]
  }

  predicate Names(hash: Text, token: Token) {
    token.accessHash == hash || token.refreshHash == hash
  }

  lemma AfterRevocation(txs: seq<Tx>, hash: Text, now: int)
    ensures var s := After(txs);
            After(txs + Revocation(hash, now)) ==
                State(RevokeByRefresh(RevokeByAccess(s.db, hash, now), hash, now), s.families)
  {
    SnocStep(txs, RevokeAccess(hash, now));
    SnocStep(txs + [RevokeAccess(hash, now)], RevokeRefresh(hash, now));
    assert txs + Revocation(hash, now) == txs + [RevokeAccess(hash, now)] + [RevokeRefresh(hash, now)];
    hide After, RevokeByAccess, RevokeByRefresh;
  }

  lemma RevokedRows(db: Db, hash: Text, now: int, id: nat)
    requires id in db.tokens
    ensures var after := RevokeByRefresh(RevokeByAccess(db, hash, now), hash, now);
            id in after.tokens &&
                (after.tokens[id].revokedAt.Some? <==> db.tokens[id].revokedAt.Some? || Names(hash, db.tokens[id]))
  {
  }

  lemma SpentBeforeLast(txs: seq<Tx>, c: Text, i: nat)
    requires c in After(txs).families && i < |After(txs).families[c]|
    ensures var db, family := After(txs).db, After(txs).families[c];
            family[i] in db.tokens && (i < |family| - 1 ==> db.tokens[family[i]].revokedAt.Some?)
  {
    hide After, OnlyPlace, FromCode;
    FamilyIsLinear(txs, c, i);
  }

  lemma FamilyNotEmpty(txs: seq<Tx>, c: Text)
    requires c in After(txs).families
    ensures After(txs).families[c] != []
  {
    FamiliesHold(txs);
    hide Covered, CodesOfClients, UniqueHashes, UsedExactly, Apart;
  }

  /** All tokens of the family are stored, and all before the last are revoked. */
  predicate SpentButLast(db: Db, family: seq<nat>) {
    && family != [] && (forall i :: 0 <= i < |family| ==> family[i] in db.tokens)
    && forall i :: 0 <= i < |family| - 1 ==> db.tokens[family[i]].revokedAt.Some?
  }

  lemma FamilyIsSpentButLast(txs: seq<Tx>, c: Text)
    requires c in After(txs).families
    ensures SpentButLast(After(txs).db, After(txs).families[c])
  {
    FamilyNotEmpty(txs, c);
    hide After;
    forall i | 0 <= i < |After(txs).families[c]|
      ensures After(txs).families[c][i] in After(txs).db.tokens
      ensures i < |After(txs).families[c]| - 1 ==> After(txs).db.tokens[After(txs).families[c][i]].revokedAt.Some?
    {
      SpentBeforeLast(txs, c, i);
    }
  }

  /** On rows alone: what both statements leave of a family. */
  lemma RevokedFamily(db: Db, family: seq<nat>, hash: Text, now: int)
    requires SpentButLast(db, family)
    ensures AllRevoked(RevokeByRefresh(RevokeByAccess(db, hash, now), hash, now), family)
            <==> db.tokens[family[|family| - 1]].revokedAt.Some? || Names(hash, db.tokens[family[|family| - 1]])
  {
    hide RevokeByAccess, RevokeByRefresh, Names;
    var after := RevokeByRefresh(RevokeByAccess(db, hash, now), hash, now);
    forall i | 0 <= i < |family|
      ensures family[i] in after.tokens
      ensures after.tokens[family[i]].revokedAt.Some?
              <==> db.tokens[family[i]].revokedAt.Some? || Names(hash, db.tokens[family[i]])
    {
      RevokedRows(db, hash, now, family[i]);
    }
    assert family[|family| - 1] in family;
  }

  /** Revoking by a hash ends a code's whole grant exactly when the latest token was revoked already or is the one
      named, as access token or as refresh token. */
  lemma RevocationEndsGrantIff(txs: seq<Tx>, c: Text, hash: Text, now: int)
    requires c in After(txs).families
    ensures SpentButLast(After(txs).db, After(txs).families[c])
    ensures After(txs + Revocation(hash, now)).families == After(txs).families
    ensures var db, family := After(txs).db, After(txs).families[c];
            AllRevoked(After(txs + Revocation(hash, now)).db, family)
            <==> db.tokens[family[|family| - 1]].revokedAt.Some? || Names(hash, db.tokens[family[|family| - 1]])
  {
    hide After, Revocation, RevokeByAccess, RevokeByRefresh, Names, AllRevoked;
    FamilyIsSpentButLast(txs, c);
    AfterRevocation(txs, hash, now);
    RevokedFamily(After(txs).db, After(txs).families[c], hash, now);
  }

  predicate LatestIsRevoked(db: Db, family: seq<nat>) {
    family != [] && family[|family| - 1] in db.tokens && db.tokens[family[|family| - 1]].revokedAt.Some?
  }

  /** Through an access token the statement ends the grant exactly when that token is the latest or the latest was
      revoked already. A token rotated before leaves its successor live. */
  lemma RevokingAccessEndsGrantIff(txs: seq<Tx>, c: Text, i: nat, hash: Text, now: int)
    requires c in After(txs).families && i < |After(txs).families[c]| &&
        After(txs).families[c][i] in After(txs).db.tokens
    requires After(txs).db.tokens[After(txs).families[c][i]].accessHash == hash
    ensures AllRevoked(After(txs + [RevokeAccess(hash, now)]).db, After(txs).families[c])
            <==> i == |After(txs).families[c]| - 1 || LatestIsRevoked(After(txs).db, After(txs).families[c])
  {
    hide *;
    AfterOneRevocation(txs, hash, now, After(txs).families[c]);
    HoldUnique(txs);
    FamilyOrder(txs, c, i);
    OneTokenEndsIff(After(txs).db, After(txs).families[c], i, now);
  }

  /** Through a refresh token, the same. */
  lemma RevokingRefreshEndsGrantIff(txs: seq<Tx>, c: Text, i: nat, hash: Text, now: int)
    requires c in After(txs).families && i < |After(txs).families[c]| &&
        After(txs).families[c][i] in After(txs).db.tokens
    requires After(txs).db.tokens[After(txs).families[c][i]].refreshHash == hash
    ensures AllRevoked(After(txs + [RevokeRefresh(hash, now)]).db, After(txs).families[c])
            <==> i == |After(txs).families[c]| - 1 || LatestIsRevoked(After(txs).db, After(txs).families[c])
  {
    hide *;
    AfterOneRevocation(txs, hash, now, After(txs).families[c]);
    HoldUnique(txs);
    FamilyOrder(txs, c, i);
    OneTokenEndsIff(After(txs).db, After(txs).families[c], i, now);
  }

  /** Distinct at i, and spent before the last. */
  predicate InOrder(db: Db, family: seq<nat>, i: nat)
    requires i < |family|
  {
    && (forall j :: 0 <= j < |family| && family[j] == family[i] ==> j == i)
    && forall j :: 0 <= j < |family| ==>
        family[j] in db.tokens && (j < |family| - 1 ==> db.tokens[family[j]].revokedAt.Some?)
  }

  lemma FamilyOrder(txs: seq<Tx>, c: Text, i: nat)
    requires c in After(txs).families && i < |After(txs).families[c]|
    ensures InOrder(After(txs).db, After(txs).families[c], i)
  {
    var db, family := After(txs).db, After(txs).families[c];
    FamilyIsLinear(txs, c, i);
    hide After, FromCode;
    forall j | 0 <= j < |family|
      ensures family[j] in db.tokens && (j < |family| - 1 ==> db.tokens[family[j]].revokedAt.Some?)
    {
      SpentBeforeLast(txs, c, j);
    }
  }

  lemma OneTokenEndsIff(db: Db, family: seq<nat>, i: nat, now: int)
    requires UniqueHashes(db) && i < |family| && InOrder(db, family, i)
    ensures family[i] in db.tokens
    ensures var token := db.tokens[family[i]];
            var ends := i == |family| - 1 || LatestIsRevoked(db, family);
            && (AllRevoked(RevokeByAccess(db, token.accessHash, now), family) <==> ends)
            && (AllRevoked(RevokeByRefresh(db, token.refreshHash, now), family) <==> ends)
  {
    hide UniqueHashes, RevokeByAccess, RevokeByRefresh, RevokesOnlyRow, AllRevoked;
    RevokesOneRow(db, family[i], now);
    OneRevoked(db, RevokeByAccess(db, db.tokens[family[i]].accessHash, now), family, i);
    OneRevoked(db, RevokeByRefresh(db, db.tokens[family[i]].refreshHash, now), family, i);
  }

  lemma AfterOneRevocation(txs: seq<Tx>, hash: Text, now: int, family: seq<nat>)
    ensures AllRevoked(After(txs + [RevokeAccess(hash, now)]).db, family)
            <==> AllRevoked(RevokeByAccess(After(txs).db, hash, now), family)
    ensures AllRevoked(After(txs + [RevokeRefresh(hash, now)]).db, family)
            <==> AllRevoked(RevokeByRefresh(After(txs).db, hash, now), family)
  {
    SnocStep(txs, RevokeAccess(hash, now));
    SnocStep(txs, RevokeRefresh(hash, now));
    hide After, RevokeByAccess, RevokeByRefresh, AllRevoked;
  }

  /** Only the row of the given id is revoked. */
  predicate RevokesOnlyRow(db: Db, after: Db, id: nat) {
    forall k :: k in db.tokens ==>
      k in after.tokens && (after.tokens[k].revokedAt.Some? <==> db.tokens[k].revokedAt.Some? || k == id)
  }

  lemma RevokesOneRow(db: Db, id: nat, now: int)
    requires UniqueHashes(db) && id in db.tokens
    ensures RevokesOnlyRow(db, RevokeByAccess(db, db.tokens[id].accessHash, now), id)
    ensures RevokesOnlyRow(db, RevokeByRefresh(db, db.tokens[id].refreshHash, now), id)
  {
    forall k | k in db.tokens
      ensures db.tokens[k].accessHash == db.tokens[id].accessHash <==> k == id
      ensures db.tokens[k].refreshHash == db.tokens[id].refreshHash <==> k == id
    {
      OnlyHolder(db, k, id);
    }
    hide UniqueHashes;
  }

  lemma OneRevoked(db: Db, after: Db, family: seq<nat>, i: nat)
    requires i < |family| && RevokesOnlyRow(db, after, family[i]) && InOrder(db, family, i)
    ensures AllRevoked(after, family) <==> i == |family| - 1 || db.tokens[family[|family| - 1]].revokedAt.Some?
  {
    assert family[|family| - 1] in family;
    forall j | 0 <= j < |family|
      ensures family[j] in after.tokens
      ensures after.tokens[family[j]].revokedAt.Some? <==> db.tokens[family[j]].revokedAt.Some? || j == i
    {
    }
  }

  lemma OnlyHolder(db: Db, a: nat, b: nat)
    requires UniqueHashes(db) && a in db.tokens && b in db.tokens
    ensures db.tokens[a].accessHash == db.tokens[b].accessHash <==> a == b
    ensures db.tokens[a].refreshHash == db.tokens[b].refreshHash <==> a == b
  {
  }

  /** A grant that has ended stays ended: after any further transactions no access token of it is accepted and no
      refresh token of it is exchanged. */
  lemma EndedGrantIsRefused(
    txs: seq<Tx>, more: seq<Tx>, c: Text, id: nat, access: Text, resource: string, form: RefreshForm,
    draw: Draw, later: int)
    requires c in After(txs).families && AllRevoked(After(txs).db, After(txs).families[c]) &&
        id in After(txs).families[c]
    requires After(txs).db.tokens[id].accessHash == HashToken(access)
    requires form.refresh.Some? && After(txs).db.tokens[id].refreshHash == HashToken(form.refresh.value)
    ensures var db := After(txs + more).db;
            && VerifyAccessToken(db, access, resource, later) == None
            && ExchangeRefreshToken(db, form, draw, later).1.Err? && ExchangeRefreshToken(db, form, draw, later).0 == db
  {
    DeadFamilyIsFinal(txs, more, c);
    NothingIsUndone(txs, more);
    HoldUnique(txs + more);
    hide After, VerifyAccessToken, ExchangeRefreshToken, UniqueHashes;
    var db := After(txs + more).db;
    assert StillIssued(After(txs).db.tokens[id], db.tokens[id]);
    RevokedIsRefused(db, id, form, draw, later);
    NotAccepted(txs + more, id, access, resource, later);
  }

  lemma NotAccepted(txs: seq<Tx>, id: nat, access: Text, resource: string, now: int)
    requires id in After(txs).db.tokens && After(txs).db.tokens[id].revokedAt.Some?
    requires After(txs).db.tokens[id].accessHash == HashToken(access)
    ensures VerifyAccessToken(After(txs).db, access, resource, now) == None
  {
    AcceptedExactly(txs, access, resource, now);
    HoldUnique(txs);
    var db := After(txs).db;
    hide After, VerifyAccessToken, UniqueHashes;
    forall k | k in db.tokens && Usable(db.tokens[k], access, resource, now)
      ensures k == id
    {
      OnlyHolder(db, k, id);
    }
  }

  // ---- A rotated token ----

  lemma OthersStay(db: Db, hash: Text, now: int, id: nat)
    requires id in db.tokens && !Names(hash, db.tokens[id])
    ensures var after := RevokeByRefresh(RevokeByAccess(db, hash, now), hash, now);
            id in after.tokens && after.tokens[id] == db.tokens[id]
  {
  }

  lemma FreshToken(db: Db, id: nat, draw: Draw, now: int)
    requires id in db.tokens && !Collides(db, draw)
    ensures var tokens := Rotated(db.tokens, id, draw, now);
            && draw.rowId in tokens && tokens[draw.rowId].accessHash == HashToken(draw.access)
            && tokens[draw.rowId].refreshHash == HashToken(draw.refresh) && tokens[draw.rowId].revokedAt.None?
            && tokens[draw.rowId].accessExpiresAt == now + ACCESS_TTL
            && FromSameGrant(tokens[draw.rowId], db.tokens[id])
            && db.tokens[id].accessHash != HashToken(draw.access)
  {
    assert !SharesHash(db.tokens[id], draw);
  }

  predicate FromSameGrant(t: Token, u: Token) {
    t.clientId == u.clientId && t.scope == u.scope && t.subject == u.subject && t.resource == u.resource
  }

  /** Revoking through an access token that was rotated before leaves its successor live: the client refreshed once,
      then revoked the old access token, and the new one is still accepted until it expires. */
  lemma RotatedRevocationLeavesSuccessor(
    txs: seq<Tx>, id: nat, form: RefreshForm, draw: Draw, t1: int, access: Text, t2: int, t3: int)
    requires id in After(txs).db.tokens && After(txs).db.tokens[id].revokedAt.None?
    requires form.refresh.Some? && !Missing(form.refresh)
    requires After(txs).db.tokens[id].refreshHash == HashToken(form.refresh.value)
    requires After(txs).db.tokens[id].accessHash == HashToken(access) && draw.refresh != access
    requires AuthenticateClient(After(txs).db, form.who) == Ok(After(txs).db.tokens[id].clientId)
    requires !Collides(After(txs).db, draw) && t1 < After(txs).db.tokens[id].refreshExpiresAt && t3 < t1 + ACCESS_TTL
    ensures var token := After(txs).db.tokens[id];
            var run := txs + [Refresh(form, draw, t1)] + Revocation(HashToken(access), t2);
            VerifyAccessToken(After(run).db, draw.access, token.resource, t3)
            == Some(Grant(token.clientId, token.scope, token.subject, draw.rowId))
  {
    var rotated := txs + [Refresh(form, draw, t1)];
    var run := rotated + Revocation(HashToken(access), t2);
    AfterRefresh(txs, id, form, draw, t1);
    FreshToken(After(txs).db, id, draw, t1);
    AfterRevocation(rotated, HashToken(access), t2);
    hide After, VerifyAccessToken, Rotated, Collides, Revocation, AuthenticateClient;
    OthersStay(After(rotated).db, HashToken(access), t2, draw.rowId);
    hide RevokeByAccess, RevokeByRefresh;
    StoredTokenVerifies(run, draw.rowId, draw.access, t3);
  }

  lemma AfterRefresh(txs: seq<Tx>, id: nat, form: RefreshForm, draw: Draw, now: int)
    requires id in After(txs).db.tokens && After(txs).db.tokens[id].revokedAt.None? && !Collides(After(txs).db, draw)
    requires form.refresh.Some? && !Missing(form.refresh)
    requires After(txs).db.tokens[id].refreshHash == HashToken(form.refresh.value)
    requires AuthenticateClient(After(txs).db, form.who) == Ok(After(txs).db.tokens[id].clientId)
    requires now < After(txs).db.tokens[id].refreshExpiresAt
    ensures After(txs + [Refresh(form, draw, now)]).db.tokens == Rotated(After(txs).db.tokens, id, draw, now)
  {
    HoldUnique(txs);
    SnocStep(txs, Refresh(form, draw, now));
    hide After, NextFamilies, ExchangeRefreshToken, Rotated, Collides, AuthenticateClient, UniqueHashes;
    RefreshSucceeds(After(txs).db, id, form, draw, now);
  }
}
