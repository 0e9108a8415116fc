/** A Redis stream with one consumer group: entries not yet delivered, entries delivered and not yet acknowledged
    (the pending list), and what is still stored. */
module StreamGroup {

  /** `added` remembers every entry ever published; entries never change. */
  datatype Group<M> = Group(added: map<nat, M>, stream: set<nat>, undelivered: set<nat>, pending: set<nat>)

  function Empty<M>(): Group<M> {
    Group(map[], {}, {}, {})
  }

  /** XADD */
  function Add<M>(g: Group<M>, id: nat, message: M): Group<M> {
    g.(added := g.added[id := message], stream := g.stream + {id}, undelivered := g.undelivered + {id})
  }

  /** XREADGROUP with ">" */
  function ReadNew<M>(g: Group<M>, ids: set<nat>): Group<M> {
    g.(undelivered := g.undelivered - ids, pending := g.pending + ids)
  }

  /** XACK. XAUTOCLAIM changes only which consumer a pending entry belongs to, so it leaves this state alone. */
  function Ack<M>(g: Group<M>, ids: set<nat>): Group<M> {
    g.(pending := g.pending - ids)
  }

  /** XDEL */
  function Delete<M>(g: Group<M>, ids: set<nat>): Group<M> {
    g.(stream := g.stream - ids)
  }

  /** Will be handed to a consumer, for the first time or again. */
  predicate Deliverable<M>(g: Group<M>, id: nat) {
    id in g.stream && (id in g.undelivered || id in g.pending)
  }

  predicate Consistent<M>(g: Group<M>) {
    && g.undelivered <= g.stream
    && g.pending <= g.stream
    && g.stream <= g.added.Keys
    && g.undelivered !! g.pending
  }

  function SetOf(ids: seq<nat>): set<nat> {
    set id | id in ids
  }

  lemma SetOfAppend(ids: seq<nat>, id: nat)
    ensures SetOf(ids + [id]) == SetOf(ids) + {id}
  {
  }

  /** XACK and then XDEL of the same entries. */
  function Dropped<M>(g: Group<M>, ids: set<nat>): Group<M> {
    Delete(Ack(g, ids), ids)
  }

  // ---- Parsing a batch of entries ----

  /** The ids whose entries parse, in the order of the batch. */
  function ValidIn<M>(added: map<nat, M>, ids: seq<nat>, valid: M -> bool): seq<nat> {
    if ids == [] then []
    else (if ids[0] in added && valid(added[ids[0]]) then [ids[0]] else []) + ValidIn(added, ids[1..], valid)
  }

  function InvalidIn<M>(added: map<nat, M>, ids: seq<nat>, valid: M -> bool): set<nat> {
    set id | id in ids && id in added && !valid(added[id])
  }

  lemma {:induction false} ValidInMembers<M>(added: map<nat, M>, ids: seq<nat>, valid: M -> bool)
    ensures forall id :: id in ValidIn(added, ids, valid) <==> id in ids && id in added && valid(added[id])
  {
    if ids != [] {
      ValidInMembers(added, ids[1..], valid);
      assert ids == [ids[0]] + ids[1..];
    }
  }

  lemma {:induction false} ValidInAppend<M>(added: map<nat, M>, ids: seq<nat>, id: nat, valid: M -> bool)
    ensures ValidIn(added, ids + [id], valid)
            == ValidIn(added, ids, valid) + if id in added && valid(added[id]) then [id] else []
  {
    if ids != [] {
      ValidInAppend(added, ids[1..], id, valid);
      assert (ids + [id])[1..] == ids[1..] + [id];
    }
  }

  lemma InvalidInAppend<M>(added: map<nat, M>, ids: seq<nat>, id: nat, valid: M -> bool)
    requires id in added
    ensures InvalidIn(added, ids + [id], valid)
            == InvalidIn(added, ids, valid) + if valid(added[id]) then {} else {id}
  {
  }

  /** These entries leave the stream and the pending list, and nothing else changes. */
  ghost predicate OnlyLeave<M>(before: Group<M>, after: Group<M>, ids: seq<nat>) {
    && after.added == before.added && after.undelivered == before.undelivered
    && (forall id :: id in after.stream <==> id in before.stream && id !in ids)
    && (forall id :: id in after.pending <==> id in before.pending && id !in ids)
  }

  /** A processed batch, entries that parse and others alike. */
  lemma ProcessedLeaves<M>(g: Group<M>, ids: seq<nat>, valid: M -> bool)
    requires forall id :: id in ids ==> id in g.added
    ensures OnlyLeave(
              g, Dropped(Dropped(g, InvalidIn(g.added, ids, valid)), SetOf(ValidIn(g.added, ids, valid))), ids)
  {
    ValidInMembers(g.added, ids, valid);
  }
}
