/** What the service operations guarantee about the store: look-ups after
    each write, code and id uniqueness preserved by every write, and the
    records each write leaves untouched. */
module SectionProperties {
  import opened Results
  import opened Sections
  import opened SectionOrdering
  import opened HiveSectionService

  /** With unique ids, look-up by id returns exactly the record carrying that id. */
  lemma GetIsMembership(store: Store, id: SectionId, s: Section)
    requires IdsUnique(store)
    ensures Get(store, id) == Ok(s) <==> s in store && s.id == id
  {
    if s in store && s.id == id {
      var i :| 0 <= i < |store| && store[i] == s;
      IndexOfUnique(store, i);
    }
  }

  /** A failed look-up means no record carries the id at all. */
  lemma GetNotFound(store: Store, id: SectionId)
    ensures Get(store, id) == Err(NotFound) <==> forall s | s in store :: s.id != id
  {
    if Get(store, id) != Err(NotFound) {
      var s := Get(store, id).value;
      assert s in store && s.id == id;
    }
  }

  // ---------------------------------------------------------------- create

  /** Creating a section makes it retrievable under its new id and changes no other look-up. */
  lemma CreateThenGet(store: Store, hiveId: HiveId, request: UpdateRequest,
                      actor: ActorId, now: Timestamp, newId: SectionId, id: SectionId)
    requires IdsUnique(store) && !HasId(store, newId)
    requires Create(store, hiveId, request, actor, now, newId).Ok?
    ensures var a := Create(store, hiveId, request, actor, now, newId).value;
      Get(a.store, id) == if id == newId then Ok(a.section) else Get(store, id)
  {
    var a := Create(store, hiveId, request, actor, now, newId).value;
    assert IdsUnique(a.store) by {
      assert forall i | 0 <= i < |store| :: a.store[i] == store[i];
    }
    if id == newId {
      GetIsMembership(a.store, id, a.section);
    } else {
      match Get(store, id)
      case Ok(s) =>
        GetIsMembership(store, id, s);
        GetIsMembership(a.store, id, s);
      case Err(_) =>
        GetNotFound(store, id);
        GetNotFound(a.store, id);
    }
  }

  /** A successful create keeps ids and codes pairwise distinct. */
  lemma CreatePreservesValid(store: Store, hiveId: HiveId, request: UpdateRequest,
                             actor: ActorId, now: Timestamp, newId: SectionId)
    requires Valid(store) && !HasId(store, newId)
    requires Create(store, hiveId, request, actor, now, newId).Ok?
    ensures Valid(Create(store, hiveId, request, actor, now, newId).value.store)
  {
    var a := Create(store, hiveId, request, actor, now, newId).value;
    assert forall i | 0 <= i < |store| :: a.store[i] == store[i];
    assert a.store[|store|] == a.section;
  }

  /** Two creates with distinct, unused codes both succeed, the second receiving
      any id the first create left unused; the two sections get different ids. */
  lemma TwoCreatesWithDistinctCodes(store: Store, hiveId: HiveId, first: UpdateRequest, second: UpdateRequest,
                                    actor: ActorId, now: Timestamp, id1: SectionId, id2: SectionId)
    requires !HasId(store, id1)
    requires !CodeTaken(store, first.code) && !CodeTaken(store, second.code)
    requires first.code != second.code
    requires !HasId(Create(store, hiveId, first, actor, now, id1).value.store, id2)
    ensures var a := Create(store, hiveId, first, actor, now, id1).value;
      && Create(a.store, hiveId, second, actor, now, id2).Ok?
      && Create(a.store, hiveId, second, actor, now, id2).value.section.id != a.section.id
  {
    var a := Create(store, hiveId, first, actor, now, id1).value;
    assert a.store[|store|] == a.section;
    assert forall i | 0 <= i < |store| :: a.store[i] == store[i];
  }

  /** A created section shows up in its hive's listing; other hives' listings are unchanged. */
  lemma CreateThenListByHive(store: Store, hiveId: HiveId, request: UpdateRequest,
                             actor: ActorId, now: Timestamp, newId: SectionId, other: HiveId)
    requires IdsUnique(store) && !HasId(store, newId)
    requires Create(store, hiveId, request, actor, now, newId).Ok?
    ensures var a := Create(store, hiveId, request, actor, now, newId).value;
      && a.section in ListByHive(a.store, hiveId)
      && (other != hiveId ==> ListByHive(a.store, other) == ListByHive(store, other))
  {
    var a := Create(store, hiveId, request, actor, now, newId).value;
    assert IdsUnique(a.store) by {
      assert forall i | 0 <= i < |store| :: a.store[i] == store[i];
    }
    assert a.section in a.store by {
      assert a.store[|store|] == a.section;
    }
    if other != hiveId {
      AppendOtherHive(store, a.section, other);
    }
  }

  /** Adding a record of another hive leaves a hive's selection as it was. */
  lemma {:induction false} OfHiveAppendOther(store: Store, s: Section, hiveId: HiveId)
    requires s.storeHiveId != hiveId
    ensures OfHive(store + [s], hiveId) == OfHive(store, hiveId)
    decreases |store|
  {
    if |store| == 0 {
      assert [] + [s] == [s];
      assert [s][1..] == [];
    } else {
      assert (store + [s])[1..] == store[1..] + [s];
      OfHiveAppendOther(store[1..], s, hiveId);
    }
  }

  /** Adding a record of another hive leaves a hive's listing as it was. */
  lemma AppendOtherHive(store: Store, s: Section, hiveId: HiveId)
    requires s.storeHiveId != hiveId
    ensures ListByHive(store + [s], hiveId) == ListByHive(store, hiveId)
  {
    OfHiveAppendOther(store, s, hiveId);
  }

  // ---------------------------------------------------------------- update

  /** Keeping a section's own code never conflicts, whatever the name. */
  lemma UpdateOwnCodeSucceeds(store: Store, id: SectionId, name: string, actor: ActorId)
    requires CodesUnique(store)
    requires Get(store, id).Ok?
    ensures Update(store, id, UpdateRequest(Get(store, id).value.code, name), actor).Ok?
  {
  }

  /** Asking for a code another section holds fails with a code conflict, even for a missing id. */
  lemma UpdateConflictBeforeNotFound(store: Store, id: SectionId, request: UpdateRequest,
                                     actor: ActorId, other: Section)
    requires other in store && other.code == request.code && other.id != id
    ensures Update(store, id, request, actor) == Err(Conflict(DuplicateCode))
  {
    var j :| 0 <= j < |store| && store[j] == other;
  }

  /** After an update the target carries the request's code and name, keeps its
      id, hive, flag and creation stamps, and every other look-up is unchanged. */
  lemma UpdateThenGet(store: Store, id: SectionId, request: UpdateRequest, actor: ActorId, x: SectionId)
    requires IdsUnique(store)
    requires Update(store, id, request, actor).Ok?
    ensures var a := Update(store, id, request, actor).value;
      && Get(a.store, id) == Ok(a.section)
      && a.section.id == id && a.section.code == request.code && a.section.name == request.name
      && a.section.lastUpdatedBy == actor
      && (var before := Get(store, id).value;
          && a.section.storeHiveId == before.storeHiveId
          && a.section.isDeleted == before.isDeleted
          && a.section.created == before.created && a.section.createdBy == before.createdBy
          && a.section.lastUpdated == before.lastUpdated)
      && (x != id ==> Get(a.store, x) == Get(store, x))
  {
    var a := Update(store, id, request, actor).value;
    assert SameIds(store, a.store);
    IndexOfSameIds(store, a.store, id);
    IndexOfSameIds(store, a.store, x);
  }

  /** A successful update keeps ids and codes pairwise distinct. */
  lemma UpdatePreservesValid(store: Store, id: SectionId, request: UpdateRequest, actor: ActorId)
    requires Valid(store)
    requires Update(store, id, request, actor).Ok?
    ensures Valid(Update(store, id, request, actor).value.store)
  {
    var a := Update(store, id, request, actor).value;
    var k := IndexOf(store, id).value;
    assert SameIds(store, a.store);
    forall i, j | 0 <= i < j < |a.store| ensures a.store[i].code != a.store[j].code {
      if i == k || j == k {
        var o := if i == k then j else i;
        assert store[o].id != id;
        assert a.store[o] == store[o];
      }
    }
  }

  // ---------------------------------------------------------------- delete

  /** A purge succeeds exactly when the section exists and is soft-deleted. */
  lemma DeleteOnlyWhenSoftDeleted(store: Store, id: SectionId)
    ensures Delete(store, id).Ok? <==> Get(store, id).Ok? && Get(store, id).value.isDeleted
  {
  }

  /** Removing position `k` shifts the records behind it one place forward. */
  lemma RemoveAtIndices(store: Store, k: nat)
    requires k < |store|
    ensures var after := store[..k] + store[k + 1..];
      && |after| == |store| - 1
      && forall i | 0 <= i < |after| :: after[i] == store[if i < k then i else i + 1]
  {
  }

  /** Removing position `k` takes exactly one copy of `store[k]` out of the store's contents. */
  lemma RemoveAtMultiset(store: Store, k: nat)
    requires k < |store|
    ensures multiset(store) == multiset(store[..k] + store[k + 1..]) + multiset{store[k]}
  {
    assert store == store[..k] + [store[k]] + store[k + 1..];
  }

  /** With unique ids, what remains after removing position `k` is every other
      record: those whose id differs from the removed one. */
  lemma RemoveAtMembers(store: Store, k: nat)
    requires IdsUnique(store) && k < |store|
    ensures var after := store[..k] + store[k + 1..];
      && (forall s | s in after :: s in store && s.id != store[k].id)
      && (forall s | s in store && s.id != store[k].id :: s in after)
  {
    var after := store[..k] + store[k + 1..];
    RemoveAtIndices(store, k);
    forall s | s in after ensures s in store && s.id != store[k].id {
      var i :| 0 <= i < |after| && after[i] == s;
      assert s == store[if i < k then i else i + 1];
    }
    forall s | s in store && s.id != store[k].id ensures s in after {
      var i :| 0 <= i < |store| && store[i] == s;
      assert s == after[if i < k then i else i - 1];
    }
  }

  /** Removing a position keeps ids unique. */
  lemma RemoveAtIdsUnique(store: Store, k: nat)
    requires IdsUnique(store) && k < |store|
    ensures IdsUnique(store[..k] + store[k + 1..])
  {
    var after := store[..k] + store[k + 1..];
    RemoveAtIndices(store, k);
    forall i, j | 0 <= i < j < |after| ensures after[i].id != after[j].id {
      assert after[i] == store[if i < k then i else i + 1];
      assert after[j] == store[if j < k then j else j + 1];
    }
  }

  /** The records left by a purge are the stored records other than the purged one. */
  lemma DeleteMembers(store: Store, id: SectionId)
    requires IdsUnique(store)
    requires Delete(store, id).Ok?
    ensures var after, gone := Delete(store, id).value, store[IndexOf(store, id).value];
      && multiset(store) == multiset(after) + multiset{gone}
      && (forall s | s in after :: s in store && s.id != id)
      && (forall s | s in store && s.id != id :: s in after)
      && IdsUnique(after)
  {
    var k := IndexOf(store, id).value;
    RemoveAtMultiset(store, k);
    RemoveAtMembers(store, k);
    RemoveAtIdsUnique(store, k);
  }

  /** A purge of a soft-deleted section removes exactly that record: afterwards
      its id is not found and every other look-up is unchanged. */
  lemma DeleteThenGet(store: Store, id: SectionId, x: SectionId)
    requires IdsUnique(store)
    requires Delete(store, id).Ok?
    ensures var after := Delete(store, id).value;
      && multiset(store) == multiset(after) + multiset{Get(store, id).value}
      && Get(after, id) == Err(NotFound)
      && (x != id ==> Get(after, x) == Get(store, x))
  {
    var after := Delete(store, id).value;
    DeleteMembers(store, id);
    GetNotFound(after, id);
    if x != id {
      match Get(store, x)
      case Ok(s) =>
        GetIsMembership(store, x, s);
        GetIsMembership(after, x, s);
      case Err(_) =>
        GetNotFound(store, x);
        GetNotFound(after, x);
    }
  }

  /** A successful purge keeps ids and codes pairwise distinct. */
  lemma DeletePreservesValid(store: Store, id: SectionId)
    requires Valid(store)
    requires Delete(store, id).Ok?
    ensures Valid(Delete(store, id).value)
  {
    var after := Delete(store, id).value;
    var k := IndexOf(store, id).value;
    forall i, j | 0 <= i < j < |after|
      ensures after[i].id != after[j].id && after[i].code != after[j].code
    {
      var i' := if i < k then i else i + 1;
      var j' := if j < k then j else j + 1;
      assert after[i] == store[i'] && after[j] == store[j'];
    }
  }

  // ---------------------------------------------------------------- status

  /** Setting the same status twice has the effect of setting it once, whoever asks and whenever. */
  lemma SetStatusIdempotent(store: Store, id: SectionId, deleted: bool,
                            actor1: ActorId, now1: Timestamp, actor2: ActorId, now2: Timestamp)
    requires SetStatus(store, id, deleted, actor1, now1).Ok?
    ensures var once := SetStatus(store, id, deleted, actor1, now1).value;
      SetStatus(once, id, deleted, actor2, now2) == Ok(once)
  {
    var once := SetStatus(store, id, deleted, actor1, now1).value;
    assert SameIds(store, once);
    IndexOfSameIds(store, once, id);
  }

  /** After a status change the section's flag has the requested value; if it
      already had it, the record (audit stamps included) is untouched; other
      look-ups are unchanged. */
  lemma SetStatusThenGet(store: Store, id: SectionId, deleted: bool, actor: ActorId, now: Timestamp, x: SectionId)
    requires SetStatus(store, id, deleted, actor, now).Ok?
    ensures var after := SetStatus(store, id, deleted, actor, now).value;
      && Get(after, id).Ok?
      && (var before, current := Get(store, id).value, Get(after, id).value;
          && current.isDeleted == deleted
          && (before.isDeleted == deleted ==> current == before)
          && (before.isDeleted != deleted ==>
                && current.lastUpdated == now && current.lastUpdatedBy == actor
                && current.(isDeleted := before.isDeleted, lastUpdated := before.lastUpdated,
                            lastUpdatedBy := before.lastUpdatedBy) == before))
      && (x != id ==> Get(after, x) == Get(store, x))
  {
    var after := SetStatus(store, id, deleted, actor, now).value;
    assert SameIds(store, after);
    IndexOfSameIds(store, after, id);
    IndexOfSameIds(store, after, x);
  }

  /** A status change keeps ids and codes pairwise distinct. */
  lemma SetStatusPreservesValid(store: Store, id: SectionId, deleted: bool, actor: ActorId, now: Timestamp)
    requires Valid(store)
    requires SetStatus(store, id, deleted, actor, now).Ok?
    ensures Valid(SetStatus(store, id, deleted, actor, now).value)
  {
    var after := SetStatus(store, id, deleted, actor, now).value;
    var k := IndexOf(store, id).value;
    forall i, j | 0 <= i < j < |after|
      ensures after[i].id != after[j].id && after[i].code != after[j].code
    {
      assert after[i].id == store[i].id && after[i].code == store[i].code;
      assert after[j].id == store[j].id && after[j].code == store[j].code;
    }
  }
}
