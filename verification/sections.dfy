/** The hive-section record and the store that holds the records.

    The store is the entity set behind the service: a finite collection of
    section records. It is kept as a sequence so that "the first record the
    query returns" has a meaning; the service itself never relies on the
    order, since every listing sorts by id. */
module Sections {
  import opened Results

  type SectionId = int
  type HiveId = int
  /** Identifier of the user on whose behalf an operation runs. */
  type ActorId = int
  /** An opaque point in time, supplied by the caller as "now". */
  type Timestamp = int

  /** One stored hive section with its audit fields. */
  datatype Section = Section(
    id: SectionId,
    code: string,
    name: string,
    storeHiveId: HiveId,
    isDeleted: bool,
    created: Timestamp,
    createdBy: ActorId,
    lastUpdated: Timestamp,
    lastUpdatedBy: ActorId)

  /** The fields a client supplies when creating or updating a section. */
  datatype UpdateRequest = UpdateRequest(code: string, name: string)

  type Store = seq<Section>

  /** Some section in the store has the given id. */
  predicate HasId(store: Store, id: SectionId) {
    exists i | 0 <= i < |store| :: store[i].id == id
  }

  /** Some section in the store, of any hive and in any state, uses the code. */
  predicate CodeTaken(store: Store, code: string) {
    exists i | 0 <= i < |store| :: store[i].code == code
  }

  /** Some section whose id differs from `id` uses the code. */
  predicate CodeTakenByOther(store: Store, code: string, id: SectionId) {
    exists i | 0 <= i < |store| :: store[i].code == code && store[i].id != id
  }

  /** No two records share an id (the store's primary key). */
  predicate IdsUnique(store: Store) {
    forall i, j | 0 <= i < j < |store| :: store[i].id != store[j].id
  }

  /** No two records share a code (the uniqueness the service defends). */
  predicate CodesUnique(store: Store) {
    forall i, j | 0 <= i < j < |store| :: store[i].code != store[j].code
  }

  /** The store invariant: ids and codes are both pairwise distinct. */
  predicate Valid(store: Store) {
    IdsUnique(store) && CodesUnique(store)
  }

  /** Position of the first record with the given id, if there is one:
      the record a by-id query returns first. */
  function IndexOf(store: Store, id: SectionId): (r: Option<nat>)
    ensures r.None? <==> !HasId(store, id)
    ensures r.Some? ==> r.value < |store| && store[r.value].id == id
    ensures r.Some? ==> forall j | 0 <= j < r.value :: store[j].id != id
  {
    if |store| == 0 then None
    else if store[0].id == id then Some(0)
    else
      match IndexOf(store[1..], id)
      case None =>
        assert forall i | 1 <= i < |store| :: store[i] == store[1..][i - 1];
        None
      case Some(k) => Some(k + 1)
  }

  /** Two stores of equal length whose records carry the same ids position by position. */
  predicate SameIds(a: Store, b: Store) {
    |a| == |b| && forall i | 0 <= i < |a| :: a[i].id == b[i].id
  }

  /** Id look-up depends only on the ids, so rewriting other fields in place keeps it. */
  lemma {:induction false} IndexOfSameIds(a: Store, b: Store, id: SectionId)
    requires SameIds(a, b)
    ensures IndexOf(a, id) == IndexOf(b, id)
  {
    if |a| > 0 && a[0].id != id {
      assert SameIds(a[1..], b[1..]);
      IndexOfSameIds(a[1..], b[1..], id);
    }
  }

  /** With unique ids, the first record with an id is the only one. */
  lemma IndexOfUnique(store: Store, i: nat)
    requires IdsUnique(store)
    requires i < |store|
    ensures IndexOf(store, store[i].id) == Some(i)
  {
  }
}
