/** The hive-section service: each operation reads the store, checks one or
    two conditions in a fixed order, and then either raises a typed error
    leaving the store as it was or returns the new store.

    The acting user and the current time are explicit parameters; the id a
    new record receives is a parameter the store chooses among unused ids. */
module HiveSectionService {
  import opened Results
  import opened Sections
  import opened SectionOrdering

  /** A store after a successful write, with the section the operation returns. */
  datatype Applied = Applied(store: Store, section: Section)

  /** Lists every section, ordered by id. */
  function ListAll(store: Store): (r: seq<Section>)
    ensures Ascending(r)
    ensures multiset(r) == multiset(store)
    ensures IdsUnique(store) ==> StrictlyAscending(r)
  {
    SortById(store)
  }

  /** Lists the sections of one hive, ordered by id. */
  function ListByHive(store: Store, hiveId: HiveId): (r: seq<Section>)
    ensures Ascending(r)
    ensures forall s :: s in r <==> s in store && s.storeHiveId == hiveId
    ensures forall s :: multiset(r)[s] == if s.storeHiveId == hiveId then multiset(store)[s] else 0
    ensures IdsUnique(store) ==> StrictlyAscending(r)
  {
    var selected := OfHive(store, hiveId);
    var r := SortById(selected);
    assert forall s :: s in r <==> s in store && s.storeHiveId == hiveId by {
      forall s ensures s in r <==> s in store && s.storeHiveId == hiveId {
        assert s in r <==> s in multiset(r);
        assert s in store <==> s in multiset(store);
      }
    }
    r
  }

  /** Returns the section with the given id. */
  function Get(store: Store, id: SectionId): (r: Result<Section>)
    ensures r.Ok? <==> HasId(store, id)
    ensures r.Ok? ==> r.value in store && r.value.id == id
    ensures r.Err? ==> r.error == NotFound
  {
    match IndexOf(store, id)
    case None => Err(NotFound)
    case Some(k) => Ok(store[k])
  }

  /** Adds a section with the requested code and name under hive `hiveId`,
      unless some section, of any hive and in any state, already uses the code.
      The hive id is taken as given, without checking that such a hive exists. */
  function Create(store: Store, hiveId: HiveId, request: UpdateRequest,
                  actor: ActorId, now: Timestamp, newId: SectionId): (r: Result<Applied>)
    requires !HasId(store, newId)
    ensures r.Err? <==> CodeTaken(store, request.code)
    ensures r.Err? ==> r.error == Conflict(DuplicateCode)
    ensures r.Ok? ==> r.value.store == store + [r.value.section]
    ensures r.Ok? ==> var s := r.value.section;
      && s.id == newId && !HasId(store, s.id)
      && s.code == request.code && s.name == request.name
      && s.storeHiveId == hiveId && !s.isDeleted
      && s.created == now && s.lastUpdated == now
      && s.createdBy == actor && s.lastUpdatedBy == actor
  {
    if CodeTaken(store, request.code) then
      Err(Conflict(DuplicateCode))
    else
      var s := Section(newId, request.code, request.name, hiveId, false, now, actor, now, actor);
      Ok(Applied(store + [s], s))
  }

  /** Copies the request's code and name onto the section with id `id` and
      records `actor` as its last editor. The duplicate-code check runs first,
      so a clash wins over a missing id. The last-update time is left as it was. */
  function Update(store: Store, id: SectionId, request: UpdateRequest, actor: ActorId): (r: Result<Applied>)
    ensures CodeTakenByOther(store, request.code, id) ==> r == Err(Conflict(DuplicateCode))
    ensures !CodeTakenByOther(store, request.code, id) && !HasId(store, id) ==> r == Err(NotFound)
    ensures r.Ok? <==> !CodeTakenByOther(store, request.code, id) && HasId(store, id)
    ensures r.Ok? ==> var k := IndexOf(store, id).value;
      && r.value.store == store[k := r.value.section]
      && r.value.section == store[k].(code := request.code, name := request.name, lastUpdatedBy := actor)
  {
    if CodeTakenByOther(store, request.code, id) then
      Err(Conflict(DuplicateCode))
    else
      match IndexOf(store, id)
      case None => Err(NotFound)
      case Some(k) =>
        var s := store[k].(code := request.code, name := request.name, lastUpdatedBy := actor);
        Ok(Applied(store[k := s], s))
  }

  /** Physically removes the section with id `id`, which must already be soft-deleted. */
  function Delete(store: Store, id: SectionId): (r: Result<Store>)
    ensures !HasId(store, id) ==> r == Err(NotFound)
    ensures HasId(store, id) && !store[IndexOf(store, id).value].isDeleted ==> r == Err(Conflict(NotSoftDeleted))
    ensures r.Ok? ==> var k := IndexOf(store, id).value;
      && store[k].isDeleted
      && r.value == store[..k] + store[k + 1..]
  {
    match IndexOf(store, id)
    case None => Err(NotFound)
    case Some(k) =>
      if !store[k].isDeleted then Err(Conflict(NotSoftDeleted))
      else Ok(store[..k] + store[k + 1..])
  }

  /** Sets the soft-delete flag of the section with id `id` to `deleted`,
      stamping the change time and editor; when the flag already has that value
      nothing is written. */
  function SetStatus(store: Store, id: SectionId, deleted: bool, actor: ActorId, now: Timestamp): (r: Result<Store>)
    ensures r.Err? <==> !HasId(store, id)
    ensures r.Err? ==> r.error == NotFound
    ensures r.Ok? ==> var k := IndexOf(store, id).value;
      && (store[k].isDeleted == deleted ==> r.value == store)
      && (store[k].isDeleted != deleted ==>
            r.value == store[k := store[k].(isDeleted := deleted, lastUpdated := now, lastUpdatedBy := actor)])
  {
    match IndexOf(store, id)
    case None => Err(NotFound)
    case Some(k) =>
      if store[k].isDeleted != deleted then
        Ok(store[k := store[k].(isDeleted := deleted, lastUpdated := now, lastUpdatedBy := actor)])
      else
        Ok(store)
  }
}
