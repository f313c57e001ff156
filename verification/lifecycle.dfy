/** The per-section lifecycle the service enforces with its soft-delete flag:
    a section is created Active, may move between Active and SoftDeleted any
    number of times, and can be purged only from SoftDeleted. */
module SectionLifecycle {
  import opened Results
  import opened Sections
  import opened HiveSectionService
  import opened SectionProperties

  datatype Lifecycle =
    /** No record with the id: never created, or purged. */
    | Absent
    | Active
    | SoftDeleted

  /** The lifecycle state of id `id` in a store, as seen through look-up by id. */
  function StateOf(store: Store, id: SectionId): Lifecycle {
    match Get(store, id)
    case Err(_) => Absent
    case Ok(s) => if s.isDeleted then SoftDeleted else Active
  }

  /** The moves the lifecycle permits, staying put included. */
  predicate Allowed(from: Lifecycle, to: Lifecycle) {
    || from == to
    || (from == Absent && to == Active)
    || (from == Active && to == SoftDeleted)
    || (from == SoftDeleted && to == Active)
    || (from == SoftDeleted && to == Absent)
  }

  /** Create brings its fresh id from Absent to Active and moves no other id. */
  lemma CreateLifecycle(store: Store, hiveId: HiveId, request: UpdateRequest,
                        actor: ActorId, now: Timestamp, newId: SectionId)
    requires IdsUnique(store) && !HasId(store, newId)
    requires Create(store, hiveId, request, actor, now, newId).Ok?
    ensures var after := Create(store, hiveId, request, actor, now, newId).value.store;
      && StateOf(store, newId) == Absent && StateOf(after, newId) == Active
      && forall x | x != newId :: StateOf(after, x) == StateOf(store, x)
  {
    var after := Create(store, hiveId, request, actor, now, newId).value.store;
    CreateThenGet(store, hiveId, request, actor, now, newId, newId);
    forall x | x != newId ensures StateOf(after, x) == StateOf(store, x) {
      CreateThenGet(store, hiveId, request, actor, now, newId, x);
    }
  }

  /** Update edits fields but moves no id between states. */
  lemma UpdateLifecycle(store: Store, id: SectionId, request: UpdateRequest, actor: ActorId)
    requires IdsUnique(store)
    requires Update(store, id, request, actor).Ok?
    ensures var after := Update(store, id, request, actor).value.store;
      forall x :: StateOf(after, x) == StateOf(store, x)
  {
    var after := Update(store, id, request, actor).value.store;
    forall x ensures StateOf(after, x) == StateOf(store, x) {
      UpdateThenGet(store, id, request, actor, x);
    }
  }

  /** A status change puts the target in the requested state from either live
      state, fails only for an absent id, and moves no other id. */
  lemma SetStatusLifecycle(store: Store, id: SectionId, deleted: bool, actor: ActorId, now: Timestamp)
    ensures SetStatus(store, id, deleted, actor, now).Err? <==> StateOf(store, id) == Absent
    ensures SetStatus(store, id, deleted, actor, now).Ok? ==>
      var after := SetStatus(store, id, deleted, actor, now).value;
      && StateOf(after, id) == (if deleted then SoftDeleted else Active)
      && forall x | x != id :: StateOf(after, x) == StateOf(store, x)
  {
    if SetStatus(store, id, deleted, actor, now).Ok? {
      var after := SetStatus(store, id, deleted, actor, now).value;
      SetStatusThenGet(store, id, deleted, actor, now, id);
      forall x | x != id ensures StateOf(after, x) == StateOf(store, x) {
        SetStatusThenGet(store, id, deleted, actor, now, x);
      }
    }
  }

  /** Purge is possible exactly from SoftDeleted; it makes the id Absent and
      moves no other id. */
  lemma DeleteLifecycle(store: Store, id: SectionId)
    requires IdsUnique(store)
    ensures Delete(store, id).Ok? <==> StateOf(store, id) == SoftDeleted
    ensures Delete(store, id).Ok? ==>
      var after := Delete(store, id).value;
      && StateOf(after, id) == Absent
      && forall x | x != id :: StateOf(after, x) == StateOf(store, x)
  {
    DeleteOnlyWhenSoftDeleted(store, id);
    if Delete(store, id).Ok? {
      var after := Delete(store, id).value;
      DeleteThenGet(store, id, id);
      forall x | x != id ensures StateOf(after, x) == StateOf(store, x) {
        DeleteThenGet(store, id, x);
      }
    }
  }
}
