/** Sequential runs of service calls against one store.

    New ids come from a counter that only grows, as an identity column hands
    them out; a run executes commands one after another, and a failed command
    leaves the state as it was. Under this sequential execution the store
    invariant holds after every prefix of a run, and a purged id never comes
    back. */
module SectionHistory {
  import opened Results
  import opened Sections
  import opened HiveSectionService
  import opened SectionProperties
  import opened SectionLifecycle

  /** One call into the service that may write to the store. */
  datatype Command =
    | CreateCmd(hiveId: HiveId, request: UpdateRequest, actor: ActorId, now: Timestamp)
    | UpdateCmd(id: SectionId, request: UpdateRequest, actor: ActorId)
    | SetStatusCmd(id: SectionId, deleted: bool, actor: ActorId, now: Timestamp)
    | DeleteCmd(id: SectionId)

  /** The store together with the next id the store will hand out. */
  datatype System = System(store: Store, nextId: SectionId)

  /** Every stored id was handed out before `nextId`. */
  predicate IdsIssued(sys: System) {
    forall i | 0 <= i < |sys.store| :: sys.store[i].id < sys.nextId
  }

  /** The invariant of a run: unique ids and codes, all ids already issued. */
  predicate Consistent(sys: System) {
    Valid(sys.store) && IdsIssued(sys)
  }

  /** Executes one command; a create takes the next id and advances the counter. */
  function Execute(sys: System, cmd: Command): (r: Result<System>)
    requires IdsIssued(sys)
    ensures r.Ok? ==> IdsIssued(r.value) && r.value.nextId >= sys.nextId
  {
    match cmd
    case CreateCmd(hiveId, request, actor, now) =>
      (match Create(sys.store, hiveId, request, actor, now, sys.nextId)
       case Err(e) => Err(e)
       case Ok(a) => Ok(System(a.store, sys.nextId + 1)))
    case UpdateCmd(id, request, actor) =>
      (match Update(sys.store, id, request, actor)
       case Err(e) => Err(e)
       case Ok(a) =>
         assert SameIds(sys.store, a.store);
         Ok(System(a.store, sys.nextId)))
    case SetStatusCmd(id, deleted, actor, now) =>
      (match SetStatus(sys.store, id, deleted, actor, now)
       case Err(e) => Err(e)
       case Ok(after) =>
         assert SameIds(sys.store, after);
         Ok(System(after, sys.nextId)))
    case DeleteCmd(id) =>
      (match Delete(sys.store, id)
       case Err(e) => Err(e)
       case Ok(after) =>
         var k := IndexOf(sys.store, id).value;
         assert forall i | 0 <= i < |after| :: after[i] == sys.store[if i < k then i else i + 1];
         Ok(System(after, sys.nextId)))
  }

  /** One successful command keeps the invariant, moves every id only along
      the lifecycle, and never revives an id that was issued and is absent. */
  lemma ExecuteStep(sys: System, cmd: Command)
    requires Consistent(sys)
    requires Execute(sys, cmd).Ok?
    ensures var next := Execute(sys, cmd).value;
      && Consistent(next)
      && (forall x :: Allowed(StateOf(sys.store, x), StateOf(next.store, x)))
      && (forall x | x < sys.nextId && StateOf(sys.store, x) == Absent :: StateOf(next.store, x) == Absent)
  {
    assert !HasId(sys.store, sys.nextId);
    match cmd
    case CreateCmd(hiveId, request, actor, now) =>
      CreatePreservesValid(sys.store, hiveId, request, actor, now, sys.nextId);
      CreateLifecycle(sys.store, hiveId, request, actor, now, sys.nextId);
    case UpdateCmd(id, request, actor) =>
      UpdatePreservesValid(sys.store, id, request, actor);
      UpdateLifecycle(sys.store, id, request, actor);
    case SetStatusCmd(id, deleted, actor, now) =>
      SetStatusPreservesValid(sys.store, id, deleted, actor, now);
      SetStatusLifecycle(sys.store, id, deleted, actor, now);
    case DeleteCmd(id) =>
      DeletePreservesValid(sys.store, id);
      DeleteLifecycle(sys.store, id);
  }

  /** Executes the commands in order; a failing command changes nothing. */
  function Run(sys: System, cmds: seq<Command>): (r: System)
    requires Consistent(sys)
    ensures Consistent(r)
    ensures r.nextId >= sys.nextId
    ensures forall x | x < sys.nextId && StateOf(sys.store, x) == Absent :: StateOf(r.store, x) == Absent
    decreases |cmds|
  {
    if |cmds| == 0 then
      sys
    else
      match Execute(sys, cmds[0])
      case Err(_) => Run(sys, cmds[1..])
      case Ok(next) =>
        ExecuteStep(sys, cmds[0]);
        Run(next, cmds[1..])
  }

  /** Two creates with distinct, unused codes, executed one after the other,
      both succeed and receive different ids from the counter. */
  lemma TwoCreateCommands(sys: System, hiveId: HiveId, first: UpdateRequest, second: UpdateRequest,
                          actor: ActorId, now: Timestamp)
    requires Consistent(sys)
    requires !CodeTaken(sys.store, first.code) && !CodeTaken(sys.store, second.code)
    requires first.code != second.code
    ensures Execute(sys, CreateCmd(hiveId, first, actor, now)).Ok?
    ensures var mid := Execute(sys, CreateCmd(hiveId, first, actor, now)).value;
      && Execute(mid, CreateCmd(hiveId, second, actor, now)).Ok?
      && var last := Execute(mid, CreateCmd(hiveId, second, actor, now)).value;
         && |last.store| == |sys.store| + 2
         && last.store[|sys.store|].code == first.code
         && last.store[|sys.store| + 1].code == second.code
         && last.store[|sys.store|].id != last.store[|sys.store| + 1].id
  {
    var mid := Execute(sys, CreateCmd(hiveId, first, actor, now)).value;
    assert mid.store[|sys.store|].code == first.code;
    assert forall i | 0 <= i < |sys.store| :: mid.store[i] == sys.store[i];
    assert !CodeTaken(mid.store, second.code);
  }
}
