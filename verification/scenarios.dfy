/** Worked examples of the two-phase deletion protocol on a small store. */
module SectionScenarios {
  import opened Results
  import opened Sections
  import opened HiveSectionService

  /** The section the examples create: code "S1" under hive 1, with id 1. */
  function Aisle(actor: ActorId, now: Timestamp): Section {
    Section(1, "S1", "Aisle", 1, false, now, actor, now, actor)
  }

  /** Creating "S1" under hive 1 in an empty store yields that hive's only
      listing entry, and no entry for another hive. */
  lemma CreateThenList(actor: ActorId, now: Timestamp)
    ensures Create([], 1, UpdateRequest("S1", "Aisle"), actor, now, 1)
         == Ok(Applied([Aisle(actor, now)], Aisle(actor, now)))
    ensures ListByHive([Aisle(actor, now)], 1) == [Aisle(actor, now)]
    ensures ListByHive([Aisle(actor, now)], 2) == []
  {
    var s := Aisle(actor, now);
    assert !CodeTaken([], "S1");
    assert [] + [s] == [s];
    var listed := ListByHive([s], 1);
    assert multiset(listed) == multiset{s} by {
      forall x ensures multiset(listed)[x] == multiset{s}[x] { }
    }
    assert |listed| == |multiset(listed)| == 1;
    assert listed[0] in multiset(listed);
    var other := ListByHive([s], 2);
    assert multiset(other) == multiset{} by {
      forall x ensures multiset(other)[x] == 0 { }
    }
    assert |other| == |multiset(other)| == 0;
  }

  /** A live section cannot be purged; once soft-deleted its code still blocks a
      create under any hive, a purge succeeds, and afterwards its id is not found. */
  lemma SoftDeleteThenPurge(actor: ActorId, now: Timestamp)
    ensures Delete([Aisle(actor, now)], 1) == Err(Conflict(NotSoftDeleted))
    ensures SetStatus([Aisle(actor, now)], 1, true, actor, now).Ok?
    ensures var soft := SetStatus([Aisle(actor, now)], 1, true, actor, now).value;
      && Create(soft, 2, UpdateRequest("S1", "Other"), actor, now, 2) == Err(Conflict(DuplicateCode))
      && Delete(soft, 1) == Ok([])
      && Get([], 1) == Err(NotFound)
  {
    var soft := SetStatus([Aisle(actor, now)], 1, true, actor, now).value;
    assert soft[0].code == "S1";
    assert IndexOf(soft, 1) == Some(0);
    assert soft[..0] + soft[1..] == [];
  }
}
