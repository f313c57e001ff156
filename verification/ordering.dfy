/** Ordering of sections by id and selection by parent hive: the two query
    shapes the listing operations use. */
module SectionOrdering {
  import opened Sections

  /** Ids never decrease along the sequence. */
  predicate Ascending(xs: seq<Section>) {
    forall i, j | 0 <= i < j < |xs| :: xs[i].id <= xs[j].id
  }

  /** Ids strictly increase along the sequence. */
  predicate StrictlyAscending(xs: seq<Section>) {
    forall i, j | 0 <= i < j < |xs| :: xs[i].id < xs[j].id
  }

  /** Every record of `xs` has an id of at least `lo`. */
  predicate IdsAtLeast(xs: seq<Section>, lo: SectionId) {
    forall y | y in xs :: lo <= y.id
  }

  /** Every record of `xs` has an id greater than `lo`. */
  predicate IdsAbove(xs: seq<Section>, lo: SectionId) {
    forall y | y in xs :: lo < y.id
  }

  /** No record of `xs` carries the id. */
  predicate AvoidsId(xs: seq<Section>, id: SectionId) {
    forall y | y in xs :: y.id != id
  }

  /** Records of a sequence built as `xs` plus `s` come from `xs` or are `s`. */
  lemma MembersOfUnion(r: seq<Section>, xs: seq<Section>, s: Section)
    requires multiset(r) == multiset(xs) + multiset{s}
    ensures forall y | y in r :: y in xs || y == s
  {
    forall y | y in r ensures y in xs || y == s {
      assert y in multiset(r);
    }
  }

  /** Records of a permutation of `xs` come from `xs`. */
  lemma MembersOfPermutation(r: seq<Section>, xs: seq<Section>)
    requires multiset(r) == multiset(xs)
    ensures forall y | y in r :: y in xs
  {
    forall y | y in r ensures y in xs {
      assert y in multiset(r);
    }
  }

  /** Putting a record in front of a sorted sequence of no smaller ids keeps it sorted,
      and strictly so when the ids after it are strictly larger. */
  lemma ConsAscending(h: Section, rest: seq<Section>)
    requires Ascending(rest)
    requires IdsAtLeast(rest, h.id)
    ensures Ascending([h] + rest)
    ensures StrictlyAscending(rest) && IdsAbove(rest, h.id) ==> StrictlyAscending([h] + rest)
  {
    var r := [h] + rest;
    forall i, j | 0 <= i < j < |r| ensures r[i].id <= r[j].id {
      assert r[j] == rest[j - 1];
      if i > 0 {
        assert r[i] == rest[i - 1];
      } else {
        assert rest[j - 1] in rest;
      }
    }
    if StrictlyAscending(rest) && IdsAbove(rest, h.id) {
      forall i, j | 0 <= i < j < |r| ensures r[i].id < r[j].id {
        assert r[j] == rest[j - 1];
        if i > 0 {
          assert r[i] == rest[i - 1];
        } else {
          assert rest[j - 1] in rest;
        }
      }
    }
  }

  /** The head of a sorted sequence bounds the ids of its tail. */
  lemma HeadBoundsTail(xs: seq<Section>)
    requires |xs| > 0 && Ascending(xs)
    ensures IdsAtLeast(xs[1..], xs[0].id)
    ensures StrictlyAscending(xs) ==> IdsAbove(xs[1..], xs[0].id)
  {
    forall y | y in xs[1..] ensures xs[0].id <= y.id {
      var k :| 0 <= k < |xs[1..]| && xs[1..][k] == y;
      assert xs[k + 1] == y;
    }
    if StrictlyAscending(xs) {
      forall y | y in xs[1..] ensures xs[0].id < y.id {
        var k :| 0 <= k < |xs[1..]| && xs[1..][k] == y;
        assert xs[k + 1] == y;
      }
    }
  }

  /** Inserting in front of records whose ids are no smaller keeps the order. */
  lemma InsertFront(s: Section, xs: seq<Section>)
    requires Ascending(xs)
    requires |xs| == 0 || s.id <= xs[0].id
    ensures Ascending([s] + xs)
    ensures StrictlyAscending(xs) && AvoidsId(xs, s.id) ==> StrictlyAscending([s] + xs)
  {
    if |xs| > 0 {
      HeadBoundsTail(xs);
      assert xs == [xs[0]] + xs[1..];
    }
    assert IdsAtLeast(xs, s.id);
    ConsAscending(s, xs);
  }

  /** Keeping the head of a sorted sequence in front of the insertion into its tail keeps the order. */
  lemma InsertBehind(s: Section, xs: seq<Section>, rest: seq<Section>)
    requires Ascending(xs) && |xs| > 0 && xs[0].id < s.id
    requires Ascending(rest) && multiset(rest) == multiset(xs[1..]) + multiset{s}
    requires StrictlyAscending(xs) && AvoidsId(xs, s.id) ==> StrictlyAscending(rest)
    ensures Ascending([xs[0]] + rest)
    ensures StrictlyAscending(xs) && AvoidsId(xs, s.id) ==> StrictlyAscending([xs[0]] + rest)
  {
    HeadBoundsTail(xs);
    MembersOfUnion(rest, xs[1..], s);
    ConsAscending(xs[0], rest);
  }

  /** The tail of a strictly ascending sequence avoiding an id is one too. */
  lemma StrictTail(xs: seq<Section>, id: SectionId)
    requires |xs| > 0
    ensures StrictlyAscending(xs) ==> StrictlyAscending(xs[1..])
    ensures AvoidsId(xs, id) ==> AvoidsId(xs[1..], id)
  {
    assert forall y | y in xs[1..] :: y in xs;
  }

  /** Places `s` before the first record whose id is not smaller than its own. */
  function InsertById(s: Section, xs: seq<Section>): (r: seq<Section>)
    requires Ascending(xs)
    ensures Ascending(r)
    ensures multiset(r) == multiset(xs) + multiset{s}
    ensures StrictlyAscending(xs) && AvoidsId(xs, s.id) ==> StrictlyAscending(r)
    decreases |xs|
  {
    if |xs| == 0 || s.id <= xs[0].id then
      InsertFront(s, xs);
      [s] + xs
    else
      assert xs == [xs[0]] + xs[1..];
      StrictTail(xs, s.id);
      var rest := InsertById(s, xs[1..]);
      InsertBehind(s, xs, rest);
      [xs[0]] + rest
  }

  /** A permutation of the tail of a store with unique ids avoids the head's id. */
  lemma SortStep(xs: seq<Section>, sorted: seq<Section>)
    requires |xs| > 0
    requires multiset(sorted) == multiset(xs[1..])
    ensures multiset(xs) == multiset(sorted) + multiset{xs[0]}
    ensures IdsUnique(xs) ==> IdsUnique(xs[1..]) && AvoidsId(sorted, xs[0].id)
  {
    assert xs == [xs[0]] + xs[1..];
    MembersOfPermutation(sorted, xs[1..]);
    if IdsUnique(xs) {
      forall x | x in sorted ensures x.id != xs[0].id {
        var k :| 0 <= k < |xs[1..]| && xs[1..][k] == x;
        assert xs[k + 1] == x;
      }
    }
  }

  /** Sorts records by id; among equal ids, earlier records stay first. */
  function SortById(xs: seq<Section>): (r: seq<Section>)
    ensures Ascending(r)
    ensures multiset(r) == multiset(xs)
    ensures IdsUnique(xs) ==> StrictlyAscending(r)
    decreases |xs|
  {
    if |xs| == 0 then
      []
    else
      var sorted := SortById(xs[1..]);
      SortStep(xs, sorted);
      InsertById(xs[0], sorted)
  }

  /** The records of one hive, in store order. */
  function OfHive(store: Store, hiveId: HiveId): (r: seq<Section>)
    ensures forall s | s in r :: s.storeHiveId == hiveId
    ensures forall s :: multiset(r)[s] == if s.storeHiveId == hiveId then multiset(store)[s] else 0
    ensures IdsUnique(store) ==> IdsUnique(r)
    decreases |store|
  {
    if |store| == 0 then
      []
    else
      var h, tail := store[0], store[1..];
      assert store == [h] + tail;
      var rest := OfHive(tail, hiveId);
      if h.storeHiveId == hiveId then
        assert IdsUnique(store) ==> IdsUnique([h] + rest) by {
          if IdsUnique(store) {
            MembersOfFilter(rest, tail, hiveId);
            ConsIdsUnique(h, rest, tail, store);
          }
        }
        [h] + rest
      else
        rest
  }

  /** Prepending the head of a store with unique ids to records of its tail keeps ids unique. */
  lemma ConsIdsUnique(h: Section, rest: seq<Section>, tail: Store, store: Store)
    requires store == [h] + tail && IdsUnique(store)
    requires IdsUnique(rest)
    requires forall y | y in rest :: y in tail
    ensures IdsUnique([h] + rest)
  {
    var r := [h] + rest;
    forall i, j | 0 <= i < j < |r| ensures r[i].id != r[j].id {
      assert r[j] == rest[j - 1];
      if i == 0 {
        assert rest[j - 1] in rest;
        var k :| 0 <= k < |tail| && tail[k] == rest[j - 1];
        assert store[0] == h && store[k + 1] == tail[k];
      } else {
        assert r[i] == rest[i - 1];
      }
    }
  }

  /** Records of a hive selection come from the store it selects from. */
  lemma MembersOfFilter(r: seq<Section>, store: Store, hiveId: HiveId)
    requires forall s :: multiset(r)[s] == if s.storeHiveId == hiveId then multiset(store)[s] else 0
    ensures forall y | y in r :: y in store
  {
    forall y | y in r ensures y in store {
      assert y in multiset(r);
    }
  }

  /** Two non-empty strictly ascending sequences holding the same records start alike. */
  lemma SameHead(a: seq<Section>, b: seq<Section>)
    requires StrictlyAscending(a) && StrictlyAscending(b)
    requires |a| > 0 && multiset(a) == multiset(b)
    ensures |b| > 0 && a[0] == b[0]
  {
    assert a[0] in multiset(b);
    var i :| 0 <= i < |b| && b[i] == a[0];
    assert b[0] in multiset(a);
    var j :| 0 <= j < |a| && a[j] == b[0];
    assert a[0].id <= b[0].id;
  }

  /** Removing equal heads from equal multisets leaves equal multisets. */
  lemma SameTails(a: seq<Section>, b: seq<Section>)
    requires |a| > 0 && |b| > 0 && a[0] == b[0]
    requires multiset(a) == multiset(b)
    ensures multiset(a[1..]) == multiset(b[1..])
  {
    assert a == [a[0]] + a[1..];
    assert b == [b[0]] + b[1..];
    assert multiset(a) == multiset{a[0]} + multiset(a[1..]);
    assert multiset(b) == multiset{a[0]} + multiset(b[1..]);
    assert multiset(a[1..]) == multiset(a) - multiset{a[0]};
  }

  /** Two strictly ascending sequences holding the same records are equal:
      the id order determines a listing completely. */
  lemma {:induction false} StrictlyAscendingUnique(a: seq<Section>, b: seq<Section>)
    requires StrictlyAscending(a) && StrictlyAscending(b)
    requires multiset(a) == multiset(b)
    ensures a == b
    decreases |a|
  {
    if |a| == 0 {
      assert |b| == |multiset(b)| == 0;
    } else {
      SameHead(a, b);
      SameTails(a, b);
      StrictlyAscendingUnique(a[1..], b[1..]);
      assert a == [a[0]] + a[1..];
      assert b == [b[0]] + b[1..];
    }
  }
}
