/** Generational entity IDs: 32 bits of index below 32 bits of generation, fresh ones from a counter and
    recycled ones from a freelist. */
module EntityIds {
  import opened Counting

  const TWO_TO_THE_32: int := 0x1_0000_0000

  type Entity = x: int | 0 <= x < 0x1_0000_0000_0000_0000

  function Index(id: Entity): (i: int)
    ensures 0 <= i < TWO_TO_THE_32
  {
    id % 0x1_0000_0000
  }

  function Generation(id: Entity): (g: int)
    ensures 0 <= g < TWO_TO_THE_32
  {
    id / 0x1_0000_0000
  }

  function Compose(index: int, generation: int): (id: Entity)
    requires 0 <= index < TWO_TO_THE_32 && 0 <= generation < TWO_TO_THE_32
    ensures Index(id) == index && Generation(id) == generation
  {
    generation * 0x1_0000_0000 + index
  }

  /** The counter and the freelist, with the entities now in use and every ID ever handed out, in order. */
  datatype Ids = Ids(nextID: nat, free: seq<Entity>, live: set<Entity>, issued: seq<Entity>)

  const NO_IDS: Ids := Ids(0, [], {}, [])

  // ---------- Operations ----------

  /** A freed ID one generation on; the generation wraps around after 32 bits. */
  function Recycled(last: Entity): Entity {
    Compose(Index(last), (Generation(last) + 1) % TWO_TO_THE_32)
  }

  /** The 64-bit counter with bit 32 set: below 2^32 that is its value at generation 1. */
  function Fresh(counter: nat): (id: Entity)
    ensures counter < TWO_TO_THE_32 ==> id == Compose(counter, 1)
  {
    var i := counter % 0x1_0000_0000_0000_0000;
    if i / 0x1_0000_0000 % 2 == 1 then i else i + 0x1_0000_0000
  }

  /** The index is the low 32 bits and the generation the high 32. */
  lemma EntityParts(id: Entity)
    ensures id == Generation(id) * 0x1_0000_0000 + Index(id)
  {
  }

  /** A fresh ID is its 64-bit counter with bit 32 set and every other bit kept. */
  lemma FreshIs(counter: nat)
    requires counter < 0x1_0000_0000_0000_0000
    ensures Index(Fresh(counter)) == Index(counter)
    ensures Generation(Fresh(counter)) ==
      if Generation(counter) % 2 == 1 then Generation(counter) else Generation(counter) + 1
  {
  }

  predicate CanRecycle(s: Ids) {
    |s.free| > 0 && Recycled(s.free[|s.free| - 1]) != 0
  }

  /** The ID handed out next: the last one freed, one generation on, or a fresh one. A recycled 0 is taken for
      "none free". */
  function NextId(s: Ids): Entity {
    if CanRecycle(s) then Recycled(s.free[|s.free| - 1]) else Fresh(s.nextID + 1)
  }

  function New(s: Ids): Ids {
    var id := NextId(s);
    s.(nextID := if CanRecycle(s) then s.nextID else s.nextID + 1,
       free := if |s.free| > 0 then s.free[..|s.free| - 1] else [],
       live := s.live + {id}, issued := s.issued + [id])
  }

  function Remove(s: Ids, id: Entity): Ids {
    s.(free := s.free + [id], live := s.live - {id})
  }

  // ---------- The invariant ----------

  ghost predicate Pooled(s: Ids, id: Entity) {
    id in s.live || id in s.free
  }

  ghost predicate SomePooledAt(s: Ids, index: int) {
    exists c :: Pooled(s, c) && Index(c) == index
  }

  ghost predicate Inv(s: Ids) {
    && s.nextID < TWO_TO_THE_32
    && Distinct(s.issued)
    && (forall e :: e in s.issued ==> 1 <= Index(e) <= s.nextID && Generation(e) >= 1)
    && (forall c :: Pooled(s, c) ==> c in s.issued)
    && (forall c, d :: c in s.live && d in s.live && Index(c) == Index(d) ==> c == d)
    && (forall c, d :: c in s.live && d in s.free ==> Index(c) != Index(d))
    && (forall i, j :: 0 <= i < j < |s.free| ==> Index(s.free[i]) != Index(s.free[j]))
    && (forall e, c :: e in s.issued && Pooled(s, c) && Index(e) == Index(c) ==> Generation(e) <= Generation(c))
    && (forall e :: e in s.issued ==> SomePooledAt(s, Index(e)))
  }

  /** The part about to be used, generation or counter, has not run out of its 32 bits. */
  predicate HasRoom(s: Ids) {
    if |s.free| > 0 then Generation(s.free[|s.free| - 1]) + 1 < TWO_TO_THE_32 else s.nextID + 1 < TWO_TO_THE_32
  }

  /** With room, an ID is recycled exactly if one is free, and nothing wraps around. */
  lemma NextIdWithRoom(s: Ids)
    requires Inv(s) && HasRoom(s)
    ensures CanRecycle(s) <==> |s.free| > 0
    ensures |s.free| > 0 ==> var last := s.free[|s.free| - 1];
      Pooled(s, last) && Index(NextId(s)) == Index(last) && Generation(NextId(s)) == Generation(last) + 1
    ensures |s.free| == 0 ==> Index(NextId(s)) == s.nextID + 1 && Generation(NextId(s)) == 1
  {
    hide Index, Generation, Compose;
    if |s.free| > 0 {
      var last := s.free[|s.free| - 1];
      assert Pooled(s, last);
      assert Index(last) >= 1;
      IndexOfZero();
    }
  }

  lemma IndexOfZero()
    ensures Index(0) == 0
  {
  }

  /** The ID handed out was never handed out before, and no live entity has its index. */
  lemma NextIdIsNew(s: Ids)
    requires Inv(s) && HasRoom(s)
    ensures NextId(s) !in s.issued
    ensures forall c :: c in s.live ==> Index(c) != Index(NextId(s))
    ensures forall i :: 0 <= i < |s.free| - 1 ==> Index(s.free[i]) != Index(NextId(s))
  {
    hide Index, Generation, NextId;
    NextIdWithRoom(s);
  }

  lemma NewPooled(s: Ids)
    requires Inv(s) && HasRoom(s)
    ensures forall c :: Pooled(New(s), c) <==>
      c == NextId(s) || (Pooled(s, c) && (|s.free| > 0 ==> c != s.free[|s.free| - 1]))
  {
    hide Index, Generation, NextId;
    NextIdIsNew(s);
    NextIdWithRoom(s);
    var r := New(s);
    if |s.free| > 0 {
      var n := |s.free| - 1;
      assert s.free == r.free + [s.free[n]];
      assert forall c :: c in r.free ==> c != s.free[n];
    }
  }

  lemma NewKeepsCover(s: Ids)
    requires Inv(s) && HasRoom(s)
    ensures forall e :: e in New(s).issued ==> SomePooledAt(New(s), Index(e))
  {
    hide Index, Generation, NextId;
    NewPooled(s);
    NextIdWithRoom(s);
    var r := New(s);
    assert Pooled(r, NextId(s));
    forall e | e in r.issued ensures SomePooledAt(r, Index(e)) {
      if e != NextId(s) {
        assert SomePooledAt(s, Index(e));
        var c :| Pooled(s, c) && Index(c) == Index(e);
        if |s.free| > 0 && c == s.free[|s.free| - 1] {
          assert Index(NextId(s)) == Index(e);
        } else {
          assert Pooled(r, c);
        }
      }
    }
  }

  lemma NewKeepsInv(s: Ids)
    requires Inv(s) && HasRoom(s)
    ensures Inv(New(s))
  {
    hide Index, Generation, SomePooledAt, NextId, CanRecycle;
    NextIdIsNew(s);
    NextIdWithRoom(s);
    NewPooled(s);
    NewKeepsCover(s);
    var r := New(s);
    forall e, c | e in r.issued && Pooled(r, c) && Index(e) == Index(c) ensures Generation(e) <= Generation(c) {
      if c == NextId(s) && e != c {
        if |s.free| > 0 {
          assert Pooled(s, s.free[|s.free| - 1]);
        }
      }
    }
  }

  lemma RemoveLiveKeepsInv(s: Ids, id: Entity)
    requires Inv(s) && id in s.live
    ensures Inv(Remove(s, id))
  {
    hide Index, Generation;
    var r := Remove(s, id);
    assert r.free[|s.free|] == id;
    assert forall i :: 0 <= i < |s.free| ==> r.free[i] == s.free[i];
    assert forall c :: Pooled(r, c) <==> Pooled(s, c);
    forall e | e in r.issued ensures SomePooledAt(r, Index(e)) {
      var c :| Pooled(s, c) && Index(c) == Index(e);
      assert Pooled(r, c);
    }
  }

  lemma RemoveOtherBreaksInv(s: Ids, id: Entity)
    requires Inv(s) && id !in s.live
    ensures !Inv(Remove(s, id))
  {
    hide Index, Generation;
    var r := Remove(s, id);
    assert r.free[|s.free|] == id;
    assert Pooled(r, id) && id in r.free;
    if id in s.issued {
      assert SomePooledAt(s, Index(id));
      var c :| Pooled(s, c) && Index(c) == Index(id);
      if c in s.live {
        assert c in r.live;
      } else {
        var i :| 0 <= i < |s.free| && s.free[i] == c;
        assert Index(r.free[i]) == Index(r.free[|s.free|]);
      }
    }
  }

  /** Removing keeps the invariant exactly if the entity is live: freeing anything else, such as an entity
      already removed, breaks it. */
  lemma RemoveKeepsInvIff(s: Ids, id: Entity)
    requires Inv(s)
    ensures Inv(Remove(s, id)) <==> id in s.live
  {
    hide Inv;
    if id in s.live {
      RemoveLiveKeepsInv(s, id);
    } else {
      RemoveOtherBreaksInv(s, id);
    }
  }

  /** Creating keeps the invariant exactly if the generation, or the counter if no ID is free, has room. */
  lemma NewKeepsInvIff(s: Ids)
    requires Inv(s)
    ensures Inv(New(s)) <==> HasRoom(s)
  {
    if HasRoom(s) {
      NewKeepsInv(s);
    } else if |s.free| > 0 {
      var last := s.free[|s.free| - 1];
      assert Pooled(s, last) && Index(last) >= 1;
      assert Generation(NextId(s)) == 0 && NextId(s) in New(s).issued;
    }
  }

  /** Removing one entity twice makes the next two IDs equal. */
  lemma DoubleRemoveRepeats(s: Ids, id: Entity)
    requires Inv(s) && id in s.live
    ensures var r := Remove(Remove(s, id), id); NextId(New(r)) == NextId(r)
  {
    hide Index, Generation, Inv, Compose;
    assert Index(id) >= 1 by { LiveIndex(s, id); }
    IndexOfZero();
  }

  lemma LiveIndex(s: Ids, id: Entity)
    requires Inv(s) && id in s.live
    ensures Index(id) >= 1
  {
    assert Pooled(s, id);
  }

  /** Removing several entities, one after the other. */
  function RemoveAll(s: Ids, ids: seq<Entity>): Ids {
    if |ids| == 0 then s else Remove(RemoveAll(s, ids[..|ids| - 1]), ids[|ids| - 1])
  }

  lemma {:induction false} RemoveAllIs(s: Ids, ids: seq<Entity>)
    ensures var r := RemoveAll(s, ids);
      r.nextID == s.nextID && r.issued == s.issued && r.free == s.free + ids
      && forall c :: c in r.live <==> c in s.live && c !in ids
  {
    if |ids| > 0 {
      RemoveAllIs(s, ids[..|ids| - 1]);
      assert ids == ids[..|ids| - 1] + [ids[|ids| - 1]];
    }
  }

  lemma {:induction false} RemoveAllKeepsInv(s: Ids, ids: seq<Entity>)
    requires Inv(s) && Distinct(ids) && forall id :: id in ids ==> id in s.live
    ensures Inv(RemoveAll(s, ids))
  {
    hide Inv;
    if |ids| > 0 {
      var init := ids[..|ids| - 1];
      RemoveAllKeepsInv(s, init);
      RemoveAllIs(s, init);
      RemoveKeepsInvIff(RemoveAll(s, init), ids[|ids| - 1]);
    }
  }

  /** Removing several keeps the invariant exactly if all are live and no two the same. */
  lemma RemoveAllKeepsInvIff(s: Ids, ids: seq<Entity>)
    requires Inv(s)
    ensures Inv(RemoveAll(s, ids)) <==> Distinct(ids) && forall id :: id in ids ==> id in s.live
  {
    hide Inv;
    if Inv(RemoveAll(s, ids)) {
      RemovedWereLive(s, ids);
    } else if Distinct(ids) && forall id :: id in ids ==> id in s.live {
      RemoveAllKeepsInv(s, ids);
    }
  }

  lemma RemovedWereLive(s: Ids, ids: seq<Entity>)
    requires Inv(s) && Inv(RemoveAll(s, ids))
    ensures Distinct(ids) && forall id :: id in ids ==> id in s.live
  {
    hide Index, Generation, RemoveAll, Distinct;
    var r := RemoveAll(s, ids);
    RemoveAllIs(s, ids);
    FreedAreDistinct(s.free, ids, r);
    forall id | id in ids ensures id in s.live {
      assert Pooled(r, id);
      assert SomePooledAt(s, Index(id));
      var c :| Pooled(s, c) && Index(c) == Index(id);
      RemovedIsPooled(s, r, ids, id, c);
    }
  }

  lemma FreedAreDistinct(free: seq<Entity>, ids: seq<Entity>, r: Ids)
    requires Inv(r) && r.free == free + ids
    ensures Distinct(ids)
  {
    hide Index, Generation;
    forall i, j | 0 <= i < j < |ids| ensures ids[i] != ids[j] {
      assert r.free[|free| + i] == ids[i] && r.free[|free| + j] == ids[j];
    }
  }

  /** After removals that kept the invariant, what was pooled before at a removed ID's index is that ID. */
  lemma RemovedIsPooled(s: Ids, r: Ids, ids: seq<Entity>, id: Entity, c: Entity)
    requires Inv(r) && r.free == s.free + ids && id in ids
    requires forall e :: e in r.live <==> e in s.live && e !in ids
    requires Pooled(s, c) && Index(c) == Index(id)
    ensures id in s.live
  {
    hide Index, Generation;
    var i :| 0 <= i < |ids| && ids[i] == id;
    assert r.free[|s.free| + i] == id && id in r.free;
    if c in s.free {
      FreedElsewhere(s.free, ids, r, c, id);
      assert false;
    } else if c in ids {
      var j :| 0 <= j < |ids| && ids[j] == c;
      assert r.free[|s.free| + j] == c;
    }
  }

  lemma FreedElsewhere(free: seq<Entity>, ids: seq<Entity>, r: Ids, c: Entity, id: Entity)
    requires Inv(r) && r.free == free + ids && c in free && id in ids
    ensures Index(c) != Index(id)
  {
    hide Index, Generation;
    var i :| 0 <= i < |ids| && ids[i] == id;
    var j :| 0 <= j < |free| && free[j] == c;
    assert r.free[|free| + i] == id && r.free[j] == c;
  }

  // ---------- Whole runs ----------

  datatype Op = Create | Destroy(id: Entity)

  ghost predicate Legal(s: Ids, op: Op) {
    match op
    case Create => HasRoom(s)
    case Destroy(id) => id in s.live
  }

  ghost function Apply(s: Ids, op: Op): Ids
    requires Legal(s, op)
  {
    match op
    case Create => New(s)
    case Destroy(id) => Remove(s, id)
  }

  /** A run in which entities are destroyed only while live. */
  ghost predicate IsRun(states: seq<Ids>) {
    && |states| > 0 && states[0] == NO_IDS
    && forall i :: 0 <= i < |states| - 1 ==> Follows(states[i], states[i + 1])
  }

  ghost predicate Follows(s: Ids, t: Ids) {
    exists op :: Legal(s, op) && t == Apply(s, op)
  }

  /** Over every run no ID is handed out twice and live entities have distinct indices. */
  lemma {:induction false} RunKeepsIdsUnique(states: seq<Ids>)
    requires IsRun(states)
    ensures var s := states[|states| - 1];
      Inv(s) && Distinct(s.issued) && forall c, d :: c in s.live && d in s.live && Index(c) == Index(d) ==> c == d
    decreases |states|
  {
    hide Inv, Legal, Apply, Index;
    if |states| == 1 {
      assert Inv(NO_IDS) by { NothingIssued(); }
    } else {
      var n := |states| - 1;
      RunKeepsIdsUnique(states[..n]);
      assert Follows(states[n - 1], states[n - 1 + 1]);
      var op :| Legal(states[n - 1], op) && states[n] == Apply(states[n - 1], op);
      ApplyKeepsInv(states[n - 1], op);
    }
    InvMeansUnique(states[|states| - 1]);
  }

  lemma NothingIssued()
    ensures Inv(NO_IDS)
  {
  }

  lemma InvMeansUnique(s: Ids)
    requires Inv(s)
    ensures Distinct(s.issued) && forall c, d :: c in s.live && d in s.live && Index(c) == Index(d) ==> c == d
  {
  }

  lemma ApplyKeepsInv(s: Ids, op: Op)
    requires Inv(s) && Legal(s, op)
    ensures Inv(Apply(s, op))
  {
    hide Inv;
    match op {
      case Create => NewKeepsInv(s);
      case Destroy(id) => RemoveKeepsInvIff(s, id);
    }
  }
}
