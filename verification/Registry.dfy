/** The entity registry: generational IDs over component stores, and iteration that tolerates mutation.

    Three of the registry's stores are modelled; the others hold other component types and are treated alike. */
module Registry {
  import opened Counting
  import opened EntityIds
  import opened ComponentStore
  import opened Components

  /** Entities that are all live, in a registry whose live entities have distinct indices, leave the index of
      one more such entity free. */
  lemma IndexFreeAmong<T>(dense: seq<Entity>, values: seq<T>, live: set<Entity>, id: Entity)
    requires |dense| == |values| && MapOf(dense, values).Keys <= live
    requires forall c :: c in live && Index(c) == Index(id) ==> c == id
    ensures IndexFree(dense, id)
  {
    hide Index;
    forall k | 0 <= k < |dense| && Index(dense[k]) == Index(id) ensures dense[k] == id {
      assert dense[k] in MapOf(dense, values);
    }
  }

  // ---------- What iteration does ----------

  /** What a callback does to the registry: it may hand out IDs, set or delete the position of any ID, live or
      not, and destroy live entities. */
  datatype Op = Create | Put(id: Entity, pos: Position) | Drop(id: Entity) | Destroy(id: Entity)

  datatype Callback = Callback(ops: seq<Op>, goOn: bool)

  /** The IDs in use and the position store's map. */
  datatype World = World(ids: Ids, positions: map<Entity, Position>)

  /** No other entity with a position has this one's index. */
  predicate IndexFreeIn(positions: map<Entity, Position>, id: Entity) {
    forall c :: c in positions && Index(c) == Index(id) ==> c == id
  }

  /** Destroying what is not live, storing under an index that another ID holds, or asking for more than the
      32-bit limits allow, does nothing here. */
  function Performed(w: World, op: Op): World {
    match op
    case Create => if HasRoom(w.ids) then w.(ids := New(w.ids)) else w
    case Put(id, pos) =>
      if IndexFreeIn(w.positions, id) && |w.positions| < MAX_ENTITIES then w.(positions := w.positions[id := pos])
      else w
    case Drop(id) => w.(positions := w.positions - {id})
    case Destroy(id) => if id in w.ids.live then World(Remove(w.ids, id), w.positions - {id}) else w
  }

  function PerformedAll(w: World, ops: seq<Op>): World {
    if |ops| == 0 then w else Performed(PerformedAll(w, ops[..|ops| - 1]), ops[|ops| - 1])
  }

  function NthCallback(script: seq<Callback>, n: nat): Callback {
    if n < |script| then script[n] else Callback([], true)
  }

  function AfterCallbacks(w: World, script: seq<Callback>, n: nat): World {
    if n == 0 then w else PerformedAll(AfterCallbacks(w, script, n - 1), NthCallback(script, n - 1).ops)
  }

  /** The entities with a position after n callbacks of a script. */
  function PresentAfter(w: World, script: seq<Callback>): nat -> set<Entity> {
    (n: nat) => AfterCallbacks(w, script, n).positions.Keys
  }

  function GoOnAfter(script: seq<Callback>): nat -> bool {
    (n: nat) => NthCallback(script, n).goOn
  }

  /** The entities visited of the rest of a snapshot, after n callbacks have run. Of the callbacks only this
      matters: which entities they leave present, and whether they ask to go on. */
  function Visits(present: nat -> set<Entity>, goOn: nat -> bool, rest: seq<Entity>, n: nat): seq<Entity>
    decreases |rest|
  {
    if |rest| == 0 then []
    else if rest[0] !in present(n) then Visits(present, goOn, rest[1..], n)
    else if !goOn(n) then [rest[0]]
    else [rest[0]] + Visits(present, goOn, rest[1..], n + 1)
  }

  /** One place of the snapshot, after the given visits. */
  lemma VisitsNext(w: World, script: seq<Callback>, snapshot: seq<Entity>, i: nat, visited: seq<Entity>)
    requires i < |snapshot|
    ensures var p, g, n := PresentAfter(w, script), GoOnAfter(script), |visited|;
      visited + Visits(p, g, snapshot[i..], n) ==
        if snapshot[i] !in AfterCallbacks(w, script, n).positions then visited + Visits(p, g, snapshot[i + 1..], n)
        else if !NthCallback(script, n).goOn then visited + [snapshot[i]]
        else (visited + [snapshot[i]]) + Visits(p, g, snapshot[i + 1..], n + 1)
    ensures AfterCallbacks(w, script, |visited| + 1) ==
      PerformedAll(AfterCallbacks(w, script, |visited|), NthCallback(script, |visited|).ops)
  {
    hide PerformedAll, Visits;
    var p, g, n := PresentAfter(w, script), GoOnAfter(script), |visited|;
    VisitsUnfold(p, g, snapshot, i, n);
    Regroup(visited, [snapshot[i]], Visits(p, g, snapshot[i + 1..], n + 1));
  }

  lemma VisitsUnfold(present: nat -> set<Entity>, goOn: nat -> bool, snapshot: seq<Entity>, i: nat, n: nat)
    requires i < |snapshot|
    ensures Visits(present, goOn, snapshot[i..], n) ==
      if snapshot[i] !in present(n) then Visits(present, goOn, snapshot[i + 1..], n)
      else if !goOn(n) then [snapshot[i]]
      else [snapshot[i]] + Visits(present, goOn, snapshot[i + 1..], n + 1)
  {
    assert snapshot[i..][0] == snapshot[i] && snapshot[i..][1..] == snapshot[i + 1..];
  }

  lemma Regroup<T>(a: seq<T>, b: seq<T>, c: seq<T>)
    ensures a + (b + c) == (a + b) + c
  {
  }

  lemma VisitsStart(w: World, script: seq<Callback>, snapshot: seq<Entity>)
    ensures AfterCallbacks(w, script, 0) == w && snapshot[0..] == snapshot
  {
  }

  lemma NoVisits(present: nat -> set<Entity>, goOn: nat -> bool, snapshot: seq<Entity>, n: nat)
    ensures Visits(present, goOn, snapshot[|snapshot|..], n) == []
  {
  }

  lemma ContentsSize<T>(dense: seq<Entity>, values: seq<T>, sparse: Pages)
    requires |dense| == |values| && Mutual(dense, sparse)
    ensures |MapOf(dense, values)| == |dense|
  {
    MutualPlace(dense, sparse, 0);
    DistinctSetSize(dense);
    assert MapOf(dense, values).Keys == Elements(dense);
  }

  lemma IndexFreeInContents(dense: seq<Entity>, values: seq<Position>, id: Entity)
    requires |dense| == |values|
    ensures IndexFree(dense, id) <==> IndexFreeIn(MapOf(dense, values), id)
  {
    hide Index;
    if IndexFreeIn(MapOf(dense, values), id) {
      IndexFreeAmong(dense, values, MapOf(dense, values).Keys, id);
    }
  }

  /** Increasing places in the snapshot, one for each entity visited. */
  ghost predicate Places(at: seq<int>, snapshot: seq<Entity>, visited: seq<Entity>) {
    && |at| == |visited|
    && (forall k :: 0 <= k < |at| ==> 0 <= at[k] < |snapshot| && snapshot[at[k]] == visited[k])
    && (forall k, l :: 0 <= k < l < |at| ==> at[k] < at[l])
  }

  /** Iteration visits a subsequence of its snapshot, whatever the callbacks do. */
  lemma {:induction false} VisitsInOrder(present: nat -> set<Entity>, goOn: nat -> bool, rest: seq<Entity>, n: nat)
      returns (at: seq<int>)
    ensures Places(at, rest, Visits(present, goOn, rest, n))
    decreases |rest|
  {
    hide Places;
    if |rest| == 0 {
      at := [];
      assert Places(at, rest, []) by { NoPlaces(rest); }
    } else if rest[0] !in present(n) {
      var later := VisitsInOrder(present, goOn, rest[1..], n);
      at := PlacesSkip(later, rest, Visits(present, goOn, rest[1..], n));
    } else if !goOn(n) {
      NoPlaces(rest[1..]);
      at := PlacesTake([], rest, []);
      assert [rest[0]] + [] == [rest[0]];
    } else {
      var later := VisitsInOrder(present, goOn, rest[1..], n + 1);
      at := PlacesTake(later, rest, Visits(present, goOn, rest[1..], n + 1));
    }
  }

  lemma NoPlaces(rest: seq<Entity>)
    ensures Places([], rest, [])
  {
  }

  lemma PlacesSkip(later: seq<int>, rest: seq<Entity>, visited: seq<Entity>) returns (at: seq<int>)
    requires |rest| > 0 && Places(later, rest[1..], visited)
    ensures Places(at, rest, visited)
    ensures |at| == |later| && forall k :: 0 <= k < |at| ==> at[k] > 0
  {
    at := seq(|later|, k requires 0 <= k < |later| => later[k] + 1);
  }

  lemma PlacesTake(later: seq<int>, rest: seq<Entity>, visited: seq<Entity>) returns (at: seq<int>)
    requires |rest| > 0 && Places(later, rest[1..], visited)
    ensures Places(at, rest, [rest[0]] + visited)
  {
    at := PlacesSkip(later, rest, visited);
    at := [0] + at;
  }

  /** The entity visited k-th was still present after the k callbacks before it, whatever they did; and each of
      those callbacks asked to go on. */
  lemma {:induction false} VisitedIsPresent(
      present: nat -> set<Entity>, goOn: nat -> bool, rest: seq<Entity>, n: nat, k: nat)
    requires k < |Visits(present, goOn, rest, n)|
    ensures Visits(present, goOn, rest, n)[k] in present(n + k)
    ensures k > 0 ==> goOn(n + k - 1)
    decreases |rest|
  {
    if rest[0] !in present(n) {
      VisitedIsPresent(present, goOn, rest[1..], n, k);
    } else if k > 0 {
      VisitedIsPresent(present, goOn, rest[1..], n + 1, k - 1);
    }
  }

  /** And an entity of the snapshot that stays present throughout is visited, unless a callback stops first. */
  lemma {:induction false} PresentIsVisited(
      present: nat -> set<Entity>, goOn: nat -> bool, rest: seq<Entity>, n: nat, id: Entity)
    requires id in rest
    requires forall k :: n <= k <= n + |Visits(present, goOn, rest, n)| ==> id in present(k)
    requires forall k :: n <= k < n + |Visits(present, goOn, rest, n)| ==> goOn(k)
    ensures id in Visits(present, goOn, rest, n)
    decreases |rest|
  {
    assert id in present(n);
    if rest[0] !in present(n) {
      PresentIsVisited(present, goOn, rest[1..], n, id);
    } else if rest[0] != id {
      PresentIsVisited(present, goOn, rest[1..], n + 1, id);
    }
  }

  /** So no entity is visited twice, and none that was not in the snapshot. */
  lemma VisitsDistinct(present: nat -> set<Entity>, goOn: nat -> bool, snapshot: seq<Entity>)
    requires Distinct(snapshot)
    ensures var visited := Visits(present, goOn, snapshot, 0);
      Distinct(visited) && forall id :: id in visited ==> id in snapshot
  {
    var at := VisitsInOrder(present, goOn, snapshot, 0);
  }

  lemma PerformedKeepsIds(w: World, op: Op)
    requires Inv(w.ids)
    ensures Inv(Performed(w, op).ids) && w.ids.issued <= Performed(w, op).ids.issued
  {
    hide Inv, NextId;
    if op.Create? && HasRoom(w.ids) {
      NewKeepsInv(w.ids);
    } else if op.Destroy? && op.id in w.ids.live {
      RemoveKeepsInvIff(w.ids, op.id);
    }
  }

  lemma {:induction false} PerformedAllKeepsIds(w: World, ops: seq<Op>)
    requires Inv(w.ids)
    ensures Inv(PerformedAll(w, ops).ids) && w.ids.issued <= PerformedAll(w, ops).ids.issued
    decreases |ops|
  {
    hide Inv, Performed;
    if |ops| > 0 {
      PerformedAllKeepsIds(w, ops[..|ops| - 1]);
      PerformedKeepsIds(PerformedAll(w, ops[..|ops| - 1]), ops[|ops| - 1]);
    }
  }

  lemma {:induction false} CallbacksKeepIds(w: World, script: seq<Callback>, n: nat)
    requires Inv(w.ids)
    ensures Inv(AfterCallbacks(w, script, n).ids) && w.ids.issued <= AfterCallbacks(w, script, n).ids.issued
  {
    hide Inv, PerformedAll, NthCallback;
    if n > 0 {
      CallbacksKeepIds(w, script, n - 1);
      PerformedAllKeepsIds(AfterCallbacks(w, script, n - 1), NthCallback(script, n - 1).ops);
    }
  }

  /** An ID handed out by a callback, such as one recycled from an entity of the snapshot, is never visited. */
  lemma CreatedIsNotVisited(
      w: World, present: nat -> set<Entity>, goOn: nat -> bool, snapshot: seq<Entity>, script: seq<Callback>, n: nat, j: nat)
    requires Inv(w.ids) && Distinct(snapshot) && forall id :: id in snapshot ==> id in w.ids.issued
    requires |w.ids.issued| <= j < |AfterCallbacks(w, script, n).ids.issued|
    ensures AfterCallbacks(w, script, n).ids.issued[j] !in Visits(present, goOn, snapshot, 0)
  {
    hide AfterCallbacks, Visits;
    CallbacksKeepIds(w, script, n);
    VisitsDistinct(present, goOn, snapshot);
    var after := AfterCallbacks(w, script, n).ids;
    assert Distinct(after.issued) by { InvMeansUnique(after); }
    forall i | 0 <= i < |w.ids.issued| ensures w.ids.issued[i] != after.issued[j] {
      assert after.issued[i] == w.ids.issued[i];
    }
  }

  lemma MutualDistinct(dense: seq<Entity>, sparse: Pages)
    requires Mutual(dense, sparse)
    ensures Distinct(dense)
  {
    hide Index;
  }

  lemma SnapshotIssued<T>(dense: seq<Entity>, values: seq<T>, s: Ids)
    requires |dense| == |values| && Inv(s) && MapOf(dense, values).Keys <= s.live
    ensures forall id :: id in dense ==> id in s.issued
  {
    hide Index, Generation;
    forall id | id in dense ensures id in s.issued {
      assert id in MapOf(dense, values) && Pooled(s, id);
    }
  }

  // ---------- The registry object ----------

  class Registry {
    const positions: Store<Position>
    const metadata: Store<Metadata>
    const stats: Store<Stats>
    var nextID: nat
    var free: seq<Entity>
    // Bookkeeping of the model: the entities in use, and every ID handed out so far.
    var live: set<Entity>
    var issued: seq<Entity>

    function IdState(): Ids
      reads this
    {
      Ids(nextID, free, live, issued)
    }

    ghost predicate Valid()
      reads this, positions, metadata, stats
    {
      && positions as object != metadata && metadata as object != stats && positions as object != stats
      && positions.Valid() && metadata.Valid() && stats.Valid()
    }

    /** Every ID in use came from this registry's allocator, and only live entities have components. */
    ghost predicate Disciplined()
      requires Valid()
      reads this, positions, metadata, stats
    {
      && Inv(IdState())
      && positions.Contents().Keys <= live && metadata.Contents().Keys <= live && stats.Contents().Keys <= live
    }

    constructor ()
      ensures Valid() && IdState() == NO_IDS && Disciplined()
      ensures fresh(positions) && fresh(metadata) && fresh(stats)
    {
      positions := new Store<Position>();
      metadata := new Store<Metadata>();
      stats := new Store<Stats>();
      nextID, free, live, issued := 0, [], {}, [];
    }

    /** A recycled ID with its generation bumped if one is free, else a fresh one. */
    method NewEntity() returns (id: Entity)
      modifies this
      ensures id == NextId(old(IdState())) && IdState() == New(old(IdState()))
    {
      hide Recycled, Fresh;
      id := PopRecycled();
      if id == 0 {
        nextID := nextID + 1;
        id := Fresh(nextID);
      }
      live, issued := live + {id}, issued + [id];
    }

    method PopRecycled() returns (id: Entity)
      modifies this`free
      ensures old(free) == [] ==> id == 0 && free == []
      ensures old(free) != [] ==> id == Recycled(old(free)[|old(free)| - 1]) && free == old(free)[..|old(free)| - 1]
    {
      if |free| == 0 {
        return 0;
      }
      var last := |free| - 1;
      id := free[last];
      free := free[..last];
      var gen := (Generation(id) + 1) % TWO_TO_THE_32;
      id := Compose(Index(id), gen);
    }

    /** Deletes every component and puts the ID on the freelist, whether or not the entity was live. */
    method RemoveEntity(id: Entity)
      requires Valid()
      modifies this, positions, metadata, stats
      ensures Valid() && IdState() == Remove(old(IdState()), id)
      ensures positions.Contents() == old(positions.Contents()) - {id}
      ensures metadata.Contents() == old(metadata.Contents()) - {id}
      ensures stats.Contents() == old(stats.Contents()) - {id}
      ensures |positions.dense| <= old(|positions.dense|) && forall e :: e in positions.dense ==> e in old(positions.dense)
      ensures forall e :: e in metadata.dense ==> e in old(metadata.dense)
      ensures forall e :: e in stats.dense ==> e in old(stats.dense)
      ensures |metadata.dense| <= old(|metadata.dense|) && |stats.dense| <= old(|stats.dense|)
    {
      positions.Delete(id);
      metadata.Delete(id);
      stats.Delete(id);
      free, live := free + [id], live - {id};
    }

    // ---------- Iteration that tolerates mutation ----------

    ghost function Now(): World
      requires Valid()
      reads this, positions, metadata, stats
    {
      World(IdState(), positions.Contents())
    }

    method Perform(op: Op)
      requires Valid() && Inv(IdState())
      modifies this, positions, metadata, stats
      ensures Valid() && Inv(IdState()) && Now() == Performed(old(Now()), op)
    {
      hide Inv, Mutual, MapOf, IndexFree, IndexFreeIn, New, NextId, HasRoom;
      ContentsSize(positions.dense, positions.values, positions.sparse);
      match op
      case Create =>
        if HasRoom(IdState()) {
          NewKeepsInv(IdState());
          var id := NewEntity();
        }
      case Put(id, pos) =>
        IndexFreeInContents(positions.dense, positions.values, id);
        if IndexFree(positions.dense, id) && |positions.dense| < MAX_ENTITIES {
          positions.Set(id, pos);
        }
      case Drop(id) =>
        positions.Delete(id);
      case Destroy(id) =>
        if id in live {
          RemoveKeepsInvIff(IdState(), id);
          RemoveEntity(id);
        }
    }

    method RunCallback(cb: Callback)
      requires Valid() && Inv(IdState())
      modifies this, positions, metadata, stats
      ensures Valid() && Inv(IdState()) && Now() == PerformedAll(old(Now()), cb.ops)
    {
      hide Inv, Mutual, MapOf, Performed;
      for i := 0 to |cb.ops|
        invariant Valid() && Inv(IdState()) && Now() == PerformedAll(old(Now()), cb.ops[..i])
      {
        assert cb.ops[..i + 1][..i] == cb.ops[..i];
        Perform(cb.ops[i]);
      }
      assert cb.ops[..|cb.ops|] == cb.ops;
    }

    /** Runs one callback, if the entity it is for still has a position. */
    method VisitIfPresent(id: Entity, cb: Callback) returns (visit: bool)
      requires Valid() && Inv(IdState())
      modifies this, positions, metadata, stats
      ensures Valid() && Inv(IdState())
      ensures visit <==> id in old(Now()).positions
      ensures Now() == if visit then PerformedAll(old(Now()), cb.ops) else old(Now())
    {
      hide Inv, Mutual, MapOf, PerformedAll;
      var found := positions.Get(id);
      if found.Some? {
        RunCallback(cb);
      }
      return found.Some?;
    }

    method VisitAll(buf: seq<Entity>, script: seq<Callback>) returns (visited: seq<Entity>)
      requires Valid() && Inv(IdState())
      modifies this, positions, metadata, stats
      ensures Valid() && Inv(IdState())
      ensures visited == Visits(PresentAfter(old(Now()), script), GoOnAfter(script), buf, 0)
      ensures Now() == AfterCallbacks(old(Now()), script, |visited|)
    {
      hide Valid, Inv, IdState, Now, PerformedAll, Visits, AfterCallbacks, PresentAfter, GoOnAfter;
      ghost var start := Now();
      ghost var present, goOn := PresentAfter(start, script), GoOnAfter(script);
      visited := [];
      VisitsStart(start, script, buf);
      for i := 0 to |buf|
        invariant Valid() && Inv(IdState()) && Now() == AfterCallbacks(start, script, |visited|)
        invariant visited + Visits(present, goOn, buf[i..], |visited|) == Visits(present, goOn, buf, 0)
      {
        VisitsNext(start, script, buf, i, visited);
        var cb := if |visited| < |script| then script[|visited|] else Callback([], true);
        var visit := VisitIfPresent(buf[i], cb);
        if visit {
          visited := visited + [buf[i]];
          if !cb.goOn {
            return;
          }
        }
      }
      NoVisits(present, goOn, buf, |visited|);
    }

    /** Iterates over a snapshot of the entities with a position, re-checking each before its callback runs.
        The n-th callback run is script[n]; past the end of the script callbacks do nothing and go on. */
    method RangeMutate(script: seq<Callback>) returns (visited: seq<Entity>)
      requires Valid() && Inv(IdState())
      modifies this, positions, metadata, stats
      ensures Valid() && Inv(IdState())
      ensures visited ==
        Visits(PresentAfter(old(Now()), script), GoOnAfter(script), old(positions.dense), 0)
      ensures Now() == AfterCallbacks(old(Now()), script, |visited|)
      ensures Distinct(visited)
      ensures old(positions.Contents().Keys <= live) ==> forall id :: id in visited ==> id in old(issued)
    {
      hide Inv, Mutual, MapOf, Distinct, Visits, AfterCallbacks, PresentAfter, GoOnAfter;
      if positions.Contents().Keys <= live {
        SnapshotIssued(positions.dense, positions.values, IdState());
      }
      MutualDistinct(positions.dense, positions.sparse);
      VisitsDistinct(PresentAfter(Now(), script), GoOnAfter(script), positions.dense);
      visited := VisitAll(positions.dense, script);
    }
  }
}
