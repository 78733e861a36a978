/** Area of interest: each watcher keeps the set of entities it sees, and an update turns a fresh query into
    Enter and Leave events. The query is the spatial grid's, cut to the fifty nearest. */
module AreaOfInterest {
  import opened Counting
  import opened EntityIds
  import opened Components
  import opened ComponentStore
  import opened Proximity
  import G = SpatialGrid

  const MAX_AOI_WATCHERS: int := 50

  datatype Event = Enter(target: Entity) | Leave(target: Entity)

  // ---------- Replaying events ----------

  function Happen(seen: set<Entity>, e: Event): set<Entity> {
    if e.Enter? then seen + {e.target} else seen - {e.target}
  }

  function Replay(seen: set<Entity>, log: seq<Event>): set<Entity> {
    if |log| == 0 then seen else Happen(Replay(seen, log[..|log| - 1]), log[|log| - 1])
  }

  /** Each Enter is of an entity not seen at that point, each Leave of one that is. */
  ghost predicate Paired(seen: set<Entity>, log: seq<Event>) {
    forall i :: 0 <= i < |log| ==> (log[i].Enter? <==> log[i].target !in Replay(seen, log[..i]))
  }

  lemma {:induction false} ReplayAppend(seen: set<Entity>, a: seq<Event>, b: seq<Event>)
    ensures Replay(seen, a + b) == Replay(Replay(seen, a), b)
    decreases |b|
  {
    if |b| == 0 {
      assert a + b == a;
    } else {
      ReplayAppend(seen, a, b[..|b| - 1]);
      assert (a + b)[..|a + b| - 1] == a + b[..|b| - 1];
    }
  }

  lemma PairedAppend(seen: set<Entity>, a: seq<Event>, b: seq<Event>)
    requires Paired(seen, a) && Paired(Replay(seen, a), b)
    ensures Paired(seen, a + b)
  {
    forall i | 0 <= i < |a + b|
      ensures (a + b)[i].Enter? <==> (a + b)[i].target !in Replay(seen, (a + b)[..i])
    {
      if i < |a| {
        assert (a + b)[..i] == a[..i];
      } else {
        assert (a + b)[..i] == a + b[..i - |a|];
        ReplayAppend(seen, a, b[..i - |a|]);
      }
    }
  }

  lemma {:induction false} UntouchedBetween(seen: set<Entity>, log: seq<Event>, t: Entity, i: nat, j: nat)
    requires i <= j <= |log| && forall k :: i <= k < j ==> log[k].target != t
    ensures t in Replay(seen, log[..j]) <==> t in Replay(seen, log[..i])
    decreases j - i
  {
    if i < j {
      UntouchedBetween(seen, log, t, i, j - 1);
      assert log[..j][..j - 1] == log[..j - 1];
    }
  }

  /** From registration on, a target's events alternate, beginning with Enter. */
  lemma EventsAlternate(log: seq<Event>, t: Entity, i: nat, j: nat)
    requires Paired({}, log) && i < j < |log| && log[i].target == t && log[j].target == t
    requires forall k :: i < k < j ==> log[k].target != t
    ensures log[i].Enter? <==> log[j].Leave?
    ensures (forall k :: 0 <= k < i ==> log[k].target != t) ==> log[i].Enter?
  {
    UntouchedBetween({}, log, t, i + 1, j);
    assert log[..i + 1][..i] == log[..i];
    if forall k :: 0 <= k < i ==> log[k].target != t {
      UntouchedBetween({}, log, t, 0, i);
    }
  }

  /** The events lead from one set to the other with nothing to spare: a Leave for each that goes, then an Enter
      for each that comes, each once. */
  ghost predicate IsDelta(events: seq<Event>, before: set<Entity>, after: set<Entity>) {
    && Distinct(events)
    && (forall e :: e in events <==>
          if e.Enter? then e.target in after && e.target !in before else e.target in before && e.target !in after)
    && (forall i, j :: 0 <= i < j < |events| && events[i].Enter? ==> events[j].Enter?)
  }

  lemma NoEvents(seen: set<Entity>)
    ensures IsDelta([], seen, seen)
  {
  }

  lemma DeltaLeave(events: seq<Event>, before: set<Entity>, now: set<Entity>, id: Entity)
    requires IsDelta(events, before, now) && now <= before && id in now
    ensures IsDelta(events + [Leave(id)], before, now - {id})
  {
    var r := events + [Leave(id)];
    forall i | 0 <= i < |events| ensures events[i].Leave? && events[i] != Leave(id) {
      assert events[i] in events;
    }
    forall e ensures e in r <==> e in events || e == Leave(id) {
    }
  }

  lemma DeltaEnter(events: seq<Event>, before: set<Entity>, now: set<Entity>, id: Entity)
    requires IsDelta(events, before, now) && id !in now && id !in before
    ensures IsDelta(events + [Enter(id)], before, now + {id})
  {
    var r := events + [Enter(id)];
    forall i | 0 <= i < |events| ensures events[i] != Enter(id) {
      assert events[i] in events;
    }
    forall e ensures e in r <==> e in events || e == Enter(id) {
    }
  }

  // ---------- One watcher ----------

  class Watcher {
    const owner: Entity
    const radius: real
    var neighbor: set<Entity>
    ghost var log: seq<Event>  // every event since registration

    /** Replaying all events since registration rebuilds the neighbour set. */
    ghost predicate Valid()
      reads this
    {
      Paired({}, log) && Replay({}, log) == neighbor
    }

    constructor (entity: Entity, r: real)
      ensures Valid() && owner == entity && radius == r && neighbor == {} && log == []
    {
      owner, radius, neighbor, log := entity, r, {}, [];
    }

    /** Applies one query result, or none (nil), in which case nothing changes. The events are exactly the
        difference: first one Leave for each entity no longer listed, then one Enter for each newly listed. */
    method Update(raw: Option<seq<Entity>>) returns (events: seq<Event>)
      requires Valid()
      modifies this
      ensures Valid() && log == old(log) + events
      ensures raw.None? ==> events == [] && neighbor == old(neighbor)
      ensures raw.Some? ==> neighbor == Elements(raw.value) && IsDelta(events, old(neighbor), neighbor)
    {
      hide Paired, Replay, Distinct;
      events := [];
      if raw.None? {
        assert log == old(log) + events;
        return;
      }
      var entries := raw.value;
      var rest := neighbor;
      NoEvents(neighbor);
      while rest != {}
        invariant rest <= neighbor <= old(neighbor)
        invariant Valid() && log == old(log) + events
        invariant forall id :: id in neighbor && id !in rest ==> id in entries
        invariant forall id :: id in old(neighbor) && id !in neighbor ==> id !in entries
        invariant IsDelta(events, old(neighbor), neighbor)
        decreases rest
      {
        var id :| id in rest;
        rest := rest - {id};
        if id !in entries {
          DeltaLeave(events, old(neighbor), neighbor, id);
          events := events + [Leave(id)];
          Record(Leave(id));
        }
      }
      for i := 0 to |entries|
        invariant Valid() && log == old(log) + events
        invariant forall id :: id in neighbor ==> id in entries
        invariant forall id :: id in old(neighbor) && id !in neighbor ==> id !in entries
        invariant forall k :: 0 <= k < i ==> entries[k] in neighbor
        invariant IsDelta(events, old(neighbor), neighbor)
      {
        if entries[i] !in neighbor {
          DeltaEnter(events, old(neighbor), neighbor, entries[i]);
          events := events + [Enter(entries[i])];
          Record(Enter(entries[i]));
        }
      }
    }

    method Record(e: Event)
      requires Valid() && (e.Enter? <==> e.target !in neighbor)
      modifies this
      ensures Valid() && log == old(log) + [e] && neighbor == Happen(old(neighbor), e)
    {
      PairedAppend({}, log, [e]);
      ReplayAppend({}, log, [e]);
      assert Replay(neighbor, [e]) == Happen(neighbor, e) by {
        assert [e][..0] == [];
      }
      log := log + [e];
      neighbor := if e.Enter? then neighbor + {e.target} else neighbor - {e.target};
    }
  }

  class AOIManager {
    var watchers: map<Entity, Watcher>

    constructor ()
      ensures watchers == map[]
    {
      watchers := map[];
    }

    /** Registering starts from an empty neighbour set, also for an entity registered before. */
    method RegisterWatcher(entity: Entity, radius: real)
      modifies this
      ensures watchers.Keys == old(watchers).Keys + {entity} && fresh(watchers[entity])
      ensures watchers[entity].Valid() && watchers[entity].neighbor == {} && watchers[entity].radius == radius
      ensures forall e :: e in old(watchers) && e != entity ==> watchers[e] == old(watchers)[e]
    {
      var w := new Watcher(entity, radius);
      watchers := watchers[entity := w];
    }

    /** One update of one entity; an unregistered one gets no events. */
    method UpdateOne(entity: Entity, raw: Option<seq<Entity>>) returns (events: seq<Event>)
      requires entity in watchers ==> watchers[entity].Valid()
      modifies if entity in watchers then {watchers[entity]} else {}
      ensures entity !in watchers ==> events == []
      ensures entity in watchers ==> var w := watchers[entity];
        w.Valid() && w.log == old(watchers[entity].log) + events
        && (raw.None? ==> events == [] && w.neighbor == old(watchers[entity].neighbor))
        && (raw.Some? ==>
              w.neighbor == Elements(raw.value) && IsDelta(events, old(watchers[entity].neighbor), w.neighbor))
    {
      if entity !in watchers {
        return [];
      }
      events := watchers[entity].Update(raw);
    }
  }

  // ---------- The query, cut to the nearest fifty ----------

  predicate SortedByDistance(s: seq<G.ChunkEntry>, origin: Position) {
    forall i, j :: 0 <= i < j < |s| ==> DistanceSq(s[i].pos, origin) <= DistanceSq(s[j].pos, origin)
  }

  lemma PrependSorted(e: G.ChunkEntry, s: seq<G.ChunkEntry>, origin: Position)
    requires SortedByDistance(s, origin)
    requires forall x :: x in s ==> DistanceSq(e.pos, origin) <= DistanceSq(x.pos, origin)
    ensures SortedByDistance([e] + s, origin)
  {
    hide DistanceSq;
  }

  lemma FirstIsNearest(s: seq<G.ChunkEntry>, origin: Position)
    requires SortedByDistance(s, origin) && |s| > 0
    ensures forall x :: x in s ==> DistanceSq(s[0].pos, origin) <= DistanceSq(x.pos, origin)
    ensures SortedByDistance(s[1..], origin) && s == [s[0]] + s[1..]
  {
    hide DistanceSq;
  }

  function Insert(e: G.ChunkEntry, s: seq<G.ChunkEntry>, origin: Position): (r: seq<G.ChunkEntry>)
    requires SortedByDistance(s, origin)
    ensures SortedByDistance(r, origin) && multiset(r) == multiset(s) + multiset{e}
  {
    hide DistanceSq, SortedByDistance;
    if |s| == 0 then
      PrependSorted(e, s, origin);
      [e] + s
    else
      FirstIsNearest(s, origin);
      if DistanceSq(e.pos, origin) <= DistanceSq(s[0].pos, origin) then
        PrependSorted(e, s, origin);
        [e] + s
      else
        var rest := Insert(e, s[1..], origin);
        assert forall x :: x in rest ==> x in multiset(rest);
        PrependSorted(s[0], rest, origin);
        [s[0]] + rest
  }

  /** Stands for the library's sort: nothing but its result being an ordered permutation is used. */
  function SortByDistance(s: seq<G.ChunkEntry>, origin: Position): (r: seq<G.ChunkEntry>)
    ensures SortedByDistance(r, origin) && multiset(r) == multiset(s)
  {
    if |s| == 0 then []
    else
      assert s == s[..|s| - 1] + [s[|s| - 1]];
      Insert(s[|s| - 1], SortByDistance(s[..|s| - 1], origin), origin)
  }

  /** Keeps the fifty nearest if there are more. */
  method TrimToMax(candidates: seq<G.ChunkEntry>, origin: Position) returns (r: seq<G.ChunkEntry>)
    ensures |candidates| <= 50 ==> r == candidates
    ensures |candidates| > 50 ==> |r| == 50
    ensures exists dropped :: multiset(candidates) == multiset(r) + multiset(dropped) && NoneNearer(r, dropped, origin)
  {
    hide DistanceSq, SortedByDistance;
    if |candidates| <= MAX_AOI_WATCHERS {
      assert multiset(candidates) == multiset(candidates) + multiset([]) && NoneNearer(candidates, [], origin);
      return candidates;
    }
    var sorted := SortByDistance(candidates, origin);
    assert |sorted| == |multiset(sorted)| == |multiset(candidates)| == |candidates|;
    r := sorted[..MAX_AOI_WATCHERS];
    assert sorted == r + sorted[MAX_AOI_WATCHERS..];
    SplitSorted(sorted, MAX_AOI_WATCHERS, origin);
  }

  /** No dropped entry is nearer than a kept one. */
  ghost predicate NoneNearer(kept: seq<G.ChunkEntry>, dropped: seq<G.ChunkEntry>, origin: Position) {
    forall a, b :: a in kept && b in dropped ==> DistanceSq(a.pos, origin) <= DistanceSq(b.pos, origin)
  }

  lemma SplitSorted(s: seq<G.ChunkEntry>, n: nat, origin: Position)
    requires SortedByDistance(s, origin) && n <= |s|
    ensures NoneNearer(s[..n], s[n..], origin)
  {
    hide DistanceSq;
  }

  /** The IDs listed are distinct entities in range, at most fifty; and if one in range is missing, there are
      fifty and none of them is farther than it. */
  ghost predicate NearestInRange(
      contents: map<Entity, Position>, origin: Position, radius: real, exclude: Entity, ids: seq<Entity>)
  {
    && Distinct(ids) && 0 < |ids| <= MAX_AOI_WATCHERS
    && (forall id :: id in ids ==>
          id in contents && G.InRange(contents, origin, radius, exclude, G.ChunkEntry(id, contents[id])))
    && (forall other :: G.InRange(contents, origin, radius, exclude, other) && other.id !in ids ==>
          |ids| == MAX_AOI_WATCHERS
          && forall id :: id in ids ==> DistanceSq(contents[id], origin) <= DistanceSq(other.pos, origin))
  }

  /** The adapter from grid to watcher: no candidates at all is answered by nil, not by an empty list. */
  method AoiSpatialQuery(grid: G.Grid, origin: Position, worldRadius: real, excludeID: Entity)
      returns (raw: Option<seq<Entity>>)
    requires grid.Valid() && worldRadius >= 0.0
    ensures raw.None? <==> forall e :: !G.InRange(grid.Contents(), origin, worldRadius, excludeID, e)
    ensures raw.Some? ==> NearestInRange(grid.Contents(), origin, worldRadius, excludeID, raw.value)
  {
    hide DistanceSq, G.InRange, G.Positions;
    var candidates := grid.QueryRadius(origin, worldRadius, excludeID);
    if |candidates| == 0 {
      assert forall e :: e !in candidates;
      return None;
    }
    assert candidates[0] in candidates;
    var kept := TrimToMax(candidates, origin);
    var ids := [];
    for i := 0 to |kept|
      invariant |ids| == i && forall k :: 0 <= k < i ==> ids[k] == kept[k].id
    {
      ids := ids + [kept[i].id];
    }
    TrimmedIsNearest(grid.Contents(), origin, worldRadius, excludeID, candidates, kept, ids);
    return Some(ids);
  }

  /** The watcher's neighbour set is right: the nearest in range, or empty if nothing is. */
  ghost predicate Shows(w: Watcher, contents: map<Entity, Position>, pos: Position)
    reads w
  {
    if exists e :: G.InRange(contents, pos, w.radius, w.owner, e) then
      exists ids: seq<Entity> :: NearestInRange(contents, pos, w.radius, w.owner, ids) && w.neighbor == Elements(ids)
    else w.neighbor == {}
  }

  /** Refreshes a watcher from the grid. While something is in range its neighbour set becomes the nearest in
      range. With nothing in range the set stays as it was, so it is right only if it was empty already. */
  method UpdateFromGrid(w: Watcher, grid: G.Grid, pos: Position) returns (events: seq<Event>)
    requires w.Valid() && grid.Valid() && w.radius >= 0.0 && w as object != grid
    modifies w
    ensures w.Valid() && w.log == old(w.log) + events && IsDelta(events, old(w.neighbor), w.neighbor)
    ensures (exists e :: G.InRange(grid.Contents(), pos, w.radius, w.owner, e)) ==>
      exists ids: seq<Entity> :: NearestInRange(grid.Contents(), pos, w.radius, w.owner, ids) && w.neighbor == Elements(ids)
    ensures (forall e :: !G.InRange(grid.Contents(), pos, w.radius, w.owner, e)) ==>
      events == [] && w.neighbor == old(w.neighbor)
    ensures Shows(w, grid.Contents(), pos) <==>
      old(w.neighbor) == {} || exists e :: G.InRange(grid.Contents(), pos, w.radius, w.owner, e)
  {
    hide G.InRange, NearestInRange, G.Positions, Paired, Replay, IsDelta;
    NoEvents(w.neighbor);
    var raw := AoiSpatialQuery(grid, pos, w.radius, w.owner);
    events := w.Update(raw);
  }

  lemma TrimmedIsNearest(
      contents: map<Entity, Position>, origin: Position, radius: real, exclude: Entity,
      candidates: seq<G.ChunkEntry>, kept: seq<G.ChunkEntry>, ids: seq<Entity>)
    requires G.UniqueIds(candidates) && |candidates| > 0
    requires forall e :: e in candidates <==> G.InRange(contents, origin, radius, exclude, e)
    requires |candidates| <= MAX_AOI_WATCHERS ==> kept == candidates
    requires |candidates| > MAX_AOI_WATCHERS ==> |kept| == MAX_AOI_WATCHERS
    requires exists dropped :: multiset(candidates) == multiset(kept) + multiset(dropped) && NoneNearer(kept, dropped, origin)
    requires |ids| == |kept| && forall k :: 0 <= k < |ids| ==> ids[k] == kept[k].id
    ensures NearestInRange(contents, origin, radius, exclude, ids)
  {
    hide DistanceSq, G.InRange, G.UniqueIds;
    var dropped :| multiset(candidates) == multiset(kept) + multiset(dropped) && NoneNearer(kept, dropped, origin);
    KeptUnique(candidates, kept, dropped);
    UniqueIdsDistinct(kept, ids);
    forall k | 0 <= k < |kept| ensures InRangeEntry(contents, origin, radius, exclude, kept[k]) {
      assert kept[k] in multiset(kept);
      assert kept[k] in multiset(candidates);
      RangeEntry(contents, origin, radius, exclude, kept[k]);
    }
    forall other | G.InRange(contents, origin, radius, exclude, other) && other.id !in ids
      ensures |ids| == MAX_AOI_WATCHERS
      ensures forall id :: id in ids ==> DistanceSq(contents[id], origin) <= DistanceSq(other.pos, origin)
    {
      assert other in multiset(candidates);
      forall k | 0 <= k < |kept| ensures kept[k] != other {
        assert ids[k] in ids;
      }
      assert other in multiset(dropped);
    }
  }

  ghost predicate InRangeEntry(
      contents: map<Entity, Position>, origin: Position, radius: real, exclude: Entity, e: G.ChunkEntry)
  {
    e.id in contents && contents[e.id] == e.pos
    && G.InRange(contents, origin, radius, exclude, G.ChunkEntry(e.id, contents[e.id]))
  }

  lemma RangeEntry(contents: map<Entity, Position>, origin: Position, radius: real, exclude: Entity, e: G.ChunkEntry)
    requires G.InRange(contents, origin, radius, exclude, e)
    ensures InRangeEntry(contents, origin, radius, exclude, e)
  {
    assert e == G.ChunkEntry(e.id, contents[e.id]);
  }

  lemma UniqueIdsDistinct(kept: seq<G.ChunkEntry>, ids: seq<Entity>)
    requires G.UniqueIds(kept) && |ids| == |kept| && forall k :: 0 <= k < |ids| ==> ids[k] == kept[k].id
    ensures Distinct(ids)
  {
  }

  /** Cutting entries with unique IDs out of a sequence leaves unique IDs. */
  lemma KeptUnique(candidates: seq<G.ChunkEntry>, kept: seq<G.ChunkEntry>, dropped: seq<G.ChunkEntry>)
    requires G.UniqueIds(candidates) && multiset(candidates) == multiset(kept) + multiset(dropped)
    ensures G.UniqueIds(kept)
  {
    forall i, j | 0 <= i < j < |kept| ensures kept[i].id != kept[j].id {
      var a, b := kept[i], kept[j];
      assert a in multiset(candidates) && b in multiset(candidates);
      if a == b {
        TwiceInSeq(kept, i, j);
        assert multiset(candidates)[a] >= 2;
        UniqueMeansOnce(candidates, a);
        assert false;
      }
      var k :| 0 <= k < |candidates| && candidates[k] == a;
      var l :| 0 <= l < |candidates| && candidates[l] == b;
      assert k != l;
    }
  }

  lemma TwiceInSeq<T>(s: seq<T>, i: nat, j: nat)
    requires i < j < |s| && s[i] == s[j]
    ensures multiset(s)[s[i]] >= 2
  {
    assert s == s[..j] + [s[j]] + s[j + 1..];
    assert s[i] in s[..j];
    assert s[i] in multiset(s[..j]);
  }

  lemma {:induction false} UniqueMeansOnce(s: seq<G.ChunkEntry>, e: G.ChunkEntry)
    requires G.UniqueIds(s)
    ensures multiset(s)[e] <= 1
  {
    if |s| > 0 {
      var init, last := s[..|s| - 1], s[|s| - 1];
      UniqueMeansOnce(init, e);
      assert s == init + [last];
      if last == e {
        assert e !in init;
        assert e !in multiset(init);
      }
    }
  }
}
