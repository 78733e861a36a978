/** "Who is nearest": the typed proximity query on top of the spatial index. */
module Proximity {
  import opened EntityIds
  import opened ComponentStore
  import opened Components
  import opened Registry
  import G = SpatialGrid

  const MAX_INT: int := 0x7FFF_FFFF_FFFF_FFFF

  function DistanceSq(a: Position, b: Position): int {
    (a.x - b.x) * (a.x - b.x) + (a.z - b.z) * (a.z - b.z)
  }

  /** An entity the nearest query may return: in range of the origin entity, and of the wanted type. */
  ghost predicate Candidate(
      positions: map<Entity, Position>, metadata: map<Entity, Metadata>, grid: map<Entity, Position>,
      originID: Entity, radius: real, kind: EntityType, e: G.ChunkEntry)
  {
    && originID in positions
    && G.InRange(grid, positions[originID], radius, originID, e)
    && e.id in metadata && metadata[e.id].kind == kind
    && DistanceSq(positions[originID], e.pos) < MAX_INT
  }

  /** No candidate is closer. */
  ghost predicate Nearest(
      positions: map<Entity, Position>, metadata: map<Entity, Metadata>, grid: map<Entity, Position>,
      originID: Entity, radius: real, kind: EntityType, r: G.ChunkEntry)
  {
    && Candidate(positions, metadata, grid, originID, radius, kind, r)
    && forall e :: Candidate(positions, metadata, grid, originID, radius, kind, e) ==>
         DistanceSq(positions[originID], r.pos) <= DistanceSq(positions[originID], e.pos)
  }

  /** Returns a nearest candidate, or none exactly if there is no candidate. */
  method GetNearestByType(reg: Registry, grid: G.Grid, originID: Entity, worldRadius: real, kind: EntityType)
      returns (r: Option<G.ChunkEntry>)
    requires reg.Valid() && grid.Valid() && worldRadius >= 0.0
    ensures var p, m, g := reg.positions.Contents(), reg.metadata.Contents(), grid.Contents();
      if r.Some? then Nearest(p, m, g, originID, worldRadius, kind, r.value)
      else forall e :: !Candidate(p, m, g, originID, worldRadius, kind, e)
  {
    hide G.InRange, G.Positions, MapOf, Mutual, DistanceSq, G.Agree;
    ghost var p, m, g := reg.positions.Contents(), reg.metadata.Contents(), grid.Contents();
    var origin := reg.positions.Get(originID);
    if origin.None? {
      return None;
    }
    var originPos := origin.value;
    var candidates := grid.QueryRadius(originPos, worldRadius, originID);
    if |candidates| == 0 {
      forall e ensures !Candidate(p, m, g, originID, worldRadius, kind, e) {
        assert e !in candidates;
      }
      return None;
    }
    r := None;
    var nearestDSq := MAX_INT;
    for i := 0 to |candidates|
      invariant r.None? ==> nearestDSq == MAX_INT
      invariant r.Some? ==> nearestDSq == DistanceSq(originPos, r.value.pos) < MAX_INT
      invariant r.Some? ==> Candidate(p, m, g, originID, worldRadius, kind, r.value)
      invariant forall k :: 0 <= k < i && Candidate(p, m, g, originID, worldRadius, kind, candidates[k]) ==>
        nearestDSq <= DistanceSq(originPos, candidates[k].pos)
    {
      var c := candidates[i];
      assert c in candidates;
      var meta := reg.metadata.Get(c.id);
      if meta.Some? && meta.value.kind == kind {
        var dsq := DistanceSq(originPos, c.pos);
        if dsq < nearestDSq {
          r := Some(c);
          nearestDSq := dsq;
        }
      }
    }
    forall e | Candidate(p, m, g, originID, worldRadius, kind, e)
      ensures r.Some? && nearestDSq <= DistanceSq(originPos, e.pos)
    {
      assert e in candidates;
      var k :| 0 <= k < |candidates| && candidates[k] == e;
    }
  }
}
