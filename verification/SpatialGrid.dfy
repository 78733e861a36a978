/** The chunked spatial index: 20x20 chunks holding entities and their positions, a reverse index from entity to
    chunk, and the radius query that scans only the chunks around the origin. */
module SpatialGrid {
  import opened EntityIds
  import opened Components

  const CHUNK_SIZE: int := 20

  datatype ChunkKey = ChunkKey(mapID: int, x: int, z: int)

  datatype ChunkEntry = ChunkEntry(id: Entity, pos: Position)

  /** Coordinates divided by the chunk size, rounded down (Dafny's division rounds down here, also below 0). */
  function WorldToChunk(pos: Position): ChunkKey {
    ChunkKey(pos.mapID, pos.x / CHUNK_SIZE, pos.z / CHUNK_SIZE)
  }

  // ---------- Distance ----------

  predicate Within(origin: Position, radius: real, pos: Position) {
    var ddx, ddz := (pos.x - origin.x) as real, (pos.z - origin.z) as real;
    ddx * ddx + ddz * ddz <= radius * radius
  }

  function Ceil(v: real): int {
    -((-v).Floor)
  }

  lemma SquareMonotone(v: real, rest: real, radius: real)
    requires radius >= 0.0 && rest >= 0.0 && v * v + rest <= radius * radius
    ensures -radius <= v <= radius
  {
    var u: real := if v < 0.0 then -v else v;
    if u > radius {
      assert u * u - radius * radius == (u - radius) * (u + radius);
      MulPositive(u - radius, u + radius);
    }
  }

  lemma MulPositive(x: real, y: real)
    requires x > 0.0 && y > 0.0
    ensures x * y > 0.0
  {
  }

  /** A coordinate at most radius away lies at most ceil(radius / 20) chunks away, on either side of zero. */
  lemma ChunkDistance(a: int, b: int, radius: real)
    requires radius >= 0.0 && -radius <= (b - a) as real <= radius
    ensures var c := Ceil(radius / 20.0); -c <= b / CHUNK_SIZE - a / CHUNK_SIZE <= c
  {
    var c := Ceil(radius / 20.0);
    assert c as real >= radius / 20.0;
    assert (c * 20) as real >= radius;
    assert -(c * 20) <= b - a <= c * 20;
  }

  lemma WithinMeansNearChunk(origin: Position, radius: real, pos: Position)
    requires radius >= 0.0 && Within(origin, radius, pos)
    ensures var c := Ceil(radius / 20.0);
      -c <= WorldToChunk(pos).x - WorldToChunk(origin).x <= c
      && -c <= WorldToChunk(pos).z - WorldToChunk(origin).z <= c
  {
    var dx, dz := (pos.x - origin.x) as real, (pos.z - origin.z) as real;
    assert dx * dx >= 0.0 && dz * dz >= 0.0;
    SquareMonotone(dx, dz * dz, radius);
    SquareMonotone(dz, dx * dx, radius);
    ChunkDistance(origin.x, pos.x, radius);
    ChunkDistance(origin.z, pos.z, radius);
  }

  // ---------- The two maps ----------

  type Bucket = map<Entity, Position>

  /** Buckets and reverse index agree: an entity is in exactly the bucket the index names, which is the chunk
      of its position, and no bucket is empty. */
  ghost predicate Agree(chunks: map<ChunkKey, Bucket>, index: map<Entity, ChunkKey>) {
    && (forall id :: id in index ==> index[id] in chunks && id in chunks[index[id]])
    && (forall key, id :: key in chunks && id in chunks[key] ==>
          id in index && index[id] == key && WorldToChunk(chunks[key][id]) == key)
    && (forall key :: key in chunks ==> chunks[key] != map[])
  }

  /** Where every entity is, by the index. */
  ghost function Positions(chunks: map<ChunkKey, Bucket>, index: map<Entity, ChunkKey>): map<Entity, Position>
    requires Agree(chunks, index)
  {
    map id | id in index :: chunks[index[id]][id]
  }

  /** What the code leaves of the chunks after deleting an entity from its bucket. */
  function Without(chunks: map<ChunkKey, Bucket>, key: ChunkKey, id: Entity): map<ChunkKey, Bucket>
    requires key in chunks
  {
    if chunks[key] - {id} == map[] then chunks - {key} else chunks[key := chunks[key] - {id}]
  }

  lemma WithoutIs(chunks: map<ChunkKey, Bucket>, c: map<ChunkKey, Bucket>, key: ChunkKey, id: Entity)
    requires key in chunks
    requires var bucket: Bucket := chunks[key] - {id};
      c == if bucket == map[] then chunks[key := bucket] - {key} else chunks[key := bucket]
    ensures c == Without(chunks, key, id)
  {
  }

  lemma PositionsIs(chunks: map<ChunkKey, Bucket>, index: map<Entity, ChunkKey>, m: map<Entity, Position>)
    requires Agree(chunks, index) && m.Keys == index.Keys
    requires forall id :: id in index ==> id in m && m[id] == chunks[index[id]][id]
    ensures Positions(chunks, index) == m
  {
    hide WorldToChunk;
  }

  lemma PositionsAre(chunks: map<ChunkKey, Bucket>, index: map<Entity, ChunkKey>)
    requires Agree(chunks, index)
    ensures Positions(chunks, index).Keys == index.Keys
    ensures forall id :: id in index ==> Positions(chunks, index)[id] == chunks[index[id]][id]
  {
    hide WorldToChunk;
  }

  lemma RemoveKeepsAgree(chunks: map<ChunkKey, Bucket>, index: map<Entity, ChunkKey>, id: Entity)
    requires Agree(chunks, index) && id in index
    ensures var c, i := Without(chunks, index[id], id), index - {id};
      Agree(c, i) && forall e :: e in i ==> c[i[e]][e] == chunks[index[e]][e]
  {
    hide WorldToChunk;
    var key := index[id];
    var c, i := Without(chunks, key, id), index - {id};
    forall e | e in i ensures i[e] in c && e in c[i[e]] && c[i[e]][e] == chunks[index[e]][e] {
      assert index[e] in chunks && e in chunks[index[e]];
      if index[e] == key {
        assert e in chunks[key] - {id};
      }
    }
  }

  lemma RemoveAgrees(chunks: map<ChunkKey, Bucket>, index: map<Entity, ChunkKey>, id: Entity)
    requires Agree(chunks, index) && id in index
    ensures Agree(Without(chunks, index[id], id), index - {id})
    ensures Positions(Without(chunks, index[id], id), index - {id}) == Positions(chunks, index) - {id}
  {
    hide WorldToChunk, Positions, Without;
    RemoveKeepsAgree(chunks, index, id);
    PositionsAre(chunks, index);
    PositionsIs(Without(chunks, index[id], id), index - {id}, Positions(chunks, index) - {id});
  }

  lemma AgreeAt(chunks: map<ChunkKey, Bucket>, index: map<Entity, ChunkKey>, id: Entity)
    requires Agree(chunks, index)
    ensures id in index ==> index[id] in chunks
    ensures id in Positions(chunks, index) <==> id in index
  {
    hide WorldToChunk;
  }

  function Put(bucket: Bucket, id: Entity, pos: Position): Bucket {
    bucket[id := pos]
  }

  function BucketAt(chunks: map<ChunkKey, Bucket>, key: ChunkKey): Bucket {
    if key in chunks then chunks[key] else map[]
  }

  lemma PutIs(chunks: map<ChunkKey, Bucket>, key: ChunkKey, id: Entity, pos: Position)
    ensures var b := Put(BucketAt(chunks, key), id, pos);
      id in b && b[id] == pos
      && (forall e :: e in b && e != id ==> key in chunks && e in chunks[key] && b[e] == chunks[key][e])
      && (key in chunks ==> forall e :: e in chunks[key] ==> e in b)
  {
  }

  lemma InsertKeepsAgree(chunks: map<ChunkKey, Bucket>, index: map<Entity, ChunkKey>, id: Entity, pos: Position)
    requires Agree(chunks, index) && id !in index
    ensures var key := WorldToChunk(pos);
      var c, i := chunks[key := Put(BucketAt(chunks, key), id, pos)], index[id := key];
      Agree(c, i) && forall e :: e in i ==> c[i[e]][e] == if e == id then pos else chunks[index[e]][e]
  {
    hide WorldToChunk, Put, BucketAt;
    var key := WorldToChunk(pos);
    PutIs(chunks, key, id, pos);
    var c := chunks[key := Put(BucketAt(chunks, key), id, pos)];
    var i := index[id := key];
    forall e | e in i
      ensures i[e] in c && e in c[i[e]] && c[i[e]][e] == if e == id then pos else chunks[index[e]][e]
    {
      if e != id {
        assert index[e] in chunks && e in chunks[index[e]];
      }
    }
    forall k, e | k in c && e in c[k] ensures e in i && i[e] == k && WorldToChunk(c[k][e]) == k {
      if e != id {
        assert k in chunks && e in chunks[k];
      }
    }
    forall k | k in c ensures c[k] != map[] {
      if k == key {
        assert id in c[k];
      } else {
        assert chunks[k] != map[];
      }
    }
  }

  lemma InsertAgrees(chunks: map<ChunkKey, Bucket>, index: map<Entity, ChunkKey>, id: Entity, pos: Position)
    requires Agree(chunks, index) && id !in index
    ensures var key := WorldToChunk(pos);
      var c := chunks[key := Put(BucketAt(chunks, key), id, pos)];
      Agree(c, index[id := key]) && Positions(c, index[id := key]) == Positions(chunks, index)[id := pos]
  {
    hide WorldToChunk, Positions, Put, BucketAt;
    InsertKeepsAgree(chunks, index, id, pos);
    PositionsAre(chunks, index);
    var key := WorldToChunk(pos);
    PositionsIs(chunks[key := Put(BucketAt(chunks, key), id, pos)], index[id := key], Positions(chunks, index)[id := pos]);
  }

  lemma UpdateInPlaceAgrees(chunks: map<ChunkKey, Bucket>, index: map<Entity, ChunkKey>, id: Entity, pos: Position)
    requires Agree(chunks, index) && id in index && index[id] == WorldToChunk(pos)
    ensures var c := chunks[index[id] := Put(chunks[index[id]], id, pos)];
      Agree(c, index) && Positions(c, index) == Positions(chunks, index)[id := pos]
  {
    hide WorldToChunk;
  }

  // ---------- The radius query ----------

  /** An entity of one of the chunks in `done` that the query must list. */
  ghost predicate Hit(
      chunks: map<ChunkKey, Bucket>, index: map<Entity, ChunkKey>, done: set<ChunkKey>,
      origin: Position, radius: real, exclude: Entity, e: ChunkEntry)
  {
    && e.id in index && index[e.id] in done && index[e.id] in chunks && e.id in chunks[index[e.id]]
    && chunks[index[e.id]][e.id] == e.pos
    && e.id != exclude && Within(origin, radius, e.pos)
  }

  ghost predicate UniqueIds(results: seq<ChunkEntry>) {
    forall i, j :: 0 <= i < j < |results| ==> results[i].id != results[j].id
  }

  /** The results are the hits of the chunks done so far, each once. */
  ghost predicate Lists(
      chunks: map<ChunkKey, Bucket>, index: map<Entity, ChunkKey>, done: set<ChunkKey>,
      origin: Position, radius: real, exclude: Entity, results: seq<ChunkEntry>)
  {
    && UniqueIds(results)
    && forall e :: e in results <==> Hit(chunks, index, done, origin, radius, exclude, e)
  }

  ghost predicate ListsBucket(
      bucket: Bucket, ids: set<Entity>, origin: Position, radius: real, exclude: Entity, results: seq<ChunkEntry>)
  {
    && UniqueIds(results)
    && forall e :: e in results <==>
         e.id in ids && e.id in bucket && bucket[e.id] == e.pos && e.id != exclude && Within(origin, radius, e.pos)
  }

  method ScanBucket(bucket: Bucket, origin: Position, worldRadius: real, excludeID: Entity)
      returns (results: seq<ChunkEntry>)
    ensures ListsBucket(bucket, bucket.Keys, origin, worldRadius, excludeID, results)
  {
    hide Within;
    results := [];
    var rest := bucket.Keys;
    while rest != {}
      invariant rest <= bucket.Keys
      invariant ListsBucket(bucket, bucket.Keys - rest, origin, worldRadius, excludeID, results)
      decreases rest
    {
      var entID :| entID in rest;
      var pos := bucket[entID];
      ghost var before := results;
      if entID != excludeID && Within(origin, worldRadius, pos) {
        results := results + [ChunkEntry(entID, pos)];
      }
      rest := rest - {entID};
      assert forall e :: e in results <==> e in before || (e == ChunkEntry(entID, pos) && results != before);
    }
  }

  lemma ScanAdds(
      chunks: map<ChunkKey, Bucket>, index: map<Entity, ChunkKey>, done: set<ChunkKey>, key: ChunkKey,
      origin: Position, radius: real, exclude: Entity, results: seq<ChunkEntry>, found: seq<ChunkEntry>)
    requires Agree(chunks, index) && key !in done
    requires Lists(chunks, index, done, origin, radius, exclude, results)
    requires var bucket := BucketAt(chunks, key); ListsBucket(bucket, bucket.Keys, origin, radius, exclude, found)
    ensures Lists(chunks, index, done + {key}, origin, radius, exclude, results + found)
  {
    hide WorldToChunk, Within;
    var all := results + found;
    forall e ensures e in all <==> Hit(chunks, index, done + {key}, origin, radius, exclude, e) {
      assert e in all <==> e in results || e in found;
    }
    forall i, j | 0 <= i < j < |all| ensures all[i].id != all[j].id {
      if i < |results| <= j {
        assert all[i] in results && all[j] in found;
        assert Hit(chunks, index, done, origin, radius, exclude, all[i]);
      }
    }
  }

  /** The chunk keys the double loop has visited before (dz, dx). */
  ghost predicate Visited(key: ChunkKey, at: ChunkKey, c: int, dz: int, dx: int) {
    && key.mapID == at.mapID && -c <= key.x - at.x <= c && -c <= key.z - at.z
    && (key.z - at.z < dz || (key.z - at.z == dz && key.x - at.x < dx))
  }

  /** The brute-force answer. */
  ghost predicate InRange(contents: map<Entity, Position>, origin: Position, radius: real, exclude: Entity, e: ChunkEntry)
  {
    && e.id in contents && contents[e.id] == e.pos
    && e.id != exclude && e.pos.mapID == origin.mapID && Within(origin, radius, e.pos)
  }

  /** Scanning the chunks within the chunk radius finds all that a scan of every entity would. */
  lemma ChunksSuffice(
      chunks: map<ChunkKey, Bucket>, index: map<Entity, ChunkKey>, done: set<ChunkKey>,
      origin: Position, radius: real, exclude: Entity, results: seq<ChunkEntry>)
    requires Agree(chunks, index) && radius >= 0.0
    requires var c := Ceil(radius / 20.0); var at := WorldToChunk(origin);
      forall key :: key in done <==> Visited(key, at, c, c + 1, -c)
    requires Lists(chunks, index, done, origin, radius, exclude, results)
    ensures forall e :: e in results <==> InRange(Positions(chunks, index), origin, radius, exclude, e)
  {
    hide Within, Ceil;
    var c, at := Ceil(radius / 20.0), WorldToChunk(origin);
    forall e ensures e in results <==> InRange(Positions(chunks, index), origin, radius, exclude, e) {
      if InRange(Positions(chunks, index), origin, radius, exclude, e) {
        WithinMeansNearChunk(origin, radius, e.pos);
        assert index[e.id] in chunks && e.id in chunks[index[e.id]];
        assert Visited(index[e.id], at, c, c + 1, -c);
      }
    }
  }

  class Grid {
    var chunks: map<ChunkKey, Bucket>
    var entityIndex: map<Entity, ChunkKey>

    ghost predicate Valid()
      reads this
    {
      Agree(chunks, entityIndex)
    }

    ghost function Contents(): map<Entity, Position>
      requires Valid()
      reads this
    {
      Positions(chunks, entityIndex)
    }

    constructor ()
      ensures Valid() && Contents() == map[]
    {
      chunks, entityIndex := map[], map[];
    }

    method UpdateEntityPosition(id: Entity, pos: Position)
      requires Valid()
      modifies this
      ensures Valid() && Contents() == old(Contents())[id := pos]
    {
      hide Positions, Agree, WorldToChunk, Without;
      AgreeAt(chunks, entityIndex, id);
      var newChunk := WorldToChunk(pos);
      if id in entityIndex && entityIndex[id] == newChunk {
        UpdateInPlaceAgrees(chunks, entityIndex, id, pos);
        chunks := chunks[newChunk := Put(chunks[newChunk], id, pos)];
        return;
      }
      if id in entityIndex {
        RemoveAgrees(chunks, entityIndex, id);
        var oldChunk := entityIndex[id];
        var bucket: Bucket := chunks[oldChunk] - {id};
        chunks := chunks[oldChunk := bucket];
        if bucket == map[] {
          chunks := chunks - {oldChunk};
        }
        WithoutIs(old(chunks), chunks, oldChunk, id);
        InsertAgrees(chunks, entityIndex - {id}, id, pos);
        assert (entityIndex - {id})[id := newChunk] == entityIndex[id := newChunk];
        assert (old(Contents()) - {id})[id := pos] == old(Contents())[id := pos];
      } else {
        InsertAgrees(chunks, entityIndex, id, pos);
      }
      var bucket := BucketAt(chunks, newChunk);
      chunks := chunks[newChunk := Put(bucket, id, pos)];
      entityIndex := entityIndex[id := newChunk];
    }

    method RemoveEntity(id: Entity)
      requires Valid()
      modifies this
      ensures Valid() && Contents() == old(Contents()) - {id}
    {
      hide Positions, Agree, Without;
      AgreeAt(chunks, entityIndex, id);
      if id !in entityIndex {
        return;
      }
      RemoveAgrees(chunks, entityIndex, id);
      var chunk := entityIndex[id];
      var bucket: Bucket := chunks[chunk] - {id};
      chunks := chunks[chunk := bucket];
      if bucket == map[] {
        chunks := chunks - {chunk};
      }
      WithoutIs(old(chunks), chunks, chunk, id);
      entityIndex := entityIndex - {id};
    }

    /** Every entity on the origin's map within the radius, other than the excluded one, each once. */
    method QueryRadius(origin: Position, worldRadius: real, excludeID: Entity) returns (results: seq<ChunkEntry>)
      requires Valid() && worldRadius >= 0.0
      ensures UniqueIds(results)
      ensures forall e :: e in results <==> InRange(Contents(), origin, worldRadius, excludeID, e)
    {
      hide Agree, Hit, Within, WorldToChunk, Positions, Ceil, BucketAt, UniqueIds;
      var chunkRadius := Ceil(worldRadius / 20.0);
      var originChunk := WorldToChunk(origin);
      results := [];
      ghost var done: set<ChunkKey> := {};
      NothingListed(chunks, entityIndex, origin, worldRadius, excludeID);
      CeilNonNegative(worldRadius);
      for dz := -chunkRadius to chunkRadius + 1
        invariant Lists(chunks, entityIndex, done, origin, worldRadius, excludeID, results)
        invariant forall key :: key in done <==> Visited(key, originChunk, chunkRadius, dz, -chunkRadius)
      {
        for dx := -chunkRadius to chunkRadius + 1
          invariant Lists(chunks, entityIndex, done, origin, worldRadius, excludeID, results)
          invariant forall key :: key in done <==> Visited(key, originChunk, chunkRadius, dz, dx)
        {
          var key := ChunkKey(originChunk.mapID, originChunk.x + dx, originChunk.z + dz);
          var found := ScanBucket(BucketAt(chunks, key), origin, worldRadius, excludeID);
          ScanAdds(chunks, entityIndex, done, key, origin, worldRadius, excludeID, results, found);
          results := results + found;
          done := done + {key};
        }
      }
      ChunksSuffice(chunks, entityIndex, done, origin, worldRadius, excludeID, results);
    }
  }

  lemma NothingListed(
      chunks: map<ChunkKey, Bucket>, index: map<Entity, ChunkKey>, origin: Position, radius: real, exclude: Entity)
    ensures Lists(chunks, index, {}, origin, radius, exclude, [])
  {
    hide Within;
  }

  lemma CeilNonNegative(radius: real)
    requires radius >= 0.0
    ensures Ceil(radius / 20.0) >= 0
  {
  }
}
