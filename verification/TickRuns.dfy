/** Whole runs of ticks: entities are created, and each tick's commands are flushed. What `CommandBuffer.Flush`
    requires of IDs is discharged here from the ID-issuance theorem. */
module TickRuns {
  import opened EntityIds
  import opened Components
  import opened CommandBuffer

  /** IDs, the three stores as maps, and the grid's map. */
  datatype World = World(
    ids: Ids, positions: map<Entity, Position>, metadata: map<Entity, Metadata>, stats: map<Entity, Stats>,
    grid: map<Entity, Position>)

  const START: World := World(NO_IDS, map[], map[], map[], map[])

  datatype Op = CreateEntity | FlushTick(queues: Queues)

  /** IDs have room, and a tick's commands are orderly. */
  ghost predicate Legal(w: World, op: Op) {
    match op
    case CreateEntity => HasRoom(w.ids)
    case FlushTick(q) => Orderly(q, w.ids.live)
  }

  /** A flush does to the maps what the buffer's method is proved to do. */
  ghost function Apply(w: World, op: Op): World {
    match op
    case CreateEntity => w.(ids := New(w.ids))
    case FlushTick(q) =>
      World(RemoveAll(w.ids, q.destroys), FlushedPositions(w.positions, q), FlushedMetadata(w.metadata, q),
            FlushedStats(w.stats, q), FlushedPositions(w.grid, q))
  }

  ghost predicate Follows(w: World, v: World) {
    exists op :: Legal(w, op) && v == Apply(w, op)
  }

  ghost predicate IsRun(worlds: seq<World>) {
    && |worlds| > 0 && worlds[0] == START
    && forall i :: 0 <= i < |worlds| - 1 ==> Follows(worlds[i], worlds[i + 1])
  }

  ghost function Stored(w: World): set<Entity> {
    w.positions.Keys + w.metadata.Keys + w.stats.Keys
  }

  /** IDs are sound, only live entities have components, and the grid agrees with the position store. */
  ghost predicate InStep(w: World) {
    EntityIds.Inv(w.ids) && Stored(w) <= w.ids.live && w.grid == w.positions
  }

  /** What a flush requires holds of every orderly batch: live entities have distinct indices. */
  lemma OrderlyMeansIndexDistinct(w: World, q: Queues)
    requires InStep(w) && Orderly(q, w.ids.live)
    ensures IndexDistinct(Stored(w) + StoredBy(q))
  {
    hide EntityIds.Inv, StoredBy;
    InvMeansUnique(w.ids);
  }

  lemma StepKeepsInStep(w: World, op: Op)
    requires InStep(w) && Legal(w, op)
    ensures InStep(Apply(w, op))
  {
    hide EntityIds.Inv, Orderly, RemoveAll, FlushedPositions, FlushedMetadata, FlushedStats;
    match op {
      case CreateEntity => NewKeepsInv(w.ids);
      case FlushTick(q) => FlushKeepsDisciplineIff(w.positions, w.metadata, w.stats, q, w.ids);
    }
  }

  /** Over every run of orderly ticks from an empty world, position store and grid stay equal, and each next
      orderly batch meets what a flush requires of IDs. */
  lemma {:induction false} RunKeepsInStep(worlds: seq<World>)
    requires IsRun(worlds)
    ensures var w := worlds[|worlds| - 1];
      InStep(w) && forall q :: Orderly(q, w.ids.live) ==> IndexDistinct(Stored(w) + StoredBy(q))
    decreases |worlds|
  {
    hide Apply, InStep, Orderly, StoredBy, IndexDistinct;
    if |worlds| == 1 {
      assert InStep(START) by { StartInStep(); }
    } else {
      var n := |worlds| - 1;
      RunKeepsInStep(worlds[..n]);
      assert Follows(worlds[n - 1], worlds[n - 1 + 1]);
      var op :| Legal(worlds[n - 1], op) && worlds[n] == Apply(worlds[n - 1], op);
      StepKeepsInStep(worlds[n - 1], op);
    }
    var w := worlds[|worlds| - 1];
    forall q | Orderly(q, w.ids.live) ensures IndexDistinct(Stored(w) + StoredBy(q)) {
      OrderlyMeansIndexDistinct(w, q);
    }
  }

  lemma StartInStep()
    ensures InStep(START)
  {
    NothingIssued();
  }
}
