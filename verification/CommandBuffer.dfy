/** Deferred commands: moves, damages, spawns and destroys queued during a tick and applied at its end to the
    registry and the spatial grid. */
module CommandBuffer {
  import opened Counting
  import opened EntityIds
  import opened ComponentStore
  import opened Components
  import opened Registry
  import G = SpatialGrid

  datatype MoveCommand = MoveCommand(id: Entity, pos: Position)
  datatype DamageCommand = DamageCommand(source: Entity, target: Entity, amount: int)
  datatype SpawnCommand = SpawnCommand(id: Entity, pos: Position, meta: Metadata, stats: Stats)

  // ---------- What a flush does, as functions of the maps ----------

  function Moved(m: map<Entity, Position>, moves: seq<MoveCommand>): map<Entity, Position> {
    if |moves| == 0 then m
    else Moved(m, moves[..|moves| - 1])[moves[|moves| - 1].id := moves[|moves| - 1].pos]
  }

  function Hurt(s: Stats, amount: int): Stats {
    s.(hp := if s.hp - amount < 0 then 0 else s.hp - amount)
  }

  function Damaged(m: map<Entity, Stats>, damages: seq<DamageCommand>): map<Entity, Stats> {
    if |damages| == 0 then m
    else
      var before, last := Damaged(m, damages[..|damages| - 1]), damages[|damages| - 1];
      if last.target in before then before[last.target := Hurt(before[last.target], last.amount)] else before
  }

  function SpawnedPositions(m: map<Entity, Position>, spawns: seq<SpawnCommand>): map<Entity, Position> {
    if |spawns| == 0 then m
    else SpawnedPositions(m, spawns[..|spawns| - 1])[spawns[|spawns| - 1].id := spawns[|spawns| - 1].pos]
  }

  function SpawnedMetadata(m: map<Entity, Metadata>, spawns: seq<SpawnCommand>): map<Entity, Metadata> {
    if |spawns| == 0 then m
    else SpawnedMetadata(m, spawns[..|spawns| - 1])[spawns[|spawns| - 1].id := spawns[|spawns| - 1].meta]
  }

  function SpawnedStats(m: map<Entity, Stats>, spawns: seq<SpawnCommand>): map<Entity, Stats> {
    if |spawns| == 0 then m
    else SpawnedStats(m, spawns[..|spawns| - 1])[spawns[|spawns| - 1].id := spawns[|spawns| - 1].stats]
  }

  function Destroyed<T>(m: map<Entity, T>, destroys: seq<Entity>): map<Entity, T> {
    if |destroys| == 0 then m else Destroyed(m, destroys[..|destroys| - 1]) - {destroys[|destroys| - 1]}
  }

  datatype Queues = Queues(
    moves: seq<MoveCommand>, damages: seq<DamageCommand>, spawns: seq<SpawnCommand>, destroys: seq<Entity>)

  function FlushedPositions(m: map<Entity, Position>, q: Queues): map<Entity, Position> {
    Destroyed(SpawnedPositions(Moved(m, q.moves), q.spawns), q.destroys)
  }

  function FlushedMetadata(m: map<Entity, Metadata>, q: Queues): map<Entity, Metadata> {
    Destroyed(SpawnedMetadata(m, q.spawns), q.destroys)
  }

  function FlushedStats(m: map<Entity, Stats>, q: Queues): map<Entity, Stats> {
    Destroyed(SpawnedStats(Damaged(m, q.damages), q.spawns), q.destroys)
  }

  // ---------- What that means ----------

  lemma {:induction false} DestroyedIs<T>(m: map<Entity, T>, destroys: seq<Entity>, id: Entity)
    ensures At(Destroyed(m, destroys), id) == if id in destroys then None else At(m, id)
  {
    if |destroys| > 0 {
      DestroyedIs(m, destroys[..|destroys| - 1], id);
      assert destroys == destroys[..|destroys| - 1] + [destroys[|destroys| - 1]];
    }
  }

  /** The last of the moves that names an entity. */
  function LastMove(moves: seq<MoveCommand>, id: Entity): Option<MoveCommand> {
    if |moves| == 0 then None
    else if moves[|moves| - 1].id == id then Some(moves[|moves| - 1])
    else LastMove(moves[..|moves| - 1], id)
  }

  function LastSpawn(spawns: seq<SpawnCommand>, id: Entity): Option<SpawnCommand> {
    if |spawns| == 0 then None
    else if spawns[|spawns| - 1].id == id then Some(spawns[|spawns| - 1])
    else LastSpawn(spawns[..|spawns| - 1], id)
  }

  function At<T>(m: map<Entity, T>, id: Entity): Option<T> {
    if id in m then Some(m[id]) else None
  }

  /** The last command for an entity wins. */
  lemma {:induction false} MovedIs(m: map<Entity, Position>, moves: seq<MoveCommand>, id: Entity)
    ensures At(Moved(m, moves), id) ==
      if LastMove(moves, id).Some? then Some(LastMove(moves, id).value.pos) else At(m, id)
  {
    if |moves| > 0 {
      MovedIs(m, moves[..|moves| - 1], id);
    }
  }

  lemma {:induction false} SpawnedIs(
      p: map<Entity, Position>, d: map<Entity, Metadata>, s: map<Entity, Stats>, spawns: seq<SpawnCommand>, id: Entity)
    ensures var last := LastSpawn(spawns, id);
      At(SpawnedPositions(p, spawns), id) == (if last.Some? then Some(last.value.pos) else At(p, id))
      && At(SpawnedMetadata(d, spawns), id) == (if last.Some? then Some(last.value.meta) else At(d, id))
      && At(SpawnedStats(s, spawns), id) == (if last.Some? then Some(last.value.stats) else At(s, id))
  {
    if |spawns| > 0 {
      SpawnedIs(p, d, s, spawns[..|spawns| - 1], id);
    }
  }

  function TotalDamage(damages: seq<DamageCommand>, target: Entity): int {
    if |damages| == 0 then 0
    else
      TotalDamage(damages[..|damages| - 1], target)
      + if damages[|damages| - 1].target == target then damages[|damages| - 1].amount else 0
  }

  /** Non-negative damages to one target add up: its HP ends at max(0, HP - sum). Other fields and other
      entities are untouched. */
  lemma {:induction false} DamageAddsUp(m: map<Entity, Stats>, damages: seq<DamageCommand>, target: Entity)
    requires forall k :: 0 <= k < |damages| ==> damages[k].amount >= 0
    requires target in m && m[target].hp >= 0
    ensures target in Damaged(m, damages) && TotalDamage(damages, target) >= 0
    ensures var hp := m[target].hp - TotalDamage(damages, target);
      Damaged(m, damages)[target] == m[target].(hp := if hp < 0 then 0 else hp)
  {
    if |damages| > 0 {
      DamageAddsUp(m, damages[..|damages| - 1], target);
    }
  }

  lemma {:induction false} DamagedKeys(m: map<Entity, Stats>, damages: seq<DamageCommand>)
    ensures Damaged(m, damages).Keys == m.Keys
  {
    if |damages| > 0 {
      DamagedKeys(m, damages[..|damages| - 1]);
    }
  }

  lemma {:induction false} DamagedFrame(m: map<Entity, Stats>, damages: seq<DamageCommand>, id: Entity)
    requires forall k :: 0 <= k < |damages| ==> damages[k].target != id
    ensures At(Damaged(m, damages), id) == At(m, id)
  {
    if |damages| > 0 {
      DamagedFrame(m, damages[..|damages| - 1], id);
    }
  }

  /** Some damage names the target. */
  predicate IsHit(damages: seq<DamageCommand>, target: Entity) {
    exists k :: 0 <= k < |damages| && damages[k].target == target
  }

  /** The most the target is healed, net, by the damages after some hit on it: 0 after the last one. */
  function Rebound(damages: seq<DamageCommand>, target: Entity): nat {
    if |damages| == 0 then 0
    else
      var before, last := damages[..|damages| - 1], damages[|damages| - 1];
      if last.target != target then Rebound(before, target)
      else if !IsHit(before, target) || Rebound(before, target) < last.amount then 0
      else Rebound(before, target) - last.amount
  }

  lemma HitsSplit(damages: seq<DamageCommand>, target: Entity)
    requires |damages| > 0
    ensures IsHit(damages, target) <==>
      IsHit(damages[..|damages| - 1], target) || damages[|damages| - 1].target == target
  {
    var init := damages[..|damages| - 1];
    assert damages == init + [damages[|damages| - 1]];
    if IsHit(init, target) {
      var k :| 0 <= k < |init| && init[k].target == target;
      assert damages[k].target == target;
    }
  }

  /** What is left after hits of any sign: the HP less all amounts, or the rebound since the clamp at zero if
      that is more. */
  lemma {:induction false} DamagedHp(m: map<Entity, Stats>, damages: seq<DamageCommand>, target: Entity)
    requires target in m
    ensures target in Damaged(m, damages)
    ensures var hp, rebound := m[target].hp - TotalDamage(damages, target), Rebound(damages, target);
      Damaged(m, damages)[target] ==
        m[target].(hp := if IsHit(damages, target) && hp < rebound then rebound else hp)
    ensures !IsHit(damages, target) ==> TotalDamage(damages, target) == 0
  {
    hide IsHit;
    if |damages| > 0 {
      DamagedHp(m, damages[..|damages| - 1], target);
      HitsSplit(damages, target);
    } else {
      assert !IsHit(damages, target) by { NoHit(target); }
    }
  }

  lemma NoHit(target: Entity)
    ensures !IsHit([], target)
  {
  }

  /** `Rebound` is what its name says: at least the net healing of the damages after any hit, and equal to it for
      some hit. */
  lemma {:induction false} ReboundIsGreatest(damages: seq<DamageCommand>, target: Entity) returns (best: nat)
    requires IsHit(damages, target)
    ensures best < |damages| && damages[best].target == target
    ensures Rebound(damages, target) == -TotalDamage(damages[best + 1..], target)
    ensures forall k :: 0 <= k < |damages| && damages[k].target == target ==>
      Rebound(damages, target) >= -TotalDamage(damages[k + 1..], target)
    decreases |damages|
  {
    hide IsHit, TotalDamage;
    var n := |damages| - 1;
    NoHit(target);
    HitsSplit(damages, target);
    var before := damages[..n];
    NothingAfter(damages, target);
    best := n;
    if IsHit(before, target) {
      var b := ReboundIsGreatest(before, target);
      forall k | 0 <= k < n && damages[k].target == target
        ensures before[k].target == target
        ensures TotalDamage(damages[k + 1..], target) == TotalDamage(before[k + 1..], target)
          + if damages[n].target == target then damages[n].amount else 0
      {
        TotalDamageAppend(before[k + 1..], damages[n], target);
        assert damages[k + 1..] == before[k + 1..] + [damages[n]];
      }
      if damages[n].target != target || Rebound(before, target) >= damages[n].amount {
        best := b;
      }
    } else {
      forall k | 0 <= k < n ensures damages[k].target != target {
        HitAt(before, target, k);
      }
    }
  }

  lemma HitAt(damages: seq<DamageCommand>, target: Entity, k: nat)
    requires k < |damages|
    ensures damages[k].target == target ==> IsHit(damages, target)
  {
  }

  lemma NothingAfter(damages: seq<DamageCommand>, target: Entity)
    requires |damages| > 0
    ensures TotalDamage(damages[|damages| - 1 + 1..], target) == 0
  {
  }

  lemma TotalDamageAppend(damages: seq<DamageCommand>, d: DamageCommand, target: Entity)
    ensures TotalDamage(damages + [d], target) ==
      TotalDamage(damages, target) + if d.target == target then d.amount else 0
  {
    assert (damages + [d])[..|damages|] == damages;
  }

  /** Damages of any sign add up, leaving max(0, HP - sum), exactly if what the target is healed after some hit
      never exceeds that. */
  lemma DamageAddsUpIff(m: map<Entity, Stats>, damages: seq<DamageCommand>, target: Entity)
    requires target in m
    ensures target in Damaged(m, damages)
    ensures var hp := m[target].hp - TotalDamage(damages, target);
      var clamped := if hp < 0 then 0 else hp;
      Damaged(m, damages)[target].hp == clamped <==>
        if IsHit(damages, target) then Rebound(damages, target) <= clamped else m[target].hp >= 0
  {
    hide Damaged, IsHit, TotalDamage, Rebound;
    DamagedHp(m, damages, target);
  }

  /** A case: at 5 HP, damage 10 and then "damage" -3 leave 3, not max(0, 5 - 7). */
  lemma NegativeDamageDoesNotAddUp(e: Entity)
    ensures var d := [DamageCommand(0, e, 10), DamageCommand(0, e, -3)];
      var after := Damaged(map[e := Stats(5, 5, 1)], d);
      e in after && after[e].hp == 3 == Rebound(d, e) && 5 - TotalDamage(d, e) < 0
  {
    var first, second := DamageCommand(0, e, 10), DamageCommand(0, e, -3);
    var d := [first, second];
    assert d[..1] == [first] && [first][..0] == [];
    assert [first][0].target == e;
    assert IsHit([first], e) && !IsHit([], e);
    assert Rebound([first], e) == 0 && TotalDamage([first], e) == 10;
    assert d[0].target == e && IsHit(d, e);
    DamagedHp(map[e := Stats(5, 5, 1)], d, e);
  }

  /** What a flush leaves of one entity: nothing if it is destroyed; else what the last spawn gave it; else the
      last move's position and its stats after the damages. */
  lemma FlushIs(p: map<Entity, Position>, d: map<Entity, Metadata>, s: map<Entity, Stats>, q: Queues, id: Entity)
    ensures id in q.destroys ==>
      id !in FlushedPositions(p, q) && id !in FlushedMetadata(d, q) && id !in FlushedStats(s, q)
    ensures id !in q.destroys ==>
      var spawn, move := LastSpawn(q.spawns, id), LastMove(q.moves, id);
      At(FlushedPositions(p, q), id) ==
        (if spawn.Some? then Some(spawn.value.pos) else if move.Some? then Some(move.value.pos) else At(p, id))
      && At(FlushedMetadata(d, q), id) == (if spawn.Some? then Some(spawn.value.meta) else At(d, id))
      && At(FlushedStats(s, q), id) ==
        (if spawn.Some? then Some(spawn.value.stats) else At(Damaged(s, q.damages), id))
  {
    hide Moved, Damaged, SpawnedPositions, SpawnedMetadata, SpawnedStats, Destroyed, LastMove, LastSpawn;
    MovedIs(p, q.moves, id);
    SpawnedIs(Moved(p, q.moves), d, Damaged(s, q.damages), q.spawns, id);
    DestroyedIs(SpawnedPositions(Moved(p, q.moves), q.spawns), q.destroys, id);
    DestroyedIs(SpawnedMetadata(d, q.spawns), q.destroys, id);
    DestroyedIs(SpawnedStats(Damaged(s, q.damages), q.spawns), q.destroys, id);
  }

  // ---------- The buffer ----------

  ghost predicate IndexDistinct(ids: set<Entity>) {
    forall a, b :: a in ids && b in ids && Index(a) == Index(b) ==> a == b
  }

  /** The IDs a flush may store under. */
  ghost function StoredBy(q: Queues): set<Entity> {
    (set k | 0 <= k < |q.moves| :: q.moves[k].id) + (set k | 0 <= k < |q.spawns| :: q.spawns[k].id)
  }

  // ---------- What a flush needs to keep IDs unique ----------

  /** Destroys name live entities, none twice, and moves and spawns name live entities. */
  ghost predicate Orderly(q: Queues, live: set<Entity>) {
    Distinct(q.destroys) && (forall id :: id in q.destroys ==> id in live) && StoredBy(q) <= live
  }

  lemma {:induction false} LastMoveNames(moves: seq<MoveCommand>, id: Entity)
    ensures LastMove(moves, id).Some? <==> exists k :: 0 <= k < |moves| && moves[k].id == id
  {
    if |moves| > 0 {
      var init := moves[..|moves| - 1];
      LastMoveNames(init, id);
      assert moves == init + [moves[|moves| - 1]];
      assert forall k :: 0 <= k < |init| ==> init[k] == moves[k];
    }
  }

  lemma {:induction false} LastSpawnNames(spawns: seq<SpawnCommand>, id: Entity)
    ensures LastSpawn(spawns, id).Some? <==> exists k :: 0 <= k < |spawns| && spawns[k].id == id
  {
    if |spawns| > 0 {
      var init := spawns[..|spawns| - 1];
      LastSpawnNames(init, id);
      assert spawns == init + [spawns[|spawns| - 1]];
      assert forall k :: 0 <= k < |init| ==> init[k] == spawns[k];
    }
  }

  /** The last move of an entity: one of its moves, with none of its moves after. */
  lemma {:induction false} LastMoveIs(moves: seq<MoveCommand>, id: Entity, k: nat)
    requires k < |moves| && moves[k].id == id && forall j :: k < j < |moves| ==> moves[j].id != id
    ensures LastMove(moves, id) == Some(moves[k])
    decreases |moves|
  {
    if k < |moves| - 1 {
      LastMoveIs(moves[..|moves| - 1], id, k);
    }
  }

  lemma {:induction false} LastSpawnIs(spawns: seq<SpawnCommand>, id: Entity, k: nat)
    requires k < |spawns| && spawns[k].id == id && forall j :: k < j < |spawns| ==> spawns[j].id != id
    ensures LastSpawn(spawns, id) == Some(spawns[k])
    decreases |spawns|
  {
    if k < |spawns| - 1 {
      LastSpawnIs(spawns[..|spawns| - 1], id, k);
    }
  }

  lemma StoredByNames(q: Queues, id: Entity)
    ensures id in StoredBy(q) <==> LastMove(q.moves, id).Some? || LastSpawn(q.spawns, id).Some?
  {
    LastMoveNames(q.moves, id);
    LastSpawnNames(q.spawns, id);
  }

  /** Who has components after a flush. */
  lemma FlushedKeys(p: map<Entity, Position>, d: map<Entity, Metadata>, s: map<Entity, Stats>, q: Queues, id: Entity)
    ensures id in FlushedPositions(p, q) <==> id !in q.destroys && (id in p || id in StoredBy(q))
    ensures id in FlushedMetadata(d, q) ==> id in d || id in StoredBy(q)
    ensures id in FlushedStats(s, q) ==> id in s || id in StoredBy(q)
    ensures id in FlushedMetadata(d, q) || id in FlushedStats(s, q) ==> id !in q.destroys
  {
    hide FlushedPositions, FlushedMetadata, FlushedStats, LastMove, LastSpawn, Damaged, StoredBy;
    FlushIs(p, d, s, q, id);
    StoredByNames(q, id);
    DamagedKeys(s, q.damages);
  }

  /** A flush keeps IDs unique and components with live entities exactly if its commands are orderly. */
  lemma FlushKeepsDisciplineIff(
      p: map<Entity, Position>, d: map<Entity, Metadata>, s: map<Entity, Stats>, q: Queues, ids: Ids)
    requires Inv(ids) && p.Keys <= ids.live && d.Keys <= ids.live && s.Keys <= ids.live
    ensures var r := RemoveAll(ids, q.destroys);
      (Inv(r) && FlushedPositions(p, q).Keys <= r.live && FlushedMetadata(d, q).Keys <= r.live
       && FlushedStats(s, q).Keys <= r.live) <==> Orderly(q, ids.live)
  {
    hide Inv, RemoveAll, Distinct, FlushedPositions, FlushedMetadata, FlushedStats, StoredBy;
    RemoveAllKeepsInvIff(ids, q.destroys);
    RemoveAllIs(ids, q.destroys);
    forall id: Entity
      ensures id in FlushedPositions(p, q) <==> id !in q.destroys && (id in p || id in StoredBy(q))
      ensures id in FlushedMetadata(d, q) ==> id !in q.destroys && (id in d || id in StoredBy(q))
      ensures id in FlushedStats(s, q) ==> id !in q.destroys && (id in s || id in StoredBy(q))
    {
      FlushedKeys(p, d, s, q, id);
    }
    var r := RemoveAll(ids, q.destroys);
    if Inv(r) && FlushedPositions(p, q).Keys <= r.live {
      forall id | id in StoredBy(q) ensures id in ids.live {
        assert id !in q.destroys ==> id in FlushedPositions(p, q);
      }
    }
  }

  lemma PrefixNext<T>(s: seq<T>, i: nat)
    requires i < |s|
    ensures s[..i + 1][..i] == s[..i] && s[..i + 1][i] == s[i]
  {
  }

  class CommandBuffer {
    var moves: seq<MoveCommand>
    var damages: seq<DamageCommand>
    var spawns: seq<SpawnCommand>
    var destroys: seq<Entity>

    constructor ()
      ensures Pending() == Queues([], [], [], [])
    {
      moves, damages, spawns, destroys := [], [], [], [];
    }

    function Pending(): Queues
      reads this
    {
      Queues(moves, damages, spawns, destroys)
    }

    method AddMove(id: Entity, pos: Position)
      modifies this`moves
      ensures moves == old(moves) + [MoveCommand(id, pos)]
    {
      moves := moves + [MoveCommand(id, pos)];
    }

    method AddDamage(source: Entity, target: Entity, amount: int)
      modifies this`damages
      ensures damages == old(damages) + [DamageCommand(source, target, amount)]
    {
      damages := damages + [DamageCommand(source, target, amount)];
    }

    method AddSpawn(id: Entity, pos: Position, meta: Metadata, stats: Stats)
      modifies this`spawns
      ensures spawns == old(spawns) + [SpawnCommand(id, pos, meta, stats)]
    {
      spawns := spawns + [SpawnCommand(id, pos, meta, stats)];
    }

    method AddDestroy(id: Entity)
      modifies this`destroys
      ensures destroys == old(destroys) + [id]
    {
      destroys := destroys + [id];
    }

    ghost predicate Separate(reg: Registry, grid: G.Grid)
      requires reg.Valid()
      reads reg, reg.positions, reg.metadata, reg.stats
    {
      {this as object, grid} !! {reg as object, reg.positions, reg.metadata, reg.stats} && this as object != grid
    }

    /** Phase 1. */
    method FlushMoves(reg: Registry, grid: G.Grid, ghost ids: set<Entity>)
      requires reg.Valid() && grid.Valid() && Separate(reg, grid)
      requires IndexDistinct(ids) && reg.positions.Contents().Keys <= ids && StoredBy(Pending()) <= ids
      requires |reg.positions.dense| + |moves| < MAX_ENTITIES
      modifies reg.positions, grid
      ensures reg.Valid() && grid.Valid()
      ensures reg.positions.Contents() == Moved(old(reg.positions.Contents()), moves)
      ensures grid.Contents() == Moved(old(grid.Contents()), moves)
      ensures reg.positions.Contents().Keys <= ids
      ensures |reg.positions.dense| <= old(|reg.positions.dense|) + |moves|
    {
      hide MapOf, Mutual, G.Positions, G.Agree, IndexFree;
      for i := 0 to |moves|
        invariant reg.Valid() && grid.Valid() && reg.positions.Contents().Keys <= ids
        invariant reg.positions.Contents() == Moved(old(reg.positions.Contents()), moves[..i])
        invariant grid.Contents() == Moved(old(grid.Contents()), moves[..i])
        invariant |reg.positions.dense| <= old(|reg.positions.dense|) + i
      {
        var cmd := moves[i];
        PrefixNext(moves, i);
        assert cmd.id in StoredBy(Pending());
        IndexFreeAmong(reg.positions.dense, reg.positions.values, ids, cmd.id);
        reg.positions.Set(cmd.id, cmd.pos);
        grid.UpdateEntityPosition(cmd.id, cmd.pos);
      }
      assert moves[..|moves|] == moves;
    }

    /** Phase 2. */
    method FlushDamages(reg: Registry, ghost ids: set<Entity>)
      requires reg.Valid() && this as object != reg.stats
      requires IndexDistinct(ids) && reg.stats.Contents().Keys <= ids
      requires |reg.stats.dense| < MAX_ENTITIES
      modifies reg.stats
      ensures reg.Valid()
      ensures reg.stats.Contents() == Damaged(old(reg.stats.Contents()), damages)
      ensures reg.stats.Contents().Keys <= ids && |reg.stats.dense| == old(|reg.stats.dense|)
    {
      hide Mutual, IndexFree, MapOf;
      for i := 0 to |damages|
        invariant reg.Valid() && reg.stats.Contents().Keys <= ids && |reg.stats.dense| == old(|reg.stats.dense|)
        invariant reg.stats.Contents() == Damaged(old(reg.stats.Contents()), damages[..i])
      {
        var cmd := damages[i];
        PrefixNext(damages, i);
        var found := reg.stats.Get(cmd.target);
        if found.Some? {
          var hp := found.value.hp - cmd.amount;
          if hp < 0 {
            hp := 0;
          }
          IndexFreeAmong(reg.stats.dense, reg.stats.values, ids, cmd.target);
          StoredKeys(reg.stats.dense, reg.stats.values, cmd.target);
          reg.stats.Set(cmd.target, found.value.(hp := hp));
        }
      }
      assert damages[..|damages|] == damages;
    }

    /** One spawn: all three components and the grid. */
    method SpawnOne(reg: Registry, grid: G.Grid, cmd: SpawnCommand, ghost ids: set<Entity>)
      requires reg.Valid() && grid.Valid() && Separate(reg, grid)
      requires IndexDistinct(ids) && cmd.id in ids
      requires reg.positions.Contents().Keys <= ids && reg.metadata.Contents().Keys <= ids
      requires reg.stats.Contents().Keys <= ids
      requires |reg.positions.dense| < MAX_ENTITIES && |reg.metadata.dense| < MAX_ENTITIES
      requires |reg.stats.dense| < MAX_ENTITIES
      modifies reg.positions, reg.metadata, reg.stats, grid
      ensures reg.Valid() && grid.Valid()
      ensures reg.positions.Contents() == old(reg.positions.Contents())[cmd.id := cmd.pos]
      ensures reg.metadata.Contents() == old(reg.metadata.Contents())[cmd.id := cmd.meta]
      ensures reg.stats.Contents() == old(reg.stats.Contents())[cmd.id := cmd.stats]
      ensures grid.Contents() == old(grid.Contents())[cmd.id := cmd.pos]
      ensures |reg.positions.dense| <= old(|reg.positions.dense|) + 1
      ensures |reg.metadata.dense| <= old(|reg.metadata.dense|) + 1
      ensures |reg.stats.dense| <= old(|reg.stats.dense|) + 1
    {
      hide MapOf, Mutual, G.Positions, G.Agree, IndexFree;
      IndexFreeAmong(reg.positions.dense, reg.positions.values, ids, cmd.id);
      IndexFreeAmong(reg.metadata.dense, reg.metadata.values, ids, cmd.id);
      IndexFreeAmong(reg.stats.dense, reg.stats.values, ids, cmd.id);
      reg.positions.Set(cmd.id, cmd.pos);
      reg.metadata.Set(cmd.id, cmd.meta);
      reg.stats.Set(cmd.id, cmd.stats);
      grid.UpdateEntityPosition(cmd.id, cmd.pos);
    }

    /** Phase 3. */
    method FlushSpawns(reg: Registry, grid: G.Grid, ghost ids: set<Entity>)
      requires reg.Valid() && grid.Valid() && Separate(reg, grid)
      requires IndexDistinct(ids) && StoredBy(Pending()) <= ids
      requires reg.positions.Contents().Keys <= ids && reg.metadata.Contents().Keys <= ids
      requires reg.stats.Contents().Keys <= ids
      requires |reg.positions.dense| + |spawns| < MAX_ENTITIES && |reg.metadata.dense| + |spawns| < MAX_ENTITIES
      requires |reg.stats.dense| + |spawns| < MAX_ENTITIES
      modifies reg.positions, reg.metadata, reg.stats, grid
      ensures reg.Valid() && grid.Valid()
      ensures reg.positions.Contents() == SpawnedPositions(old(reg.positions.Contents()), spawns)
      ensures reg.metadata.Contents() == SpawnedMetadata(old(reg.metadata.Contents()), spawns)
      ensures reg.stats.Contents() == SpawnedStats(old(reg.stats.Contents()), spawns)
      ensures grid.Contents() == SpawnedPositions(old(grid.Contents()), spawns)
    {
      hide MapOf, Mutual, G.Positions, G.Agree, IndexFree;
      for i := 0 to |spawns|
        invariant reg.Valid() && grid.Valid()
        invariant reg.positions.Contents().Keys <= ids && reg.metadata.Contents().Keys <= ids
        invariant reg.stats.Contents().Keys <= ids
        invariant reg.positions.Contents() == SpawnedPositions(old(reg.positions.Contents()), spawns[..i])
        invariant reg.metadata.Contents() == SpawnedMetadata(old(reg.metadata.Contents()), spawns[..i])
        invariant reg.stats.Contents() == SpawnedStats(old(reg.stats.Contents()), spawns[..i])
        invariant grid.Contents() == SpawnedPositions(old(grid.Contents()), spawns[..i])
        invariant |reg.positions.dense| <= old(|reg.positions.dense|) + i
        invariant |reg.metadata.dense| <= old(|reg.metadata.dense|) + i
        invariant |reg.stats.dense| <= old(|reg.stats.dense|) + i
      {
        PrefixNext(spawns, i);
        assert spawns[i].id in StoredBy(Pending());
        SpawnOne(reg, grid, spawns[i], ids);
      }
      assert spawns[..|spawns|] == spawns;
    }

    /** Phase 4. */
    method FlushDestroys(reg: Registry, grid: G.Grid)
      requires reg.Valid() && grid.Valid() && Separate(reg, grid)
      modifies reg, reg.positions, reg.metadata, reg.stats, grid
      ensures reg.Valid() && grid.Valid()
      ensures reg.positions.Contents() == Destroyed(old(reg.positions.Contents()), destroys)
      ensures reg.metadata.Contents() == Destroyed(old(reg.metadata.Contents()), destroys)
      ensures reg.stats.Contents() == Destroyed(old(reg.stats.Contents()), destroys)
      ensures grid.Contents() == Destroyed(old(grid.Contents()), destroys)
      ensures reg.IdState() == RemoveAll(old(reg.IdState()), destroys)
    {
      hide MapOf, Mutual, G.Positions, G.Agree;
      for i := 0 to |destroys|
        invariant reg.Valid() && grid.Valid()
        invariant reg.positions.Contents() == Destroyed(old(reg.positions.Contents()), destroys[..i])
        invariant reg.metadata.Contents() == Destroyed(old(reg.metadata.Contents()), destroys[..i])
        invariant reg.stats.Contents() == Destroyed(old(reg.stats.Contents()), destroys[..i])
        invariant grid.Contents() == Destroyed(old(grid.Contents()), destroys[..i])
        invariant reg.IdState() == RemoveAll(old(reg.IdState()), destroys[..i])
      {
        PrefixNext(destroys, i);
        reg.RemoveEntity(destroys[i]);
        grid.RemoveEntity(destroys[i]);
      }
      assert destroys[..|destroys|] == destroys;
    }

    /** The four phases, in order. */
    method Apply(reg: Registry, grid: G.Grid)
      requires reg.Valid() && grid.Valid() && Separate(reg, grid)
      requires IndexDistinct(reg.positions.Contents().Keys + reg.metadata.Contents().Keys + reg.stats.Contents().Keys
        + StoredBy(Pending()))
      requires |reg.positions.dense| + |moves| + |spawns| < MAX_ENTITIES
      requires |reg.metadata.dense| + |spawns| < MAX_ENTITIES && |reg.stats.dense| + |spawns| < MAX_ENTITIES
      modifies reg, reg.positions, reg.metadata, reg.stats, grid
      ensures reg.Valid() && grid.Valid()
      ensures reg.positions.Contents() == FlushedPositions(old(reg.positions.Contents()), Pending())
      ensures reg.metadata.Contents() == FlushedMetadata(old(reg.metadata.Contents()), Pending())
      ensures reg.stats.Contents() == FlushedStats(old(reg.stats.Contents()), Pending())
      ensures grid.Contents() == FlushedPositions(old(grid.Contents()), Pending())
      ensures reg.IdState() == RemoveAll(old(reg.IdState()), destroys)
    {
      hide MapOf, Mutual, G.Positions, G.Agree, IndexDistinct, StoredBy, RemoveAll;
      hide Moved, Damaged, SpawnedPositions, SpawnedMetadata, SpawnedStats, Destroyed;
      ghost var ids := reg.positions.Contents().Keys + reg.metadata.Contents().Keys + reg.stats.Contents().Keys
        + StoredBy(Pending());
      FlushMoves(reg, grid, ids);
      FlushDamages(reg, ids);
      FlushSpawns(reg, grid, ids);
      FlushDestroys(reg, grid);
    }

    /** Moves, then damages, then spawns, then destroys; then the queues are empty. Position store and grid, if
        they agreed before, agree after. IDs stay unique exactly if the commands were orderly. */
    method Flush(reg: Registry, grid: G.Grid)
      requires reg.Valid() && grid.Valid() && Separate(reg, grid)
      requires IndexDistinct(reg.positions.Contents().Keys + reg.metadata.Contents().Keys + reg.stats.Contents().Keys
        + StoredBy(Pending()))
      requires |reg.positions.dense| + |moves| + |spawns| < MAX_ENTITIES
      requires |reg.metadata.dense| + |spawns| < MAX_ENTITIES && |reg.stats.dense| + |spawns| < MAX_ENTITIES
      modifies this, reg, reg.positions, reg.metadata, reg.stats, grid
      ensures reg.Valid() && grid.Valid() && Pending() == Queues([], [], [], [])
      ensures reg.positions.Contents() == FlushedPositions(old(reg.positions.Contents()), old(Pending()))
      ensures reg.metadata.Contents() == FlushedMetadata(old(reg.metadata.Contents()), old(Pending()))
      ensures reg.stats.Contents() == FlushedStats(old(reg.stats.Contents()), old(Pending()))
      ensures grid.Contents() == FlushedPositions(old(grid.Contents()), old(Pending()))
      ensures old(grid.Contents() == reg.positions.Contents()) ==> grid.Contents() == reg.positions.Contents()
      ensures reg.IdState() == RemoveAll(old(reg.IdState()), old(destroys))
      ensures old(reg.Disciplined()) ==> (reg.Disciplined() <==> Orderly(old(Pending()), old(reg.live)))
    {
      hide MapOf, Mutual, G.Positions, G.Agree, IndexDistinct, StoredBy, Inv, RemoveAll, Orderly;
      hide FlushedPositions, FlushedMetadata, FlushedStats;
      Apply(reg, grid);
      if old(reg.Disciplined()) {
        FlushKeepsDisciplineIff(old(reg.positions.Contents()), old(reg.metadata.Contents()), old(reg.stats.Contents()),
                                Pending(), old(reg.IdState()));
      }
      moves, damages, spawns, destroys := [], [], [], [];
    }
  }

  lemma StoredKeys<T>(dense: seq<Entity>, values: seq<T>, id: Entity)
    requires |dense| == |values|
    ensures id in MapOf(dense, values) <==> id in dense
  {
  }
}
