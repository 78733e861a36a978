/** The grid the pathfinder walks on: cells, legal steps, walks and their cost, and the octile heuristic.

    `LegalWalk` and `WalkCost` never mention the search: they are the reference against which the
    search is proved sound, complete and optimal. */
module Geometry {
  import opened Int32
  import opened Integers

  datatype Cell = Cell(x: int, z: int)

  /** The caller's `isWalkable`: any total function of a cell. */
  type Walkable = (int, int) -> bool

  const COST_STRAIGHT: int := 10
  const COST_DIAGONAL: int := 14
  const MIN_COORD: int := 0
  const MAX_COORD: int := 100

  predicate InBounds(c: Cell) {
    MIN_COORD <= c.x <= MAX_COORD && MIN_COORD <= c.z <= MAX_COORD
  }

  // ---------- The eight directions, in the order the search tries them ----------

  datatype Move = Move(dx: int, dz: int, cost: int)

  function Neighbor(k: int): (m: Move)
    requires 0 <= k < 8
  {
    if k == 0 then Move(0, -1, COST_STRAIGHT)
    else if k == 1 then Move(0, 1, COST_STRAIGHT)
    else if k == 2 then Move(-1, 0, COST_STRAIGHT)
    else if k == 3 then Move(1, 0, COST_STRAIGHT)
    else if k == 4 then Move(-1, -1, COST_DIAGONAL)
    else if k == 5 then Move(1, -1, COST_DIAGONAL)
    else if k == 6 then Move(-1, 1, COST_DIAGONAL)
    else Move(1, 1, COST_DIAGONAL)
  }

  /** The position of a unit move in the search's neighbour table. */
  function DirectionOf(dx: int, dz: int): (k: int)
    requires -1 <= dx <= 1 && -1 <= dz <= 1 && (dx != 0 || dz != 0)
    ensures 0 <= k < 8
    ensures Neighbor(k).dx == dx && Neighbor(k).dz == dz
  {
    if dx == 0 then (if dz == -1 then 0 else 1)
    else if dz == 0 then (if dx == -1 then 2 else 3)
    else if dz == -1 then (if dx == -1 then 4 else 5)
    else (if dx == -1 then 6 else 7)
  }

  // ---------- Legal steps and walks ----------

  predicate UnitStep(a: Cell, b: Cell) {
    a != b && Abs(b.x - a.x) <= 1 && Abs(b.z - a.z) <= 1
  }

  predicate Diagonal(a: Cell, b: Cell) {
    a.x != b.x && a.z != b.z
  }

  /** One step: to a walkable in-bounds neighbour, and diagonally only past two walkable corners. */
  predicate LegalStep(walkable: Walkable, a: Cell, b: Cell) {
    && UnitStep(a, b)
    && InBounds(b)
    && (Diagonal(a, b) ==> walkable(b.x, a.z) && walkable(a.x, b.z))
    && walkable(b.x, b.z)
  }

  function StepCost(a: Cell, b: Cell): int {
    if Diagonal(a, b) then COST_DIAGONAL else COST_STRAIGHT
  }

  ghost predicate LegalWalk(walkable: Walkable, path: seq<Cell>) {
    |path| > 0 && forall i :: 0 <= i < |path| - 1 ==> LegalStep(walkable, path[i], path[i + 1])
  }

  function WalkCost(path: seq<Cell>): int {
    if |path| <= 1 then 0
    else WalkCost(path[..|path| - 1]) + StepCost(path[|path| - 2], path[|path| - 1])
  }

  ghost predicate WalkBetween(walkable: Walkable, path: seq<Cell>, start: Cell, goal: Cell) {
    LegalWalk(walkable, path) && path[0] == start && path[|path| - 1] == goal
  }

  // ---------- The octile heuristic ----------

  /** COST_DIAGONAL for each diagonal move and COST_STRAIGHT for each straight one. */
  function OctileOf(dx: nat, dz: nat): nat {
    if dx > dz then 14 * dz + 10 * (dx - dz) else 14 * dx + 10 * (dz - dx)
  }

  /** The heuristic over unbounded integers. */
  function Octile(a: Cell, b: Cell): nat {
    OctileOf(Abs(a.x - b.x), Abs(a.z - b.z))
  }

  /** The heuristic as computed, with every 32-bit truncation. */
  function HeuristicOctile(a: Cell, b: Cell): int {
    ToInt32(OctileOf(Abs(ToInt32(a.x - b.x)), Abs(ToInt32(a.z - b.z))))
  }

  /** No truncation happens within 2^26 cells of the goal. */
  lemma HeuristicExact(a: Cell, b: Cell)
    requires Abs(a.x - b.x) <= 0x400_0000 && Abs(a.z - b.z) <= 0x400_0000
    ensures HeuristicOctile(a, b) == Octile(a, b)
  {
  }

  lemma OctileLipschitz(dx: int, dz: int, ex: int, ez: int)
    requires dx >= 0 && dz >= 0 && ex >= 0 && ez >= 0
    requires -1 <= dx - ex <= 1 && -1 <= dz - ez <= 1
    ensures OctileOf(dx, dz) <= OctileOf(ex, ez) + if dx != ex && dz != ez then COST_DIAGONAL else COST_STRAIGHT
  {
  }

  lemma AbsShift(u: int, v: int)
    requires -1 <= u - v <= 1
    ensures -1 <= Abs(u) as int - Abs(v) as int <= 1
  {
  }

  lemma OctileConsistent(a: Cell, b: Cell, goal: Cell)
    requires UnitStep(a, b)
    ensures Octile(a, goal) <= StepCost(a, b) + Octile(b, goal)
  {
    var dx, dz, ex, ez := Abs(a.x - goal.x), Abs(a.z - goal.z), Abs(b.x - goal.x), Abs(b.z - goal.z);
    AbsShift(a.x - goal.x, b.x - goal.x);
    AbsShift(a.z - goal.z, b.z - goal.z);
    OctileLipschitz(dx, dz, ex, ez);
    assert Octile(a, goal) == OctileOf(dx, dz) && Octile(b, goal) == OctileOf(ex, ez);
    assert a.x == b.x ==> dx == ex;
    assert a.z == b.z ==> dz == ez;
    assert StepCost(a, b) >= if dx != ex && dz != ez then COST_DIAGONAL else COST_STRAIGHT;
  }

  /** Consistency: a legal step never lowers the heuristic by more than it costs. */
  lemma HeuristicConsistent(walkable: Walkable, a: Cell, b: Cell, goal: Cell)
    requires LegalStep(walkable, a, b) && InBounds(goal)
    ensures HeuristicOctile(a, goal) <= StepCost(a, b) + HeuristicOctile(b, goal)
    ensures HeuristicOctile(a, goal) >= 0
  {
    HeuristicExact(a, goal);
    HeuristicExact(b, goal);
    OctileConsistent(a, b, goal);
  }

  lemma HeuristicAtGoal(goal: Cell)
    ensures HeuristicOctile(goal, goal) == 0
  {
  }

  /** Admissibility: the heuristic is at most the cost of any legal walk that ends at the goal. */
  lemma {:induction false} HeuristicAdmissible(walkable: Walkable, path: seq<Cell>, i: nat, goal: Cell)
    requires LegalWalk(walkable, path) && InBounds(goal)
    requires i < |path| && path[|path| - 1] == goal
    ensures WalkCost(path[..i + 1]) + HeuristicOctile(path[i], goal) <= WalkCost(path)
    decreases |path| - i
  {
    hide HeuristicOctile, LegalStep, StepCost, WalkCost;
    if i == |path| - 1 {
      assert path[..i + 1] == path;
      HeuristicAtGoal(goal);
    } else {
      HeuristicAdmissible(walkable, path, i + 1, goal);
      WalkCostStep(path, i);
      HeuristicConsistent(walkable, path[i], path[i + 1], goal);
    }
  }

  lemma WalkCostStep(path: seq<Cell>, i: nat)
    requires i + 1 < |path|
    ensures WalkCost(path[..i + 2]) == WalkCost(path[..i + 1]) + StepCost(path[i], path[i + 1])
  {
    assert path[..i + 2][..i + 1] == path[..i + 1];
  }

  lemma {:induction false} WalkCostNonNegative(path: seq<Cell>)
    ensures WalkCost(path) >= 0
  {
    if |path| > 1 {
      WalkCostNonNegative(path[..|path| - 1]);
    }
  }

  // ---------- What the octile distance is ----------

  /** A walk on an open, unbounded board: king's moves only. */
  ghost predicate KingWalk(path: seq<Cell>) {
    |path| > 0 && forall i :: 0 <= i < |path| - 1 ==> UnitStep(path[i], path[i + 1])
  }

  function Toward(from: int, to: int): int {
    if from < to then from + 1 else if from > to then from - 1 else from
  }

  /** From b back to a: both coordinates move while both differ, then the one that still does. */
  function DirectWalk(a: Cell, b: Cell): seq<Cell>
    decreases Abs(a.x - b.x) + Abs(a.z - b.z)
  {
    if a == b then [b] else DirectWalk(a, Cell(Toward(b.x, a.x), Toward(b.z, a.z))) + [b]
  }

  lemma {:induction false} DirectWalkCost(a: Cell, b: Cell)
    ensures var p := DirectWalk(a, b);
      KingWalk(p) && p[0] == a && p[|p| - 1] == b && WalkCost(p) == Octile(a, b)
    decreases Abs(a.x - b.x) + Abs(a.z - b.z)
  {
    if a != b {
      var c := Cell(Toward(b.x, a.x), Toward(b.z, a.z));
      DirectWalkCost(a, c);
      DirectWalkStep(a, b);
      var p := DirectWalk(a, b);
      assert p[..|p| - 1] == DirectWalk(a, c);
    }
  }

  lemma DirectWalkStep(a: Cell, b: Cell)
    requires a != b
    ensures var c := Cell(Toward(b.x, a.x), Toward(b.z, a.z));
      UnitStep(c, b) && Octile(a, c) + StepCost(c, b) == Octile(a, b)
  {
  }

  lemma {:induction false} KingWalkCostsOctile(path: seq<Cell>)
    requires KingWalk(path)
    ensures WalkCost(path) >= Octile(path[0], path[|path| - 1])
    decreases |path|
  {
    hide Octile, StepCost, UnitStep;
    if |path| == 1 {
      OctileToSelf(path[0]);
    } else {
      var n := |path| - 1;
      KingWalkCostsOctile(path[..n]);
      OctileStep(path[0], path[n - 1], path[n - 1 + 1]);
    }
  }

  lemma OctileToSelf(a: Cell)
    ensures Octile(a, a) == 0
  {
  }

  lemma OctileSymmetric(a: Cell, b: Cell)
    ensures Octile(a, b) == Octile(b, a)
  {
  }

  lemma OctileStep(a: Cell, b: Cell, c: Cell)
    requires UnitStep(b, c)
    ensures Octile(a, c) <= Octile(a, b) + StepCost(b, c)
  {
    OctileSymmetric(a, b);
    OctileSymmetric(a, c);
    assert UnitStep(c, b) && StepCost(c, b) == StepCost(b, c);
    OctileConsistent(c, b, a);
  }

  /** The octile distance is the cost of the cheapest walk on an open board, neither more nor less. */
  lemma OctileIsCheapest(a: Cell, b: Cell)
    ensures exists p :: KingWalk(p) && p[0] == a && p[|p| - 1] == b && WalkCost(p) == Octile(a, b)
    ensures forall p :: KingWalk(p) && p[0] == a && p[|p| - 1] == b ==> WalkCost(p) >= Octile(a, b)
  {
    hide Octile, UnitStep, WalkCost;
    DirectWalkCost(a, b);
    forall p | KingWalk(p) && p[0] == a && p[|p| - 1] == b ensures WalkCost(p) >= Octile(a, b) {
      KingWalkCostsOctile(p);
    }
  }
}
