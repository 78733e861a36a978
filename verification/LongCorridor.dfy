/** How many cells the pathfinder can cope with, exactly: as many as it may expand. A corridor that winds back and
    forth over one cell more has a way through that is missed. */
module LongCorridor {
  import opened Int32
  import opened Counting
  import opened Geometry
  import opened AStarSearch
  import opened Pathfinding

  // ---------- The corridor ----------

  /** Rows with an even z are open; the odd ones only at the end where the corridor turns. */
  predicate InCorridor(x: int, z: int) {
    0 <= x <= 100 && 0 <= z <= 100 && (z % 2 == 0 || x == if z % 4 == 1 then 100 else 0)
  }

  /** How many steps into the corridor a cell lies: 102 for each row and the turn after it. */
  function StepsIn(c: Cell): int {
    c.z / 2 * 102 + if c.z % 2 == 1 then 101 else if c.z % 4 == 0 then c.x else 100 - c.x
  }

  /** The corridor up to the given number of steps. */
  function Corridor(length: nat): Walkable {
    (x: int, z: int) => InCorridor(x, z) && StepsIn(Cell(x, z)) <= length
  }

  function CellAt(row: nat, along: nat): Cell {
    if along == 101 then Cell(if row % 2 == 0 then 100 else 0, 2 * row + 1)
    else Cell(if row % 2 == 0 then along else 100 - along, 2 * row)
  }

  function CellAfter(steps: nat): Cell {
    CellAt(steps / 102, steps % 102)
  }

  lemma RowParity(row: nat)
    ensures (2 * row) % 4 == 2 * (row % 2) && (2 * row + 1) % 4 == 2 * (row % 2) + 1
  {
    var q, b := row / 2, row % 2;
    assert 2 * row == 4 * q + 2 * b;
    assert b == 0 || b == 1;
  }

  lemma CellAtIs(row: nat, along: nat)
    requires row <= 49 && along <= 101
    ensures var c := CellAt(row, along); InCorridor(c.x, c.z) && StepsIn(c) == row * 102 + along
  {
    RowParity(row);
  }

  /** `CellAfter` counts the cells of the corridor from its start. */
  lemma CellAfterIs(steps: nat)
    requires steps < 50 * 102
    ensures var c := CellAfter(steps); InCorridor(c.x, c.z) && StepsIn(c) == steps
  {
    hide CellAt, StepsIn, InCorridor;
    CellAtIs(steps / 102, steps % 102);
  }

  lemma CorridorCellIsAfter(c: Cell)
    requires InCorridor(c.x, c.z)
    ensures StepsIn(c) >= 0 && CellAfter(StepsIn(c)) == c
  {
    var row := c.z / 2;
    var along := StepsIn(c) - row * 102;
    RowParity(row);
    assert 0 <= along <= 101 && CellAt(row, along) == c;
    assert StepsIn(c) / 102 == row && StepsIn(c) % 102 == along;
  }

  lemma RowContinues(row: nat, along: nat)
    requires row <= 49 && along < 101
    ensures UnitStep(CellAt(row, along), CellAt(row, along + 1))
    ensures !Diagonal(CellAt(row, along), CellAt(row, along + 1))
  {
  }

  lemma TurnContinues(row: nat)
    requires row < 49
    ensures UnitStep(CellAt(row, 101), CellAt(row + 1, 0)) && !Diagonal(CellAt(row, 101), CellAt(row + 1, 0))
  {
  }

  lemma CorridorContinues(length: nat, steps: nat)
    requires steps < length <= 512
    ensures LegalStep(Corridor(length), CellAfter(steps), CellAfter(steps + 1))
  {
    hide UnitStep, Diagonal, CellAt, StepsIn, InCorridor;
    var row, along := steps / 102, steps % 102;
    if along < 101 {
      assert (steps + 1) / 102 == row && (steps + 1) % 102 == along + 1;
      RowContinues(row, along);
    } else {
      assert (steps + 1) / 102 == row + 1 && (steps + 1) % 102 == 0;
      TurnContinues(row);
    }
    CellAfterIs(steps + 1);
    InCorridorInBounds(CellAfter(steps + 1));
  }

  lemma InCorridorInBounds(c: Cell)
    requires InCorridor(c.x, c.z)
    ensures InBounds(c)
  {
  }

  // ---------- Its length ----------

  /** A legal step gets at most one further into the corridor: no diagonal cuts a turn. */
  lemma StepAdvancesByOne(length: nat, a: Cell, b: Cell)
    requires InCorridor(a.x, a.z) && LegalStep(Corridor(length), a, b)
    ensures InCorridor(b.x, b.z) && StepsIn(b) <= StepsIn(a) + 1
  {
  }

  lemma {:induction false} WalkAdvancesByOne(length: nat, path: seq<Cell>, k: nat)
    requires LegalWalk(Corridor(length), path) && InCorridor(path[0].x, path[0].z) && k < |path|
    ensures InCorridor(path[k].x, path[k].z) && StepsIn(path[k]) <= StepsIn(path[0]) + k
  {
    hide LegalStep, InCorridor, StepsIn;
    if k > 0 {
      WalkAdvancesByOne(length, path, k - 1);
      assert LegalStep(Corridor(length), path[k - 1], path[k - 1 + 1]);
      StepAdvancesByOne(length, path[k - 1], path[k]);
    }
  }

  lemma {:induction false} ElementsAtMost(s: seq<Cell>)
    ensures |Elements(s)| <= |s|
  {
    if |s| > 0 {
      var init, last := s[..|s| - 1], s[|s| - 1];
      ElementsAtMost(init);
      assert Elements(s) == Elements(init) + {last};
    }
  }

  /** The corridor has one cell more than its length in steps. */
  lemma CorridorSize(length: nat)
    requires length <= 512
    ensures CellAfter(0) in WalkableCells(Corridor(length)) && |WalkableCells(Corridor(length))| <= length + 1
  {
    hide CellAfter, InCorridor, StepsIn;
    var cells := seq(length + 1, (k: nat) => CellAfter(k));
    var region := WalkableCells(Corridor(length));
    forall c | c in region ensures c in Elements(cells) {
      CorridorCellIsAfter(c);
      assert cells[StepsIn(c)] == c;
    }
    CellAfterIs(0);
    InCorridorInBounds(CellAfter(0));
    ElementsAtMost(cells);
    SubsetSize(region, Elements(cells));
  }

  /** A corridor one cell longer than the expansion limit has a way through, and it is not found. With the default
      limit that is a corridor of 513 cells on a board of 101 by 101. */
  lemma LongCorridorMissed(maxNodes: int)
    ensures var limit := EffectiveLimit(maxNodes);
      var goal := CellAfter(limit);
      |WalkableCells(Corridor(limit))| <= limit + 1
      && PathExists(Corridor(limit), Cell(0, 0), goal)
      && !FindPath(Corridor(limit), 0, 0, goal.x, goal.z, maxNodes).found
  {
    hide FindPath, InCorridor, StepsIn, EffectiveLimit, LegalStep, CellAfter, WalkableCells;
    var limit := EffectiveLimit(maxNodes);
    var goal, w := CellAfter(limit), Corridor(limit);
    CorridorSize(limit);
    StartOfCorridor();
    CellAfterIs(0);
    CellAfterIs(limit);
    var path := seq(limit + 1, (k: nat) => CellAfter(k));
    forall i | 0 <= i < |path| - 1 ensures LegalStep(w, path[i], path[i + 1]) {
      CorridorContinues(limit, i);
    }
    assert WalkBetween(w, path, Cell(0, 0), goal);
    if FindPath(w, 0, 0, goal.x, goal.z, maxNodes).found {
      InCorridorInBounds(goal);
      FindPathSound(w, 0, 0, goal.x, goal.z, maxNodes);
      var p := FindPath(w, 0, 0, goal.x, goal.z, maxNodes).points;
      WalkAdvancesByOne(limit, p, |p| - 1);
      assert false;
    }
  }

  lemma StartOfCorridor()
    ensures CellAfter(0) == Cell(0, 0) && InCorridor(0, 0) && StepsIn(Cell(0, 0)) == 0
  {
  }

  // ---------- The bound ----------

  /** A path is found exactly if there is one, and no legal walk is cheaper. */
  ghost predicate RightAnswer(walkable: Walkable, start: Cell, goal: Cell, maxNodes: int) {
    var r := FindPath(walkable, start.x, start.z, goal.x, goal.z, maxNodes);
    && (r.found <==> PathExists(walkable, start, goal))
    && (r.found ==> forall path :: WalkBetween(walkable, path, start, goal) ==> WalkCost(r.points) <= WalkCost(path))
  }

  /** The answer is right on every map whose cells within reach of the start number at most n. */
  ghost predicate RightUpTo(maxNodes: int, n: nat) {
    forall walkable, start: Cell, goal: Cell, region ::
      InInt32(start.x) && InInt32(start.z) && InInt32(goal.x) && InInt32(goal.z)
      && IsRegion(walkable, start, region) && |region| <= n
      ==> RightAnswer(walkable, start, goal, maxNodes)
  }

  lemma RightWithinLimit(walkable: Walkable, start: Cell, goal: Cell, maxNodes: int, region: set<Cell>)
    requires InInt32(start.x) && InInt32(start.z) && InInt32(goal.x) && InInt32(goal.z)
    requires IsRegion(walkable, start, region) && |region| <= EffectiveLimit(maxNodes)
    ensures RightAnswer(walkable, start, goal, maxNodes)
  {
    hide FindPath, PathExists, IsRegion, WalkBetween;
    FindPathDecides(walkable, start.x, start.z, goal.x, goal.z, maxNodes, region);
    var r := FindPath(walkable, start.x, start.z, goal.x, goal.z, maxNodes);
    forall path | r.found && WalkBetween(walkable, path, start, goal) ensures WalkCost(r.points) <= WalkCost(path) {
      FindPathOptimal(walkable, start.x, start.z, goal.x, goal.z, maxNodes, region, path);
    }
  }

  /** The pathfinder is complete and optimal on every map with at most n cells within reach if and only if n is
      at most the expansion limit: 512, or what the caller asks for below that. */
  lemma RightUpToIff(maxNodes: int, n: nat)
    ensures RightUpTo(maxNodes, n) <==> n <= EffectiveLimit(maxNodes)
  {
    hide FindPath, PathExists, IsRegion, RightAnswer, CellAfter, WalkableCells, EffectiveLimit;
    if n <= EffectiveLimit(maxNodes) {
      forall walkable, start: Cell, goal: Cell, region |
        InInt32(start.x) && InInt32(start.z) && InInt32(goal.x) && InInt32(goal.z)
        && IsRegion(walkable, start, region) && |region| <= n
        ensures RightAnswer(walkable, start, goal, maxNodes)
      {
        RightWithinLimit(walkable, start, goal, maxNodes, region);
      }
    } else {
      var limit := EffectiveLimit(maxNodes);
      var w, goal := Corridor(limit), CellAfter(limit);
      LongCorridorMissed(maxNodes);
      StartOfCorridor();
      CorridorSize(limit);
      WalkableCellsAreRegion(w, Cell(0, 0));
      assert WalkableCells(w) + {Cell(0, 0)} == WalkableCells(w);
      CellAfterIs(limit);
      InCorridorInBounds(goal);
      WrongAnswer(w, Cell(0, 0), goal, maxNodes);
      assert IsRegion(w, Cell(0, 0), WalkableCells(w));
    }
  }

  /** The same in terms of what the caller asks for: a limit from 1 to 512 is taken as it is, and any other stands
      for 512. */
  lemma RightUpToAsked(maxNodes: int, n: nat)
    ensures 0 < maxNodes <= 512 ==> (RightUpTo(maxNodes, n) <==> n <= maxNodes)
    ensures maxNodes <= 0 || maxNodes > 512 ==> (RightUpTo(maxNodes, n) <==> n <= 512)
  {
    hide RightUpTo;
    RightUpToIff(maxNodes, n);
  }

  lemma WrongAnswer(walkable: Walkable, start: Cell, goal: Cell, maxNodes: int)
    requires PathExists(walkable, start, goal) && !FindPath(walkable, start.x, start.z, goal.x, goal.z, maxNodes).found
    ensures !RightAnswer(walkable, start, goal, maxNodes)
  {
  }
}
