/** The A* search: one call of `findPath` as a function of its arguments, and the theorems about it.

    `PathFinder` proves that the array code computes exactly this function, so what is proved here (soundness,
    completeness, optimality, independence of whatever the shared node cache held before) holds of that code. */
module AStarSearch {
  import opened Int32
  import opened Geometry
  import opened OpenHeap

  function CellOf(n: Node): Cell {
    Cell(n.x, n.z)
  }

  /** The first node at the given cell, from i on, or -1. */
  function IndexFrom(c: seq<Node>, at: Cell, i: nat): (r: int)
    requires i <= |c|
    ensures r == -1 || (i <= r < |c| && CellOf(c[r]) == at)
    ensures r == -1 ==> forall j :: i <= j < |c| ==> CellOf(c[j]) != at
    decreases |c| - i
  {
    if i == |c| then -1 else if CellOf(c[i]) == at then i else IndexFrom(c, at, i + 1)
  }

  function FreshNode(at: Cell): Node {
    Node(at.x, at.z, 0, 0, -1, false, false)
  }

  /** The neighbour of a cell in direction k, if the code's guards let the search step there. */
  predicate Passable(walkable: Walkable, a: Cell, k: int)
    requires 0 <= k < 8
  {
    var b := Target(a, k);
    && InBounds(b)
    && (Neighbor(k).dx != 0 && Neighbor(k).dz != 0 ==>
          walkable(a.x + Neighbor(k).dx, a.z) && walkable(a.x, a.z + Neighbor(k).dz))
    && walkable(b.x, b.z)
  }

  function Target(a: Cell, k: int): Cell
    requires 0 <= k < 8
  {
    Cell(ToInt32(a.x + Neighbor(k).dx), ToInt32(a.z + Neighbor(k).dz))
  }

  // ---------- One call, as a function ----------

  /** Offer node j a path through curr of cost tentG. */
  function Improve(goal: Cell, s: State, curr: int, j: int, tentG: int): (r: State)
    requires WellFormed(s) && 0 <= curr < |s.c| && 0 <= j < |s.c|
    ensures WellFormed(r) && |r.c| == |s.c|
  {
    var n := s.c[j];
    if n.open && tentG >= n.g then s
    else
      var c := s.c[j := n.(parent := curr, g := tentG, h := HeuristicOctile(CellOf(n), goal))];
      if !n.open then Push(State(c, s.hp), j)
      else if s.hp.pos[j] >= 0 then State(c, Fix(c, s.hp, s.hp.pos[j]))
      else State(c, s.hp)
  }

  /** Find or create the node at cell b, and unless it is closed offer it the path through curr. */
  function OfferNeighbor(goal: Cell, s: State, curr: int, b: Cell, tentG: int): (r: State)
    requires WellFormed(s) && 0 <= curr < |s.c|
    ensures WellFormed(r) && |r.c| >= |s.c|
  {
    var found := IndexFrom(s.c, b, 0);
    if found < 0 then
      if |s.c| >= MAX_PATH_NODES then s
      else Improve(goal, Allocate(s, b), curr, |s.c|, tentG)
    else if s.c[found].closed then s
    else Improve(goal, s, curr, found, tentG)
  }

  /** Look at the neighbour of curr in direction k. */
  function ExpandDirection(walkable: Walkable, goal: Cell, s: State, curr: int, k: int): (r: State)
    requires WellFormed(s) && 0 <= curr < |s.c| && 0 <= k < 8
    ensures WellFormed(r) && |r.c| >= |s.c|
  {
    var a := CellOf(s.c[curr]);
    if !Passable(walkable, a, k) then s
    else OfferNeighbor(goal, s, curr, Target(a, k), s.c[curr].g + Neighbor(k).cost)
  }

  function Allocate(s: State, at: Cell): (r: State)
    requires WellFormed(s) && |s.c| < MAX_PATH_NODES
    ensures WellFormed(r)
  {
    var r := State(s.c + [FreshNode(at)], s.hp);
    assert Inverse(r.hp, |r.c|);
    r
  }

  function ExpandFrom(walkable: Walkable, goal: Cell, s: State, curr: int, k: int): (r: State)
    requires WellFormed(s) && 0 <= curr < |s.c| && 0 <= k <= 8
    ensures WellFormed(r) && |r.c| >= |s.c|
    decreases 8 - k, |s.c|
  {
    if k == 8 then s
    else ExpandFrom(walkable, goal, ExpandDirection(walkable, goal, s, curr, k), curr, k + 1)
  }

  datatype Outcome =
    | Reached(s: State, at: int)
    | Exhausted(s: State)
    | LimitHit(s: State)

  function Close(s: State, idx: int): (r: State)
    requires WellFormed(s) && 0 <= idx < |s.c|
    ensures WellFormed(r)
  {
    s.(c := s.c[idx := s.c[idx].(closed := true)])
  }

  /** The state after one whole iteration that neither stops nor finds the goal. */
  function Iterate(walkable: Walkable, goal: Cell, s: State): (r: State)
    requires WellFormed(s) && |s.hp.nodes| > 0
    ensures WellFormed(r) && |r.c| >= |s.c|
  {
    var (s0, curr) := Pop(s);
    ExpandFrom(walkable, goal, Close(s0, curr), curr, 0)
  }

  /** The main loop, with `budget` more nodes allowed to be expanded. */
  function Search(walkable: Walkable, goal: Cell, s: State, budget: nat): (r: Outcome)
    requires WellFormed(s)
    ensures r.Reached? ==> 0 <= r.at < |r.s.c| && CellOf(r.s.c[r.at]) == goal && r.s.c[r.at].closed
    ensures |s.c| <= |r.s.c| <= MAX_PATH_NODES
    decreases budget
  {
    if |s.hp.nodes| == 0 then Exhausted(s)
    else
      var (s0, curr) := Pop(s);
      var s1 := Close(s0, curr);
      if budget == 0 then LimitHit(s1)
      else if CellOf(s1.c[curr]) == goal then Reached(s1, curr)
      else Search(walkable, goal, Iterate(walkable, goal, s), budget - 1)
  }

  function EmptyHeap(): (hp: Heap)
    ensures Inverse(hp, 0) && |hp.nodes| == 0
  {
    Heap([], seq(MAX_PATH_NODES, _ => -1))
  }

  /** The state before the first iteration: the start node alone, in the open set. */
  function Initial(start: Cell, goal: Cell): (s: State)
    ensures WellFormed(s) && |s.c| == 1
  {
    Push(State([FreshNode(start).(h := HeuristicOctile(start, goal))], EmptyHeap()), 0)
  }

  function EffectiveLimit(maxNodes: int): (m: nat)
    ensures 1 <= m <= MAX_PATH_NODES
  {
    if maxNodes <= 0 || maxNodes > MAX_PATH_NODES then MAX_PATH_NODES else maxNodes
  }

  // ---------- What the search keeps ----------

  ghost function F(n: Node): int {
    n.g + n.h
  }

  /** A path to node i is recorded: it was reached by a legal step from a closed, earlier-priced parent. */
  ghost predicate Linked(walkable: Walkable, c: seq<Node>, i: int)
    requires 0 <= i < |c|
  {
    var n := c[i];
    && 0 <= n.parent < |c|
    && c[n.parent].closed
    && LegalStep(walkable, CellOf(c[n.parent]), CellOf(n))
    && n.g == c[n.parent].g + StepCost(CellOf(c[n.parent]), CellOf(n))
  }

  /** Every allocated node has a distinct cell, is open or closed but not both, carries its heuristic, and
      all but the start are linked to a closed parent. */
  ghost predicate Tree(walkable: Walkable, start: Cell, goal: Cell, c: seq<Node>, expanded: nat) {
    && 0 < |c|
    && CellOf(c[0]) == start && c[0].g == 0 && c[0].parent == -1
    && (forall i, j :: 0 <= i < j < |c| ==> CellOf(c[i]) != CellOf(c[j]))
    && (forall i :: 0 <= i < |c| ==> c[i].open == !c[i].closed)
    && (forall i :: 0 <= i < |c| ==> c[i].h == HeuristicOctile(CellOf(c[i]), goal))
    && (forall i :: 0 <= i < |c| ==> 0 <= c[i].g <= COST_DIAGONAL * expanded)
    && (forall i :: 0 < i < |c| ==> Linked(walkable, c, i))
  }

  /** Some node at cell b was reached at a cost of at most bound. */
  ghost predicate ReachedWithin(c: seq<Node>, b: Cell, bound: int) {
    exists j :: 0 <= j < |c| && CellOf(c[j]) == b && c[j].g <= bound
  }

  /** Node i has offered its paths in every direction, or in those below k if it is the one being expanded. */
  ghost predicate Relaxed(walkable: Walkable, c: seq<Node>, i: int, k: int)
    requires 0 <= i < |c|
  {
    forall b :: LegalStep(walkable, CellOf(c[i]), b)
      && DirectionOf(b.x - c[i].x, b.z - c[i].z) < k
      ==> ReachedWithin(c, b, c[i].g + StepCost(CellOf(c[i]), b))
  }

  /** `level` separates the closed nodes' F from the open ones': popped F never decreases. */
  ghost predicate Levelled(c: seq<Node>, level: int) {
    && (forall i :: 0 <= i < |c| && c[i].closed ==> F(c[i]) <= level)
    && (forall i :: 0 <= i < |c| && c[i].open ==> F(c[i]) >= level)
  }

  ghost predicate AllRelaxed(walkable: Walkable, c: seq<Node>, curr: int, k: int) {
    forall i :: 0 <= i < |c| && c[i].closed ==> Relaxed(walkable, c, i, if i == curr then k else 8)
  }

  /** Nodes keep their cell, are never made dearer and are never dropped. */
  ghost predicate Cheaper(c: seq<Node>, d: seq<Node>) {
    && |c| <= |d|
    && forall i :: 0 <= i < |c| ==> CellOf(d[i]) == CellOf(c[i]) && d[i].g <= c[i].g
  }

  /** Expanding a node: besides, no node is closed and the closed ones are final. */
  ghost predicate Grows(c: seq<Node>, d: seq<Node>) {
    && Cheaper(c, d)
    && (forall i :: 0 <= i < |c| && c[i].closed ==> d[i] == c[i])
    && (forall i :: 0 <= i < |d| && d[i].closed ==> i < |c| && c[i].closed)
  }

  /** No allocation can be refused from here on: a slot is left, or every legal step from a node leads to a node. */
  ghost predicate HasRoom(walkable: Walkable, c: seq<Node>) {
    |c| < MAX_PATH_NODES
    || forall i, b :: 0 <= i < |c| && LegalStep(walkable, CellOf(c[i]), b) ==> HasCell(c, b)
  }

  ghost predicate HasCell(c: seq<Node>, b: Cell) {
    exists j :: 0 <= j < |c| && CellOf(c[j]) == b
  }

  lemma RoomBefore(walkable: Walkable, c: seq<Node>, d: seq<Node>)
    requires Cheaper(c, d) && |d| <= MAX_PATH_NODES && HasRoom(walkable, d)
    ensures HasRoom(walkable, c)
  {
    hide LegalStep;
    if |c| == MAX_PATH_NODES {
      forall i, b | 0 <= i < |c| && LegalStep(walkable, CellOf(c[i]), b) ensures HasCell(c, b) {
        assert CellOf(d[i]) == CellOf(c[i]);
        assert HasCell(d, b);
        var j :| 0 <= j < |d| && CellOf(d[j]) == b;
        assert CellOf(c[j]) == b;
      }
    }
  }

  lemma RelaxedStays(walkable: Walkable, c: seq<Node>, d: seq<Node>, i: int, k: int)
    requires Cheaper(c, d) && 0 <= i < |c| && CellOf(d[i]) == CellOf(c[i]) && d[i].g == c[i].g
    requires Relaxed(walkable, c, i, k)
    ensures Relaxed(walkable, d, i, k)
  {
    forall b | LegalStep(walkable, CellOf(d[i]), b) && DirectionOf(b.x - d[i].x, b.z - d[i].z) < k
      ensures ReachedWithin(d, b, d[i].g + StepCost(CellOf(d[i]), b))
    {
      var bound := c[i].g + StepCost(CellOf(c[i]), b);
      assert ReachedWithin(c, b, bound);
      var j :| 0 <= j < |c| && CellOf(c[j]) == b && c[j].g <= bound;
      assert CellOf(d[j]) == b && d[j].g <= bound;
    }
  }

  lemma AllRelaxedStays(walkable: Walkable, c: seq<Node>, d: seq<Node>, curr: int, k: int)
    requires Grows(c, d) && AllRelaxed(walkable, c, curr, k)
    ensures AllRelaxed(walkable, d, curr, k)
  {
    forall i | 0 <= i < |d| && d[i].closed
      ensures Relaxed(walkable, d, i, if i == curr then k else 8)
    {
      RelaxedStays(walkable, c, d, i, if i == curr then k else 8);
    }
  }

  /** The code's guards for direction k are exactly the legality of the step, and they fix its cost. */
  lemma PassableIsLegal(walkable: Walkable, a: Cell, k: int)
    requires 0 <= k < 8 && InInt32(a.x) && InInt32(a.z)
    requires Passable(walkable, a, k)
    ensures LegalStep(walkable, a, Target(a, k)) && StepCost(a, Target(a, k)) == Neighbor(k).cost
  {
  }

  lemma LegalIsPassable(walkable: Walkable, a: Cell, b: Cell)
    requires InInt32(a.x) && InInt32(a.z) && LegalStep(walkable, a, b)
    ensures var k := DirectionOf(b.x - a.x, b.z - a.z);
      Passable(walkable, a, k) && Target(a, k) == b && Neighbor(k).cost == StepCost(a, b)
  {
  }

  // ---------- One expansion keeps the tree ----------

  /** What `Improve` leaves of the nodes: node j relinked under curr if that is cheaper or its first path. */
  function Relinked(goal: Cell, n: Node, curr: int, tentG: int): Node {
    if n.open && tentG >= n.g then n
    else n.(parent := curr, g := tentG, h := HeuristicOctile(CellOf(n), goal), open := true)
  }

  /** An open node that already has a path as cheap keeps it: only a cheaper offer changes its parent. */
  lemma EqualOfferIgnored(goal: Cell, s: State, curr: int, j: int, tentG: int)
    requires WellFormed(s) && 0 <= curr < |s.c| && 0 <= j < |s.c| && s.c[j].open
    ensures Improve(goal, s, curr, j, tentG).c[j].parent != s.c[j].parent ==> tentG < s.c[j].g
    ensures tentG < s.c[j].g ==>
      var n := Improve(goal, s, curr, j, tentG).c[j]; n.parent == curr && n.g == tentG && n.open
  {
    hide HeuristicOctile, Fix, Push;
  }

  lemma KeysKeptInOrder(c: seq<Node>, d: seq<Node>, hp: Heap)
    requires |c| == |d| && Inverse(hp, |c|) && Ordered(c, hp)
    requires forall i :: 0 <= i < |c| && hp.pos[i] != -1 ==> c[i].g == d[i].g && c[i].h == d[i].h
    ensures Ordered(d, hp)
  {
    forall k | 0 < k < |hp.nodes| ensures InOrder(d, hp, k) {
      assert InOrder(c, hp, k);
    }
  }

  lemma ImproveKeepsQueue(goal: Cell, s: State, curr: int, j: int, tentG: int)
    requires IsQueue(s) && 0 <= curr < |s.c| && 0 <= j < |s.c|
    requires s.c[j].open ==> s.c[j].h == HeuristicOctile(CellOf(s.c[j]), goal)
    ensures IsQueue(Improve(goal, s, curr, j, tentG))
    ensures Improve(goal, s, curr, j, tentG).c == s.c[j := Relinked(goal, s.c[j], curr, tentG)]
  {
    hide HeuristicOctile, Ordered, Push, Fix;
    var n := s.c[j];
    if !(n.open && tentG >= n.g) {
      var c := s.c[j := n.(parent := curr, g := tentG, h := HeuristicOctile(CellOf(n), goal))];
      if n.open {
        FixAfterLowering(s.c, c, s.hp, s.hp.pos[j]);
      } else {
        KeysKeptInOrder(s.c, c, s.hp);
        PushKeepsQueue(State(c, s.hp), j);
      }
    }
  }

  /** One more node, linked to a closed one. */
  lemma TreeAdd(walkable: Walkable, start: Cell, goal: Cell, c: seq<Node>, expanded: nat, n: Node)
    requires Tree(walkable, start, goal, c, expanded)
    requires forall i :: 0 <= i < |c| ==> CellOf(c[i]) != CellOf(n)
    requires n.open && !n.closed && n.h == HeuristicOctile(CellOf(n), goal)
    requires 0 <= n.g <= COST_DIAGONAL * expanded
    requires Linked(walkable, c + [n], |c|)
    ensures Tree(walkable, start, goal, c + [n], expanded)
    ensures Grows(c, c + [n])
  {
    hide HeuristicOctile, LegalStep;
    var d := c + [n];
    forall i | 0 < i < |d| ensures Linked(walkable, d, i) {
      assert i < |c| ==> Linked(walkable, c, i);
    }
  }

  /** One open node relinked at a lower cost. */
  lemma TreeRelink(walkable: Walkable, start: Cell, goal: Cell, c: seq<Node>, expanded: nat, j: int, n: Node)
    requires Tree(walkable, start, goal, c, expanded)
    requires 0 < j < |c| && c[j].open && !c[j].closed
    requires CellOf(n) == CellOf(c[j]) && n.open && !n.closed && n.h == c[j].h && 0 <= n.g <= c[j].g
    requires Linked(walkable, c[j := n], j)
    ensures Tree(walkable, start, goal, c[j := n], expanded)
    ensures Grows(c, c[j := n])
  {
    hide HeuristicOctile, LegalStep;
    var d := c[j := n];
    forall i | 0 < i < |d| ensures Linked(walkable, d, i) {
      assert i != j ==> Linked(walkable, c, i);
    }
  }

  ghost predicate CellsInInt32(c: seq<Node>) {
    forall i :: 0 <= i < |c| ==> InInt32(c[i].x) && InInt32(c[i].z)
  }

  /** Node curr is being expanded: it is closed, and a step away from it stays within the cost bound. */
  ghost predicate Expanding(walkable: Walkable, start: Cell, goal: Cell, s: State, curr: int, expanded: nat) {
    && IsQueue(s) && Tree(walkable, start, goal, s.c, expanded) && CellsInInt32(s.c)
    && 0 <= curr < |s.c| && s.c[curr].closed && s.c[curr].g <= COST_DIAGONAL * expanded - COST_DIAGONAL
    && s.c[0].closed
  }

  lemma TreeNode(walkable: Walkable, start: Cell, goal: Cell, c: seq<Node>, expanded: nat, i: int)
    requires Tree(walkable, start, goal, c, expanded) && 0 <= i < |c|
    ensures c[i].open == !c[i].closed && c[i].h == HeuristicOctile(CellOf(c[i]), goal) && c[i].g >= 0
  {
    hide HeuristicOctile, Linked;
  }

  lemma StepCostPositive(a: Cell, b: Cell)
    ensures StepCost(a, b) > 0
  {
  }

  lemma OfferKnown(walkable: Walkable, start: Cell, goal: Cell, s: State, curr: int, expanded: nat, j: int)
    requires Expanding(walkable, start, goal, s, curr, expanded)
    requires 0 <= j < |s.c| && !s.c[j].closed && LegalStep(walkable, CellOf(s.c[curr]), CellOf(s.c[j]))
    ensures var r := Improve(goal, s, curr, j, s.c[curr].g + StepCost(CellOf(s.c[curr]), CellOf(s.c[j])));
      Expanding(walkable, start, goal, r, curr, expanded) && Grows(s.c, r.c)
  {
    hide HeuristicOctile, LegalStep, Improve, Tree, Ordered, Inverse, StepCost;
    TreeNode(walkable, start, goal, s.c, expanded, j);
    TreeNode(walkable, start, goal, s.c, expanded, curr);
    assert StepCost(CellOf(s.c[curr]), CellOf(s.c[j])) >= 0 by { StepCostPositive(CellOf(s.c[curr]), CellOf(s.c[j])); }
    var tentG := s.c[curr].g + StepCost(CellOf(s.c[curr]), CellOf(s.c[j]));
    ImproveKeepsQueue(goal, s, curr, j, tentG);
    var n := Relinked(goal, s.c[j], curr, tentG);
    if n != s.c[j] {
      TreeRelink(walkable, start, goal, s.c, expanded, j, n);
    } else {
      assert s.c[j := n] == s.c;
    }
  }

  lemma AllocateKeepsQueue(s: State, at: Cell)
    requires IsQueue(s) && |s.c| < MAX_PATH_NODES
    ensures IsQueue(Allocate(s, at)) && Allocate(s, at).c == s.c + [FreshNode(at)]
  {
    var s1 := Allocate(s, at);
    forall i | 0 < i < |s1.hp.nodes| ensures InOrder(s1.c, s1.hp, i) {
      assert InOrder(s.c, s.hp, i);
    }
  }

  lemma AllocateAndImprove(goal: Cell, s: State, curr: int, b: Cell, tentG: int)
    requires IsQueue(s) && |s.c| < MAX_PATH_NODES && 0 <= curr < |s.c|
    ensures var r := Improve(goal, Allocate(s, b), curr, |s.c|, tentG);
      IsQueue(r) && r.c == s.c + [Node(b.x, b.z, tentG, HeuristicOctile(b, goal), curr, false, true)]
  {
    hide HeuristicOctile, Improve;
    AllocateKeepsQueue(s, b);
    ImproveKeepsQueue(goal, Allocate(s, b), curr, |s.c|, tentG);
  }

  lemma AddLinked(walkable: Walkable, start: Cell, goal: Cell, s: State, curr: int, expanded: nat, r: State, n: Node)
    requires Expanding(walkable, start, goal, s, curr, expanded)
    requires forall i :: 0 <= i < |s.c| ==> CellOf(s.c[i]) != CellOf(n)
    requires LegalStep(walkable, CellOf(s.c[curr]), CellOf(n))
    requires n.g == s.c[curr].g + StepCost(CellOf(s.c[curr]), CellOf(n)) && n.parent == curr
    requires n.h == HeuristicOctile(CellOf(n), goal) && n.open && !n.closed
    requires IsQueue(r) && r.c == s.c + [n]
    ensures Expanding(walkable, start, goal, r, curr, expanded) && Grows(s.c, r.c)
  {
    assert InBounds(CellOf(n));
    hide HeuristicOctile, LegalStep, IsQueue;
    TreeAdd(walkable, start, goal, s.c, expanded, n);
  }

  lemma OfferNew(walkable: Walkable, start: Cell, goal: Cell, s: State, curr: int, expanded: nat, b: Cell)
    requires Expanding(walkable, start, goal, s, curr, expanded) && |s.c| < MAX_PATH_NODES
    requires forall i :: 0 <= i < |s.c| ==> CellOf(s.c[i]) != b
    requires LegalStep(walkable, CellOf(s.c[curr]), b)
    ensures var r := Improve(goal, Allocate(s, b), curr, |s.c|, s.c[curr].g + StepCost(CellOf(s.c[curr]), b));
      Expanding(walkable, start, goal, r, curr, expanded) && Grows(s.c, r.c)
  {
    hide HeuristicOctile, LegalStep, Improve, Allocate, WellFormed, Ordered, Tree, StepCost;
    var tentG := s.c[curr].g + StepCost(CellOf(s.c[curr]), b);
    AllocateAndImprove(goal, s, curr, b, tentG);
    var r := Improve(goal, Allocate(s, b), curr, |s.c|, tentG);
    AddLinked(walkable, start, goal, s, curr, expanded, r, r.c[|s.c|]);
  }

  /** Offering one neighbour keeps the queue and the tree, and closed nodes stay as they are. */
  lemma OfferKeeps(walkable: Walkable, start: Cell, goal: Cell, s: State, curr: int, b: Cell, expanded: nat)
    requires Expanding(walkable, start, goal, s, curr, expanded)
    requires LegalStep(walkable, CellOf(s.c[curr]), b)
    ensures var r := OfferNeighbor(goal, s, curr, b, s.c[curr].g + StepCost(CellOf(s.c[curr]), b));
      Expanding(walkable, start, goal, r, curr, expanded) && Grows(s.c, r.c)
  {
    hide Improve, Allocate, Tree, Linked, Ordered, Inverse, HeuristicOctile, LegalStep, StepCost;
    var found := IndexFrom(s.c, b, 0);
    if found >= 0 {
      if !s.c[found].closed {
        OfferKnown(walkable, start, goal, s, curr, expanded, found);
      }
    } else if |s.c| < MAX_PATH_NODES {
      OfferNew(walkable, start, goal, s, curr, expanded, b);
    }
  }

  /** The offered node ends at most at the offered cost, and its F stays at or above the level. */
  lemma ImproveReaches(goal: Cell, s: State, curr: int, j: int, tentG: int, level: int)
    requires WellFormed(s) && 0 <= curr < |s.c| && 0 <= j < |s.c| && !s.c[j].closed
    requires Levelled(s.c, level)
    requires tentG + HeuristicOctile(CellOf(s.c[j]), goal) >= level
    ensures var r := Improve(goal, s, curr, j, tentG);
      Levelled(r.c, level) && ReachedWithin(r.c, CellOf(s.c[j]), tentG)
  {
    hide HeuristicOctile, Fix, Push;
    var r := Improve(goal, s, curr, j, tentG);
    assert CellOf(r.c[j]) == CellOf(s.c[j]) && r.c[j].g <= tentG;
  }

  lemma AllocateReaches(goal: Cell, s: State, curr: int, b: Cell, tentG: int, level: int)
    requires WellFormed(s) && 0 <= curr < |s.c| < MAX_PATH_NODES
    requires Levelled(s.c, level)
    requires tentG + HeuristicOctile(b, goal) >= level
    ensures var r := Improve(goal, Allocate(s, b), curr, |s.c|, tentG);
      Levelled(r.c, level) && ReachedWithin(r.c, b, tentG)
  {
    hide HeuristicOctile, Improve;
    ImproveReaches(goal, Allocate(s, b), curr, |s.c|, tentG, level);
  }

  /** A closed neighbour was popped at no greater F, so by consistency it is cheap enough already. */
  lemma ClosedReaches(goal: Cell, c: seq<Node>, curr: int, j: int, cost: int)
    requires 0 <= curr < |c| && 0 <= j < |c| && c[j].closed
    requires Levelled(c, F(c[curr]))
    requires c[curr].h <= cost + c[j].h
    ensures ReachedWithin(c, CellOf(c[j]), c[curr].g + cost)
  {
    assert F(c[j]) <= F(c[curr]);
  }

  /** After the offer the neighbour has been reached at the offered cost, unless it was refused a slot; and the
      separation of closed from open by F still holds. */
  lemma OfferReaches(goal: Cell, s: State, curr: int, b: Cell, cost: int)
    requires WellFormed(s) && 0 <= curr < |s.c|
    requires |s.c| < MAX_PATH_NODES || HasCell(s.c, b)
    requires forall i :: 0 <= i < |s.c| ==> s.c[i].h == HeuristicOctile(CellOf(s.c[i]), goal)
    requires s.c[curr].h <= cost + HeuristicOctile(b, goal)
    requires Levelled(s.c, F(s.c[curr]))
    ensures var r := OfferNeighbor(goal, s, curr, b, s.c[curr].g + cost);
      Levelled(r.c, F(s.c[curr])) && ReachedWithin(r.c, b, s.c[curr].g + cost)
  {
    hide Improve, Allocate, Levelled, ReachedWithin, HeuristicOctile, WellFormed;
    var found := IndexFrom(s.c, b, 0);
    if found < 0 {
      AllocateReaches(goal, s, curr, b, s.c[curr].g + cost, F(s.c[curr]));
    } else if s.c[found].closed {
      ClosedReaches(goal, s.c, curr, found, cost);
    } else {
      ImproveReaches(goal, s, curr, found, s.c[curr].g + cost, F(s.c[curr]));
    }
  }

  // ---------- Expanding a node in every direction ----------

  lemma ExpandDirectionKeeps(walkable: Walkable, start: Cell, goal: Cell, s: State, curr: int, k: int, expanded: nat)
    requires Expanding(walkable, start, goal, s, curr, expanded) && 0 <= k < 8
    ensures var r := ExpandDirection(walkable, goal, s, curr, k);
      Expanding(walkable, start, goal, r, curr, expanded) && Grows(s.c, r.c)
  {
    hide OfferNeighbor, Passable, Target, Neighbor, LegalStep, StepCost, HeuristicOctile, Tree;
    var a := CellOf(s.c[curr]);
    if Passable(walkable, a, k) {
      PassableIsLegal(walkable, a, k);
      OfferKeeps(walkable, start, goal, s, curr, Target(a, k), expanded);
    }
  }

  /** Direction k of node curr, with everything the optimality argument keeps. */
  lemma ExpandDirectionRelaxes(walkable: Walkable, start: Cell, goal: Cell, s: State, curr: int, k: int, expanded: nat)
    requires Expanding(walkable, start, goal, s, curr, expanded) && 0 <= k < 8
    requires InBounds(goal) && HasRoom(walkable, s.c)
    requires Levelled(s.c, F(s.c[curr])) && AllRelaxed(walkable, s.c, curr, k)
    ensures var r := ExpandDirection(walkable, goal, s, curr, k);
      Levelled(r.c, F(s.c[curr])) && AllRelaxed(walkable, r.c, curr, k + 1)
  {
    hide OfferNeighbor, Passable, Target, Neighbor, LegalStep, StepCost, HeuristicOctile, Levelled, AllRelaxed, ReachedWithin;
    var a := CellOf(s.c[curr]);
    var r := ExpandDirection(walkable, goal, s, curr, k);
    ExpandDirectionKeeps(walkable, start, goal, s, curr, k, expanded);
    AllRelaxedStays(walkable, s.c, r.c, curr, k);
    if Passable(walkable, a, k) {
      PassableIsLegal(walkable, a, k);
      HeuristicConsistent(walkable, a, Target(a, k), goal);
      OfferReaches(goal, s, curr, Target(a, k), Neighbor(k).cost);
    }
    RelaxedOneMore(walkable, r.c, curr, k);
    AllRelaxedOneMore(walkable, r.c, curr, k);
  }

  lemma RelaxedOneMore(walkable: Walkable, c: seq<Node>, curr: int, k: int)
    requires 0 <= curr < |c| && 0 <= k < 8 && InInt32(c[curr].x) && InInt32(c[curr].z)
    requires Relaxed(walkable, c, curr, k)
    requires Passable(walkable, CellOf(c[curr]), k) ==>
      ReachedWithin(c, Target(CellOf(c[curr]), k), c[curr].g + Neighbor(k).cost)
    ensures Relaxed(walkable, c, curr, k + 1)
  {
    var a := CellOf(c[curr]);
    forall b | LegalStep(walkable, a, b) && DirectionOf(b.x - a.x, b.z - a.z) < k + 1
      ensures ReachedWithin(c, b, c[curr].g + StepCost(a, b))
    {
      if DirectionOf(b.x - a.x, b.z - a.z) == k {
        LegalIsPassable(walkable, a, b);
      }
    }
  }

  lemma AllRelaxedOneMore(walkable: Walkable, c: seq<Node>, curr: int, k: int)
    requires 0 <= curr < |c| && AllRelaxed(walkable, c, curr, k)
    requires Relaxed(walkable, c, curr, k + 1)
    ensures AllRelaxed(walkable, c, curr, k + 1)
  {
  }

  lemma {:induction false} ExpandFromKeeps(
      walkable: Walkable, start: Cell, goal: Cell, s: State, curr: int, k: int, expanded: nat)
    requires Expanding(walkable, start, goal, s, curr, expanded) && 0 <= k <= 8
    ensures var r := ExpandFrom(walkable, goal, s, curr, k);
      Expanding(walkable, start, goal, r, curr, expanded) && Grows(s.c, r.c)
    decreases 8 - k
  {
    hide ExpandDirection, Tree, Linked, Ordered, Inverse, HeuristicOctile;
    if k < 8 {
      ExpandDirectionKeeps(walkable, start, goal, s, curr, k, expanded);
      ExpandFromKeeps(walkable, start, goal, ExpandDirection(walkable, goal, s, curr, k), curr, k + 1, expanded);
    }
  }

  lemma {:induction false} ExpandFromRelaxes(
      walkable: Walkable, start: Cell, goal: Cell, s: State, curr: int, k: int, expanded: nat)
    requires Expanding(walkable, start, goal, s, curr, expanded) && 0 <= k <= 8
    requires InBounds(goal) && HasRoom(walkable, ExpandFrom(walkable, goal, s, curr, k).c)
    requires Levelled(s.c, F(s.c[curr])) && AllRelaxed(walkable, s.c, curr, k)
    ensures var r := ExpandFrom(walkable, goal, s, curr, k);
      Levelled(r.c, F(s.c[curr])) && AllRelaxed(walkable, r.c, curr, 8)
    decreases 8 - k
  {
    hide HasRoom, Levelled, AllRelaxed, Tree, Cheaper;
    if k < 8 {
      ExpandDirectionKeeps(walkable, start, goal, s, curr, k, expanded);
      ExpandFromKeeps(walkable, start, goal, s, curr, k, expanded);
      RoomBefore(walkable, s.c, ExpandFrom(walkable, goal, s, curr, k).c);
      ExpandDirectionRelaxes(walkable, start, goal, s, curr, k, expanded);
      ExpandFromRelaxes(walkable, start, goal, ExpandDirection(walkable, goal, s, curr, k), curr, k + 1, expanded);
    }
  }

  // ---------- The main loop ----------

  /** What holds at the head of the main loop. */
  ghost predicate LoopInvariant(walkable: Walkable, start: Cell, goal: Cell, s: State, expanded: nat) {
    && IsQueue(s) && Tree(walkable, start, goal, s.c, expanded) && CellsInInt32(s.c)
    && (expanded == 0 ==> |s.c| == 1)
    && (expanded > 0 ==> s.c[0].closed)
    && (forall i :: 0 <= i < |s.c| && s.c[i].closed ==> CellOf(s.c[i]) != goal)
  }

  /** Popping the minimum and closing it. */
  lemma CloseKeeps(walkable: Walkable, start: Cell, goal: Cell, s: State, expanded: nat)
    requires LoopInvariant(walkable, start, goal, s, expanded) && |s.hp.nodes| > 0
    ensures var (s0, curr) := Pop(s);
      Expanding(walkable, start, goal, Close(s0, curr), curr, expanded + 1)
  {
    PopIsMinimum(s);
    var (s0, curr) := Pop(s);
    var c, d := s.c, Close(s0, curr).c;
    assert d == c[curr := c[curr].(open := false, closed := true)];
    CloseKeepsTree(walkable, start, goal, c, curr, expanded);
    CloseKeepsOrder(s0, curr);
  }

  lemma CloseKeepsOrder(s: State, idx: int)
    requires IsQueue(s) && 0 <= idx < |s.c|
    ensures IsQueue(Close(s, idx))
  {
    forall k | 0 < k < |s.hp.nodes| ensures InOrder(Close(s, idx).c, s.hp, k) {
      assert InOrder(s.c, s.hp, k);
    }
  }

  lemma CloseKeepsTree(walkable: Walkable, start: Cell, goal: Cell, c: seq<Node>, curr: int, expanded: nat)
    requires Tree(walkable, start, goal, c, expanded) && 0 <= curr < |c| && c[curr].open
    ensures Tree(walkable, start, goal, c[curr := c[curr].(open := false, closed := true)], expanded + 1)
  {
    var d := c[curr := c[curr].(open := false, closed := true)];
    forall i | 0 < i < |d| ensures Linked(walkable, d, i) {
      assert Linked(walkable, c, i);
    }
  }

  lemma TreeMonotone(walkable: Walkable, start: Cell, goal: Cell, c: seq<Node>, m: nat, n: nat)
    requires Tree(walkable, start, goal, c, m) && m <= n
    ensures Tree(walkable, start, goal, c, n)
  {
    hide Linked, HeuristicOctile;
    assert COST_DIAGONAL * m <= COST_DIAGONAL * n;
  }

  lemma IterateKeeps(walkable: Walkable, start: Cell, goal: Cell, s: State, expanded: nat)
    requires LoopInvariant(walkable, start, goal, s, expanded) && |s.hp.nodes| > 0
    requires CellOf(s.c[Pop(s).1]) != goal
    ensures LoopInvariant(walkable, start, goal, Iterate(walkable, goal, s), expanded + 1)
  {
    hide ExpandFrom, Tree, Ordered, Inverse, HeuristicOctile;
    CloseKeeps(walkable, start, goal, s, expanded);
    var (s0, curr) := Pop(s);
    ExpandFromKeeps(walkable, start, goal, Close(s0, curr), curr, 0, expanded + 1);
  }

  /** Soundness of the loop: whatever the outcome, the nodes still form a tree of legal steps. */
  lemma {:induction false} SearchKeepsTree(
      walkable: Walkable, start: Cell, goal: Cell, s: State, expanded: nat, maxNodes: nat)
    requires LoopInvariant(walkable, start, goal, s, expanded) && expanded <= maxNodes
    ensures Tree(walkable, start, goal, Search(walkable, goal, s, maxNodes - expanded).s.c, maxNodes + 1)
    decreases maxNodes - expanded
  {
    hide ExpandFrom, Tree, Ordered, Inverse, HeuristicOctile;
    if |s.hp.nodes| == 0 {
      TreeMonotone(walkable, start, goal, s.c, expanded, maxNodes + 1);
    } else {
      CloseKeeps(walkable, start, goal, s, expanded);
      var (s0, curr) := Pop(s);
      var s1 := Close(s0, curr);
      if expanded + 1 > maxNodes || CellOf(s1.c[curr]) == goal {
        TreeMonotone(walkable, start, goal, s1.c, expanded + 1, maxNodes + 1);
      } else {
        IterateKeeps(walkable, start, goal, s, expanded);
        SearchKeepsTree(walkable, start, goal, Iterate(walkable, goal, s), expanded + 1, maxNodes);
      }
    }
  }
}
