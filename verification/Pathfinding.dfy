/** What one call of `findPath` promises: a sound path, the cheapest one, and an answer of "no path" only
    where there is none. */
module Pathfinding {
  import opened Int32
  import opened Geometry
  import opened OpenHeap
  import opened AStarSearch
  import opened Counting

  // ---------- Optimality and completeness of the main loop ----------

  /** What the optimality argument adds to the loop invariant. */
  ghost predicate Priced(walkable: Walkable, c: seq<Node>, level: int) {
    Levelled(c, level) && AllRelaxed(walkable, c, -1, 8)
  }

  /** On every legal walk to the goal stands an open node, priced at no more than the walk up to it. */
  lemma FrontierOnWalk(walkable: Walkable, start: Cell, goal: Cell, s: State, expanded: nat, path: seq<Cell>)
      returns (i: nat, j: nat)
    requires LoopInvariant(walkable, start, goal, s, expanded)
    requires AllRelaxed(walkable, s.c, -1, 8)
    requires WalkBetween(walkable, path, start, goal)
    ensures i < |path| && j < |s.c| && s.c[j].open && CellOf(s.c[j]) == path[i]
    ensures s.c[j].g <= WalkCost(path[..i + 1])
  {
    hide HeuristicOctile, Linked, IsQueue;
    i, j := 0, 0;
    while s.c[j].closed
      invariant i < |path| && j < |s.c| && CellOf(s.c[j]) == path[i]
      invariant s.c[j].g <= WalkCost(path[..i + 1])
      decreases |path| - i
    {
      assert path[i] != goal;
      assert LegalStep(walkable, path[i], path[i + 1]);
      assert Relaxed(walkable, s.c, j, 8);
      var bound := s.c[j].g + StepCost(path[i], path[i + 1]);
      assert ReachedWithin(s.c, path[i + 1], bound);
      WalkCostStep(path, i);
      j :| 0 <= j < |s.c| && CellOf(s.c[j]) == path[i + 1] && s.c[j].g <= bound;
      i := i + 1;
    }
  }

  /** Popping the minimum raises the level to its F. */
  lemma CloseRaisesLevel(walkable: Walkable, s: State, level: int)
    requires IsQueue(s) && |s.hp.nodes| > 0
    requires forall i :: 0 <= i < |s.c| ==> s.c[i].open == !s.c[i].closed
    requires Priced(walkable, s.c, level)
    ensures var (s0, curr) := Pop(s); var c := Close(s0, curr).c;
      Levelled(c, F(c[curr])) && AllRelaxed(walkable, c, curr, 0)
  {
    hide Pop, Relaxed, Ordered, Inverse;
    PopIsMinimum(s);
    var (s0, curr) := Pop(s);
    var c := Close(s0, curr).c;
    forall i | 0 <= i < |c| && c[i].closed
      ensures Relaxed(walkable, c, i, if i == curr then 0 else 8)
    {
      if i == curr {
        NothingToRelax(walkable, c, curr);
      } else {
        RelaxedStays(walkable, s.c, c, i, 8);
      }
    }
  }

  lemma NothingToRelax(walkable: Walkable, c: seq<Node>, i: int)
    requires 0 <= i < |c|
    ensures Relaxed(walkable, c, i, 0)
  {
  }

  lemma IteratePrices(walkable: Walkable, start: Cell, goal: Cell, s: State, expanded: nat, level: int)
    requires LoopInvariant(walkable, start, goal, s, expanded) && |s.hp.nodes| > 0
    requires InBounds(goal) && HasRoom(walkable, Iterate(walkable, goal, s).c)
    requires Priced(walkable, s.c, level)
    ensures Priced(walkable, Iterate(walkable, goal, s).c, F(s.c[Pop(s).1]))
  {
    hide ExpandFrom, Linked, Ordered, Inverse, HeuristicOctile, Levelled, Relaxed;
    CloseKeeps(walkable, start, goal, s, expanded);
    CloseRaisesLevel(walkable, s, level);
    var (s0, curr) := Pop(s);
    var s1 := Close(s0, curr);
    ExpandFromKeeps(walkable, start, goal, s1, curr, 0, expanded + 1);
    ExpandFromRelaxes(walkable, start, goal, s1, curr, 0, expanded + 1);
  }

  lemma IterateGrows(walkable: Walkable, start: Cell, goal: Cell, s: State, expanded: nat)
    requires LoopInvariant(walkable, start, goal, s, expanded) && |s.hp.nodes| > 0
    ensures Cheaper(s.c, Iterate(walkable, goal, s).c)
  {
    hide ExpandFrom, Linked, Ordered, Inverse, HeuristicOctile, Pop;
    CloseKeeps(walkable, start, goal, s, expanded);
    var (s0, curr) := Pop(s);
    ExpandFromKeeps(walkable, start, goal, Close(s0, curr), curr, 0, expanded + 1);
  }

  lemma CheaperTransitive(c: seq<Node>, d: seq<Node>, e: seq<Node>)
    requires Cheaper(c, d) && Cheaper(d, e)
    ensures Cheaper(c, e)
  {
  }

  /** The search never drops a node. */
  lemma {:induction false} SearchGrows(
      walkable: Walkable, start: Cell, goal: Cell, s: State, expanded: nat, budget: nat)
    requires LoopInvariant(walkable, start, goal, s, expanded)
    ensures Cheaper(s.c, Search(walkable, goal, s, budget).s.c)
    decreases budget
  {
    hide Iterate, Linked, Ordered, Inverse, HeuristicOctile, Pop, Tree;
    if |s.hp.nodes| > 0 {
      var (s0, curr) := Pop(s);
      if budget > 0 && CellOf(s.c[curr]) != goal {
        IterateKeeps(walkable, start, goal, s, expanded);
        IterateGrows(walkable, start, goal, s, expanded);
        SearchGrows(walkable, start, goal, Iterate(walkable, goal, s), expanded + 1, budget - 1);
        CheaperTransitive(s.c, Iterate(walkable, goal, s).c, Search(walkable, goal, s, budget).s.c);
      }
    }
  }

  /** The loop never gives up, and never returns a dearer path, while a legal walk exists; provided no
      allocation was refused. */
  lemma {:induction false} SearchOptimal(
      walkable: Walkable, start: Cell, goal: Cell, s: State, expanded: nat, maxNodes: nat, level: int, path: seq<Cell>)
    requires LoopInvariant(walkable, start, goal, s, expanded) && expanded <= maxNodes
    requires InBounds(goal) && WalkBetween(walkable, path, start, goal)
    requires Priced(walkable, s.c, level)
    requires HasRoom(walkable, Search(walkable, goal, s, maxNodes - expanded).s.c)
    ensures var r := Search(walkable, goal, s, maxNodes - expanded);
      !r.Exhausted? && (r.Reached? ==> r.s.c[r.at].g <= WalkCost(path))
    decreases maxNodes - expanded
  {
    hide Iterate, Pop, Linked, Ordered, Inverse, HeuristicOctile, Levelled, AllRelaxed, LegalStep, HasRoom, Cheaper;
    var i, j := FrontierOnWalk(walkable, start, goal, s, expanded, path);
    if |s.hp.nodes| > 0 {
      var (s0, curr) := Pop(s);
      if CellOf(s.c[curr]) == goal {
        MinimumBeatsWalk(walkable, goal, s, path, i, j);
      } else if expanded + 1 <= maxNodes {
        IterateKeeps(walkable, start, goal, s, expanded);
        var t := Iterate(walkable, goal, s);
        SearchGrows(walkable, start, goal, t, expanded + 1, maxNodes - expanded - 1);
        RoomBefore(walkable, t.c, Search(walkable, goal, t, maxNodes - expanded - 1).s.c);
        IteratePrices(walkable, start, goal, s, expanded, level);
        SearchOptimal(walkable, start, goal, t, expanded + 1, maxNodes, F(s.c[curr]), path);
      }
    } else {
      OpenMeansMember(s, j);
    }
  }

  lemma OpenMeansMember(s: State, j: int)
    requires WellFormed(s) && 0 <= j < |s.c| && s.c[j].open
    ensures |s.hp.nodes| > 0
  {
  }

  /** A popped goal is no dearer than any walk through an open node priced at most the walk up to it. */
  lemma MinimumBeatsWalk(walkable: Walkable, goal: Cell, s: State, path: seq<Cell>, i: nat, j: nat)
    requires IsQueue(s) && |s.hp.nodes| > 0 && CellOf(s.c[Pop(s).1]) == goal && InBounds(goal)
    requires forall k :: 0 <= k < |s.c| ==> s.c[k].h == HeuristicOctile(CellOf(s.c[k]), goal)
    requires LegalWalk(walkable, path) && path[|path| - 1] == goal
    requires i < |path| && j < |s.c| && s.c[j].open && CellOf(s.c[j]) == path[i]
    requires s.c[j].g <= WalkCost(path[..i + 1])
    ensures s.c[Pop(s).1].g <= WalkCost(path)
  {
    hide Pop, Ordered, Inverse, HeuristicOctile, LegalWalk;
    PopIsMinimum(s);
    HeuristicAtGoal(goal);
    HeuristicAdmissible(walkable, path, i, goal);
  }

  // ---------- The expansion limit ----------

  ghost function ClosedNodes(c: seq<Node>): set<int> {
    set i | 0 <= i < |c| && c[i].closed
  }

  lemma ClosedNodesBounded(c: seq<Node>)
    ensures |ClosedNodes(c)| <= |c|
  {
    SubsetSize(ClosedNodes(c), Below(|c|));
  }

  lemma CloseCounts(s: State)
    requires IsQueue(s) && |s.hp.nodes| > 0
    requires forall i :: 0 <= i < |s.c| ==> s.c[i].open == !s.c[i].closed
    ensures var (s0, curr) := Pop(s); |ClosedNodes(Close(s0, curr).c)| == |ClosedNodes(s.c)| + 1
  {
    hide Pop, Ordered, Inverse;
    var (s0, curr) := Pop(s);
    assert ClosedNodes(Close(s0, curr).c) == ClosedNodes(s.c) + {curr};
  }

  lemma IterateCounts(walkable: Walkable, start: Cell, goal: Cell, s: State, expanded: nat)
    requires LoopInvariant(walkable, start, goal, s, expanded) && |s.hp.nodes| > 0
    ensures |ClosedNodes(Iterate(walkable, goal, s).c)| == |ClosedNodes(s.c)| + 1
  {
    hide ExpandFrom, Linked, Ordered, Inverse, HeuristicOctile, Pop;
    CloseCounts(s);
    CloseKeeps(walkable, start, goal, s, expanded);
    var (s0, curr) := Pop(s);
    var s1 := Close(s0, curr);
    ExpandFromKeeps(walkable, start, goal, s1, curr, 0, expanded + 1);
    assert ClosedNodes(ExpandFrom(walkable, goal, s1, curr, 0).c) == ClosedNodes(s1.c);
  }

  /** The limit is hit only after more nodes were allocated than it allows to expand, and a goal reached is
      among the nodes it allows. */
  lemma {:induction false} LimitNeedsNodes(
      walkable: Walkable, start: Cell, goal: Cell, s: State, expanded: nat, maxNodes: nat)
    requires LoopInvariant(walkable, start, goal, s, expanded) && expanded <= maxNodes
    requires |ClosedNodes(s.c)| == expanded
    ensures var r := Search(walkable, goal, s, maxNodes - expanded);
      (r.LimitHit? ==> |r.s.c| > maxNodes) && (r.Reached? ==> |ClosedNodes(r.s.c)| <= maxNodes)
    decreases maxNodes - expanded
  {
    hide Iterate, Pop, Linked, Ordered, Inverse, HeuristicOctile, ClosedNodes;
    if |s.hp.nodes| > 0 {
      var (s0, curr) := Pop(s);
      CloseCounts(s);
      if expanded + 1 > maxNodes {
        ClosedNodesBounded(Close(s0, curr).c);
      } else if CellOf(s.c[curr]) != goal {
        IterateKeeps(walkable, start, goal, s, expanded);
        IterateCounts(walkable, start, goal, s, expanded);
        LimitNeedsNodes(walkable, start, goal, Iterate(walkable, goal, s), expanded + 1, maxNodes);
      }
    }
  }

  // ---------- The path ----------

  /** Every parent chain descends in cost to a root. */
  ghost predicate Rooted(c: seq<Node>) {
    forall i :: 0 <= i < |c| && c[i].parent >= 0 ==>
      c[i].parent < |c| && 0 <= c[c[i].parent].g < c[i].g
  }

  /** The parent chain of node i, root first. */
  function Chain(c: seq<Node>, i: int): (r: seq<int>)
    requires Rooted(c) && 0 <= i < |c|
    ensures |r| > 0 && r[|r| - 1] == i && forall k :: 0 <= k < |r| ==> 0 <= r[k] < |c|
    decreases if c[i].parent >= 0 then c[i].g else -1
  {
    if c[i].parent < 0 then [i] else Chain(c, c[i].parent) + [i]
  }

  function CellsAt(c: seq<Node>, indices: seq<int>): (r: seq<Cell>)
    requires forall k :: 0 <= k < |indices| ==> 0 <= indices[k] < |c|
    ensures |r| == |indices| && forall k :: 0 <= k < |r| ==> r[k] == CellOf(c[indices[k]])
  {
    seq(|indices|, k requires 0 <= k < |indices| => CellOf(c[indices[k]]))
  }

  lemma TreeIsRooted(walkable: Walkable, start: Cell, goal: Cell, c: seq<Node>, expanded: nat)
    requires Tree(walkable, start, goal, c, expanded)
    ensures Rooted(c)
  {
    hide HeuristicOctile, LegalStep;
    forall i | 0 <= i < |c| && c[i].parent >= 0
      ensures c[i].parent < |c| && 0 <= c[c[i].parent].g < c[i].g
    {
      assert Linked(walkable, c, i);
    }
  }

  /** The chain of node i is a legal walk from the start to it, of cost G. */
  lemma {:induction false} ChainIsWalk(walkable: Walkable, start: Cell, goal: Cell, c: seq<Node>, expanded: nat, i: int)
    requires Tree(walkable, start, goal, c, expanded) && Rooted(c) && 0 <= i < |c|
    ensures var path := CellsAt(c, Chain(c, i));
      WalkBetween(walkable, path, start, CellOf(c[i])) && WalkCost(path) == c[i].g
    decreases if c[i].parent >= 0 then c[i].g else -1
  {
    hide HeuristicOctile, LegalStep;
    assert i > 0 ==> Linked(walkable, c, i);
    if i > 0 {
      var p := c[i].parent;
      ChainIsWalk(walkable, start, goal, c, expanded, p);
      var path := CellsAt(c, Chain(c, i));
      assert Chain(c, i) == Chain(c, p) + [i];
      assert path[..|path| - 1] == CellsAt(c, Chain(c, p));
    }
  }

  ghost predicate Increasing(c: seq<Node>, r: seq<int>)
    requires forall k :: 0 <= k < |r| ==> 0 <= r[k] < |c|
  {
    forall k, l {:trigger r[k], r[l]} :: 0 <= k < l < |r| ==> c[r[k]].g < c[r[l]].g
  }

  /** G increases along a chain. */
  lemma {:induction false} ChainIncreases(c: seq<Node>, i: int)
    requires Rooted(c) && 0 <= i < |c|
    ensures Increasing(c, Chain(c, i))
    decreases if c[i].parent >= 0 then c[i].g else -1
  {
    if c[i].parent >= 0 {
      ChainIncreases(c, c[i].parent);
      var before := Chain(c, c[i].parent);
      forall k | 0 <= k < |before| ensures c[before[k]].g < c[i].g {
        assert c[before[k]].g <= c[before[|before| - 1]].g;
      }
    }
  }

  /** The chain visits each node once, so it is no longer than the cache: the truncation of over-long paths
      cannot happen. */
  lemma ChainIsShort(walkable: Walkable, start: Cell, goal: Cell, c: seq<Node>, expanded: nat, i: int)
    requires Tree(walkable, start, goal, c, expanded) && Rooted(c) && 0 <= i < |c|
    ensures Distinct(Chain(c, i)) && Distinct(CellsAt(c, Chain(c, i)))
    ensures |Chain(c, i)| <= |c|
  {
    hide HeuristicOctile, Linked, Chain;
    ChainIncreases(c, i);
    var r := Chain(c, i);
    forall k, l | 0 <= k < l < |r| ensures r[k] != r[l] && CellOf(c[r[k]]) != CellOf(c[r[l]]) {
      assert c[r[k]].g < c[r[l]].g;
    }
    DistinctBounded(r, |c|);
  }

  lemma {:induction false} ChainClosed(walkable: Walkable, start: Cell, goal: Cell, c: seq<Node>, expanded: nat, i: int)
    requires Tree(walkable, start, goal, c, expanded) && Rooted(c) && 0 <= i < |c| && c[i].closed
    ensures forall k :: 0 <= k < |Chain(c, i)| ==> c[Chain(c, i)[k]].closed
    decreases if c[i].parent >= 0 then c[i].g else -1
  {
    hide HeuristicOctile, LegalStep;
    if i > 0 {
      assert Linked(walkable, c, i);
      ChainClosed(walkable, start, goal, c, expanded, c[i].parent);
    }
  }

  /** The chain of an expanded node holds expanded nodes only, so the expansion limit bounds the path too. */
  lemma ChainWithinLimit(walkable: Walkable, start: Cell, goal: Cell, c: seq<Node>, expanded: nat, i: int)
    requires Tree(walkable, start, goal, c, expanded) && Rooted(c) && 0 <= i < |c| && c[i].closed
    ensures |Chain(c, i)| <= |ClosedNodes(c)|
  {
    hide Tree, Chain, Distinct;
    ChainClosed(walkable, start, goal, c, expanded, i);
    ChainIsShort(walkable, start, goal, c, expanded, i);
    DistinctSetSize(Chain(c, i));
    SubsetSize(Elements(Chain(c, i)), ClosedNodes(c));
  }

  // ---------- findPath ----------

  datatype PathResult = PathResult(found: bool, points: seq<Cell>)

  const NOT_FOUND: PathResult := PathResult(false, [])

  /** The compact coordinates the search works with. */
  function Truncated(x: int, z: int): (c: Cell) {
    Cell(ToInt32(x), ToInt32(z))
  }

  function RunSearch(walkable: Walkable, sx: int, sz: int, ex: int, ez: int, maxNodes: int): Outcome {
    Search(walkable, Truncated(ex, ez), Initial(Truncated(sx, sz), Truncated(ex, ez)), EffectiveLimit(maxNodes))
  }

  lemma InitialHolds(walkable: Walkable, start: Cell, goal: Cell)
    requires InInt32(start.x) && InInt32(start.z)
    ensures var s := Initial(start, goal);
      LoopInvariant(walkable, start, goal, s, 0) && ClosedNodes(s.c) == {}
      && Priced(walkable, s.c, F(s.c[0]))
  {
    hide HeuristicOctile, LegalStep;
    PushKeepsQueue(State([FreshNode(start).(h := HeuristicOctile(start, goal))], EmptyHeap()), 0);
  }

  lemma RunSearchKeepsTree(walkable: Walkable, sx: int, sz: int, ex: int, ez: int, maxNodes: int)
    ensures var r := RunSearch(walkable, sx, sz, ex, ez, maxNodes);
      Tree(walkable, Truncated(sx, sz), Truncated(ex, ez), r.s.c, EffectiveLimit(maxNodes) + 1) && Rooted(r.s.c)
  {
    hide Search, Initial, EffectiveLimit, Tree;
    var start, goal := Truncated(sx, sz), Truncated(ex, ez);
    InitialHolds(walkable, start, goal);
    SearchKeepsTree(walkable, start, goal, Initial(start, goal), 0, EffectiveLimit(maxNodes));
    TreeIsRooted(walkable, start, goal, RunSearch(walkable, sx, sz, ex, ez, maxNodes).s.c, EffectiveLimit(maxNodes) + 1);
  }

  /** One call of `findPath` as a function of its arguments alone. */
  function FindPath(walkable: Walkable, sx: int, sz: int, ex: int, ez: int, maxNodes: int): PathResult {
    if sx == ex && sz == ez then PathResult(true, [Cell(sx, sz)])
    else if !walkable(sx, sz) || !walkable(ex, ez) then NOT_FOUND
    else
      var r := RunSearch(walkable, sx, sz, ex, ez, maxNodes);
      RunSearchKeepsTree(walkable, sx, sz, ex, ez, maxNodes);
      if r.Reached? then PathResult(true, CellsAt(r.s.c, Chain(r.s.c, r.at))) else NOT_FOUND
  }

  /** A call that searched and found: the path is the goal's parent chain, and costs the goal's G. */
  lemma FoundIsChain(walkable: Walkable, sx: int, sz: int, ex: int, ez: int, maxNodes: int)
    requires FindPath(walkable, sx, sz, ex, ez, maxNodes).found
    ensures !(sx == ex && sz == ez) ==>
      var p := FindPath(walkable, sx, sz, ex, ez, maxNodes).points;
      var r := RunSearch(walkable, sx, sz, ex, ez, maxNodes);
      WalkBetween(walkable, p, Truncated(sx, sz), Truncated(ex, ez)) && Distinct(p) && |p| <= EffectiveLimit(maxNodes)
      && r.Reached? && WalkCost(p) == r.s.c[r.at].g
  {
    hide RunSearch, Tree, Chain, LegalWalk;
    if !(sx == ex && sz == ez) {
      var r := RunSearch(walkable, sx, sz, ex, ez, maxNodes);
      var start, goal := Truncated(sx, sz), Truncated(ex, ez);
      RunSearchKeepsTree(walkable, sx, sz, ex, ez, maxNodes);
      ReachedIsGoal(walkable, sx, sz, ex, ez, maxNodes);
      ChainIsWalk(walkable, start, goal, r.s.c, EffectiveLimit(maxNodes) + 1, r.at);
      ChainIsShort(walkable, start, goal, r.s.c, EffectiveLimit(maxNodes) + 1, r.at);
      RunSearchWithinLimit(walkable, sx, sz, ex, ez, maxNodes);
      ChainWithinLimit(walkable, start, goal, r.s.c, EffectiveLimit(maxNodes) + 1, r.at);
    }
  }

  /** Soundness: the path found takes only legal steps, visits no cell twice and is no longer than the expansion
      limit, so it fits the result array; it leads from the start to the goal, as truncated to 32 bits, or is the one cell asked for as both. */
  lemma FindPathSound(walkable: Walkable, sx: int, sz: int, ex: int, ez: int, maxNodes: int)
    requires FindPath(walkable, sx, sz, ex, ez, maxNodes).found
    ensures var p := FindPath(walkable, sx, sz, ex, ez, maxNodes).points;
      LegalWalk(walkable, p) && Distinct(p) && |p| <= EffectiveLimit(maxNodes)
      && if sx == ex && sz == ez then p == [Cell(sx, sz)]
         else p[0] == Truncated(sx, sz) && p[|p| - 1] == Truncated(ex, ez)
  {
    hide RunSearch, LegalStep, Chain;
    FoundIsChain(walkable, sx, sz, ex, ez, maxNodes);
  }

  lemma ReachedIsGoal(walkable: Walkable, sx: int, sz: int, ex: int, ez: int, maxNodes: int)
    ensures var r := RunSearch(walkable, sx, sz, ex, ez, maxNodes);
      |r.s.c| <= MAX_PATH_NODES
      && (r.Reached? ==> 0 <= r.at < |r.s.c| && CellOf(r.s.c[r.at]) == Truncated(ex, ez) && r.s.c[r.at].closed)
  {
  }

  /** What the code needs to know about the outcome to report it. */
  lemma RunSearchReportable(walkable: Walkable, sx: int, sz: int, ex: int, ez: int, maxNodes: int)
    ensures var r := RunSearch(walkable, sx, sz, ex, ez, maxNodes);
      Rooted(r.s.c) && 0 < |r.s.c| <= MAX_PATH_NODES && r.s.c[0].g == 0
      && (r.Reached? ==> 0 <= r.at < |r.s.c| && |Chain(r.s.c, r.at)| <= MAX_PATH_NODES)
  {
    hide RunSearch, Chain, Rooted, Linked, HeuristicOctile, Truncated, EffectiveLimit;
    var r := RunSearch(walkable, sx, sz, ex, ez, maxNodes);
    RunSearchKeepsTree(walkable, sx, sz, ex, ez, maxNodes);
    ReachedIsGoal(walkable, sx, sz, ex, ez, maxNodes);
    if r.Reached? {
      ChainIsShort(walkable, Truncated(sx, sz), Truncated(ex, ez), r.s.c, EffectiveLimit(maxNodes) + 1, r.at);
    }
  }

  /** The 32-bit truncation, exactly: the path found ends at the goal asked for if and only if that is the
      start or its coordinates fit 32 bits. */
  lemma FindPathEndsAtGoal(walkable: Walkable, sx: int, sz: int, ex: int, ez: int, maxNodes: int)
    requires FindPath(walkable, sx, sz, ex, ez, maxNodes).found
    ensures var p := FindPath(walkable, sx, sz, ex, ez, maxNodes).points;
      |p| > 0 && (p[|p| - 1] == Cell(ex, ez) <==> (sx == ex && sz == ez) || (InInt32(ex) && InInt32(ez)))
  {
    hide FindPath;
    FindPathSound(walkable, sx, sz, ex, ez, maxNodes);
  }

  /** The same at the other end: the path found begins at the start asked for if and only if that is the goal or
      its coordinates fit 32 bits. */
  lemma FindPathStartsAtStart(walkable: Walkable, sx: int, sz: int, ex: int, ez: int, maxNodes: int)
    requires FindPath(walkable, sx, sz, ex, ez, maxNodes).found
    ensures var p := FindPath(walkable, sx, sz, ex, ez, maxNodes).points;
      |p| > 0 && (p[0] == Cell(sx, sz) <==> (sx == ex && sz == ez) || (InInt32(sx) && InInt32(sz)))
  {
    hide FindPath;
    FindPathSound(walkable, sx, sz, ex, ez, maxNodes);
  }

  /** The search proper: if no allocation was refused, it ends without a path only where there is no legal walk,
      and the path it finds costs no more than any legal walk. */
  lemma RunSearchBest(walkable: Walkable, sx: int, sz: int, ex: int, ez: int, maxNodes: int, path: seq<Cell>)
    requires WalkBetween(walkable, path, Truncated(sx, sz), Truncated(ex, ez))
    requires HasRoom(walkable, RunSearch(walkable, sx, sz, ex, ez, maxNodes).s.c)
    requires |path| > 1
    ensures var r := RunSearch(walkable, sx, sz, ex, ez, maxNodes);
      !r.Exhausted? && (r.Reached? ==> r.s.c[r.at].g <= WalkCost(path))
  {
    hide Search, Initial, EffectiveLimit, Tree, LoopInvariant, Priced, HasRoom;
    var start, goal := Truncated(sx, sz), Truncated(ex, ez);
    InitialHolds(walkable, start, goal);
    assert LegalStep(walkable, path[|path| - 2], path[|path| - 2 + 1]);
    SearchOptimal(walkable, start, goal, Initial(start, goal), 0, EffectiveLimit(maxNodes),
                  F(Initial(start, goal).c[0]), path);
  }

  /** Optimality of a run: unless an allocation was refused, no legal walk is cheaper than the path found. */
  lemma FindPathOptimalWithRoom(
      walkable: Walkable, sx: int, sz: int, ex: int, ez: int, maxNodes: int, path: seq<Cell>)
    requires InInt32(sx) && InInt32(sz) && InInt32(ex) && InInt32(ez)
    requires FindPath(walkable, sx, sz, ex, ez, maxNodes).found
    requires HasRoom(walkable, RunSearch(walkable, sx, sz, ex, ez, maxNodes).s.c)
    requires WalkBetween(walkable, path, Cell(sx, sz), Cell(ex, ez))
    ensures WalkCost(FindPath(walkable, sx, sz, ex, ez, maxNodes).points) <= WalkCost(path)
  {
    hide RunSearch, LegalStep, Chain, Tree, HasRoom;
    if sx == ex && sz == ez {
      WalkCostNonNegative(path);
    } else {
      FoundIsChain(walkable, sx, sz, ex, ez, maxNodes);
      RunSearchBest(walkable, sx, sz, ex, ez, maxNodes, path);
    }
  }

  /** There is something to find: start and goal are one cell, or the start is walkable and a legal walk leads
      to the goal. */
  ghost predicate PathExists(walkable: Walkable, start: Cell, goal: Cell) {
    start == goal || (walkable(start.x, start.z) && exists path :: WalkBetween(walkable, path, start, goal))
  }

  /** Completeness of a run: unless an allocation was refused or the limit was hit, a path is found exactly if
      there is one. */
  lemma FindPathDecidesWithRoom(walkable: Walkable, sx: int, sz: int, ex: int, ez: int, maxNodes: int)
    requires InInt32(sx) && InInt32(sz) && InInt32(ex) && InInt32(ez)
    requires var r := RunSearch(walkable, sx, sz, ex, ez, maxNodes);
      HasRoom(walkable, r.s.c) && !r.LimitHit?
    ensures FindPath(walkable, sx, sz, ex, ez, maxNodes).found <==> PathExists(walkable, Cell(sx, sz), Cell(ex, ez))
  {
    hide RunSearch, Chain, Tree, LegalStep, HasRoom;
    if FindPath(walkable, sx, sz, ex, ez, maxNodes).found {
      if !(sx == ex && sz == ez) {
        FoundIsChain(walkable, sx, sz, ex, ez, maxNodes);
      }
    } else if PathExists(walkable, Cell(sx, sz), Cell(ex, ez)) {
      var path :| WalkBetween(walkable, path, Cell(sx, sz), Cell(ex, ez));
      LastStepIsWalkable(walkable, path);
      RunSearchBest(walkable, sx, sz, ex, ez, maxNodes, path);
      assert false;
    }
  }

  lemma LastStepIsWalkable(walkable: Walkable, path: seq<Cell>)
    requires LegalWalk(walkable, path) && |path| > 1
    ensures walkable(path[|path| - 1].x, path[|path| - 1].z)
  {
    assert LegalStep(walkable, path[|path| - 2], path[|path| - 2 + 1]);
  }

  lemma RunSearchWithinLimit(walkable: Walkable, sx: int, sz: int, ex: int, ez: int, maxNodes: int)
    ensures var r := RunSearch(walkable, sx, sz, ex, ez, maxNodes);
      (r.LimitHit? ==> |r.s.c| > EffectiveLimit(maxNodes))
      && (r.Reached? ==> |ClosedNodes(r.s.c)| <= EffectiveLimit(maxNodes))
  {
    hide Search, Initial, EffectiveLimit, Tree, LoopInvariant, Priced;
    var start, goal := Truncated(sx, sz), Truncated(ex, ez);
    InitialHolds(walkable, start, goal);
    LimitNeedsNodes(walkable, start, goal, Initial(start, goal), 0, EffectiveLimit(maxNodes));
  }

  /** With the default limit the expansion bound is never the reason for giving up. */
  lemma DefaultLimitNeverHit(walkable: Walkable, sx: int, sz: int, ex: int, ez: int, maxNodes: int)
    requires maxNodes <= 0 || maxNodes >= MAX_PATH_NODES
    ensures !RunSearch(walkable, sx, sz, ex, ez, maxNodes).LimitHit?
  {
    hide RunSearch;
    RunSearchWithinLimit(walkable, sx, sz, ex, ez, maxNodes);
    ReachedIsGoal(walkable, sx, sz, ex, ez, maxNodes);
  }

  // ---------- The map decides ----------

  /** No legal step leads out of the region, and the start lies in it. */
  ghost predicate IsRegion(walkable: Walkable, start: Cell, region: set<Cell>) {
    start in region && forall a, b :: a in region && LegalStep(walkable, a, b) ==> b in region
  }

  lemma {:induction false} WalkStaysInRegion(walkable: Walkable, start: Cell, region: set<Cell>, path: seq<Cell>, k: nat)
    requires IsRegion(walkable, start, region) && LegalWalk(walkable, path) && path[0] == start && k < |path|
    ensures path[k] in region
  {
    hide LegalStep;
    if k > 0 {
      WalkStaysInRegion(walkable, start, region, path, k - 1);
      assert LegalStep(walkable, path[k - 1], path[k - 1 + 1]);
    }
  }

  lemma NodesInRegion(walkable: Walkable, start: Cell, goal: Cell, c: seq<Node>, expanded: nat, region: set<Cell>)
    requires Tree(walkable, start, goal, c, expanded) && IsRegion(walkable, start, region)
    ensures forall i :: 0 <= i < |c| ==> CellOf(c[i]) in region
  {
    hide Tree, IsRegion, Chain, LegalWalk;
    TreeIsRooted(walkable, start, goal, c, expanded);
    forall i | 0 <= i < |c| ensures CellOf(c[i]) in region {
      ChainIsWalk(walkable, start, goal, c, expanded, i);
      var path := CellsAt(c, Chain(c, i));
      WalkStaysInRegion(walkable, start, region, path, |path| - 1);
    }
  }

  /** Distinct cells of a region: no more than it has, and if as many, all of them. */
  lemma RegionBoundsNodes(walkable: Walkable, start: Cell, c: seq<Node>, region: set<Cell>)
    requires IsRegion(walkable, start, region) && |c| <= MAX_PATH_NODES
    requires forall i :: 0 <= i < |c| ==> CellOf(c[i]) in region
    requires forall i, j :: 0 <= i < j < |c| ==> CellOf(c[i]) != CellOf(c[j])
    ensures |c| <= |region|
    ensures |region| <= MAX_PATH_NODES ==> HasRoom(walkable, c)
  {
    hide LegalStep;
    var cells := seq(|c|, i requires 0 <= i < |c| => CellOf(c[i]));
    DistinctSetSize(cells);
    SubsetSize(Elements(cells), region);
    if |c| == MAX_PATH_NODES >= |region| {
      forall i, b | 0 <= i < |c| && LegalStep(walkable, CellOf(c[i]), b) ensures HasCell(c, b) {
        assert b in Elements(cells);
        var j :| 0 <= j < |cells| && cells[j] == b;
        assert CellOf(c[j]) == b;
      }
    }
  }

  /** The search allocates no more nodes than the region has cells; if it has at most as many as the cache,
      no allocation is refused, and if at most as many as the limit, that is not hit. */
  lemma RegionBoundsSearch(
      walkable: Walkable, sx: int, sz: int, ex: int, ez: int, maxNodes: int, region: set<Cell>)
    requires IsRegion(walkable, Truncated(sx, sz), region)
    ensures var r := RunSearch(walkable, sx, sz, ex, ez, maxNodes);
      |r.s.c| <= |region|
      && (|region| <= MAX_PATH_NODES ==> HasRoom(walkable, r.s.c))
      && (|region| <= EffectiveLimit(maxNodes) ==> !r.LimitHit?)
  {
    hide RunSearch, Linked, HeuristicOctile, IsRegion, HasRoom, EffectiveLimit;
    var start, goal := Truncated(sx, sz), Truncated(ex, ez);
    var c := RunSearch(walkable, sx, sz, ex, ez, maxNodes).s.c;
    RunSearchKeepsTree(walkable, sx, sz, ex, ez, maxNodes);
    RunSearchWithinLimit(walkable, sx, sz, ex, ez, maxNodes);
    ReachedIsGoal(walkable, sx, sz, ex, ez, maxNodes);
    NodesInRegion(walkable, start, goal, c, EffectiveLimit(maxNodes) + 1, region);
    RegionBoundsNodes(walkable, start, c, region);
  }

  /** Optimality: where legal steps from the start stay within 512 cells, no legal walk is cheaper than the path
      found. */
  lemma FindPathOptimal(
      walkable: Walkable, sx: int, sz: int, ex: int, ez: int, maxNodes: int, region: set<Cell>, path: seq<Cell>)
    requires InInt32(sx) && InInt32(sz) && InInt32(ex) && InInt32(ez)
    requires IsRegion(walkable, Cell(sx, sz), region) && |region| <= MAX_PATH_NODES
    requires FindPath(walkable, sx, sz, ex, ez, maxNodes).found
    requires WalkBetween(walkable, path, Cell(sx, sz), Cell(ex, ez))
    ensures WalkCost(FindPath(walkable, sx, sz, ex, ez, maxNodes).points) <= WalkCost(path)
  {
    hide RunSearch, IsRegion, HasRoom, FindPath, WalkBetween;
    RegionBoundsSearch(walkable, sx, sz, ex, ez, maxNodes, region);
    FindPathOptimalWithRoom(walkable, sx, sz, ex, ez, maxNodes, path);
  }

  /** Completeness: where legal steps from the start stay within as many cells as the limit allows to expand, a
      path is found exactly if there is one. */
  lemma FindPathDecides(
      walkable: Walkable, sx: int, sz: int, ex: int, ez: int, maxNodes: int, region: set<Cell>)
    requires InInt32(sx) && InInt32(sz) && InInt32(ex) && InInt32(ez)
    requires IsRegion(walkable, Cell(sx, sz), region) && |region| <= EffectiveLimit(maxNodes)
    ensures FindPath(walkable, sx, sz, ex, ez, maxNodes).found <==> PathExists(walkable, Cell(sx, sz), Cell(ex, ez))
  {
    hide RunSearch, IsRegion, HasRoom, FindPath, PathExists;
    RegionBoundsSearch(walkable, sx, sz, ex, ez, maxNodes, region);
    FindPathDecidesWithRoom(walkable, sx, sz, ex, ez, maxNodes);
  }

  /** Every cell of the board that can be walked on. */
  ghost function WalkableCells(walkable: Walkable): set<Cell> {
    set x, z | MIN_COORD <= x <= MAX_COORD && MIN_COORD <= z <= MAX_COORD && walkable(x, z) :: Cell(x, z)
  }

  lemma WalkableCellsAreRegion(walkable: Walkable, start: Cell)
    ensures IsRegion(walkable, start, WalkableCells(walkable) + {start})
  {
  }

  /** The plain instance: a board with fewer walkable cells than the limit (512 by default). */
  lemma FindPathDecidesSmallBoard(walkable: Walkable, sx: int, sz: int, ex: int, ez: int, maxNodes: int)
    requires InInt32(sx) && InInt32(sz) && InInt32(ex) && InInt32(ez)
    requires |WalkableCells(walkable)| < EffectiveLimit(maxNodes)
    ensures FindPath(walkable, sx, sz, ex, ez, maxNodes).found <==> PathExists(walkable, Cell(sx, sz), Cell(ex, ez))
  {
    hide FindPath, PathExists, IsRegion, WalkableCells;
    WalkableCellsAreRegion(walkable, Cell(sx, sz));
    FindPathDecides(walkable, sx, sz, ex, ez, maxNodes, WalkableCells(walkable) + {Cell(sx, sz)});
  }

  /** Outside 32 bits the answer is about another goal: here a path of one cell is reported for a goal
      2^32 cells away. */
  lemma TruncatedGoalExample(walkable: Walkable)
    requires walkable(0, 0) && walkable(0x1_0000_0000, 0)
    ensures FindPath(walkable, 0, 0, 0x1_0000_0000, 0, 0) == PathResult(true, [Cell(0, 0)])
  {
    var c := Initial(Cell(0, 0), Cell(0, 0)).c;
    assert Truncated(0x1_0000_0000, 0) == Cell(0, 0);
    var r := RunSearch(walkable, 0, 0, 0x1_0000_0000, 0, 0);
    assert r.Reached? && r.at == 0 && |r.s.c| == 1;
    RunSearchKeepsTree(walkable, 0, 0, 0x1_0000_0000, 0, 0);
    assert Chain(r.s.c, 0) == [0];
  }
}
