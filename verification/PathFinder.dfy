/** The pathfinder's arrays: the inline binary heap, the shared node cache and the search over them.

    Each method is proved to do to its arrays exactly what the functions of `OpenHeap`, `AStarSearch` and
    `Pathfinding` say, whatever the arrays held before outside the live prefix. */
module PathFinder {
  import opened Int32
  import opened Geometry
  import H = OpenHeap
  import opened AStarSearch
  import opened Pathfinding
  import opened Counting

  type Node = H.Node

  /** An inline min-heap of node indices. The nodes themselves live in the shared cache. */
  class BinaryHeap {
    const nodes: array<int>
    const indices: array<int>
    var len: nat

    ghost predicate Shape()
      reads this
    {
      nodes.Length == H.MAX_OPEN_SET && indices.Length == H.MAX_OPEN_SET && nodes != indices && len <= nodes.Length
    }

    ghost function Contents(): H.Heap
      requires Shape()
      reads this, nodes, indices
    {
      H.Heap(nodes[..len], indices[..H.MAX_PATH_NODES])
    }

    /** The contents with the place of node `out` read as -1: `pop` clears that place last. */
    ghost function Masked(out: int): H.Heap
      requires Shape() && -1 <= out < H.MAX_PATH_NODES
      reads this, nodes, indices
    {
      if out == -1 then Contents() else Contents().(pos := indices[..H.MAX_PATH_NODES][out := -1])
    }

    constructor ()
      ensures Shape() && fresh(nodes) && fresh(indices)
    {
      nodes := new int[H.MAX_OPEN_SET];
      indices := new int[H.MAX_OPEN_SET];
      len := 0;
      new;
      if nodes == indices {
        assert false;
      }
    }

    /** Empties the heap. Only the first MAX_PATH_NODES places are cleared: no others are ever used. */
    method Reset()
      requires Shape()
      modifies this, indices
      ensures Shape() && Contents() == EmptyHeap()
    {
      len := 0;
      for i := 0 to H.MAX_PATH_NODES
        invariant Shape() && len == 0
        invariant forall j :: 0 <= j < i ==> indices[j] == -1
      {
        indices[i] := -1;
      }
    }

    method Less(cache: array<Node>, i: int, j: int, ghost n: nat, ghost out: int) returns (less: bool)
      requires Shape() && -1 <= out < H.MAX_PATH_NODES && n <= cache.Length && H.Inverse(Masked(out), n)
      requires 0 <= i < len && 0 <= j < len
      ensures less == H.Less(cache[..n], Masked(out), i, j)
    {
      assert forall k :: 0 <= k < len ==> Masked(out).nodes[k] == nodes[k];
      return H.KeyLess(cache[nodes[i]], cache[nodes[j]]);
    }

    method SwapAt(i: int, j: int, ghost n: nat, ghost out: int)
      requires Shape() && -1 <= out < H.MAX_PATH_NODES && H.Inverse(Masked(out), n)
      requires 0 <= i < len && 0 <= j < len && i != j
      modifies nodes, indices
      ensures Masked(out) == H.Swap(old(Masked(out)), i, j, n)
      ensures out >= 0 ==> indices[out] == old(indices[out])
    {
      ghost var hp := Masked(out);
      assert hp.nodes[i] == nodes[i] && hp.nodes[j] == nodes[j] && hp.pos[nodes[i]] == i && hp.pos[nodes[j]] == j;
      nodes[i], nodes[j] := nodes[j], nodes[i];
      indices[nodes[i]] := i;
      indices[nodes[j]] := j;
      assert Masked(out).nodes == hp.nodes[i := hp.nodes[j]][j := hp.nodes[i]];
      assert Masked(out).pos == hp.pos[hp.nodes[j] := i][hp.nodes[i] := j];
    }

    method Up(cache: array<Node>, pos: int, ghost n: nat)
      requires Shape() && n <= cache.Length && H.Inverse(Contents(), n) && 0 <= pos < len
      modifies nodes, indices
      ensures Contents() == H.Up(cache[..n], old(Contents()), pos)
    {
      hide H.Inverse, H.Less, H.Swap, H.SameMembers;
      ghost var c := cache[..n];
      var p := pos;
      while p > 0
        invariant 0 <= p < len && H.Inverse(Contents(), n)
        invariant H.Up(c, Contents(), p) == H.Up(c, old(Contents()), pos)
        invariant cache[..n] == c
        decreases p
      {
        var parent := (p - 1) / 2;
        var less := Less(cache, p, parent, n, -1);
        if !less {
          break;
        }
        SwapAt(p, parent, n, -1);
        p := parent;
      }
    }

    method SmallestChildOf(cache: array<Node>, p: int, ghost n: nat, ghost out: int) returns (smallest: int)
      requires Shape() && -1 <= out < H.MAX_PATH_NODES && n <= cache.Length && H.Inverse(Masked(out), n)
      requires 0 <= p && 2 * p + 1 < len
      ensures smallest == H.SmallestChild(cache[..n], Masked(out), p)
    {
      hide H.Inverse, H.Less;
      smallest := 2 * p + 1;
      var right := smallest + 1;
      if right < len {
        var rightLess := Less(cache, right, smallest, n, out);
        if rightLess {
          smallest := right;
        }
      }
    }

    method Down(cache: array<Node>, pos: int, ghost n: nat, ghost out: int)
      requires Shape() && -1 <= out < H.MAX_PATH_NODES && n <= cache.Length && H.Inverse(Masked(out), n) && 0 <= pos
      modifies nodes, indices
      ensures Masked(out) == H.Down(cache[..n], old(Masked(out)), pos)
      ensures out >= 0 ==> indices[out] == old(indices[out])
    {
      hide H.Inverse, H.Less, H.Swap, H.SameMembers, H.SmallestChild;
      ghost var c := cache[..n];
      var p := pos;
      while true
        invariant 0 <= p && H.Inverse(Masked(out), n)
        invariant H.Down(c, Masked(out), p) == H.Down(c, old(Masked(out)), pos)
        invariant cache[..n] == c
        invariant out >= 0 ==> indices[out] == old(indices[out])
        decreases len - p
      {
        if 2 * p + 1 >= len {
          break;
        }
        var smallest := SmallestChildOf(cache, p, n, out);
        var inOrder := Less(cache, p, smallest, n, out);
        if inOrder {
          break;
        }
        SwapAt(p, smallest, n, out);
        p := smallest;
      }
    }

    ghost function StateWith(cache: array<Node>, n: nat): H.State
      requires Shape() && n <= cache.Length
      reads this, nodes, indices, cache
    {
      H.State(cache[..n], Contents())
    }

    method Push(cache: array<Node>, idx: int, ghost n: nat)
      requires Shape() && n <= cache.Length && H.WellFormed(StateWith(cache, n)) && 0 <= idx < n
      modifies this, nodes, indices, cache
      ensures Shape() && StateWith(cache, n) == H.Push(old(StateWith(cache, n)), idx)
    {
      if cache[idx].open {
        return;
      }
      H.HeapBounded(Contents(), n);
      cache[idx] := cache[idx].(open := true);
      var pos := len;
      nodes[pos] := idx;
      indices[idx] := pos;
      len := len + 1;
      assert Contents() == H.Append(old(Contents()), idx, n);
      Up(cache, pos, n);
    }

    method Pop(cache: array<Node>, ghost n: nat) returns (idx: int, ok: bool)
      requires Shape() && n <= cache.Length && H.WellFormed(StateWith(cache, n))
      modifies this, nodes, indices, cache
      ensures Shape() && ok == (old(len) > 0)
      ensures !ok ==> StateWith(cache, n) == old(StateWith(cache, n))
      ensures ok ==> (StateWith(cache, n), idx) == H.Pop(old(StateWith(cache, n)))
    {
      if len == 0 {
        return 0, false;
      }
      idx := nodes[0];
      cache[idx] := cache[idx].(open := false);
      len := len - 1;
      if len > 0 {
        nodes[0] := nodes[len];
        indices[nodes[0]] := 0;
        assert Masked(idx) == H.TakeRoot(old(Contents()), n);
        Down(cache, 0, n, idx);
      }
      indices[idx] := -1;
      ok := true;
    }

    method Fix(cache: array<Node>, pos: int, ghost n: nat)
      requires Shape() && n <= cache.Length && H.Inverse(Contents(), n) && 0 <= pos < len
      modifies nodes, indices
      ensures Contents() == H.Fix(cache[..n], old(Contents()), pos)
    {
      Up(cache, pos, n);
      Down(cache, pos, n, -1);
    }
  }

  /** A slot just allocated keeps a stale G and H. The first offer overwrites both, so what the global array
      held before makes no difference. */
  lemma StaleSlot(goal: Cell, s: H.State, t: H.State, curr: int, at: Cell, tentG: int)
    requires H.WellFormed(s) && 0 <= curr < |s.c| < H.MAX_PATH_NODES
    requires |t.c| == |s.c| + 1 && t.c[..|s.c|] == s.c && t.hp == s.hp
    requires t.c[|s.c|] == FreshNode(at).(g := t.c[|s.c|].g, h := t.c[|s.c|].h)
    ensures H.WellFormed(t)
    ensures Improve(goal, t, curr, |s.c|, tentG) == Improve(goal, Allocate(s, at), curr, |s.c|, tentG)
  {
    hide HeuristicOctile, H.Push, H.Fix;
    var j := |s.c|;
    assert H.Inverse(t.hp, |t.c|);
    var n := FreshNode(at).(parent := curr, g := tentG, h := HeuristicOctile(at, goal));
    assert t.c[j := n] == Allocate(s, at).c[j := n];
  }

  /** One iteration of the specified search. */
  lemma SearchNext(walkable: Walkable, goal: Cell, s: H.State, budget: nat)
    requires H.WellFormed(s) && |s.hp.nodes| > 0
    ensures var curr := H.Pop(s).1; var t := Close(H.Pop(s).0, curr);
      H.WellFormed(t)
      && Search(walkable, goal, s, budget) ==
        if budget == 0 then LimitHit(t)
        else if CellOf(t.c[curr]) == goal then Reached(t, curr)
        else Search(walkable, goal, ExpandFrom(walkable, goal, t, curr, 0), budget - 1)
  {
    hide H.Inverse, H.Pop, ExpandFrom;
  }

  lemma SearchEmpty(walkable: Walkable, goal: Cell, s: H.State, budget: nat)
    requires H.WellFormed(s) && |s.hp.nodes| == 0
    ensures Search(walkable, goal, s, budget) == Exhausted(s)
  {
  }

  lemma ChainStep(c: seq<Node>, i: int)
    requires Rooted(c) && 0 <= i < |c|
    ensures c[i].parent < |c|
    ensures if c[i].parent < 0 then Chain(c, i) == [i] else Chain(c, i) == Chain(c, c[i].parent) + [i]
  {
  }

  /** A reusable path cache. The node array is the package's global one, shared by every PathCache. */
  class PathCache {
    const cache: array<Node>
    const openList: BinaryHeap
    const pathBuf: array<int>
    var nodeCount: nat

    ghost predicate Valid()
      reads this, openList
    {
      && openList.Shape() && cache.Length == H.MAX_PATH_NODES && pathBuf.Length == H.MAX_PATH_NODES
      && pathBuf != openList.nodes && pathBuf != openList.indices && nodeCount <= H.MAX_PATH_NODES
    }

    ghost function State(): H.State
      requires Valid()
      reads this, openList, openList.nodes, openList.indices, cache
    {
      openList.StateWith(cache, nodeCount)
    }

    constructor (globalCache: array<Node>)
      requires globalCache.Length == H.MAX_PATH_NODES
      ensures Valid() && cache == globalCache && nodeCount == 0
      ensures fresh(openList) && fresh(openList.nodes) && fresh(openList.indices) && fresh(pathBuf)
    {
      cache := globalCache;
      pathBuf := new int[H.MAX_PATH_NODES];
      nodeCount := 0;
      openList := new BinaryHeap();
      new;
      openList.Reset();
    }

    /** Clears the nodes this PathCache last used; the rest of the global array keeps what it held. */
    method Reset()
      requires Valid() && cache[0].g == 0
      modifies this, openList, openList.indices, cache
      ensures Valid() && nodeCount == 0 && openList.Contents() == EmptyHeap() && cache[0].g == 0
    {
      for i := 0 to nodeCount
        invariant Valid() && cache[0].g == 0 && nodeCount == old(nodeCount)
      {
        cache[i] := H.Node(0, 0, 0, 0, 0, false, false);
      }
      nodeCount := 0;
      openList.Reset();
    }

    /** Takes the next free slot for a node at the given cell, or -1 if the cache is full. The slot's old G
        and H are left in place. */
    method AllocNode(x: int, z: int) returns (idx: int)
      requires Valid()
      modifies this`nodeCount, cache
      ensures Valid() && idx == (if old(nodeCount) >= H.MAX_PATH_NODES then -1 else old(nodeCount))
      ensures idx < 0 ==> nodeCount == old(nodeCount) && cache[..] == old(cache[..])
      ensures idx >= 0 ==> nodeCount == old(nodeCount) + 1
      ensures idx >= 0 ==> cache[..] == old(cache[..])[idx :=
        H.Node(x, z, old(cache[nodeCount].g), old(cache[nodeCount].h), -1, false, false)]
    {
      if nodeCount >= H.MAX_PATH_NODES {
        return -1;
      }
      idx := nodeCount;
      nodeCount := nodeCount + 1;
      cache[idx] := cache[idx].(x := x, z := z, parent := -1, closed := false, open := false);
    }

    method NodeIndex(x: int, z: int) returns (idx: int)
      requires Valid()
      ensures idx == IndexFrom(cache[..nodeCount], Cell(x, z), 0)
    {
      for i := 0 to nodeCount
        invariant IndexFrom(cache[..nodeCount], Cell(x, z), i) == IndexFrom(cache[..nodeCount], Cell(x, z), 0)
      {
        if cache[i].x == x && cache[i].z == z {
          return i;
        }
      }
      return -1;
    }

    /** Gives node j the path through curr of cost tentG, if it is its first or a cheaper one. */
    method OfferPath(endX: int, endZ: int, curr: int, j: int, tentG: int)
      requires Valid() && H.WellFormed(State()) && 0 <= curr < nodeCount && 0 <= j < nodeCount
      modifies openList, openList.nodes, openList.indices, cache
      ensures Valid() && State() == Improve(Cell(endX, endZ), old(State()), curr, j, tentG)
    {
      hide H.Inverse, HeuristicOctile, H.Push, H.Fix;
      if !cache[j].open || tentG < cache[j].g {
        cache[j] := cache[j].(parent := curr, g := tentG,
          h := HeuristicOctile(Cell(cache[j].x, cache[j].z), Cell(endX, endZ)));
        if !cache[j].open {
          openList.Push(cache, j, nodeCount);
        } else {
          var pos := openList.indices[j];
          if pos >= 0 {
            H.PlaceBounded(openList.Contents(), nodeCount, j);
            openList.Fix(cache, pos, nodeCount);
          }
        }
      }
    }

    /** Finds or allocates the node at (nx, nz) and, unless it is closed, offers it the path through curr. */
    method OfferNeighborAt(endX: int, endZ: int, curr: int, nx: int, nz: int, tentG: int)
      requires Valid() && H.WellFormed(State()) && 0 <= curr < nodeCount
      modifies this`nodeCount, openList, openList.nodes, openList.indices, cache
      ensures Valid() && State() == OfferNeighbor(Cell(endX, endZ), old(State()), curr, Cell(nx, nz), tentG)
    {
      hide H.Inverse, HeuristicOctile, Improve;
      ghost var s := State();
      var nbrIdx := NodeIndex(nx, nz);
      if nbrIdx < 0 {
        nbrIdx := AllocNode(nx, nz);
        if nbrIdx < 0 {
          return;
        }
        StaleSlot(Cell(endX, endZ), s, State(), curr, Cell(nx, nz), tentG);
      }
      if cache[nbrIdx].closed {
        return;
      }
      OfferPath(endX, endZ, curr, nbrIdx, tentG);
    }

    method TryDirection(isWalkable: Walkable, endX: int, endZ: int, curr: int, k: int)
      requires Valid() && H.WellFormed(State()) && 0 <= curr < nodeCount && 0 <= k < 8
      modifies this`nodeCount, openList, openList.nodes, openList.indices, cache
      ensures Valid() && State() == ExpandDirection(isWalkable, Cell(endX, endZ), old(State()), curr, k)
    {
      hide H.Inverse, OfferNeighbor, H.WellFormed;
      var m := Neighbor(k);
      var nx := ToInt32(cache[curr].x + m.dx);
      var nz := ToInt32(cache[curr].z + m.dz);
      if nx < MIN_COORD || nx > MAX_COORD || nz < MIN_COORD || nz > MAX_COORD {
        return;
      }
      if m.dx != 0 && m.dz != 0 {
        if !isWalkable(cache[curr].x + m.dx, cache[curr].z) || !isWalkable(cache[curr].x, cache[curr].z + m.dz) {
          return;
        }
      }
      if !isWalkable(nx, nz) {
        return;
      }
      OfferNeighborAt(endX, endZ, curr, nx, nz, cache[curr].g + m.cost);
    }

    method ExpandNeighbors(isWalkable: Walkable, endX: int, endZ: int, curr: int)
      requires Valid() && H.WellFormed(State()) && 0 <= curr < nodeCount
      modifies this`nodeCount, openList, openList.nodes, openList.indices, cache
      ensures Valid() && State() == ExpandFrom(isWalkable, Cell(endX, endZ), old(State()), curr, 0)
    {
      hide H.Inverse, ExpandDirection, H.WellFormed;
      ghost var goal := Cell(endX, endZ);
      for k := 0 to 8
        invariant Valid() && H.WellFormed(State()) && curr < nodeCount
        invariant ExpandFrom(isWalkable, goal, State(), curr, k) == ExpandFrom(isWalkable, goal, old(State()), curr, 0)
      {
        TryDirection(isWalkable, endX, endZ, curr, k);
      }
    }

    /** Walks the parents back from endIdx and reverses them. The branch for an over-long path is kept; it is
        never taken. */
    method ReconstructPath(endIdx: int) returns (result: PathResult)
      requires Valid() && 0 <= endIdx < nodeCount && Rooted(cache[..nodeCount])
      requires |Chain(cache[..nodeCount], endIdx)| <= H.MAX_PATH_NODES
      modifies pathBuf
      ensures result == PathResult(true, CellsAt(cache[..nodeCount], Chain(cache[..nodeCount], endIdx)))
    {
      hide Chain, Rooted;
      ghost var c := cache[..nodeCount];
      ghost var chain := Chain(c, endIdx);
      var length := 0;
      var idx := endIdx;
      while idx >= 0
        invariant 0 <= length <= |chain| && idx < nodeCount && cache[..nodeCount] == c
        invariant idx < 0 ==> length == |chain|
        invariant idx >= 0 ==> length < |chain| && Chain(c, idx) == chain[..|chain| - length]
        invariant forall k :: 0 <= k < length ==> pathBuf[k] == chain[|chain| - 1 - k]
        decreases |chain| - length
      {
        length := length + 1;
        if length > H.MAX_PATH_NODES {
          length := H.MAX_PATH_NODES;
          break;
        }
        ChainStep(c, idx);
        pathBuf[length - 1] := idx;
        idx := cache[idx].parent;
      }
      var points := [];
      for i := 0 to length
        invariant |points| == i && forall k :: 0 <= k < i ==> points[k] == CellOf(c[chain[k]])
      {
        var nodeIdx := pathBuf[length - 1 - i];
        points := points + [Cell(cache[nodeIdx].x, cache[nodeIdx].z)];
      }
      result := PathResult(true, points);
    }

    /** Puts the start node, alone, in the open set. Its G is whatever the slot held: 0, as the start node of
        every earlier search had it too. */
    method AddStart(startX: int, startZ: int, endX: int, endZ: int)
      requires Valid() && nodeCount == 0 && openList.Contents() == EmptyHeap() && cache[0].g == 0
      modifies this`nodeCount, openList, openList.nodes, openList.indices, cache
      ensures Valid() && State() == Initial(Cell(startX, startZ), Cell(endX, endZ))
    {
      hide HeuristicOctile, H.Push;
      var startIdx := AllocNode(startX, startZ);
      cache[startIdx] := cache[startIdx].(h := HeuristicOctile(Cell(startX, startZ), Cell(endX, endZ)));
      ghost var n := FreshNode(Cell(startX, startZ)).(h := cache[0].h);
      assert State() == H.State([n], EmptyHeap());
      openList.Push(cache, startIdx, nodeCount);
    }

    /** Takes the best node out of the open set and closes it. */
    method PopAndClose() returns (curr: int)
      requires Valid() && H.WellFormed(State()) && openList.len > 0
      modifies openList, openList.nodes, openList.indices, cache
      ensures Valid() && 0 <= curr < nodeCount
      ensures curr == H.Pop(old(State())).1 && State() == Close(H.Pop(old(State())).0, curr)
    {
      hide H.Inverse, H.Pop;
      ghost var ok;
      curr, ok := openList.Pop(cache, nodeCount);
      cache[curr] := cache[curr].(closed := true);
    }

    /** The main loop: pop, close, test, expand. Returns the goal's node, or -1. */
    method RunLoop(isWalkable: Walkable, endX: int, endZ: int, limit: nat) returns (at: int)
      requires Valid() && H.WellFormed(State())
      modifies this`nodeCount, openList, openList.nodes, openList.indices, cache
      ensures Valid()
      ensures var r := Search(isWalkable, Cell(endX, endZ), old(State()), limit);
        State() == r.s && at == if r.Reached? then r.at else -1
    {
      hide H.WellFormed, H.Pop, ExpandFrom, Search, Close, Iterate;
      ghost var goal := Cell(endX, endZ);
      var expanded := 0;
      while openList.len > 0
        invariant Valid() && H.WellFormed(State()) && expanded <= limit
        invariant Search(isWalkable, goal, State(), limit - expanded) == Search(isWalkable, goal, old(State()), limit)
        decreases limit - expanded
      {
        SearchNext(isWalkable, goal, State(), limit - expanded);
        var curr := PopAndClose();
        expanded := expanded + 1;
        if expanded > limit {
          return -1;
        }
        if cache[curr].x == endX && cache[curr].z == endZ {
          return curr;
        }
        ExpandNeighbors(isWalkable, endX, endZ, curr);
      }
      SearchEmpty(isWalkable, goal, State(), limit - expanded);
      return -1;
    }

    /** The search proper, from a cleared cache. Returns the goal's node, or -1. */
    method RunFrom(sx: int, sz: int, ex: int, ez: int, isWalkable: Walkable, maxNodes: int) returns (at: int)
      requires Valid() && cache[0].g == 0
      modifies this, openList, openList.nodes, openList.indices, cache
      ensures Valid()
      ensures var r := RunSearch(isWalkable, sx, sz, ex, ez, maxNodes);
        State() == r.s && at == if r.Reached? then r.at else -1
    {
      hide H.WellFormed, Search, Initial, HeuristicOctile;
      var limit := if maxNodes <= 0 || maxNodes > H.MAX_PATH_NODES then H.MAX_PATH_NODES else maxNodes;
      Reset();
      var startX, startZ, endX, endZ := ToInt32(sx), ToInt32(sz), ToInt32(ex), ToInt32(ez);
      AddStart(startX, startZ, endX, endZ);
      at := RunLoop(isWalkable, endX, endZ, limit);
    }

    /** The pathfinder. `searched` tells whether the early returns were passed. */
    method FindPath(sx: int, sz: int, ex: int, ez: int, isWalkable: Walkable, maxNodes: int)
        returns (result: PathResult, ghost searched: bool)
      requires Valid() && cache[0].g == 0
      modifies this, openList, openList.nodes, openList.indices, cache, pathBuf
      ensures Valid() && cache[0].g == 0
      ensures result == Pathfinding.FindPath(isWalkable, sx, sz, ex, ez, maxNodes)
      ensures searched <==> !(sx == ex && sz == ez) && isWalkable(sx, sz) && isWalkable(ex, ez)
      ensures searched ==> nodeCount == |RunSearch(isWalkable, sx, sz, ex, ez, maxNodes).s.c|
    {
      hide RunSearch, H.WellFormed, Chain, Rooted, Tree, Distinct;
      searched := false;
      if sx == ex && sz == ez {
        return PathResult(true, [Cell(sx, sz)]), searched;
      }
      if !isWalkable(sx, sz) || !isWalkable(ex, ez) {
        return NOT_FOUND, searched;
      }
      searched := true;
      var at := RunFrom(sx, sz, ex, ez, isWalkable, maxNodes);
      ghost var r := RunSearch(isWalkable, sx, sz, ex, ez, maxNodes);
      RunSearchReportable(isWalkable, sx, sz, ex, ez, maxNodes);
      assert cache[0] == r.s.c[0];
      if at < 0 {
        return NOT_FOUND, searched;
      }
      result := ReconstructPath(at);
    }
  }

  /** A call with a fresh PathCache: the global node array may hold anything an earlier search left. */
  method FindPathFresh(globalCache: array<Node>, sx: int, sz: int, ex: int, ez: int, isWalkable: Walkable, maxNodes: int)
      returns (result: PathResult)
    requires globalCache.Length == H.MAX_PATH_NODES && globalCache[0].g == 0
    modifies globalCache
    ensures globalCache[0].g == 0
    ensures result == Pathfinding.FindPath(isWalkable, sx, sz, ex, ez, maxNodes)
  {
    var pc := new PathCache(globalCache);
    ghost var searched;
    result, searched := pc.FindPath(sx, sz, ex, ez, isWalkable, maxNodes);
  }

  /** A call with a PathCache kept from earlier calls. */
  method FindPathWithCache(pc: PathCache, sx: int, sz: int, ex: int, ez: int, isWalkable: Walkable, maxNodes: int)
      returns (result: PathResult)
    requires pc.Valid() && pc.cache[0].g == 0
    modifies pc, pc.openList, pc.openList.nodes, pc.openList.indices, pc.cache, pc.pathBuf
    ensures pc.Valid() && pc.cache[0].g == 0
    ensures result == Pathfinding.FindPath(isWalkable, sx, sz, ex, ez, maxNodes)
  {
    pc.Reset();
    ghost var searched;
    result, searched := pc.FindPath(sx, sz, ex, ez, isWalkable, maxNodes);
  }
}
