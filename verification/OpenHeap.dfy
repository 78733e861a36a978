/** The search's open set: a binary heap of node indices ordered by (F, H), with the map from node to heap
    position kept beside it.

    The functions here are the specification of the array code in `PathFinder`: they say what `push`, `pop`,
    `fix`, `up` and `down` do to the heap and the nodes. The lemmas prove that they form a priority queue. */
module OpenHeap {
  import opened Counting
  import opened HeapShape

  const MAX_PATH_NODES: int := 512
  const MAX_OPEN_SET: int := 2048

  datatype Node = Node(x: int, z: int, g: int, h: int, parent: int, closed: bool, open: bool)

  /** `pos[i]` is the place of node i in `nodes`, or -1. */
  datatype Heap = Heap(nodes: seq<int>, pos: seq<int>)

  /** The allocated nodes of the path cache together with the open set. */
  datatype State = State(c: seq<Node>, hp: Heap)

  // ---------- Order ----------

  predicate KeyLess(a: Node, b: Node) {
    if a.g + a.h != b.g + b.h then a.g + a.h < b.g + b.h else a.h < b.h
  }

  /** `nodes` and `pos` are mutually inverse, and every member is an allocated node. */
  ghost predicate Inverse(hp: Heap, n: nat) {
    && n <= MAX_PATH_NODES == |hp.pos|
    && (forall k :: 0 <= k < |hp.nodes| ==> 0 <= hp.nodes[k] < n && hp.pos[hp.nodes[k]] == k)
    && (forall i :: 0 <= i < |hp.pos| && hp.pos[i] != -1 ==>
          0 <= hp.pos[i] < |hp.nodes| && hp.nodes[hp.pos[i]] == i)
  }

  predicate Less(c: seq<Node>, hp: Heap, i: int, j: int)
    requires Inverse(hp, |c|)
    requires 0 <= i < |hp.nodes| && 0 <= j < |hp.nodes|
  {
    KeyLess(c[hp.nodes[i]], c[hp.nodes[j]])
  }

  ghost predicate InOrder(c: seq<Node>, hp: Heap, k: int)
    requires Inverse(hp, |c|) && 0 < k < |hp.nodes|
  {
    !Less(c, hp, k, Parent(k))
  }

  ghost predicate Ordered(c: seq<Node>, hp: Heap)
    requires Inverse(hp, |c|)
  {
    forall k :: 0 < k < |hp.nodes| ==> InOrder(c, hp, k)
  }

  /** The same nodes are members. */
  ghost predicate SameMembers(a: Heap, b: Heap) {
    && |a.nodes| == |b.nodes| && |a.pos| == |b.pos|
    && forall i :: 0 <= i < |a.pos| ==> (a.pos[i] == -1 <==> b.pos[i] == -1)
  }

  // ---------- Sifting ----------

  function Swap(hp: Heap, i: int, j: int, ghost n: nat): (r: Heap)
    requires Inverse(hp, n)
    requires 0 <= i < |hp.nodes| && 0 <= j < |hp.nodes| && i != j
    ensures Inverse(r, n) && SameMembers(hp, r)
    ensures r.nodes == hp.nodes[i := hp.nodes[j]][j := hp.nodes[i]]
  {
    Heap(hp.nodes[i := hp.nodes[j]][j := hp.nodes[i]],
         hp.pos[hp.nodes[j] := i][hp.nodes[i] := j])
  }

  function Up(c: seq<Node>, hp: Heap, p: int): (r: Heap)
    requires Inverse(hp, |c|) && 0 <= p < |hp.nodes|
    ensures Inverse(r, |c|) && SameMembers(hp, r)
    decreases p
  {
    if p == 0 || !Less(c, hp, p, Parent(p)) then hp
    else Up(c, Swap(hp, p, Parent(p), |c|), Parent(p))
  }

  function SmallestChild(c: seq<Node>, hp: Heap, p: int): (s: int)
    requires Inverse(hp, |c|) && 0 <= p && 2 * p + 1 < |hp.nodes|
    ensures p < s < |hp.nodes| && Parent(s) == p
  {
    var left := 2 * p + 1;
    if left + 1 < |hp.nodes| && Less(c, hp, left + 1, left) then left + 1 else left
  }

  function Down(c: seq<Node>, hp: Heap, p: int): (r: Heap)
    requires Inverse(hp, |c|) && 0 <= p
    ensures Inverse(r, |c|) && SameMembers(hp, r)
    decreases |hp.nodes| - p
  {
    if 2 * p + 1 >= |hp.nodes| then hp
    else
      var s := SmallestChild(c, hp, p);
      if Less(c, hp, p, s) then hp else Down(c, Swap(hp, p, s, |c|), s)
  }

  ghost predicate UpInvariant(c: seq<Node>, hp: Heap, p: int)
    requires Inverse(hp, |c|) && 0 <= p
  {
    && (forall k :: 0 < k < |hp.nodes| && k != p ==> InOrder(c, hp, k))
    && (forall k :: 0 < p < k < |hp.nodes| && Parent(k) == p ==> !Less(c, hp, k, Parent(p)))
  }

  /** The children of the place p's parent moves up from are in order with its grandparent. */
  lemma UpStepBelow(c: seq<Node>, hp: Heap, p: int, k: int)
    requires Inverse(hp, |c|) && 0 < p < |hp.nodes|
    requires UpInvariant(c, hp, p) && Less(c, hp, p, Parent(p))
    requires 0 < Parent(p) < k < |hp.nodes| && Parent(k) == Parent(p)
    ensures !Less(c, Swap(hp, p, Parent(p), |c|), k, Parent(Parent(p)))
  {
    assert InOrder(c, hp, Parent(p));
    assert k == p || InOrder(c, hp, k);
  }

  /** Swapping p with the parent it beats moves the only fault one level up. */
  lemma UpStep(c: seq<Node>, hp: Heap, p: int)
    requires Inverse(hp, |c|) && 0 < p < |hp.nodes|
    requires UpInvariant(c, hp, p) && Less(c, hp, p, Parent(p))
    ensures UpInvariant(c, Swap(hp, p, Parent(p), |c|), Parent(p))
  {
    var q := Parent(p);
    var hp' := Swap(hp, p, q, |c|);
    forall k | 0 < k < |hp'.nodes| && k != q ensures InOrder(c, hp', k) {
      if k != p {
        assert InOrder(c, hp, k);
      }
    }
    forall k | 0 < q < k < |hp'.nodes| && Parent(k) == q ensures !Less(c, hp', k, Parent(q)) {
      UpStepBelow(c, hp, p, k);
    }
  }

  /** Sifting up from p repairs a heap whose only fault is that p may beat its parent. */
  lemma {:induction false} UpRestores(c: seq<Node>, hp: Heap, p: int)
    requires Inverse(hp, |c|) && 0 <= p < |hp.nodes|
    requires UpInvariant(c, hp, p)
    ensures Ordered(c, Up(c, hp, p))
    decreases p
  {
    if p > 0 {
      if Less(c, hp, p, Parent(p)) {
        UpStep(c, hp, p);
        UpRestores(c, Swap(hp, p, Parent(p), |c|), Parent(p));
      } else {
        assert InOrder(c, hp, p);
      }
    }
  }

  ghost predicate DownInvariant(c: seq<Node>, hp: Heap, p: int)
    requires Inverse(hp, |c|) && 0 <= p
  {
    && (forall k :: 0 < k < |hp.nodes| && Parent(k) != p ==> InOrder(c, hp, k))
    && (forall k :: 0 < p < k < |hp.nodes| && Parent(k) == p ==> !Less(c, hp, k, Parent(p)))
  }

  lemma SmallestChildBeatsNone(c: seq<Node>, hp: Heap, p: int, k: int)
    requires Inverse(hp, |c|) && 0 <= p && 2 * p + 1 < |hp.nodes|
    requires 0 < k < |hp.nodes| && Parent(k) == p
    ensures !Less(c, hp, k, SmallestChild(c, hp, p))
  {
    assert k == 2 * p + 1 || k == 2 * p + 2;
  }

  /** Swapping p with its smallest child moves the only fault one level down. */
  lemma DownStep(c: seq<Node>, hp: Heap, p: int, s: int)
    requires Inverse(hp, |c|) && 0 <= p && 2 * p + 1 < |hp.nodes|
    requires DownInvariant(c, hp, p)
    requires s == SmallestChild(c, hp, p) && !Less(c, hp, p, s)
    ensures DownInvariant(c, Swap(hp, p, s, |c|), s)
  {
    var hp' := Swap(hp, p, s, |c|);
    forall k | 0 < k < |hp'.nodes| && Parent(k) != s ensures InOrder(c, hp', k) {
      if k == p {
        assert !Less(c, hp, s, Parent(p));
      } else if Parent(k) == p {
        SmallestChildBeatsNone(c, hp, p, k);
      } else {
        assert InOrder(c, hp, k);
      }
    }
    forall k | 0 < s < k < |hp'.nodes| && Parent(k) == s ensures !Less(c, hp', k, Parent(s)) {
      assert InOrder(c, hp, k);
    }
  }

  /** Sifting down from p repairs a heap whose only fault is that p may lose to its children. */
  lemma {:induction false} DownRestores(c: seq<Node>, hp: Heap, p: int)
    requires Inverse(hp, |c|) && 0 <= p
    requires DownInvariant(c, hp, p)
    ensures Ordered(c, Down(c, hp, p))
    decreases |hp.nodes| - p
  {
    if 2 * p + 1 >= |hp.nodes| {
    } else {
      var s := SmallestChild(c, hp, p);
      if Less(c, hp, p, s) {
        forall k | 0 < k < |hp.nodes| ensures InOrder(c, hp, k) {
          if Parent(k) == p {
            SmallestChildBeatsNone(c, hp, p, k);
          }
        }
      } else {
        DownStep(c, hp, p, s);
        DownRestores(c, Swap(hp, p, s, |c|), s);
      }
    }
  }

  /** In an ordered heap no member beats the root. */
  lemma {:induction false} RootIsMinimum(c: seq<Node>, hp: Heap, k: int)
    requires Inverse(hp, |c|) && Ordered(c, hp) && 0 <= k < |hp.nodes|
    ensures !Less(c, hp, k, 0)
  {
    if k > 0 {
      RootIsMinimum(c, hp, Parent(k));
      assert InOrder(c, hp, k);
    }
  }

  // ---------- The queue ----------

  /** The structural part: `Open` holds exactly for the members. */
  ghost predicate WellFormed(s: State) {
    && Inverse(s.hp, |s.c|)
    && forall i :: 0 <= i < |s.c| ==> (s.c[i].open <==> s.hp.pos[i] != -1)
  }

  ghost predicate IsQueue(s: State) {
    WellFormed(s) && Ordered(s.c, s.hp)
  }

  lemma PlaceBounded(hp: Heap, n: nat, i: int)
    requires Inverse(hp, n) && 0 <= i < n && hp.pos[i] >= 0
    ensures hp.pos[i] < |hp.nodes|
  {
  }

  /** A member's place exists, so the heap is never longer than the cache. */
  lemma HeapBounded(hp: Heap, n: nat)
    requires Inverse(hp, n)
    ensures |hp.nodes| <= n
  {
    forall i, j | 0 <= i < j < |hp.nodes| ensures hp.nodes[i] != hp.nodes[j] {
      assert hp.pos[hp.nodes[i]] == i && hp.pos[hp.nodes[j]] == j;
    }
    DistinctBounded(hp.nodes, n);
  }

  /** The heap with one more member in its last place, before sifting. */
  function Append(hp: Heap, idx: int, ghost n: nat): (r: Heap)
    requires Inverse(hp, n) && 0 <= idx < n && hp.pos[idx] == -1
    ensures Inverse(r, n) && |r.nodes| == |hp.nodes| + 1
    ensures forall i :: 0 <= i < |r.pos| ==> (r.pos[i] == -1 <==> hp.pos[i] == -1 && i != idx)
  {
    Heap(hp.nodes + [idx], hp.pos[idx := |hp.nodes|])
  }

  function Push(s: State, idx: int): (r: State)
    requires WellFormed(s) && 0 <= idx < |s.c|
    ensures WellFormed(r) && r.c == s.c[idx := s.c[idx].(open := true)]
  {
    if s.c[idx].open then s
    else
      var c := s.c[idx := s.c[idx].(open := true)];
      State(c, Up(c, Append(s.hp, idx, |c|), |s.hp.nodes|))
  }

  /** The heap with its root taken out and its last member in the root's place, before sifting. */
  function TakeRoot(hp: Heap, ghost n: nat): (r: Heap)
    requires Inverse(hp, n) && |hp.nodes| > 0
    ensures Inverse(r, n) && |r.nodes| == |hp.nodes| - 1
    ensures forall i :: 0 <= i < |r.pos| ==> (r.pos[i] == -1 <==> hp.pos[i] == -1 || i == hp.nodes[0])
  {
    var len := |hp.nodes| - 1;
    if len == 0 then Heap([], hp.pos[hp.nodes[0] := -1])
    else Heap(hp.nodes[..len][0 := hp.nodes[len]], hp.pos[hp.nodes[len] := 0][hp.nodes[0] := -1])
  }

  function Pop(s: State): (r: (State, int))
    requires WellFormed(s) && |s.hp.nodes| > 0
    ensures WellFormed(r.0) && 0 <= r.1 < |s.c|
    ensures s.c[r.1].open && r.0.c == s.c[r.1 := s.c[r.1].(open := false)]
  {
    var idx := s.hp.nodes[0];
    var c := s.c[idx := s.c[idx].(open := false)];
    (State(c, Down(c, TakeRoot(s.hp, |c|), 0)), idx)
  }

  function Fix(c: seq<Node>, hp: Heap, p: int): (r: Heap)
    requires Inverse(hp, |c|) && 0 <= p < |hp.nodes|
    ensures Inverse(r, |c|) && SameMembers(hp, r)
  {
    Down(c, Up(c, hp, p), p)
  }

  /** Pushing keeps the queue and adds exactly the pushed node. */
  lemma PushKeepsQueue(s: State, idx: int)
    requires IsQueue(s) && 0 <= idx < |s.c|
    ensures IsQueue(Push(s, idx))
  {
    if !s.c[idx].open {
      var c := s.c[idx := s.c[idx].(open := true)];
      var hp := Append(s.hp, idx, |c|);
      forall k | 0 < k < |s.hp.nodes| ensures InOrder(c, hp, k) {
        assert InOrder(s.c, s.hp, k);
      }
      UpRestores(c, hp, |s.hp.nodes|);
    }
  }

  /** Popping keeps the queue and returns a member that no other member beats. */
  lemma PopIsMinimum(s: State)
    requires IsQueue(s) && |s.hp.nodes| > 0
    ensures IsQueue(Pop(s).0)
    ensures forall j :: 0 <= j < |s.c| && s.c[j].open ==> !KeyLess(s.c[j], s.c[Pop(s).1])
  {
    forall j | 0 <= j < |s.c| && s.c[j].open ensures !KeyLess(s.c[j], s.c[s.hp.nodes[0]]) {
      RootIsMinimum(s.c, s.hp, s.hp.pos[j]);
    }
    var idx := s.hp.nodes[0];
    var c := s.c[idx := s.c[idx].(open := false)];
    var hp := TakeRoot(s.hp, |c|);
    forall k | 0 < k < |hp.nodes| && Parent(k) != 0 ensures InOrder(c, hp, k) {
      assert InOrder(s.c, s.hp, k);
    }
    DownRestores(c, hp, 0);
  }

  /** In figures: no member has a smaller F = G + H than the one popped, nor the same F with a smaller H. */
  lemma PopIsCheapest(s: State, j: int)
    requires IsQueue(s) && |s.hp.nodes| > 0 && 0 <= j < |s.c| && s.c[j].open
    ensures var n := s.c[Pop(s).1];
      n.g + n.h <= s.c[j].g + s.c[j].h && (n.g + n.h == s.c[j].g + s.c[j].h ==> n.h <= s.c[j].h)
  {
    hide Pop, Ordered;
    PopIsMinimum(s);
  }

  lemma LoweringBreaksUpward(c: seq<Node>, d: seq<Node>, hp: Heap, p: int)
    requires |c| == |d| && Inverse(hp, |c|) && Ordered(c, hp) && 0 <= p < |hp.nodes|
    requires forall i :: 0 <= i < |c| && i != hp.nodes[p] ==> c[i].g == d[i].g && c[i].h == d[i].h
    requires !KeyLess(c[hp.nodes[p]], d[hp.nodes[p]])
    ensures UpInvariant(d, hp, p)
  {
    forall k | 0 < k < |hp.nodes| && k != p ensures InOrder(d, hp, k) {
      assert InOrder(c, hp, k);
    }
    forall k | 0 < p < k < |hp.nodes| && Parent(k) == p ensures !Less(d, hp, k, Parent(p)) {
      assert InOrder(c, hp, k) && InOrder(c, hp, p);
    }
  }

  lemma OrderedMeansDownInvariant(c: seq<Node>, hp: Heap, p: int)
    requires Inverse(hp, |c|) && Ordered(c, hp) && 0 <= p
    ensures DownInvariant(c, hp, p)
  {
    forall k | 0 < p < k < |hp.nodes| && Parent(k) == p ensures !Less(c, hp, k, Parent(p)) {
      assert InOrder(c, hp, k) && InOrder(c, hp, p);
    }
  }

  /** Lowering one member's key and calling `fix` at its place gives back an ordered heap. */
  lemma FixAfterLowering(c: seq<Node>, d: seq<Node>, hp: Heap, p: int)
    requires |c| == |d| && Inverse(hp, |c|) && Ordered(c, hp) && 0 <= p < |hp.nodes|
    requires forall i :: 0 <= i < |c| && i != hp.nodes[p] ==> c[i].g == d[i].g && c[i].h == d[i].h
    requires !KeyLess(c[hp.nodes[p]], d[hp.nodes[p]])
    ensures Ordered(d, Fix(d, hp, p))
  {
    hide Ordered, UpInvariant, DownInvariant, Up, Down;
    LoweringBreaksUpward(c, d, hp, p);
    UpRestores(d, hp, p);
    OrderedMeansDownInvariant(d, Up(d, hp, p), p);
    DownRestores(d, Up(d, hp, p), p);
  }
}
