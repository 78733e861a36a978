/** The skill tree: registering skills, checking whether one can be learnt, and the depth-first collection of a
    skill's prerequisites. Nothing keeps the graph acyclic, so the collection is proved on any graph. */
module SkillGraph {
  import opened Counting

  datatype Skill = Skill(id: int, requiredLevel: int, prerequisites: seq<int>, children: seq<int>)

  type Graph = map<int, Skill>

  datatype Error = DuplicateSkill | SkillNotFound | LevelTooLow | MissingPrerequisite

  datatype Outcome = Ok | Refused(error: Error)

  // ---------- The collection as a function ----------

  /** The skills entered so far, and those finished, in the order they finished. */
  datatype Walk = Walk(visited: set<int>, result: seq<int>)

  function Visit(g: Graph, id: int, w: Walk): (r: Walk)
    ensures w.visited <= r.visited
    decreases g.Keys - w.visited, 0, 0
  {
    if id in w.visited || id !in g then w
    else
      var inner := VisitAll(g, g[id].prerequisites, Walk(w.visited + {id}, w.result));
      Walk(inner.visited, inner.result + [id])
  }

  function VisitAll(g: Graph, ids: seq<int>, w: Walk): (r: Walk)
    ensures w.visited <= r.visited
    decreases g.Keys - w.visited, 1, |ids|
  {
    if |ids| == 0 then w else VisitAll(g, ids[1..], Visit(g, ids[0], w))
  }

  function Chain(g: Graph, id: int): seq<int> {
    Visit(g, id, Walk({}, [])).result
  }

  // ---------- Paths through registered skills ----------

  predicate Edge(g: Graph, a: int, b: int) {
    a in g && b in g && b in g[a].prerequisites
  }

  ghost predicate IsPath(g: Graph, p: seq<int>) {
    && |p| > 0 && p[0] in g
    && forall i :: 0 <= i < |p| - 1 ==> Edge(g, p[i], p[i + 1])
  }

  ghost predicate PathFromTo(g: Graph, p: seq<int>, a: int, b: int) {
    IsPath(g, p) && p[0] == a && p[|p| - 1] == b
  }

  ghost predicate Reaches(g: Graph, a: int, b: int) {
    exists p :: PathFromTo(g, p, a, b)
  }

  /** By at least one step. */
  ghost predicate Above(g: Graph, a: int, b: int) {
    exists p :: PathFromTo(g, p, a, b) && |p| > 1
  }

  ghost predicate AcyclicFrom(g: Graph, root: int) {
    forall x :: Reaches(g, root, x) ==> !Above(g, x, x)
  }

  lemma ReachesSelf(g: Graph, a: int)
    requires a in g
    ensures Reaches(g, a, a)
  {
    assert PathFromTo(g, [a], a, a);
  }

  lemma ReachesThenEdge(g: Graph, a: int, b: int, c: int)
    requires Edge(g, b, c)
    ensures Reaches(g, a, b) ==> Reaches(g, a, c) && Above(g, a, c)
  {
    if p :| PathFromTo(g, p, a, b) {
      assert PathFromTo(g, p + [c], a, c);
    }
  }

  lemma AboveReaches(g: Graph, a: int, b: int)
    ensures Above(g, a, b) ==> Reaches(g, a, b)
  {
  }

  // ---------- What one visit adds ----------

  /** Finished skills were entered, each once. */
  ghost predicate Consistent(w: Walk) {
    Distinct(w.result) && forall x :: x in w.result ==> x in w.visited
  }

  /** From w to r: only registered skills reached from one of `from` were entered, all of them were finished
      after what was finished before, and everything they require was entered. */
  ghost predicate Extends(g: Graph, from: seq<int>, w: Walk, r: Walk) {
    && Consistent(r) && w.visited <= r.visited
    && w.result <= r.result
    && (forall x :: x in r.visited && x !in w.visited ==> x in r.result)
    && (forall x :: x in r.result && x !in w.result ==> x !in w.visited)
    && (forall x :: x in r.result && x !in w.result ==> ReachedFrom(g, from, x))
    && (forall x, y :: x in r.result && x !in w.result && Edge(g, x, y) ==> y in r.visited)
  }

  ghost predicate ReachedFrom(g: Graph, from: seq<int>, x: int) {
    exists i :: 0 <= i < |from| && Reaches(g, from[i], x)
  }

  lemma {:induction false} VisitExtends(g: Graph, id: int, w: Walk)
    requires Consistent(w)
    ensures Extends(g, [id], w, Visit(g, id, w))
    ensures id in g ==> id in Visit(g, id, w).visited
    decreases g.Keys - w.visited, 0, 0
  {
    hide Reaches, Distinct;
    if id !in w.visited && id in g {
      var before := Walk(w.visited + {id}, w.result);
      var inner := VisitAll(g, g[id].prerequisites, before);
      VisitAllExtends(g, g[id].prerequisites, before);
      var r := Visit(g, id, w);
      AppendKeepsDistinct(inner.result, id);
      forall x | x in r.result && x !in w.result ensures ReachedFrom(g, [id], x) {
        if x == id {
          ReachesSelf(g, id);
          assert Reaches(g, [id][0], x);
        } else {
          var i :| 0 <= i < |g[id].prerequisites| && Reaches(g, g[id].prerequisites[i], x);
          EdgeThenReaches(g, id, g[id].prerequisites[i], x);
          assert Reaches(g, [id][0], x);
        }
      }
    }
  }

  lemma AppendKeepsDistinct(s: seq<int>, id: int)
    requires Distinct(s) && id !in s
    ensures Distinct(s + [id])
  {
  }

  lemma EdgeThenReaches(g: Graph, a: int, b: int, c: int)
    requires a in g && b in g[a].prerequisites && Reaches(g, b, c)
    ensures Reaches(g, a, c)
  {
    var p :| PathFromTo(g, p, b, c);
    var q := [a] + p;
    forall i | 0 <= i < |q| - 1 ensures Edge(g, q[i], q[i + 1]) {
      if i > 0 {
        assert Edge(g, p[i - 1], p[i - 1 + 1]);
      }
    }
    assert PathFromTo(g, q, a, c);
  }

  lemma {:induction false} VisitAllExtends(g: Graph, ids: seq<int>, w: Walk)
    requires Consistent(w)
    ensures Extends(g, ids, w, VisitAll(g, ids, w))
    ensures forall y :: y in ids && y in g ==> y in VisitAll(g, ids, w).visited
    decreases g.Keys - w.visited, 1, |ids|
  {
    hide Reaches, Distinct;
    if |ids| > 0 {
      var mid := Visit(g, ids[0], w);
      VisitExtends(g, ids[0], w);
      VisitAllExtends(g, ids[1..], mid);
      var r := VisitAll(g, ids, w);
      forall x | x in r.result && x !in w.result ensures ReachedFrom(g, ids, x) {
        if x in mid.result {
          assert Reaches(g, ids[0], x);
        } else {
          var i :| 0 <= i < |ids[1..]| && Reaches(g, ids[1..][i], x);
          assert Reaches(g, ids[i + 1], x);
        }
      }
    }
  }

  /** The chain holds each registered skill reachable from the given one exactly once, and nothing else, on any
      graph. */
  lemma ChainIsReachable(g: Graph, id: int)
    ensures Distinct(Chain(g, id))
    ensures forall x :: x in Chain(g, id) <==> Reaches(g, id, x)
  {
    VisitExtends(g, id, Walk({}, []));
    var r := Visit(g, id, Walk({}, []));
    forall x ensures x in Chain(g, id) <==> Reaches(g, id, x) {
      if p :| PathFromTo(g, p, id, x) {
        ClosedUnderPaths(g, r.result, p, |p| - 1);
      }
    }
  }

  lemma {:induction false} ClosedUnderPaths(g: Graph, s: seq<int>, p: seq<int>, k: nat)
    requires IsPath(g, p) && k < |p| && p[0] in s
    requires forall x, y :: x in s && Edge(g, x, y) ==> y in s
    ensures p[k] in s
  {
    if k > 0 {
      ClosedUnderPaths(g, s, p, k - 1);
      assert Edge(g, p[k - 1], p[k - 1 + 1]);
    }
  }

  // ---------- Order ----------

  /** Every registered prerequisite stands before the skill that requires it. */
  ghost predicate Ordered(g: Graph, s: seq<int>) {
    forall i, y :: 0 <= i < |s| && Edge(g, s[i], y) ==> y in s[..i]
  }

  /** Skills entered but not finished: those on the recursion stack. */
  ghost predicate Open(w: Walk, x: int) {
    x in w.visited && x !in w.result
  }

  /** Every open skill is above id, as the recursion stack is. */
  ghost predicate StackAbove(g: Graph, w: Walk, id: int) {
    forall x :: Open(w, x) ==> Above(g, x, id)
  }

  lemma {:induction false} VisitOrdered(g: Graph, root: int, id: int, w: Walk)
    requires Consistent(w) && Ordered(g, w.result) && AcyclicFrom(g, root)
    requires id in g ==> Reaches(g, root, id) && StackAbove(g, w, id)
    ensures Ordered(g, Visit(g, id, w).result)
    decreases g.Keys - w.visited, 0, 0
  {
    hide Reaches, Above, Ordered, Distinct;
    if id !in w.visited && id in g {
      var before := Walk(w.visited + {id}, w.result);
      var ids := g[id].prerequisites;
      forall y | y in ids && y in g ensures Reaches(g, root, y) && StackAbove(g, before, y) {
        StackStaysAbove(g, root, id, y, w);
      }
      VisitAllOrdered(g, root, ids, before);
      var inner := VisitAll(g, ids, before);
      VisitAllExtends(g, ids, before);
      forall y | Edge(g, id, y) ensures y in inner.result {
        assert Reaches(g, root, y) && !Above(g, y, y);
        assert !Open(before, y);
      }
      OrderedAppend(g, inner.result, id);
    }
  }

  lemma StackStaysAbove(g: Graph, root: int, id: int, y: int, w: Walk)
    requires Edge(g, id, y) && Reaches(g, root, id) && StackAbove(g, w, id)
    ensures Reaches(g, root, y) && StackAbove(g, Walk(w.visited + {id}, w.result), y)
  {
    hide Reaches, Above;
    ReachesThenEdge(g, root, id, y);
    ReachesSelf(g, id);
    ReachesThenEdge(g, id, id, y);
    forall x | Open(w, x) ensures Above(g, x, y) {
      AboveReaches(g, x, id);
      ReachesThenEdge(g, x, id, y);
    }
  }

  lemma OrderedAppend(g: Graph, s: seq<int>, id: int)
    requires Ordered(g, s) && forall y :: Edge(g, id, y) ==> y in s
    ensures Ordered(g, s + [id])
  {
    hide Edge;
    forall i, y | 0 <= i < |s + [id]| && Edge(g, (s + [id])[i], y) ensures y in (s + [id])[..i] {
      if i < |s| {
        assert (s + [id])[..i] == s[..i];
      } else {
        assert (s + [id])[..i] == s;
      }
    }
  }

  lemma {:induction false} VisitAllOrdered(g: Graph, root: int, ids: seq<int>, w: Walk)
    requires Consistent(w) && Ordered(g, w.result) && AcyclicFrom(g, root)
    requires forall y :: y in ids && y in g ==> Reaches(g, root, y) && StackAbove(g, w, y)
    ensures Ordered(g, VisitAll(g, ids, w).result)
    decreases g.Keys - w.visited, 1, |ids|
  {
    hide Reaches, Above, Ordered, Distinct;
    if |ids| > 0 {
      VisitOrdered(g, root, ids[0], w);
      VisitExtends(g, ids[0], w);
      var mid := Visit(g, ids[0], w);
      assert forall x :: Open(mid, x) ==> Open(w, x);
      VisitAllOrdered(g, root, ids[1..], mid);
    }
  }

  /** In an ordered sequence a path only leads backwards. */
  lemma {:induction false} PathLeadsBack(g: Graph, s: seq<int>, p: seq<int>, i: nat)
    requires Ordered(g, s) && IsPath(g, p) && |p| > 1 && i < |s| && s[i] == p[0]
    ensures p[|p| - 1] in s[..i]
    decreases |p|
  {
    assert Edge(g, p[0], p[0 + 1]);
    assert p[1] in s[..i];
    var j :| 0 <= j < i && s[j] == p[1];
    if |p| > 2 {
      var q := p[1..];
      forall k | 0 <= k < |q| - 1 ensures Edge(g, q[k], q[k + 1]) {
        assert Edge(g, p[k + 1], p[k + 1 + 1]);
      }
      PathLeadsBack(g, s, q, j);
      var m :| 0 <= m < j && s[m] == p[|p| - 1];
      assert s[..i][m] == p[|p| - 1];
    }
  }

  /** The chain lists prerequisites before their dependents exactly if no cycle is reachable from the skill. */
  lemma ChainOrderedIff(g: Graph, id: int)
    ensures Ordered(g, Chain(g, id)) <==> AcyclicFrom(g, id)
  {
    hide Distinct, Ordered, Chain;
    ChainIsReachable(g, id);
    var s := Chain(g, id);
    if AcyclicFrom(g, id) {
      ChainOrdered(g, id);
    }
    if Ordered(g, s) {
      forall x | Reaches(g, id, x) ensures !Above(g, x, x) {
        if p :| PathFromTo(g, p, x, x) && |p| > 1 {
          var i :| 0 <= i < |s| && s[i] == x;
          PathLeadsBack(g, s, p, i);
          NotBeforeItself(s, i);
        }
      }
    }
  }

  lemma ChainOrdered(g: Graph, id: int)
    requires AcyclicFrom(g, id)
    ensures Ordered(g, Chain(g, id))
  {
    hide AcyclicFrom, Reaches;
    if id in g {
      ReachesSelf(g, id);
    }
    VisitOrdered(g, id, id, Walk({}, []));
  }

  lemma NotBeforeItself(s: seq<int>, i: nat)
    requires Distinct(s) && i < |s|
    ensures s[i] !in s[..i]
  {
  }

  // ---------- Learning ----------

  function LearnOutcome(g: Graph, id: int, known: set<int>, level: int): Outcome {
    if id !in g then Refused(SkillNotFound)
    else if level < g[id].requiredLevel then Refused(LevelTooLow)
    else if exists k :: 0 <= k < |g[id].prerequisites| && g[id].prerequisites[k] !in known then
      Refused(MissingPrerequisite)
    else Ok
  }

  /** When each answer arises, for any set of skills known already: a skill is refused as unknown, else as beyond the
      level, else for a prerequisite not known; and for nothing else, least of all for being known itself. */
  lemma LearnOutcomeIs(g: Graph, id: int, known: set<int>, level: int)
    ensures var r := LearnOutcome(g, id, known, level);
      && (r == Refused(SkillNotFound) <==> id !in g)
      && (r == Refused(LevelTooLow) <==> id in g && g[id].requiredLevel > level)
      && (r == Refused(MissingPrerequisite) <==>
            id in g && g[id].requiredLevel <= level && exists p :: p in g[id].prerequisites && p !in known)
      && (r == Ok <==>
            id in g && g[id].requiredLevel <= level && forall p :: p in g[id].prerequisites ==> p in known)
  {
    if id in g && exists p :: p in g[id].prerequisites && p !in known {
      var p :| p in g[id].prerequisites && p !in known;
      var k :| 0 <= k < |g[id].prerequisites| && g[id].prerequisites[k] == p;
    }
  }

  /** Starting from nothing, the skills can be learnt one after the other in this order. */
  ghost predicate LearnableInOrder(g: Graph, s: seq<int>, level: int) {
    forall i :: 0 <= i < |s| ==> LearnOutcome(g, s[i], Elements(s[..i]), level) == Ok
  }

  /** Everything the skill transitively needs is registered and within the player's level. */
  ghost predicate Attainable(g: Graph, id: int, level: int) {
    forall x :: Reaches(g, id, x) ==>
      x in g && g[x].requiredLevel <= level && forall y :: y in g[x].prerequisites ==> y in g
  }

  /** The chain of a skill can be learnt in order, each step passing the check, exactly if no cycle is
      reachable from it, all it transitively requires is registered, and the level suffices for each. */
  lemma ChainLearnableIff(g: Graph, id: int, level: int)
    ensures LearnableInOrder(g, Chain(g, id), level) <==> AcyclicFrom(g, id) && Attainable(g, id, level)
  {
    hide Chain, Distinct, AcyclicFrom, Reaches;
    ChainIsReachable(g, id);
    ChainOrderedIff(g, id);
    var s := Chain(g, id);
    if LearnableInOrder(g, s, level) {
      forall i, y | 0 <= i < |s| && s[i] in g && y in g[s[i]].prerequisites ensures y in s[..i] {
        assert LearnOutcome(g, s[i], Elements(s[..i]), level) == Ok;
        assert y in Elements(s[..i]);
      }
      forall x | Reaches(g, id, x)
        ensures x in g && g[x].requiredLevel <= level && forall y :: y in g[x].prerequisites ==> y in g
      {
        var i :| 0 <= i < |s| && s[i] == x;
        assert LearnOutcome(g, s[i], Elements(s[..i]), level) == Ok;
        forall y | y in g[x].prerequisites ensures y in g {
          assert y in s[..i];
          ReachedRegistered(g, id, y);
        }
      }
    } else if AcyclicFrom(g, id) && Attainable(g, id, level) {
      forall i | 0 <= i < |s| ensures LearnOutcome(g, s[i], Elements(s[..i]), level) == Ok {
        assert Reaches(g, id, s[i]);
        forall k | 0 <= k < |g[s[i]].prerequisites| ensures g[s[i]].prerequisites[k] in Elements(s[..i]) {
          assert Edge(g, s[i], g[s[i]].prerequisites[k]);
        }
      }
    }
  }

  lemma ReachedRegistered(g: Graph, a: int, b: int)
    ensures Reaches(g, a, b) ==> b in g
  {
    if p :| PathFromTo(g, p, a, b) {
      if |p| > 1 {
        assert Edge(g, p[|p| - 2], p[|p| - 2 + 1]);
      }
    }
  }

  // ---------- Registering ----------

  /** The graph after a skill was added to the children lists of its prerequisites, once for each mention. */
  function Adopted(g: Graph, prerequisites: seq<int>, id: int): (r: Graph)
    ensures r.Keys == g.Keys
  {
    if |prerequisites| == 0 then g
    else
      var r, p := Adopted(g, prerequisites[..|prerequisites| - 1], id), prerequisites[|prerequisites| - 1];
      if p in r then r[p := r[p].(children := r[p].children + [id])] else r
  }

  function Registered(g: Graph, s: Skill): Graph {
    if s.id in g then g else Adopted(g[s.id := s], s.prerequisites, s.id)
  }

  function RegisteredAll(g: Graph, skills: seq<Skill>): Graph {
    if |skills| == 0 then g else Registered(RegisteredAll(g, skills[..|skills| - 1]), skills[|skills| - 1])
  }

  /** Only children lists change, and only those of prerequisites, which gain the skill. */
  lemma {:induction false} AdoptedIs(g: Graph, prerequisites: seq<int>, id: int, x: int)
    requires x in g
    ensures var r := Adopted(g, prerequisites, id);
      r[x] == g[x].(children := r[x].children)
      && forall c :: c in r[x].children <==> c in g[x].children || (c == id && x in prerequisites)
  {
    if |prerequisites| > 0 {
      var init, last := prerequisites[..|prerequisites| - 1], prerequisites[|prerequisites| - 1];
      AdoptedIs(g, init, id, x);
      assert prerequisites == init + [last];
    }
  }

  /** The skill is entered at the end of each list, once for each mention. */
  lemma {:induction false} AdoptedAppends(g: Graph, prerequisites: seq<int>, id: int, x: int)
    requires x in g
    ensures Adopted(g, prerequisites, id)[x].children ==
      g[x].children + seq(multiset(prerequisites)[x], _ => id)
  {
    if |prerequisites| > 0 {
      var init, last := prerequisites[..|prerequisites| - 1], prerequisites[|prerequisites| - 1];
      AdoptedAppends(g, init, id, x);
      assert prerequisites == init + [last];
      var n := multiset(init)[x];
      assert seq(n + 1, _ => id) == seq(n, _ => id) + [id];
      assert (g[x].children + seq(n, _ => id)) + [id] == g[x].children + (seq(n, _ => id) + [id]);
    }
  }

  ghost predicate DistinctIds(skills: seq<Skill>) {
    forall i, j :: 0 <= i < j < |skills| ==> skills[i].id != skills[j].id
  }

  /** Of distinct skills, once registered, the k-th keeps its level and prerequisites, and its children are those
      it came with and every skill that requires it and was not registered before it. */
  lemma {:induction false} ChildrenOfDistinct(skills: seq<Skill>, k: nat, c: int)
    requires DistinctIds(skills) && k < |skills|
    ensures var g, s := RegisteredAll(map[], skills), skills[k];
      s.id in g && g[s.id] == s.(children := g[s.id].children)
      && (c in g[s.id].children <==>
            c in s.children || exists j :: k <= j < |skills| && skills[j].id == c && s.id in skills[j].prerequisites)
    decreases |skills|
  {
    hide Adopted;
    var n := |skills| - 1;
    var init, last := skills[..n], skills[n];
    var before := RegisteredAll(map[], init);
    LastIsNew(skills);
    var s := skills[k];
    if k < n {
      ChildrenOfDistinct(init, k, c);
      assert forall j :: k <= j < n ==> init[j] == skills[j];
    }
    AdoptedIs(before[last.id := last], last.prerequisites, last.id, s.id);
  }

  lemma {:induction false} RegisteredKeys(skills: seq<Skill>, id: int)
    ensures id in RegisteredAll(map[], skills) <==> exists k :: 0 <= k < |skills| && skills[k].id == id
    decreases |skills|
  {
    hide Adopted;
    if |skills| > 0 {
      var n := |skills| - 1;
      var init := skills[..n];
      RegisteredKeys(init, id);
      assert skills == init + [skills[n]];
      assert forall k :: 0 <= k < n ==> init[k] == skills[k];
    }
  }

  lemma LastIsNew(skills: seq<Skill>)
    requires DistinctIds(skills) && |skills| > 0
    ensures skills[|skills| - 1].id !in RegisteredAll(map[], skills[..|skills| - 1])
  {
    hide Registered;
    RegisteredKeys(skills[..|skills| - 1], skills[|skills| - 1].id);
  }

  /** The registrations that are not refused: the first of each ID. */
  function Firsts(skills: seq<Skill>): (r: seq<Skill>) {
    if |skills| == 0 then []
    else
      var before, last := skills[..|skills| - 1], skills[|skills| - 1];
      if last.id in RegisteredAll(map[], before) then Firsts(before) else Firsts(before) + [last]
  }

  /** Repeated registrations change nothing. */
  lemma {:induction false} FirstsRegister(skills: seq<Skill>)
    ensures RegisteredAll(map[], Firsts(skills)) == RegisteredAll(map[], skills)
    ensures DistinctIds(Firsts(skills))
    decreases |skills|
  {
    hide Adopted, DistinctIds;
    NoIds();
    if |skills| > 0 {
      var before, last := skills[..|skills| - 1], skills[|skills| - 1];
      FirstsRegister(before);
      var f := Firsts(before);
      if last.id !in RegisteredAll(map[], before) {
        RegisteredKeys(f, last.id);
        AppendDistinctId(f, last);
        assert (f + [last])[..|f|] == f;
      }
    }
  }

  /** `Firsts` holds exactly the registrations whose ID was not registered before. */
  lemma {:induction false} FirstsAre(skills: seq<Skill>, s: Skill)
    ensures s in Firsts(skills) <==>
      exists i :: 0 <= i < |skills| && skills[i] == s && forall j :: 0 <= j < i ==> skills[j].id != s.id
    decreases |skills|
  {
    hide RegisteredAll;
    if |skills| > 0 {
      var n := |skills| - 1;
      var before := skills[..n];
      FirstsAre(before, s);
      RegisteredKeys(before, skills[n].id);
      assert forall i :: 0 <= i < n ==> before[i] == skills[i];
      if i :| 0 <= i < n && before[i] == s && forall j :: 0 <= j < i ==> before[j].id != s.id {
        assert skills[i] == s;
      }
    }
  }

  /** After any registrations, refused ones included: the children of the k-th skill registered. */
  lemma ChildrenAre(skills: seq<Skill>, k: nat, c: int)
    requires k < |Firsts(skills)|
    ensures var g, f := RegisteredAll(map[], skills), Firsts(skills);
      f[k].id in g && g[f[k].id] == f[k].(children := g[f[k].id].children)
      && (c in g[f[k].id].children <==>
            c in f[k].children || exists j :: k <= j < |f| && f[j].id == c && f[k].id in f[j].prerequisites)
  {
    hide RegisteredAll, Firsts;
    FirstsRegister(skills);
    ChildrenOfDistinct(Firsts(skills), k, c);
  }

  lemma NoIds()
    ensures DistinctIds([])
  {
  }

  lemma AppendDistinctId(f: seq<Skill>, s: Skill)
    requires DistinctIds(f) && forall k :: 0 <= k < |f| ==> f[k].id != s.id
    ensures DistinctIds(f + [s])
  {
  }

  /** No skill comes with a child that does not require it, and none without one registered before it that does. */
  ghost predicate InGoodOrder(f: seq<Skill>) {
    forall j, k :: 0 <= j < |f| && 0 <= k < |f| ==>
      (f[j].id in f[k].children ==> f[k].id in f[j].prerequisites)
      && (j < k && f[k].id in f[j].prerequisites ==> f[j].id in f[k].children)
  }

  /** After any registrations, refused ones included, the children lists mirror the prerequisites exactly if the
      skills registered were in good order: without initial children, if none was registered before one it
      requires. */
  lemma ChildrenMirrorIff(skills: seq<Skill>)
    ensures ChildrenMirror(RegisteredAll(map[], skills)) <==> InGoodOrder(Firsts(skills))
  {
    hide RegisteredAll, Firsts;
    FirstsRegister(skills);
    DistinctMirrorIff(Firsts(skills));
  }

  /** The children lists, place by place. */
  lemma ChildrenAt(f: seq<Skill>, j: nat, k: nat)
    requires DistinctIds(f) && j < |f| && k < |f|
    ensures var g := RegisteredAll(map[], f);
      f[j].id in g && f[k].id in g && g[f[j].id].prerequisites == f[j].prerequisites
      && (f[j].id in g[f[k].id].children <==>
            f[j].id in f[k].children || (k <= j && f[k].id in f[j].prerequisites))
  {
    hide RegisteredAll, DistinctIds;
    ChildrenOfDistinct(f, k, f[j].id);
    ChildrenOfDistinct(f, j, f[j].id);
    SameId(f, j);
  }

  lemma DistinctMirrorIff(f: seq<Skill>)
    requires DistinctIds(f)
    ensures ChildrenMirror(RegisteredAll(map[], f)) <==> InGoodOrder(f)
  {
    hide RegisteredAll, DistinctIds;
    var g := RegisteredAll(map[], f);
    forall j, k | 0 <= j < |f| && 0 <= k < |f|
      ensures f[j].id in g && f[k].id in g
      ensures (f[j].id in g[f[k].id].children <==> f[k].id in g[f[j].id].prerequisites) <==>
        (f[j].id in f[k].children ==> f[k].id in f[j].prerequisites)
        && (j < k && f[k].id in f[j].prerequisites ==> f[j].id in f[k].children)
    {
      ChildrenAt(f, j, k);
    }
    if InGoodOrder(f) {
      forall p, c | p in g && c in g ensures c in g[p].children <==> p in g[c].prerequisites {
        RegisteredKeys(f, p);
        RegisteredKeys(f, c);
        var k :| 0 <= k < |f| && f[k].id == p;
        var j :| 0 <= j < |f| && f[j].id == c;
      }
    }
  }

  lemma SameId(skills: seq<Skill>, j: nat)
    requires DistinctIds(skills) && j < |skills|
    ensures forall i :: 0 <= i < |skills| && skills[i].id == skills[j].id ==> i == j
  {
  }

  /** c is listed as a child of p exactly if p is listed as a prerequisite of c. */
  ghost predicate ChildrenMirror(g: Graph) {
    forall p, c :: p in g && c in g ==> (c in g[p].children <==> p in g[c].prerequisites)
  }

  // ---------- The graph object ----------

  class SkillGraph {
    var skills: Graph

    constructor ()
      ensures skills == map[]
    {
      skills := map[];
    }

    method RegisterSkill(s: Skill) returns (r: Outcome)
      modifies this
      ensures r == if s.id in old(skills) then Refused(DuplicateSkill) else Ok
      ensures skills == Registered(old(skills), s)
    {
      if s.id in skills {
        return Refused(DuplicateSkill);
      }
      skills := skills[s.id := s];
      ghost var added := skills;
      for i := 0 to |s.prerequisites|
        invariant skills == Adopted(added, s.prerequisites[..i], s.id)
      {
        assert s.prerequisites[..i + 1][..i] == s.prerequisites[..i];
        var p := s.prerequisites[i];
        if p in skills {
          skills := skills[p := skills[p].(children := skills[p].children + [s.id])];
        }
      }
      assert s.prerequisites[..|s.prerequisites|] == s.prerequisites;
      return Ok;
    }

    method CanLearn(skillID: int, knownSkills: seq<int>, playerLevel: int) returns (r: Outcome)
      ensures r == LearnOutcome(skills, skillID, Elements(knownSkills), playerLevel)
    {
      if skillID !in skills {
        return Refused(SkillNotFound);
      }
      var skill := skills[skillID];
      if playerLevel < skill.requiredLevel {
        return Refused(LevelTooLow);
      }
      var knownSet: set<int> := {};
      for i := 0 to |knownSkills|
        invariant knownSet == Elements(knownSkills[..i])
      {
        assert knownSkills[..i + 1] == knownSkills[..i] + [knownSkills[i]];
        knownSet := knownSet + {knownSkills[i]};
      }
      assert knownSkills[..|knownSkills|] == knownSkills;
      for i := 0 to |skill.prerequisites|
        invariant forall k :: 0 <= k < i ==> skill.prerequisites[k] in knownSet
      {
        if skill.prerequisites[i] !in knownSet {
          return Refused(MissingPrerequisite);
        }
      }
      return Ok;
    }

    method GetPrerequisiteChain(skillID: int) returns (result: seq<int>)
      ensures result == Chain(skills, skillID)
    {
      var collector := new Collector(skills);
      collector.CollectPrereqs(skillID);
      result := collector.result;
    }
  }

  /** The visited set and the result slice that the recursion shares. */
  class Collector {
    const skills: Graph
    var visited: set<int>
    var result: seq<int>

    ghost function State(): Walk
      reads this
    {
      Walk(visited, result)
    }

    constructor (g: Graph)
      ensures skills == g && State() == Walk({}, [])
    {
      skills, visited, result := g, {}, [];
    }

    method CollectPrereqs(id: int)
      modifies this
      ensures State() == Visit(skills, id, old(State()))
      decreases skills.Keys - visited
    {
      if id in visited {
        return;
      }
      if id !in skills {
        return;
      }
      var prereqs := skills[id].prerequisites;
      visited := visited + {id};
      ghost var start := State();
      for i := 0 to |prereqs|
        invariant start.visited <= visited
        invariant VisitAll(skills, prereqs[i..], State()) == VisitAll(skills, prereqs, start)
      {
        assert prereqs[i..][1..] == prereqs[i + 1..];
        CollectPrereqs(prereqs[i]);
      }
      result := result + [id];
    }
  }
}
