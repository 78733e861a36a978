/** The paged sparse set that holds one component type: dense arrays of entities and values, and pages that map
    an entity's 32-bit index to its place. It stands for a finite map exactly while indices are distinct. */
module ComponentStore {
  import opened EntityIds

  const PAGE_SIZE: int := 1024
  const MAX_ENTITIES: int := 0x7FFF_FFFF

  datatype Option<+T> = None | Some(value: T)

  // ---------- Pages ----------

  type Pages = seq<seq<int>>  // a page not yet made is the empty sequence

  /** The place recorded for an index, counted from 1, or 0. */
  function Slot(sparse: Pages, index: nat): int {
    var p := index / PAGE_SIZE;
    if p < |sparse| && |sparse[p]| == PAGE_SIZE then sparse[p][index % PAGE_SIZE] else 0
  }

  ghost predicate Paged(sparse: Pages) {
    forall p :: 0 <= p < |sparse| ==> |sparse[p]| == 0 || |sparse[p]| == PAGE_SIZE
  }

  ghost predicate HasPage(sparse: Pages, index: nat) {
    index / PAGE_SIZE < |sparse| && |sparse[index / PAGE_SIZE]| == PAGE_SIZE
  }

  function WriteSlot(sparse: Pages, index: nat, v: int): Pages
    requires HasPage(sparse, index)
  {
    var p := index / PAGE_SIZE;
    sparse[p := sparse[p][index % PAGE_SIZE := v]]
  }

  lemma WriteSlotWrites(sparse: Pages, index: nat, v: int)
    requires Paged(sparse) && HasPage(sparse, index)
    ensures var r := WriteSlot(sparse, index, v);
      Paged(r) && (forall i: nat :: Slot(r, i) == if i == index then v else Slot(sparse, i))
      && (forall i: nat :: HasPage(sparse, i) ==> HasPage(r, i))
  {
  }

  /** The pages with the one for an index made, if it was not there. */
  function EnsurePage(sparse: Pages, index: nat): Pages {
    var p := index / PAGE_SIZE;
    var grown := if p >= |sparse| then sparse + seq(p + 1 - |sparse|, _ => []) else sparse;
    if |grown[p]| == 0 then grown[p := seq(PAGE_SIZE, _ => 0)] else grown
  }

  lemma EnsurePageReadsSame(sparse: Pages, index: nat)
    requires Paged(sparse)
    ensures var r := EnsurePage(sparse, index);
      Paged(r) && HasPage(r, index) && forall i: nat :: Slot(r, i) == Slot(sparse, i)
  {
  }

  // ---------- Dense and sparse together ----------

  /** Dense and sparse are mutually inverse. */
  ghost predicate Mutual(dense: seq<Entity>, sparse: Pages) {
    && Paged(sparse)
    && (forall k :: 0 <= k < |dense| ==> Slot(sparse, Index(dense[k])) == k + 1)
    && (forall i: nat :: Slot(sparse, i) != 0 ==>
          1 <= Slot(sparse, i) <= |dense| && Index(dense[Slot(sparse, i) - 1]) == i)
  }

  /** No other stored entity has this one's index. */
  predicate IndexFree(dense: seq<Entity>, id: Entity) {
    forall k :: 0 <= k < |dense| && Index(dense[k]) == Index(id) ==> dense[k] == id
  }

  ghost predicate AllDistinct(dense: seq<Entity>) {
    forall i, j :: 0 <= i < |dense| && 0 <= j < |dense| && dense[i] == dense[j] ==> i == j
  }

  lemma MutualPlace(dense: seq<Entity>, sparse: Pages, id: Entity)
    requires Mutual(dense, sparse)
    ensures Slot(sparse, Index(id)) != 0 ==> 1 <= Slot(sparse, Index(id)) <= |dense|
    ensures id in dense <==> Slot(sparse, Index(id)) != 0 && dense[Slot(sparse, Index(id)) - 1] == id
    ensures id in dense ==> IndexFree(dense, id)
    ensures AllDistinct(dense) && Paged(sparse)
  {
    hide Index;
    if id in dense {
      var k :| 0 <= k < |dense| && dense[k] == id;
    }
  }

  lemma MutualSameSlots(dense: seq<Entity>, sparse: Pages, sparse': Pages)
    requires Mutual(dense, sparse) && Paged(sparse')
    requires forall i: nat :: Slot(sparse', i) == Slot(sparse, i)
    ensures Mutual(dense, sparse')
  {
    hide Index, Slot;
  }

  /** Appending an entity keeps dense and sparse inverse exactly if no stored entity has its index. */
  lemma AppendMutualIff(dense: seq<Entity>, sparse: Pages, sparse': Pages, id: Entity)
    requires Mutual(dense, sparse) && id !in dense && Paged(sparse')
    requires forall i: nat :: Slot(sparse', i) == if i == Index(id) then |dense| + 1 else Slot(sparse, i)
    ensures Mutual(dense + [id], sparse') <==> IndexFree(dense, id)
  {
    hide Index, Slot;
    var dense' := dense + [id];
    assert forall k :: 0 <= k < |dense| ==> dense'[k] == dense[k];
    if IndexFree(dense, id) {
      forall k | 0 <= k < |dense'| ensures Slot(sparse', Index(dense'[k])) == k + 1 {
      }
      forall i: nat | Slot(sparse', i) != 0
        ensures 1 <= Slot(sparse', i) <= |dense'| && Index(dense'[Slot(sparse', i) - 1]) == i
      {
        if i != Index(id) {
          assert dense'[Slot(sparse, i) - 1] == dense[Slot(sparse, i) - 1];
        }
      }
    } else {
      var k :| 0 <= k < |dense| && Index(dense[k]) == Index(id) && dense[k] != id;
      assert Slot(sparse', Index(dense'[k])) != k + 1;
    }
  }

  ghost function SlotAfterRemove(dense: seq<Entity>, sparse: Pages, at: nat, index: nat): int
    requires at < |dense|
  {
    if index == Index(dense[at]) then 0
    else if index == Index(dense[|dense| - 1]) then at + 1
    else Slot(sparse, index)
  }

  /** Moving the last entity into the freed place keeps dense and sparse inverse. */
  lemma RemoveMutual(dense: seq<Entity>, sparse: Pages, sparse': Pages, at: nat)
    requires Mutual(dense, sparse) && at < |dense| && Paged(sparse')
    requires forall i: nat :: Slot(sparse', i) == SlotAfterRemove(dense, sparse, at, i)
    ensures Mutual(dense[at := dense[|dense| - 1]][..|dense| - 1], sparse')
  {
    hide Index, Slot;
    var last := |dense| - 1;
    var dense' := dense[at := dense[last]][..last];
    forall k | 0 <= k < |dense'| ensures Slot(sparse', Index(dense'[k])) == k + 1 {
      assert Slot(sparse, Index(dense[k])) == k + 1;
      assert Slot(sparse, Index(dense[last])) == last + 1;
      assert Slot(sparse, Index(dense[at])) == at + 1;
    }
    forall i: nat | Slot(sparse', i) != 0
      ensures 1 <= Slot(sparse', i) <= |dense'| && Index(dense'[Slot(sparse', i) - 1]) == i
    {
      assert Slot(sparse, Index(dense[at])) == at + 1;
      assert Slot(sparse, Index(dense[last])) == last + 1;
    }
  }

  // ---------- The map ----------

  ghost function PlaceOf(dense: seq<Entity>, id: Entity): (k: nat)
    requires id in dense
    ensures k < |dense| && dense[k] == id
  {
    var k :| 0 <= k < |dense| && dense[k] == id;
    k
  }

  /** The entities with the one at a place taken out and the last one put there. */
  function LastMovedTo(dense: seq<Entity>, at: nat): seq<Entity>
    requires at < |dense|
  {
    dense[at := dense[|dense| - 1]][..|dense| - 1]
  }

  ghost function MapOf<T>(dense: seq<Entity>, values: seq<T>): map<Entity, T>
    requires |dense| == |values|
  {
    map id | id in dense :: values[PlaceOf(dense, id)]
  }

  /** The map is the only one with the dense entities as keys and their values. */
  lemma MapOfIs<T>(dense: seq<Entity>, values: seq<T>, m: map<Entity, T>)
    requires |dense| == |values|
    requires forall id :: id in m <==> id in dense
    requires forall k :: 0 <= k < |dense| ==> dense[k] in m && m[dense[k]] == values[k]
    ensures MapOf(dense, values) == m
  {
  }

  lemma MapOfAt<T>(dense: seq<Entity>, values: seq<T>, k: nat)
    requires |dense| == |values| && k < |dense|
    requires AllDistinct(dense)
    ensures dense[k] in MapOf(dense, values) && MapOf(dense, values)[dense[k]] == values[k]
  {
  }

  class Store<T> {
    var dense: seq<Entity>
    var sparse: Pages
    var values: seq<T>

    constructor ()
      ensures Valid() && Contents() == map[] && dense == []
    {
      dense, sparse, values := [], [], [];
    }

    ghost predicate Valid()
      reads this
    {
      |dense| == |values| <= MAX_ENTITIES && Mutual(dense, sparse)
    }

    /** The finite map the store stands for. */
    ghost function Contents(): map<Entity, T>
      requires Valid()
      reads this
    {
      MapOf(dense, values)
    }

    method Get(id: Entity) returns (r: Option<T>)
      requires Valid()
      ensures r == if id in Contents() then Some(Contents()[id]) else None
    {
      MutualPlace(dense, sparse, id);
      var idx32 := Index(id);
      var pageIndex := idx32 / PAGE_SIZE;
      if pageIndex >= |sparse| {
        return None;
      }
      var page := sparse[pageIndex];
      if |page| == 0 {
        return None;
      }
      var idx := page[idx32 % PAGE_SIZE];
      assert idx == Slot(sparse, idx32);
      if idx != 0 && idx - 1 < |dense| && dense[idx - 1] == id {
        MapOfAt(dense, values, idx - 1);
        return Some(values[idx - 1]);
      }
      return None;
    }

    /** Stores a value. If a different entity with the same index is stored, that one stays in `dense` but its
        place is lost: the store remains a map exactly if no other stored entity has the index. */
    method Set(id: Entity, val: T)
      requires Valid() && |dense| < MAX_ENTITIES
      modifies this
      ensures Valid() <==> old(IndexFree(dense, id))
      ensures old(IndexFree(dense, id)) ==> Contents() == old(Contents())[id := val]
      ensures dense == if id in old(dense) then old(dense) else old(dense) + [id]
    {
      hide Slot, Index, Mutual, MapOf, EnsurePage, WriteSlot, AllDistinct, IndexFree;
      MutualPlace(dense, sparse, id);
      var idx32 := Index(id);
      EnsurePageReadsSame(sparse, idx32);
      MutualSameSlots(dense, sparse, EnsurePage(sparse, idx32));
      sparse := EnsurePage(sparse, idx32);
      var idx := ReadSlot(idx32);
      if idx != 0 && idx - 1 < |dense| && dense[idx - 1] == id {
        values := values[idx - 1 := val];
        SetExisting(dense, old(values), idx - 1, val);
        return;
      }
      ghost var before := sparse;
      WriteSlotWrites(sparse, idx32, |dense| + 1);
      sparse := WriteSlot(sparse, idx32, |dense| + 1);
      AppendMutualIff(dense, before, sparse, id);
      SetNew(dense, values, id, val);
      dense := dense + [id];
      values := values + [val];
    }

    method ReadSlot(index: nat) returns (v: int)
      requires HasPage(sparse, index)
      ensures v == Slot(sparse, index)
    {
      return sparse[index / PAGE_SIZE][index % PAGE_SIZE];
    }

    /** Removes an entity by moving the last one into its place. Removing a stale generation, or an absent
        entity, changes nothing. */
    method Delete(id: Entity)
      requires Valid()
      modifies this
      ensures Valid() && Contents() == old(Contents()) - {id}
      ensures |dense| <= old(|dense|) && forall e :: e in dense ==> e in old(dense)
      ensures dense == if id in old(dense) then LastMovedTo(old(dense), PlaceOf(old(dense), id)) else old(dense)
    {
      hide Slot, Index, WriteSlot, Mutual, MapOf, AllDistinct, IndexFree;
      MutualPlace(dense, sparse, id);
      AbsentKey(dense, values, id);
      var idx32 := Index(id);
      var pageIndex := idx32 / PAGE_SIZE;
      if pageIndex >= |sparse| {
        NoPageNoSlot(sparse, idx32);
        return;
      }
      if |sparse[pageIndex]| == 0 {
        NoPageNoSlot(sparse, idx32);
        return;
      }
      var idx := ReadSlot(idx32);
      if idx == 0 || idx - 1 >= |dense| || dense[idx - 1] != id {
        return;
      }
      var actualIdx := idx - 1;
      var lastIdx := |dense| - 1;
      ghost var sparse0 := sparse;
      RemoveAt(dense, values, actualIdx);
      PlaceIs(dense, actualIdx);
      if actualIdx != lastIdx {
        var lastEntity := dense[lastIdx];
        MutualPlace(dense, sparse, lastEntity);
        SlotHasPage(sparse, Index(lastEntity));
        WriteSlotWrites(sparse, Index(lastEntity), actualIdx + 1);
        sparse := WriteSlot(sparse, Index(lastEntity), actualIdx + 1);
      }
      WriteSlotWrites(sparse, idx32, 0);
      sparse := WriteSlot(sparse, idx32, 0);
      RemoveMutual(dense, sparse0, sparse, actualIdx);
      dense, values := dense[actualIdx := dense[lastIdx]][..lastIdx], values[actualIdx := values[lastIdx]][..lastIdx];
    }
  }

  lemma PlaceIs(dense: seq<Entity>, k: nat)
    requires AllDistinct(dense) && k < |dense|
    ensures dense[k] in dense && PlaceOf(dense, dense[k]) == k
  {
  }

  lemma NoPageNoSlot(sparse: Pages, index: nat)
    requires !HasPage(sparse, index)
    ensures Slot(sparse, index) == 0
  {
  }

  lemma SlotHasPage(sparse: Pages, index: nat)
    requires Slot(sparse, index) != 0
    ensures HasPage(sparse, index)
  {
  }

  lemma AbsentKey<T>(dense: seq<Entity>, values: seq<T>, id: Entity)
    requires |dense| == |values|
    ensures id !in dense ==> MapOf(dense, values) - {id} == MapOf(dense, values)
  {
  }

  lemma SetExisting<T>(dense: seq<Entity>, values: seq<T>, k: nat, val: T)
    requires |dense| == |values| && k < |dense| && AllDistinct(dense)
    ensures MapOf(dense, values[k := val]) == MapOf(dense, values)[dense[k] := val]
  {
    MapOfIs(dense, values[k := val], MapOf(dense, values)[dense[k] := val]);
  }

  lemma SetNew<T>(dense: seq<Entity>, values: seq<T>, id: Entity, val: T)
    requires |dense| == |values| && id !in dense && AllDistinct(dense)
    ensures MapOf(dense + [id], values + [val]) == MapOf(dense, values)[id := val]
  {
    MapOfIs(dense + [id], values + [val], MapOf(dense, values)[id := val]);
  }

  lemma RemoveAt<T>(dense: seq<Entity>, values: seq<T>, at: nat)
    requires |dense| == |values| && at < |dense| && AllDistinct(dense)
    ensures var last := |dense| - 1;
      var d := dense[at := dense[last]][..last];
      MapOf(d, values[at := values[last]][..last]) == MapOf(dense, values) - {dense[at]}
      && forall e :: e in d ==> e in dense
  {
    var last := |dense| - 1;
    var d, v := dense[at := dense[last]][..last], values[at := values[last]][..last];
    var m := MapOf(dense, values) - {dense[at]};
    forall id | id in m ensures id in d {
      var k :| 0 <= k < |dense| && dense[k] == id;
      assert d[if k == last then at else k] == id;
    }
    forall k | 0 <= k < |d| ensures d[k] in m && m[d[k]] == v[k] {
      assert d[k] == dense[if k == at then last else k];
    }
    MapOfIs(d, v, m);
  }
}
