/** Two-player trades: sessions, offers that can be locked, and the swap of both inventories once both offers
    are locked. Texts and notices are left out; a reply says only what became of the call. */
module Trade {
  import opened Counting
  import EntityIds

  type Entity = EntityIds.Entity
  type ItemId = x: int | 0 <= x < 0x1_0000_0000_0000_0000
  type Items = map<ItemId, int>  // item template to quantity

  datatype Offer = Offer(player: Entity, locked: bool, items: Items)
  datatype Session = Session(a: Offer, b: Offer)

  datatype Reply =
    | Opened | Offered | Waiting | Swapped | Cancelled
    | SelfTrade | NoTarget | Busy | BadQuantity | NotTrading | OfferLocked | NoInventory | TooFew | AlreadyLocked
    | NoSession | Aborted

  /** Sessions by ID, the session each player is bound to, and every player's inventory. */
  datatype State = State(
    sessions: map<Entity, Session>, bindings: map<Entity, Entity>, inventories: map<Entity, Items>)

  // ---------- Inventories ----------

  function Qty(items: Items, item: ItemId): int {
    if item in items then items[item] else 0
  }

  /** Take the given items out, dropping those that reach zero. */
  function Deducted(items: Items, give: Items): Items {
    map item | item in items.Keys + give.Keys && !(item in give && Qty(items, item) == give[item]) ::
      Qty(items, item) - Qty(give, item)
  }

  function Injected(items: Items, get: Items): Items {
    map item | item in items.Keys + get.Keys :: Qty(items, item) + Qty(get, item)
  }

  function Exchanged(items: Items, give: Items, get: Items): Items {
    Injected(Deducted(items, give), get)
  }

  predicate Covered(items: Items, offer: Items) {
    forall item :: item in offer ==> Qty(items, item) >= offer[item]
  }

  ghost predicate NonNegative(items: Items) {
    forall item :: item in items ==> items[item] >= 0
  }

  lemma ExchangedQty(items: Items, give: Items, get: Items, item: ItemId)
    ensures Qty(Exchanged(items, give, get), item) == Qty(items, item) - Qty(give, item) + Qty(get, item)
  {
  }

  /** What is covered and non-negative stays non-negative through an exchange. */
  lemma ExchangedNonNegative(items: Items, give: Items, get: Items)
    requires NonNegative(items) && NonNegative(get) && Covered(items, give)
    ensures NonNegative(Exchanged(items, give, get))
  {
    var d := Deducted(items, give);
    forall item | item in d ensures d[item] >= 0 {
      assert item in give || item in items;
    }
  }

  ghost predicate Positive(items: Items) {
    forall item :: item in items ==> items[item] > 0
  }

  /** An exchange of covered offers leaves no entry at zero: items used up are dropped. */
  lemma ExchangedPositive(items: Items, give: Items, get: Items)
    requires Positive(items) && Positive(give) && Positive(get) && Covered(items, give)
    ensures Positive(Exchanged(items, give, get))
  {
    var d := Deducted(items, give);
    forall item | item in d ensures d[item] > 0 {
      assert item in give || item in items;
    }
  }

  // ---------- Operations ----------

  ghost predicate Involves(session: Session, player: Entity) {
    session.a.player == player || session.b.player == player
  }

  /** Bindings and sessions agree, offers hold positive quantities, and no session has both offers locked. */
  ghost predicate Inv(s: State) {
    && (forall p :: p in s.bindings ==> s.bindings[p] in s.sessions && Involves(s.sessions[s.bindings[p]], p))
    && (forall id :: id in s.sessions ==> SessionOk(s, id))
  }

  ghost predicate SessionOk(s: State, id: Entity)
    requires id in s.sessions
  {
    var t := s.sessions[id];
    && t.a.player != t.b.player
    && t.a.player in s.bindings && s.bindings[t.a.player] == id
    && t.b.player in s.bindings && s.bindings[t.b.player] == id
    && !(t.a.locked && t.b.locked)
    && (forall item :: item in t.a.items ==> t.a.items[item] > 0)
    && (forall item :: item in t.b.items ==> t.b.items[item] > 0)
  }

  function Initialized(s: State, id: Entity, a: Entity, b: Entity, targetKnown: bool): (State, Reply) {
    if a == b then (s, SelfTrade)
    else if !targetKnown then (s, NoTarget)
    else if a in s.bindings || b in s.bindings then (s, Busy)
    else
      (s.(sessions := s.sessions[id := Session(Offer(a, false, map[]), Offer(b, false, map[]))],
          bindings := s.bindings[a := id][b := id]), Opened)
  }

  function MyOffer(session: Session, player: Entity): Offer {
    if session.a.player == player then session.a else session.b
  }

  function WithOffer(session: Session, player: Entity, offer: Offer): Session {
    if session.a.player == player then session.(a := offer) else session.(b := offer)
  }

  function OfferedItem(s: State, player: Entity, item: ItemId, qty: int): (State, Reply)
    requires player in s.bindings ==> s.bindings[player] in s.sessions
  {
    if qty <= 0 then (s, BadQuantity)
    else if player !in s.bindings then (s, NotTrading)
    else
      var id := s.bindings[player];
      var mine := MyOffer(s.sessions[id], player);
      if mine.locked then (s, OfferLocked)
      else if player !in s.inventories then (s, NoInventory)
      else
        var total := Qty(mine.items, item) + qty;
        if Qty(s.inventories[player], item) < total then (s, TooFew)
        else
          var offer := mine.(items := mine.items[item := total]);
          (s.(sessions := s.sessions[id := WithOffer(s.sessions[id], player, offer)]), Offered)
  }

  /** The state without a session and without its players' bindings. */
  function Dropped(s: State, id: Entity): State
    requires id in s.sessions
  {
    var t := s.sessions[id];
    s.(sessions := s.sessions - {id}, bindings := s.bindings - {t.a.player, t.b.player})
  }

  function Cancel(s: State, player: Entity): (State, Reply)
    requires player in s.bindings ==> s.bindings[player] in s.sessions
  {
    if player !in s.bindings then (s, NotTrading) else (Dropped(s, s.bindings[player]), Cancelled)
  }

  function Swap(s: State, id: Entity): (State, Reply) {
    if id !in s.sessions then (s, NoSession)
    else
      var t := s.sessions[id];
      if t.a.player !in s.inventories || t.b.player !in s.inventories then (Dropped(s, id), Aborted)
      else
        var invA, invB := s.inventories[t.a.player], s.inventories[t.b.player];
        if !Covered(invA, t.a.items) || !Covered(invB, t.b.items) then (Dropped(s, id), Aborted)
        else
          (Dropped(s, id).(inventories := s.inventories
            [t.a.player := Exchanged(invA, t.a.items, t.b.items)]
            [t.b.player := Exchanged(invB, t.b.items, t.a.items)]), Swapped)
  }

  function Lock(s: State, player: Entity): (State, Reply)
    requires player in s.bindings ==> s.bindings[player] in s.sessions
  {
    if player !in s.bindings then (s, NotTrading)
    else
      var id := s.bindings[player];
      var mine := MyOffer(s.sessions[id], player);
      if mine.locked then (s, AlreadyLocked)
      else
        var t := WithOffer(s.sessions[id], player, mine.(locked := true));
        var s1 := s.(sessions := s.sessions[id := t]);
        if t.a.locked && t.b.locked then Swap(s1, id) else (s1, Waiting)
  }

  // ---------- What each call does ----------

  /** Both sessions and bindings, other than the session's own, are as they were. */
  ghost predicate OthersKept(s: State, r: State, id: Entity)
    requires id in s.sessions
  {
    var t := s.sessions[id];
    && (forall i :: i != id ==> (i in r.sessions <==> i in s.sessions))
    && (forall i :: i != id && i in s.sessions && i in r.sessions ==> r.sessions[i] == s.sessions[i])
    && (forall p :: p != t.a.player && p != t.b.player ==> (p in r.bindings <==> p in s.bindings))
    && (forall p :: p != t.a.player && p != t.b.player && p in s.bindings && p in r.bindings ==>
          r.bindings[p] == s.bindings[p])
  }

  /** The session is over: it is gone, and neither of its players is bound. */
  ghost predicate Ended(s: State, r: State, id: Entity)
    requires id in s.sessions
  {
    var t := s.sessions[id];
    id !in r.sessions && t.a.player !in r.bindings && t.b.player !in r.bindings && OthersKept(s, r, id)
  }

  /** A session opens exactly if the players differ, the target exists and neither is trading; the reply names the
      first of these that fails. Opened, it binds both, with nothing offered and nothing locked. */
  lemma InitIs(s: State, id: Entity, a: Entity, b: Entity, known: bool)
    ensures var (r, reply) := Initialized(s, id, a, b, known);
      && (reply == SelfTrade <==> a == b)
      && (reply == NoTarget <==> a != b && !known)
      && (reply == Busy <==> a != b && known && (a in s.bindings || b in s.bindings))
      && (reply == Opened <==> a != b && known && a !in s.bindings && b !in s.bindings)
      && r.inventories == s.inventories
      && (reply != Opened ==> r == s)
      && (reply == Opened ==>
            r.sessions == s.sessions[id := Session(Offer(a, false, map[]), Offer(b, false, map[]))]
            && r.bindings == s.bindings[a := id][b := id])
  {
  }

  lemma OwnOffer(s: State, player: Entity)
    requires Inv(s)
    ensures player in s.bindings ==> s.bindings[player] in s.sessions
    ensures player in s.bindings ==>
      var t := s.sessions[s.bindings[player]];
      MyOffer(t, player).player == player && TheirOffer(t, player).player != player
      && !(MyOffer(t, player).locked && TheirOffer(t, player).locked)
  {
    if player in s.bindings {
      assert SessionOk(s, s.bindings[player]);
    }
  }

  lemma WithOfferIs(t: Session, player: Entity, offer: Offer)
    requires MyOffer(t, player).player == player && offer.player == player
    ensures var u := WithOffer(t, player, offer);
      MyOffer(u, player) == offer && TheirOffer(u, player) == TheirOffer(t, player)
      && u.a.player == t.a.player && u.b.player == t.b.player
      && (u.a.locked && u.b.locked <==> offer.locked && TheirOffer(t, player).locked)
      && (MyOffer(t, player).items == offer.items ==> u.a.items == t.a.items && u.b.items == t.b.items)
  {
  }

  /** An offer is taken exactly if the quantity is positive, the player is trading, has not locked, and holds
      enough for the new total; the reply names the first that fails. Taken, it adds to the player's own offer,
      and nothing else changes. */
  lemma OfferIs(s: State, player: Entity, item: ItemId, qty: int)
    requires Inv(s)
    ensures player in s.bindings ==> s.bindings[player] in s.sessions
    ensures var (r, reply) := OfferedItem(s, player, item, qty);
      && (qty <= 0 ==> reply == BadQuantity && r == s)
      && (qty > 0 && player !in s.bindings ==> reply == NotTrading && r == s)
      && (qty > 0 && player in s.bindings ==>
            var id := s.bindings[player];
            var mine, theirs := MyOffer(s.sessions[id], player), TheirOffer(s.sessions[id], player);
            var total := Qty(mine.items, item) + qty;
            mine.player == player
            && (mine.locked ==> reply == OfferLocked && r == s)
            && (!mine.locked && player !in s.inventories ==> reply == NoInventory && r == s)
            && (!mine.locked && player in s.inventories && Qty(s.inventories[player], item) < total ==>
                  reply == TooFew && r == s)
            && (!mine.locked && player in s.inventories && Qty(s.inventories[player], item) >= total ==>
                  reply == Offered && r.bindings == s.bindings && r.inventories == s.inventories
                  && id in r.sessions && OthersKept(s, r, id)
                  && MyOffer(r.sessions[id], player) == Offer(player, false, mine.items[item := total])
                  && TheirOffer(r.sessions[id], player) == theirs))
  {
    hide Inv, MyOffer, TheirOffer, WithOffer;
    OwnOffer(s, player);
    if player in s.bindings {
      var t := s.sessions[s.bindings[player]];
      var mine := MyOffer(t, player);
      WithOfferIs(t, player, mine.(items := mine.items[item := Qty(mine.items, item) + qty]));
    }
  }

  lemma DroppedEnds(s: State, id: Entity)
    requires id in s.sessions
    ensures Ended(s, Dropped(s, id), id) && Dropped(s, id).inventories == s.inventories
  {
  }

  /** Cancelling ends the player's session, and moves nothing. */
  lemma CancelIs(s: State, player: Entity)
    requires Inv(s)
    ensures player in s.bindings ==> s.bindings[player] in s.sessions
    ensures var (r, reply) := Cancel(s, player);
      && (reply == NotTrading <==> player !in s.bindings)
      && (reply == Cancelled <==> player in s.bindings)
      && (player !in s.bindings ==> r == s)
      && (player in s.bindings ==>
            Ended(s, r, s.bindings[player]) && player !in r.bindings && r.inventories == s.inventories)
  {
    hide Ended, Dropped;
    if player in s.bindings {
      assert SessionOk(s, s.bindings[player]);
      DroppedEnds(s, s.bindings[player]);
      EndedUnbinds(s, Dropped(s, s.bindings[player]), s.bindings[player]);
    }
  }

  lemma EndedUnbinds(s: State, r: State, id: Entity)
    requires id in s.sessions && Ended(s, r, id)
    ensures s.sessions[id].a.player !in r.bindings && s.sessions[id].b.player !in r.bindings
  {
  }

  /** A swap of a session that exists ends it, done or aborted. */
  lemma SwapIs(s: State, id: Entity)
    ensures var (r, reply) := Swap(s, id);
      && (reply == NoSession <==> id !in s.sessions)
      && (reply == Swapped <==> SwapReady(s, id))
      && (reply == Aborted <==> id in s.sessions && !SwapReady(s, id))
      && (id !in s.sessions ==> r == s)
      && (id in s.sessions ==> Ended(s, r, id))
  {
    hide Exchanged, Covered;
    if id in s.sessions {
      DroppedEnds(s, id);
    }
  }

  /** The first lock of a session takes effect and waits, leaving all else as it was. */
  lemma FirstLockWaits(s: State, player: Entity)
    requires Inv(s) && player in s.bindings
    ensures s.bindings[player] in s.sessions
    ensures var id := s.bindings[player];
      var mine, theirs := MyOffer(s.sessions[id], player), TheirOffer(s.sessions[id], player);
      !mine.locked && !theirs.locked ==>
        var (r, reply) := Lock(s, player);
        reply == Waiting && r.bindings == s.bindings && r.inventories == s.inventories
        && id in r.sessions && OthersKept(s, r, id)
        && MyOffer(r.sessions[id], player) == mine.(locked := true)
        && TheirOffer(r.sessions[id], player) == theirs
  {
    hide Inv, Swap, MyOffer, TheirOffer, WithOffer;
    OwnOffer(s, player);
    var t := s.sessions[s.bindings[player]];
    WithOfferIs(t, player, MyOffer(t, player).(locked := true));
  }

  /** The second lock swaps, or aborts if an offer is no longer covered; either way the session is over. */
  lemma SecondLockEnds(s: State, player: Entity)
    requires Inv(s) && player in s.bindings
    ensures s.bindings[player] in s.sessions
    ensures var id := s.bindings[player];
      !MyOffer(s.sessions[id], player).locked && TheirOffer(s.sessions[id], player).locked ==>
        var (r, reply) := Lock(s, player);
        reply == (if SwapReady(s, id) then Swapped else Aborted) && Ended(s, r, id) && player !in r.bindings
  {
    hide Covered, Swap, Ended, MyOffer, TheirOffer, WithOffer;
    OwnOffer(s, player);
    var id := s.bindings[player];
    var t := s.sessions[id];
    var u := WithOffer(t, player, MyOffer(t, player).(locked := true));
    WithOfferIs(t, player, MyOffer(t, player).(locked := true));
    var s1 := s.(sessions := s.sessions[id := u]);
    SwapIs(s1, id);
    EndedUnbinds(s1, Swap(s1, id).0, id);
    EndedSame(s, s1, Swap(s1, id).0, id);
    PlayerIsParty(t, player);
  }

  lemma PlayerIsParty(t: Session, player: Entity)
    ensures MyOffer(t, player).player == player ==> player == t.a.player || player == t.b.player
  {
  }

  /** When each reply to a lock arises. */
  lemma LockReplies(s: State, player: Entity)
    requires Inv(s)
    ensures player in s.bindings ==> s.bindings[player] in s.sessions
    ensures var (r, reply) := Lock(s, player);
      && (player !in s.bindings ==> reply == NotTrading && r == s)
      && (player in s.bindings && MyOffer(s.sessions[s.bindings[player]], player).locked ==>
            reply == AlreadyLocked && r == s)
      && (reply == Swapped <==> LockCompletes(s, player))
  {
    hide Inv, Covered, Swap, Ended, MyOffer, TheirOffer, WithOffer, SwapReady;
    if player in s.bindings {
      OwnOffer(s, player);
      FirstLockWaits(s, player);
      SecondLockEnds(s, player);
    }
  }

  /** Ending a session does not depend on its offers. */
  lemma EndedSame(s: State, s1: State, r: State, id: Entity)
    requires id in s.sessions && id in s1.sessions && Ended(s1, r, id)
    requires s1.bindings == s.bindings && s1.sessions == s.sessions[id := s1.sessions[id]]
    requires s1.sessions[id].a.player == s.sessions[id].a.player && s1.sessions[id].b.player == s.sessions[id].b.player
    ensures Ended(s, r, id)
  {
  }

  // ---------- Steps and runs ----------

  /** A call on the registry, or a change of inventories made elsewhere in the game. */
  datatype Op =
    | DoInit(id: Entity, a: Entity, b: Entity, targetKnown: bool)
    | DoOffer(player: Entity, item: ItemId, qty: int)
    | DoLock(player: Entity)
    | DoSwap(id: Entity)
    | DoCancel(player: Entity)
    | Elsewhere(inventories: map<Entity, Items>)

  ghost predicate AllNonNegative(inventories: map<Entity, Items>) {
    forall p :: p in inventories ==> NonNegative(inventories[p])
  }

  /** Session IDs are fresh entity IDs, and the rest of the game leaves no negative quantities. */
  ghost predicate Legal(s: State, op: Op) {
    && (op.DoInit? ==> op.id !in s.sessions)
    && (op.Elsewhere? ==> AllNonNegative(op.inventories))
  }

  ghost function Apply(s: State, op: Op): State
    requires Inv(s)
  {
    match op
    case DoInit(id, a, b, known) => Initialized(s, id, a, b, known).0
    case DoOffer(p, item, qty) => OfferedItem(s, p, item, qty).0
    case DoLock(p) => Lock(s, p).0
    case DoSwap(id) => Swap(s, id).0
    case DoCancel(p) => Cancel(s, p).0
    case Elsewhere(inventories) => s.(inventories := inventories)
  }

  lemma DroppedKeepsInv(s: State, id: Entity)
    requires id in s.sessions
    requires forall p :: p in s.bindings ==> s.bindings[p] in s.sessions && Involves(s.sessions[s.bindings[p]], p)
    requires forall i :: i in s.sessions && i != id ==> SessionOk(s, i)
    requires var t := s.sessions[id];
      t.a.player in s.bindings && s.bindings[t.a.player] == id && t.b.player in s.bindings && s.bindings[t.b.player] == id
    ensures Inv(Dropped(s, id))
  {
    var r := Dropped(s, id);
    forall i | i in r.sessions ensures SessionOk(r, i) {
      assert SessionOk(s, i);
    }
  }

  lemma InitKeepsInv(s: State, id: Entity, a: Entity, b: Entity, known: bool)
    requires Inv(s) && id !in s.sessions
    ensures Inv(Initialized(s, id, a, b, known).0)
  {
    var (r, reply) := Initialized(s, id, a, b, known);
    if reply == Opened {
      forall p | p in r.bindings ensures r.bindings[p] in r.sessions && Involves(r.sessions[r.bindings[p]], p) {
        assert p != a && p != b ==> p in s.bindings;
      }
      forall i | i in r.sessions ensures SessionOk(r, i) {
        if i != id {
          assert SessionOk(s, i);
        }
      }
    }
  }

  /** Replacing one session by one of the same players with an acceptable offer keeps the invariant. */
  lemma ReplaceKeepsInv(s: State, id: Entity, t: Session)
    requires Inv(s) && id in s.sessions
    requires t.a.player == s.sessions[id].a.player && t.b.player == s.sessions[id].b.player
    requires !(t.a.locked && t.b.locked)
    requires forall item :: item in t.a.items ==> t.a.items[item] > 0
    requires forall item :: item in t.b.items ==> t.b.items[item] > 0
    ensures Inv(s.(sessions := s.sessions[id := t]))
  {
    hide SessionOk;
    var r := s.(sessions := s.sessions[id := t]);
    forall p | p in r.bindings ensures r.bindings[p] in r.sessions && Involves(r.sessions[r.bindings[p]], p) {
    }
    forall i | i in r.sessions ensures SessionOk(r, i) {
      assert SessionOk(s, i) && SessionOk(s, id);
      ReplaceKeepsSession(s, id, t, i);
    }
  }

  lemma ReplaceKeepsSession(s: State, id: Entity, t: Session, i: Entity)
    requires id in s.sessions && i in s.sessions && SessionOk(s, id) && SessionOk(s, i)
    requires t.a.player == s.sessions[id].a.player && t.b.player == s.sessions[id].b.player
    requires !(t.a.locked && t.b.locked)
    requires forall item :: item in t.a.items ==> t.a.items[item] > 0
    requires forall item :: item in t.b.items ==> t.b.items[item] > 0
    ensures SessionOk(s.(sessions := s.sessions[id := t]), i)
  {
  }

  lemma OfferKeepsInv(s: State, player: Entity, item: ItemId, qty: int)
    requires Inv(s)
    ensures Inv(OfferedItem(s, player, item, qty).0)
  {
    var (r, reply) := OfferedItem(s, player, item, qty);
    if reply == Offered {
      var id := s.bindings[player];
      assert SessionOk(s, id);
      ReplaceKeepsInv(s, id, r.sessions[id]);
    }
  }

  lemma SwapKeepsBound(s: State, id: Entity)
    requires id in s.sessions ==> Inv(Dropped(s, id))
    requires id !in s.sessions ==> Inv(s)
    ensures Inv(Swap(s, id).0)
  {
    if id in s.sessions {
      var r, d := Swap(s, id).0, Dropped(s, id);
      forall i | i in r.sessions ensures SessionOk(r, i) {
        assert SessionOk(d, i);
      }
    }
  }

  lemma LockKeepsInv(s: State, player: Entity)
    requires Inv(s)
    ensures Inv(Lock(s, player).0)
  {
    if player in s.bindings {
      var id := s.bindings[player];
      assert SessionOk(s, id);
      var mine := MyOffer(s.sessions[id], player);
      if !mine.locked {
        var t := WithOffer(s.sessions[id], player, mine.(locked := true));
        var s1 := s.(sessions := s.sessions[id := t]);
        if t.a.locked && t.b.locked {
          forall i | i in s1.sessions && i != id ensures SessionOk(s1, i) {
            assert SessionOk(s, i);
          }
          DroppedKeepsInv(s1, id);
          SwapKeepsBound(s1, id);
        } else {
          ReplaceKeepsInv(s, id, t);
        }
      }
    }
  }

  lemma CancelKeepsInv(s: State, player: Entity)
    requires Inv(s)
    ensures player in s.bindings ==> s.bindings[player] in s.sessions
    ensures Inv(Cancel(s, player).0)
  {
    hide Dropped;
    if player in s.bindings {
      assert SessionOk(s, s.bindings[player]);
      DroppedKeepsInv(s, s.bindings[player]);
    }
  }

  lemma SwapKeepsInv(s: State, id: Entity)
    requires Inv(s)
    ensures Inv(Swap(s, id).0)
    ensures id in s.sessions ==> var t := s.sessions[id];
      t.a.player != t.b.player && t.a.player in s.bindings && s.bindings[t.a.player] == id
  {
    hide Swap, Dropped;
    if id in s.sessions {
      assert SessionOk(s, id);
      DroppedKeepsInv(s, id);
    }
    SwapKeepsBound(s, id);
  }

  /** Every step keeps bindings and sessions in agreement and leaves no session with both offers locked. */
  lemma StepKeepsInv(s: State, op: Op)
    requires Inv(s) && Legal(s, op)
    ensures Inv(Apply(s, op))
  {
    match op {
      case DoInit(id, a, b, known) => InitKeepsInv(s, id, a, b, known);
      case DoOffer(p, item, qty) => OfferKeepsInv(s, p, item, qty);
      case DoLock(p) => LockKeepsInv(s, p);
      case DoSwap(id) => SwapKeepsInv(s, id);
      case DoCancel(p) => CancelKeepsInv(s, p);
      case Elsewhere(inventories) =>
        var r := Apply(s, op);
        forall i | i in r.sessions ensures SessionOk(r, i) {
          assert SessionOk(s, i);
        }
    }
  }

  /** A player is in at most one session. */
  lemma OneSessionEach(s: State, player: Entity, i: Entity, j: Entity)
    requires Inv(s) && i in s.sessions && j in s.sessions
    requires Involves(s.sessions[i], player) && Involves(s.sessions[j], player)
    ensures i == j
  {
    assert SessionOk(s, i) && SessionOk(s, j);
  }

  // ---------- Locked offers ----------

  ghost predicate SameLocked(before: Offer, after: Offer) {
    before.locked ==> after == before
  }

  ghost predicate LockedKept(s: State, r: State, id: Entity) {
    id in s.sessions && id in r.sessions ==>
      SameLocked(s.sessions[id].a, r.sessions[id].a) && SameLocked(s.sessions[id].b, r.sessions[id].b)
  }

  lemma OfferKeepsLocked(s: State, player: Entity, item: ItemId, qty: int, id: Entity)
    requires player in s.bindings ==> s.bindings[player] in s.sessions && Involves(s.sessions[s.bindings[player]], player)
    ensures LockedKept(s, OfferedItem(s, player, item, qty).0, id)
  {
  }

  lemma LockKeepsLocked(s: State, player: Entity, id: Entity)
    requires player in s.bindings ==> s.bindings[player] in s.sessions && Involves(s.sessions[s.bindings[player]], player)
    ensures LockedKept(s, Lock(s, player).0, id)
  {
    hide Exchanged, Covered;
  }

  /** A locked offer is never changed while its session lasts. */
  lemma LockedOfferFixed(s: State, op: Op, id: Entity)
    requires Inv(s) && Legal(s, op)
    ensures LockedKept(s, Apply(s, op), id)
  {
    hide Exchanged, Covered, Lock, OfferedItem, SessionOk;
    match op {
      case DoOffer(p, item, qty) => OfferKeepsLocked(s, p, item, qty, id);
      case DoLock(p) => LockKeepsLocked(s, p, id);
      case _ =>
    }
  }

  // ---------- Offers only grow ----------

  ghost predicate Grown(before: Offer, after: Offer) {
    && after.player == before.player && SameLocked(before, after)
    && forall item :: Qty(before.items, item) <= Qty(after.items, item)
  }

  ghost predicate OffersGrown(before: Session, after: Session) {
    Grown(before.a, after.a) && Grown(before.b, after.b)
  }

  lemma WithOfferGrows(t: Session, player: Entity, offer: Offer)
    requires Grown(MyOffer(t, player), offer)
    ensures OffersGrown(t, WithOffer(t, player, offer))
  {
  }

  lemma MoreItemsGrow(mine: Offer, item: ItemId, qty: int)
    requires !mine.locked && qty > 0
    ensures Grown(mine, mine.(items := mine.items[item := Qty(mine.items, item) + qty]))
  {
  }

  lemma OfferGrows(s: State, player: Entity, item: ItemId, qty: int, id: Entity)
    requires player in s.bindings ==> s.bindings[player] in s.sessions
    requires id in s.sessions
    ensures var r := OfferedItem(s, player, item, qty).0;
      id in r.sessions && OffersGrown(s.sessions[id], r.sessions[id])
  {
    hide OffersGrown, WithOffer, MyOffer, Qty, Grown;
    GrownSelf(s.sessions[id]);
    if OfferedItem(s, player, item, qty).1 == Offered {
      var t := s.sessions[s.bindings[player]];
      var mine := MyOffer(t, player);
      MoreItemsGrow(mine, item, qty);
      WithOfferGrows(t, player, mine.(items := mine.items[item := Qty(mine.items, item) + qty]));
    }
  }

  lemma LockGrows(s: State, player: Entity, id: Entity)
    requires player in s.bindings ==> s.bindings[player] in s.sessions
    requires id in s.sessions && id in Lock(s, player).0.sessions
    ensures OffersGrown(s.sessions[id], Lock(s, player).0.sessions[id])
  {
    hide Exchanged, Covered, OffersGrown, WithOffer, MyOffer;
    GrownSelf(s.sessions[id]);
    if player in s.bindings {
      var t := s.sessions[s.bindings[player]];
      var mine := MyOffer(t, player);
      if !mine.locked {
        WithOfferGrows(t, player, mine.(locked := true));
      }
    }
  }

  /** While a session lasts no step takes anything out of either of its offers. */
  lemma StepGrowsOffers(s: State, op: Op, id: Entity)
    requires Inv(s) && Legal(s, op) && id in s.sessions && id in Apply(s, op).sessions
    ensures OffersGrown(s.sessions[id], Apply(s, op).sessions[id])
  {
    hide Exchanged, Covered, Lock, OfferedItem, SessionOk, OffersGrown;
    GrownSelf(s.sessions[id]);
    match op {
      case DoOffer(p, item, qty) => OfferGrows(s, p, item, qty, id);
      case DoLock(p) => LockGrows(s, p, id);
      case _ =>
    }
  }

  // ---------- Conservation ----------

  function Held(inventories: map<Entity, Items>, player: Entity, item: ItemId): int {
    if player in inventories then Qty(inventories[player], item) else 0
  }

  /** What a list of players holds of one item. */
  function Total(players: seq<Entity>, inventories: map<Entity, Items>, item: ItemId): int {
    if |players| == 0 then 0
    else Total(players[..|players| - 1], inventories, item) + Held(inventories, players[|players| - 1], item)
  }

  lemma {:induction false} TotalUnchanged(players: seq<Entity>, m: map<Entity, Items>, n: map<Entity, Items>, item: ItemId)
    requires forall p :: p in players ==> Held(m, p, item) == Held(n, p, item)
    ensures Total(players, m, item) == Total(players, n, item)
  {
    if |players| > 0 {
      TotalUnchanged(players[..|players| - 1], m, n, item);
    }
  }

  /** Moving d of an item from one listed player to another leaves the list's total as it was. */
  lemma {:induction false} TotalShift(
      players: seq<Entity>, m: map<Entity, Items>, n: map<Entity, Items>, item: ItemId, a: Entity, d: int)
    requires Distinct(players) && a in players
    requires Held(n, a, item) == Held(m, a, item) + d
    requires forall p :: p in players && p != a ==> Held(m, p, item) == Held(n, p, item)
    ensures Total(players, n, item) == Total(players, m, item) + d
  {
    var init, last := players[..|players| - 1], players[|players| - 1];
    if last == a {
      assert a !in init;
      TotalUnchanged(init, m, n, item);
    } else {
      TotalShift(init, m, n, item, a, d);
    }
  }

  /** Players a and b exchange exactly what they give each other. */
  ghost predicate ExchangeBetween(
      before: map<Entity, Items>, after: map<Entity, Items>, a: Entity, b: Entity, give: Items, get: Items)
  {
    && a != b && a in before && b in before
    && Covered(before[a], give) && Covered(before[b], get)
    && (forall item :: item in give ==> give[item] > 0) && (forall item :: item in get ==> get[item] > 0)
    && after == before[a := Exchanged(before[a], give, get)][b := Exchanged(before[b], get, give)]
  }

  /** The session's own two players exchange their own two offers. */
  ghost predicate OffersExchanged(before: map<Entity, Items>, after: map<Entity, Items>, t: Session) {
    ExchangeBetween(before, after, t.a.player, t.b.player, t.a.items, t.b.items)
  }

  /** Both players of the session still hold what they offered. */
  predicate SwapReady(s: State, id: Entity) {
    id in s.sessions
    && var t := s.sessions[id];
      t.a.player in s.inventories && t.b.player in s.inventories
      && Covered(s.inventories[t.a.player], t.a.items) && Covered(s.inventories[t.b.player], t.b.items)
  }

  lemma SwapAllOrNothing(s: State, id: Entity)
    requires id in s.sessions ==> var t := s.sessions[id];
      t.a.player != t.b.player
      && (forall item :: item in t.a.items ==> t.a.items[item] > 0)
      && (forall item :: item in t.b.items ==> t.b.items[item] > 0)
    ensures var after := Swap(s, id).0.inventories;
      if SwapReady(s, id) then OffersExchanged(s.inventories, after, s.sessions[id]) else after == s.inventories
  {
    hide Exchanged, Covered;
  }

  function TheirOffer(session: Session, player: Entity): Offer {
    if session.a.player == player then session.b else session.a
  }

  /** The counterparty has locked, the player has not, and both still hold what they offered. */
  predicate LockCompletes(s: State, player: Entity)
    requires player in s.bindings ==> s.bindings[player] in s.sessions
  {
    player in s.bindings
    && var t := s.sessions[s.bindings[player]];
      !MyOffer(t, player).locked && TheirOffer(t, player).locked && SwapReady(s, s.bindings[player])
  }

  /** Locking exchanges the two offers of the player's session exactly if it is the second of two locks and
      both offers are covered by the inventories as they are now; else it moves nothing. */
  lemma LockAllOrNothing(s: State, player: Entity)
    requires Inv(s)
    ensures player in s.bindings ==> s.bindings[player] in s.sessions
    ensures var after := Lock(s, player).0.inventories;
      if LockCompletes(s, player) then OffersExchanged(s.inventories, after, s.sessions[s.bindings[player]])
      else after == s.inventories
  {
    hide Exchanged, Covered, Swap;
    if player in s.bindings {
      var id := s.bindings[player];
      assert SessionOk(s, id);
      var t := WithOffer(s.sessions[id], player, MyOffer(s.sessions[id], player).(locked := true));
      SwapAllOrNothing(s.(sessions := s.sessions[id := t]), id);
    }
  }

  /** All or nothing, for every step: only the second lock of a session and the direct swap move items, and
      they exchange that session's offers or leave every inventory alone. */
  lemma StepAllOrNothing(s: State, op: Op)
    requires Inv(s) && Legal(s, op) && !op.Elsewhere?
    ensures op.DoLock? && op.player in s.bindings ==> s.bindings[op.player] in s.sessions
    ensures var after := Apply(s, op).inventories;
      if op.DoLock? && LockCompletes(s, op.player) then
        OffersExchanged(s.inventories, after, s.sessions[s.bindings[op.player]])
      else if op.DoSwap? && SwapReady(s, op.id) then OffersExchanged(s.inventories, after, s.sessions[op.id])
      else after == s.inventories
  {
    hide OffersExchanged, Exchanged, Covered, SwapReady, Swap, Lock;
    match op {
      case DoLock(p) => LockAllOrNothing(s, p);
      case DoSwap(id) =>
        if id in s.sessions {
          assert SessionOk(s, id);
        }
        SwapAllOrNothing(s, id);
      case _ =>
    }
  }

  lemma StepExchanges(s: State, op: Op) returns (t: Session)
    requires Inv(s) && Legal(s, op) && !op.Elsewhere? && Apply(s, op).inventories != s.inventories
    ensures OffersExchanged(s.inventories, Apply(s, op).inventories, t)
  {
    hide OffersExchanged, Covered, Apply, Inv;
    StepAllOrNothing(s, op);
    t := if op.DoLock? then s.sessions[s.bindings[op.player]] else s.sessions[op.id];
  }

  /** The direct swap does not look at the locks. A session with both offers locked does not last, so each time
      it moves items at least one of the two offers is still open. */
  lemma DirectSwapIsUnlocked(s: State, id: Entity)
    requires Inv(s)
    ensures Swap(s, id).1 == Swapped <==> SwapReady(s, id)
    ensures SwapReady(s, id) ==> !(s.sessions[id].a.locked && s.sessions[id].b.locked)
  {
    hide Exchanged, Covered;
    if id in s.sessions {
      assert SessionOk(s, id);
    }
  }

  /** A case: one player offers an item and nobody locks; the direct swap hands it over. */
  lemma UnlockedSwapMovesItems(id: Entity, a: Entity, b: Entity, item: ItemId)
    requires a != b
    ensures var s := State(map[], map[], map[a := map[item := 5], b := map[]]);
      var offered := OfferedItem(Initialized(s, id, a, b, true).0, a, item, 2).0;
      var after := Swap(offered, id).0.inventories;
      id in offered.sessions && !offered.sessions[id].a.locked && !offered.sessions[id].b.locked
      && Held(after, a, item) == 3 && Held(after, b, item) == 2
  {
    var s := State(map[], map[], map[a := map[item := 5], b := map[]]);
    var offered := OfferedItem(Initialized(s, id, a, b, true).0, a, item, 2).0;
    assert offered.sessions[id] == Session(Offer(a, false, map[item := 2]), Offer(b, false, map[]));
    ExchangedQty(map[item := 5], map[item := 2], map[], item);
    ExchangedQty(map[], map[], map[item := 2], item);
  }

  lemma ExchangeConserves(
      m: map<Entity, Items>, n: map<Entity, Items>, a: Entity, b: Entity, give: Items, get: Items,
      players: seq<Entity>, item: ItemId)
    requires ExchangeBetween(m, n, a, b, give, get)
    requires Distinct(players) && forall p :: p in m ==> p in players
    ensures Total(players, n, item) == Total(players, m, item)
  {
    hide Exchanged, Total, Distinct, Covered, Qty;
    var mid := m[a := Exchanged(m[a], give, get)];
    ExchangedQty(m[a], give, get, item);
    ExchangedQty(m[b], get, give, item);
    var d := Qty(get, item) - Qty(give, item);
    TotalShift(players, m, mid, item, a, d);
    TotalShift(players, mid, n, item, b, -d);
  }

  lemma ExchangeKeepsNonNegative(
      m: map<Entity, Items>, n: map<Entity, Items>, a: Entity, b: Entity, give: Items, get: Items)
    requires ExchangeBetween(m, n, a, b, give, get) && AllNonNegative(m)
    ensures AllNonNegative(n)
  {
    hide Exchanged, Covered;
    ExchangedNonNegative(m[a], give, get);
    ExchangedNonNegative(m[b], get, give);
  }

  /** Conservation: no trade step changes how much of an item exists among any players that include everyone
      with an inventory. */
  lemma StepConserves(s: State, op: Op, players: seq<Entity>, item: ItemId)
    requires Inv(s) && Legal(s, op) && !op.Elsewhere?
    requires Distinct(players) && forall p :: p in s.inventories ==> p in players
    ensures Total(players, Apply(s, op).inventories, item) == Total(players, s.inventories, item)
    ensures Apply(s, op).inventories.Keys == s.inventories.Keys
  {
    hide Apply, Inv, Total, Distinct;
    var m, n := s.inventories, Apply(s, op).inventories;
    if m != n {
      var t := StepExchanges(s, op);
      ExchangeConserves(m, n, t.a.player, t.b.player, t.a.items, t.b.items, players, item);
    }
  }

  lemma StepKeepsNonNegative(s: State, op: Op)
    requires Inv(s) && Legal(s, op) && AllNonNegative(s.inventories)
    ensures AllNonNegative(Apply(s, op).inventories)
  {
    hide Inv, ExchangeBetween, AllNonNegative;
    if !op.Elsewhere? && Apply(s, op).inventories != s.inventories {
      var t := StepExchanges(s, op);
      ExchangeKeepsNonNegative(
        s.inventories, Apply(s, op).inventories, t.a.player, t.b.player, t.a.items, t.b.items);
    }
  }

  // ---------- Whole runs ----------

  /** One step of any kind. Steps are defined where the invariant holds; that it does is what is proved, and a
      state without it may be followed by any other. */
  ghost predicate Follows(s: State, t: State) {
    exists op :: Legal(s, op) && (Inv(s) ==> t == Apply(s, op))
  }

  ghost predicate IsRun(states: seq<State>) {
    && |states| > 0 && states[0].sessions == map[] && states[0].bindings == map[]
    && AllNonNegative(states[0].inventories)
    && forall i :: 0 <= i < |states| - 1 ==> Follows(states[i], states[i + 1])
  }

  /** Over every run, whatever happens to inventories elsewhere, the invariant holds and no quantity is
      negative. */
  lemma {:induction false} RunIsSound(states: seq<State>)
    requires IsRun(states)
    ensures Inv(states[|states| - 1]) && AllNonNegative(states[|states| - 1].inventories)
    decreases |states|
  {
    hide Apply, AllNonNegative;
    if |states| > 1 {
      var n := |states| - 1;
      RunIsSound(states[..n]);
      assert Follows(states[n - 1], states[n - 1 + 1]);
      var op :| Legal(states[n - 1], op) && states[n] == Apply(states[n - 1], op);
      StepKeepsInv(states[n - 1], op);
      StepKeepsNonNegative(states[n - 1], op);
    }
  }

  /** One call on the trade registry. */
  ghost predicate TradeFollows(s: State, t: State) {
    exists op :: Legal(s, op) && !op.Elsewhere? && (Inv(s) ==> t == Apply(s, op))
  }

  /** Over every run of trade steps alone, from any sound state, each item's total over all players is what it
      was at the start, and the state stays sound. */
  lemma {:induction false} RunConserves(states: seq<State>, players: seq<Entity>, item: ItemId)
    requires |states| > 0 && Inv(states[0])
    requires Distinct(players) && forall p :: p in states[0].inventories ==> p in players
    requires forall i :: 0 <= i < |states| - 1 ==> TradeFollows(states[i], states[i + 1])
    ensures Inv(states[|states| - 1])
    ensures Total(players, states[|states| - 1].inventories, item) == Total(players, states[0].inventories, item)
    ensures states[|states| - 1].inventories.Keys == states[0].inventories.Keys
    decreases |states|
  {
    hide Apply, Inv;
    if |states| > 1 {
      var n := |states| - 1;
      RunConserves(states[..n], players, item);
      assert TradeFollows(states[n - 1], states[n - 1 + 1]);
      var op :| Legal(states[n - 1], op) && !op.Elsewhere? && states[n] == Apply(states[n - 1], op);
      StepKeepsInv(states[n - 1], op);
      StepConserves(states[n - 1], op, players, item);
    }
  }

  lemma GrownTransitive(x: Session, y: Session, z: Session)
    requires OffersGrown(x, y) && OffersGrown(y, z)
    ensures OffersGrown(x, z)
  {
    forall item
      ensures Qty(x.a.items, item) <= Qty(z.a.items, item) && Qty(x.b.items, item) <= Qty(z.b.items, item)
    {
      assert Qty(x.a.items, item) <= Qty(y.a.items, item) <= Qty(z.a.items, item);
      assert Qty(x.b.items, item) <= Qty(y.b.items, item) <= Qty(z.b.items, item);
    }
  }

  /** Over every run during which a session lasts, its offers only grow and a locked one stays as it is. */
  lemma {:induction false} RunGrowsOffers(states: seq<State>, id: Entity)
    requires |states| > 0 && Inv(states[0])
    requires forall i :: 0 <= i < |states| - 1 ==> Follows(states[i], states[i + 1])
    requires forall i :: 0 <= i < |states| ==> id in states[i].sessions
    ensures Inv(states[|states| - 1])
    ensures OffersGrown(states[0].sessions[id], states[|states| - 1].sessions[id])
    decreases |states|
  {
    hide Apply, Inv, OffersGrown;
    if |states| > 1 {
      var n := |states| - 1;
      RunGrowsOffers(states[..n], id);
      assert Follows(states[n - 1], states[n - 1 + 1]);
      var op :| Legal(states[n - 1], op) && states[n] == Apply(states[n - 1], op);
      StepKeepsInv(states[n - 1], op);
      StepGrowsOffers(states[n - 1], op, id);
      GrownTransitive(states[0].sessions[id], states[n - 1].sessions[id], states[n].sessions[id]);
    } else {
      assert OffersGrown(states[0].sessions[id], states[0].sessions[id]) by { GrownSelf(states[0].sessions[id]); }
    }
  }

  lemma GrownSelf(t: Session)
    ensures OffersGrown(t, t)
  {
  }

  /** What locking buys: if a player's offer was locked at some point of a session, and the session lasts until a
      step exchanges its offers, then of every item that player ends with at least what was held before the
      exchange, less the offer as it was locked, plus what the other had offered at that point. */
  lemma LockedPlayerGets(states: seq<State>, id: Entity, op: Op, player: Entity, item: ItemId)
    requires |states| > 0 && Inv(states[0])
    requires forall i :: 0 <= i < |states| - 1 ==> Follows(states[i], states[i + 1])
    requires forall i :: 0 <= i < |states| ==> id in states[i].sessions
    requires Legal(states[|states| - 1], op) && !op.Elsewhere?
    requires var s := states[|states| - 1];
      Inv(s) ==> OffersExchanged(s.inventories, Apply(s, op).inventories, s.sessions[id])
    requires Involves(states[0].sessions[id], player) && MyOffer(states[0].sessions[id], player).locked
    ensures Inv(states[|states| - 1])
    ensures var s, t := states[|states| - 1], states[0].sessions[id];
      Held(Apply(s, op).inventories, player, item) >= Held(s.inventories, player, item)
        - Qty(MyOffer(t, player).items, item) + Qty(TheirOffer(t, player).items, item)
  {
    hide Apply, Inv, Exchanged, Covered, Qty;
    RunGrowsOffers(states, id);
    var s := states[|states| - 1];
    var u := s.sessions[id];
    ExchangedQty(s.inventories[u.a.player], u.a.items, u.b.items, item);
    ExchangedQty(s.inventories[u.b.player], u.b.items, u.a.items, item);
  }

  // ---------- The registry object ----------

  class TradeRegistry {
    var sessions: map<Entity, Session>
    var bindings: map<Entity, Entity>
    var inventories: map<Entity, Items>  // the registry's inventory store

    function Now(): State
      reads this
    {
      State(sessions, bindings, inventories)
    }

    constructor (startInventories: map<Entity, Items>)
      ensures Now() == State(map[], map[], startInventories) && Inv(Now())
    {
      sessions, bindings, inventories := map[], map[], startInventories;
    }

    method InitializeTradeSession(playerA: Entity, playerB: Entity, targetKnown: bool, sessionID: Entity)
        returns (reply: Reply)
      requires Inv(Now()) && sessionID !in sessions
      modifies this
      ensures (Now(), reply) == Initialized(old(Now()), sessionID, playerA, playerB, targetKnown) && Inv(Now())
    {
      InitKeepsInv(Now(), sessionID, playerA, playerB, targetKnown);
      if playerA == playerB {
        return SelfTrade;
      }
      if !targetKnown {
        return NoTarget;
      }
      if playerA in bindings {
        return Busy;
      }
      if playerB in bindings {
        return Busy;
      }
      sessions := sessions[sessionID := Session(Offer(playerA, false, map[]), Offer(playerB, false, map[]))];
      bindings := bindings[playerA := sessionID];
      bindings := bindings[playerB := sessionID];
      return Opened;
    }

    method OfferItemToTrade(playerID: Entity, itemID: ItemId, qty: int) returns (reply: Reply)
      requires Inv(Now())
      modifies this
      ensures (Now(), reply) == OfferedItem(old(Now()), playerID, itemID, qty) && Inv(Now())
    {
      hide Inv;
      OfferKeepsInv(Now(), playerID, itemID, qty);
      if qty <= 0 {
        return BadQuantity;
      }
      if playerID !in bindings {
        return NotTrading;
      }
      BoundSession(Now(), playerID);
      var sessionID := bindings[playerID];
      var session := sessions[sessionID];
      var currentOffer := if session.a.player == playerID then session.a else session.b;
      if currentOffer.locked {
        return OfferLocked;
      }
      if playerID !in inventories {
        return NoInventory;
      }
      var totalOffered := Qty(currentOffer.items, itemID) + qty;
      if Qty(inventories[playerID], itemID) < totalOffered {
        return TooFew;
      }
      var offer := currentOffer.(items := currentOffer.items[itemID := totalOffered]);
      sessions := sessions[sessionID :=
        if session.a.player == playerID then session.(a := offer) else session.(b := offer)];
      return Offered;
    }

    method LockTradeStage(playerID: Entity) returns (reply: Reply)
      requires Inv(Now())
      modifies this
      ensures (Now(), reply) == Lock(old(Now()), playerID) && Inv(Now())
    {
      LockKeepsInv(Now(), playerID);
      hide Inv, Swap, Initialized, OfferedItem, Cancel, Dropped;
      if playerID !in bindings {
        return NotTrading;
      }
      BoundSession(Now(), playerID);
      var sessionID := bindings[playerID];
      var session := sessions[sessionID];
      var mine := if session.a.player == playerID then session.a else session.b;
      if mine.locked {
        return AlreadyLocked;
      }
      var locked := mine.(locked := true);
      session := if session.a.player == playerID then session.(a := locked) else session.(b := locked);
      sessions := sessions[sessionID := session];
      if session.a.locked && session.b.locked {
        reply := ExecuteSwapLocked(sessionID);
        return;
      }
      return Waiting;
    }

    /** The swap: re-validates both offers against the inventories as they are now, then moves the items. */
    method ExecuteSwapLocked(sessionID: Entity) returns (reply: Reply)
      requires sessionID in sessions ==> var t := sessions[sessionID];
        t.a.player != t.b.player && t.a.player in bindings && bindings[t.a.player] == sessionID
      modifies this
      ensures (Now(), reply) == Swap(old(Now()), sessionID)
    {
      if sessionID !in sessions {
        return NoSession;
      }
      var session := sessions[sessionID];
      var pA := session.a.player;
      var pB := session.b.player;
      if pA !in inventories || pB !in inventories {
        CancelLocked(pA);
        return Aborted;
      }
      var invA := inventories[pA];
      var invB := inventories[pB];
      var enoughA := HasAll(invA, session.a.items);
      if !enoughA {
        CancelLocked(pA);
        return Aborted;
      }
      var enoughB := HasAll(invB, session.b.items);
      if !enoughB {
        CancelLocked(pA);
        return Aborted;
      }
      invA := Deduct(invA, session.a.items);
      invA := Inject(invA, session.b.items);
      invB := Deduct(invB, session.b.items);
      invB := Inject(invB, session.a.items);
      inventories := inventories[pA := invA];
      inventories := inventories[pB := invB];
      bindings := bindings - {pA};
      bindings := bindings - {pB};
      sessions := sessions - {sessionID};
      assert bindings == old(bindings) - {pA, pB};
      return Swapped;
    }

    /** The exported swap: the same, on any session, without a look at the locks. */
    method ExecuteAtomicTradeSwap(sessionID: Entity) returns (reply: Reply)
      requires Inv(Now())
      modifies this
      ensures (Now(), reply) == Swap(old(Now()), sessionID) && Inv(Now())
    {
      SwapKeepsInv(Now(), sessionID);
      hide Inv, Swap;
      reply := ExecuteSwapLocked(sessionID);
    }

    method CancelLocked(playerID: Entity)
      requires playerID in bindings ==> bindings[playerID] in sessions
      modifies this
      ensures Now() == Cancel(old(Now()), playerID).0
    {
      if playerID !in bindings {
        return;
      }
      var sessionID := bindings[playerID];
      var session := sessions[sessionID];
      bindings := bindings - {session.a.player};
      bindings := bindings - {session.b.player};
      sessions := sessions - {sessionID};
      assert bindings == old(bindings) - {session.a.player, session.b.player};
    }

    method CancelTradeSession(playerID: Entity) returns (reply: Reply)
      requires Inv(Now())
      modifies this
      ensures (Now(), reply) == Cancel(old(Now()), playerID) && Inv(Now())
    {
      hide Inv;
      CancelKeepsInv(Now(), playerID);
      if playerID in bindings {
        BoundSession(Now(), playerID);
      }
      reply := if playerID in bindings then Cancelled else NotTrading;
      CancelLocked(playerID);
    }

    method HasAll(items: Items, offer: Items) returns (ok: bool)
      ensures ok <==> Covered(items, offer)
    {
      var rest: set<ItemId> := offer.Keys;
      while rest != {}
        invariant rest <= offer.Keys
        invariant forall item :: item in offer && item !in rest ==> Qty(items, item) >= offer[item]
        decreases rest
      {
        var item :| item in rest;
        if Qty(items, item) < offer[item] {
          return false;
        }
        rest := rest - {item};
      }
      return true;
    }

    method Deduct(items: Items, give: Items) returns (r: Items)
      ensures r == Deducted(items, give)
    {
      r := items;
      var rest: set<ItemId> := give.Keys;
      while rest != {}
        invariant rest <= give.Keys
        invariant forall item :: item in r <==> if item in give && item !in rest then Qty(items, item) != give[item]
          else item in items
        invariant forall item :: item in r ==>
          r[item] == if item in rest then Qty(items, item) else Qty(items, item) - Qty(give, item)
        decreases rest
      {
        var item :| item in rest;
        var left := Qty(r, item) - give[item];
        r := r[item := left];
        if left == 0 {
          r := r - {item};
        }
        rest := rest - {item};
      }
      DeductedIs(items, give, r);
    }

    method Inject(items: Items, get: Items) returns (r: Items)
      ensures r == Injected(items, get)
    {
      r := items;
      var rest: set<ItemId> := get.Keys;
      while rest != {}
        invariant rest <= get.Keys
        invariant r.Keys == items.Keys + (get.Keys - rest)
        invariant forall item :: item in r ==>
          r[item] == if item in rest then Qty(items, item) else Qty(items, item) + Qty(get, item)
        decreases rest
      {
        var item :| item in rest;
        r := r[item := Qty(r, item) + get[item]];
        rest := rest - {item};
      }
      InjectedIs(items, get, r);
    }
  }

  lemma DeductedIs(items: Items, give: Items, r: Items)
    requires forall item :: item in r <==> if item in give then Qty(items, item) != give[item] else item in items
    requires forall item :: item in r ==> r[item] == Qty(items, item) - Qty(give, item)
    ensures r == Deducted(items, give)
  {
    forall item ensures item in r <==> item in Deducted(items, give) {
    }
  }

  lemma InjectedIs(items: Items, get: Items, r: Items)
    requires r.Keys == items.Keys + get.Keys
    requires forall item :: item in r ==> r[item] == Qty(items, item) + Qty(get, item)
    ensures r == Injected(items, get)
  {
  }

  lemma BoundSession(s: State, player: Entity)
    requires Inv(s) && player in s.bindings
    ensures s.bindings[player] in s.sessions && Involves(s.sessions[s.bindings[player]], player)
    ensures var id := s.bindings[player]; var t := s.sessions[id];
      t.a.player != t.b.player && t.a.player in s.bindings && s.bindings[t.a.player] == id
      && t.b.player in s.bindings && s.bindings[t.b.player] == id
  {
    assert SessionOk(s, s.bindings[player]);
  }
}
