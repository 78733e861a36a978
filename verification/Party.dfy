/** Parties and invitations. Texts, broadcasts and names are left out; the tick counter is part of the state. */
module Party {
  import opened Counting
  import EntityIds

  type Entity = EntityIds.Entity

  const MAX_PARTY_SIZE: int := 4
  const INVITE_TICKS: int := 120

  datatype Party = Party(leader: Entity, members: seq<Entity>)
  datatype Invite = Invite(party: Entity, expiresAt: nat)

  datatype Reply =
    | Created | Invited | Joined
    | AlreadyInParty | NotInParty | PartyNotFound | NotLeader | PartyFull | TargetNotFound | TargetInParty
    | NoInvitation | WrongParty | PartyGone

  /** The party and member stores, the invitation cache and the current tick; and, for counting, how often each
      player was invited to and joined each party. */
  datatype State = State(
    parties: map<Entity, Party>, memberOf: map<Entity, Entity>, invites: map<Entity, Invite>, tick: nat,
    invited: multiset<(Entity, Entity)>, joined: multiset<(Entity, Entity)>)

  const START: State := State(map[], map[], map[], 0, multiset{}, multiset{})

  // ---------- Operations ----------

  function Create(s: State, leader: Entity, id: Entity): (State, Reply) {
    if leader in s.memberOf then (s, AlreadyInParty)
    else (s.(parties := s.parties[id := Party(leader, [leader])], memberOf := s.memberOf[leader := id]), Created)
  }

  /** The player's party, or 0. */
  function PartyOf(s: State, player: Entity): Entity {
    if player in s.memberOf then s.memberOf[player] else 0
  }

  function SendInvite(s: State, inviter: Entity, target: Entity, targetKnown: bool): (State, Reply) {
    var id := PartyOf(s, inviter);
    if id == 0 then (s, NotInParty)
    else if id !in s.parties then (s, PartyNotFound)
    else if s.parties[id].leader != inviter then (s, NotLeader)
    else if |s.parties[id].members| >= MAX_PARTY_SIZE then (s, PartyFull)
    else if !targetKnown then (s, TargetNotFound)
    else if PartyOf(s, target) != 0 then (s, TargetInParty)
    else
      (s.(invites := s.invites[target := Invite(id, s.tick + INVITE_TICKS)],
          invited := s.invited + multiset{(target, id)}), Invited)
  }

  /** Takes the player's invitation out of the cache, expired or not. */
  function Taken(s: State, player: Entity): State {
    s.(invites := s.invites - {player})
  }

  function Accept(s: State, player: Entity, target: Entity): (State, Reply) {
    if player !in s.invites then (s, NoInvitation)
    else
      var record, t := s.invites[player], Taken(s, player);
      if s.tick >= record.expiresAt then (t, NoInvitation)
      else if record.party != target then (t, WrongParty)
      else if target !in s.parties then (t, PartyGone)
      else if PartyOf(s, player) != 0 then (t, AlreadyInParty)
      else if |s.parties[target].members| >= MAX_PARTY_SIZE then (t, PartyFull)
      else (Added(t, player, target), Joined)
  }

  function Added(s: State, player: Entity, id: Entity): State
    requires id in s.parties
  {
    var party := s.parties[id];
    s.(parties := s.parties[id := party.(members := party.members + [player])],
       memberOf := s.memberOf[player := id], joined := s.joined + multiset{(player, id)})
  }

  function Without(members: seq<Entity>, player: Entity): (r: seq<Entity>) {
    if |members| == 0 then []
    else
      Without(members[..|members| - 1], player)
      + if members[|members| - 1] == player then [] else [members[|members| - 1]]
  }

  /** Leaving drops the player from the roster; an empty party is deleted, and a party that lost its leader is
      led by the first of the remaining members. */
  function Leave(s: State, player: Entity): State {
    if player !in s.memberOf then s
    else
      var id := s.memberOf[player];
      var t := s.(memberOf := s.memberOf - {player});
      if id !in s.parties then t
      else
        var party := s.parties[id];
        var rest := Without(party.members, player);
        if |rest| == 0 then t.(parties := s.parties - {id})
        else t.(parties := s.parties[id := Party(if player == party.leader then rest[0] else party.leader, rest)])
  }

  function Purged(s: State): State {
    s.(invites := map p | p in s.invites && s.tick < s.invites[p].expiresAt :: s.invites[p])
  }

  // ---------- The invariant ----------

  ghost predicate PartyOk(s: State, id: Entity)
    requires id in s.parties
  {
    var party := s.parties[id];
    && Distinct(party.members) && 1 <= |party.members| <= MAX_PARTY_SIZE && party.leader in party.members
    && forall m :: m in party.members ==> m in s.memberOf && s.memberOf[m] == id
  }

  ghost predicate RostersAgree(s: State) {
    && 0 !in s.parties
    && (forall p :: p in s.memberOf ==> s.memberOf[p] in s.parties && p in s.parties[s.memberOf[p]].members)
    && (forall id :: id in s.parties ==> PartyOk(s, id))
  }

  function PendingFor(s: State, player: Entity, id: Entity): nat {
    if player in s.invites && s.invites[player].party == id then 1 else 0
  }

  /** Every join, and the invitation still pending, is paid for by an invitation sent. */
  ghost predicate InvitesCover(s: State) {
    forall player, id :: InviteCovered(s, player, id)
  }

  ghost predicate InviteCovered(s: State, player: Entity, id: Entity) {
    s.joined[(player, id)] + PendingFor(s, player, id) <= s.invited[(player, id)]
  }

  /** No invitation is good for more than 120 ticks from now. */
  ghost predicate InvitesTimely(s: State) {
    forall p :: p in s.invites ==> s.invites[p].expiresAt <= s.tick + INVITE_TICKS
  }

  ghost predicate Inv(s: State) {
    RostersAgree(s) && InvitesCover(s) && InvitesTimely(s)
  }

  // ---------- Steps ----------

  datatype Op =
    | DoCreate(leader: Entity, id: Entity)
    | DoInvite(inviter: Entity, target: Entity, targetKnown: bool)
    | DoAccept(player: Entity, party: Entity)
    | DoLeave(player: Entity)
    | DoPurge
    | DoTick

  /** A new party gets a fresh, non-zero entity ID. */
  ghost predicate Legal(s: State, op: Op) {
    op.DoCreate? ==> op.id != 0 && op.id !in s.parties
  }

  ghost function Apply(s: State, op: Op): State {
    match op
    case DoCreate(leader, id) => Create(s, leader, id).0
    case DoInvite(inviter, target, known) => SendInvite(s, inviter, target, known).0
    case DoAccept(player, party) => Accept(s, player, party).0
    case DoLeave(player) => Leave(s, player)
    case DoPurge => Purged(s)
    case DoTick => s.(tick := s.tick + 1)
  }

  lemma {:induction false} WithoutIs(members: seq<Entity>, player: Entity)
    requires Distinct(members)
    ensures var r := Without(members, player);
      Distinct(r) && |r| <= |members| && forall m :: m in r <==> m in members && m != player
  {
    if |members| > 0 {
      var init := members[..|members| - 1];
      WithoutIs(init, player);
      assert members == init + [members[|members| - 1]];
      assert members[|members| - 1] !in init;
    }
  }

  lemma CreateKeeps(s: State, leader: Entity, id: Entity)
    requires RostersAgree(s) && id != 0 && id !in s.parties
    ensures RostersAgree(Create(s, leader, id).0)
  {
    if leader !in s.memberOf {
      var r := Create(s, leader, id).0;
      forall i | i in r.parties ensures PartyOk(r, i) {
        if i != id {
          assert PartyOk(s, i);
        }
      }
    }
  }

  lemma AddedKeeps(s: State, player: Entity, id: Entity)
    requires RostersAgree(s) && id in s.parties && player !in s.memberOf && |s.parties[id].members| < MAX_PARTY_SIZE
    ensures RostersAgree(Added(s, player, id))
  {
    var r := Added(s, player, id);
    assert PartyOk(s, id);
    assert player !in s.parties[id].members;
    forall i | i in r.parties ensures PartyOk(r, i) {
      assert PartyOk(s, i);
    }
  }

  /** One party's roster replaced by a smaller one, and the player dropped from it bound to none. */
  lemma ShrinkKeeps(s: State, id: Entity, player: Entity, party: Party)
    requires RostersAgree(s) && id in s.parties && player in s.memberOf && s.memberOf[player] == id
    requires Distinct(party.members) && 1 <= |party.members| <= MAX_PARTY_SIZE && party.leader in party.members
    requires forall m :: m in party.members <==> m in s.parties[id].members && m != player
    ensures RostersAgree(s.(parties := s.parties[id := party], memberOf := s.memberOf - {player}))
  {
    hide Distinct, PartyOk;
    var r := s.(parties := s.parties[id := party], memberOf := s.memberOf - {player});
    forall p | p in r.memberOf ensures r.memberOf[p] in r.parties && p in r.parties[r.memberOf[p]].members {
      assert p in s.parties[s.memberOf[p]].members;
    }
    forall i | i in r.parties ensures PartyOk(r, i) {
      assert PartyOk(s, i) && PartyOk(s, id);
      ShrinkKeepsParty(s, id, player, party, i);
    }
  }

  lemma ShrinkKeepsParty(s: State, id: Entity, player: Entity, party: Party, i: Entity)
    requires id in s.parties && i in s.parties && PartyOk(s, id) && PartyOk(s, i)
    requires player in s.memberOf && s.memberOf[player] == id
    requires Distinct(party.members) && 1 <= |party.members| <= MAX_PARTY_SIZE && party.leader in party.members
    requires forall m :: m in party.members <==> m in s.parties[id].members && m != player
    ensures PartyOk(s.(parties := s.parties[id := party], memberOf := s.memberOf - {player}), i)
  {
    hide Distinct;
  }

  lemma DisbandKeeps(s: State, id: Entity, player: Entity)
    requires RostersAgree(s) && id in s.parties && player in s.memberOf && s.memberOf[player] == id
    requires forall m :: m in s.parties[id].members ==> m == player
    ensures RostersAgree(s.(parties := s.parties - {id}, memberOf := s.memberOf - {player}))
  {
    var r := s.(parties := s.parties - {id}, memberOf := s.memberOf - {player});
    forall i | i in r.parties ensures PartyOk(r, i) {
      assert PartyOk(s, i);
    }
  }

  lemma LeaveKeeps(s: State, player: Entity)
    requires RostersAgree(s)
    ensures RostersAgree(Leave(s, player))
  {
    if player in s.memberOf {
      var id := s.memberOf[player];
      assert PartyOk(s, id);
      hide Without, Distinct;
      var party := s.parties[id];
      var rest := Without(party.members, player);
      WithoutIs(party.members, player);
      if |rest| == 0 {
        DisbandKeeps(s, id, player);
      } else {
        ShrinkKeeps(s, id, player, Party(if player == party.leader then rest[0] else party.leader, rest));
      }
    }
  }

  lemma AcceptKeeps(s: State, player: Entity, party: Entity)
    requires RostersAgree(s)
    ensures RostersAgree(Accept(s, player, party).0)
  {
    hide Added, PartyOk;
    SameRosters(s, Taken(s, player));
    if Accept(s, player, party).1 == Joined {
      AddedKeeps(Taken(s, player), player, party);
    }
  }

  /** Every step keeps rosters and membership in agreement. */
  lemma StepKeepsRosters(s: State, op: Op)
    requires RostersAgree(s) && Legal(s, op)
    ensures RostersAgree(Apply(s, op))
  {
    hide RostersAgree, Create, Accept, Leave;
    match op {
      case DoCreate(leader, id) => CreateKeeps(s, leader, id);
      case DoLeave(player) => LeaveKeeps(s, player);
      case DoAccept(player, party) => AcceptKeeps(s, player, party);
      case DoInvite(inviter, target, known) => SameRosters(s, Apply(s, op));
      case DoPurge => SameRosters(s, Apply(s, op));
      case DoTick => SameRosters(s, Apply(s, op));
    }
  }

  lemma SameRosters(s: State, r: State)
    requires RostersAgree(s) && r.parties == s.parties && r.memberOf == s.memberOf
    ensures RostersAgree(r)
  {
    forall i | i in r.parties ensures PartyOk(r, i) {
      assert PartyOk(s, i);
    }
  }

  lemma StepKeepsCover(s: State, op: Op)
    requires InvitesCover(s)
    ensures InvitesCover(Apply(s, op))
  {
    hide Apply, InviteCovered;
    forall player, id ensures InviteCovered(Apply(s, op), player, id) {
      StepKeepsCoverOf(s, op, player, id);
    }
  }

  lemma StepKeepsCoverOf(s: State, op: Op, player: Entity, id: Entity)
    requires InviteCovered(s, player, id)
    ensures InviteCovered(Apply(s, op), player, id)
  {
    hide Create, Leave;
    if op.DoCreate? {
      CreateKeepsInvites(s, op.leader, op.id);
    } else if op.DoLeave? {
      LeaveKeepsInvites(s, op.player);
    }
  }

  lemma CreateKeepsInvites(s: State, leader: Entity, id: Entity)
    ensures var r := Create(s, leader, id).0;
      r.invites == s.invites && r.invited == s.invited && r.joined == s.joined
  {
  }

  lemma LeaveKeepsInvites(s: State, player: Entity)
    ensures var r := Leave(s, player); r.invites == s.invites && r.invited == s.invited && r.joined == s.joined
  {
    hide Without;
  }

  /** A join uses up one unexpired invitation of that player to that party, and appends the player to its
      roster. */
  lemma JoinConsumesInvite(s: State, player: Entity, id: Entity)
    requires Accept(s, player, id).1 == Joined
    ensures player in s.invites && s.invites[player].party == id && s.tick < s.invites[player].expiresAt
    ensures var r := Accept(s, player, id).0;
      player !in r.invites && id in s.parties && id in r.parties
      && r.parties[id] == s.parties[id].(members := s.parties[id].members + [player])
      && r.memberOf == s.memberOf[player := id]
  {
  }

  /** From the tick it expires at, an invitation admits nobody. */
  lemma InviteExpires(s: State, player: Entity, id: Entity)
    requires player in s.invites && s.tick >= s.invites[player].expiresAt
    ensures Accept(s, player, id).1 == NoInvitation && player !in Accept(s, player, id).0.invites
  {
  }

  /** Every step keeps invitations to 120 ticks: one sent gets exactly that many, and time only passes. */
  lemma StepKeepsTimely(s: State, op: Op)
    requires InvitesTimely(s)
    ensures InvitesTimely(Apply(s, op)) && Apply(s, op).tick >= s.tick
    ensures op.DoInvite? && SendInvite(s, op.inviter, op.target, op.targetKnown).1 == Invited ==>
      var r := Apply(s, op); op.target in r.invites && r.invites[op.target].expiresAt == s.tick + INVITE_TICKS
  {
    hide Without;
  }

  /** A player's membership names a party exactly if the party's roster holds the player. */
  lemma MembershipIffRoster(s: State, player: Entity, id: Entity)
    requires RostersAgree(s)
    ensures (player in s.memberOf && s.memberOf[player] == id) <==> (id in s.parties && player in s.parties[id].members)
  {
    if id in s.parties {
      assert PartyOk(s, id);
    }
  }

  // ---------- What each call does ----------

  /** A party is created exactly for a leader in none: it has the leader alone, and nothing else changes. */
  lemma CreateIs(s: State, leader: Entity, id: Entity)
    ensures var (r, reply) := Create(s, leader, id);
      if leader in s.memberOf then reply == AlreadyInParty && r == s
      else
        reply == Created
        && r == s.(parties := s.parties[id := Party(leader, [leader])], memberOf := s.memberOf[leader := id])
  {
  }

  /** An invitation is sent exactly by the leader of a party with room, to a known player in none; the reply names
      the first of these that fails. Sent, it replaces the target's earlier one, and nothing else changes. */
  lemma InviteIs(s: State, inviter: Entity, target: Entity, known: bool)
    requires RostersAgree(s)
    ensures inviter in s.memberOf ==> s.memberOf[inviter] in s.parties
    ensures var (r, reply) := SendInvite(s, inviter, target, known);
      && (reply == NotInParty <==> inviter !in s.memberOf)
      && reply != PartyNotFound
      && (inviter in s.memberOf ==>
            var id := s.memberOf[inviter];
            var leads, room := s.parties[id].leader == inviter, |s.parties[id].members| < 4;
            (reply == NotLeader <==> !leads)
            && (reply == PartyFull <==> leads && !room)
            && (reply == TargetNotFound <==> leads && room && !known)
            && (reply == TargetInParty <==> leads && room && known && target in s.memberOf)
            && (reply == Invited <==> leads && room && known && target !in s.memberOf)
            && (reply == Invited ==>
                  r == s.(invites := s.invites[target := Invite(id, s.tick + 120)],
                          invited := s.invited + multiset{(target, id)})))
      && (reply != Invited ==> r == s)
  {
    hide PartyOk;
  }

  /** A player joins exactly with an unexpired invitation to that party, if the party exists, the player is in
      none, and it has room; the reply names the first of these that fails. Whatever the reply, the invitation is
      used up, and only a join changes parties. */
  lemma AcceptIs(s: State, player: Entity, id: Entity)
    requires RostersAgree(s)
    ensures var (r, reply) := Accept(s, player, id);
      var valid := player in s.invites && s.tick < s.invites[player].expiresAt;
      var matches := valid && s.invites[player].party == id;
      && (reply == NoInvitation <==> !valid)
      && (reply == WrongParty <==> valid && !matches)
      && (reply == PartyGone <==> matches && id !in s.parties)
      && (reply == AlreadyInParty <==> matches && id in s.parties && player in s.memberOf)
      && (reply == PartyFull <==>
            matches && id in s.parties && player !in s.memberOf && |s.parties[id].members| >= 4)
      && (reply == Joined <==>
            matches && id in s.parties && player !in s.memberOf && |s.parties[id].members| < 4)
      && r.invites == s.invites - {player}
      && (reply != Joined ==> r.parties == s.parties && r.memberOf == s.memberOf)
  {
    hide PartyOk;
  }

  /** Exactly the invitations that are still good survive a purge, as they were; nothing else changes. */
  lemma PurgedIs(s: State, player: Entity)
    ensures var r := Purged(s);
      (player in r.invites <==> player in s.invites && s.tick < s.invites[player].expiresAt)
      && (player in r.invites ==> r.invites[player] == s.invites[player])
      && r == s.(invites := r.invites)
  {
  }

  /** Dropping a member from a roster takes it out of its place and keeps the others in theirs. */
  lemma {:induction false} WithoutAt(members: seq<Entity>, k: nat)
    requires Distinct(members) && k < |members|
    ensures Without(members, members[k]) == members[..k] + members[k + 1..]
  {
    var n := |members| - 1;
    var init := members[..n];
    assert members == init + [members[n]];
    if k < n {
      WithoutAt(init, k);
      assert members[..k] + members[k + 1..] == (init[..k] + init[k + 1..]) + [members[n]];
    } else {
      WithoutAbsent(init, members[n]);
      assert members[..k] + members[k + 1..] == init;
    }
  }

  lemma {:induction false} WithoutAbsent(members: seq<Entity>, player: Entity)
    requires player !in members
    ensures Without(members, player) == members
  {
    if |members| > 0 {
      var init := members[..|members| - 1];
      WithoutAbsent(init, player);
      assert members == init + [members[|members| - 1]];
    }
  }

  /** Where a player stands in the roster of the party the player is in. */
  ghost predicate StandsAt(s: State, player: Entity, k: nat) {
    player in s.memberOf && s.memberOf[player] in s.parties
    && k < |s.parties[s.memberOf[player]].members| && s.parties[s.memberOf[player]].members[k] == player
  }

  lemma MemberStands(s: State, player: Entity) returns (k: nat)
    requires RostersAgree(s) && player in s.memberOf
    ensures StandsAt(s, player, k)
  {
    var members := s.parties[s.memberOf[player]].members;
    k :| 0 <= k < |members| && members[k] == player;
  }

  /** Leaving: the player is in no party afterwards. The old party is disbanded if it held nobody else; otherwise
      its roster loses the player and keeps its order, and the first of those left leads it if the player did.
      Every other party, membership and invitation stays as it was. */
  lemma LeaveIs(s: State, player: Entity, k: nat)
    requires RostersAgree(s) && StandsAt(s, player, k)
    ensures var r, id := Leave(s, player), s.memberOf[player];
      var members := s.parties[id].members;
      var rest := members[..k] + members[k + 1..];
      r.memberOf == s.memberOf - {player}
      && r.parties ==
        (if members == [player] then s.parties - {id}
         else s.parties[id := Party(if s.parties[id].leader == player then (rest + [player])[0]
                                    else s.parties[id].leader, rest)])
      && (members != [player] ==> |rest| > 0 && player !in rest)
      && r == s.(parties := r.parties, memberOf := r.memberOf)
  {
    var id := s.memberOf[player];
    assert PartyOk(s, id);
    hide Without, PartyOk;
    var members := s.parties[id].members;
    WithoutAt(members, k);
    WithoutIs(members, player);
    assert |members| == 1 ==> members == [player];
  }

  /** Someone in no party leaves nothing. */
  lemma LeaveNothing(s: State, player: Entity)
    requires player !in s.memberOf
    ensures Leave(s, player) == s
  {
  }

  // ---------- Whole runs ----------

  ghost predicate Follows(s: State, t: State) {
    exists op :: Legal(s, op) && t == Apply(s, op)
  }

  ghost predicate IsRun(states: seq<State>) {
    && |states| > 0 && states[0] == START
    && forall i :: 0 <= i < |states| - 1 ==> Follows(states[i], states[i + 1])
  }

  /** Over every run: rosters are duplicate-free with 1 to 4 members including the leader and agree with the
      membership of every player, nobody joins a party more often than invited to it, and no invitation is good
      for more than 120 ticks. */
  lemma {:induction false} RunIsSound(states: seq<State>)
    requires IsRun(states)
    ensures Inv(states[|states| - 1])
    ensures forall player, id ::
      states[|states| - 1].joined[(player, id)] <= states[|states| - 1].invited[(player, id)]
    ensures InFigures(states[|states| - 1])
    decreases |states|
  {
    hide Apply, RostersAgree, InvitesTimely;
    if |states| == 1 {
      StartIsSound();
    } else {
      var n := |states| - 1;
      RunIsSound(states[..n]);
      assert Follows(states[n - 1], states[n - 1 + 1]);
      var op :| Legal(states[n - 1], op) && states[n] == Apply(states[n - 1], op);
      StepKeepsRosters(states[n - 1], op);
      StepKeepsCover(states[n - 1], op);
      StepKeepsTimely(states[n - 1], op);
    }
    forall player, id
      ensures states[|states| - 1].joined[(player, id)] <= states[|states| - 1].invited[(player, id)]
    {
      assert InviteCovered(states[|states| - 1], player, id);
    }
    InvInFigures(states[|states| - 1]);
  }

  ghost predicate InFigures(s: State) {
    && (forall id :: id in s.parties ==> 1 <= |s.parties[id].members| <= 4)
    && (forall p :: p in s.invites ==> s.invites[p].expiresAt <= s.tick + 120)
  }

  lemma InvInFigures(s: State)
    requires Inv(s)
    ensures InFigures(s)
  {
    forall id | id in s.parties ensures 1 <= |s.parties[id].members| <= 4 {
      assert PartyOk(s, id);
    }
  }

  lemma StartIsSound()
    ensures Inv(START)
  {
  }

  // ---------- The stores and the cache ----------

  class PartySystem {
    var parties: map<Entity, Party>
    var memberOf: map<Entity, Entity>
    var invites: map<Entity, Invite>
    var tick: nat
    ghost var invited: multiset<(Entity, Entity)>
    ghost var joined: multiset<(Entity, Entity)>

    ghost function Now(): State
      reads this
    {
      State(parties, memberOf, invites, tick, invited, joined)
    }

    constructor ()
      ensures Now() == START
    {
      parties, memberOf, invites, tick := map[], map[], map[], 0;
      invited, joined := multiset{}, multiset{};
    }

    method CreateParty(leaderID: Entity, partyID: Entity) returns (reply: Reply)
      modifies this
      ensures (Now(), reply) == Create(old(Now()), leaderID, partyID)
    {
      if leaderID in memberOf {
        return AlreadyInParty;
      }
      parties := parties[partyID := Party(leaderID, [leaderID])];
      memberOf := memberOf[leaderID := partyID];
      return Created;
    }

    method GetPlayerPartyID(playerID: Entity) returns (id: Entity)
      ensures id == PartyOf(Now(), playerID)
    {
      return if playerID in memberOf then memberOf[playerID] else 0;
    }

    method SendPartyInvite(inviterID: Entity, targetID: Entity, targetKnown: bool) returns (reply: Reply)
      modifies this
      ensures (Now(), reply) == SendInvite(old(Now()), inviterID, targetID, targetKnown)
    {
      var partyID := GetPlayerPartyID(inviterID);
      if partyID == 0 {
        return NotInParty;
      }
      if partyID !in parties {
        return PartyNotFound;
      }
      var party := parties[partyID];
      if party.leader != inviterID {
        return NotLeader;
      }
      if |party.members| >= MAX_PARTY_SIZE {
        return PartyFull;
      }
      if !targetKnown {
        return TargetNotFound;
      }
      var existingParty := GetPlayerPartyID(targetID);
      if existingParty != 0 {
        return TargetInParty;
      }
      invites := invites[targetID := Invite(partyID, tick + INVITE_TICKS)];
      invited := invited + multiset{(targetID, partyID)};
      return Invited;
    }

    method AcceptPartyInvite(playerID: Entity, targetPartyID: Entity) returns (reply: Reply)
      modifies this
      ensures (Now(), reply) == Accept(old(Now()), playerID, targetPartyID)
    {
      if playerID !in invites {
        return NoInvitation;
      }
      var record := invites[playerID];
      invites := invites - {playerID};
      if tick >= record.expiresAt {
        return NoInvitation;
      }
      if record.party != targetPartyID {
        return WrongParty;
      }
      if targetPartyID !in parties {
        return PartyGone;
      }
      var existingParty := GetPlayerPartyID(playerID);
      if existingParty != 0 {
        return AlreadyInParty;
      }
      var added := TryAddMember(targetPartyID, playerID);
      return if added then Joined else PartyFull;
    }

    method TryAddMember(partyID: Entity, playerID: Entity) returns (added: bool)
      modifies this
      ensures added <==> partyID in old(parties) && |old(parties)[partyID].members| < MAX_PARTY_SIZE
      ensures Now() == if added then Added(old(Now()), playerID, partyID) else old(Now())
    {
      if partyID !in parties {
        return false;
      }
      var party := parties[partyID];
      if |party.members| >= MAX_PARTY_SIZE {
        return false;
      }
      parties := parties[partyID := party.(members := party.members + [playerID])];
      memberOf := memberOf[playerID := partyID];
      joined := joined + multiset{(playerID, partyID)};
      return true;
    }

    method RemovePlayer(playerID: Entity)
      modifies this
      ensures Now() == Leave(old(Now()), playerID)
    {
      if playerID !in memberOf {
        return;
      }
      var partyID := memberOf[playerID];
      if partyID !in parties {
        memberOf := memberOf - {playerID};
        return;
      }
      var party := parties[partyID];
      var newMembers := [];
      for i := 0 to |party.members|
        invariant newMembers == Without(party.members[..i], playerID)
      {
        assert party.members[..i + 1][..i] == party.members[..i];
        if party.members[i] != playerID {
          newMembers := newMembers + [party.members[i]];
        }
      }
      assert party.members[..|party.members|] == party.members;
      memberOf := memberOf - {playerID};
      if |newMembers| == 0 {
        parties := parties - {partyID};
        return;
      }
      var leader := party.leader;
      if playerID == party.leader {
        leader := newMembers[0];
      }
      parties := parties[partyID := Party(leader, newMembers)];
    }

    method PurgeExpired()
      modifies this
      ensures Now() == Purged(old(Now()))
    {
      var rest := invites.Keys;
      while rest != {}
        invariant rest <= invites.Keys
        invariant (parties, memberOf, tick, invited, joined) == old((parties, memberOf, tick, invited, joined))
        invariant forall p :: p in invites <==> p in old(invites) && (p in rest || tick < old(invites)[p].expiresAt)
        invariant forall p :: p in invites ==> invites[p] == old(invites)[p]
        decreases rest
      {
        var id :| id in rest;
        if tick >= invites[id].expiresAt {
          invites := invites - {id};
        }
        rest := rest - {id};
      }
      assert invites == Purged(old(Now())).invites;
    }
  }
}
