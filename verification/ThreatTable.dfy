/** A monster's threat table: player entries, an index heap over them whose root is the top threat, and a running
    total. Threat is an `int64` in the code and an unbounded integer here. */
module ThreatTable {
  import opened Counting
  import opened HeapShape
  import opened Integers

  const MAX_PLAYERS: int := 64

  datatype Entry = Entry(player: int, threat: int)

  /** Division as in Go: toward zero. */
  function TruncDiv(a: int, b: int): int
    requires b > 0
  {
    if a >= 0 then a / b else -((-a) / b)
  }

  // ---------- What each operation does to the entries ----------

  function IndexOf(entries: seq<Entry>, player: int): (k: int)
    ensures -1 <= k < |entries|
    ensures k >= 0 ==> entries[k].player == player && forall j :: 0 <= j < k ==> entries[j].player != player
    ensures k < 0 ==> forall j :: 0 <= j < |entries| ==> entries[j].player != player
  {
    if |entries| == 0 then -1
    else
      var k := IndexOf(entries[..|entries| - 1], player);
      if k >= 0 then k else if entries[|entries| - 1].player == player then |entries| - 1 else -1
  }

  /** A full table ignores every addition, also for players it already holds. */
  function Added(entries: seq<Entry>, player: int, amount: int): seq<Entry> {
    var k := IndexOf(entries, player);
    if |entries| >= MAX_PLAYERS then entries
    else if k >= 0 then entries[k := Entry(player, entries[k].threat + amount)]
    else entries + [Entry(player, amount)]
  }

  function SetTo(entries: seq<Entry>, player: int, amount: int): seq<Entry> {
    var k := IndexOf(entries, player);
    if k >= 0 then entries[k := Entry(player, amount)] else entries + [Entry(player, amount)]
  }

  function Removed(entries: seq<Entry>, player: int): seq<Entry> {
    var k := IndexOf(entries, player);
    if k >= 0 then entries[..k] + entries[k + 1..] else entries
  }

  function Wiped(entries: seq<Entry>, player: int): seq<Entry> {
    if IndexOf(entries, player) >= 0 then SetTo(entries, player, 0) else entries
  }

  function ThreatOf(entries: seq<Entry>, player: int): int {
    var k := IndexOf(entries, player);
    if k >= 0 then entries[k].threat else 0
  }

  function Share(entries: seq<Entry>, from: int, percentage: int): int {
    TruncDiv(ThreatOf(entries, from) * percentage, 1000)
  }

  function Transferred(entries: seq<Entry>, from: int, to: int, percentage: int): seq<Entry> {
    if ThreatOf(entries, from) == 0 then entries
    else Added(Added(entries, to, Share(entries, from, percentage)), from, -Share(entries, from, percentage))
  }

  function DecayOne(threat: int, rate: int): int {
    threat - TruncDiv(threat * rate, 1000)
  }

  function Decayed(entries: seq<Entry>, rate: int): (r: seq<Entry>)
    ensures |r| == |entries|
  {
    seq(|entries|, k requires 0 <= k < |entries| => Entry(entries[k].player, DecayOne(entries[k].threat, rate)))
  }

  function Sum(entries: seq<Entry>): int {
    if |entries| == 0 then 0 else Sum(entries[..|entries| - 1]) + entries[|entries| - 1].threat
  }

  // ---------- Sums and distinct players ----------

  ghost predicate DistinctPlayers(entries: seq<Entry>) {
    forall i, j :: 0 <= i < j < |entries| ==> entries[i].player != entries[j].player
  }

  lemma {:induction false} SumUpdate(entries: seq<Entry>, k: nat, e: Entry)
    requires k < |entries|
    ensures Sum(entries[k := e]) == Sum(entries) - entries[k].threat + e.threat
  {
    var n := |entries| - 1;
    if k < n {
      SumUpdate(entries[..n], k, e);
      assert entries[k := e][..n] == entries[..n][k := e];
    } else {
      assert entries[k := e][..n] == entries[..n];
    }
  }

  lemma {:induction false} SumRemove(entries: seq<Entry>, k: nat)
    requires k < |entries|
    ensures Sum(entries[..k] + entries[k + 1..]) == Sum(entries) - entries[k].threat
  {
    var n := |entries| - 1;
    var r := entries[..k] + entries[k + 1..];
    if k < n {
      SumRemove(entries[..n], k);
      assert r[..n - 1] == entries[..n][..k] + entries[..n][k + 1..];
    } else {
      assert r == entries[..n];
    }
  }

  lemma SumAppend(entries: seq<Entry>, e: Entry)
    ensures Sum(entries + [e]) == Sum(entries) + e.threat
  {
    assert (entries + [e])[..|entries|] == entries;
  }

  /** An addition changes the total by the amount, unless the table is full. */
  lemma AddedSum(entries: seq<Entry>, player: int, amount: int)
    requires DistinctPlayers(entries) && |entries| <= MAX_PLAYERS
    ensures var r := Added(entries, player, amount);
      DistinctPlayers(r) && |r| <= MAX_PLAYERS
      && Sum(r) == Sum(entries) + if |entries| >= MAX_PLAYERS then 0 else amount
  {
    var k := IndexOf(entries, player);
    if k >= 0 {
      SumUpdate(entries, k, Entry(player, entries[k].threat + amount));
    } else {
      SumAppend(entries, Entry(player, amount));
    }
  }

  lemma SetToSum(entries: seq<Entry>, player: int, amount: int)
    requires DistinctPlayers(entries)
    ensures var r := SetTo(entries, player, amount);
      DistinctPlayers(r) && Sum(r) == Sum(entries) - ThreatOf(entries, player) + amount
  {
    var k := IndexOf(entries, player);
    if k >= 0 {
      SumUpdate(entries, k, Entry(player, amount));
    } else {
      SumAppend(entries, Entry(player, amount));
    }
  }

  lemma RemovedDistinct(entries: seq<Entry>, k: nat)
    requires DistinctPlayers(entries) && k < |entries|
    ensures var r := entries[..k] + entries[k + 1..];
      DistinctPlayers(r) && forall j :: 0 <= j < |r| ==> r[j].player != entries[k].player
  {
    var r := entries[..k] + entries[k + 1..];
    assert forall j :: 0 <= j < |r| ==> r[j] == entries[if j < k then j else j + 1];
  }

  lemma RemovedSum(entries: seq<Entry>, player: int)
    requires DistinctPlayers(entries)
    ensures var r := Removed(entries, player);
      DistinctPlayers(r) && Sum(r) == Sum(entries) - ThreatOf(entries, player) && IndexOf(r, player) < 0
  {
    hide Sum, DistinctPlayers;
    var k := IndexOf(entries, player);
    if k >= 0 {
      SumRemove(entries, k);
      RemovedDistinct(entries, k);
    }
  }

  /** A transfer conserves the total exactly unless it gives a non-zero share to a new player who takes the
      last free slot: then the giver keeps what was given. */
  lemma TransferConservesIff(entries: seq<Entry>, from: int, to: int, percentage: int)
    requires DistinctPlayers(entries) && |entries| <= MAX_PLAYERS
    ensures Sum(Transferred(entries, from, to, percentage)) == Sum(entries) <==>
      !(|entries| == MAX_PLAYERS - 1 && IndexOf(entries, to) < 0 && Share(entries, from, percentage) != 0)
  {
    hide Sum, DistinctPlayers;
    var amount := Share(entries, from, percentage);
    AddedSum(entries, to, amount);
    AddedSum(Added(entries, to, amount), from, -amount);
  }

  // ---------- Who has how much ----------

  predicate Listed(entries: seq<Entry>, player: int) {
    IndexOf(entries, player) >= 0
  }

  lemma ThreatAt(entries: seq<Entry>, k: nat)
    requires DistinctPlayers(entries) && k < |entries|
    ensures IndexOf(entries, entries[k].player) == k && ThreatOf(entries, entries[k].player) == entries[k].threat
  {
  }

  /** Two tables in which a player has the same entry, or none, give that player the same threat. */
  lemma SameThreat(a: seq<Entry>, b: seq<Entry>, p: int)
    requires DistinctPlayers(a) && DistinctPlayers(b)
    requires forall e: Entry :: e.player == p ==> (e in a <==> e in b)
    ensures ThreatOf(a, p) == ThreatOf(b, p) && (Listed(a, p) <==> Listed(b, p))
  {
    hide IndexOf;
    var i, j := IndexOf(a, p), IndexOf(b, p);
    if i >= 0 {
      assert a[i] in b;
      var k :| 0 <= k < |b| && b[k] == a[i];
      ThreatAt(b, k);
    }
    if j >= 0 {
      assert b[j] in a;
      var k :| 0 <= k < |a| && a[k] == b[j];
      ThreatAt(a, k);
    }
  }

  lemma UpdatedThreat(entries: seq<Entry>, k: nat, threat: int, p: int)
    requires DistinctPlayers(entries) && k < |entries|
    ensures var r := entries[k := Entry(entries[k].player, threat)];
      DistinctPlayers(r) && (Listed(r, p) <==> Listed(entries, p))
      && ThreatOf(r, p) == if p == entries[k].player then threat else ThreatOf(entries, p)
  {
    hide IndexOf, Listed;
    var r := entries[k := Entry(entries[k].player, threat)];
    ThreatAt(r, k);
    ThreatAt(entries, k);
    if p == entries[k].player {
      assert Listed(r, p) && Listed(entries, p) by { ListedAt(r, k); ListedAt(entries, k); }
    } else {
      forall e: Entry | e.player == p ensures e in entries <==> e in r {
        if e in entries {
          var j :| 0 <= j < |entries| && entries[j] == e;
          assert r[j] == e;
        }
      }
      SameThreat(entries, r, p);
    }
  }

  lemma ListedAt(entries: seq<Entry>, k: nat)
    requires k < |entries|
    ensures Listed(entries, entries[k].player)
  {
  }

  lemma AppendedThreat(entries: seq<Entry>, e: Entry, p: int)
    requires DistinctPlayers(entries) && !Listed(entries, e.player)
    ensures var r := entries + [e];
      DistinctPlayers(r) && (Listed(r, p) <==> Listed(entries, p) || p == e.player)
      && ThreatOf(r, p) == if p == e.player then e.threat else ThreatOf(entries, p)
  {
    assert (entries + [e])[..|entries|] == entries;
  }

  /** An addition goes to the player it names, and to nobody else; a full table takes none. */
  lemma AddedThreat(entries: seq<Entry>, player: int, amount: int, p: int)
    requires DistinctPlayers(entries)
    ensures var r := Added(entries, player, amount);
      ThreatOf(r, p) == ThreatOf(entries, p) + (if p == player && |entries| < 64 then amount else 0)
      && (Listed(r, p) <==> Listed(entries, p) || (p == player && |entries| < 64))
  {
    hide IndexOf;
    var k := IndexOf(entries, player);
    if |entries| < MAX_PLAYERS && k >= 0 {
      UpdatedThreat(entries, k, entries[k].threat + amount, p);
      ThreatAt(entries, k);
    } else if |entries| < MAX_PLAYERS {
      AppendedThreat(entries, Entry(player, amount), p);
    }
  }

  /** Setting gives the player named exactly that threat, and changes nobody else's. */
  lemma SetToThreat(entries: seq<Entry>, player: int, amount: int, p: int)
    requires DistinctPlayers(entries)
    ensures var r := SetTo(entries, player, amount);
      ThreatOf(r, p) == (if p == player then amount else ThreatOf(entries, p))
      && (Listed(r, p) <==> Listed(entries, p) || p == player)
  {
    hide IndexOf;
    var k := IndexOf(entries, player);
    if k >= 0 {
      UpdatedThreat(entries, k, amount, p);
    } else {
      AppendedThreat(entries, Entry(player, amount), p);
    }
  }

  /** A wipe leaves the player listed, at zero. */
  lemma WipedThreat(entries: seq<Entry>, player: int, p: int)
    requires DistinctPlayers(entries)
    ensures var r := Wiped(entries, player);
      ThreatOf(r, p) == (if p == player then 0 else ThreatOf(entries, p)) && (Listed(r, p) <==> Listed(entries, p))
  {
    hide IndexOf;
    SetToThreat(entries, player, 0, p);
  }

  /** Removing unlists the player named, and changes nobody else's threat. */
  lemma RemovedThreat(entries: seq<Entry>, player: int, p: int)
    requires DistinctPlayers(entries)
    ensures var r := Removed(entries, player);
      ThreatOf(r, p) == (if p == player then 0 else ThreatOf(entries, p))
      && (Listed(r, p) <==> Listed(entries, p) && p != player)
  {
    hide IndexOf;
    RemovedSum(entries, player);
    var k, r := IndexOf(entries, player), Removed(entries, player);
    if k >= 0 && p != player {
      forall e: Entry | e.player == p ensures e in entries <==> e in r {
        if e in entries {
          var j :| 0 <= j < |entries| && entries[j] == e;
          assert r[if j < k then j else j - 1] == e;
        }
      }
      SameThreat(entries, r, p);
    }
  }

  /** A transfer takes the share from the giver and adds it to the receiver; if the receiver fills the last slot
      the giver keeps it too. A full table, and a giver without threat, transfer nothing. */
  lemma TransferredThreat(entries: seq<Entry>, from: int, to: int, percentage: int, p: int)
    requires DistinctPlayers(entries)
    ensures var share, moves := Share(entries, from, percentage), |entries| < 64 && ThreatOf(entries, from) != 0;
      var fills := |entries| == 63 && !Listed(entries, to);
      ThreatOf(Transferred(entries, from, to, percentage), p) == ThreatOf(entries, p)
        + (if moves && p == to then share else 0) - (if moves && !fills && p == from then share else 0)
  {
    hide IndexOf, Share, ThreatOf;
    if ThreatOf(entries, from) != 0 {
      var share := Share(entries, from, percentage);
      AddedThreat(entries, to, share, p);
      AddedDistinct(entries, to, share);
      AddedThreat(Added(entries, to, share), from, -share, p);
    }
  }

  lemma AddedDistinct(entries: seq<Entry>, player: int, amount: int)
    requires DistinctPlayers(entries)
    ensures var r := Added(entries, player, amount);
      DistinctPlayers(r)
      && |r| == |entries| + if |entries| < 64 && !Listed(entries, player) then 1 else 0
  {
  }

  /** Truncating division: the size of the quotient is the quotient of the sizes, and its sign the dividend's. */
  lemma TruncDivIs(a: int, b: int)
    requires b > 0
    ensures b * Abs(TruncDiv(a, b)) <= Abs(a) < b * Abs(TruncDiv(a, b)) + b
    ensures (a >= 0 ==> TruncDiv(a, b) >= 0) && (a <= 0 ==> TruncDiv(a, b) <= 0)
  {
    var q := Abs(a) / b;
    assert Abs(a) == q * b + Abs(a) % b;
  }

  /** The share is the given number of thousandths of the giver's threat, rounded toward zero. */
  lemma ShareIs(entries: seq<Entry>, from: int, percentage: int)
    ensures var share, whole := Share(entries, from, percentage), ThreatOf(entries, from) * percentage;
      1000 * Abs(share) <= Abs(whole) < 1000 * Abs(share) + 1000
      && (whole >= 0 ==> share >= 0) && (whole <= 0 ==> share <= 0)
  {
    hide IndexOf;
    TruncDivIs(ThreatOf(entries, from) * percentage, 1000);
  }

  // ---------- Decay ----------

  lemma TruncMonotone(a: int, b: int)
    requires a <= b
    ensures TruncDiv(a, 1000) <= TruncDiv(b, 1000)
  {
  }

  lemma TruncShift(a: int, d: nat)
    ensures TruncDiv(a + 1000 * d, 1000) <= TruncDiv(a, 1000) + d
  {
  }

  lemma DecayMonotone(rate: int, t: int, u: int)
    requires rate <= 1000 && t <= u
    ensures DecayOne(t, rate) <= DecayOne(u, rate)
  {
    var d := u - t;
    assert u * rate == t * rate + d * rate;
    assert d * rate <= 1000 * d;
    TruncMonotone(u * rate, t * rate + 1000 * d);
    TruncShift(t * rate, d);
  }

  lemma DecayMisorders(rate: int)
    requires rate > 1000
    ensures DecayOne(999, rate) > DecayOne(1000, rate)
  {
  }

  /** Decay keeps the ranking of every two threats, positive or negative, exactly at rates up to 1000. */
  lemma DecayKeepsRankingIff(rate: int)
    ensures (forall t, u :: t <= u ==> DecayOne(t, rate) <= DecayOne(u, rate)) <==> rate <= 1000
  {
    if rate <= 1000 {
      forall t, u | t <= u ensures DecayOne(t, rate) <= DecayOne(u, rate) {
        DecayMonotone(rate, t, u);
      }
    } else {
      DecayMisorders(rate);
    }
  }

  ghost predicate IsTop(entries: seq<Entry>, threat: int) {
    && (exists k :: 0 <= k < |entries| && entries[k].threat == threat)
    && forall k :: 0 <= k < |entries| ==> entries[k].threat <= threat
  }

  /** The top threat after a decay is the decayed top threat. */
  lemma DecayKeepsTop(entries: seq<Entry>, rate: int, top: int)
    requires rate <= 1000 && IsTop(entries, top)
    ensures IsTop(Decayed(entries, rate), DecayOne(top, rate))
  {
    hide DecayOne;
    var k :| 0 <= k < |entries| && entries[k].threat == top;
    assert Decayed(entries, rate)[k].threat == DecayOne(top, rate);
    forall j | 0 <= j < |entries| ensures Decayed(entries, rate)[j].threat <= DecayOne(top, rate) {
      DecayMonotone(rate, entries[j].threat, top);
    }
  }

  function DecayTimes(threat: int, rate: int, n: nat): int
    decreases n
  {
    if n == 0 then threat else DecayTimes(DecayOne(threat, rate), rate, n - 1)
  }

  /** Decay treats negative threats as it does positive ones. */
  lemma DecayMirrors(threat: int, rate: int)
    ensures DecayOne(-threat, rate) == -DecayOne(threat, rate)
  {
    assert (-threat) * rate == -(threat * rate);
  }

  /** A threat is left alone by decay exactly once its size times rate is below 1000; otherwise it shrinks
      toward zero, without changing sign. */
  lemma DecayFixpointIff(threat: int, rate: int)
    requires 1 <= rate <= 1000
    ensures Abs(DecayOne(threat, rate)) <= Abs(threat)
    ensures threat >= 0 ==> DecayOne(threat, rate) >= 0
    ensures threat <= 0 ==> DecayOne(threat, rate) <= 0
    ensures DecayOne(threat, rate) == threat <==> Abs(threat) * rate < 1000
  {
    DecayFixpointOf(Abs(threat), rate);
    DecayMirrors(threat, rate);
  }

  lemma DecayFixpointOf(threat: nat, rate: int)
    requires 1 <= rate <= 1000
    ensures 0 <= DecayOne(threat, rate) <= threat
    ensures DecayOne(threat, rate) == threat <==> threat * rate < 1000
  {
    assert 0 <= threat * rate <= threat * 1000;
  }

  /** Decay takes the given number of thousandths of a threat, rounded toward zero. */
  lemma DecayTakesShare(threat: int, rate: int)
    ensures var loss := threat - DecayOne(threat, rate);
      1000 * Abs(loss) <= Abs(threat * rate) < 1000 * Abs(loss) + 1000
      && (threat * rate >= 0 ==> loss >= 0) && (threat * rate <= 0 ==> loss <= 0)
  {
    TruncDivIs(threat * rate, 1000);
  }

  /** Each player's threat decays; who is listed stays the same. */
  lemma DecayedThreat(entries: seq<Entry>, rate: int, p: int)
    requires DistinctPlayers(entries)
    ensures var r := Decayed(entries, rate);
      ThreatOf(r, p) == DecayOne(ThreatOf(entries, p), rate) && (Listed(r, p) <==> Listed(entries, p))
  {
    hide IndexOf, DecayOne;
    var r := Decayed(entries, rate);
    assert DecayOne(0, rate) == 0 by { DecayZero(rate); }
    var k := IndexOf(entries, p);
    if k >= 0 {
      ThreatAt(r, k);
    } else {
      assert IndexOf(r, p) < 0;
    }
  }

  lemma DecayZero(rate: int)
    ensures DecayOne(0, rate) == 0
  {
  }

  /** Repeated decay brings every threat to a fixpoint of size below 1000 / rate, in at most as many steps as its
      size. */
  lemma {:induction false} DecayReachesFixpoint(threat: int, rate: int, n: nat)
    requires 1 <= rate <= 1000 && n >= Abs(threat)
    ensures var v := DecayTimes(threat, rate, n);
      Abs(v) * rate < 1000 && DecayOne(v, rate) == v
    decreases n
  {
    hide DecayOne;
    DecayFixpointIff(threat, rate);
    var next := DecayOne(threat, rate);
    if next == threat {
      DecayStays(threat, rate, n);
    } else {
      assert Abs(next) < Abs(threat);
      DecayReachesFixpoint(next, rate, n - 1);
    }
  }

  lemma {:induction false} DecayStays(threat: int, rate: int, n: nat)
    requires DecayOne(threat, rate) == threat
    ensures DecayTimes(threat, rate, n) == threat
  {
    if n > 0 {
      DecayStays(threat, rate, n - 1);
    }
  }

  // ---------- The index heap ----------

  /** `heap` lists every entry's index once. */
  ghost predicate Covers(heap: seq<int>, n: nat) {
    && |heap| == n
    && (forall k :: 0 <= k < n ==> 0 <= heap[k] < n)
    && Distinct(heap)
  }

  ghost predicate InOrder(entries: seq<Entry>, heap: seq<int>, k: int)
    requires Covers(heap, |entries|) && 0 < k < |heap|
  {
    entries[heap[Parent(k)]].threat >= entries[heap[k]].threat
  }

  /** The max-heap order holds below every place from `lo` on. */
  ghost predicate OrderedFrom(entries: seq<Entry>, heap: seq<int>, lo: int)
    requires Covers(heap, |entries|)
  {
    forall k :: 0 < k < |heap| && Parent(k) >= lo ==> InOrder(entries, heap, k)
  }

  /** Order holds from `lo` on except that place p may lose to its children. */
  ghost predicate OrderedBut(entries: seq<Entry>, heap: seq<int>, lo: int, p: int)
    requires Covers(heap, |entries|)
  {
    && (forall k :: 0 < k < |heap| && Parent(k) >= lo && Parent(k) != p ==> InOrder(entries, heap, k))
    && (forall k :: 0 < p < k < |heap| && Parent(k) == p && Parent(p) >= lo ==>
          entries[heap[Parent(p)]].threat >= entries[heap[k]].threat)
  }

  lemma SwapCovers(heap: seq<int>, n: nat, i: nat, j: nat)
    requires Covers(heap, n) && i < n && j < n
    ensures Covers(heap[i := heap[j]][j := heap[i]], n)
  {
  }

  /** Swapping p with a largest child moves the only fault one level down. */
  lemma SinkStep(entries: seq<Entry>, heap: seq<int>, lo: int, p: int, c: int)
    requires Covers(heap, |entries|) && 0 <= lo <= p < |heap| && OrderedBut(entries, heap, lo, p)
    requires 0 < c < |heap| && Parent(c) == p
    requires forall k :: 0 < k < |heap| && Parent(k) == p ==> entries[heap[k]].threat <= entries[heap[c]].threat
    requires entries[heap[c]].threat > entries[heap[p]].threat
    ensures var h := heap[p := heap[c]][c := heap[p]]; Covers(h, |entries|) && OrderedBut(entries, h, lo, c)
  {
    SwapCovers(heap, |entries|, p, c);
    var h := heap[p := heap[c]][c := heap[p]];
    forall k | 0 < k < |h| && Parent(k) >= lo && Parent(k) != c ensures InOrder(entries, h, k) {
      if k != p && Parent(k) != p {
        assert InOrder(entries, heap, k);
      }
    }
    forall k | 0 < c < k < |h| && Parent(k) == c && Parent(c) >= lo
      ensures entries[h[Parent(c)]].threat >= entries[h[k]].threat
    {
      assert InOrder(entries, heap, k);
    }
  }

  lemma SinkStart(entries: seq<Entry>, heap: seq<int>, lo: nat)
    requires Covers(heap, |entries|) && OrderedFrom(entries, heap, lo + 1)
    ensures OrderedBut(entries, heap, lo, lo)
  {
    forall k | 0 < k < |heap| && Parent(k) >= lo && Parent(k) != lo ensures InOrder(entries, heap, k) {
    }
  }

  lemma SinkDone(entries: seq<Entry>, heap: seq<int>, lo: nat, p: nat)
    requires Covers(heap, |entries|) && OrderedBut(entries, heap, lo, p)
    requires forall k :: 0 < k < |heap| && Parent(k) == p ==> entries[heap[p]].threat >= entries[heap[k]].threat
    ensures OrderedFrom(entries, heap, lo)
  {
    forall k | 0 < k < |heap| && Parent(k) >= lo ensures InOrder(entries, heap, k) {
    }
  }

  lemma {:induction false} RootIsMax(entries: seq<Entry>, heap: seq<int>, k: nat)
    requires Covers(heap, |entries|) && OrderedFrom(entries, heap, 0) && k < |heap|
    ensures entries[heap[0]].threat >= entries[heap[k]].threat
  {
    if k > 0 {
      RootIsMax(entries, heap, Parent(k));
      assert InOrder(entries, heap, k);
    }
  }

  /** The root of an ordered heap over all entries is the top threat. */
  lemma RootIsTop(entries: seq<Entry>, heap: seq<int>)
    requires Covers(heap, |entries|) && OrderedFrom(entries, heap, 0) && |entries| > 0
    ensures IsTop(entries, entries[heap[0]].threat)
  {
    DistinctBounded(heap, |entries|);
    forall k | 0 <= k < |entries| ensures entries[k].threat <= entries[heap[0]].threat {
      assert k in heap;
      var j :| 0 <= j < |heap| && heap[j] == k;
      RootIsMax(entries, heap, j);
    }
  }

  // ---------- The table ----------

  class ThreatTable {
    var entries: seq<Entry>
    var decayRate: int
    var totalThreat: int
    var heapSize: nat
    const heap: array<int>

    ghost predicate Valid()
      reads this, heap
    {
      && heap.Length == MAX_PLAYERS && |entries| <= MAX_PLAYERS
      && DistinctPlayers(entries) && totalThreat == Sum(entries)
      && Covers(heap[..|entries|], |entries|) && OrderedFrom(entries, heap[..|entries|], 0)
    }

    constructor (rate: int)
      ensures Valid() && entries == [] && decayRate == rate && fresh(heap)
    {
      entries, decayRate, totalThreat, heapSize := [], rate, 0, 0;
      heap := new int[MAX_PLAYERS];
    }

    /** Of place p and its children, one of the greatest threat, p itself if no child beats it. */
    method LargestAmong(p: nat) returns (largest: nat)
      requires heap.Length == MAX_PLAYERS && |entries| <= MAX_PLAYERS && (p < |entries| || 2 * p + 1 >= |entries|)
      requires Covers(heap[..|entries|], |entries|)
      ensures largest != p ==> p < largest < |entries| && Parent(largest) == p
      ensures var h := heap[..|entries|];
        (forall k :: 0 < k < |h| && Parent(k) == p ==>
          largest < |h| && entries[h[k]].threat <= entries[h[largest]].threat)
        && (largest != p ==> entries[h[largest]].threat > entries[h[p]].threat)
    {
      hide Distinct;
      ChildrenOf(p);
      var n := |entries|;
      assert forall k :: 0 <= k < n ==> heap[..n][k] == heap[k];
      largest := p;
      var left := 2 * p + 1;
      var right := 2 * p + 2;
      if left < n && entries[heap[left]].threat > entries[heap[largest]].threat {
        largest := left;
      }
      if right < n && entries[heap[right]].threat > entries[heap[largest]].threat {
        largest := right;
      }
    }

    method Down(i: nat)
      requires heap.Length == MAX_PLAYERS && i <= |entries| <= MAX_PLAYERS
      requires Covers(heap[..|entries|], |entries|) && OrderedFrom(entries, heap[..|entries|], i + 1)
      modifies heap
      ensures Covers(heap[..|entries|], |entries|) && OrderedFrom(entries, heap[..|entries|], i)
    {
      hide Distinct, OrderedFrom, OrderedBut, InOrder, Parent;
      var n := |entries|;
      var p := i;
      SinkStart(entries, heap[..n], i);
      while true
        invariant i <= p && (p == i || p < n)
        invariant Covers(heap[..n], n) && OrderedBut(entries, heap[..n], i, p)
        decreases n - p
      {
        ghost var h := heap[..n];
        var largest := LargestAmong(p);
        if largest == p {
          SinkDone(entries, h, i, p);
          break;
        }
        SinkStep(entries, h, i, p, largest);
        heap[p], heap[largest] := heap[largest], heap[p];
        assert heap[..n] == h[p := h[largest]][largest := h[p]];
        p := largest;
      }
    }

    /** Rebuilds the heap over the entries. */
    method Sort()
      requires heap.Length == MAX_PLAYERS && |entries| <= MAX_PLAYERS
      modifies this`heapSize, heap
      ensures Covers(heap[..|entries|], |entries|) && OrderedFrom(entries, heap[..|entries|], 0)
    {
      heapSize := |entries|;
      for i := 0 to heapSize
        invariant heapSize == |entries| && forall k :: 0 <= k < i ==> heap[k] == k
      {
        heap[i] := i;
      }
      var i := TruncDiv(heapSize - 1, 2);
      while i >= 0
        invariant -1 <= i <= heapSize == |entries|
        invariant Covers(heap[..|entries|], |entries|) && OrderedFrom(entries, heap[..|entries|], i + 1)
        decreases i
      {
        Down(i);
        i := i - 1;
      }
    }

    method Find(player: int) returns (k: int)
      ensures k == IndexOf(entries, player)
    {
      for i := 0 to |entries|
        invariant forall j :: 0 <= j < i ==> entries[j].player != player
      {
        if entries[i].player == player {
          return i;
        }
      }
      return -1;
    }

    method Add(player: int, amount: int)
      requires Valid()
      modifies this, heap
      ensures Valid() && entries == Added(old(entries), player, amount) && decayRate == old(decayRate)
    {
      hide Sum, DistinctPlayers, Covers, OrderedFrom;
      AddedSum(entries, player, amount);
      if |entries| >= MAX_PLAYERS {
        return;
      }
      var k := Find(player);
      if k >= 0 {
        entries := entries[k := entries[k].(threat := entries[k].threat + amount)];
      } else {
        entries := entries + [Entry(player, amount)];
      }
      totalThreat := totalThreat + amount;
      Sort();
    }

    /** A new player on a full table is appended and counted; then the rebuilding runs off the end of the heap
        array, which is reported as not ok. The table is left one entry too long. */
    method Set(player: int, amount: int) returns (ok: bool)
      requires Valid()
      modifies this, heap
      ensures ok <==> IndexOf(old(entries), player) >= 0 || |old(entries)| < MAX_PLAYERS
      ensures entries == SetTo(old(entries), player, amount) && decayRate == old(decayRate)
      ensures totalThreat == Sum(entries) && DistinctPlayers(entries)
      ensures if ok then Valid() else |entries| == MAX_PLAYERS + 1
    {
      hide Sum, DistinctPlayers, Covers, OrderedFrom;
      SetToSum(entries, player, amount);
      var k := Find(player);
      if k >= 0 {
        var diff := amount - entries[k].threat;
        entries := entries[k := entries[k].(threat := amount)];
        totalThreat := totalThreat + diff;
      } else {
        entries := entries + [Entry(player, amount)];
        totalThreat := totalThreat + amount;
      }
      if |entries| > heap.Length {
        heapSize := |entries|;
        for i := 0 to heap.Length
          invariant entries == SetTo(old(entries), player, amount) && decayRate == old(decayRate)
          invariant totalThreat == Sum(entries)
        {
          heap[i] := i;
        }
        return false;
      }
      Sort();
      return true;
    }

    method Remove(player: int)
      requires Valid()
      modifies this, heap
      ensures Valid() && entries == Removed(old(entries), player) && decayRate == old(decayRate)
    {
      hide Sum, DistinctPlayers, Covers, OrderedFrom;
      RemovedSum(entries, player);
      var k := Find(player);
      if k >= 0 {
        totalThreat := totalThreat - entries[k].threat;
        entries := entries[..k] + entries[k + 1..];
        Sort();
      }
    }

    /** The top entry: its threat is a true maximum. An empty table answers (0, 0). */
    method Top() returns (player: int, threat: int)
      requires Valid()
      ensures |entries| == 0 ==> player == 0 && threat == 0
      ensures |entries| > 0 ==> Entry(player, threat) in entries && IsTop(entries, threat)
    {
      if |entries| == 0 {
        return 0, 0;
      }
      RootIsTop(entries, heap[..|entries|]);
      assert heap[..|entries|][0] == heap[0];
      return entries[heap[0]].player, entries[heap[0]].threat;
    }

    method Decay()
      requires Valid()
      modifies this, heap
      ensures Valid() && entries == Decayed(old(entries), decayRate) && decayRate == old(decayRate)
    {
      hide Sum, Covers, OrderedFrom, TruncDiv;
      for i := 0 to |entries|
        invariant |entries| == |old(entries)| && decayRate == old(decayRate)
        invariant forall k :: 0 <= k < |entries| ==>
          entries[k] == if k < i then Decayed(old(entries), decayRate)[k] else old(entries)[k]
      {
        var decay := TruncDiv(entries[i].threat * decayRate, 1000);
        entries := entries[i := entries[i].(threat := entries[i].threat - decay)];
      }
      totalThreat := 0;
      SumNothing(entries);
      for i := 0 to |entries|
        invariant entries == Decayed(old(entries), decayRate) && decayRate == old(decayRate)
        invariant totalThreat == Sum(entries[..i])
      {
        SumNext(entries, i);
        totalThreat := totalThreat + entries[i].threat;
      }
      assert entries[..|entries|] == entries;
      Sort();
    }

    /** Adds the multiple of one more than the current top threat to the player. */
    method Taunt(player: int, multiplier: int)
      requires Valid()
      modifies this, heap
      ensures Valid() && decayRate == old(decayRate)
      ensures |old(entries)| == 0 ==> entries == old(entries)
      ensures forall top :: IsTop(old(entries), top) ==>
        entries == Added(old(entries), player, TruncDiv((top + 1) * multiplier, 1000))
    {
      if |entries| == 0 {
        return;
      }
      RootIsTop(entries, heap[..|entries|]);
      assert heap[..|entries|][0] == heap[0];
      var topThreat := entries[heap[0]].threat;
      TopIsUnique(entries, topThreat);
      var newThreat := TruncDiv((topThreat + 1) * multiplier, 1000);
      Add(player, newThreat);
    }

    method Transfer(from: int, to: int, percentage: int)
      requires Valid()
      modifies this, heap
      ensures Valid() && entries == Transferred(old(entries), from, to, percentage) && decayRate == old(decayRate)
    {
      hide Sum, DistinctPlayers, Covers, OrderedFrom, TruncDiv, Added;
      var k := Find(from);
      var fromThreat := if k >= 0 then entries[k].threat else 0;
      if fromThreat == 0 {
        return;
      }
      var transferAmount := TruncDiv(fromThreat * percentage, 1000);
      Add(to, transferAmount);
      Add(from, -transferAmount);
    }

    method ResetWipe(player: int)
      requires Valid()
      modifies this, heap
      ensures Valid() && entries == Wiped(old(entries), player) && decayRate == old(decayRate)
    {
      hide Sum, DistinctPlayers, Covers, OrderedFrom;
      var k := Find(player);
      if k >= 0 {
        SetToSum(entries, player, 0);
        totalThreat := totalThreat - entries[k].threat;
        entries := entries[k := entries[k].(threat := 0)];
        Sort();
      }
    }
  }

  lemma SumNothing(entries: seq<Entry>)
    ensures Sum(entries[..0]) == 0
  {
  }

  lemma SumNext(entries: seq<Entry>, i: nat)
    requires i < |entries|
    ensures Sum(entries[..i + 1]) == Sum(entries[..i]) + entries[i].threat
  {
    assert entries[..i + 1][..i] == entries[..i];
  }

  lemma TopIsUnique(entries: seq<Entry>, top: int)
    requires IsTop(entries, top)
    ensures forall t :: IsTop(entries, t) ==> t == top
  {
    var k :| 0 <= k < |entries| && entries[k].threat == top;
    forall t | IsTop(entries, t) ensures t == top {
      var j :| 0 <= j < |entries| && entries[j].threat == t;
    }
  }
}
