/** Straight-line visibility (Bresenham's line) and path smoothing.

    The loop keeps a running error term; the reference is the closed form: the k-th cell of the line is the
    one whose offset from the long axis is `k * minor / major` rounded to the nearest integer, halves up. */
module LineOfSight {
  import opened Int32
  import opened Integers
  import opened Geometry
  import opened Pathfinding

  // ---------- The line in closed form ----------

  function Major(a: Cell, b: Cell): nat {
    if Abs(b.x - a.x) >= Abs(b.z - a.z) then Abs(b.x - a.x) else Abs(b.z - a.z)
  }

  function Minor(a: Cell, b: Cell): nat {
    if Abs(b.x - a.x) >= Abs(b.z - a.z) then Abs(b.z - a.z) else Abs(b.x - a.x)
  }

  /** How far the line has left its long axis after k steps. */
  function Offset(k: nat, minor: nat, major: nat): nat {
    if major == 0 then 0 else (2 * (k * minor) + major) / (2 * major)
  }

  /** k steps in the direction of d. */
  function Along(d: int, k: int): int {
    if d > 0 then k else if d < 0 then -k else 0
  }

  function LineCell(a: Cell, b: Cell, k: nat): Cell {
    var off := Offset(k, Minor(a, b), Major(a, b));
    if Abs(b.x - a.x) >= Abs(b.z - a.z) then Cell(a.x + Along(b.x - a.x, k), a.z + Along(b.z - a.z, off))
    else Cell(a.x + Along(b.x - a.x, off), a.z + Along(b.z - a.z, k))
  }

  ghost predicate LineClear(walkable: Walkable, a: Cell, b: Cell) {
    forall k :: 0 <= k <= Major(a, b) ==> ClearAt(walkable, a, b, k)
  }

  predicate ClearAt(walkable: Walkable, a: Cell, b: Cell, k: nat) {
    walkable(LineCell(a, b, k).x, LineCell(a, b, k).z)
  }

  // ---------- Arithmetic of the error term ----------

  lemma DivUnique(n: nat, d: nat, q: nat)
    requires d > 0
    ensures q * d <= n < q * d + d <==> q == n / d
  {
    var p := n / d;
    assert n == p * d + n % d;
    if q < p {
      assert (q + 1) * d <= p * d;
    } else if q > p {
      assert (p + 1) * d <= q * d;
    }
  }

  /** Rounding: 2 * |k * minor - major * off| <= major, and off is the only such offset, halves up. */
  ghost predicate Nearest(k: nat, minor: nat, major: nat, off: nat) {
    2 * (major * off) <= 2 * (k * minor) + major < 2 * (major * off) + 2 * major
  }

  lemma OffsetIsNearest(k: nat, minor: nat, major: nat, off: nat)
    requires major > 0
    ensures Nearest(k, minor, major, off) <==> off == Offset(k, minor, major)
  {
    DivUnique(2 * (k * minor) + major, 2 * major, off);
    assert off * (2 * major) == 2 * (major * off);
  }

  /** The error the loop holds after k steps. */
  ghost function ErrorTerm(k: nat, minor: nat, major: nat): int {
    2 * minor - major + 2 * (k * minor) - 2 * (major * Offset(k, minor, major))
  }

  /** One step of the loop: the sign of the error decides whether the offset grows. */
  lemma OffsetStep(k: nat, minor: nat, major: nat)
    requires minor <= major && major > 0
    ensures var e := ErrorTerm(k, minor, major);
      if e >= 0 then
        Offset(k + 1, minor, major) == Offset(k, minor, major) + 1
        && ErrorTerm(k + 1, minor, major) == e - 2 * major + 2 * minor
      else
        Offset(k + 1, minor, major) == Offset(k, minor, major)
        && ErrorTerm(k + 1, minor, major) == e + 2 * minor
  {
    var off := Offset(k, minor, major);
    OffsetIsNearest(k, minor, major, off);
    assert (k + 1) * minor == k * minor + minor;
    assert major * (off + 1) == major * off + major;
    OffsetIsNearest(k + 1, minor, major, if ErrorTerm(k, minor, major) >= 0 then off + 1 else off);
  }

  lemma OffsetEnds(minor: nat, major: nat)
    requires minor <= major
    ensures Offset(0, minor, major) == 0
    ensures Offset(major, minor, major) == minor
  {
    if major > 0 {
      OffsetIsNearest(0, minor, major, 0);
      OffsetIsNearest(major, minor, major, minor);
    }
  }

  // ---------- The line, step by step ----------

  /** The line starts at a, lands exactly on b after max(|dx|, |dz|) steps, moves by one king's move at a time,
      and every cell on it lies within half a cell of the ideal line. */
  lemma LineIsStraight(a: Cell, b: Cell, k: nat)
    requires k <= Major(a, b)
    ensures LineCell(a, b, 0) == a && LineCell(a, b, Major(a, b)) == b
    ensures k < Major(a, b) ==> UnitStep(LineCell(a, b, k), LineCell(a, b, k + 1))
    ensures 2 * Abs(k * Minor(a, b) - Major(a, b) * Offset(k, Minor(a, b), Major(a, b))) <= Major(a, b)
  {
    hide Offset;
    OffsetEnds(Minor(a, b), Major(a, b));
    if Major(a, b) > 0 {
      OffsetIsNearest(k, Minor(a, b), Major(a, b), Offset(k, Minor(a, b), Major(a, b)));
      OffsetStep(k, Minor(a, b), Major(a, b));
    }
  }

  function Sign(d: int): int {
    if d > 0 then 1 else if d < 0 then -1 else 0
  }

  /** The next cell of the line, by the sign of the error. */
  lemma LineStep(a: Cell, b: Cell, k: nat)
    requires k < Major(a, b)
    ensures var c, sx, sz := LineCell(a, b, k), Sign(b.x - a.x), Sign(b.z - a.z);
      var e := ErrorTerm(k, Minor(a, b), Major(a, b));
      LineCell(a, b, k + 1) ==
        if Abs(b.x - a.x) >= Abs(b.z - a.z) then Cell(c.x + sx, c.z + if e >= 0 then sz else 0)
        else Cell(c.x + (if e >= 0 then sx else 0), c.z + sz)
  {
    hide Offset, ErrorTerm;
    OffsetStep(k, Minor(a, b), Major(a, b));
  }

  lemma LineStartError(a: Cell, b: Cell)
    ensures ErrorTerm(0, Minor(a, b), Major(a, b)) == 2 * Minor(a, b) - Major(a, b)
  {
    hide Offset;
    OffsetEnds(Minor(a, b), Major(a, b));
  }

  /** On the long axis the line is k steps from its start. */
  lemma LineProgress(a: Cell, b: Cell, k: nat)
    requires k <= Major(a, b)
    ensures if Abs(b.x - a.x) >= Abs(b.z - a.z) then LineCell(a, b, k).x == b.x <==> k == Major(a, b)
      else LineCell(a, b, k).z == b.z <==> k == Major(a, b)
  {
    hide Offset;
  }

  /** One step of the loop that answers: the next cell, the next error, and whether the end is reached. */
  lemma LineAdvance(a: Cell, b: Cell, k: nat)
    requires k < Major(a, b)
    ensures var c, sx, sz := LineCell(a, b, k), Sign(b.x - a.x), Sign(b.z - a.z);
      var minor, major := Minor(a, b), Major(a, b);
      var e, d := ErrorTerm(k, minor, major), LineCell(a, b, k + 1);
      d == (if Abs(b.x - a.x) >= Abs(b.z - a.z) then Cell(c.x + sx, c.z + if e >= 0 then sz else 0)
            else Cell(c.x + (if e >= 0 then sx else 0), c.z + sz))
      && ErrorTerm(k + 1, minor, major) == (if e >= 0 then e - 2 * major else e) + 2 * minor
      && (if Abs(b.x - a.x) >= Abs(b.z - a.z) then d.x == b.x <==> k + 1 == major else d.z == b.z <==> k + 1 == major)
  {
    hide Offset, ErrorTerm, LineCell;
    OffsetStep(k, Minor(a, b), Major(a, b));
    LineStep(a, b, k);
    LineProgress(a, b, k + 1);
  }

  /** Between neighbours only the two ends are looked at. */
  lemma NeighboursSeeEachOther(walkable: Walkable, a: Cell, b: Cell)
    requires UnitStep(a, b)
    ensures LineClear(walkable, a, b) <==> walkable(a.x, a.z) && walkable(b.x, b.z)
  {
    LineIsStraight(a, b, 0);
    assert Major(a, b) == 1;
    assert ClearAt(walkable, a, b, 0) == walkable(a.x, a.z);
    assert ClearAt(walkable, a, b, 1) == walkable(b.x, b.z);
  }

  // ---------- When a clear line can be walked ----------

  /** The cells of the line, in order. */
  function Line(a: Cell, b: Cell): (r: seq<Cell>)
    ensures |r| == Major(a, b) + 1 && forall k :: 0 <= k < |r| ==> r[k] == LineCell(a, b, k)
  {
    seq(Major(a, b) + 1, k requires 0 <= k <= Major(a, b) => LineCell(a, b, k))
  }

  predicate CornersClearAt(walkable: Walkable, a: Cell, b: Cell, k: nat) {
    var c, d := LineCell(a, b, k), LineCell(a, b, k + 1);
    Diagonal(c, d) ==> walkable(d.x, c.z) && walkable(c.x, d.z)
  }

  /** Both corners are walkable wherever the line moves diagonally. */
  ghost predicate CornersClear(walkable: Walkable, a: Cell, b: Cell) {
    forall k :: 0 <= k < Major(a, b) ==> CornersClearAt(walkable, a, b, k)
  }

  /** Every cell of the line after the first is on the board. */
  ghost predicate LineInBounds(a: Cell, b: Cell) {
    forall k :: 1 <= k <= Major(a, b) ==> InBounds(LineCell(a, b, k))
  }

  lemma MulMonotone(x: nat, y: nat, z: nat)
    requires x <= y
    ensures x * z <= y * z
  {
    assert y * z == x * z + (y - x) * z;
  }

  lemma MulGap(a: nat, x: nat, y: nat)
    ensures x > y ==> a * x >= a * y + a
  {
    if x > y {
      MulMonotone(y + 1, x, a);
      assert (y + 1) * a == a * y + a;
      assert x * a == a * x;
    }
  }

  lemma OffsetBounded(k: nat, minor: nat, major: nat)
    requires k <= major && minor <= major
    ensures 0 <= Offset(k, minor, major) <= minor
  {
    hide Offset;
    if major > 0 {
      var off := Offset(k, minor, major);
      OffsetIsNearest(k, minor, major, off);
      MulMonotone(k, major, minor);
      MulGap(major, off, minor);
    } else {
      OffsetEnds(minor, major);
    }
  }

  /** Between cells on the board the line stays on it. */
  lemma LineStaysInBounds(a: Cell, b: Cell)
    requires InBounds(a) && InBounds(b)
    ensures LineInBounds(a, b)
  {
    hide Offset;
    forall k | 1 <= k <= Major(a, b) ensures InBounds(LineCell(a, b, k)) {
      OffsetBounded(k, Minor(a, b), Major(a, b));
    }
  }

  lemma LineStepLegalIff(walkable: Walkable, a: Cell, b: Cell, k: nat)
    requires k < Major(a, b) && ClearAt(walkable, a, b, k + 1)
    ensures LegalStep(walkable, LineCell(a, b, k), LineCell(a, b, k + 1)) <==>
      InBounds(LineCell(a, b, k + 1)) && CornersClearAt(walkable, a, b, k)
  {
    hide LineCell;
    LineIsStraight(a, b, k);
  }

  /** A clear line can be walked, each of its steps a legal one, exactly if it stays on the board and both
      corners are walkable wherever it moves diagonally. */
  lemma ClearLineIsWalkIff(walkable: Walkable, a: Cell, b: Cell)
    requires LineClear(walkable, a, b)
    ensures WalkBetween(walkable, Line(a, b), a, b) <==> LineInBounds(a, b) && CornersClear(walkable, a, b)
  {
    hide LineCell, LegalStep, CornersClearAt, ClearAt;
    var line := Line(a, b);
    LineIsStraight(a, b, 0);
    forall k | 0 <= k < Major(a, b)
      ensures LegalStep(walkable, line[k], line[k + 1]) <==>
        InBounds(LineCell(a, b, k + 1)) && CornersClearAt(walkable, a, b, k)
    {
      assert ClearAt(walkable, a, b, k + 1);
      LineStepLegalIff(walkable, a, b, k);
    }
    if WalkBetween(walkable, line, a, b) {
      forall k | 1 <= k <= Major(a, b) ensures InBounds(LineCell(a, b, k)) {
        assert LegalStep(walkable, line[k - 1], line[k - 1 + 1]);
      }
      forall k | 0 <= k < Major(a, b) ensures CornersClearAt(walkable, a, b, k) {
        assert LegalStep(walkable, line[k], line[k + 1]);
      }
    }
  }

  /** A case: a clear line that cuts a corner and cannot be walked. */
  lemma ClearLineMayCutCorner(walkable: Walkable)
    requires walkable(0, 0) && walkable(1, 1) && !walkable(1, 0)
    ensures LineClear(walkable, Cell(0, 0), Cell(1, 1)) && !LegalStep(walkable, Cell(0, 0), Cell(1, 1))
  {
    NeighboursSeeEachOther(walkable, Cell(0, 0), Cell(1, 1));
  }

  /** The loop, with its running error, answers whether every cell of the closed-form line is walkable. */
  method HasLineOfSight(x1: int, z1: int, x2: int, z2: int, isWalkable: Walkable) returns (clear: bool)
    ensures clear <==> LineClear(isWalkable, Cell(x1, z1), Cell(x2, z2))
  {
    hide Offset, ErrorTerm, LineCell;
    ghost var a, b := Cell(x1, z1), Cell(x2, z2);
    ghost var k := 0;
    LineIsStraight(a, b, 0);
    LineStartError(a, b);
    var dx := x2 - x1;
    var dz := z2 - z1;
    var absDx := if dx < 0 then -dx else dx;
    var absDz := if dz < 0 then -dz else dz;
    var x, z := x1, z1;
    var sx := Sign(dx);
    var sz := Sign(dz);
    if absDx >= absDz {
      var err := 2 * absDz - absDx;
      LineProgress(a, b, k);
      while x != x2
        invariant 0 <= k <= absDx && Cell(x, z) == LineCell(a, b, k) && (x == x2 <==> k == absDx)
        invariant err == ErrorTerm(k, absDz, absDx)
        invariant forall j :: 0 <= j < k ==> ClearAt(isWalkable, a, b, j)
        decreases absDx - k
      {
        if !isWalkable(x, z) {
          assert !ClearAt(isWalkable, a, b, k);
          return false;
        }
        LineAdvance(a, b, k);
        if err >= 0 {
          z := z + sz;
          err := err - 2 * absDx;
        }
        err := err + 2 * absDz;
        x := x + sx;
        k := k + 1;
      }
    } else {
      var err := 2 * absDx - absDz;
      LineProgress(a, b, k);
      while z != z2
        invariant 0 <= k <= absDz && Cell(x, z) == LineCell(a, b, k) && (z == z2 <==> k == absDz)
        invariant err == ErrorTerm(k, absDx, absDz)
        invariant forall j :: 0 <= j < k ==> ClearAt(isWalkable, a, b, j)
        decreases absDz - k
      {
        if !isWalkable(x, z) {
          assert !ClearAt(isWalkable, a, b, k);
          return false;
        }
        LineAdvance(a, b, k);
        if err >= 0 {
          x := x + sx;
          err := err - 2 * absDz;
        }
        err := err + 2 * absDx;
        z := z + sz;
        k := k + 1;
      }
    }
    assert k == Major(a, b);
    assert isWalkable(x, z) == ClearAt(isWalkable, a, b, k);
    return isWalkable(x, z);
  }

  // ---------- Smoothing ----------

  /** The indices of the points kept after the key point `last`, from candidate i on. */
  ghost function KeysFrom(walkable: Walkable, p: seq<Cell>, last: nat, i: nat): (r: seq<int>)
    requires last < i < |p|
    decreases |p| - i
  {
    if i == |p| - 1 then [i]
    else if LineClear(walkable, p[last], p[i + 1]) then KeysFrom(walkable, p, last, i + 1)
    else [i] + KeysFrom(walkable, p, i, i + 1)
  }

  /** The indices smoothing keeps; a path of at most two points is kept whole. */
  ghost function Keys(walkable: Walkable, p: seq<Cell>): seq<int> {
    if |p| == 0 then [] else if |p| == 1 then [0] else [0] + KeysFrom(walkable, p, 0, 1)
  }

  ghost predicate IncreasingBelow(r: seq<int>, lo: int, hi: int) {
    && (forall k :: 0 <= k < |r| ==> lo <= r[k] < hi)
    && (forall k, l :: 0 <= k < l < |r| ==> r[k] < r[l])
  }

  /** A path whose points are walkable and whose neighbours are king's moves apart, as the pathfinder returns. */
  ghost predicate Connected(walkable: Walkable, p: seq<Cell>) {
    && (forall i :: 0 <= i < |p| ==> walkable(p[i].x, p[i].z))
    && (forall i :: 0 <= i < |p| - 1 ==> UnitStep(p[i], p[i + 1]))
  }

  ghost predicate SeenFrom(walkable: Walkable, p: seq<Cell>, last: int, r: seq<int>)
    requires 0 <= last < |p| && forall k :: 0 <= k < |r| ==> 0 <= r[k] < |p|
  {
    && (|r| > 0 ==> LineClear(walkable, p[last], p[r[0]]))
    && forall k :: 0 <= k < |r| - 1 ==> LineClear(walkable, p[r[k]], p[r[k + 1]])
  }

  lemma {:induction false} KeysFromOrdered(walkable: Walkable, p: seq<Cell>, last: nat, i: nat)
    requires last < i < |p|
    ensures var r := KeysFrom(walkable, p, last, i);
      IncreasingBelow(r, i, |p|) && |r| > 0 && r[|r| - 1] == |p| - 1
    decreases |p| - i
  {
    hide LineClear;
    if i == |p| - 1 {
    } else if LineClear(walkable, p[last], p[i + 1]) {
      KeysFromOrdered(walkable, p, last, i + 1);
    } else {
      KeysFromOrdered(walkable, p, i, i + 1);
    }
  }

  lemma {:induction false} KeysFromSeen(walkable: Walkable, p: seq<Cell>, last: nat, i: nat)
    requires last < i < |p| && Connected(walkable, p)
    requires LineClear(walkable, p[last], p[i])
    requires IncreasingBelow(KeysFrom(walkable, p, last, i), i, |p|)
    ensures SeenFrom(walkable, p, last, KeysFrom(walkable, p, last, i))
    decreases |p| - i
  {
    hide LineClear;
    if i == |p| - 1 {
    } else if LineClear(walkable, p[last], p[i + 1]) {
      KeysFromOrdered(walkable, p, last, i + 1);
      KeysFromSeen(walkable, p, last, i + 1);
    } else {
      NeighboursSeeEachOther(walkable, p[i], p[i + 1]);
      KeysFromOrdered(walkable, p, i, i + 1);
      KeysFromSeen(walkable, p, i, i + 1);
    }
  }

  /** Smoothing keeps a subsequence with both endpoints. */
  lemma KeysOrdered(walkable: Walkable, p: seq<Cell>)
    requires |p| > 0
    ensures var r := Keys(walkable, p);
      IncreasingBelow(r, 0, |p|) && |r| > 0 && r[0] == 0 && r[|r| - 1] == |p| - 1
  {
    hide LineClear, KeysFrom;
    if |p| > 1 {
      KeysFromOrdered(walkable, p, 0, 1);
      PrependIncreasing(KeysFrom(walkable, p, 0, 1), |p|);
    }
  }

  lemma PrependIncreasing(rest: seq<int>, hi: int)
    requires IncreasingBelow(rest, 1, hi) && |rest| > 0
    ensures IncreasingBelow([0] + rest, 0, hi) && ([0] + rest)[|rest|] == rest[|rest| - 1]
  {
    var all := [0] + rest;
    forall k | 0 <= k < |all| ensures 0 <= all[k] < hi {
      assert k > 0 ==> 1 <= rest[k - 1] < hi;
      assert k == 0 ==> 1 <= rest[0] < hi;
    }
    forall k, l | 0 <= k < l < |all| ensures all[k] < all[l] {
      assert k > 0 ==> rest[k - 1] < rest[l - 1];
    }
  }

  /** The point after j is seen from the point at `from`. */
  ghost predicate SeesNext(walkable: Walkable, p: seq<Cell>, from: int, j: int) {
    0 <= from < |p| && 0 <= j < |p| - 1 && LineClear(walkable, p[from], p[j + 1])
  }

  /** Two neighbouring key points: each point dropped between them is followed by one that the first sees, and the
      second, unless it is the last of all, by one that the first does not see. */
  ghost predicate GapIsGreedy(walkable: Walkable, p: seq<Cell>, from: int, to: int) {
    && (forall j :: from < j < to ==> SeesNext(walkable, p, from, j))
    && (to < |p| - 1 ==> !SeesNext(walkable, p, from, to))
  }

  ghost predicate AllGreedy(walkable: Walkable, p: seq<Cell>, from: int, r: seq<int>)
    decreases |r|
  {
    |r| == 0 || (GapIsGreedy(walkable, p, from, r[0]) && AllGreedy(walkable, p, r[0], r[1..]))
  }

  lemma {:induction false} KeysFromGreedy(walkable: Walkable, p: seq<Cell>, last: nat, i: nat)
    requires last < i < |p|
    requires forall j :: last < j < i ==> SeesNext(walkable, p, last, j)
    ensures AllGreedy(walkable, p, last, KeysFrom(walkable, p, last, i))
    decreases |p| - i
  {
    hide LineClear;
    if i == |p| - 1 {
      assert KeysFrom(walkable, p, last, i)[1..] == [];
    } else if LineClear(walkable, p[last], p[i + 1]) {
      KeysFromGreedy(walkable, p, last, i + 1);
    } else {
      KeysFromGreedy(walkable, p, i, i + 1);
      assert KeysFrom(walkable, p, last, i)[1..] == KeysFrom(walkable, p, i, i + 1);
    }
  }

  lemma {:induction false} GreedyAt(walkable: Walkable, p: seq<Cell>, from: int, r: seq<int>, k: nat)
    requires AllGreedy(walkable, p, from, r) && k < |r|
    ensures GapIsGreedy(walkable, p, if k == 0 then from else r[k - 1], r[k])
    decreases k
  {
    hide GapIsGreedy;
    if k > 0 {
      GreedyAt(walkable, p, r[0], r[1..], k - 1);
    }
  }

  /** Smoothing drops all it can as it goes: each point dropped between two kept ones is followed by a point that
      the one kept before it sees, and each point kept, the two ends aside, by one that it does not see. */
  lemma SmoothingIsGreedy(walkable: Walkable, p: seq<Cell>, k: nat)
    requires k < |Keys(walkable, p)| - 1
    ensures GapIsGreedy(walkable, p, Keys(walkable, p)[k], Keys(walkable, p)[k + 1])
  {
    hide KeysFrom, SeesNext, GapIsGreedy, AllGreedy;
    var rest := KeysFrom(walkable, p, 0, 1);
    KeysFromGreedy(walkable, p, 0, 1);
    GreedyAt(walkable, p, 0, rest, k);
    assert Keys(walkable, p) == [0] + rest;
  }

  ghost predicate SeeingChain(walkable: Walkable, p: seq<Cell>, r: seq<int>)
    requires forall k :: 0 <= k < |r| ==> 0 <= r[k] < |p|
  {
    forall k :: 0 <= k < |r| - 1 ==> LineClear(walkable, p[r[k]], p[r[k + 1]])
  }

  /** On a connected path every two consecutive points that smoothing keeps see each other. */
  lemma SmoothingKeepsSight(walkable: Walkable, p: seq<Cell>)
    requires |p| > 0 && Connected(walkable, p)
    ensures IncreasingBelow(Keys(walkable, p), 0, |p|) && SeeingChain(walkable, p, Keys(walkable, p))
  {
    hide LineClear, KeysFrom;
    KeysOrdered(walkable, p);
    if |p| > 1 {
      NeighboursSeeEachOther(walkable, p[0], p[1]);
      KeysFromOrdered(walkable, p, 0, 1);
      KeysFromSeen(walkable, p, 0, 1);
      assert Keys(walkable, p)[1..] == KeysFrom(walkable, p, 0, 1);
    }
  }

  ghost predicate SegmentWalks(walkable: Walkable, a: Cell, b: Cell) {
    WalkBetween(walkable, Line(a, b), a, b)
  }

  /** Following a smoothed path, straight from each point kept to the next, takes legal steps only, exactly if
      every such line stays on the board and has walkable corners wherever it moves diagonally. */
  lemma SmoothedIsWalkIff(walkable: Walkable, p: seq<Cell>)
    requires |p| > 0 && Connected(walkable, p)
    ensures IncreasingBelow(Keys(walkable, p), 0, |p|)
    ensures var r := Keys(walkable, p);
      (forall k :: 0 <= k < |r| - 1 ==> SegmentWalks(walkable, p[r[k]], p[r[k + 1]])) <==>
      (forall k :: 0 <= k < |r| - 1 ==>
        LineInBounds(p[r[k]], p[r[k + 1]]) && CornersClear(walkable, p[r[k]], p[r[k + 1]]))
  {
    hide LineClear, LineInBounds, CornersClear, WalkBetween, Keys, Connected;
    SmoothingKeepsSight(walkable, p);
    var r := Keys(walkable, p);
    forall k | 0 <= k < |r| - 1
      ensures SegmentWalks(walkable, p[r[k]], p[r[k + 1]]) <==>
        LineInBounds(p[r[k]], p[r[k + 1]]) && CornersClear(walkable, p[r[k]], p[r[k + 1]])
    {
      ClearLineIsWalkIff(walkable, p[r[k]], p[r[k + 1]]);
    }
  }

  method SmoothPath(path: PathResult, isWalkable: Walkable) returns (smoothed: PathResult)
    ensures smoothed.found == path.found
    ensures |smoothed.points| == |Keys(isWalkable, path.points)|
    ensures |path.points| > 0 ==> IncreasingBelow(Keys(isWalkable, path.points), 0, |path.points|)
    ensures |path.points| > 0 ==> forall k :: 0 <= k < |smoothed.points| ==>
      smoothed.points[k] == path.points[Keys(isWalkable, path.points)[k]]
  {
    if |path.points| > 0 {
      KeysOrdered(isWalkable, path.points);
    }
    if |path.points| <= 2 {
      return path;
    }
    var points := [path.points[0]];
    ghost var keys := [0];
    ghost var all := Keys(isWalkable, path.points);
    var lastKey := 0;
    for i := 1 to |path.points| - 1
      invariant 0 <= lastKey < i
      invariant keys + KeysFrom(isWalkable, path.points, lastKey, i) == all
      invariant |points| == |keys| && forall k :: 0 <= k < |keys| ==> points[k] == path.points[all[k]]
    {
      var visible := HasLineOfSight(path.points[lastKey].x, path.points[lastKey].z,
        path.points[i + 1].x, path.points[i + 1].z, isWalkable);
      if !visible {
        points := points + [path.points[i]];
        assert keys + KeysFrom(isWalkable, path.points, lastKey, i)
            == (keys + [i]) + KeysFrom(isWalkable, path.points, i, i + 1);
        keys := keys + [i];
        lastKey := i;
      }
    }
    if lastKey != |path.points| - 1 {
      points := points + [path.points[|path.points| - 1]];
    }
    smoothed := PathResult(path.found, points);
  }

  /** A path the pathfinder found is connected, so smoothing it keeps sight. */
  lemma FoundPathConnected(walkable: Walkable, sx: int, sz: int, ex: int, ez: int, maxNodes: int)
    requires InInt32(sx) && InInt32(sz)
    requires !(sx == ex && sz == ez)
    requires FindPath(walkable, sx, sz, ex, ez, maxNodes).found
    ensures Connected(walkable, FindPath(walkable, sx, sz, ex, ez, maxNodes).points)
  {
    hide RunSearch;
    FindPathSound(walkable, sx, sz, ex, ez, maxNodes);
    var p := FindPath(walkable, sx, sz, ex, ez, maxNodes).points;
    forall i | 0 <= i < |p| ensures walkable(p[i].x, p[i].z) {
      if i > 0 {
        assert LegalStep(walkable, p[i - 1], p[i - 1 + 1]);
      }
    }
    forall i | 0 <= i < |p| - 1 ensures UnitStep(p[i], p[i + 1]) {
      assert LegalStep(walkable, p[i], p[i + 1]);
    }
  }
}
