/**
 * The half-open integer interval `Segment1i` = [a, b) and `RectiSide`, a
 * segment tagged with the side of a rectangle it lies on.
 *
 * `a` and `b` have public setters in C#, so a segment need not satisfy
 * `a <= b`; only the constructor checks it.  Every member that constructs a
 * segment therefore returns a `Result`, and the lemmas show that on valid
 * segments the construction never fails.
 */
module Segments {
  import opened Wrappers
  import opened IntMath
  import opened Vectors
  import opened Directions

  datatype Segment1i = Segment1i(a: int, b: int)

  predicate Valid(s: Segment1i)
  {
    s.a <= s.b
  }

  /** `new Segment1i(a, b)`: throws when `a > b`. */
  function Make(a: int, b: int): (r: Result<Segment1i>)
    ensures r.Success? <==> a <= b
    ensures r.Success? ==> r.value == Segment1i(a, b) && Valid(r.value)
    ensures r.Failure? ==> r.error == ArgumentException
  {
    if a > b then Failure(ArgumentException) else Success(Segment1i(a, b))
  }

  function Length(s: Segment1i): int
  {
    s.b - s.a
  }

  /** `(a + b) / 2` with C#'s truncating division. */
  function Center(s: Segment1i): (c: int)
    ensures Valid(s) ==> s.a <= c <= s.b
  {
    CenterBetween(s.a, s.b);
    Quot(s.a + s.b, 2)
  }

  lemma CenterBetween(a: int, b: int)
    ensures a <= b ==> a <= Quot(a + b, 2) <= b
  {
    if a + b >= 0 {
      assert Quot(a + b, 2) == (a + b) / 2;
    } else {
      assert Quot(a + b, 2) == -((-(a + b)) / 2);
    }
  }

  /** The cells `a, a + 1, ..., b - 1`, in the enumerator's order. */
  function Cells(s: Segment1i): (r: seq<int>)
    ensures |r| == if s.a <= s.b then s.b - s.a else 0
    ensures forall k :: 0 <= k < |r| ==> r[k] == s.a + k
  {
    if s.a <= s.b then seq(s.b - s.a, k => s.a + k) else []
  }

  /** The cells are exactly the integers in `[a, b)`. */
  lemma CellsMembership(s: Segment1i, i: int)
    ensures i in Cells(s) <==> s.a <= i < s.b
  {
    if s.a <= i < s.b {
      assert Cells(s)[i - s.a] == i;
    }
  }

  /** Half-open overlap test. */
  predicate Overlaps(s: Segment1i, o: Segment1i)
  {
    s.a < o.b && s.b > o.a
  }

  /**
   * Overlapping is symmetric, and two non-empty segments overlap exactly
   * when they share a cell.
   */
  lemma OverlapsMeansSharedCell(s: Segment1i, o: Segment1i)
    ensures Overlaps(s, o) <==> Overlaps(o, s)
    ensures s.a < s.b && o.a < o.b ==>
      (Overlaps(s, o) <==> exists i :: i in Cells(s) && i in Cells(o))
  {
    if s.a < s.b && o.a < o.b {
      if Overlaps(s, o) {
        var i := Max(s.a, o.a);
        CellsMembership(s, i);
        CellsMembership(o, i);
      }
      forall i | i in Cells(s) && i in Cells(o)
        ensures Overlaps(s, o)
      {
        CellsMembership(s, i);
        CellsMembership(o, i);
      }
    }
  }

  /** Segment1i.Distance: 0 when overlapping, else a gap measured between
   *  end cells. */
  function Distance(s: Segment1i, o: Segment1i): int
  {
    if Overlaps(s, o) then 0 else Min(Abs(s.a - o.b + 1), Abs(o.a - s.b + 1))
  }

  /**
   * `Distance` is symmetric, and for two non-empty disjoint segments it is
   * the least distance between a cell of one and a cell of the other.
   */
  lemma DistanceIsCellDistance(s: Segment1i, o: Segment1i)
    ensures Distance(s, o) == Distance(o, s)
    ensures s.a < s.b && o.a < o.b && !Overlaps(s, o) ==>
      (forall i, j :: i in Cells(s) && j in Cells(o) ==> Abs(i - j) >= Distance(s, o)) &&
      exists i, j :: i in Cells(s) && j in Cells(o) && Abs(i - j) == Distance(s, o)
  {
    if s.a < s.b && o.a < o.b && !Overlaps(s, o) {
      var d := Distance(s, o);
      var i0, j0;
      if s.b <= o.a {
        assert d == o.a - s.b + 1;
        i0, j0 := s.b - 1, o.a;
      } else {
        assert d == s.a - o.b + 1;
        i0, j0 := s.a, o.b - 1;
      }
      forall i, j | i in Cells(s) && j in Cells(o)
        ensures Abs(i - j) >= d
      {
        CellsMembership(s, i);
        CellsMembership(o, j);
      }
      CellsMembership(s, i0);
      CellsMembership(o, j0);
      assert i0 in Cells(s) && j0 in Cells(o) && Abs(i0 - j0) == d;
    }
  }

  /** Segment1i.Intersect: the common part, or `(0, 0)` when disjoint. */
  function Intersect(s: Segment1i, o: Segment1i): (r: Result<Segment1i>)
    ensures Valid(s) && Valid(o) ==> r.Success?
    ensures Valid(s) && Valid(o) && !Overlaps(s, o) ==> r == Success(Segment1i(0, 0))
  {
    if Overlaps(s, o) then Make(Max(s.a, o.a), Min(s.b, o.b)) else Make(0, 0)
  }

  /** On valid segments the intersection holds exactly the shared cells. */
  lemma IntersectIsIntersection(s: Segment1i, o: Segment1i, i: int)
    requires Valid(s) && Valid(o)
    ensures i in Cells(Intersect(s, o).value) <==> i in Cells(s) && i in Cells(o)
  {
    CellsMembership(s, i);
    CellsMembership(o, i);
    CellsMembership(Intersect(s, o).value, i);
  }

  /** Segment1i.Union: the smallest segment spanning both. */
  function Union(s: Segment1i, o: Segment1i): (r: Result<Segment1i>)
    ensures Valid(s) && Valid(o) ==> r.Success?
  {
    Make(Min(s.a, o.a), Max(s.b, o.b))
  }

  /**
   * The union of valid segments contains every cell of each, and any segment
   * that contains both contains the union.
   */
  lemma UnionIsHull(s: Segment1i, o: Segment1i, h: Segment1i)
    requires Valid(s) && Valid(o)
    ensures forall i :: i in Cells(s) || i in Cells(o) ==> i in Cells(Union(s, o).value)
    ensures h.a <= s.a && h.a <= o.a && s.b <= h.b && o.b <= h.b ==>
      h.a <= Union(s, o).value.a && Union(s, o).value.b <= h.b
  {
    forall i | i in Cells(s) || i in Cells(o)
      ensures i in Cells(Union(s, o).value)
    {
      CellsMembership(s, i);
      CellsMembership(o, i);
      CellsMembership(Union(s, o).value, i);
    }
  }

  /**
   * Where a bound that starts at `x` and walks toward `t` one step at a time
   * stands after `k` steps: it stops once it reaches `t`.
   */
  function Toward(x: int, t: int, k: nat): (p: int)
    ensures x <= t ==> x <= p <= t
    ensures t <= x ==> t <= p <= x
  {
    if x < t then Min(x + k, t) else Max(x - k, t)
  }

  /** After `k` steps the bound has moved by at most `k`, and it is home
   *  exactly when home was at most `k` away. */
  lemma TowardReach(x: int, t: int, k: nat)
    ensures Abs(Toward(x, t, k) - x) <= k
    ensures Abs(t - x) <= k <==> Toward(x, t, k) == t
  {
  }

  /** One step of the walk: `+Math.Sign(t - x)` unless the bound is home. */
  lemma TowardStep(x: int, t: int, k: nat)
    ensures Toward(x, t, k + 1) == if Toward(x, t, k) == t then t else Toward(x, t, k) + SignOf(t - x)
  {
  }

  /** Two walks that start and end in order stay in order. */
  lemma TowardOrdered(x: int, tx: int, y: int, ty: int, k: nat)
    requires x <= y && tx <= ty
    ensures Toward(x, tx, k) <= Toward(y, ty, k)
  {
  }

  /** The number of steps the longer of the two bound walks takes. */
  function Steps(s: Segment1i, target: Segment1i): nat
  {
    Max(Abs(target.a - s.a), Abs(target.b - s.b))
  }

  /** The segments `Lerp` yields, as positions of the two walks. */
  function LerpPath(s: Segment1i, target: Segment1i): (r: seq<Segment1i>)
    ensures |r| == if s == target then 0 else Steps(s, target) - 1
  {
    if s == target then []
    else seq(Steps(s, target) - 1, k requires 0 <= k => Segment1i(Toward(s.a, target.a, k + 1), Toward(s.b, target.b, k + 1)))
  }

  /**
   * Segment1i.Lerp: walk both bounds one step at a time toward the target,
   * yielding every intermediate segment.  A segment whose bounds cross makes
   * the constructor throw.
   */
  method Lerp(s: Segment1i, target: Segment1i) returns (r: Result<seq<Segment1i>>)
    ensures r.Success? ==> r.value == LerpPath(s, target)
    ensures r.Failure? ==> r.error == ArgumentException
    ensures Valid(s) && Valid(target) ==> r.Success?
  {
    if target.a == s.a && target.b == s.b {
      return Success([]);
    }
    var currA, currB := s.a, s.b;
    var lenA, lenB := target.a - s.a, target.b - s.b;
    var stepA, stepB := SignOf(lenA), SignOf(lenB);
    var path: seq<Segment1i> := [];
    var i := Max(Abs(lenA), Abs(lenB));
    ghost var k: nat := 0;
    while i > 1
      invariant 1 <= i && k + i == Steps(s, target)
      invariant currA == Toward(s.a, target.a, k)
      invariant currB == Toward(s.b, target.b, k)
      invariant path == LerpPath(s, target)[..k]
    {
      AdvanceBound(s.a, target.a, k, currA, stepA);
      AdvanceBound(s.b, target.b, k, currB, stepB);
      if currA != target.a {
        currA := currA + stepA;
      }
      if currB != target.b {
        currB := currB + stepB;
      }
      if Valid(s) && Valid(target) {
        TowardOrdered(s.a, target.a, s.b, target.b, k + 1);
      }
      var next := Make(currA, currB);
      if next.Failure? {
        return Failure(next.error);
      }
      LerpPathSnoc(s, target, k);
      path := path + [next.value];
      i, k := i - 1, k + 1;
    }
    return Success(path);
  }

  /**
   * On valid segments `Lerp` yields `max(|da|, |db|) - 1` segments, all valid,
   * none equal to the start or the target, each bound moving at most one
   * step from the previous segment.
   */
  lemma LerpPathFacts(s: Segment1i, target: Segment1i)
    requires Valid(s) && Valid(target)
    ensures forall k :: 0 <= k < |LerpPath(s, target)| ==> Valid(LerpPath(s, target)[k])
    ensures forall k :: 0 <= k < |LerpPath(s, target)| ==>
      LerpPath(s, target)[k] != s && LerpPath(s, target)[k] != target
    ensures forall k :: 0 < k < |LerpPath(s, target)| ==>
      Abs(LerpPath(s, target)[k].a - LerpPath(s, target)[k - 1].a) <= 1 &&
      Abs(LerpPath(s, target)[k].b - LerpPath(s, target)[k - 1].b) <= 1
  {
    var p := LerpPath(s, target);
    forall k | 0 <= k < |p|
      ensures Valid(p[k]) && p[k] != s && p[k] != target
    {
      LerpPathPoint(s, target, k);
    }
    forall k | 0 < k < |p|
      ensures Abs(p[k].a - p[k - 1].a) <= 1 && Abs(p[k].b - p[k - 1].b) <= 1
    {
      LerpPathMove(s, target, k);
    }
  }

  /** Consecutive segments of the path differ by at most one on each bound. */
  lemma LerpPathMove(s: Segment1i, target: Segment1i, k: nat)
    requires s != target && 0 < k < Steps(s, target) - 1
    ensures Abs(LerpPath(s, target)[k].a - LerpPath(s, target)[k - 1].a) <= 1
    ensures Abs(LerpPath(s, target)[k].b - LerpPath(s, target)[k - 1].b) <= 1
  {
    LerpPathAt(s, target, k);
    LerpPathAt(s, target, k - 1);
    TowardStep(s.a, target.a, k);
    TowardStep(s.b, target.b, k);
  }

  /** One segment of the path is valid and neither end of the walk. */
  lemma LerpPathPoint(s: Segment1i, target: Segment1i, k: nat)
    requires Valid(s) && Valid(target) && s != target && k < Steps(s, target) - 1
    ensures Valid(LerpPath(s, target)[k])
    ensures LerpPath(s, target)[k] != s && LerpPath(s, target)[k] != target
  {
    LerpPathAt(s, target, k);
    TowardOrdered(s.a, target.a, s.b, target.b, k + 1);
    TowardReach(s.a, target.a, k + 1);
    TowardReach(s.b, target.b, k + 1);
  }

  /** Two of the expected walks: a shift by (7, 5) and an expansion. */
  lemma LerpExamples()
    ensures LerpPath(Segment1i(0, 5), Segment1i(7, 10)) ==
      [Segment1i(1, 6), Segment1i(2, 7), Segment1i(3, 8), Segment1i(4, 9), Segment1i(5, 10), Segment1i(6, 10)]
    ensures LerpPath(Segment1i(0, 5), Segment1i(-3, 6)) == [Segment1i(-1, 6), Segment1i(-2, 6)]
    ensures LerpPath(Segment1i(0, 5), Segment1i(0, 5)) == []
  {
    var p := LerpPath(Segment1i(0, 5), Segment1i(7, 10));
    forall k | 0 <= k < 6
      ensures p[k] == Segment1i(k + 1, Min(k + 6, 10))
    {
      LerpPathAt(Segment1i(0, 5), Segment1i(7, 10), k);
    }
    var q := LerpPath(Segment1i(0, 5), Segment1i(-3, 6));
    forall k | 0 <= k < 2
      ensures q[k] == Segment1i(-k - 1, 6)
    {
      LerpPathAt(Segment1i(0, 5), Segment1i(-3, 6), k);
    }
  }

  /** The loop's update of one bound is one step of the walk. */
  lemma AdvanceBound(x: int, t: int, k: nat, cur: int, step: int)
    requires cur == Toward(x, t, k) && step == SignOf(t - x)
    ensures cur != t ==> cur + step == Toward(x, t, k + 1)
    ensures cur == t ==> cur == Toward(x, t, k + 1)
  {
    TowardStep(x, t, k);
  }

  lemma LerpPathSnoc(s: Segment1i, target: Segment1i, k: nat)
    requires s != target && k < Steps(s, target) - 1
    ensures LerpPath(s, target)[..k + 1] ==
      LerpPath(s, target)[..k] + [Segment1i(Toward(s.a, target.a, k + 1), Toward(s.b, target.b, k + 1))]
  {
    LerpPathAt(s, target, k);
  }

  lemma LerpPathAt(s: Segment1i, target: Segment1i, k: nat)
    requires s != target && k < Steps(s, target) - 1
    ensures LerpPath(s, target)[k] == Segment1i(Toward(s.a, target.a, k + 1), Toward(s.b, target.b, k + 1))
  {
  }

  /** A side of a `Recti`: the segment of coordinates along the side and the
   *  fixed coordinate on the other axis. */
  datatype RectiSide = RectiSide(dir: Dir, seg: Segment1i, otherAxis: int)

  /** `new RectiSide(dir, a, b, otherAxis)`: throws like the segment constructor. */
  function MakeSide(dir: Dir, a: int, b: int, otherAxis: int): (r: Result<RectiSide>)
    ensures r.Success? <==> a <= b
    ensures r.Success? ==> r.value == RectiSide(dir, Segment1i(a, b), otherAxis)
    ensures r.Failure? ==> r.error == ArgumentException
  {
    var seg :- Make(a, b);
    Success(RectiSide(dir, seg, otherAxis))
  }

  /** GetIntToCellConverter: on an N or S side the coordinate is `x`, on an E
   *  or W side it is `y`. */
  function CellOf(side: RectiSide, t: int): Vec2i
  {
    if IsVertical(side.dir) then Vec2i(t, side.otherAxis) else Vec2i(side.otherAxis, t)
  }

  /** The `cells` property: the segment's cells mapped through the converter. */
  function SideCellList(side: RectiSide): (r: seq<Vec2i>)
    ensures |r| == |Cells(side.seg)|
  {
    seq(|Cells(side.seg)|, k requires 0 <= k < |Cells(side.seg)| => CellOf(side, Cells(side.seg)[k]))
  }

  /**
   * A side's cells are distinct, lie on the line `otherAxis` across the side's
   * axis, and are exactly the points of that line within the segment.
   */
  lemma SideCellsOnLine(side: RectiSide, p: Vec2i)
    ensures forall j, k :: 0 <= j < k < |SideCellList(side)| ==> SideCellList(side)[j] != SideCellList(side)[k]
    ensures p in SideCellList(side) <==>
      if IsVertical(side.dir) then p.y == side.otherAxis && side.seg.a <= p.x < side.seg.b
      else p.x == side.otherAxis && side.seg.a <= p.y < side.seg.b
  {
    var t := if IsVertical(side.dir) then p.x else p.y;
    if side.seg.a <= t < side.seg.b && p == CellOf(side, t) {
      assert SideCellList(side)[t - side.seg.a] == p;
    }
  }
}
