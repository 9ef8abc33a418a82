/**
 * The half-open integer rectangle `Recti`: cells `position <= p <
 * position + size` on both axes.  The struct is a value: its property
 * setters are functions returning the updated rectangle, and the mutating
 * `ExpandToInclude` is a method that applies them in turn.
 */
module Rects {
  import opened Wrappers
  import opened IntMath
  import opened Vectors
  import opened Directions
  import Segments

  datatype Recti = Recti(pos: Vec2i, size: Vec2i)

  /** `new Recti(xmin, ymin, width, height)`. */
  function FromXYWH(xmin: int, ymin: int, width: int, height: int): Recti
  {
    Recti(Vec2i(xmin, ymin), Vec2i(width, height))
  }

  function Width(r: Recti): int { r.size.x }
  function Height(r: Recti): int { r.size.y }
  function XMin(r: Recti): int { r.pos.x }
  function YMin(r: Recti): int { r.pos.y }
  function XMax(r: Recti): int { r.pos.x + r.size.x }
  function YMax(r: Recti): int { r.pos.y + r.size.y }
  function MinCorner(r: Recti): Vec2i { r.pos }
  function MaxCorner(r: Recti): Vec2i { Add(r.pos, r.size) }
  function Area(r: Recti): int { r.size.x * r.size.y }

  /** Neither extent is negative (every rectangle `MinMaxRecti` builds). */
  predicate NonNeg(r: Recti)
  {
    r.size.x >= 0 && r.size.y >= 0
  }

  /** At least one cell on each axis. */
  predicate NonEmpty(r: Recti)
  {
    r.size.x >= 1 && r.size.y >= 1
  }

  // ---------------------------------------------------------------- setters

  /** The `min` setter as written: it assigns `_pos` its own value. */
  function SetMinAsWritten(r: Recti, value: Vec2i): (r': Recti)
    ensures r' == r
  {
    r.(pos := r.pos)
  }

  /** The `min` setter as evidently intended: `_pos = value`. */
  function SetMin(r: Recti, value: Vec2i): (r': Recti)
    ensures MinCorner(r') == value && r'.size == r.size
  {
    r.(pos := value)
  }

  /** Setting `min` as written is ignored, so reading it back can disagree. */
  lemma SetMinAsWrittenIgnoresValue()
    ensures MinCorner(SetMinAsWritten(FromXYWH(0, 0, 2, 2), Vec2i(1, 1))) != Vec2i(1, 1)
  {
  }

  /** The `max` setter: `_size = value - _pos`, so the min corner stays. */
  function SetMax(r: Recti, value: Vec2i): (r': Recti)
    ensures MaxCorner(r') == value && MinCorner(r') == MinCorner(r)
  {
    r.(size := Sub(value, r.pos))
  }

  /** The `xMin` setter moves the left edge and keeps the right edge. */
  function SetXMin(r: Recti, value: int): (r': Recti)
    ensures XMin(r') == value && XMax(r') == XMax(r)
    ensures YMin(r') == YMin(r) && YMax(r') == YMax(r)
  {
    var size := r.size.(x := r.size.x + r.pos.x - value);
    Recti(r.pos.(x := value), size)
  }

  /** The `yMin` setter moves the bottom edge and keeps the top edge. */
  function SetYMin(r: Recti, value: int): (r': Recti)
    ensures YMin(r') == value && YMax(r') == YMax(r)
    ensures XMin(r') == XMin(r) && XMax(r') == XMax(r)
  {
    var size := r.size.(y := r.size.y + r.pos.y - value);
    Recti(r.pos.(y := value), size)
  }

  /** The `xMax` setter moves the right edge only. */
  function SetXMax(r: Recti, value: int): (r': Recti)
    ensures XMax(r') == value && XMin(r') == XMin(r)
    ensures YMin(r') == YMin(r) && YMax(r') == YMax(r)
  {
    r.(size := r.size.(x := value - r.pos.x))
  }

  /** The `yMax` setter moves the top edge only. */
  function SetYMax(r: Recti, value: int): (r': Recti)
    ensures YMax(r') == value && YMin(r') == YMin(r)
    ensures XMin(r') == XMin(r) && XMax(r') == XMax(r)
  {
    r.(size := r.size.(y := value - r.pos.y))
  }

  // ---------------------------------------------------- equality operators

  /** `==`: equal position and equal size. */
  predicate Eq(a: Recti, b: Recti)
  {
    Vectors.Eq(a.pos, b.pos) && Vectors.Eq(a.size, b.size)
  }

  /** `!=` as written, built on the `Vec2i` `!=` that needs both components
   *  to differ. */
  predicate NeAsWritten(a: Recti, b: Recti)
  {
    Vectors.NeAsWritten(a.pos, b.pos) || Vectors.NeAsWritten(a.size, b.size)
  }

  /** `!=` as evidently intended. */
  predicate Ne(a: Recti, b: Recti)
  {
    Vectors.Ne(a.pos, b.pos) || Vectors.Ne(a.size, b.size)
  }

  /** Two rectangles one cell apart vertically are neither `==` nor `!=` as
   *  written. */
  lemma NeAsWrittenIsNotNegation()
    ensures !Eq(FromXYWH(0, 0, 1, 1), FromXYWH(0, 1, 1, 1))
    ensures !NeAsWritten(FromXYWH(0, 0, 1, 1), FromXYWH(0, 1, 1, 1))
  {
  }

  /** `==` is value equality and the corrected `!=` is its negation. */
  lemma EqNeAgree(a: Recti, b: Recti)
    ensures Eq(a, b) <==> a == b
    ensures Ne(a, b) <==> !Eq(a, b)
    ensures NeAsWritten(a, b) ==> Ne(a, b)
  {
  }

  // ------------------------------------------------------ building blocks

  /** Recti.MinMaxRecti: from corners, clamping each extent at 0. */
  function MinMaxRecti(xmin: int, ymin: int, xmax: int, ymax: int): (r: Recti)
    ensures NonNeg(r) && XMin(r) == xmin && YMin(r) == ymin
    ensures XMax(r) == Max(xmin, xmax) && YMax(r) == Max(ymin, ymax)
  {
    FromXYWH(xmin, ymin, Max(0, xmax - xmin), Max(0, ymax - ymin))
  }

  /** Recti.Contains(Vec2i): `p - position` lies in `[0, size - 1]` on both
   *  axes. */
  predicate Contains(r: Recti, p: Vec2i)
  {
    var local := Sub(p, r.pos);
    InRange(local.x, 0, r.size.x - 1) && InRange(local.y, 0, r.size.y - 1)
  }

  /** `Contains` is the half-open test on both axes. */
  lemma ContainsMeans(r: Recti, p: Vec2i)
    ensures Contains(r, p) <==> XMin(r) <= p.x < XMax(r) && YMin(r) <= p.y < YMax(r)
  {
  }

  /** A `MinMaxRecti` holds exactly the cells between its corners. */
  lemma MinMaxContains(xmin: int, ymin: int, xmax: int, ymax: int, p: Vec2i)
    ensures Contains(MinMaxRecti(xmin, ymin, xmax, ymax), p) <==>
      xmin <= p.x < xmax && ymin <= p.y < ymax
  {
  }

  /** Recti.Contains(Recti): both corners of `o` are within those of `r`. */
  predicate ContainsRect(r: Recti, o: Recti)
  {
    Le(MinCorner(r), MinCorner(o)) && Ge(MaxCorner(r), MaxCorner(o))
  }

  /** For a non-empty `o`, `r` contains `o` exactly when it contains every
   *  cell of `o`. */
  lemma ContainsRectMeans(r: Recti, o: Recti)
    requires NonEmpty(o)
    ensures ContainsRect(r, o) <==> forall p :: Contains(o, p) ==> Contains(r, p)
  {
    if forall p :: Contains(o, p) ==> Contains(r, p) {
      assert Contains(o, o.pos);
      assert Contains(o, Sub(MaxCorner(o), One));
    }
  }

  /** Recti.Overlaps: `max > r.min && min < r.max`, on both axes. */
  predicate Overlaps(r: Recti, o: Recti)
  {
    Gt(MaxCorner(r), MinCorner(o)) && Lt(MinCorner(r), MaxCorner(o))
  }

  /** Overlapping is symmetric, and non-empty rectangles overlap exactly when
   *  they share a cell. */
  lemma OverlapsMeans(r: Recti, o: Recti)
    ensures Overlaps(r, o) <==> Overlaps(o, r)
    ensures NonEmpty(r) && NonEmpty(o) ==>
      (Overlaps(r, o) <==> exists p :: Contains(r, p) && Contains(o, p))
  {
    if NonEmpty(r) && NonEmpty(o) && Overlaps(r, o) {
      var p := Vec2i(Max(XMin(r), XMin(o)), Max(YMin(r), YMin(o)));
      assert Contains(r, p) && Contains(o, p);
    }
  }

  function Move(r: Recti, offset: Vec2i): Recti
  {
    Recti(Add(r.pos, offset), r.size)
  }

  function MoveTo(r: Recti, pos: Vec2i): Recti
  {
    Recti(pos, r.size)
  }

  /** Moving by `offset` moves every cell by `offset`; `MoveTo` keeps the size. */
  lemma MoveShifts(r: Recti, offset: Vec2i, p: Vec2i)
    ensures Contains(Move(r, offset), p) <==> Contains(r, Sub(p, offset))
    ensures MoveTo(r, p) == Move(r, Sub(p, r.pos))
  {
  }

  /** Recti.Intersect: the overlap region, empty (not negative) when disjoint. */
  function Intersect(r: Recti, o: Recti): (i: Recti)
    ensures NonNeg(i)
  {
    MinMaxRecti(Max(XMin(r), XMin(o)), Max(YMin(r), YMin(o)), Min(XMax(r), XMax(o)), Min(YMax(r), YMax(o)))
  }

  /** A cell is in the intersection exactly when it is in both rectangles. */
  lemma IntersectIsIntersection(r: Recti, o: Recti, p: Vec2i)
    ensures Contains(Intersect(r, o), p) <==> Contains(r, p) && Contains(o, p)
  {
    MinMaxContains(Max(XMin(r), XMin(o)), Max(YMin(r), YMin(o)), Min(XMax(r), XMax(o)), Min(YMax(r), YMax(o)), p);
  }

  /** Recti.Union: the bounding box of both. */
  function Union(r: Recti, o: Recti): (u: Recti)
    ensures NonNeg(u)
  {
    MinMaxRecti(Min(XMin(r), XMin(o)), Min(YMin(r), YMin(o)), Max(XMax(r), XMax(o)), Max(YMax(r), YMax(o)))
  }

  /** The union contains every cell of either rectangle, and contains both
   *  when their sizes are not negative. */
  lemma UnionIsBoundingBox(r: Recti, o: Recti, p: Vec2i)
    ensures Contains(r, p) || Contains(o, p) ==> Contains(Union(r, o), p)
    ensures NonNeg(r) && NonNeg(o) ==> ContainsRect(Union(r, o), r) && ContainsRect(Union(r, o), o)
  {
  }

  /** Recti.Expand(Vec2i): grow by `th` on every side. */
  function Expand(r: Recti, th: Vec2i): Recti
  {
    MinMaxRecti(r.pos.x - th.x, r.pos.y - th.y, MaxCorner(r).x + th.x, MaxCorner(r).y + th.y)
  }

  /** Recti.Shrink(Vec2i): shrink by `th` on every side, clamping at empty. */
  function Shrink(r: Recti, th: Vec2i): Recti
  {
    MinMaxRecti(XMin(r) + th.x, YMin(r) + th.y, XMax(r) - th.x, YMax(r) - th.y)
  }

  /** Recti.Expand(Dir, int): push one side outward. */
  function ExpandSide(r: Recti, side: Dir, thickness: int): Recti
  {
    match side
    case E => MinMaxRecti(XMin(r), YMin(r), XMax(r) + thickness, YMax(r))
    case S => MinMaxRecti(XMin(r), YMin(r) - thickness, XMax(r), YMax(r))
    case N => MinMaxRecti(XMin(r), YMin(r), XMax(r), YMax(r) + thickness)
    case W => MinMaxRecti(XMin(r) - thickness, YMin(r), XMax(r), YMax(r))
  }

  /** Recti.Shrink(Dir, int): pull one side inward. */
  function ShrinkSide(r: Recti, side: Dir, thickness: int): Recti
  {
    match side
    case E => MinMaxRecti(XMin(r), YMin(r), XMax(r) - thickness, YMax(r))
    case S => MinMaxRecti(XMin(r), YMin(r) + thickness, XMax(r), YMax(r))
    case N => MinMaxRecti(XMin(r), YMin(r), XMax(r), YMax(r) - thickness)
    case W => MinMaxRecti(XMin(r) + thickness, YMin(r), XMax(r), YMax(r))
  }

  /**
   * On a rectangle with non-negative size and a non-negative thickness,
   * expanding contains the original and shrinking by the same amount undoes
   * it, on every side or on one.
   */
  lemma ShrinkUndoesExpand(r: Recti, th: Vec2i, side: Dir, t: int)
    requires NonNeg(r) && th.x >= 0 && th.y >= 0 && t >= 0
    ensures ContainsRect(Expand(r, th), r)
    ensures Shrink(Expand(r, th), th) == r
    ensures ContainsRect(ExpandSide(r, side, t), r)
    ensures ShrinkSide(ExpandSide(r, side, t), side, t) == r
  {
    match side
    case E =>
    case S =>
    case N =>
    case W =>
  }

  /** The side coordinate the indexer `this[Dir]` reads: the last row or
   *  column of cells on that side. */
  function SideCoord(r: Recti, dir: Dir): int
  {
    match dir
    case E => XMax(r) - 1
    case N => YMax(r) - 1
    case S => YMin(r)
    case W => XMin(r)
  }

  /**
   * On a non-empty rectangle `SideCoord(d)` is the extreme coordinate of its
   * cells in direction `d` (along `Axis(d)`, signed by `Sign(d)`).
   */
  lemma SideCoordIsExtreme(r: Recti, d: Dir, p: Vec2i)
    requires NonEmpty(r)
    ensures Contains(r, p) ==> Sign(d) * At(p, Axis(d)) <= Sign(d) * SideCoord(r, d)
    ensures Contains(r, With(r.pos, Axis(d), SideCoord(r, d)))
  {
  }

  /** Expanding one side of a non-negative rectangle by `t >= 0` moves that
   *  side `t` cells outward and leaves the other three where they were. */
  lemma ExpandSideMovesOneSide(r: Recti, side: Dir, t: int, d: Dir)
    requires NonEmpty(r) && t >= 0
    ensures SideCoord(ExpandSide(r, side, t), d) ==
      if d == side then SideCoord(r, d) + Sign(d) * t else SideCoord(r, d)
  {
  }

  // --------------------------------------------------------------- corners

  function TopLeft(r: Recti): Vec2i { Vec2i(XMin(r), YMax(r) - 1) }
  function TopRight(r: Recti): Vec2i { Vec2i(XMax(r) - 1, YMax(r) - 1) }
  function BottomLeft(r: Recti): Vec2i { Vec2i(XMin(r), YMin(r)) }
  function BottomRight(r: Recti): Vec2i { Vec2i(XMax(r) - 1, YMin(r)) }

  /** `centeri`: `position + size / 2` with truncating division. */
  function Centeri(r: Recti): (c: Vec2i)
    ensures NonNeg(r) ==> Contains(r, c) || !NonEmpty(r)
  {
    CenterInside(r.pos.x, r.size.x);
    CenterInside(r.pos.y, r.size.y);
    Add(r.pos, Vec2i(Quot(r.size.x, 2), Quot(r.size.y, 2)))
  }

  lemma CenterInside(p: int, s: int)
    ensures s >= 1 ==> p <= p + Quot(s, 2) < p + s
  {
    if s >= 1 {
      assert Quot(s, 2) == s / 2;
    }
  }

  /** Recti.GetCornerAfter: the corner reached after walking side `side`
   *  counter-clockwise. */
  function GetCornerAfter(r: Recti, side: Dir): Vec2i
  {
    match side
    case E => TopRight(r)
    case N => TopLeft(r)
    case W => BottomLeft(r)
    case S => BottomRight(r)
  }

  /** A cell lies on side `d`'s row or column. */
  predicate OnSide(r: Recti, p: Vec2i, d: Dir)
  {
    At(p, Axis(d)) == SideCoord(r, d)
  }

  /** The corner after side `d` is the cell shared by side `d` and the next
   *  side counter-clockwise, and it belongs to a non-empty rectangle. */
  lemma CornerAfterJoinsSides(r: Recti, d: Dir)
    ensures OnSide(r, GetCornerAfter(r, d), d)
    ensures OnSide(r, GetCornerAfter(r, d), NextCCW(d))
    ensures NonEmpty(r) ==> Contains(r, GetCornerAfter(r, d))
  {
  }

  /**
   * Recti.GetSideOn: the cells of one side as a `RectiSide`; `skipTail`
   * drops the last cell counter-clockwise.  The segment constructor throws
   * when the side has fewer cells than it drops.
   */
  function GetSideOn(r: Recti, dir: Dir, skipTail: bool): (s: Result<Segments.RectiSide>)
    ensures s.Success? ==> s.value.dir == dir && s.value.otherAxis == SideCoord(r, dir)
    ensures s.Failure? <==>
      (if IsVertical(dir) then Width(r) else Height(r)) < (if skipTail then 1 else 0)
  {
    match dir
    case E => Segments.MakeSide(dir, YMin(r), if skipTail then YMax(r) - 1 else YMax(r), XMax(r) - 1)
    case N => Segments.MakeSide(dir, if skipTail then XMin(r) + 1 else XMin(r), XMax(r), YMax(r) - 1)
    case S => Segments.MakeSide(dir, XMin(r), if skipTail then XMax(r) - 1 else XMax(r), YMin(r))
    case W => Segments.MakeSide(dir, if skipTail then YMin(r) + 1 else YMin(r), YMax(r), XMin(r))
  }

  /**
   * On a non-empty rectangle, a side's cells are the contained cells on that
   * side's row or column; with `skipTail` the corner after the side is left
   * out and nothing else is.
   */
  lemma GetSideOnCells(r: Recti, dir: Dir, skipTail: bool, p: Vec2i)
    requires NonEmpty(r)
    ensures GetSideOn(r, dir, skipTail).Success?
    ensures p in Segments.SideCellList(GetSideOn(r, dir, skipTail).value) <==>
      Contains(r, p) && OnSide(r, p, dir) && (skipTail ==> p != GetCornerAfter(r, dir))
  {
    Segments.SideCellsOnLine(GetSideOn(r, dir, skipTail).value, p);
  }

  // ------------------------------------------------------ ExpandToInclude

  /** One axis of ExpandToInclude: move the near edge out to `t`, or the far
   *  edge to `t + 1`, when `t` is outside `[lo, hi)`. */
  function IncludeAxis(lo: int, hi: int, t: int): (int, int)
  {
    if t < lo then (t, hi) else if t >= hi then (lo, t + 1) else (lo, hi)
  }

  /** The rectangle ExpandToInclude leaves behind. */
  function ExpandedToInclude(r: Recti, v: Vec2i): Recti
  {
    if Width(r) == 0 || Height(r) == 0 then Recti(v, One)
    else
      var (x0, x1) := IncludeAxis(XMin(r), XMax(r), v.x);
      var (y0, y1) := IncludeAxis(YMin(r), YMax(r), v.y);
      Recti(Vec2i(x0, y0), Vec2i(x1 - x0, y1 - y0))
  }

  /**
   * Recti.ExpandToInclude: an empty rectangle becomes the single cell `v`;
   * otherwise each edge that `v` lies beyond is moved through the property
   * setters so that `v` is inside.
   */
  method ExpandToInclude(r: Recti, v: Vec2i) returns (r': Recti)
    ensures r' == ExpandedToInclude(r, v)
  {
    r' := r;
    if Width(r') == 0 || Height(r') == 0 {
      r' := r'.(pos := v);
      r' := r'.(size := One);
    } else {
      if v.x < XMin(r') {
        r' := SetXMin(r', v.x);
      } else if v.x >= XMax(r') {
        r' := SetXMax(r', v.x + 1);
      }
      if v.y < YMin(r') {
        r' := SetYMin(r', v.y);
      } else if v.y >= YMax(r') {
        r' := SetYMax(r', v.y + 1);
      }
    }
  }

  /**
   * On a rectangle with non-negative size the result contains `v` and every
   * old cell, it is the bounding box of the two, and including `v` again
   * changes nothing.
   */
  lemma ExpandToIncludeFacts(r: Recti, v: Vec2i)
    requires NonNeg(r)
    ensures Contains(ExpandedToInclude(r, v), v)
    ensures forall p :: Contains(r, p) ==> Contains(ExpandedToInclude(r, v), p)
    ensures NonEmpty(r) ==> (ExpandedToInclude(r, v) ==
      MinMaxRecti(Min(XMin(r), v.x), Min(YMin(r), v.y), Max(XMax(r), v.x + 1), Max(YMax(r), v.y + 1)))
    ensures ExpandedToInclude(ExpandedToInclude(r, v), v) == ExpandedToInclude(r, v)
  {
  }

  // ----------------------------------------------------------------- Divide

  /** Recti.Divide: cut at `line` into two pieces when the line falls
   *  strictly inside, otherwise return the rectangle itself. */
  function Divide(r: Recti, verticalCut: bool, line: int): (pieces: seq<Recti>)
    ensures |pieces| == 1 || |pieces| == 2
  {
    if verticalCut then
      if InRange(line, XMin(r) + 1, XMax(r) - 1) then
        [MinMaxRecti(XMin(r), YMin(r), line, YMax(r)), MinMaxRecti(line, YMin(r), XMax(r), YMax(r))]
      else [r]
    else
      if InRange(line, YMin(r) + 1, YMax(r) - 1) then
        [MinMaxRecti(XMin(r), YMin(r), XMax(r), line), MinMaxRecti(XMin(r), line, XMax(r), YMax(r))]
      else [r]
  }

  /**
   * `Divide` yields two non-empty pieces exactly when the line is strictly
   * inside; on a rectangle with non-negative size they tile it: every cell
   * is in exactly one piece.
   */
  lemma DivideTiles(r: Recti, verticalCut: bool, line: int, p: Vec2i)
    requires NonNeg(r)
    ensures |Divide(r, verticalCut, line)| == 2 <==>
      if verticalCut then XMin(r) < line < XMax(r) else YMin(r) < line < YMax(r)
    ensures |Divide(r, verticalCut, line)| == 1 ==> Divide(r, verticalCut, line) == [r]
    ensures |Divide(r, verticalCut, line)| == 2 ==>
      var d := Divide(r, verticalCut, line);
      (Contains(r, p) <==> Contains(d[0], p) || Contains(d[1], p)) &&
      !(Contains(d[0], p) && Contains(d[1], p)) &&
      NonEmpty(d[0]) == NonEmpty(d[1]) == NonEmpty(r)
  {
  }

  // --------------------------------------------------------------- MultiCut

  predicate Sorted(s: seq<int>)
  {
    forall j, k :: 0 <= j < k < |s| ==> s[j] <= s[k]
  }

  /** Insert `x` into a sorted sequence before the first larger element. */
  function Insert(x: int, s: seq<int>): (r: seq<int>)
    ensures multiset(r) == multiset(s) + multiset{x}
    ensures |r| == |s| + 1
    ensures r[0] == if s == [] || x <= s[0] then x else s[0]
  {
    if s == [] || x <= s[0] then [x] + s
    else
      assert s == [s[0]] + s[1..];
      [s[0]] + Insert(x, s[1..])
  }

  lemma {:induction false} InsertSorted(x: int, s: seq<int>)
    requires Sorted(s)
    ensures Sorted(Insert(x, s))
  {
    if s != [] && x > s[0] {
      InsertSorted(x, s[1..]);
      var t := Insert(x, s[1..]);
      assert s[0] <= t[0];
      assert Insert(x, s) == [s[0]] + t;
    }
  }

  /** The sorted arrangement of a sequence: an insertion sort. */
  function SortSeq(s: seq<int>): (r: seq<int>)
    ensures multiset(r) == multiset(s)
    ensures |r| == |s|
  {
    if s == [] then []
    else
      assert s == [s[0]] + s[1..];
      Insert(s[0], SortSeq(s[1..]))
  }

  lemma {:induction false} SortSeqSorted(s: seq<int>)
    ensures Sorted(SortSeq(s))
  {
    if s != [] {
      SortSeqSorted(s[1..]);
      InsertSorted(s[0], SortSeq(s[1..]));
    }
  }

  /** `Array.Sort` on an `int[]`: the array ends up holding its own elements
   *  in ascending order. */
  method SortInPlace(a: array<int>)
    modifies a
    ensures Sorted(a[..])
    ensures multiset(a[..]) == multiset(old(a[..]))
  {
    var sorted := SortSeq(a[..]);
    SortSeqSorted(a[..]);
    forall k | 0 <= k < a.Length {
      a[k] := sorted[k];
    }
    assert a[..] == sorted;
  }

  /** `Convert.ToInt32(!verticalCut)`: the axis the cut lines are measured on. */
  function CutAxis(verticalCut: bool): int
  {
    if verticalCut then 0 else 1
  }

  /** The piece boundaries: the near edge, the lines, the far edge. */
  function Bounds(r: Recti, axis: int, lines: seq<int>): (b: seq<int>)
    ensures |b| == |lines| + 2
  {
    [At(MinCorner(r), axis)] + lines + [At(MaxCorner(r), axis)]
  }

  /** Piece `k` spans `[b[k], b[k + 1])` on the cut axis and all of `r` on
   *  the other. */
  function Piece(r: Recti, axis: int, b: seq<int>, k: int): Recti
    requires 0 <= k < |b| - 1
  {
    Recti(With(r.pos, axis, b[k]), With(r.size, axis, b[k + 1] - b[k]))
  }

  /** The pieces MultiCut returns for sorted `lines`. */
  function Pieces(r: Recti, axis: int, lines: seq<int>): (ps: seq<Recti>)
    ensures |ps| == |lines| + 1
  {
    var b := Bounds(r, axis, lines);
    seq(|lines| + 1, k requires 0 <= k < |lines| + 1 => Piece(r, axis, b, k))
  }

  /**
   * Recti.MultiCut: sort `lines` in place, then cut the rectangle at every
   * line in turn.  An empty `lines` throws when `lines[0]` is read.
   */
  method MultiCut(r: Recti, verticalCut: bool, lines: array<int>) returns (res: Result<seq<Recti>>)
    modifies lines
    ensures Sorted(lines[..]) && multiset(lines[..]) == multiset(old(lines[..]))
    ensures res.Failure? <==> lines.Length == 0
    ensures res.Failure? ==> res.error == IndexOutOfRangeException
    ensures res.Success? ==> res.value == Pieces(r, CutAxis(verticalCut), lines[..])
  {
    SortInPlace(lines);
    if lines.Length == 0 {
      return Failure(IndexOutOfRangeException);
    }
    var regions := CutAt(r, CutAxis(verticalCut), lines[..]);
    return Success(regions);
  }

  /** The cutting loop of MultiCut, over the sorted lines. */
  method CutAt(r: Recti, cutAxis: int, sorted: seq<int>) returns (regions: seq<Recti>)
    requires |sorted| > 0
    ensures regions == Pieces(r, cutAxis, sorted)
  {
    var cutMax := At(MaxCorner(r), cutAxis);
    var cutMin := At(MinCorner(r), cutAxis);
    var currPos := r.pos;
    var currSize := r.size;
    currSize := With(currSize, cutAxis, sorted[0] - cutMin);
    ghost var b := Bounds(r, cutAxis, sorted);
    WithAt(r.pos, cutAxis);
    PiecesPrefix(r, cutAxis, sorted, 0);
    regions := [Recti(currPos, currSize)];
    var i := 0;
    while i < |sorted|
      invariant 0 <= i <= |sorted|
      invariant currPos == With(r.pos, cutAxis, b[i])
      invariant currSize == With(r.size, cutAxis, b[i + 1] - b[i])
      invariant regions == Pieces(r, cutAxis, sorted)[..i + 1]
    {
      var nextLine := if i < |sorted| - 1 then sorted[i + 1] else cutMax;
      assert nextLine == b[i + 2];
      AdvancePiece(r, cutAxis, b, i);
      currPos := With(currPos, cutAxis, At(currPos, cutAxis) + At(currSize, cutAxis));
      currSize := With(currSize, cutAxis, nextLine - sorted[i]);
      PiecesPrefix(r, cutAxis, sorted, i + 1);
      regions := regions + [Recti(currPos, currSize)];
      i := i + 1;
    }
    PiecesPrefix(r, cutAxis, sorted, |sorted| + 1);
  }

  lemma WithAt(v: Vec2i, i: int)
    ensures With(v, i, At(v, i)) == v
  {
  }

  /** Moving past piece `i` gives the position and size of piece `i + 1`. */
  lemma AdvancePiece(r: Recti, axis: int, b: seq<int>, i: int)
    requires 0 <= i < |b| - 2
    ensures var pos, size := With(r.pos, axis, b[i]), With(r.size, axis, b[i + 1] - b[i]);
      With(pos, axis, At(pos, axis) + At(size, axis)) == With(r.pos, axis, b[i + 1]) &&
      With(size, axis, b[i + 2] - b[i + 1]) == With(r.size, axis, b[i + 2] - b[i + 1])
  {
  }

  lemma PiecesPrefix(r: Recti, axis: int, lines: seq<int>, n: int)
    requires 0 <= n <= |lines| + 1
    ensures n == |lines| + 1 ==> Pieces(r, axis, lines)[..n] == Pieces(r, axis, lines)
    ensures n == 0 ==> (Pieces(r, axis, lines)[..1] ==
      [Recti(r.pos, With(r.size, axis, Bounds(r, axis, lines)[1] - At(r.pos, axis)))])
    ensures 0 < n <= |lines| ==> (Pieces(r, axis, lines)[..n + 1] ==
      Pieces(r, axis, lines)[..n] + [Piece(r, axis, Bounds(r, axis, lines), n)])
  {
    WithAt(r.pos, axis);
  }

  /** Sum of the pieces' extents along the cut axis. */
  function SumExtents(ps: seq<Recti>, axis: int): int
  {
    if ps == [] then 0 else SumExtents(ps[..|ps| - 1], axis) + At(ps[|ps| - 1].size, axis)
  }

  /**
   * The pieces are contiguous (each starts where the previous one ends),
   * the first starts at the near edge, their extents sum to the rectangle's
   * extent on the cut axis, and on the other axis each piece is the
   * rectangle's own span.
   */
  lemma {:induction false} PiecesTile(r: Recti, verticalCut: bool, lines: seq<int>)
    ensures var axis, ps := CutAxis(verticalCut), Pieces(r, CutAxis(verticalCut), lines);
      At(ps[0].pos, axis) == At(r.pos, axis) &&
      (forall k :: 0 < k < |ps| ==>
        At(ps[k].pos, axis) == At(ps[k - 1].pos, axis) + At(ps[k - 1].size, axis)) &&
      (forall k :: 0 <= k < |ps| ==>
        At(ps[k].pos, 1 - axis) == At(r.pos, 1 - axis) && At(ps[k].size, 1 - axis) == At(r.size, 1 - axis)) &&
      SumExtents(ps, axis) == At(r.size, axis)
  {
    var axis := CutAxis(verticalCut);
    var b := Bounds(r, axis, lines);
    var ps := Pieces(r, axis, lines);
    SumTelescopes(r, axis, lines, |ps|);
    assert ps[..|ps|] == ps;
  }

  lemma {:induction false} SumTelescopes(r: Recti, axis: int, lines: seq<int>, n: nat)
    requires axis == 0 || axis == 1
    requires n <= |lines| + 1
    ensures SumExtents(Pieces(r, axis, lines)[..n], axis) == Bounds(r, axis, lines)[n] - Bounds(r, axis, lines)[0]
  {
    var ps := Pieces(r, axis, lines);
    if n > 0 {
      SumTelescopes(r, axis, lines, n - 1);
      assert ps[..n][..n - 1] == ps[..n - 1];
    }
  }

  /** With sorted lines inside the rectangle, no piece has a negative extent. */
  lemma PiecesNonNegative(r: Recti, verticalCut: bool, lines: seq<int>)
    requires NonNeg(r) && Sorted(lines)
    requires forall k :: 0 <= k < |lines| ==>
      At(MinCorner(r), CutAxis(verticalCut)) <= lines[k] <= At(MaxCorner(r), CutAxis(verticalCut))
    ensures forall k :: 0 <= k < |lines| + 1 ==> NonNeg(Pieces(r, CutAxis(verticalCut), lines)[k])
  {
  }

  // ------------------------------------------------------------ OverlapsEdge

  /**
   * Recti.OverlapsEdge(Segment1i, int, bool): the line at `otherAxis` is one
   * of this rectangle's two edge columns (`isVertical`) or rows, and its span
   * overlaps the rectangle's span.  The span segment is only built, and so
   * can only throw, when the first test passes.
   */
  function OverlapsEdgeLine(r: Recti, line: Segments.Segment1i, otherAxis: int, isVertical: bool): (res: Result<bool>)
    ensures NonNeg(r) ==> res.Success?
    ensures res == Success(true) && isVertical ==>
      (otherAxis == XMin(r) || otherAxis == XMax(r) - 1) &&
      Segments.Overlaps(line, Segments.Segment1i(YMin(r), YMax(r)))
    ensures res == Success(true) && !isVertical ==>
      (otherAxis == YMin(r) || otherAxis == YMax(r) - 1) &&
      Segments.Overlaps(line, Segments.Segment1i(XMin(r), XMax(r)))
  {
    if isVertical then
      if !(otherAxis == XMin(r) || otherAxis == XMax(r) - 1) then Success(false)
      else
        var span :- Segments.Make(YMin(r), YMax(r));
        Success(Segments.Overlaps(line, span))
    else
      if !(otherAxis == YMin(r) || otherAxis == YMax(r) - 1) then Success(false)
      else
        var span :- Segments.Make(XMin(r), XMax(r));
        Success(Segments.Overlaps(line, span))
  }

  /** `a || b` where each side may throw: evaluation stops at the first
   *  exception or the first `true`. */
  function OrElse(a: Result<bool>, b: Result<bool>): Result<bool>
  {
    if a.Failure? then a else if a.value then a else b
  }

  /**
   * Recti.OverlapsEdge(Recti): one of `other`'s four edge lines lies on one
   * of this rectangle's edge lines with overlapping spans.  Building
   * `other`'s spans throws when its size is negative.
   */
  function OverlapsEdge(r: Recti, other: Recti): (res: Result<bool>)
    ensures NonNeg(r) && NonNeg(other) ==> res.Success?
  {
    var h :- Segments.Make(XMin(other), XMax(other));
    var v :- Segments.Make(YMin(other), YMax(other));
    OrElse(OverlapsEdgeLine(r, h, YMin(other), false),
      OrElse(OverlapsEdgeLine(r, v, XMin(other), true),
        OrElse(OverlapsEdgeLine(r, h, YMax(other) - 1, false),
          OverlapsEdgeLine(r, v, XMax(other) - 1, true))))
  }

  /** Edge rows and columns, and the condition OverlapsEdge tests, stated
   *  without the nesting. */
  predicate SharesEdge(r: Recti, o: Recti)
  {
    ((YMin(o) == YMin(r) || YMin(o) == YMax(r) - 1 || YMax(o) - 1 == YMin(r) || YMax(o) - 1 == YMax(r) - 1) &&
      XMin(r) < XMax(o) && XMax(r) > XMin(o)) ||
    ((XMin(o) == XMin(r) || XMin(o) == XMax(r) - 1 || XMax(o) - 1 == XMin(r) || XMax(o) - 1 == XMax(r) - 1) &&
      YMin(r) < YMax(o) && YMax(r) > YMin(o))
  }

  /**
   * On rectangles with non-negative size, OverlapsEdge holds exactly when an
   * edge row (or column) of one is an edge row (or column) of the other and
   * their spans overlap; so it is symmetric, and a non-empty rectangle
   * overlaps its own edges.
   */
  lemma OverlapsEdgeSymmetric(r: Recti, o: Recti)
    requires NonNeg(r) && NonNeg(o)
    ensures OverlapsEdge(r, o) == Success(SharesEdge(r, o))
    ensures OverlapsEdge(r, o) == OverlapsEdge(o, r)
    ensures NonEmpty(r) ==> OverlapsEdge(r, r) == Success(true)
  {
    assert SharesEdge(r, o) == SharesEdge(o, r);
  }

  // ------------------------------------------------------------ enumeration

  /** The cells of column `x`, bottom to top. */
  function Column(x: int, y0: int, y1: int): (c: seq<Vec2i>)
    ensures |c| == Max(0, y1 - y0)
  {
    seq(Max(0, y1 - y0), k => Vec2i(x, y0 + k))
  }

  /** The cells of columns `x0 .. x1 - 1`, column by column. */
  function Columns(x0: int, x1: int, y0: int, y1: int): seq<Vec2i>
    decreases x1 - x0
  {
    if x1 <= x0 then [] else Columns(x0, x1 - 1, y0, y1) + Column(x1 - 1, y0, y1)
  }

  /** The columns hold exactly the cells of the rectangle they span, each
   *  once, and `width * height` of them. */
  lemma {:induction false} ColumnsFacts(x0: int, x1: int, y0: int, y1: int)
    ensures forall p :: p in Columns(x0, x1, y0, y1) <==> x0 <= p.x < x1 && y0 <= p.y < y1
    ensures forall j, k :: 0 <= j < k < |Columns(x0, x1, y0, y1)| ==>
      Columns(x0, x1, y0, y1)[j] != Columns(x0, x1, y0, y1)[k]
    ensures |Columns(x0, x1, y0, y1)| == Max(0, x1 - x0) * Max(0, y1 - y0)
    decreases x1 - x0
  {
    if x1 > x0 {
      ColumnsFacts(x0, x1 - 1, y0, y1);
      var prev, col := Columns(x0, x1 - 1, y0, y1), Column(x1 - 1, y0, y1);
      forall p: Vec2i | y0 <= p.y < y1 && p.x == x1 - 1
        ensures p in col
      {
        assert col[p.y - y0] == p;
      }
      forall j, k | 0 <= j < k < |prev + col|
        ensures (prev + col)[j] != (prev + col)[k]
      {
        if j < |prev| <= k {
          assert (prev + col)[j] in prev;
        }
      }
      assert Max(0, x1 - x0) * Max(0, y1 - y0) == Max(0, x1 - 1 - x0) * Max(0, y1 - y0) + Max(0, y1 - y0);
    }
  }

  /**
   * Recti.GetEnumerator: every cell, x in the outer loop and y in the inner
   * one; on a rectangle with non-negative size they are exactly its cells,
   * each once, `area` of them.
   */
  method Cells(r: Recti) returns (cells: seq<Vec2i>)
    ensures cells == Columns(XMin(r), XMax(r), YMin(r), YMax(r))
    ensures forall p :: p in cells <==> Contains(r, p)
    ensures NonNeg(r) ==> |cells| == Area(r)
  {
    var x0, x1, y0, y1 := XMin(r), XMax(r), YMin(r), YMax(r);
    cells := [];
    var x := x0;
    while x < x1
      invariant x0 <= x && (x <= x1 || x == x0)
      invariant cells == Columns(x0, x, y0, y1)
    {
      ghost var before := cells;
      var y := y0;
      while y < y1
        invariant y0 <= y && (y <= y1 || y == y0)
        invariant cells == before + Column(x, y0, y)
      {
        ColumnStep(x, y0, y);
        cells := cells + [Vec2i(x, y)];
        y := y + 1;
      }
      assert Column(x, y0, y) == Column(x, y0, y1);
      x := x + 1;
    }
    ColumnsOfRect(r);
  }

  /** The columns of a rectangle are its cells, `Area` of them when the size
   *  is not negative. */
  lemma ColumnsOfRect(r: Recti)
    ensures forall p :: p in Columns(XMin(r), XMax(r), YMin(r), YMax(r)) <==> Contains(r, p)
    ensures NonNeg(r) ==> |Columns(XMin(r), XMax(r), YMin(r), YMax(r))| == Area(r)
  {
    var x0, x1, y0, y1 := XMin(r), XMax(r), YMin(r), YMax(r);
    ColumnsFacts(x0, x1, y0, y1);
    forall p
      ensures p in Columns(x0, x1, y0, y1) <==> Contains(r, p)
    {
      ContainsMeans(r, p);
    }
    if NonNeg(r) {
      assert Max(0, x1 - x0) == r.size.x && Max(0, y1 - y0) == r.size.y;
    }
  }

  lemma ColumnStep(x: int, y0: int, y: int)
    requires y0 <= y
    ensures Column(x, y0, y + 1) == Column(x, y0, y) + [Vec2i(x, y)]
  {
  }
}
