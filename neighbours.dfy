/**
 * Stepping a `Vec2i` in a direction, the ordered Moore and von Neumann
 * neighbourhoods, and the ring of cells at a given Chebyshev distance.
 */
module Neighbours {
  import opened Wrappers
  import opened IntMath
  import opened Vectors
  import opened Directions

  /** Vec2i.Go(Dir, dist): `this + dir.ToVec2i() * dist`. */
  function Go(v: Vec2i, dir: Dir, dist: int): Vec2i
  {
    Add(v, MulScalar(ToVec2i(dir), dist))
  }

  /** Vec2i.Go(Dir8, dist). */
  function Go8(v: Vec2i, dir: Dir8, dist: int): Vec2i
  {
    Add(v, MulScalar(ToVec2i8(dir), dist))
  }

  /**
   * Vec2i.MooreNeighbours: the eight surrounding cells, counter-clockwise
   * from east, produced by walking one cell around the square.
   */
  function MooreNeighbours(v: Vec2i): (r: seq<Vec2i>)
    ensures |r| == 8
    ensures forall k: Dir8 :: r[k] == Go8(v, k, 1)
  {
    var e := Vec2i(v.x + 1, v.y);
    var ne := e.(y := e.y + 1);
    var n := ne.(x := ne.x - 1);
    var nw := n.(x := n.x - 1);
    var w := nw.(y := nw.y - 1);
    var sw := w.(y := w.y - 1);
    var s := sw.(x := sw.x + 1);
    var se := s.(x := s.x + 1);
    [e, ne, n, nw, w, sw, s, se]
  }

  /** Vec2i.VonNeumannNeighbours: east, north, west, south. */
  function VonNeumannNeighbours(v: Vec2i): (r: seq<Vec2i>)
    ensures r == [Go(v, E, 1), Go(v, N, 1), Go(v, W, 1), Go(v, S, 1)]
  {
    [Vec2i(v.x + 1, v.y), Vec2i(v.x, v.y + 1), Vec2i(v.x - 1, v.y), Vec2i(v.x, v.y - 1)]
  }

  /** Chebyshev distance: the number of king moves between two cells. */
  function Chebyshev(a: Vec2i, b: Vec2i): nat
  {
    var dx := Abs(a.x - b.x);
    var dy := Abs(a.y - b.y);
    if dx < dy then dy else dx
  }

  /** The von Neumann neighbours are the even-numbered Moore neighbours, and
   *  every Moore neighbour is at Chebyshev distance 1. */
  lemma NeighbourhoodsAgree(v: Vec2i)
    ensures forall k :: 0 <= k < 4 ==> VonNeumannNeighbours(v)[k] == MooreNeighbours(v)[2 * k]
    ensures forall k :: 0 <= k < 8 ==> Chebyshev(MooreNeighbours(v)[k], v) == 1
  {
  }

  /** The sides in `Dir` value order, as `EnumUtil.GetValues<Dir>()` lists them. */
  const Sides: seq<Dir> := [E, N, S, W]

  /**
   * The `2 * distance` cells one side of the ring contributes: start at the
   * corner one eighth-turn clockwise of the side and grow counter-clockwise.
   */
  function SideCells(c: Vec2i, side: Dir, distance: nat): (r: seq<Vec2i>)
    ensures |r| == 2 * distance
  {
    var start := Go8(c, NextCW8(ToDir8(side)), distance);
    seq(2 * distance, k => Go(start, NextCCW(side), k))
  }

  /** The cells of the first `t` sides, in order. */
  function SidesUpTo(c: Vec2i, distance: nat, t: nat): (r: seq<Vec2i>)
    requires t <= 4
    ensures |r| == 2 * distance * t
  {
    if t == 0 then [] else SidesUpTo(c, distance, t - 1) + SideCells(c, Sides[t - 1], distance)
  }

  /** The order MooreRing yields the ring of radius `distance > 0` in. */
  function Ring(c: Vec2i, distance: nat): seq<Vec2i>
  {
    SidesUpTo(c, distance, 4)
  }

  /**
   * Vec2i.MooreRing: the cells at Chebyshev distance `distance`, side by side
   * (E, N, S, W), each side walked counter-clockwise; the cell itself for
   * distance 0; a negative distance throws.
   */
  method MooreRing(v: Vec2i, distance: int) returns (r: Result<seq<Vec2i>>)
    ensures distance < 0 <==> r.Failure?
    ensures r.Failure? ==> r.error == ArgumentOutOfRangeException
    ensures distance == 0 ==> r == Success([v])
    ensures distance > 0 ==> r == Success(Ring(v, distance))
    ensures r.Success? ==> forall p :: p in r.value <==> Chebyshev(p, v) == distance
    ensures r.Success? ==> |r.value| == if distance == 0 then 1 else 8 * distance
  {
    if distance < 0 {
      return Failure(ArgumentOutOfRangeException);
    }
    if distance == 0 {
      return Success([v]);
    }
    var cells := [];
    var t := 0;
    while t < |Sides|
      invariant 0 <= t <= 4
      invariant cells == SidesUpTo(v, distance, t)
    {
      var side := Sides[t];
      var curr := Go8(v, NextCW8(ToDir8(side)), distance);
      var growDir := NextCCW(side);
      ghost var side0 := cells;
      var s := distance * 2;
      while s > 0
        invariant 0 <= s <= 2 * distance
        invariant curr == SideCell(v, side, distance, 2 * distance - s)
        invariant cells == side0 + SideCells(v, side, distance)[..2 * distance - s]
      {
        ghost var k := 2 * distance - s;
        assert SideCells(v, side, distance)[..k + 1] == SideCells(v, side, distance)[..k] + [curr];
        cells := cells + [curr];
        GoStep(v, side, distance, k);
        curr := Go(curr, growDir, 1);
        s := s - 1;
      }
      assert SideCells(v, side, distance)[..2 * distance] == SideCells(v, side, distance);
      t := t + 1;
    }
    RingIsRing(v, distance);
    return Success(cells);
  }

  /** Cell `k` of a side, written as a step count from the side's corner. */
  function SideCell(c: Vec2i, side: Dir, distance: nat, k: int): Vec2i
  {
    Go(Go8(c, NextCW8(ToDir8(side)), distance), NextCCW(side), k)
  }

  lemma GoStep(c: Vec2i, side: Dir, distance: nat, k: int)
    ensures Go(SideCell(c, side, distance, k), NextCCW(side), 1) == SideCell(c, side, distance, k + 1)
    ensures 0 <= k < 2 * distance ==> SideCells(c, side, distance)[k] == SideCell(c, side, distance, k)
  {
    var u := ToVec2i(NextCCW(side));
    assert u.x * (k + 1) == u.x * k + u.x;
    assert u.y * (k + 1) == u.y * k + u.y;
  }

  /** The cells of each side, in coordinates relative to the centre. */
  lemma SideCellsAt(c: Vec2i, d: nat, k: int)
    requires 0 <= k < 2 * d
    ensures SideCells(c, E, d)[k] == Vec2i(c.x + d, c.y - d + k)
    ensures SideCells(c, N, d)[k] == Vec2i(c.x + d - k, c.y + d)
    ensures SideCells(c, S, d)[k] == Vec2i(c.x - d + k, c.y - d)
    ensures SideCells(c, W, d)[k] == Vec2i(c.x - d, c.y + d - k)
  {
    assert NextCW8(ToDir8(E)) == SE8 && NextCCW(E) == N;
    assert NextCW8(ToDir8(N)) == NE8 && NextCCW(N) == W;
    assert NextCW8(ToDir8(S)) == SW8 && NextCCW(S) == E;
    assert NextCW8(ToDir8(W)) == NW8 && NextCCW(W) == S;
  }

  lemma RingSplit(c: Vec2i, d: nat)
    ensures Ring(c, d) ==
      SideCells(c, E, d) + SideCells(c, N, d) + SideCells(c, S, d) + SideCells(c, W, d)
  {
    assert SidesUpTo(c, d, 1) == SideCells(c, E, d);
    assert SidesUpTo(c, d, 2) == SideCells(c, E, d) + SideCells(c, N, d);
    assert SidesUpTo(c, d, 3) == SideCells(c, E, d) + SideCells(c, N, d) + SideCells(c, S, d);
  }

  /** Where cell `j` of the ring sits relative to the centre. */
  lemma RingAt(c: Vec2i, d: nat, j: int)
    requires 0 <= j < 8 * d
    ensures var p := Ring(c, d)[j];
      if j < 2 * d then p == Vec2i(c.x + d, c.y - d + j)
      else if j < 4 * d then p == Vec2i(c.x + d - (j - 2 * d), c.y + d)
      else if j < 6 * d then p == Vec2i(c.x - d + (j - 4 * d), c.y - d)
      else p == Vec2i(c.x - d, c.y + d - (j - 6 * d))
  {
    RingSplit(c, d);
    var e, n, s, w := SideCells(c, E, d), SideCells(c, N, d), SideCells(c, S, d), SideCells(c, W, d);
    if j < 2 * d {
      SideCellsAt(c, d, j);
    } else if j < 4 * d {
      SideCellsAt(c, d, j - 2 * d);
    } else if j < 6 * d {
      SideCellsAt(c, d, j - 4 * d);
    } else {
      SideCellsAt(c, d, j - 6 * d);
    }
  }

  /** Every cell of the ring is at the given distance, and every cell at that
   *  distance is on the ring. */
  lemma RingIsRing(c: Vec2i, d: nat)
    requires d > 0
    ensures forall p :: p in Ring(c, d) <==> Chebyshev(p, c) == d
  {
    var r := Ring(c, d);
    forall j | 0 <= j < |r|
      ensures Chebyshev(r[j], c) == d
    {
      RingAt(c, d, j);
    }
    forall p | Chebyshev(p, c) == d
      ensures p in r
    {
      var dx, dy := p.x - c.x, p.y - c.y;
      var j;
      if dx == d && dy < d {
        j := dy + d;
      } else if dy == d && dx > -(d as int) {
        j := 2 * d + d - dx;
      } else if dy == -(d as int) && dx < d {
        j := 4 * d + dx + d;
      } else {
        j := 6 * d + d - dy;
      }
      RingAt(c, d, j);
      assert r[j] == p;
    }
  }

  /** No cell of the ring is produced twice. */
  lemma RingDistinct(c: Vec2i, d: nat)
    requires d > 0
    ensures forall j, k :: 0 <= j < k < |Ring(c, d)| ==> Ring(c, d)[j] != Ring(c, d)[k]
  {
    var r := Ring(c, d);
    forall j, k | 0 <= j < k < |r|
      ensures r[j] != r[k]
    {
      RingAt(c, d, j);
      RingAt(c, d, k);
    }
  }
}
