/**
 * The four directions `Dir`, the eight directions `Dir8` and the direction
 * bit set `DirFlags`, with their lookup tables, turns and conversions.
 *
 * The C# enums are integers: `Dir { E, N, S, W }` is 0..3, `Dir8` counts the
 * eight directions counter-clockwise from east as 0..7, and the
 * `[Flags] DirFlags` is a 32-bit integer with E = 1, N = 2, W = 4, S = 8, so
 * that the bits run counter-clockwise.
 */
module Directions {
  import opened Wrappers
  import opened Vectors
  import Rotation

  newtype Dir = n: int | 0 <= n < 4
  const E: Dir := 0
  const N: Dir := 1
  const S: Dir := 2
  const W: Dir := 3

  newtype Dir8 = n: int | 0 <= n < 8
  const E8: Dir8 := 0
  const NE8: Dir8 := 1
  const N8: Dir8 := 2
  const NW8: Dir8 := 3
  const W8: Dir8 := 4
  const SW8: Dir8 := 5
  const S8: Dir8 := 6
  const SE8: Dir8 := 7

  type DirFlags = bv32
  const NONE: DirFlags := 0
  const FlagE: DirFlags := 1
  const FlagN: DirFlags := 2
  const FlagW: DirFlags := 4
  const FlagS: DirFlags := 8
  const ALL: DirFlags := 15

  // The lookup tables of DirectionExt, indexed by the enum's integer.
  const Vec2iMap: seq<Vec2i> := [Right, Up, Down, Left]
  const SignMap: seq<int> := [1, 1, -1, -1]
  const CWMap: seq<Dir> := [S, E, W, N]
  const Dir8Map: seq<Dir8> := [E8, N8, S8, W8]
  const FlagMap: seq<DirFlags> := [FlagE, FlagN, FlagS, FlagW]
  const Vec2iMap8: seq<Vec2i> :=
    [Right, Vec2i(1, 1), Up, Vec2i(-1, 1), Left, Vec2i(-1, -1), Down, Vec2i(1, -1)]

  /** `(Dir)(3 - (int)dir)`. */
  function Opposite(dir: Dir): Dir
  {
    (3 - dir as int) as Dir
  }

  function Sign(dir: Dir): int
  {
    SignMap[dir]
  }

  predicate IsVertical(dir: Dir)
  {
    dir == S || dir == N
  }

  /** `Convert.ToInt32(dir.IsVertical())`: 1 for N and S, 0 for E and W. */
  function Axis(dir: Dir): int
  {
    if IsVertical(dir) then 1 else 0
  }

  function ToVec2i(dir: Dir): Vec2i
  {
    Vec2iMap[dir]
  }

  function ToFlag(dir: Dir): DirFlags
  {
    FlagMap[dir]
  }

  function ToDir8(dir: Dir): Dir8
  {
    Dir8Map[dir]
  }

  function NextCW(dir: Dir): Dir
  {
    CWMap[dir]
  }

  function NextCCW(dir: Dir): Dir
  {
    Opposite(NextCW(dir))
  }

  function ToVec2i8(dir: Dir8): Vec2i
  {
    Vec2iMap8[dir]
  }

  function NextCW8(dir: Dir8): (r: Dir8)
    ensures r as int == if dir == 0 then 7 else dir as int - 1
  {
    ((dir as int + 7) % 8) as Dir8
  }

  function NextCCW8(dir: Dir8): (r: Dir8)
    ensures r as int == if dir == 7 then 0 else dir as int + 1
  {
    ((dir as int + 1) % 8) as Dir8
  }

  function Opposite8(dir: Dir8): (r: Dir8)
    ensures r as int == if dir < 4 then dir as int + 4 else dir as int - 4
  {
    ((dir as int + 4) % 8) as Dir8
  }

  /** A quarter turn clockwise / counter-clockwise of a vector. */
  function TurnCW(v: Vec2i): Vec2i { Vec2i(v.y, -v.x) }
  function TurnCCW(v: Vec2i): Vec2i { Vec2i(-v.y, v.x) }

  /**
   * The explicit cast `(Dir)vec`: a lookup in the four unit vectors; any
   * other vector is a missing dictionary key.
   */
  function FromVec2i(v: Vec2i): (r: Result<Dir>)
    ensures r.Success? ==> ToVec2i(r.value) == v
    ensures r.Failure? ==> r.error == KeyNotFoundException && forall d: Dir :: ToVec2i(d) != v
  {
    if v == Vec2i(0, -1) then Success(S)
    else if v == Vec2i(-1, 0) then Success(W)
    else if v == Vec2i(1, 0) then Success(E)
    else if v == Vec2i(0, 1) then Success(N)
    else Failure(KeyNotFoundException)
  }

  /**
   * The tables agree with one another: each direction's vector is a unit step
   * along `Axis` with sign `Sign`, the opposite direction has the negated
   * vector, and the eight-direction table extends the four-direction one.
   */
  lemma TablesAgree(d: Dir)
    ensures At(ToVec2i(d), Axis(d)) == Sign(d)
    ensures At(ToVec2i(d), 1 - Axis(d)) == 0
    ensures ToVec2i(Opposite(d)) == Neg(ToVec2i(d))
    ensures Opposite(Opposite(d)) == d && Opposite(d) != d
    ensures ToVec2i8(ToDir8(d)) == ToVec2i(d)
    ensures FromVec2i(ToVec2i(d)) == Success(d)
  {
  }

  /**
   * `NextCW` turns a quarter clockwise and `NextCCW` a quarter
   * counter-clockwise, so they undo each other and four turns are the identity.
   */
  lemma TurnsAgree(d: Dir)
    ensures ToVec2i(NextCW(d)) == TurnCW(ToVec2i(d))
    ensures ToVec2i(NextCCW(d)) == TurnCCW(ToVec2i(d))
    ensures NextCCW(NextCW(d)) == d && NextCW(NextCCW(d)) == d
    ensures NextCW(NextCW(NextCW(NextCW(d)))) == d
    ensures ToDir8(NextCW(d)) == NextCW8(NextCW8(ToDir8(d)))
  {
  }

  /** In eight directions two steps make a quarter turn, and `Opposite8` negates. */
  lemma Turns8Agree(d: Dir8)
    ensures ToVec2i8(NextCCW8(NextCCW8(d))) == TurnCCW(ToVec2i8(d))
    ensures ToVec2i8(NextCW8(NextCW8(d))) == TurnCW(ToVec2i8(d))
    ensures NextCW8(NextCCW8(d)) == d && NextCCW8(NextCW8(d)) == d
    ensures ToVec2i8(Opposite8(d)) == Neg(ToVec2i8(d))
    ensures Opposite8(Opposite8(d)) == d
  {
    if d < 4 {
      assert ToVec2i8(Opposite8(d)) == Vec2iMap8[d as int + 4];
    } else {
      assert ToVec2i8(Opposite8(d)) == Vec2iMap8[d as int - 4];
    }
  }

  /** `Enum.HasFlag`: every bit of `flag` is set in `value`. */
  predicate HasFlag(value: DirFlags, flag: DirFlags)
  {
    value & flag == flag
  }

  /**
   * DirectionExt.Rotate: shift the flags left by the number of
   * counter-clockwise quarter turns and fold bits 4..7 back into 0..3.
   */
  function Rotate(flag: DirFlags, rot: Rotation.Rot4): (r: DirFlags)
    ensures r <= ALL
  {
    var shifted := flag << (rot as int);
    (shifted & 0xF) | ((shifted & 0xF0) >> 4)
  }

  /** A four-bit rotate-left, the reference for `Rotate`. */
  function RotateLeft4(f: DirFlags, k: nat): (r: DirFlags)
    requires k < 4
    ensures r <= ALL
  {
    if k == 0 then f & 0xF
    else if k == 1 then ((f << 1) | (f >> 3)) & 0xF
    else if k == 2 then ((f << 2) | (f >> 2)) & 0xF
    else ((f << 3) | (f >> 1)) & 0xF
  }

  /** On a well-formed flag set, `Rotate` is a four-bit rotation. */
  lemma RotateIsRotation(flag: DirFlags, rot: Rotation.Rot4)
    requires flag <= ALL
    ensures Rotate(flag, rot) == RotateLeft4(flag, rot as int)
  {
    if rot == 0 {
    } else if rot == 1 {
    } else if rot == 2 {
    } else {
    }
  }

  /**
   * Rotating one direction's flag by a quarter turn gives the flag of the
   * next direction that way, so `Rotate` agrees with `NextCCW`/`NextCW`.
   */
  lemma RotateAgreesWithTurns(d: Dir)
    ensures Rotate(ToFlag(d), Rotation.CCW90) == ToFlag(NextCCW(d))
    ensures Rotate(ToFlag(d), Rotation.CW90) == ToFlag(NextCW(d))
    ensures Rotate(ToFlag(d), Rotation.Rev) == ToFlag(Opposite(d))
  {
  }

  /**
   * Rotations compose like `Rot4.Add`, `None` changes nothing, and reversing
   * a rotation undoes it.
   */
  lemma RotateComposes(flag: DirFlags, a: Rotation.Rot4, b: Rotation.Rot4)
    requires flag <= ALL
    ensures Rotate(Rotate(flag, a), b) == Rotate(flag, Rotation.Add(a, b))
    ensures Rotate(flag, Rotation.None) == flag
    ensures Rotate(Rotate(flag, a), Rotation.Reverse(a)) == flag
  {
    RotateIsRotation(flag, a);
    RotateIsRotation(Rotate(flag, a), b);
    RotateIsRotation(flag, Rotation.Add(a, b));
    RotateIsRotation(flag, Rotation.None);
    RotateLeft4Composes(flag, a as int, b as int);
    Rotation.ReverseInvolution(a);
    RotateIsRotation(Rotate(flag, a), Rotation.Reverse(a));
    RotateLeft4Composes(flag, a as int, Rotation.Reverse(a) as int);
  }

  lemma {:induction false} RotateLeft4Composes(f: DirFlags, a: nat, b: nat)
    requires f <= ALL && a < 4 && b < 4
    ensures RotateLeft4(RotateLeft4(f, a), b) == RotateLeft4(f, (a + b) % 4)
    decreases b
  {
    if b == 0 {
      RotateLeft4Zero(RotateLeft4(f, a));
    } else {
      var g, c := RotateLeft4(f, a), (a + b - 1) % 4;
      RotateLeft4Composes(f, a, b - 1);
      assert RotateLeft4(g, b - 1) == RotateLeft4(f, c);
      RotateLeft4Step(g, b - 1);
      assert (b - 1 + 1) % 4 == b;
      assert RotateLeft4(g, b) == RotateLeft4(RotateLeft4(f, c), 1);
      RotateLeft4Step(f, c);
      assert (c + 1) % 4 == (a + b) % 4;
    }
  }

  lemma RotateLeft4Zero(f: DirFlags)
    requires f <= ALL
    ensures RotateLeft4(f, 0) == f
  {
  }

  /** One more quarter turn: `k + 1` steps are `k` steps and then one. */
  lemma RotateLeft4Step(f: DirFlags, k: nat)
    requires f <= ALL && k < 4
    ensures RotateLeft4(RotateLeft4(f, k), 1) == RotateLeft4(f, (k + 1) % 4)
  {
    if k == 0 {
    } else if k == 1 {
    } else if k == 2 {
    } else {
    }
  }

  /** Number of set bits among the four direction bits. */
  function Count4(f: DirFlags): nat
  {
    (if f & 1 != 0 then 1 else 0) + (if f & 2 != 0 then 1 else 0) +
    (if f & 4 != 0 then 1 else 0) + (if f & 8 != 0 then 1 else 0)
  }

  /** Rotating never gains or loses a direction. */
  lemma RotatePreservesCount(flag: DirFlags, rot: Rotation.Rot4)
    requires flag <= ALL
    ensures Count4(Rotate(flag, rot)) == Count4(flag)
  {
    RotateIsRotation(flag, rot);
  }

  /** Position of a direction in `CWMap`, the order `ToDir` tries them in. */
  function Priority(d: Dir): (k: nat)
    ensures k < |CWMap| && CWMap[k] == d
  {
    if d == S then 0 else if d == E then 1 else if d == W then 2 else 3
  }

  /**
   * DirectionExt.ToDir: the first set direction in `CWMap` order (S, E, W,
   * N); throws when no direction bit is set.
   */
  function ToDir(flag: DirFlags): (r: Result<Dir>)
    ensures r.Failure? <==> flag & ALL == 0
    ensures r.Failure? ==> r.error == ArgumentException
    ensures r.Success? ==> HasFlag(flag, ToFlag(r.value))
    ensures r.Success? ==> forall d: Dir :: Priority(d) < Priority(r.value) ==> !HasFlag(flag, ToFlag(d))
  {
    if HasFlag(flag, ToFlag(CWMap[0])) then Success(CWMap[0])
    else if HasFlag(flag, ToFlag(CWMap[1])) then Success(CWMap[1])
    else if HasFlag(flag, ToFlag(CWMap[2])) then Success(CWMap[2])
    else if HasFlag(flag, ToFlag(CWMap[3])) then Success(CWMap[3])
    else Failure(ArgumentException)
  }

  /**
   * Each direction's flag is a single bit, different directions have
   * different flags, `Sign` is +1 exactly for E and N, and `Axis` is 1
   * exactly for N and S.
   */
  lemma FlagFacts(d: Dir, e: Dir)
    ensures ToFlag(d) != 0 && ToFlag(d) & (ToFlag(d) - 1) == 0 && ToFlag(d) <= ALL
    ensures ToFlag(d) == ToFlag(e) <==> d == e
    ensures Sign(d) == 1 <==> d == E || d == N
    ensures Axis(d) == 1 <==> d == N || d == S
  {
  }

  /** `NONE` and `ALL` are fixed by every rotation, and four counter-clockwise
   *  quarter turns restore any flag set. */
  lemma RotateFixedPoints(flag: DirFlags, rot: Rotation.Rot4)
    requires flag <= ALL
    ensures Rotate(NONE, rot) == NONE && Rotate(ALL, rot) == ALL
    ensures Rotate(Rotate(Rotate(Rotate(flag, Rotation.CCW90), Rotation.CCW90), Rotation.CCW90), Rotation.CCW90) == flag
  {
    RotateComposes(flag, Rotation.CCW90, Rotation.CCW90);
    RotateComposes(Rotate(flag, Rotation.CCW90), Rotation.CCW90, Rotation.CCW90);
    var twice := Rotate(Rotate(flag, Rotation.CCW90), Rotation.CCW90);
    RotateComposes(twice, Rotation.CCW90, Rotation.CCW90);
    RotateComposes(flag, Rotation.Rev, Rotation.Rev);
  }

  /** A single direction's flag converts back to that direction. */
  lemma ToDirOfFlag(d: Dir)
    ensures ToDir(ToFlag(d)) == Success(d)
  {
  }
}
