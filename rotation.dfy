/**
 * Quarter-turn rotations.  The C# enum `Rot4 { None, CCW90, Rev, CW90 }` is an
 * integer in 0..3 counting counter-clockwise quarter turns; it is modelled as
 * that integer.
 */
module Rotation {

  newtype Rot4 = n: int | 0 <= n < 4

  const None: Rot4 := 0
  const CCW90: Rot4 := 1
  const Rev: Rot4 := 2
  const CW90: Rot4 := 3

  /** RotationExt.Add: the combined rotation, `(a + b) % 4`. */
  function Add(a: Rot4, b: Rot4): (r: Rot4)
    ensures (r as int - a as int - b as int) % 4 == 0
  {
    ((a as int + b as int) % 4) as Rot4
  }

  /** RotationExt.Reverse: the inverse rotation, `(4 - r) % 4`. */
  function Reverse(r: Rot4): (rev: Rot4)
    ensures Add(r, rev) == None
  {
    ((4 - r as int) % 4) as Rot4
  }

  /** `Add` makes `Rot4` a commutative group with identity `None`. */
  lemma AddGroup(a: Rot4, b: Rot4, c: Rot4)
    ensures Add(a, b) == Add(b, a)
    ensures Add(Add(a, b), c) == Add(a, Add(b, c))
    ensures Add(a, None) == a
  {
    AddWraps(a, b);
    AddWraps(b, a);
    AddWraps(b, c);
    AddWraps(Add(a, b), c);
    AddWraps(a, Add(b, c));
    AddWraps(a, None);
  }

  /** The sum of two rotations below 4, wrapped once past 3. */
  lemma AddWraps(a: Rot4, b: Rot4)
    ensures Add(a, b) as int == if a as int + b as int < 4 then a as int + b as int else a as int + b as int - 4
  {
  }

  /** Reversing twice gives the original rotation. */
  lemma ReverseInvolution(r: Rot4)
    ensures Reverse(Reverse(r)) == r
  {
  }

  /**
   * Reversing is not adding a half turn: the two agree exactly on the
   * quarter turns and differ on `None` and `Rev`.
   */
  lemma ReverseVersusHalfTurn(r: Rot4)
    ensures Reverse(r) == Add(r, Rev) <==> r == CCW90 || r == CW90
  {
  }
}
