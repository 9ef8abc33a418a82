/**
 * The integer 2-D vector `Vec2i` and its operators.  Arithmetic is on
 * unbounded integers; C#'s `/` truncates toward zero and throws on a zero
 * divisor, which `Div` and `DivScalar` model.
 */
module Vectors {
  import opened Wrappers
  import opened IntMath

  datatype Vec2i = Vec2i(x: int, y: int)

  const Down := Vec2i(0, -1)
  const Left := Vec2i(-1, 0)
  const One := Vec2i(1, 1)
  const Right := Vec2i(1, 0)
  const Up := Vec2i(0, 1)
  const Zero := Vec2i(0, 0)

  /** `new Vec2i(xy)`: both components equal. */
  function Splat(xy: int): Vec2i
  {
    Vec2i(xy, xy)
  }

  /** The `yx` property: the components swapped. */
  function YX(v: Vec2i): Vec2i
  {
    Vec2i(v.y, v.x)
  }

  /** Swapping twice restores the vector. */
  lemma YXInvolution(v: Vec2i)
    ensures YX(YX(v)) == v
  {
  }

  /** Indexer getter: component 0 is `x`, every other index reads `y`. */
  function At(v: Vec2i, i: int): int
  {
    if i == 0 then v.x else v.y
  }

  /** Indexer setter: index 0 writes `x`, every other index writes `y`. */
  function With(v: Vec2i, i: int, value: int): (r: Vec2i)
    ensures At(r, i) == value
    ensures i == 0 ==> r.y == v.y
    ensures i != 0 ==> r.x == v.x
  {
    if i == 0 then v.(x := value) else v.(y := value)
  }

  function Neg(a: Vec2i): Vec2i
  {
    Vec2i(-a.x, -a.y)
  }

  function AddScalar(c: Vec2i, i: int): Vec2i
  {
    Vec2i(c.x + i, c.y + i)
  }

  function SubScalar(c: Vec2i, i: int): Vec2i
  {
    Vec2i(c.x - i, c.y - i)
  }

  function MulScalar(c: Vec2i, i: int): Vec2i
  {
    Vec2i(c.x * i, c.y * i)
  }

  /** `c / i`: both components divided with C#'s truncating division. */
  function DivScalar(c: Vec2i, i: int): (r: Result<Vec2i>)
    ensures r.Failure? <==> i == 0
    ensures r.Success? ==> r.value == Vec2i(Quot(c.x, i), Quot(c.y, i))
  {
    if i == 0 then Failure(DivideByZeroException) else Success(Vec2i(Quot(c.x, i), Quot(c.y, i)))
  }

  function Add(a: Vec2i, b: Vec2i): Vec2i
  {
    Vec2i(a.x + b.x, a.y + b.y)
  }

  function Sub(a: Vec2i, b: Vec2i): Vec2i
  {
    Vec2i(a.x - b.x, a.y - b.y)
  }

  function Mul(a: Vec2i, b: Vec2i): Vec2i
  {
    Vec2i(a.x * b.x, a.y * b.y)
  }

  /** `a / b` component-wise; a zero component of `b` throws. */
  function Div(a: Vec2i, b: Vec2i): (r: Result<Vec2i>)
    ensures r.Failure? <==> b.x == 0 || b.y == 0
    ensures r.Success? ==> r.value == Vec2i(Quot(a.x, b.x), Quot(a.y, b.y))
  {
    if b.x == 0 || b.y == 0 then Failure(DivideByZeroException)
    else Success(Vec2i(Quot(a.x, b.x), Quot(a.y, b.y)))
  }

  /** The comparison operators hold only when they hold on both axes. */
  predicate Lt(a: Vec2i, b: Vec2i) { a.x < b.x && a.y < b.y }
  predicate Gt(a: Vec2i, b: Vec2i) { a.x > b.x && a.y > b.y }
  predicate Le(a: Vec2i, b: Vec2i) { a.x <= b.x && a.y <= b.y }
  predicate Ge(a: Vec2i, b: Vec2i) { a.x >= b.x && a.y >= b.y }

  /** `==`: both components equal. */
  predicate Eq(a: Vec2i, b: Vec2i) { a.x == b.x && a.y == b.y }

  /** `!=` as written: BOTH components differ. */
  predicate NeAsWritten(a: Vec2i, b: Vec2i) { a.x != b.x && a.y != b.y }

  /** `!=` as evidently intended: the negation of `==`. */
  predicate Ne(a: Vec2i, b: Vec2i) { !Eq(a, b) }

  /** `==` is exactly value equality. */
  lemma EqIsEquality(a: Vec2i, b: Vec2i)
    ensures Eq(a, b) <==> a == b
  {
  }

  /** As written, `!=` implies not `==`, but two vectors sharing one
   *  component are neither `==` nor `!=`. */
  lemma NeAsWrittenIsNotNegation()
    ensures forall a, b :: NeAsWritten(a, b) ==> !Eq(a, b)
    ensures !Eq(Vec2i(1, 2), Vec2i(1, 3)) && !NeAsWritten(Vec2i(1, 2), Vec2i(1, 3))
  {
  }

  /** The corrected `!=` is the complement of `==`, and implies the written one
   *  is no stronger than it. */
  lemma NeIsNegation(a: Vec2i, b: Vec2i)
    ensures Ne(a, b) <==> a != b
    ensures NeAsWritten(a, b) ==> Ne(a, b)
  {
  }

  /** `<=` is a partial order (reflexive, antisymmetric, transitive), `<`
   *  implies `<=`, and `>=`/`>` are the converses; the order is not total. */
  lemma OrderFacts(a: Vec2i, b: Vec2i, c: Vec2i)
    ensures Le(a, a)
    ensures Le(a, b) && Le(b, a) ==> a == b
    ensures Le(a, b) && Le(b, c) ==> Le(a, c)
    ensures Lt(a, b) ==> Le(a, b) && !Le(b, a)
    ensures Ge(a, b) <==> Le(b, a)
    ensures Gt(a, b) <==> Lt(b, a)
    ensures !Le(Vec2i(0, 1), Vec2i(1, 0)) && !Le(Vec2i(1, 0), Vec2i(0, 1))
  {
  }

  /** Adding and subtracting the same vector or scalar cancel; negation is
   *  subtraction from zero. */
  lemma ArithmeticInverses(a: Vec2i, b: Vec2i, i: int)
    ensures Sub(Add(a, b), b) == a
    ensures SubScalar(AddScalar(a, i), i) == a
    ensures Neg(Neg(a)) == a
    ensures Neg(a) == Sub(Zero, a)
  {
  }

  /** Scaling by a non-zero integer and dividing by it again is the identity. */
  lemma DivUndoesMul(c: Vec2i, i: int)
    requires i != 0
    ensures DivScalar(MulScalar(c, i), i) == Success(c)
  {
    QuotOfProduct(c.x, i);
    QuotOfProduct(c.y, i);
  }

  lemma QuotOfProduct(a: int, i: int)
    requires i != 0
    ensures Quot(a * i, i) == a
  {
    AbsMul(a, i);
    DivUnique(Abs(a) * Abs(i), Abs(i), Abs(a), 0);
  }
}
