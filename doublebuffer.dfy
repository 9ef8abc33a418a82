/**
 * `DoubleBuffer<T>`: two buffers in a two-slot array and the index of the
 * current one; the other is the next one.  Switching flips the index and
 * leaves the slots alone.
 */
module DoubleBuffers {

  class DoubleBuffer<T> {
    var currIdx: int
    const buf: array<T>

    ghost predicate Valid()
      reads this
    {
      buf.Length == 2 && (currIdx == 0 || currIdx == 1)
    }

    /** `Curr`: the buffer at `currIdx`. */
    function Curr(): T
      requires Valid()
      reads this, buf
    {
      buf[currIdx]
    }

    /** `Next`: the buffer at `1 - currIdx`. */
    function Next(): T
      requires Valid()
      reads this, buf
    {
      buf[1 - currIdx]
    }

    /** `new DoubleBuffer<T>()`: index 0, with the two `new T()` objects `first`
     *  and `second` as current and next buffer. */
    constructor (first: T, second: T)
      ensures Valid() && fresh(buf) && currIdx == 0
      ensures Curr() == first && Next() == second
    {
      currIdx := 0;
      buf := new T[2](i => if i == 0 then first else second);
    }

    /** `SwitchBuffers()`: the current and the next buffer change places. */
    method SwitchBuffers()
      requires Valid()
      modifies this
      ensures Valid()
      ensures Curr() == old(Next()) && Next() == old(Curr())
      ensures currIdx == 1 - old(currIdx)
    {
      currIdx := 1 - currIdx;
    }
  }

  /** The index after n switches from index i: switching twice restores it. */
  function Switched(i: int, n: nat): (j: int)
    requires i == 0 || i == 1
    ensures j == 0 || j == 1
    ensures n % 2 == 0 ==> j == i
    ensures n % 2 == 1 ==> j == 1 - i
  {
    if n == 0 then i else 1 - Switched(i, n - 1)
  }
}
