/**
 * The WELL512 generator of `RNG`: sixteen 32-bit words and an index into
 * them, updated in place by `NextUInt`, with the integer draws built on it.
 *
 * The recurrence is the one in Lomont's 2008 note on random number
 * generators (WELL512 of Panneton, L'Ecuyer and Matsumoto).  `uint` is
 * `bv32`, so every shift and XOR wraps exactly as in C#.
 */
module Well512 {
  import opened Wrappers
  import IntMath

  type Word = bv32

  /** C#'s `int`. */
  newtype int32 = x: int | -0x8000_0000 <= x < 0x8000_0000

  /** C#'s `uint` read as a number (the index field and the results that are
   *  compared as numbers). */
  newtype uint32 = x: int | 0 <= x < 0x1_0000_0000

  const Zeros: seq<Word> := seq(16, _ => 0)

  /** One draw: the value returned, the new words and the new index. */
  datatype Draw = Draw(value: Word, words: seq<Word>, index: uint32)

  /** The four mixing terms of the recurrence, named so that the method and
   *  the function below share them. */
  function MixA(a: Word, c: Word): Word { a ^ c ^ (a << 16) ^ (c << 15) }
  function MixB(c: Word): Word { c ^ (c >> 11) }
  function MixD(a: Word): Word { a ^ ((a << 5) & 0xda44_2d24) }
  function MixLast(a: Word, b: Word, d: Word, c: Word): Word
  {
    a ^ b ^ d ^ (a << 2) ^ (b << 18) ^ (c << 28)
  }

  /** The index the step moves to: one place down, cyclically. */
  function Prev(i: uint32): (j: uint32)
    requires i < 16
    ensures j < 16 && j != i
  {
    (i + 15) % 16
  }

  /** The two terms the first half of the step computes from the old words. */
  function Lead(w: seq<Word>, i: uint32): Word
    requires |w| == 16 && i < 16
  {
    MixA(w[i], w[(i + 13) % 16])
  }

  function Tail(w: seq<Word>, i: uint32): Word
    requires |w| == 16 && i < 16
  {
    MixB(w[(i + 9) % 16])
  }

  /** The words after the first write, at the old index. */
  function Written(w: seq<Word>, i: uint32): (ws: seq<Word>)
    requires |w| == 16 && i < 16
    ensures |ws| == 16
  {
    w[i as int := Lead(w, i) ^ Tail(w, i)]
  }

  lemma WrittenIs(w: seq<Word>, i: uint32, a: Word)
    requires |w| == 16 && i < 16 && a == Lead(w, i) ^ Tail(w, i)
    ensures Written(w, i) == w[i as int := a]
  {
  }

  /** The two writes of the in-place method, replayed on sequences, give
   *  `Step`. */
  lemma StepFromWrites(w: seq<Word>, i: uint32, a: Word, b: Word, c: Word, w1: seq<Word>, w2: seq<Word>)
    requires |w| == 16 && i < 16
    requires b == MixA(w[i], w[(i + 13) % 16]) && c == MixB(w[(i + 9) % 16]) && a == b ^ c
    requires w1 == w[i as int := a]
    requires w2 == w1[Prev(i) as int := MixLast(w1[Prev(i)], b, MixD(a), c)]
    ensures Step(w, i) == Draw(w2[Prev(i)], w2, Prev(i))
  {
    LastIs(w, i, a, b, c, w1);
  }

  lemma LastIs(w: seq<Word>, i: uint32, a: Word, b: Word, c: Word, w1: seq<Word>)
    requires |w| == 16 && i < 16
    requires b == Lead(w, i) && c == Tail(w, i) && a == b ^ c
    requires w1 == w[i as int := a]
    ensures Written(w, i) == w1
    ensures Last(w, i) == MixLast(w1[Prev(i)], b, MixD(a), c)
  {
    WrittenIs(w, i, a);
  }

  /** The word the second write puts at the new index. */
  function Last(w: seq<Word>, i: uint32): Word
    requires |w| == 16 && i < 16
  {
    var ws := Written(w, i);
    MixLast(ws[Prev(i)], Lead(w, i), MixD(ws[i]), Tail(w, i))
  }

  /**
   * One step of the recurrence on a word vector and an index below 16.
   * Only the word at the old index and the word at the new index change;
   * the index moves one place down, cyclically, and the value returned is
   * the word just written there.
   */
  function Step(w: seq<Word>, i: uint32): (d: Draw)
    requires |w| == 16 && i < 16
    ensures |d.words| == 16 && d.index < 16
    ensures d.index as int == (i as int + 15) % 16
    ensures forall k :: 0 <= k < 16 && k != i as int && k != d.index as int ==> d.words[k] == w[k]
    ensures d.value == d.words[d.index]
  {
    Draw(Last(w, i), Written(w, i)[Prev(i) as int := Last(w, i)], Prev(i))
  }

  /** The all-zero word vector is a fixed point: it draws 0 and stays zero. */
  lemma ZeroIsFixedPoint(i: uint32)
    requires i < 16
    ensures Step(Zeros, i) == Draw(0, Zeros, (i + 15) % 16)
  {
    var d := Step(Zeros, i);
    assert d.words == Zeros;
  }

  /** A state with a single set bit draws a non-zero value, unlike the zero
   *  state. */
  lemma NonZeroStateDraws()
    ensures Step(Zeros[0 := 1], 0).value != Step(Zeros, 0).value
  {
    ZeroIsFixedPoint(0);
  }

  /** The draws of `n` calls from a given state. */
  function Outputs(w: seq<Word>, i: uint32, n: nat): (out: seq<Word>)
    requires |w| == 16 && i < 16
    ensures |out| == n
    decreases n
  {
    if n == 0 then []
    else
      var d := Step(w, i);
      [d.value] + Outputs(d.words, d.index, n - 1)
  }

  /** From the zero state every draw is 0. */
  lemma {:induction false} ZeroStateOutputs(i: uint32, n: nat)
    requires i < 16
    ensures Outputs(Zeros, i, n) == seq(n, _ => 0)
    decreases n
  {
    if n > 0 {
      ZeroIsFixedPoint(i);
      ZeroStateOutputs((i + 15) % 16, n - 1);
    }
  }

  /** RNG.State: a fixed 16-word array and an index. */
  class State {
    const svec: array<Word>
    var index: uint32

    predicate Valid()
      reads this
    {
      svec.Length == 16
    }

    /**
     * A state holding the given words at index 0.  It stands for
     * `State(int seed)`, whose words come from `System.Random`.
     */
    constructor FromWords(words: seq<Word>)
      requires |words| == 16
      ensures Valid() && fresh(svec)
      ensures svec[..] == words && index == 0
    {
      svec := new Word[16](k requires 0 <= k < 16 => words[k]);
      index := 0;
    }

    /**
     * `State(State other)` as written: `Array.Copy(svec, other.svec, 16)`
     * copies the new, all-zero array over `other`'s words.
     */
    constructor CopyAsWritten(other: State)
      requires other.Valid()
      modifies other.svec
      ensures Valid() && fresh(svec)
      ensures svec[..] == Zeros && other.svec[..] == Zeros
      ensures index == old(other.index)
    {
      svec := new Word[16](_ => 0);
      new;
      forall k | 0 <= k < 16 {
        other.svec[k] := svec[k];
      }
      index := other.index;
    }

    /** `State(State other)` as evidently intended: copy `other`'s words into
     *  the new array. */
    constructor Copy(other: State)
      requires other.Valid()
      ensures Valid() && fresh(svec)
      ensures svec[..] == other.svec[..] && index == other.index
    {
      svec := new Word[16](_ => 0);
      new;
      forall k | 0 <= k < 16 {
        svec[k] := other.svec[k];
      }
      index := other.index;
    }
  }

  /** A word read as an unsigned number. */
  function Num(u: Word): uint32
  {
    u as int as uint32
  }

  /** `(int)u` on a `uint`: the same 32 bits read as two's complement. */
  function ToInt32(u: uint32): (x: int32)
    ensures 0 <= x as int ==> x as int == u as int
    ensures x < 0 ==> x as int == u as int - 0x1_0000_0000
  {
    if u < 0x8000_0000 then u as int as int32 else (u as int - 0x1_0000_0000) as int32
  }

  /** `(uint)x` on an `int`, and on a `long` in range: wrap modulo 2^32. */
  function ToUInt32(x: int): (u: uint32)
    ensures u as int == x % 0x1_0000_0000
  {
    (x % 0x1_0000_0000) as uint32
  }

  /** The two casts are inverse to each other. */
  lemma CastsRoundTrip(u: uint32, x: int32)
    ensures ToUInt32(ToInt32(u) as int) == u
    ensures ToInt32(ToUInt32(x as int)) == x
  {
  }

  /** The generator: a state that each draw advances. */
  class RNG {
    var state: State

    predicate Valid()
      reads this, state
    {
      state.Valid()
    }

    /** `RNG(int seed)`, with the seeded words given. */
    constructor FromWords(words: seq<Word>)
      requires |words| == 16
      ensures Valid() && fresh(state) && fresh(state.svec)
      ensures state.svec[..] == words && state.index == 0
    {
      state := new State.FromWords(words);
    }

    /** `RNG(State state)`: wraps a copy made by the copy constructor as
     *  written, so both generators are left all-zero. */
    constructor Resume(s: State)
      requires s.Valid()
      modifies s.svec
      ensures Valid() && fresh(state) && fresh(state.svec)
      ensures state.svec[..] == Zeros && s.svec[..] == Zeros
      ensures state.index == old(s.index)
    {
      state := new State.CopyAsWritten(s);
    }

    /** `RNG(State state)` with the corrected copy: it continues the original
     *  sequence and leaves `s` alone. */
    constructor ResumeCorrected(s: State)
      requires s.Valid()
      ensures Valid() && fresh(state) && fresh(state.svec)
      ensures state.svec[..] == s.svec[..] && state.index == s.index
    {
      state := new State.Copy(s);
    }

    /**
     * RNG.NextUInt: one step of the recurrence in place.  An index of 16 or
     * more (the field is public) makes the first array read throw before
     * anything changes.
     */
    method NextUInt() returns (r: Result<Word>)
      requires Valid()
      modifies state, state.svec
      ensures Valid() && state == old(state)
      ensures old(state.index) >= 16 ==>
        r == Failure(IndexOutOfRangeException) && state.svec[..] == old(state.svec[..]) && state.index == old(state.index)
      ensures old(state.index) < 16 ==>
        var d := Step(old(state.svec[..]), old(state.index));
        r == Success(d.value) && state.svec[..] == d.words && state.index == d.index
    {
      if state.index >= 16 {
        return Failure(IndexOutOfRangeException);
      }
      var v, i := state.svec, state.index;
      ghost var w := v[..];
      var a, b, c, d: Word;
      a := v[i];
      c := v[(i + 13) % 16];
      b := MixA(a, c);
      c := v[(i + 9) % 16];
      c := MixB(c);
      a := b ^ c;
      v[i] := a;
      ghost var w1, a1 := v[..], a;
      d := MixD(a);
      var j := (i + 15) % 16;
      state.index := j;
      a := v[j];
      v[j] := MixLast(a, b, d, c);
      StepFromWrites(w, i, a1, b, c, w1, v[..]);
      return Success(v[j]);
    }

    /** RNG.Next(uint): a draw reduced modulo `maxValue`; a zero bound throws
     *  after the state has advanced. */
    method Next(maxValue: uint32) returns (r: Result<uint32>)
      requires Valid()
      modifies state, state.svec
      ensures Valid() && state == old(state)
      ensures old(state.index) < 16 ==>
        var d := Step(old(state.svec[..]), old(state.index));
        state.svec[..] == d.words && state.index == d.index &&
        r == (if maxValue == 0 then Failure(DivideByZeroException) else Success(Num(d.value) % maxValue))
      ensures old(state.index) < 16 && maxValue > 0 ==> r.Success? && r.value < maxValue
      ensures old(state.index) >= 16 ==> r == Failure(IndexOutOfRangeException)
    {
      var u :- NextUInt();
      if maxValue == 0 {
        return Failure(DivideByZeroException);
      }
      return Success(Num(u) % maxValue);
    }

    /** RNG.Next(int, int): the draw reduced by `InRange`. */
    method NextInRange(minValue: int32, maxValue: int32) returns (r: Result<uint32>)
      requires Valid()
      modifies state, state.svec
      ensures Valid() && state == old(state)
      ensures old(state.index) < 16 ==>
        var d := Step(old(state.svec[..]), old(state.index));
        state.svec[..] == d.words && state.index == d.index &&
        r == InRange(d.value, minValue, maxValue)
      ensures old(state.index) < 16 && 0 <= minValue < maxValue ==>
        r.Success? && minValue as int <= r.value as int < maxValue as int
      ensures old(state.index) >= 16 ==> r == Failure(IndexOutOfRangeException)
    {
      var u :- NextUInt();
      r := InRange(u, minValue, maxValue);
      if 0 <= minValue < maxValue {
        InRangeBounds(u, minValue, maxValue);
      }
    }

    /** RNG.NextInt: the draw reinterpreted as a signed `int`. */
    method NextInt() returns (r: Result<int32>)
      requires Valid()
      modifies state, state.svec
      ensures Valid() && state == old(state)
      ensures old(state.index) < 16 ==>
        var d := Step(old(state.svec[..]), old(state.index));
        state.svec[..] == d.words && state.index == d.index &&
        r.Success? && ToUInt32(r.value as int) as int == d.value as int
      ensures old(state.index) >= 16 ==> r == Failure(IndexOutOfRangeException)
    {
      var u :- NextUInt();
      CastsRoundTrip(Num(u), 0);
      return Success(ToInt32(Num(u)));
    }
  }

  /**
   * The reduction of RNG.Next(int, int): `(uint)((u % (maxValue - minValue))
   * + minValue)`.  The difference wraps as an `int`; `uint % int` is taken in
   * `long`, so the remainder has the sign of `u` and is never negative; the
   * sum is a `long` and the cast back to `uint` wraps.  A difference that
   * wraps to zero throws.
   */
  function InRange(u: Word, minValue: int32, maxValue: int32): (r: Result<uint32>)
    ensures r.Failure? <==> Wrap(maxValue as int - minValue as int) == 0
    ensures r.Failure? ==> r.error == DivideByZeroException
  {
    var diff := Wrap(maxValue as int - minValue as int);
    if diff == 0 then Failure(DivideByZeroException)
    else Success(ToUInt32(IntMath.Rem(Num(u) as int, diff as int) + minValue as int))
  }

  /** For `0 <= minValue < maxValue` the reduced draw lies in
   *  `[minValue, maxValue)`, whatever the word. */
  lemma InRangeBounds(u: Word, minValue: int32, maxValue: int32)
    requires 0 <= minValue < maxValue
    ensures InRange(u, minValue, maxValue).Success?
    ensures minValue as int <= InRange(u, minValue, maxValue).value as int < maxValue as int
  {
    var diff := maxValue as int - minValue as int;
    assert Wrap(diff) as int == diff;
    var n := Num(u) as int;
    var m := IntMath.Rem(n, diff);
    assert 0 <= m < diff by {
      assert IntMath.Abs(m) < IntMath.Abs(diff);
    }
    var x := m + minValue as int;
    assert 0 <= x < 0x8000_0000;
    assert ToUInt32(x) as int == x;
    assert InRange(u, minValue, maxValue) == Success(ToUInt32(x));
  }

  /** Unchecked `int` subtraction: the exact difference wrapped to 32 bits. */
  function Wrap(x: int): (w: int32)
    ensures (w as int - x) % 0x1_0000_0000 == 0
    ensures -0x8000_0000 <= x < 0x8000_0000 ==> w as int == x
  {
    var m := x % 0x1_0000_0000;
    if m < 0x8000_0000 then m as int32 else (m - 0x1_0000_0000) as int32
  }
}
