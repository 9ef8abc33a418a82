/**
 * `Rangei`: an inclusive integer range `[min, max]`.  The constructor stores
 * both bounds as given, without ordering them.
 *
 * C#'s `int` arithmetic is unchecked: `median` wraps modulo 2^32 when
 * `max - min` does not fit in 32 bits.
 */
module Ranges {
  import opened IntMath

  datatype Rangei = Rangei(min: int, max: int)

  /** `Contains(val)`: both ends are included. */
  predicate Contains(r: Rangei, val: int)
  {
    r.min <= val && val <= r.max
  }

  /** A range whose bounds are out of order contains nothing. */
  lemma EmptyWhenReversed(r: Rangei, val: int)
    requires r.min > r.max
    ensures !Contains(r, val)
  {
  }

  /** `median` as written: `min + (max - min) / 2` in 32-bit arithmetic. */
  function MedianAsWritten(r: Rangei): int
  {
    Wrap32(r.min + Quot(Wrap32(r.max - r.min), 2))
  }

  /** For the widest ranges the subtraction overflows and the median as
   *  written lands outside the range. */
  lemma MedianAsWrittenOverflows()
    ensures IsInt32(IntMin) && IsInt32(1)
    ensures MedianAsWritten(Rangei(IntMin, 1)) == 0x4000_0001
    ensures !Contains(Rangei(IntMin, 1), MedianAsWritten(Rangei(IntMin, 1)))
  {
    assert Wrap32(1 - IntMin) == -0x7FFF_FFFF;
    assert Quot(-0x7FFF_FFFF, 2) == -0x3FFF_FFFF;
  }

  /** When `max - min` fits in an `int`, the median as written is the exact one. */
  lemma MedianAsWrittenWhenNoOverflow(r: Rangei)
    requires IsInt32(r.min) && IsInt32(r.max) && IsInt32(r.max - r.min)
    ensures MedianAsWritten(r) == Median(r)
  {
    HalfBetween(r.min, r.max - r.min);
  }

  /** `median` without overflow: `min + (max - min) / 2` on exact integers. */
  function Median(r: Rangei): int
  {
    r.min + Quot(r.max - r.min, 2)
  }

  /** The median of an ordered range lies in it, at or below the midpoint. */
  lemma MedianInRange(r: Rangei)
    requires r.min <= r.max
    ensures Contains(r, Median(r))
    ensures 2 * Median(r) <= r.min + r.max <= 2 * Median(r) + 1
  {
  }

  /** Adding half of a difference that fits stays in `int`. */
  lemma HalfBetween(min: int, d: int)
    requires IsInt32(min) && IsInt32(d) && IsInt32(min + d)
    ensures IsInt32(min + Quot(d, 2))
  {
  }

  /** The decimal digits of a natural number, most significant first. */
  function Digits(n: nat): (s: string)
    ensures |s| > 0
    ensures forall i :: 0 <= i < |s| ==> '0' <= s[i] <= '9'
  {
    if n < 10 then [('0' as int + n) as char] else Digits(n / 10) + [('0' as int + n % 10) as char]
  }

  /** An integer in decimal, with a leading '-' when negative. */
  function Decimal(n: int): (s: string)
    ensures |s| > 0
    ensures forall i :: 0 <= i < |s| ==> s[i] != ' ' && s[i] != '~'
  {
    if n < 0 then "-" + Digits(-n) else Digits(n)
  }

  /** `ToString()`: "min ~ max"; the first blank comes right after min. */
  function ToString(r: Rangei): (s: string)
    ensures |s| == |Decimal(r.min)| + 3 + |Decimal(r.max)|
    ensures s[|Decimal(r.min)|..|Decimal(r.min)| + 3] == " ~ "
    ensures forall i :: 0 <= i < |Decimal(r.min)| ==> s[i] != ' '
  {
    Decimal(r.min) + " ~ " + Decimal(r.max)
  }
}
