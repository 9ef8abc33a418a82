/**
 * `Grid<T>`, a 2-D array indexed by (x, y), and `BitGrid`, a grid of booleans
 * kept in a BitArray at index `y * Width + x`.
 *
 * Both remember the width and height they were built with in `Size`, the
 * region `LocalRegion = (0, 0, w, h)` and `TotalCells = w * h`.  The C#
 * `default(T)` is the `Default` value a `Grid<T>` is built with.
 *
 * A BitArray stores its bits in 32-bit words.  The bits of the last word past
 * `Count` are storage too: `SetAll`, `Not`, `And`, `Or` and `Xor` work on whole
 * words and change them, and the copy constructor copies them.  `BitGrid`
 * keeps them in `padding`, so that `CountBits` can be shown to ignore them.
 */
module Grids {
  import opened Wrappers
  import opened Vectors
  import opened Rects
  import BitCount

  // ---------------------------------------------------------------------------------
  // Grid<T>
  // ---------------------------------------------------------------------------------

  /** Column x of a 2-D array: the cells (x, 0) .. (x, h - 1). */
  function Column<T>(a: array2<T>, x: int): (r: seq<T>)
    requires 0 <= x < a.Length0
    reads a
    ensures |r| == a.Length1
    ensures forall y :: 0 <= y < a.Length1 ==> r[y] == a[x, y]
  {
    seq(a.Length1, y requires 0 <= y < a.Length1 reads a => a[x, y])
  }

  /** The cells of the first n columns, in the order a C# `T[,]` enumerates
   *  them: the first index outermost. */
  function FirstColumns<T>(a: array2<T>, n: int): (r: seq<T>)
    requires 0 <= n <= a.Length0
    reads a
  {
    if n == 0 then [] else FirstColumns(a, n - 1) + Column(a, n - 1)
  }

  lemma MulStep(n: int, h: int)
    ensures (n - 1) * h + h == n * h
  {
  }

  /** Cell (x, y) of the first n columns sits at position x * h + y. */
  lemma {:induction false} FirstColumnsAt<T>(a: array2<T>, n: int, x: int, y: int)
    requires 0 <= x < n <= a.Length0 && 0 <= y < a.Length1
    ensures |FirstColumns(a, n)| == n * a.Length1
    ensures x * a.Length1 + y < |FirstColumns(a, n)|
    ensures FirstColumns(a, n)[x * a.Length1 + y] == a[x, y]
  {
    var h := a.Length1;
    FirstColumnsLength(a, n - 1);
    MulStep(n, h);
    if x < n - 1 {
      FirstColumnsAt(a, n - 1, x, y);
    } else {
      assert x * h + y == (n - 1) * h + y;
    }
  }

  lemma {:induction false} FirstColumnsLength<T>(a: array2<T>, n: int)
    requires 0 <= n <= a.Length0
    ensures |FirstColumns(a, n)| == n * a.Length1
  {
    if n > 0 {
      FirstColumnsLength(a, n - 1);
      MulStep(n, a.Length1);
    }
  }

  /** r lists the cells of a in the order a C# `T[,]` enumerates them: cell
   *  (x, y) at position x * h + y. */
  ghost predicate InCellOrder<T>(a: array2<T>, r: seq<T>)
    reads a
  {
    forall x, y :: 0 <= x < a.Length0 && 0 <= y < a.Length1 ==>
      x * a.Length1 + y < |r| && r[x * a.Length1 + y] == a[x, y]
  }

  /** All the columns hold every cell (x, y) at position x * h + y. */
  lemma AllColumns<T>(a: array2<T>)
    ensures |FirstColumns(a, a.Length0)| == a.Length0 * a.Length1
    ensures InCellOrder(a, FirstColumns(a, a.Length0))
  {
    FirstColumnsLength(a, a.Length0);
    AllCells(a);
  }

  lemma AllCells<T>(a: array2<T>)
    ensures InCellOrder(a, FirstColumns(a, a.Length0))
  {
    FirstColumnsLength(a, a.Length0);
    forall x, y | 0 <= x < a.Length0 && 0 <= y < a.Length1
      ensures x * a.Length1 + y < |FirstColumns(a, a.Length0)| && FirstColumns(a, a.Length0)[x * a.Length1 + y] == a[x, y]
    {
      FirstColumnsAt(a, a.Length0, x, y);
    }
  }

  /** A 2-D array of cells. */
  class Grid<T> {
    const Size: Vec2i
    const LocalRegion: Recti
    const TotalCells: int
    /** The value `default(T)`. */
    const Default: T
    const data: array2<T>

    function Width(): int { Size.x }
    function Height(): int { Size.y }

    /** The dimensions recorded at construction describe the array. */
    ghost predicate Valid()
    {
      0 <= Size.x && 0 <= Size.y &&
      data.Length0 == Size.x && data.Length1 == Size.y &&
      LocalRegion == FromXYWH(0, 0, Size.x, Size.y) &&
      TotalCells == Size.x * Size.y
    }

    /** `new Grid<T>(w, h)`: every cell holds `default(T)`. */
    constructor (w: int, h: int, dflt: T)
      requires 0 <= w && 0 <= h
      ensures Valid() && Size == Vec2i(w, h) && Default == dflt
      ensures fresh(data)
      ensures forall x, y :: 0 <= x < w && 0 <= y < h ==> data[x, y] == dflt
    {
      Size := Vec2i(w, h);
      LocalRegion := FromXYWH(0, 0, w, h);
      TotalCells := w * h;
      Default := dflt;
      data := new T[w, h]((x, y) => dflt);
    }

    /** `new Grid<T>(wh)`: a square grid. */
    constructor Square(wh: int, dflt: T)
      requires 0 <= wh
      ensures Valid() && Size == Vec2i(wh, wh) && Default == dflt
      ensures fresh(data)
      ensures forall x, y :: 0 <= x < wh && 0 <= y < wh ==> data[x, y] == dflt
    {
      Size := Vec2i(wh, wh);
      LocalRegion := FromXYWH(0, 0, wh, wh);
      TotalCells := wh * wh;
      Default := dflt;
      data := new T[wh, wh]((x, y) => dflt);
    }

    /** The expression `new Grid<T>(w, h)`: allocating a `T[w, h]` with a
     *  negative dimension throws an overflow error. */
    static method New(w: int, h: int, dflt: T) returns (r: Result<Grid<T>>)
      ensures r.Failure? <==> w < 0 || h < 0
      ensures r.Failure? ==> r.error == OverflowException
      ensures r.Success? ==> fresh(r.value) && fresh(r.value.data) && r.value.Valid()
      ensures r.Success? ==> r.value.Size == Vec2i(w, h) && r.value.Default == dflt
      ensures r.Success? ==> forall x, y :: 0 <= x < w && 0 <= y < h ==> r.value.data[x, y] == dflt
    {
      if w < 0 || h < 0 {
        return Failure(OverflowException);
      }
      var g := new Grid(w, h, dflt);
      return Success(g);
    }

    /** The expression `new Grid<T>(wh)`. */
    static method NewSquare(wh: int, dflt: T) returns (r: Result<Grid<T>>)
      ensures r.Failure? <==> wh < 0
      ensures r.Failure? ==> r.error == OverflowException
      ensures r.Success? ==> fresh(r.value) && fresh(r.value.data) && r.value.Valid()
      ensures r.Success? ==> r.value.Size == Vec2i(wh, wh) && r.value.Default == dflt
      ensures r.Success? ==> forall x, y :: 0 <= x < wh && 0 <= y < wh ==> r.value.data[x, y] == dflt
    {
      if wh < 0 {
        return Failure(OverflowException);
      }
      var g := new Grid.Square(wh, dflt);
      return Success(g);
    }

    /** `new Grid<T>(T[,] array)`: a copy of the array, with its dimensions. */
    constructor FromArray(src: array2<T>, dflt: T)
      ensures Valid() && Size == Vec2i(src.Length0, src.Length1) && Default == dflt
      ensures fresh(data)
      ensures forall x, y :: 0 <= x < src.Length0 && 0 <= y < src.Length1 ==> data[x, y] == src[x, y]
    {
      Size := Vec2i(src.Length0, src.Length1);
      LocalRegion := FromXYWH(0, 0, src.Length0, src.Length1);
      TotalCells := src.Length0 * src.Length1;
      Default := dflt;
      data := new T[src.Length0, src.Length1](
        (x, y) requires 0 <= x < src.Length0 && 0 <= y < src.Length1 reads src => src[x, y]);
    }

    /** The indexer getter `this[x, y]` (and `this[v]` with (v.x, v.y)):
     *  out-of-range coordinates throw. */
    function Get(x: int, y: int): (r: Result<T>)
      reads data
      ensures r.Success? <==> 0 <= x < data.Length0 && 0 <= y < data.Length1
      ensures r.Success? ==> r.value == data[x, y]
      ensures r.Failure? ==> r.error == IndexOutOfRangeException
    {
      if 0 <= x < data.Length0 && 0 <= y < data.Length1 then Success(data[x, y])
      else Failure(IndexOutOfRangeException)
    }

    /** The indexer setter: writes one cell and no other, or throws. */
    method Set(x: int, y: int, value: T) returns (r: Outcome)
      modifies data
      ensures r.Pass? <==> 0 <= x < data.Length0 && 0 <= y < data.Length1
      ensures r.Fail? ==> r.error == IndexOutOfRangeException
      ensures r.Pass? ==> data[x, y] == value
      ensures forall i, j :: 0 <= i < data.Length0 && 0 <= j < data.Length1 && (i != x || j != y) ==>
        data[i, j] == old(data[i, j])
    {
      if 0 <= x < data.Length0 && 0 <= y < data.Length1 {
        data[x, y] := value;
        r := Pass;
      } else {
        r := Fail(IndexOutOfRangeException);
      }
    }

    /** `Clear()`: every cell back to `default(T)`. */
    method Clear()
      modifies data
      ensures forall x, y :: 0 <= x < data.Length0 && 0 <= y < data.Length1 ==> data[x, y] == Default
    {
      forall x, y | 0 <= x < data.Length0 && 0 <= y < data.Length1 {
        data[x, y] := Default;
      }
    }

    /** `Clear(val)`: every cell set to `val`, column by column. */
    method ClearWith(val: T)
      requires Valid()
      modifies data
      ensures forall x, y :: 0 <= x < data.Length0 && 0 <= y < data.Length1 ==> data[x, y] == val
    {
      var x := 0;
      while x < Width()
        invariant 0 <= x <= Width()
        invariant forall i, j :: 0 <= i < x && 0 <= j < Height() ==> data[i, j] == val
      {
        var y := 0;
        while y < Height()
          invariant 0 <= y <= Height()
          invariant forall i, j :: 0 <= i < x && 0 <= j < Height() ==> data[i, j] == val
          invariant forall j :: 0 <= j < y ==> data[x, j] == val
        {
          data[x, y] := val;
          y := y + 1;
        }
        x := x + 1;
      }
    }

    /** `TryGet(v, out value)`: the cell when `LocalRegion` contains v, otherwise
     *  `default(T)` and false. */
    function TryGet(v: Vec2i): (r: (bool, T))
      requires Valid()
      reads data
      ensures r.0 <==> 0 <= v.x < Width() && 0 <= v.y < Height()
      ensures r.0 ==> Get(v.x, v.y) == Success(r.1)
      ensures !r.0 ==> r.1 == Default && Get(v.x, v.y).Failure?
    {
      ContainsMeans(LocalRegion, v);
      if Contains(LocalRegion, v) then (true, data[v.x, v.y]) else (false, Default)
    }

    /** `GetEnumerator()`: the cells with x outermost and y innermost. */
    function Elements(): (r: seq<T>)
      requires Valid()
      reads data
      ensures |r| == TotalCells
      ensures InCellOrder(data, r)
    {
      AllColumns(data);
      assert TotalCells == data.Length0 * data.Length1;
      FirstColumns(data, data.Length0)
    }
  }

  // ---------------------------------------------------------------------------------
  // BitGrid
  // ---------------------------------------------------------------------------------

  /** How many bits of the last storage word lie past n bits. */
  function PadLength(n: int): int
  {
    if n % 32 == 0 then 0 else 32 - n % 32
  }

  /** The index of cell (x, y) of a grid of width w. */
  function CellIndex(w: int, x: int, y: int): int
  {
    y * w + x
  }

  /** Inside the grid, cells go to distinct indices below w * h. */
  lemma CellIndexInjective(w: int, h: int, x1: int, y1: int, x2: int, y2: int)
    requires 0 <= x1 < w && 0 <= y1 < h && 0 <= x2 < w && 0 <= y2 < h
    ensures 0 <= CellIndex(w, x1, y1) < w * h
    ensures CellIndex(w, x1, y1) == CellIndex(w, x2, y2) <==> x1 == x2 && y1 == y2
  {
    RowBelow(w, h, y1);
    if y1 < y2 {
      RowBelow(w, y2, y1);
    } else if y2 < y1 {
      RowBelow(w, y1, y2);
    }
  }

  /** Row y of a grid of width w ends no later than row k starts. */
  lemma RowBelow(w: int, k: int, y: int)
    requires 0 < w && 0 <= y < k
    ensures 0 <= y * w && y * w + w <= k * w
  {
    assert y * w + w == (y + 1) * w;
  }

  /** A grid of booleans stored in one BitArray, row after row. */
  class BitGrid {
    const Size: Vec2i
    const LocalRegion: Recti
    const TotalCells: int
    /** The BitArray's bits, one per cell. */
    const data: array<bool>
    /** The BitArray's storage bits past its last cell, in its last word. */
    var padding: seq<bool>

    function Width(): int { Size.x }
    function Height(): int { Size.y }

    ghost predicate Valid()
      reads this
    {
      LocalRegion == FromXYWH(0, 0, Size.x, Size.y) &&
      TotalCells == Size.x * Size.y && data.Length == TotalCells &&
      |padding| == PadLength(TotalCells)
    }

    /** `new BitGrid(w, h)`: w * h cleared bits. */
    constructor (w: int, h: int)
      requires 0 <= w * h
      ensures Valid() && Size == Vec2i(w, h) && fresh(data)
      ensures forall i :: 0 <= i < data.Length ==> !data[i]
      ensures forall i :: 0 <= i < |padding| ==> !padding[i]
    {
      Size := Vec2i(w, h);
      LocalRegion := FromXYWH(0, 0, w, h);
      TotalCells := w * h;
      data := new bool[w * h](i => false);
      padding := seq(PadLength(w * h), i => false);
    }

    /** The expression `new BitGrid(w, h)`: a BitArray of negative length
     *  throws an argument-out-of-range error.  Both dimensions negative give a
     *  positive product and a grid. */
    static method New(w: int, h: int) returns (r: Result<BitGrid>)
      ensures r.Failure? <==> w * h < 0
      ensures r.Failure? ==> r.error == ArgumentOutOfRangeException
      ensures r.Success? ==> fresh(r.value) && fresh(r.value.data) && r.value.Valid() && r.value.Size == Vec2i(w, h)
      ensures r.Success? ==> forall i :: 0 <= i < r.value.data.Length ==> !r.value.data[i]
      ensures r.Success? ==> forall i :: 0 <= i < |r.value.padding| ==> !r.value.padding[i]
    {
      if w * h < 0 {
        return Failure(ArgumentOutOfRangeException);
      }
      var g := new BitGrid(w, h);
      return Success(g);
    }

    /** `new BitGrid(ot)`: the same dimensions and a copy of its bits. */
    constructor Copy(ot: BitGrid)
      requires ot.Valid()
      ensures Valid() && Size == ot.Size && fresh(data)
      ensures data[..] == ot.data[..] && padding == ot.padding
    {
      Size := ot.Size;
      LocalRegion := ot.LocalRegion;
      TotalCells := ot.TotalCells;
      data := new bool[ot.data.Length](i requires 0 <= i < ot.data.Length reads ot.data => ot.data[i]);
      padding := ot.padding;
    }

    /** The indexer getter: bit `y * Width + x`, which throws only when that index is
     *  outside the BitArray; x itself is not checked against the width. */
    function Get(x: int, y: int): (r: Result<bool>)
      reads this, data
      ensures r.Success? <==> 0 <= CellIndex(Width(), x, y) < data.Length
      ensures r.Success? ==> r.value == data[CellIndex(Width(), x, y)]
      ensures r.Failure? ==> r.error == ArgumentOutOfRangeException
    {
      var i := y * Width() + x;
      if 0 <= i < data.Length then Success(data[i]) else Failure(ArgumentOutOfRangeException)
    }

    /** The indexer setter: writes bit `y * Width + x` and no other, or throws. */
    method Set(x: int, y: int, value: bool) returns (r: Outcome)
      modifies data
      ensures r.Pass? <==> 0 <= CellIndex(Width(), x, y) < data.Length
      ensures r.Fail? ==> r.error == ArgumentOutOfRangeException
      ensures r.Pass? ==> data[..] == old(data[..])[CellIndex(Width(), x, y) := value]
      ensures r.Fail? ==> data[..] == old(data[..])
    {
      var i := y * Width() + x;
      if 0 <= i < data.Length {
        data[i] := value;
        r := Pass;
      } else {
        r := Fail(ArgumentOutOfRangeException);
      }
    }

    /** `SetAll(v)`: every bit, the padding included, becomes v. */
    method SetAll(v: bool)
      requires Valid()
      modifies this, data
      ensures Valid()
      ensures forall i :: 0 <= i < data.Length ==> data[i] == v
      ensures padding == seq(|old(padding)|, i => v)
    {
      forall i | 0 <= i < data.Length {
        data[i] := v;
      }
      padding := seq(|padding|, i => v);
    }

    /** `Not()`: every bit, the padding included, is flipped. */
    method Not()
      requires Valid()
      modifies this, data
      ensures Valid()
      ensures forall i :: 0 <= i < data.Length ==> data[i] == !old(data[i])
      ensures padding == Map2(old(padding), old(padding), (a, b) => !a)
    {
      forall i | 0 <= i < data.Length {
        data[i] := !data[i];
      }
      padding := Map2(padding, padding, (a, b) => !a);
    }

    /** `MustCompatible(this, ot)`, then the BitArray's cell-wise `op` with ot's bits. */
    method Combine(ot: BitGrid, op: (bool, bool) -> bool) returns (r: Outcome)
      requires Valid() && ot.Valid()
      modifies this, data
      ensures Valid()
      ensures r.Fail? <==> ot.Width() != Width() || ot.Height() != Height()
      ensures r.Fail? ==> r.error == ArgumentException && data[..] == old(data[..]) && padding == old(padding)
      ensures r.Pass? ==> data.Length == ot.data.Length
      ensures r.Pass? ==> forall i :: 0 <= i < data.Length ==> data[i] == op(old(data[i]), old(ot.data[i]))
      ensures r.Pass? ==> padding == Map2(old(padding), old(ot.padding), op)
    {
      if ot.Width() != Width() || ot.Height() != Height() {
        return Fail(ArgumentException);
      }
      forall i | 0 <= i < data.Length {
        data[i] := op(data[i], ot.data[i]);
      }
      padding := Map2(padding, ot.padding, op);
      r := Pass;
    }

    /** `And(ot)`: cell-wise conjunction; grids of other dimensions throw. */
    method And(ot: BitGrid) returns (r: Outcome)
      requires Valid() && ot.Valid()
      modifies this, data
      ensures Valid()
      ensures r.Fail? <==> ot.Width() != Width() || ot.Height() != Height()
      ensures r.Fail? ==> r.error == ArgumentException && data[..] == old(data[..]) && padding == old(padding)
      ensures r.Pass? ==> data.Length == ot.data.Length
      ensures r.Pass? ==> forall i :: 0 <= i < data.Length ==> data[i] == (old(data[i]) && old(ot.data[i]))
    {
      r := Combine(ot, (a, b) => a && b);
    }

    /** `Or(ot)`: cell-wise disjunction; grids of other dimensions throw. */
    method Or(ot: BitGrid) returns (r: Outcome)
      requires Valid() && ot.Valid()
      modifies this, data
      ensures Valid()
      ensures r.Fail? <==> ot.Width() != Width() || ot.Height() != Height()
      ensures r.Fail? ==> r.error == ArgumentException && data[..] == old(data[..]) && padding == old(padding)
      ensures r.Pass? ==> data.Length == ot.data.Length
      ensures r.Pass? ==> forall i :: 0 <= i < data.Length ==> data[i] == (old(data[i]) || old(ot.data[i]))
    {
      r := Combine(ot, (a, b) => a || b);
    }

    /** `Xor(ot)`: cell-wise exclusive or; grids of other dimensions throw. */
    method Xor(ot: BitGrid) returns (r: Outcome)
      requires Valid() && ot.Valid()
      modifies this, data
      ensures Valid()
      ensures r.Fail? <==> ot.Width() != Width() || ot.Height() != Height()
      ensures r.Fail? ==> r.error == ArgumentException && data[..] == old(data[..]) && padding == old(padding)
      ensures r.Pass? ==> data.Length == ot.data.Length
      ensures r.Pass? ==> forall i :: 0 <= i < data.Length ==> data[i] == (old(data[i]) != old(ot.data[i]))
    {
      r := Combine(ot, (a, b) => a != b);
    }

    /** What the last word of `GetCardinality`'s copy holds past the cells: the
     *  padding, or a whole zero word when the cells fill their words. */
    function Stale(): (s: seq<bool>)
      requires Valid()
      reads this
      ensures |s| == 32 - data.Length % 32
    {
      if |padding| == 0 then seq(32, i => false) else padding
    }

    /** `CountBits()`: the number of set cells, whatever the padding holds. */
    method CountBits() returns (count: int)
      requires Valid()
      ensures count == BitCount.Cardinality(data[..])
      ensures count == multiset(data[..])[true]
    {
      count := BitCount.GetCardinality(data[..], Stale());
    }
  }

  /** Two equally long bit sequences combined position by position. */
  function Map2(a: seq<bool>, b: seq<bool>, op: (bool, bool) -> bool): (r: seq<bool>)
    requires |a| == |b|
    ensures |r| == |a|
    ensures forall i :: 0 <= i < |r| ==> r[i] == op(a[i], b[i])
  {
    seq(|a|, i requires 0 <= i < |a| => op(a[i], b[i]))
  }

  // ---------------------------------------------------------------------------------
  // Counts after the whole-grid operations
  // ---------------------------------------------------------------------------------

  /** After `SetAll(v)` the count is all cells or none. */
  lemma {:induction false} CountAll(b: seq<bool>, v: bool, hi: int)
    requires 0 <= hi <= |b|
    requires forall i :: 0 <= i < |b| ==> b[i] == v
    ensures BitCount.CountRange(b, 0, hi) == if v then hi else 0
  {
    if hi > 0 {
      CountAll(b, v, hi - 1);
    }
  }

  /** After `Not()` the set cells are the cells that were clear. */
  lemma {:induction false} CountNot(b: seq<bool>, c: seq<bool>, hi: int)
    requires |b| == |c| && 0 <= hi <= |b|
    requires forall i :: 0 <= i < |b| ==> c[i] == !b[i]
    ensures BitCount.CountRange(c, 0, hi) == hi - BitCount.CountRange(b, 0, hi)
  {
    if hi > 0 {
      CountNot(b, c, hi - 1);
    }
  }

  /** The cells set after `And` and after `Or` add up to those set in either
   *  grid; after `Xor` the cells set in both drop out twice. */
  lemma {:induction false} CountCombined(a: seq<bool>, b: seq<bool>, hi: int)
    requires |a| == |b| && 0 <= hi <= |a|
    ensures BitCount.CountRange(Map2(a, b, (p, q) => p && q), 0, hi) + BitCount.CountRange(Map2(a, b, (p, q) => p || q), 0, hi)
      == BitCount.CountRange(a, 0, hi) + BitCount.CountRange(b, 0, hi)
    ensures BitCount.CountRange(Map2(a, b, (p, q) => p != q), 0, hi)
      == BitCount.CountRange(a, 0, hi) + BitCount.CountRange(b, 0, hi) - 2 * BitCount.CountRange(Map2(a, b, (p, q) => p && q), 0, hi)
  {
    if hi > 0 {
      CountCombined(a, b, hi - 1);
    }
  }

  // ---------------------------------------------------------------------------------
  // BitGrid<T>
  // ---------------------------------------------------------------------------------

  /** `BitGrid<T>`: a bit grid with a `Grid<T>` of items of the same dimensions. */
  class ItemBitGrid<T> {
    const Bits: BitGrid
    const Items: Grid<T>

    /** `new BitGrid<T>(w, h)`: cleared bits and default items. */
    constructor (w: int, h: int, dflt: T)
      requires 0 <= w && 0 <= h
      ensures Bits.Valid() && Items.Valid() && fresh(Bits) && fresh(Items) && fresh(Bits.data) && fresh(Items.data)
      ensures Bits.Size == Items.Size == Vec2i(w, h)
      ensures forall i :: 0 <= i < Bits.data.Length ==> !Bits.data[i]
      ensures forall x, y :: 0 <= x < w && 0 <= y < h ==> Items.data[x, y] == dflt
    {
      Bits := new BitGrid(w, h);
      Items := new Grid(w, h, dflt);
    }

    /** The expression `new BitGrid<T>(w, h)`: the base constructor's BitArray
     *  is allocated first, so a negative product fails as it does; otherwise a
     *  negative dimension makes the item array's allocation overflow. */
    static method New(w: int, h: int, dflt: T) returns (r: Result<ItemBitGrid<T>>)
      ensures r.Failure? <==> w < 0 || h < 0
      ensures r.Failure? && w * h < 0 ==> r.error == ArgumentOutOfRangeException
      ensures r.Failure? && w * h >= 0 ==> r.error == OverflowException
      ensures r.Success? ==> fresh(r.value) && fresh(r.value.Bits) && fresh(r.value.Items)
      ensures r.Success? ==> r.value.Bits.Valid() && r.value.Items.Valid()
      ensures r.Success? ==> r.value.Bits.Size == r.value.Items.Size == Vec2i(w, h)
      ensures r.Success? ==> forall i :: 0 <= i < r.value.Bits.data.Length ==> !r.value.Bits.data[i]
      ensures r.Success? ==> forall x, y :: 0 <= x < w && 0 <= y < h ==> r.value.Items.data[x, y] == dflt
    {
      if w * h < 0 {
        return Failure(ArgumentOutOfRangeException);
      }
      if w < 0 || h < 0 {
        return Failure(OverflowException);
      }
      var g := new ItemBitGrid(w, h, dflt);
      return Success(g);
    }

    /** The expression `new BitGrid<T>(ot)`: the bits are copied whatever the
     *  dimensions, and then a negative dimension makes the item array's
     *  allocation overflow. */
    static method NewCopy(ot: BitGrid, dflt: T) returns (r: Result<ItemBitGrid<T>>)
      requires ot.Valid()
      ensures r.Failure? <==> ot.Width() < 0 || ot.Height() < 0
      ensures r.Failure? ==> r.error == OverflowException
      ensures r.Success? ==> fresh(r.value) && fresh(r.value.Bits) && fresh(r.value.Items)
      ensures r.Success? ==> r.value.Bits.Valid() && r.value.Items.Valid() && r.value.Bits.Size == r.value.Items.Size == ot.Size
      ensures r.Success? ==> r.value.Bits.data[..] == ot.data[..] && r.value.Bits.padding == ot.padding
      ensures r.Success? ==> forall x, y :: 0 <= x < ot.Width() && 0 <= y < ot.Height() ==> r.value.Items.data[x, y] == dflt
    {
      if ot.Width() < 0 || ot.Height() < 0 {
        return Failure(OverflowException);
      }
      var g := new ItemBitGrid.Copy(ot, dflt);
      return Success(g);
    }

    /** `new BitGrid<T>(ot)`: a copy of ot's bits and a new grid of default items. */
    constructor Copy(ot: BitGrid, dflt: T)
      requires ot.Valid() && 0 <= ot.Width() && 0 <= ot.Height()
      ensures Bits.Valid() && Items.Valid() && fresh(Bits) && fresh(Items) && fresh(Bits.data) && fresh(Items.data)
      ensures Bits.Size == Items.Size == ot.Size
      ensures Bits.data[..] == ot.data[..] && Bits.padding == ot.padding
      ensures forall x, y :: 0 <= x < ot.Width() && 0 <= y < ot.Height() ==> Items.data[x, y] == dflt
    {
      Bits := new BitGrid.Copy(ot);
      Items := new Grid(ot.Width(), ot.Height(), dflt);
    }
  }
}
