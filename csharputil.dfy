/**
 * The general-purpose helpers of CSharpUtil: enum flag tests, swapping, title
 * case, re-arranging an array, element-wise repetition, zipping, the
 * Fisher-Yates shuffle, linked-list removal and search, a binary search by key
 * and appending to a dictionary of lists.
 *
 * Enum values are their Int32 bit pattern, a bv32, tagged with the name of
 * their enum type.  Lists are sequences; a `List<T>` shuffled in place is the
 * array behind it; a `LinkedList<T>` is the sequence of its node values, and a
 * node is its position.
 */
module CSharpUtil {
  import opened Wrappers

  // ---------------------------------------------------------------------------------
  // EnumUtil
  // ---------------------------------------------------------------------------------

  /** An enum value: its type and `Convert.ToInt32` of it. */
  datatype EnumValue = EnumValue(enumType: string, bits: bv32)

  /** Bit i of a word. */
  predicate Bit(x: bv32, i: nat)
    requires i < 32
  {
    (x >> i) & 1 == 1
  }

  /** The word with only bit i set. */
  function Pow2(i: nat): bv32
    requires i < 32
  {
    1 << i
  }

  /** `HasFlag(val, flag)`: values of different enum types throw; otherwise
   *  `(val & flag) == flag`. */
  function HasFlag(val: EnumValue, flag: EnumValue): (r: Result<bool>)
    ensures r.Failure? <==> val.enumType != flag.enumType
    ensures r.Failure? ==> r.error == ArgumentException
    ensures r.Success? ==> (r.value <==> val.bits & flag.bits == flag.bits)
  {
    if val.enumType != flag.enumType then Failure(ArgumentException)
    else Success(val.bits & flag.bits == flag.bits)
  }

  /** A flag is present exactly when each of its bits is set in the value. */
  lemma HasFlagBits(val: EnumValue, flag: EnumValue)
    requires val.enumType == flag.enumType
    ensures HasFlag(val, flag) == Success(true) <==> forall i :: 0 <= i < 32 ==> (Bit(flag.bits, i) ==> Bit(val.bits, i))
  {
    var v, f := val.bits, flag.bits;
    if v & f == f {
      forall i | 0 <= i < 32
        ensures Bit(f, i) ==> Bit(v, i)
      {
        SubsetBit(v, f, i);
      }
    } else {
      var i := MissingBit(v, f);
    }
  }

  lemma SubsetBit(v: bv32, f: bv32, i: nat)
    requires i < 32 && v & f == f
    ensures Bit(f, i) ==> Bit(v, i)
  {
  }

  /** A flag that is not contained in the value has a bit the value lacks. */
  lemma MissingBit(v: bv32, f: bv32) returns (i: nat)
    requires v & f != f
    ensures i < 32 && Bit(f, i) && !Bit(v, i)
  {
    var d := f & !v;
    var low := d & (0 - d);
    LowestOf(d, low);
    i := SingleBit(low);
    BitOfMissing(v, f, d, low, i);
  }

  /** `d & -d` keeps only the lowest set bit of a non-zero d. */
  lemma LowestOf(d: bv32, low: bv32)
    requires d != 0 && low == d & (0 - d)
    ensures low != 0 && low & (low - 1) == 0 && d & low == low
  {
  }

  lemma BitOfMissing(v: bv32, f: bv32, d: bv32, low: bv32, i: nat)
    requires i < 32 && d == f & !v && d & low == low && low == Pow2(i)
    ensures Bit(f, i) && !Bit(v, i)
  {
  }

  /** A non-zero word with `x & (x - 1) == 0` is a power of two. */
  lemma {:induction false} SingleBit(x: bv32) returns (i: nat)
    requires x != 0 && x & (x - 1) == 0
    ensures i < 32 && x == Pow2(i)
    ensures i < 31 || x >= 0x8000_0000
    decreases x
  {
    if x == 1 {
      i := 0;
    } else {
      var y := x >> 1;
      HalfSingle(x, y);
      var j := SingleBit(y);
      Pow2Double(j, y, x);
      i := j + 1;
    }
  }

  lemma HalfSingle(x: bv32, y: bv32)
    requires x != 0 && x != 1 && x & (x - 1) == 0 && y == x >> 1
    ensures y != 0 && y & (y - 1) == 0 && y < x && y < 0x8000_0000 && x == y << 1
  {
  }

  lemma Pow2Double(j: nat, y: bv32, x: bv32)
    requires j < 32 && y == Pow2(j) && y < 0x8000_0000 && x == y << 1
    ensures j < 31 && x == Pow2(j + 1)
    ensures j + 1 < 31 || x >= 0x8000_0000
  {
    assert Pow2(31) == 0x8000_0000;
    assert j < 31;
    ShiftTwice(j);
  }

  lemma ShiftTwice(j: nat)
    requires j < 31
    ensures Pow2(j) << 1 == Pow2(j + 1)
  {
  }

  /** `IsFlag(val)`: the value is positive and `x & (x - 1)` is zero. */
  predicate IsFlag(val: EnumValue)
  {
    var x := val.bits;
    x != 0 && x < 0x8000_0000 && x & (x - 1) == 0
  }

  /** A flag is exactly a value with one bit set, below the sign bit. */
  lemma IsFlagOneBit(val: EnumValue)
    ensures IsFlag(val) <==> exists i :: 0 <= i < 31 && val.bits == Pow2(i)
  {
    if IsFlag(val) {
      var i := SingleBit(val.bits);
    }
    if exists i :: 0 <= i < 31 && val.bits == Pow2(i) {
      var i :| 0 <= i < 31 && val.bits == Pow2(i);
      PowerIsFlag(i);
    }
  }

  lemma PowerIsFlag(i: nat)
    requires i < 31
    ensures Pow2(i) != 0 && Pow2(i) < 0x8000_0000 && Pow2(i) & (Pow2(i) - 1) == 0
  {
  }

  // ---------------------------------------------------------------------------------
  // GenericUtil and StringUtil
  // ---------------------------------------------------------------------------------

  /** `Swap(ref a, ref b)`: the two variables exchange their values. */
  method Swap<T>(a: T, b: T) returns (a': T, b': T)
    ensures a' == b && b' == a
  {
    var temp := a;
    a' := b;
    b' := temp;
  }

  /** `UnorderedCheck(a, b, check)`: the check holds one way round or the other. */
  predicate UnorderedCheck<T>(a: T, b: T, check: (T, T) -> bool)
  {
    check(a, b) || check(b, a)
  }

  /** The order of the two arguments does not matter. */
  lemma UnorderedCheckSymmetric<T>(a: T, b: T, check: (T, T) -> bool)
    ensures UnorderedCheck(a, b, check) == UnorderedCheck(b, a, check)
    ensures check(a, b) ==> UnorderedCheck(a, b, check)
  {
  }

  /** `char.ToUpper` on the Latin letters. */
  function Upper(c: char): (u: char)
    ensures 'a' <= c <= 'z' ==> u as int == c as int - 32
    ensures !('a' <= c <= 'z') ==> u == c
  {
    if 'a' <= c <= 'z' then (c as int - 32) as char else c
  }

  /** `TitleCase(str)`: null stays null; a longer string has its first character
   *  upper-cased; a string of length 0 or 1 is upper-cased as a whole. */
  function TitleCase(str: Option<string>): (r: Option<string>)
    ensures r.None? <==> str.None?
    ensures r.Some? ==> |r.value| == |str.value|
    ensures r.Some? && |str.value| > 0 ==> r.value[0] == Upper(str.value[0]) && r.value[1..] == str.value[1..]
  {
    match str
    case None => None
    case Some(s) =>
      if |s| > 1 then Some([Upper(s[0])] + s[1..])
      else Some(seq(|s|, i requires 0 <= i < |s| => Upper(s[i])))
  }

  /** Title-casing twice is the same as once. */
  lemma TitleCaseIdempotent(str: Option<string>)
    ensures TitleCase(TitleCase(str)) == TitleCase(str)
  {
    if str.Some? && |str.value| > 0 {
      var t := TitleCase(str).value;
      assert Upper(t[0]) == t[0];
      assert TitleCase(Some(t)).value == t;
    }
  }

  // ---------------------------------------------------------------------------------
  // ArrayExtensions.Arranged
  // ---------------------------------------------------------------------------------

  /** `array.Arranged(newIndices)`: a new array whose entry i is
   *  `array[newIndices[i]]`.  Lengths that differ throw InvalidOperationException;
   *  an index outside the array throws IndexOutOfRangeException. */
  method Arranged<T(0)>(arr: seq<T>, newIndices: seq<int>) returns (r: Result<seq<T>>)
    ensures |arr| != |newIndices| ==> r == Failure(InvalidOperationException)
    ensures |arr| == |newIndices| ==>
      (r.Success? <==> forall i :: 0 <= i < |newIndices| ==> 0 <= newIndices[i] < |arr|)
    ensures |arr| == |newIndices| && r.Failure? ==> r.error == IndexOutOfRangeException
    ensures r.Success? ==> |r.value| == |arr|
    ensures r.Success? ==> forall i :: 0 <= i < |arr| ==> 0 <= newIndices[i] < |arr| && r.value[i] == arr[newIndices[i]]
  {
    if |arr| != |newIndices| {
      return Failure(InvalidOperationException);
    }
    var result := new T[|arr|];
    var i := 0;
    while i < |arr|
      invariant 0 <= i <= |arr|
      invariant forall j :: 0 <= j < i ==> 0 <= newIndices[j] < |arr| && result[j] == arr[newIndices[j]]
    {
      if !(0 <= newIndices[i] < |arr|) {
        return Failure(IndexOutOfRangeException);
      }
      result[i] := arr[newIndices[i]];
      i := i + 1;
    }
    r := Success(result[..]);
  }

  /** Arranging by the indices in reverse order reverses the array. */
  lemma ArrangedReversed<T>(arr: seq<T>, newIndices: seq<int>, r: seq<T>)
    requires |newIndices| == |arr| == |r|
    requires forall i :: 0 <= i < |arr| ==> newIndices[i] == |arr| - 1 - i
    requires forall i :: 0 <= i < |arr| ==> 0 <= newIndices[i] < |arr| && r[i] == arr[newIndices[i]]
    ensures forall i :: 0 <= i < |arr| ==> r[i] == arr[|arr| - 1 - i]
  {
  }

  // ---------------------------------------------------------------------------------
  // CSharpExtensions: sequences
  // ---------------------------------------------------------------------------------

  /** Every item of s, each `count` times in a row. */
  function Repeated<T>(s: seq<T>, count: nat): seq<T>
  {
    if s == [] then [] else Repeated(s[..|s| - 1], count) + seq(count, _ => s[|s| - 1])
  }

  /** The repetition is |s| runs of length count. */
  lemma {:induction false} RepeatedLength<T>(s: seq<T>, count: nat)
    ensures |Repeated(s, count)| == |s| * count
  {
    if s != [] {
      RepeatedLength(s[..|s| - 1], count);
      MulStep(|s|, count);
    }
  }

  lemma MulStep(n: int, c: int)
    ensures (n - 1) * c + c == n * c
  {
  }

  /** Run i of the repetition holds s[i]. */
  lemma {:induction false} RepeatedAt<T>(s: seq<T>, count: nat, i: int, j: int)
    requires 0 <= i < |s| && 0 <= j < count
    ensures i * count + j < |Repeated(s, count)|
    ensures Repeated(s, count)[i * count + j] == s[i]
  {
    var init := s[..|s| - 1];
    RepeatedLength(init, count);
    if i < |init| {
      RepeatedAt(init, count, i, j);
    } else {
      MulStep(|s|, count);
    }
  }

  /** Each value occurs count times as often as in s. */
  lemma {:induction false} RepeatedMultiset<T>(s: seq<T>, count: nat, x: T)
    ensures multiset(Repeated(s, count))[x] == count * multiset(s)[x]
  {
    if s != [] {
      var init, last := s[..|s| - 1], s[|s| - 1];
      RepeatedMultiset(init, count, x);
      var d := if x == last then 1 else 0;
      SnocCounts(s, count, x);
      ScaleStep(count, multiset(init)[x], d);
    }
  }

  /** The last item adds one occurrence to s and count to its repetition. */
  lemma SnocCounts<T>(s: seq<T>, count: nat, x: T)
    requires s != []
    ensures multiset(s)[x] == multiset(s[..|s| - 1])[x] + (if x == s[|s| - 1] then 1 else 0)
    ensures multiset(Repeated(s, count))[x] ==
      multiset(Repeated(s[..|s| - 1], count))[x] + (if x == s[|s| - 1] then count else 0)
  {
    assert s == s[..|s| - 1] + [s[|s| - 1]];
    RunMultiset(s[|s| - 1], count, x);
  }

  lemma ScaleStep(c: int, m: int, d: int)
    requires d == 0 || d == 1
    ensures c * (m + d) == c * m + (if d == 1 then c else 0)
  {
  }

  lemma {:induction false} RunMultiset<T>(v: T, count: nat, x: T)
    ensures multiset(seq(count, _ => v))[x] == if x == v then count else 0
  {
    if count > 0 {
      assert seq(count, _ => v) == seq(count - 1, _ => v) + [v];
      RunMultiset(v, count - 1, x);
    }
  }

  /** `RepeatElementWise(seq, count)`: a negative count throws; otherwise each item
   *  is yielded count times, in order. */
  method RepeatElementWise<T>(s: seq<T>, count: int) returns (r: Result<seq<T>>)
    ensures r.Failure? <==> count < 0
    ensures r.Failure? ==> r.error == ArgumentOutOfRangeException
    ensures r.Success? ==> r.value == Repeated(s, count)
  {
    if count < 0 {
      return Failure(ArgumentOutOfRangeException);
    }
    var out: seq<T> := [];
    var k := 0;
    while k < |s|
      invariant 0 <= k <= |s|
      invariant out == Repeated(s[..k], count)
    {
      var i := 0;
      while i < count
        invariant 0 <= i <= count
        invariant out == Repeated(s[..k], count) + seq(i, _ => s[k])
      {
        out := out + [s[k]];
        i := i + 1;
      }
      assert s[..k + 1][..k] == s[..k];
      k := k + 1;
    }
    assert s[..|s|] == s;
    r := Success(out);
  }

  /** `Zip(seqA, seqB, func)`: a null sequence throws; otherwise func of the pairs
   *  up to the end of the shorter sequence. */
  method Zip<A, B, R>(seqA: Option<seq<A>>, seqB: Option<seq<B>>, func: (A, B) -> R) returns (r: Result<seq<R>>)
    ensures r.Failure? <==> seqA.None? || seqB.None?
    ensures r.Failure? ==> r.error == ArgumentNullException
    ensures r.Success? ==>
      var n := if |seqA.value| < |seqB.value| then |seqA.value| else |seqB.value|;
      |r.value| == n && forall i :: 0 <= i < n ==> r.value[i] == func(seqA.value[i], seqB.value[i])
  {
    if seqA.None? || seqB.None? {
      return Failure(ArgumentNullException);
    }
    var a, b := seqA.value, seqB.value;
    var out: seq<R> := [];
    var i := 0;
    while i < |a| && i < |b|
      invariant 0 <= i <= |a| && i <= |b|
      invariant |out| == i && forall j :: 0 <= j < i ==> out[j] == func(a[j], b[j])
    {
      out := out + [func(a[i], b[i])];
      i := i + 1;
    }
    r := Success(out);
  }

  // ---------------------------------------------------------------------------------
  // Shuffle
  // ---------------------------------------------------------------------------------

  /** s with the entries at i and j exchanged. */
  function Exchange<T>(s: seq<T>, i: int, j: int): (r: seq<T>)
    requires 0 <= i < |s| && 0 <= j < |s|
    ensures |r| == |s|
  {
    s[i := s[j]][j := s[i]]
  }

  lemma ExchangeMultiset<T>(s: seq<T>, i: int, j: int)
    requires 0 <= i < |s| && 0 <= j < |s|
    ensures multiset(Exchange(s, i, j)) == multiset(s)
  {
  }

  /** The Fisher-Yates steps for positions n - 1 down to 1: position p is exchanged
   *  with position `draws[p]`. */
  function FisherYates<T>(s: seq<T>, draws: seq<int>, n: int): (r: seq<T>)
    requires 0 <= n <= |s| && |draws| == |s|
    requires forall p :: 1 <= p < n ==> 0 <= draws[p] <= p
    ensures |r| == |s|
    decreases n
  {
    if n <= 1 then s else FisherYates(Exchange(s, draws[n - 1], n - 1), draws, n - 1)
  }

  /** Whatever is drawn, the shuffle is a permutation. */
  lemma {:induction false} FisherYatesPermutes<T>(s: seq<T>, draws: seq<int>, n: int)
    requires 0 <= n <= |s| && |draws| == |s|
    requires forall p :: 1 <= p < n ==> 0 <= draws[p] <= p
    ensures multiset(FisherYates(s, draws, n)) == multiset(s)
    decreases n
  {
    if n > 1 {
      ExchangeMultiset(s, draws[n - 1], n - 1);
      FisherYatesPermutes(Exchange(s, draws[n - 1], n - 1), draws, n - 1);
    }
  }

  /** The steps leave the positions from n on alone. */
  lemma {:induction false} FisherYatesKeepsTail<T>(s: seq<T>, draws: seq<int>, n: int)
    requires 0 <= n <= |s| && |draws| == |s|
    requires forall p :: 1 <= p < n ==> 0 <= draws[p] <= p
    ensures FisherYates(s, draws, n)[n..] == s[n..]
    decreases n
  {
    if n > 1 {
      FisherYatesKeepsTail(Exchange(s, draws[n - 1], n - 1), draws, n - 1);
    }
  }

  /** `list.Shuffle(rng)`: for n from Count - 1 down to 1, exchange entry n with
   *  entry k, k drawn from [0, n].  `draws[n]` is the k drawn for n. */
  method Shuffle<T>(list: array<T>, draws: seq<int>)
    requires |draws| == list.Length
    requires forall p :: 1 <= p < list.Length ==> 0 <= draws[p] <= p
    modifies list
    ensures list[..] == FisherYates(old(list[..]), draws, list.Length)
    ensures multiset(list[..]) == multiset(old(list[..]))
  {
    var n := list.Length;
    while n > 1
      invariant 0 <= n <= list.Length
      invariant FisherYates(list[..], draws, n) == FisherYates(old(list[..]), draws, list.Length)
    {
      n := n - 1;
      var k := draws[n];
      var value := list[k];
      list[k] := list[n];
      list[n] := value;
    }
    FisherYatesPermutes(old(list[..]), draws, list.Length);
  }

  // ---------------------------------------------------------------------------------
  // LinkedList: RemoveIf and Find
  // ---------------------------------------------------------------------------------

  /** The items of s that do not satisfy p, in order. */
  function Without<T>(s: seq<T>, p: T -> bool): (r: seq<T>)
    ensures |r| <= |s|
  {
    if s == [] then [] else
      var init, x := s[..|s| - 1], s[|s| - 1];
      if p(x) then Without(init, p) else Without(init, p) + [x]
  }

  /** Exactly the items that do not satisfy p are kept. */
  lemma {:induction false} WithoutMembers<T>(s: seq<T>, p: T -> bool, x: T)
    ensures x in Without(s, p) <==> x in s && !p(x)
  {
    if s != [] {
      var init := s[..|s| - 1];
      assert s == init + [s[|s| - 1]];
      WithoutMembers(init, p, x);
    }
  }

  /** Removing again removes nothing more. */
  lemma {:induction false} WithoutIdempotent<T>(s: seq<T>, p: T -> bool)
    ensures Without(Without(s, p), p) == Without(s, p)
  {
    if s != [] {
      var init, x := s[..|s| - 1], s[|s| - 1];
      WithoutIdempotent(init, p);
      if !p(x) {
        var w := Without(init, p);
        assert (w + [x])[..|w + [x]| - 1] == w;
      }
    }
  }

  lemma WithoutSnoc<T>(s: seq<T>, x: T, p: T -> bool)
    ensures Without(s + [x], p) == if p(x) then Without(s, p) else Without(s, p) + [x]
  {
    assert (s + [x])[..|s|] == s;
  }

  /** One step of `RemoveIf`: the node at i is the next original value; it is
   *  unlinked when the predicate holds, and kept otherwise. */
  lemma RemoveIfStep<T>(orig: seq<T>, seen: nat, pred: T -> bool, values: seq<T>, i: nat)
    requires seen < |orig| && values == Without(orig[..seen], pred) + orig[seen..]
    requires i == |Without(orig[..seen], pred)|
    ensures i < |values| && values[i] == orig[seen]
    ensures pred(orig[seen]) ==>
      values[..i] + values[i + 1..] == Without(orig[..seen + 1], pred) + orig[seen + 1..] &&
      i == |Without(orig[..seen + 1], pred)|
    ensures !pred(orig[seen]) ==>
      values == Without(orig[..seen + 1], pred) + orig[seen + 1..] &&
      i + 1 == |Without(orig[..seen + 1], pred)|
  {
    WithoutSnoc(orig[..seen], orig[seen], pred);
    assert orig[..seen + 1] == orig[..seen] + [orig[seen]];
    var w := Without(orig[..seen], pred);
    assert values[..i] == w;
    assert values[i + 1..] == orig[seen + 1..];
  }

  /** A `LinkedList<T>`: the values of its nodes, first to last. */
  class LinkedList<T> {
    var values: seq<T>

    constructor (items: seq<T>)
      ensures values == items
    {
      values := items;
    }

    /** `RemoveIf(predicate)`: walks the nodes, unlinking each one whose value
     *  satisfies the predicate. */
    method RemoveIf(pred: T -> bool)
      modifies this
      ensures values == Without(old(values), pred)
    {
      if |values| == 0 {
        return;
      }
      ghost var orig := values;
      var i := 0;
      ghost var seen := 0;
      while i < |values|
        invariant 0 <= seen <= |orig|
        invariant values == Without(orig[..seen], pred) + orig[seen..]
        invariant i == |Without(orig[..seen], pred)|
        decreases |values| - i
      {
        RemoveIfStep(orig, seen, pred, values, i);
        if pred(values[i]) {
          values := values[..i] + values[i + 1..];
        } else {
          i := i + 1;
        }
        seen := seen + 1;
      }
      assert orig[..seen] == orig;
    }

    /** `Find(predicate)`: the first node whose value satisfies the predicate, or
     *  null. */
    method Find(pred: T -> bool) returns (r: Option<nat>)
      ensures r.Some? ==> r.value < |values| && pred(values[r.value])
      ensures r.Some? ==> forall k :: 0 <= k < r.value ==> !pred(values[k])
      ensures r.None? ==> forall k :: 0 <= k < |values| ==> !pred(values[k])
    {
      var it := 0;
      while it < |values|
        invariant 0 <= it <= |values|
        invariant forall k :: 0 <= k < it ==> !pred(values[k])
      {
        if pred(values[it]) {
          return Some(it);
        }
        it := it + 1;
      }
      r := None;
    }
  }

  // ---------------------------------------------------------------------------------
  // BinarySearch
  // ---------------------------------------------------------------------------------

  /** The keys never decrease along the list. */
  predicate SortedBy<T>(list: seq<T>, keyOf: T -> int)
  {
    forall i, j :: 0 <= i < j < |list| ==> keyOf(list[i]) <= keyOf(list[j])
  }

  /** `~i`, the complement of an index. */
  function Complement(i: int): int
  {
    -i - 1
  }

  /** j is where key would be inserted: every key before it is smaller and every
   *  key from it on is larger. */
  predicate InsertionPoint<T>(list: seq<T>, keyOf: T -> int, key: int, j: int)
  {
    0 <= j <= |list| &&
    (forall k :: 0 <= k < j ==> keyOf(list[k]) < key) &&
    (forall k :: j <= k < |list| ==> keyOf(list[k]) > key)
  }

  /** The search loop from the bounds `min`, `max`, and what follows it, as written. */
  function SearchAsWritten<T>(list: seq<T>, keyOf: T -> int, key: int, min: int, max: int): (r: Result<int>)
    requires 0 <= min <= max + 1 && max < |list|
    decreases max - min
  {
    if min < max then
      var mid := min + (max - min) / 2;
      var midKey := keyOf(list[mid]);
      if midKey < key then SearchAsWritten(list, keyOf, key, mid + 1, max)
      else if midKey > key then SearchAsWritten(list, keyOf, key, min, mid - 1)
      else Success(mid)
    else if min == max then
      var k := keyOf(list[min]);
      if k == key then Success(min)
      else if k > key then Success(Complement(min))
      else Success(Complement(min + 1))
    else
      Failure(InvalidOperationException)
  }

  /** `list.BinarySearch(keySelector, key)` as written: an empty list throws, and
   *  so does a search whose bounds cross. */
  function BinarySearchAsWritten<T>(list: seq<T>, keyOf: T -> int, key: int): Result<int>
  {
    if |list| == 0 then Failure(InvalidOperationException)
    else SearchAsWritten(list, keyOf, key, 0, |list| - 1)
  }

  /** r, when it is a value, is an index holding the key or the complement of
   *  the insertion point. */
  predicate Answers<T>(list: seq<T>, keyOf: T -> int, key: int, r: Result<int>)
  {
    r.Success? ==>
      (r.value >= 0 ==> r.value < |list| && keyOf(list[r.value]) == key) &&
      (r.value < 0 ==> InsertionPoint(list, keyOf, key, Complement(r.value)))
  }

  /** When the search as written returns, its answer is right. */
  lemma {:induction false} SearchAsWrittenSound<T>(list: seq<T>, keyOf: T -> int, key: int, min: int, max: int)
    requires SortedBy(list, keyOf)
    requires 0 <= min <= max + 1 && max < |list|
    requires forall k :: 0 <= k < min ==> keyOf(list[k]) < key
    requires forall k :: max < k < |list| ==> keyOf(list[k]) > key
    ensures Answers(list, keyOf, key, SearchAsWritten(list, keyOf, key, min, max))
    decreases max - min
  {
    if min < max {
      var mid := min + (max - min) / 2;
      if keyOf(list[mid]) < key {
        SmallerBefore(list, keyOf, key, mid);
        SearchAsWrittenSound(list, keyOf, key, mid + 1, max);
      } else if keyOf(list[mid]) > key {
        LargerAfter(list, keyOf, key, mid);
        SearchAsWrittenSound(list, keyOf, key, min, mid - 1);
      }
    } else if min == max {
      SearchLastCandidate(list, keyOf, key, min);
    }
  }

  /** In a sorted list, a key below `key` has only smaller keys before it. */
  lemma SmallerBefore<T>(list: seq<T>, keyOf: T -> int, key: int, mid: int)
    requires SortedBy(list, keyOf) && 0 <= mid < |list| && keyOf(list[mid]) < key
    ensures forall k :: 0 <= k <= mid ==> keyOf(list[k]) < key
  {
  }

  /** In a sorted list, a key above `key` has only larger keys after it. */
  lemma LargerAfter<T>(list: seq<T>, keyOf: T -> int, key: int, mid: int)
    requires SortedBy(list, keyOf) && 0 <= mid < |list| && keyOf(list[mid]) > key
    ensures forall k :: mid <= k < |list| ==> keyOf(list[k]) > key
  {
  }

  /** With one candidate left, its key decides: the index, or the complement of
   *  the place before or after it. */
  lemma SearchLastCandidate<T>(list: seq<T>, keyOf: T -> int, key: int, m: int)
    requires SortedBy(list, keyOf) && 0 <= m < |list|
    requires forall k :: 0 <= k < m ==> keyOf(list[k]) < key
    requires forall k :: m < k < |list| ==> keyOf(list[k]) > key
    ensures keyOf(list[m]) > key ==> InsertionPoint(list, keyOf, key, m)
    ensures keyOf(list[m]) < key ==> InsertionPoint(list, keyOf, key, m + 1)
  {
  }

  /** The search as written throws on a sorted list whose answer is a complement:
   *  in [5, 10], looking for 3, the upper bound drops below the lower one. */
  lemma BinarySearchThrows()
    ensures BinarySearchAsWritten([5, 10], x => x, 3) == Failure(InvalidOperationException)
    ensures SortedBy([5, 10], x => x) && InsertionPoint([5, 10], x => x, 3, 0)
  {
    assert SearchAsWritten([5, 10], x => x, 3, 0, 1) == SearchAsWritten([5, 10], x => x, 3, 0, -1);
  }

  /** `BinarySearch` with the crossed-bounds case returning `~min`: an empty list
   *  throws; otherwise the result is an index holding the key, or the complement
   *  of the insertion point. */
  method BinarySearch<T>(list: seq<T>, keyOf: T -> int, key: int) returns (r: Result<int>)
    requires SortedBy(list, keyOf)
    ensures r.Failure? <==> |list| == 0
    ensures r.Failure? ==> r.error == InvalidOperationException
    ensures r.Success? && r.value >= 0 ==> r.value < |list| && keyOf(list[r.value]) == key
    ensures r.Success? && r.value < 0 ==> InsertionPoint(list, keyOf, key, Complement(r.value))
  {
    if |list| == 0 {
      return Failure(InvalidOperationException);
    }
    var min := 0;
    var max := |list| - 1;
    while min < max
      invariant 0 <= min <= max + 1 && max < |list|
      invariant forall k :: 0 <= k < min ==> keyOf(list[k]) < key
      invariant forall k :: max < k < |list| ==> keyOf(list[k]) > key
    {
      var mid := min + (max - min) / 2;
      var midKey := keyOf(list[mid]);
      if midKey < key {
        min := mid + 1;
      } else if midKey > key {
        max := mid - 1;
      } else {
        return Success(mid);
      }
    }
    if min == max {
      var cmp := keyOf(list[min]);
      if cmp == key {
        return Success(min);
      } else if cmp > key {
        return Success(Complement(min));
      } else {
        return Success(Complement(min + 1));
      }
    }
    r := Success(Complement(min));
  }

  /** A key in the list is always found, and a complement means it is absent. */
  lemma InsertionPointAbsent<T>(list: seq<T>, keyOf: T -> int, key: int, j: int)
    requires InsertionPoint(list, keyOf, key, j)
    ensures forall k :: 0 <= k < |list| ==> keyOf(list[k]) != key
  {
  }

  // ---------------------------------------------------------------------------------
  // AppendOrNewList
  // ---------------------------------------------------------------------------------

  /** A `Dictionary<K, List<V>>`. */
  class ListMap<K(==), V> {
    var entries: map<K, seq<V>>

    constructor ()
      ensures entries == map[]
    {
      entries := map[];
    }

    /** `AppendOrNewList(key, value)`: appends value to the key's list, adding an
     *  empty list for a new key first; other keys keep their lists. */
    method AppendOrNewList(key: K, value: V)
      modifies this
      ensures key in entries
      ensures entries[key] == (if key in old(entries) then old(entries)[key] else []) + [value]
      ensures forall k :: k != key ==> (k in entries <==> k in old(entries))
      ensures forall k :: k != key && k in entries ==> entries[k] == old(entries)[k]
    {
      var values: seq<V>;
      if key !in entries {
        values := [];
        entries := entries[key := values];
      }
      values := entries[key];
      entries := entries[key := values + [value]];
    }
  }
}
