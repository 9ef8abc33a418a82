/**
 * The colour hex codec of `UnityUtil`: `ToHex` writes a `Color32` as eight
 * upper-case hex digits, and `StrToColor` reads a colour name or such a code
 * back.  Strings are sequences of UTF-16 code units (`char`).
 */
module Colors {
  import opened Wrappers

  /** An unsigned 8-bit channel. */
  type Byte = x: int | 0 <= x < 256

  /** Unity's `Color32`: red, green, blue and alpha bytes. */
  datatype Color32 = Color32(r: Byte, g: Byte, b: Byte, a: Byte)

  /** What `StrToColor` yields: one of the colours Unity names (their float
   *  values are not part of this model), or four parsed bytes. */
  datatype Parsed = Named(name: string) | Rgba(color: Color32)

  /** The names looked up before any hex parsing. */
  const BuiltInNames: set<string> :=
    {"black", "white", "red", "yellow", "magenta", "blue", "clear", "grey", "gray", "green", "cyan"}

  /** A digit as `ToString("X2")` writes it: 0-9, then upper-case A-F. */
  predicate IsUpperHex(c: char)
  {
    '0' <= c <= '9' || 'A' <= c <= 'F'
  }

  function UpperDigit(v: nat): (c: char)
    requires v < 16
    ensures IsUpperHex(c)
  {
    if v < 10 then ('0' as int + v) as char else ('A' as int + v - 10) as char
  }

  /** The value of a hex digit of either case. */
  function HexValue(c: char): (v: Option<nat>)
    ensures v.Some? ==> v.value < 16
    ensures v.Some? <==> ('0' <= c <= '9' || 'a' <= c <= 'f' || 'A' <= c <= 'F')
  {
    if '0' <= c <= '9' then Some(c as int - '0' as int)
    else if 'a' <= c <= 'f' then Some(c as int - 'a' as int + 10)
    else if 'A' <= c <= 'F' then Some(c as int - 'A' as int + 10)
    else None
  }

  /** The white space .NET number parsing skips: tab to carriage return, and space. */
  predicate IsWhite(c: char)
  {
    c == ' ' || '\t' <= c <= '\r'
  }

  /** `b.ToString("X2")`. */
  function ByteToHex(b: Byte): (s: string)
    ensures |s| == 2 && IsUpperHex(s[0]) && IsUpperHex(s[1])
  {
    [UpperDigit(b / 16), UpperDigit(b % 16)]
  }

  /** The two digits of `ByteToHex(b)` are worth b / 16 and b % 16. */
  lemma ByteToHexDigits(b: Byte)
    ensures HexValue(ByteToHex(b)[0]) == Some(b / 16)
    ensures HexValue(ByteToHex(b)[1]) == Some(b % 16)
  {
  }

  /** `ToHex`: eight upper-case hex digits, two each for r, g, b and a. */
  function ToHex(c: Color32): (s: string)
    ensures |s| == 8
    ensures forall i :: 0 <= i < 8 ==> IsUpperHex(s[i])
  {
    ByteToHex(c.r) + ByteToHex(c.g) + ByteToHex(c.b) + ByteToHex(c.a)
  }

  /** `s.Replace(pattern, "")`: every occurrence, found left to right in the
   *  original string without overlapping, is dropped; the result is not
   *  scanned again. */
  function RemoveAll(s: string, pattern: string): (r: string)
    requires |pattern| > 0
    ensures |r| <= |s|
    decreases |s|
  {
    if |s| < |pattern| then s
    else if s[..|pattern|] == pattern then RemoveAll(s[|pattern|..], pattern)
    else [s[0]] + RemoveAll(s[1..], pattern)
  }

  /** A string lacking one of the pattern's characters is left as it is. */
  lemma {:induction false} RemoveAllAbsent(s: string, pattern: string, k: nat)
    requires k < |pattern| && pattern[k] !in s
    ensures RemoveAll(s, pattern) == s
    decreases |s|
  {
    if |s| >= |pattern| {
      assert s[..|pattern|][k] == s[k];
      RemoveAllAbsent(s[1..], pattern, k);
      assert s == [s[0]] + s[1..];
    }
  }

  /** Removal is not repeated on the result: a "0x" can be left behind. */
  lemma RemoveAllOnePass()
    ensures RemoveAll("00xx", "0x") == "0x"
  {
    var s := "00xx";
    assert s[..2] == ['0', '0'];
    assert s[1..][..2] == ['0', 'x'];
    assert s[1..][2..] == ['x'];
  }

  /** `ToLower()` on the ASCII letters. */
  function LowerChar(c: char): char
  {
    if 'A' <= c <= 'Z' then (c as int - 'A' as int + 'a' as int) as char else c
  }

  function ToLower(s: string): (r: string)
    ensures |r| == |s|
    ensures forall i :: 0 <= i < |r| ==> !('A' <= r[i] <= 'Z')
    ensures forall i :: 0 <= i < |r| && !('A' <= s[i] <= 'Z') ==> r[i] == s[i]
  {
    seq(|s|, i requires 0 <= i < |s| => LowerChar(s[i]))
  }

  /** Lowering keeps the value of every hex digit. */
  lemma LowerKeepsHex(c: char)
    ensures HexValue(LowerChar(c)) == HexValue(c)
  {
  }

  /** `byte.Parse(s, NumberStyles.HexNumber)` for the two-character pieces
   *  `StrToColor` cuts: one or two hex digits with white space around them. */
  function ParseHexByte(s: string): (r: Result<Byte>)
    requires |s| == 2
    ensures r.Success? ==> forall i :: 0 <= i < 2 ==> HexValue(s[i]).Some? || IsWhite(s[i])
    ensures r.Success? ==> HexValue(s[0]).Some? || HexValue(s[1]).Some?
    ensures r.Failure? ==> r.error == FormatException
  {
    match (HexValue(s[0]), HexValue(s[1]))
    case (Some(hi), Some(lo)) => Success(16 * hi + lo)
    case (Some(d), None) => if IsWhite(s[1]) then Success(d) else Failure(FormatException)
    case (None, Some(d)) => if IsWhite(s[0]) then Success(d) else Failure(FormatException)
    case (None, None) => Failure(FormatException)
  }

  /** The byte's two digits, of either case, parse back to it. */
  lemma ParseByteToHex(b: Byte)
    ensures ParseHexByte(ByteToHex(b)) == Success(b)
    ensures ParseHexByte(ToLower(ByteToHex(b))) == Success(b)
  {
    var s := ByteToHex(b);
    ByteToHexDigits(b);
    LowerKeepsHex(s[0]);
    LowerKeepsHex(s[1]);
    assert ToLower(s)[0] == LowerChar(s[0]) && ToLower(s)[1] == LowerChar(s[1]);
  }

  /** The code `StrToColor` works on: every "0x" and "#" removed, then lowered. */
  function Normalize(code: string): (c: string)
    ensures |c| <= |code|
  {
    ToLower(RemoveAll(RemoveAll(code, "0x"), "#"))
  }

  /** `StrToColor(code)`: a built-in name, or bytes parsed from characters 0-1,
   *  2-3 and 4-5, with alpha from 6-7 when there are exactly eight characters
   *  and 255 otherwise.  The pieces are cut and parsed in order, so the first
   *  piece that is missing (`Substring` out of range) or malformed decides
   *  the exception. */
  function StrToColor(code: string): (r: Result<Parsed>)
    ensures var c := Normalize(code);
      (c in BuiltInNames ==> r == Success(Named(c))) &&
      (c !in BuiltInNames && |c| < 6 ==> r.Failure?) &&
      (r.Success? && r.value.Rgba? ==> 6 <= |c| && (|c| != 8 ==> r.value.color.a == 255)) &&
      (r.Success? && r.value.Rgba? ==> forall i :: 0 <= i < 6 ==> HexValue(c[i]).Some? || IsWhite(c[i])) &&
      (r.Success? && r.value.Rgba? && |c| == 8 ==> forall i :: 6 <= i < 8 ==> HexValue(c[i]).Some? || IsWhite(c[i]))
  {
    var c := Normalize(code);
    if c in BuiltInNames then Success(Named(c))
    else if |c| < 2 then Failure(ArgumentOutOfRangeException)
    else
      var r :- ParseHexByte(c[0..2]);
      if |c| < 4 then Failure(ArgumentOutOfRangeException)
      else
        var g :- ParseHexByte(c[2..4]);
        if |c| < 6 then Failure(ArgumentOutOfRangeException)
        else
          var b :- ParseHexByte(c[4..6]);
          if |c| == 8 then
            var a :- ParseHexByte(c[6..8]);
            Success(Rgba(Color32(r, g, b, a)))
          else Success(Rgba(Color32(r, g, b, 255)))
  }

  /** Upper-case hex digits contain neither "x" nor "#". */
  lemma NoMarks(s: string)
    requires forall i :: 0 <= i < |s| ==> IsUpperHex(s[i])
    ensures 'x' !in s && '#' !in s
  {
    forall i | 0 <= i < |s|
      ensures s[i] != 'x' && s[i] != '#'
    {
      assert IsUpperHex(s[i]);
    }
  }

  /** `ToHex` output is its own normal form: it holds neither "x" nor "#". */
  lemma NormalizeToHex(c: Color32)
    ensures Normalize(ToHex(c)) == ToLower(ToHex(c))
  {
    var s := ToHex(c);
    NoMarks(s);
    RemoveAllAbsent(s, "0x", 1);
    RemoveAllAbsent(s, "#", 0);
  }

  /** Parsing what `ToHex` writes gives back the same four bytes. */
  lemma RoundTrip(c: Color32)
    ensures StrToColor(ToHex(c)) == Success(Rgba(c))
  {
    var s := ToHex(c);
    NormalizeToHex(c);
    var low := ToLower(s);
    assert low !in BuiltInNames by {
      assert |low| == 8;
    }
    assert low[0..2] == ToLower(ByteToHex(c.r));
    assert low[2..4] == ToLower(ByteToHex(c.g));
    assert low[4..6] == ToLower(ByteToHex(c.b));
    assert low[6..8] == ToLower(ByteToHex(c.a));
    ParseByteToHex(c.r);
    ParseByteToHex(c.g);
    ParseByteToHex(c.b);
    ParseByteToHex(c.a);
  }

  /** A "#RRGGBB" code, the first six digits of `ToHex`, gives the colour
   *  fully opaque. */
  lemma SixDigitsOpaque(c: Color32)
    ensures StrToColor("#" + ToHex(c)[..6]) == Success(Rgba(Color32(c.r, c.g, c.b, 255)))
  {
    var s := ToHex(c)[..6];
    NoMarks(s);
    assert 'x' !in "#" + s by {
      assert "#" + s == ['#'] + s;
    }
    RemoveAllAbsent("#" + s, "0x", 1);
    assert RemoveAll("#" + s, "#") == s by {
      assert ("#" + s)[..1] == "#";
      assert ("#" + s)[1..] == s;
      RemoveAllAbsent(s, "#", 0);
    }
    var low := ToLower(s);
    assert low !in BuiltInNames by {
      assert |low| == 6;
    }
    assert low[0..2] == ToLower(ByteToHex(c.r));
    assert low[2..4] == ToLower(ByteToHex(c.g));
    assert low[4..6] == ToLower(ByteToHex(c.b));
    ParseByteToHex(c.r);
    ParseByteToHex(c.g);
    ParseByteToHex(c.b);
  }
}
