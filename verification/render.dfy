/** The strings the digest and the stage recorder produce: JavaScript's
    `Number.prototype.toString(radix)` for a non-negative integer,
    `String.prototype.padStart` with `"0"`, `slice(-k)`, and the lowercase
    hexadecimal rendering of the digest bytes. */
module Md5Render {

  /** The digit for d: `0`-`9`, then lowercase `a`-`f`. */
  function DigitChar(d: nat): (c: char)
    requires d < 16
    ensures IsHexChar(c)
  {
    if d < 10 then ('0' as int + d) as char else ('a' as int + d - 10) as char
  }

  /** A lowercase hexadecimal digit. */
  predicate IsHexChar(c: char)
  {
    '0' <= c <= '9' || 'a' <= c <= 'f'
  }

  /** Every character of s is a lowercase hexadecimal digit. */
  predicate AllHex(s: string)
  {
    forall i :: 0 <= i < |s| ==> IsHexChar(s[i])
  }

  /** The value of a digit. */
  function DigitValue(c: char): nat
  {
    if '0' <= c <= '9' then c as int - '0' as int
    else if 'a' <= c <= 'f' then c as int - 'a' as int + 10
    else 0
  }

  lemma DigitValueOfChar(d: nat)
    requires d < 16
    ensures DigitValue(DigitChar(d)) == d
  {
  }

  /** b to the power k. */
  function Pow(b: nat, k: nat): nat
  {
    if k == 0 then 1 else b * Pow(b, k - 1)
  }

  lemma MulSwap(a: int, b: int, c: int)
    ensures a * (b * c) == b * (a * c)
  {
  }

  lemma Horner(x: int, p: int, y: int, r: int, d: int)
    ensures (x * p + y) * r + d == x * (p * r) + (y * r + d)
  {
  }

  lemma {:induction false} PowAdd(b: nat, i: nat, j: nat)
    ensures Pow(b, i + j) == Pow(b, i) * Pow(b, j)
    decreases j
  {
    if j > 0 {
      PowAdd(b, i, j - 1);
      assert Pow(b, i + j) == b * Pow(b, i + j - 1);
      MulSwap(b, Pow(b, i), Pow(b, j - 1));
    }
  }

  lemma PowValues()
    ensures Pow(2, 8) == 256 && Pow(2, 32) == 0x1_0000_0000
    ensures Pow(16, 2) == 256 && Pow(16, 8) == 0x1_0000_0000
  {
    assert Pow(2, 4) == 16;
    PowAdd(2, 4, 4);
    PowAdd(2, 8, 8);
    PowAdd(2, 16, 16);
    assert Pow(16, 2) == 256;
    PowAdd(16, 2, 2);
    PowAdd(16, 4, 4);
  }

  /** `n.toString(radix)`: the digits of n, most significant first, with no
      leading zero ("0" for zero). */
  function ToRadix(n: nat, radix: nat): (s: string)
    requires radix == 2 || radix == 16
    ensures 1 <= |s|
    ensures forall i :: 0 <= i < |s| ==> IsHexChar(s[i]) && DigitValue(s[i]) < radix
    ensures |s| == 1 || s[0] != '0'
    decreases n
  {
    if n < radix then [DigitChar(n)] else ToRadix(n / radix, radix) + [DigitChar(n % radix)]
  }

  /** The number a string of digits stands for in the given radix. */
  function ParseRadix(s: string, radix: nat): nat
    requires radix == 2 || radix == 16
  {
    if s == [] then 0 else ParseRadix(s[..|s| - 1], radix) * radix + DigitValue(s[|s| - 1])
  }

  /** Reading the digits of n back gives n. */
  lemma {:induction false} ParseToRadix(n: nat, radix: nat)
    requires radix == 2 || radix == 16
    ensures ParseRadix(ToRadix(n, radix), radix) == n
    decreases n
  {
    var s := ToRadix(n, radix);
    if n < radix {
      DigitValueOfChar(n);
    } else {
      ParseToRadix(n / radix, radix);
      DigitValueOfChar(n % radix);
      assert s[..|s| - 1] == ToRadix(n / radix, radix);
    }
  }

  /** A number below radix^k has at most k digits. */
  lemma {:induction false} ToRadixLength(n: nat, radix: nat, k: nat)
    requires (radix == 2 || radix == 16) && 1 <= k && n < Pow(radix, k)
    ensures |ToRadix(n, radix)| <= k
    decreases n
  {
    assert Pow(radix, 1) == radix;
    if n >= radix {
      assert n / radix < Pow(radix, k - 1) by {
        assert Pow(radix, k) == radix * Pow(radix, k - 1);
      }
      ToRadixLength(n / radix, radix, k - 1);
    }
  }

  /** k copies of c. */
  function Repeat(c: char, k: nat): (s: string)
    ensures |s| == k && forall i :: 0 <= i < k ==> s[i] == c
  {
    if k == 0 then [] else [c] + Repeat(c, k - 1)
  }

  /** `s.padStart(width, fill)`: fill characters in front of s up to the width. */
  function PadStart(s: string, width: nat, fill: char): (r: string)
    ensures |r| == if |s| < width then width else |s|
  {
    if |s| < width then Repeat(fill, width - |s|) + s else s
  }

  /** `s.slice(-k)`: the last k characters of s, or all of s when it is
      shorter. For k = 0 JavaScript reads `-0` as `0` and returns all of s,
      so only positive k follow this rule. */
  function SliceLast(s: string, k: nat): (r: string)
    requires k > 0
    ensures |r| == if |s| < k then |s| else k
    ensures r == s[|s| - |r|..]
  {
    if |s| <= k then s else s[|s| - k..]
  }

  lemma {:induction false} ParseAppend(x: string, y: string, radix: nat)
    requires radix == 2 || radix == 16
    ensures ParseRadix(x + y, radix) == ParseRadix(x, radix) * Pow(radix, |y|) + ParseRadix(y, radix)
    decreases |y|
  {
    if y == [] {
      assert x + y == x;
    } else {
      var y' := y[..|y| - 1];
      assert (x + y)[..|x + y| - 1] == x + y';
      ParseAppend(x, y', radix);
      assert Pow(radix, |y|) == Pow(radix, |y'|) * radix;
      Horner(ParseRadix(x, radix), Pow(radix, |y'|), ParseRadix(y', radix), radix, DigitValue(y[|y| - 1]));
    }
  }

  lemma {:induction false} ParseZeros(k: nat, radix: nat)
    requires radix == 2 || radix == 16
    ensures ParseRadix(Repeat('0', k), radix) == 0
  {
    if k > 0 {
      var z := Repeat('0', k);
      assert z == Repeat('0', k - 1) + ['0'];
      ParseAppend(Repeat('0', k - 1), ['0'], radix);
      ParseZeros(k - 1, radix);
      assert ParseRadix(['0'], radix) == ParseRadix([], radix) * radix + 0;
    }
  }

  /** Leading zeros do not change the value. */
  lemma ParsePadStart(s: string, width: nat, radix: nat)
    requires radix == 2 || radix == 16
    ensures ParseRadix(PadStart(s, width, '0'), radix) == ParseRadix(s, radix)
  {
    if |s| < width {
      var z := Repeat('0', width - |s|);
      assert PadStart(s, width, '0') == z + s;
      ParseAppend(z, s, radix);
      ParseZeros(width - |s|, radix);
      assert ParseRadix(z, radix) * Pow(radix, |s|) == 0;
    }
  }

  /** n in the radix, padded with zeros to the width. */
  function Padded(n: nat, radix: nat, width: nat): string
    requires radix == 2 || radix == 16
  {
    PadStart(ToRadix(n, radix), width, '0')
  }

  /** A number below radix^width comes out as exactly width digits, all of them
      lowercase hexadecimal characters, which read back as the number. */
  lemma PaddedExact(n: nat, radix: nat, width: nat)
    requires (radix == 2 || radix == 16) && 1 <= width && n < Pow(radix, width)
    ensures var s := Padded(n, radix, width);
      |s| == width && ParseRadix(s, radix) == n
      && forall i :: 0 <= i < |s| ==> IsHexChar(s[i]) && DigitValue(s[i]) < radix
  {
    ToRadixLength(n, radix, width);
    ParseToRadix(n, radix);
    ParsePadStart(ToRadix(n, radix), width, radix);
    var t := ToRadix(n, radix);
    var s := Padded(n, radix, width);
    if |t| < width {
      forall i | 0 <= i < |s|
        ensures IsHexChar(s[i]) && DigitValue(s[i]) < radix
      {
        if i >= width - |t| {
          assert s[i] == t[i - (width - |t|)];
        }
      }
    }
  }

  /** `b.toString(16).padStart(2, "0")` for every byte, joined. */
  function HexBytes(bytes: seq<bv8>): string
  {
    if bytes == [] then [] else Padded(bytes[0] as int, 16, 2) + HexBytes(bytes[1..])
  }

  /** Each byte comes out as two lowercase hexadecimal characters, in order,
      which read back as the byte. */
  lemma {:induction false} HexBytesLayout(bytes: seq<bv8>)
    ensures var s := HexBytes(bytes);
      |s| == 2 * |bytes|
      && (forall i :: 0 <= i < |s| ==> IsHexChar(s[i]))
      && forall k :: 0 <= k < |bytes| ==> ParseRadix(s[2 * k..2 * k + 2], 16) == bytes[k] as int
    decreases |bytes|
  {
    if bytes != [] {
      PowValues();
      PaddedExact(bytes[0] as int, 16, 2);
      HexBytesLayout(bytes[1..]);
      var s := HexBytes(bytes);
      var head := Padded(bytes[0] as int, 16, 2);
      var rest := HexBytes(bytes[1..]);
      assert s == head + rest;
      forall k | 0 <= k < |bytes|
        ensures ParseRadix(s[2 * k..2 * k + 2], 16) == bytes[k] as int
      {
        if k == 0 {
          assert s[0..2] == head;
        } else {
          assert s[2 * k..2 * k + 2] == rest[2 * (k - 1)..2 * (k - 1) + 2];
        }
      }
    }
  }

  /** `x.toString(radix)` for any integer: a minus sign in front of the digits
      of a negative number. */
  function SignedRadix(x: int, radix: nat): string
    requires radix == 2 || radix == 16
  {
    if x < 0 then "-" + ToRadix(-x, radix) else ToRadix(x, radix)
  }

  /** `x.toString(16).padStart(8, "0").slice(-8)`. */
  function HexTail8(x: int): string
  {
    SliceLast(PadStart(SignedRadix(x, 16), 8, '0'), 8)
  }

  /** A number in [0, 2^32) comes out of `HexTail8` as its eight hexadecimal
      digits, nothing cut off. */
  lemma HexTail8Exact(x: int)
    requires 0 <= x < 0x1_0000_0000
    ensures var s := HexTail8(x);
      |s| == 8 && ParseRadix(s, 16) == x && forall i :: 0 <= i < |s| ==> IsHexChar(s[i])
  {
    PowValues();
    PaddedExact(x, 16, 8);
    assert HexTail8(x) == Padded(x, 16, 8);
  }

  /** A binary digit. */
  predicate IsBinaryChar(c: char)
  {
    c == '0' || c == '1'
  }

  /** A number below 2^width comes out of `toString(2).padStart(width, "0")` as
      exactly width binary digits that read back as the number. */
  lemma BinaryExact(n: nat, width: nat)
    requires 1 <= width && n < Pow(2, width)
    ensures var s := Padded(n, 2, width);
      |s| == width && ParseRadix(s, 2) == n && forall i :: 0 <= i < |s| ==> IsBinaryChar(s[i])
  {
    PaddedExact(n, 2, width);
  }
}
