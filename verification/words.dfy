/** 32-bit word arithmetic of the digest: the four nonlinear round functions,
    rotation, the source's unsigned 32-bit addition, and little-endian
    packing of bytes into words.

    The source computes on JavaScript numbers. Every bitwise operator reads
    the low 32 bits of its operands, and `unsigned32Add` reduces its
    arguments and its result modulo 2^32. The model keeps a register or
    message word as the `bv32` holding those 32 bits; `Val` reads it back as
    the number in [0, 2^32) and `ToWord` takes the low 32 bits of a number. */
module Md5Words {

  /** 2^32. */
  const M: int := 0x1_0000_0000

  datatype Result<T> = Ok(value: T) | Err(message: string)

  /** `x >>> 0` on an integer-valued number. */
  function ToUint32(x: int): (r: nat)
    ensures r < M
  {
    x % M
  }

  // ---------------------------------------------------------------------------
  // Bytes, words and numbers
  // ---------------------------------------------------------------------------

  /** The number in [0, 2^32) that a word stands for. */
  function Val(w: bv32): (n: nat)
    ensures n < M
  {
    w as int
  }

  /** The numbers that bits, bytes, half-words and the wider sums below
      stand for. */
  function Val1(b: bv1): nat { b as int }
  function Val2(b: bv2): nat { b as int }
  function Val4(b: bv4): nat { b as int }
  function Val8(b: bv8): nat { b as int }
  function Val16(w: bv16): nat { w as int }
  function Val33(w: bv33): nat { w as int }
  function Val34(w: bv34): nat { w as int }

  /** One message word of `getChunk`: four bytes shifted into place and OR-ed. */
  function Word(b0: bv8, b1: bv8, b2: bv8, b3: bv8): bv32
  {
    (b0 as bv32 << 0) | (b1 as bv32 << 8) | (b2 as bv32 << 16) | (b3 as bv32 << 24)
  }

  /** The lowest bit of a number. */
  function Bit(x: int): bv1
  {
    if x % 2 == 1 then 1 else 0
  }

  /** The low 2, 4 and 8 bits of a number, the last being `x & 0xff`. */
  function Low2(x: int): bv2
  {
    (Bit(x) as bv2) | ((Bit(x / 2) as bv2) << 1)
  }

  function Low4(x: int): bv4
  {
    (Low2(x) as bv4) | ((Low2(x / 4) as bv4) << 2)
  }

  function Low8(x: int): bv8
  {
    (Low4(x) as bv8) | ((Low4(x / 16) as bv8) << 4)
  }

  /** The 32 bits a bitwise operator reads from an integer-valued number: its
      four low bytes. */
  function ToWord(x: int): bv32
  {
    Word(Low8(x), Low8(x / 0x100), Low8(x / 0x100 / 0x100), Low8(x / 0x100 / 0x100 / 0x100))
  }

  /** A word stored in a `Uint32Array` slot and read back through a `Uint8Array`
      on a little-endian host: its four bytes, least significant first. */
  function LeBytes(x: bv32): (bs: seq<bv8>)
    ensures |bs| == 4
  {
    [(x & 0xff) as bv8, ((x >> 8) & 0xff) as bv8, ((x >> 16) & 0xff) as bv8, (x >> 24) as bv8]
  }

  /** Modulo 2^32, a message word is the little-endian reading of its bytes. */
  lemma WordIsLittleEndian(b0: bv8, b1: bv8, b2: bv8, b3: bv8)
    ensures Word(b0, b1, b2, b3)
      == b0 as bv32 + 0x100 * b1 as bv32 + 0x1_0000 * b2 as bv32 + 0x100_0000 * b3 as bv32
  {
  }

  /** Packing the stored bytes of a word gives the word back. */
  lemma WordOfLeBytes(x: bv32)
    ensures var bs := LeBytes(x); Word(bs[0], bs[1], bs[2], bs[3]) == x
  {
  }

  /** Packing four bytes into a word and storing it gives the same four bytes. */
  lemma LeBytesOfWord(b0: bv8, b1: bv8, b2: bv8, b3: bv8)
    ensures LeBytes(Word(b0, b1, b2, b3)) == [b0, b1, b2, b3]
  {
  }

  lemma BitValue(x: int)
    ensures Val1(Bit(x)) == x % 2
  {
  }

  lemma JoinValue2(lo: bv1, hi: bv1)
    ensures Val2((lo as bv2) | ((hi as bv2) << 1)) == Val1(lo) + 2 * Val1(hi)
  {
  }

  lemma JoinValue4(lo: bv2, hi: bv2)
    ensures Val4((lo as bv4) | ((hi as bv4) << 2)) == Val2(lo) + 4 * Val2(hi)
  {
  }

  lemma JoinValue8(lo: bv4, hi: bv4)
    ensures Val8((lo as bv8) | ((hi as bv8) << 4)) == Val4(lo) + 16 * Val4(hi)
  {
  }

  lemma Split2(x: int)
    ensures x % 4 == x % 2 + 2 * (x / 2 % 2)
  {
  }

  lemma Split4(x: int)
    ensures x % 16 == x % 4 + 4 * (x / 4 % 4)
  {
  }

  lemma Split16(x: int)
    ensures x % 0x100 == x % 16 + 16 * (x / 16 % 16)
  {
  }

  lemma Low2Value(x: int)
    ensures Val2(Low2(x)) == x % 4
  {
    hide Val1, Val2, Bit;
    BitValue(x);
    BitValue(x / 2);
    JoinValue2(Bit(x), Bit(x / 2));
    Split2(x);
  }

  lemma Low4Value(x: int)
    ensures Val4(Low4(x)) == x % 16
  {
    hide Val2, Val4, Low2;
    Low2Value(x);
    Low2Value(x / 4);
    JoinValue4(Low2(x), Low2(x / 4));
    Split4(x);
  }

  /** The low 8 bits of x stand for x modulo 256. */
  lemma Low8Value(x: int)
    ensures Val8(Low8(x)) == x % 0x100
  {
    hide Val4, Val8, Low4;
    Low4Value(x);
    Low4Value(x / 16);
    JoinValue8(Low4(x), Low4(x / 16));
    Split16(x);
  }

  lemma HalfValue16(lo: bv8, hi: bv8)
    ensures Val16((lo as bv16) | ((hi as bv16) << 8)) == Val8(lo) + 0x100 * Val8(hi)
  {
  }

  lemma HalfValue32(lo: bv16, hi: bv16)
    ensures Val((lo as bv32) | ((hi as bv32) << 16)) == Val16(lo) + 0x1_0000 * Val16(hi)
  {
  }

  lemma WordHalves(b0: bv8, b1: bv8, b2: bv8, b3: bv8)
    ensures Word(b0, b1, b2, b3)
      == (((b0 as bv16) | ((b1 as bv16) << 8)) as bv32) | ((((b2 as bv16) | ((b3 as bv16) << 8)) as bv32) << 16)
  {
  }

  /** The number a message word stands for is the little-endian number formed
      by its four bytes. */
  lemma WordValue(b0: bv8, b1: bv8, b2: bv8, b3: bv8)
    ensures Val(Word(b0, b1, b2, b3)) == Val8(b0) + 0x100 * Val8(b1) + 0x1_0000 * Val8(b2) + 0x100_0000 * Val8(b3)
  {
    hide Val, Val16, Val8, Word;
    WordHalves(b0, b1, b2, b3);
    HalfValue16(b0, b1);
    HalfValue16(b2, b3);
    HalfValue32((b0 as bv16) | ((b1 as bv16) << 8), (b2 as bv16) | ((b3 as bv16) << 8));
  }

  /** A number modulo 2^32 is given by its four low base-256 digits. */
  lemma LowDigits(x: int)
    ensures x % M == x % 0x100 + 0x100 * (x / 0x100 % 0x100) + 0x1_0000 * (x / 0x100 / 0x100 % 0x100)
      + 0x100_0000 * (x / 0x100 / 0x100 / 0x100 % 0x100)
  {
    var x1 := x / 0x100;
    var x2 := x1 / 0x100;
    var x3 := x2 / 0x100;
    var x4 := x3 / 0x100;
    var d0, d1, d2, d3 := x % 0x100, x1 % 0x100, x2 % 0x100, x3 % 0x100;
    Digit(x);
    Digit(x1);
    Digit(x2);
    Digit(x3);
    Digits(x, x1, x2, x3, x4, d0, d1, d2, d3);
    var low := d0 + 0x100 * d1 + 0x1_0000 * d2 + 0x100_0000 * d3;
    ModOf(x, low, x4);
  }

  lemma ModOf(x: int, low: int, q: int)
    requires x == low + M * q && 0 <= low < M
    ensures x % M == low
  {
    ModShift(low, q);
  }

  lemma Digit(y: int)
    ensures y == y % 0x100 + 0x100 * (y / 0x100) && 0 <= y % 0x100 < 0x100
  {
  }

  lemma Digits(x: int, x1: int, x2: int, x3: int, x4: int, d0: int, d1: int, d2: int, d3: int)
    requires x == d0 + 0x100 * x1 && x1 == d1 + 0x100 * x2 && x2 == d2 + 0x100 * x3 && x3 == d3 + 0x100 * x4
    requires 0 <= d0 < 0x100 && 0 <= d1 < 0x100 && 0 <= d2 < 0x100 && 0 <= d3 < 0x100
    ensures x == d0 + 0x100 * d1 + 0x1_0000 * d2 + 0x100_0000 * d3 + M * x4
    ensures 0 <= d0 + 0x100 * d1 + 0x1_0000 * d2 + 0x100_0000 * d3 < M
  {
  }

  /** The low 32 bits of x stand for x modulo 2^32. */
  lemma ToWordValue(x: int)
    ensures Val(ToWord(x)) == x % M
  {
    hide Val, Val8, Word, Low8;
    Low8Value(x);
    Low8Value(x / 0x100);
    Low8Value(x / 0x100 / 0x100);
    Low8Value(x / 0x100 / 0x100 / 0x100);
    WordValue(Low8(x), Low8(x / 0x100), Low8(x / 0x100 / 0x100), Low8(x / 0x100 / 0x100 / 0x100));
    LowDigits(x);
  }

  /** Two words standing for the same number are equal. */
  lemma ValInjective(a: bv32, b: bv32)
    requires Val(a) == Val(b)
    ensures a == b
  {
    assert (a as int) as bv32 == a;
    assert (b as int) as bv32 == b;
  }

  /** Taking the low 32 bits of the number a word stands for gives the word. */
  lemma ToWordOfVal(w: bv32)
    ensures ToWord(Val(w)) == w
  {
    hide Val, ToWord;
    ToWordValue(Val(w));
    ValInjective(ToWord(Val(w)), w);
  }

  /** Reducing a number first does not change its low 32 bits. */
  lemma ToWordOfUint32(x: int)
    ensures ToWord(ToUint32(x)) == ToWord(x)
  {
    hide Val, ToWord;
    ToWordValue(ToUint32(x));
    ToWordValue(x);
    ValInjective(ToWord(ToUint32(x)), ToWord(x));
  }

  lemma WidenSum33(x: bv32, y: bv32)
    ensures Val33((x as bv33) + (y as bv33)) == Val(x) + Val(y)
  {
  }

  lemma WidenSum34(x: bv33, y: bv33)
    ensures Val34((x as bv34) + (y as bv34)) == Val33(x) + Val33(y)
  {
  }

  lemma Widen33(x: bv32)
    ensures Val33(x as bv33) == Val(x)
  {
  }

  lemma Widen34(x: bv33)
    ensures Val34(x as bv34) == Val33(x)
  {
  }

  lemma CarryValue()
    ensures Val33(0x1_0000_0000) == M
  {
  }

  lemma CarryBits(a: bv32, b: bv32)
    requires (a as bv33) + (b as bv33) >= 0x1_0000_0000
    ensures ((a as bv33) + (b as bv33)) as bv34 == ((a + b) as bv33) as bv34 + (0x1_0000_0000 as bv33) as bv34
  {
  }

  lemma NoCarry(a: bv32, b: bv32)
    requires (a as bv33) + (b as bv33) < 0x1_0000_0000
    ensures Val(a + b) == Val(a) + Val(b)
  {
    hide Val, Val33;
    WidenSum33(a, b);
    Widen33(a + b);
    assert (a as bv33) + (b as bv33) == (a + b) as bv33;
  }

  lemma WithCarry(a: bv32, b: bv32)
    requires (a as bv33) + (b as bv33) >= 0x1_0000_0000
    ensures Val(a + b) + M == Val(a) + Val(b)
  {
    hide Val, Val33, Val34;
    WidenSum33(a, b);
    Widen33(a + b);
    WidenSum34((a + b) as bv33, 0x1_0000_0000);
    Widen34((a as bv33) + (b as bv33));
    CarryValue();
    CarryBits(a, b);
  }

  lemma ModOnce(x: int, y: int)
    requires 0 <= y < M && (x == y || x == y + M)
    ensures x % M == y
  {
  }

  /** Word addition is addition modulo 2^32 of the numbers the words stand
      for. */
  lemma AddValue(a: bv32, b: bv32)
    ensures Val(a + b) == (Val(a) + Val(b)) % M
  {
    hide Val;
    if (a as bv33) + (b as bv33) < 0x1_0000_0000 {
      NoCarry(a, b);
    } else {
      WithCarry(a, b);
    }
    ModOnce(Val(a) + Val(b), Val(a + b));
  }

  /** The low 32 bits of a sum are the word sum of the low 32 bits. */
  lemma ToWordAdd(x: int, y: int)
    ensures ToWord(x + y) == ToWord(x) + ToWord(y)
  {
    hide Val, ToWord;
    var s, a, b := ToWord(x + y), ToWord(x), ToWord(y);
    ToWordValue(x + y);
    ToWordValue(x);
    ToWordValue(y);
    AddValue(a, b);
    SumOfRemainders(x, y, Val(a), Val(b), Val(s), Val(a + b));
    calc {
      ToWord(x + y);
      s;
      { ValInjective(s, a + b); }
      a + b;
      ToWord(x) + b;
      ToWord(x) + ToWord(y);
    }
  }

  lemma SumOfRemainders(x: int, y: int, rx: int, ry: int, rs: int, r: int)
    requires rx == x % M && ry == y % M && rs == (x + y) % M && r == (rx + ry) % M
    ensures rs == r
  {
    ModSum(x, y);
  }

  /** Reducing the summands does not change a sum modulo 2^32. */
  lemma ModSum(a: int, b: int)
    ensures (a % M + b % M) % M == (a + b) % M
  {
    var s := a % M + b % M;
    assert a + b == s + M * (a / M) + M * (b / M);
    ModShift(s, a / M + b / M);
  }

  /** Adding a multiple of 2^32 does not change the remainder. */
  lemma ModShift(t: int, q: int)
    ensures (M * q + t) % M == t % M
  {
  }

  // ---------------------------------------------------------------------------
  // Round functions (RFC 1321 section 3.4)
  // ---------------------------------------------------------------------------

  /** `F(x, y, z)`: `(x & y) | (~x & z)`. */
  function F(x: bv32, y: bv32, z: bv32): bv32
  {
    (x & y) | (!x & z)
  }

  /** `G(x, y, z)`: `(x & z) | (y & ~z)`. */
  function G(x: bv32, y: bv32, z: bv32): bv32
  {
    (x & z) | (y & !z)
  }

  /** `H(x, y, z)`: `x ^ y ^ z`. */
  function H(x: bv32, y: bv32, z: bv32): bv32
  {
    x ^ y ^ z
  }

  /** `I(x, y, z)`: `y ^ (x | ~z)`. */
  function I(x: bv32, y: bv32, z: bv32): bv32
  {
    y ^ (x | !z)
  }

  /** F takes each bit from y where x has a one and from z where x has a zero. */
  lemma FSelects(x: bv32, y: bv32, z: bv32)
    ensures F(x, y, z) & x == y & x && F(x, y, z) & !x == z & !x
  {
  }

  /** G takes each bit from x where z has a one and from y where z has a zero. */
  lemma GSelects(x: bv32, y: bv32, z: bv32)
    ensures G(x, y, z) & z == x & z && G(x, y, z) & !z == y & !z
  {
  }

  /** G is F with the selector moved to its third argument. */
  lemma GIsF(x: bv32, y: bv32, z: bv32)
    ensures G(x, y, z) == F(z, x, y)
  {
  }

  /** H copies each bit of x where y and z agree and flips it where they
      differ. */
  lemma HSelects(x: bv32, y: bv32, z: bv32)
    ensures H(x, y, z) & !(y ^ z) == x & !(y ^ z)
    ensures H(x, y, z) & (y ^ z) == !x & (y ^ z)
  {
  }

  /** Where z has a zero, I gives NOT y; elsewhere it gives y XOR x. */
  lemma ISelects(x: bv32, y: bv32, z: bv32)
    ensures I(x, y, z) & !z == !y & !z
    ensures I(x, y, z) & z == (y ^ x) & z
  {
  }

  // ---------------------------------------------------------------------------
  // Rotation
  // ---------------------------------------------------------------------------

  /** n modulo 32 as a five-bit word, counted up from 0. JavaScript shifts by
      the low five bits of the count. */
  function Mod32(n: nat): bv5
  {
    if n == 0 then 0 else Mod32(n - 1) + 1
  }

  lemma {:induction false} Mod32Add(a: nat, b: nat)
    ensures Mod32(a + b) == Mod32(a) + Mod32(b)
    decreases b
  {
    if b > 0 {
      Mod32Add(a, b - 1);
      assert Mod32(a + b) == Mod32(a + b - 1) + 1;
    }
  }

  /** Counting to 32 wraps around to 0. */
  lemma Mod32Cycle()
    ensures Mod32(32) == 0
  {
    assert Mod32(1) == 1;
    Mod32Add(1, 1);
    Mod32Add(2, 2);
    Mod32Add(4, 4);
    Mod32Add(8, 8);
    Mod32Add(16, 16);
  }

  /** The shift count of a non-negative amount n: n modulo 32. */
  function ShiftCount(n: nat): (k: bv32)
    ensures k < 32
    ensures k as int == n % 32
  {
    Mod32Value(n);
    Mod32(n) as bv32
  }

  lemma WidenNegated(c: bv5)
    ensures (-c) as bv32 == (32 - c as bv32) % 32
  {
  }

  /** The counts for n and for 32 - n add up to 0 modulo 32. */
  lemma ShiftCountComplement(n: nat)
    requires n <= 32
    ensures ShiftCount(32 - n) == (32 - ShiftCount(n)) % 32
  {
    Mod32Add(32 - n, n);
    Mod32Cycle();
    WidenNegated(Mod32(n));
  }

  /** Adding 32 to the amount does not change the shift count. */
  lemma ShiftCountPeriodic(n: nat)
    ensures ShiftCount(n + 32) == ShiftCount(n)
  {
    Mod32Add(n, 32);
    Mod32Cycle();
  }

  /** A left shift by k OR-ed with the right shift by 32 - k, as the source
      writes it. JavaScript masks shift counts to five bits, so for k = 0 the
      right shift is by 0 as well. */
  function Rotl(x: bv32, k: bv32): bv32
    requires k < 32
  {
    (x << k) | (x >> ((32 - k) % 32))
  }

  /** `rotateLeft(x, n)`: fails for a negative amount and otherwise rotates x
      left by n modulo 32 bits. A non-integer amount, the source's other
      failure, cannot be written here. */
  function RotateLeft(x: bv32, n: int): (r: Result<bv32>)
    ensures r.Err? <==> n < 0
    ensures n == 0 ==> r == Ok(x)
  {
    if n < 0 then Err("Invalid argument (n): requires positive integer")
    else Ok(Rotl(x, ShiftCount(n)))
  }

  // ---------------------------------------------------------------------------
  // The shift-or expression is a rotation
  // ---------------------------------------------------------------------------

  lemma RotlBy0(x: bv32)
    ensures Rotl(x, 0) == x.RotateLeft(0)
  {
  }

  lemma RotlBy1(x: bv32)
    ensures Rotl(x, 1) == x.RotateLeft(1)
  {
  }

  lemma RotlBy2(x: bv32)
    ensures Rotl(x, 2) == x.RotateLeft(2)
  {
  }

  lemma RotlBy3(x: bv32)
    ensures Rotl(x, 3) == x.RotateLeft(3)
  {
  }

  lemma RotlBy4(x: bv32)
    ensures Rotl(x, 4) == x.RotateLeft(4)
  {
  }

  lemma RotlBy5(x: bv32)
    ensures Rotl(x, 5) == x.RotateLeft(5)
  {
  }

  lemma RotlBy6(x: bv32)
    ensures Rotl(x, 6) == x.RotateLeft(6)
  {
  }

  lemma RotlBy7(x: bv32)
    ensures Rotl(x, 7) == x.RotateLeft(7)
  {
  }

  lemma RotlBy8(x: bv32)
    ensures Rotl(x, 8) == x.RotateLeft(8)
  {
  }

  lemma RotlBy9(x: bv32)
    ensures Rotl(x, 9) == x.RotateLeft(9)
  {
  }

  lemma RotlBy10(x: bv32)
    ensures Rotl(x, 10) == x.RotateLeft(10)
  {
  }

  lemma RotlBy11(x: bv32)
    ensures Rotl(x, 11) == x.RotateLeft(11)
  {
  }

  lemma RotlBy12(x: bv32)
    ensures Rotl(x, 12) == x.RotateLeft(12)
  {
  }

  lemma RotlBy13(x: bv32)
    ensures Rotl(x, 13) == x.RotateLeft(13)
  {
  }

  lemma RotlBy14(x: bv32)
    ensures Rotl(x, 14) == x.RotateLeft(14)
  {
  }

  lemma RotlBy15(x: bv32)
    ensures Rotl(x, 15) == x.RotateLeft(15)
  {
  }

  lemma RotlBy16(x: bv32)
    ensures Rotl(x, 16) == x.RotateLeft(16)
  {
  }

  lemma RotlBy17(x: bv32)
    ensures Rotl(x, 17) == x.RotateLeft(17)
  {
  }

  lemma RotlBy18(x: bv32)
    ensures Rotl(x, 18) == x.RotateLeft(18)
  {
  }

  lemma RotlBy19(x: bv32)
    ensures Rotl(x, 19) == x.RotateLeft(19)
  {
  }

  lemma RotlBy20(x: bv32)
    ensures Rotl(x, 20) == x.RotateLeft(20)
  {
  }

  lemma RotlBy21(x: bv32)
    ensures Rotl(x, 21) == x.RotateLeft(21)
  {
  }

  lemma RotlBy22(x: bv32)
    ensures Rotl(x, 22) == x.RotateLeft(22)
  {
  }

  lemma RotlBy23(x: bv32)
    ensures Rotl(x, 23) == x.RotateLeft(23)
  {
  }

  lemma RotlBy24(x: bv32)
    ensures Rotl(x, 24) == x.RotateLeft(24)
  {
  }

  lemma RotlBy25(x: bv32)
    ensures Rotl(x, 25) == x.RotateLeft(25)
  {
  }

  lemma RotlBy26(x: bv32)
    ensures Rotl(x, 26) == x.RotateLeft(26)
  {
  }

  lemma RotlBy27(x: bv32)
    ensures Rotl(x, 27) == x.RotateLeft(27)
  {
  }

  lemma RotlBy28(x: bv32)
    ensures Rotl(x, 28) == x.RotateLeft(28)
  {
  }

  lemma RotlBy29(x: bv32)
    ensures Rotl(x, 29) == x.RotateLeft(29)
  {
  }

  lemma RotlBy30(x: bv32)
    ensures Rotl(x, 30) == x.RotateLeft(30)
  {
  }

  lemma RotlBy31(x: bv32)
    ensures Rotl(x, 31) == x.RotateLeft(31)
  {
  }

  lemma RotlIn0(x: bv32, k: bv32)
    requires 0 <= k < 4
    ensures Rotl(x, k) == x.RotateLeft(k as nat)
  {
    hide *;
    if k == 0 {
      RotlBy0(x);
    } else if k == 1 {
      RotlBy1(x);
    } else if k == 2 {
      RotlBy2(x);
    } else {
      RotlBy3(x);
    }
  }

  lemma RotlIn1(x: bv32, k: bv32)
    requires 4 <= k < 8
    ensures Rotl(x, k) == x.RotateLeft(k as nat)
  {
    hide *;
    if k == 4 {
      RotlBy4(x);
    } else if k == 5 {
      RotlBy5(x);
    } else if k == 6 {
      RotlBy6(x);
    } else {
      RotlBy7(x);
    }
  }

  lemma RotlIn2(x: bv32, k: bv32)
    requires 8 <= k < 12
    ensures Rotl(x, k) == x.RotateLeft(k as nat)
  {
    hide *;
    if k == 8 {
      RotlBy8(x);
    } else if k == 9 {
      RotlBy9(x);
    } else if k == 10 {
      RotlBy10(x);
    } else {
      RotlBy11(x);
    }
  }

  lemma RotlIn3(x: bv32, k: bv32)
    requires 12 <= k < 16
    ensures Rotl(x, k) == x.RotateLeft(k as nat)
  {
    hide *;
    if k == 12 {
      RotlBy12(x);
    } else if k == 13 {
      RotlBy13(x);
    } else if k == 14 {
      RotlBy14(x);
    } else {
      RotlBy15(x);
    }
  }

  lemma RotlIn4(x: bv32, k: bv32)
    requires 16 <= k < 20
    ensures Rotl(x, k) == x.RotateLeft(k as nat)
  {
    hide *;
    if k == 16 {
      RotlBy16(x);
    } else if k == 17 {
      RotlBy17(x);
    } else if k == 18 {
      RotlBy18(x);
    } else {
      RotlBy19(x);
    }
  }

  lemma RotlIn5(x: bv32, k: bv32)
    requires 20 <= k < 24
    ensures Rotl(x, k) == x.RotateLeft(k as nat)
  {
    hide *;
    if k == 20 {
      RotlBy20(x);
    } else if k == 21 {
      RotlBy21(x);
    } else if k == 22 {
      RotlBy22(x);
    } else {
      RotlBy23(x);
    }
  }

  lemma RotlIn6(x: bv32, k: bv32)
    requires 24 <= k < 28
    ensures Rotl(x, k) == x.RotateLeft(k as nat)
  {
    hide *;
    if k == 24 {
      RotlBy24(x);
    } else if k == 25 {
      RotlBy25(x);
    } else if k == 26 {
      RotlBy26(x);
    } else {
      RotlBy27(x);
    }
  }

  lemma RotlIn7(x: bv32, k: bv32)
    requires 28 <= k < 32
    ensures Rotl(x, k) == x.RotateLeft(k as nat)
  {
    hide *;
    if k == 28 {
      RotlBy28(x);
    } else if k == 29 {
      RotlBy29(x);
    } else if k == 30 {
      RotlBy30(x);
    } else {
      RotlBy31(x);
    }
  }

  /** The source's shift-or expression rotates x left by k: bit i of the
      result is bit (i - k) mod 32 of x. */
  lemma RotlIsRotateLeft(x: bv32, k: bv32)
    requires k < 32
    ensures Rotl(x, k) == x.RotateLeft(k as nat)
  {
    hide *;
    if k < 4 {
      RotlIn0(x, k);
    } else if k < 8 {
      RotlIn1(x, k);
    } else if k < 12 {
      RotlIn2(x, k);
    } else if k < 16 {
      RotlIn3(x, k);
    } else if k < 20 {
      RotlIn4(x, k);
    } else if k < 24 {
      RotlIn5(x, k);
    } else if k < 28 {
      RotlIn6(x, k);
    } else {
      RotlIn7(x, k);
    }
  }

  /** `Mod32` counts modulo 32. */
  lemma {:induction false} Mod32Value(n: nat)
    ensures Mod32(n) as int == n % 32
  {
    if n > 0 {
      Mod32Value(n - 1);
      Increment5(Mod32(n - 1));
      StepMod32(n, Mod32(n - 1) as int, Mod32(n) as int);
    }
  }

  lemma Increment5(c: bv5)
    ensures (c + 1) as int == if c == 31 then 0 else c as int + 1
  {
  }

  lemma StepMod32(n: int, p: int, q: int)
    requires p == (n - 1) % 32
    requires q == if p == 31 then 0 else p + 1
    ensures q == n % 32
  {
  }

  /** `rotateLeft(x, n)` for n >= 0 rotates x left by n mod 32 bits. */
  lemma RotateLeftRotates(x: bv32, n: nat)
    ensures ShiftCount(n) as int == n % 32
    ensures RotateLeft(x, n).Ok? && RotateLeft(x, n).value == x.RotateLeft(ShiftCount(n) as nat)
  {
    Mod32Value(n);
    RotlIsRotateLeft(x, ShiftCount(n));
  }

  lemma RotlInverseIn0(x: bv32, k: bv32)
    requires 1 <= k < 4
    ensures Rotl(Rotl(x, k), 32 - k) == x
  {
  }

  lemma RotlInverseIn1(x: bv32, k: bv32)
    requires 4 <= k < 8
    ensures Rotl(Rotl(x, k), 32 - k) == x
  {
  }

  lemma RotlInverseIn2(x: bv32, k: bv32)
    requires 8 <= k < 12
    ensures Rotl(Rotl(x, k), 32 - k) == x
  {
  }

  lemma RotlInverseIn3(x: bv32, k: bv32)
    requires 12 <= k < 16
    ensures Rotl(Rotl(x, k), 32 - k) == x
  {
  }

  lemma RotlInverseIn4(x: bv32, k: bv32)
    requires 16 <= k < 20
    ensures Rotl(Rotl(x, k), 32 - k) == x
  {
  }

  lemma RotlInverseIn5(x: bv32, k: bv32)
    requires 20 <= k < 24
    ensures Rotl(Rotl(x, k), 32 - k) == x
  {
  }

  lemma RotlInverseIn6(x: bv32, k: bv32)
    requires 24 <= k < 28
    ensures Rotl(Rotl(x, k), 32 - k) == x
  {
  }

  lemma RotlInverseIn7(x: bv32, k: bv32)
    requires 28 <= k < 32
    ensures Rotl(Rotl(x, k), 32 - k) == x
  {
  }

  /** Rotating left by k and then by 32 - k (modulo 32) gives x back. */
  lemma RotlInverse(x: bv32, k: bv32)
    requires k < 32
    ensures Rotl(Rotl(x, k), (32 - k) % 32) == x
  {
    if k == 0 {
    } else if k < 4 {
      RotlInverseIn0(x, k);
    } else if k < 8 {
      RotlInverseIn1(x, k);
    } else if k < 12 {
      RotlInverseIn2(x, k);
    } else if k < 16 {
      RotlInverseIn3(x, k);
    } else if k < 20 {
      RotlInverseIn4(x, k);
    } else if k < 24 {
      RotlInverseIn5(x, k);
    } else if k < 28 {
      RotlInverseIn6(x, k);
    } else if k < 32 {
      RotlInverseIn7(x, k);
    }
  }

  /** Rotating left by n and then by 32 - n gives x back. */
  lemma RotateLeftInverse(x: bv32, n: int)
    requires 0 <= n <= 32
    ensures RotateLeft(x, n).Ok?
    ensures RotateLeft(RotateLeft(x, n).value, 32 - n) == Ok(x)
  {
    ShiftCountComplement(n);
    RotlInverse(x, ShiftCount(n));
  }

  /** Rotating by n + 32 is rotating by n. */
  lemma RotateLeftPeriodic(x: bv32, n: nat)
    ensures RotateLeft(x, n + 32) == RotateLeft(x, n)
  {
    ShiftCountPeriodic(n);
  }

  // ---------------------------------------------------------------------------
  // unsigned32Add
  // ---------------------------------------------------------------------------

  /** The exact sum of a sequence of numbers. */
  function Sum(xs: seq<int>): int
  {
    if xs == [] then 0 else xs[0] + Sum(xs[1..])
  }

  /** The `reduce` inside `unsigned32Add`, from accumulator acc: each step adds
      the reduced accumulator and the reduced next argument, and reduces. */
  function Reduce(args: seq<int>, acc: int): int
  {
    if args == [] then acc else Reduce(args[1..], ToUint32(ToUint32(acc) + ToUint32(args[0])))
  }

  /** Adding a number below 2^32 to a reduced number and reducing is the same
      as adding it to the unreduced number and reducing. */
  lemma AddBelowModulus(x: nat, v: nat)
    requires v < M
    ensures ToUint32(x + v) == (ToUint32(x) + v) % M
  {
    var q := x / M;
    assert x == M * q + x % M;
    ModShift(x % M + v, q);
  }

  lemma ModSum3(a: int, b: int, c: int)
    ensures ((a % M + b % M) % M + c) % M == (a + b + c) % M
  {
    var s := a % M + b % M;
    assert a + b + c == s + c + M * (a / M) + M * (b / M);
    assert s + c == s % M + c + M * (s / M);
  }

  lemma {:induction false} ReduceIsSum(args: seq<int>, acc: int)
    requires args != []
    ensures Reduce(args, acc) == (acc + Sum(args)) % M
    decreases |args|
  {
    var next := ToUint32(ToUint32(acc) + ToUint32(args[0]));
    if args[1..] == [] {
      ModSum3(acc, args[0], 0);
    } else {
      ReduceIsSum(args[1..], next);
      ModSum3(acc, args[0], Sum(args[1..]));
    }
  }

  /** Every accumulator `reduce` passes on is in [0, 2^32). */
  lemma {:induction false} ReduceBelow(args: seq<int>, acc: int)
    requires 0 <= acc < M
    ensures 0 <= Reduce(args, acc) < M
    decreases |args|
  {
    if args != [] {
      ReduceBelow(args[1..], ToUint32(ToUint32(acc) + ToUint32(args[0])));
    }
  }

  /** `unsigned32Add(...args)`: the sum of the arguments modulo 2^32, which is
      0 for no arguments. */
  function Unsigned32Add(args: seq<int>): (r: nat)
    ensures r < M
  {
    ReduceBelow(args, 0);
    Reduce(args, 0)
  }

  /** `unsigned32Add` is the sum of its arguments modulo 2^32, and 0 for no
      arguments. */
  lemma Unsigned32AddIsSum(args: seq<int>)
    ensures Unsigned32Add(args) == Sum(args) % M
  {
    if args != [] {
      ReduceIsSum(args, 0);
    }
  }


  lemma SumOfTwo(a: int, b: int)
    ensures Sum([a, b]) == a + b
  {
    assert [a, b][1..] == [b];
    assert [b][1..] == [];
    calc {
      Sum([a, b]);
      a + Sum([b]);
      a + (b + Sum([]));
    }
  }

  lemma SumOfFour(a: int, b: int, c: int, d: int)
    ensures Sum([a, b, c, d]) == a + b + c + d
  {
    assert [a, b, c, d][1..] == [b, c, d];
    assert [b, c, d][1..] == [c, d];
    SumOfTwo(c, d);
  }

  /** Reducing the running sum before adding does not change the remainder. */
  lemma ModAccumulate(s: int, v: int, r: int, r': int)
    requires r == s % M && r' == (r + v) % M
    ensures r' == (s + v) % M
  {
    ModShift(s % M + v, s / M);
  }

  /** The low 32 bits of the sum of two word values is the word sum. */
  lemma ToWordOfSum(a: bv32, b: bv32)
    ensures ToWord(Val(a) + Val(b)) == a + b
  {
    hide *;
    ToWordAdd(Val(a), Val(b));
    ToWordOfVal(a);
    ToWordOfVal(b);
    calc {
      ToWord(Val(a)) + ToWord(Val(b));
      a + ToWord(Val(b));
      a + b;
    }
  }

  lemma ToWordOfMod(x: int)
    ensures ToWord(x % M) == ToWord(x)
  {
    hide ToWord;
    ToWordOfUint32(x);
  }

  /** `unsigned32Add` of two words is their word sum. */
  lemma Unsigned32AddWords2(a: bv32, b: bv32)
    ensures ToWord(Unsigned32Add([Val(a), Val(b)])) == a + b
  {
    hide *;
    Unsigned32AddIsSum([Val(a), Val(b)]);
    SumOfTwo(Val(a), Val(b));
    ToWordOfMod(Val(a) + Val(b));
    ToWordOfSum(a, b);
  }

  lemma AddValueOf(a: bv32, b: bv32, s: bv32)
    requires s == a + b
    ensures Val(s) == (Val(a) + Val(b)) % M
  {
    AddValue(a, b);
  }

  lemma ModChain(v0: int, v1: int, v2: int, v3: int, r1: int, r2: int, r3: int)
    requires r1 == (v0 + v1) % M && r2 == (r1 + v2) % M && r3 == (r2 + v3) % M
    ensures r3 == (v0 + v1 + v2 + v3) % M
  {
    ModAccumulate(v0 + v1, v2, r1, r2);
    ModAccumulate(v0 + v1 + v2, v3, r2, r3);
  }

  /** `unsigned32Add` of four words is their word sum. */
  lemma Unsigned32AddWords4(a: bv32, b: bv32, c: bv32, d: bv32)
    ensures ToWord(Unsigned32Add([Val(a), Val(b), Val(c), Val(d)])) == a + b + c + d
  {
    hide *;
    var ab := a + b;
    var abc := ab + c;
    var abcd := abc + d;
    AddValueOf(a, b, ab);
    AddValueOf(ab, c, abc);
    AddValueOf(abc, d, abcd);
    var va, vb, vc, vd := Val(a), Val(b), Val(c), Val(d);
    ModChain(va, vb, vc, vd, Val(ab), Val(abc), Val(abcd));
    Unsigned32AddIsSum([va, vb, vc, vd]);
    SumOfFour(va, vb, vc, vd);
    ToWordOfVal(abcd);
    calc {
      abcd;
      abc + d;
      (ab + c) + d;
      ((a + b) + c) + d;
    }
  }

  /** The low 32 bits of a sum depend only on the low 32 bits of the first term. */
  lemma ToWordOfLowSum(x: int, y: int)
    ensures ToWord(x % M + y) == ToWord(x + y)
  {
    hide ToWord;
    ToWordOfMod(x % M + y);
    ToWordOfMod(x + y);
    ModAddLeft(x, y);
  }

  lemma ModAddLeft(x: int, y: int)
    ensures (x % M + y) % M == (x + y) % M
  {
    var q := x / M;
    assert x == M * q + x % M;
    ModShift(x % M + y, q);
  }

  /** Adding a word to a number and keeping the low 32 bits adds the word to the
      number's low 32 bits. */
  lemma ToWordPlusWord(x: int, w: bv32)
    ensures ToWord(x + Val(w)) == ToWord(x) + w
  {
    hide *;
    ToWordValue(x);
    ToWordOfLowSum(x, Val(w));
    ToWordOfSum(ToWord(x), w);
  }
}
