/** The compression of one 64-byte block (RFC 1321 sections 3.3 and 3.4):
    the block is read as 16 little-endian words, a working copy of the
    registers goes through 64 steps, and the working copy is added back
    into the digest registers. */
module Md5Compress {
  import opened Md5Words

  /** The digest registers `A0`..`D0` at the start (RFC 1321 section 3.3). */
  const A0: nat := 0x67452301
  const B0: nat := 0xefcdab89
  const C0: nat := 0x98badcfe
  const D0: nat := 0x10325476

  /** `S`: the left-rotation amount of each of the 64 steps. */
  const S: seq<nat> := [
    7, 12, 17, 22, 7, 12, 17, 22, 7, 12, 17, 22, 7, 12, 17, 22,
    5, 9, 14, 20, 5, 9, 14, 20, 5, 9, 14, 20, 5, 9, 14, 20,
    4, 11, 16, 23, 4, 11, 16, 23, 4, 11, 16, 23, 4, 11, 16, 23,
    6, 10, 15, 21, 6, 10, 15, 21, 6, 10, 15, 21, 6, 10, 15, 21]

  /** `K`: the additive constant of each of the 64 steps, a `Uint32Array`. */
  const K: seq<bv32> := [
    0xd76aa478, 0xe8c7b756, 0x242070db, 0xc1bdceee, 0xf57c0faf, 0x4787c62a,
    0xa8304613, 0xfd469501, 0x698098d8, 0x8b44f7af, 0xffff5bb1, 0x895cd7be,
    0x6b901122, 0xfd987193, 0xa679438e, 0x49b40821, 0xf61e2562, 0xc040b340,
    0x265e5a51, 0xe9b6c7aa, 0xd62f105d, 0x02441453, 0xd8a1e681, 0xe7d3fbc8,
    0x21e1cde6, 0xc33707d6, 0xf4d50d87, 0x455a14ed, 0xa9e3e905, 0xfcefa3f8,
    0x676f02d9, 0x8d2a4c8a, 0xfffa3942, 0x8771f681, 0x6d9d6122, 0xfde5380c,
    0xa4beea44, 0x4bdecfa9, 0xf6bb4b60, 0xbebfbc70, 0x289b7ec6, 0xeaa127fa,
    0xd4ef3085, 0x04881d05, 0xd9d4d039, 0xe6db99e5, 0x1fa27cf8, 0xc4ac5665,
    0xf4292244, 0x432aff97, 0xab9423a7, 0xfc93a039, 0x655b59c3, 0x8f0ccc92,
    0xffeff47d, 0x85845dd1, 0x6fa87e4f, 0xfe2ce6e0, 0xa3014314, 0x4e0811a1,
    0xf7537e82, 0xbd3af235, 0x2ad7d2bb, 0xeb86d391]

  /** The digest registers `A`..`D`. The source adds each block's working copy
      to them without reducing (`A += AA`), so they are kept as the exact
      numbers; every reader takes them modulo 2^32. */
  datatype Buffer = Buffer(a: nat, b: nat, c: nat, d: nat)

  /** The working registers `AA`..`DD`, as the 32 bits every reader of them
      uses. */
  datatype Regs = Regs(a: bv32, b: bv32, c: bv32, d: bv32)

  /** The digest registers before the first block. */
  function InitialBuffer(): Buffer
  {
    Buffer(A0, B0, C0, D0)
  }

  /** `getChunk(i, message)`: block i of the message as 16 words, word j packed
      from bytes 64i + 4j .. 64i + 4j + 3. */
  function ChunkWords(message: seq<bv8>, i: nat): (m: seq<bv32>)
    requires 64 * i + 64 <= |message|
    ensures |m| == 16
  {
    seq(16, j requires 0 <= j < 16 =>
      Word(message[i * 64 + j * 4 + 0], message[i * 64 + j * 4 + 1],
           message[i * 64 + j * 4 + 2], message[i * 64 + j * 4 + 3]))
  }

  /** Word j of a chunk is the little-endian number formed by its four bytes. */
  lemma ChunkWordValue(message: seq<bv8>, i: nat, j: nat)
    requires 64 * i + 64 <= |message| && j < 16
    ensures var k := 64 * i + 4 * j;
      ChunkWords(message, i)[j] == message[k] as bv32 + 0x100 * message[k + 1] as bv32
        + 0x1_0000 * message[k + 2] as bv32 + 0x100_0000 * message[k + 3] as bv32
  {
    var k := 64 * i + 4 * j;
    WordIsLittleEndian(message[k], message[k + 1], message[k + 2], message[k + 3]);
  }

  /** Storing word j of a chunk little-endian gives back its four bytes. */
  lemma ChunkWordBytes(message: seq<bv8>, i: nat, j: nat)
    requires 64 * i + 64 <= |message| && j < 16
    ensures LeBytes(ChunkWords(message, i)[j]) == message[64 * i + 4 * j..64 * i + 4 * j + 4]
  {
    var k := 64 * i + 4 * j;
    LeBytesOfWord(message[k], message[k + 1], message[k + 2], message[k + 3]);
  }

  /** Lines 297-307: `getChunk` fills `m` one word at a time. */
  method GetChunk(i: nat, message: array<bv8>) returns (m: seq<bv32>)
    requires 64 * i + 64 <= message.Length
    ensures m == ChunkWords(message[..], i)
  {
    m := [];
    for j := 0 to 16
      invariant m == ChunkWords(message[..], i)[..j]
    {
      m := m + [Word(message[i * 64 + j * 4 + 0], message[i * 64 + j * 4 + 1],
                     message[i * 64 + j * 4 + 2], message[i * 64 + j * 4 + 3])];
    }
  }

  // ---------------------------------------------------------------------------
  // The step schedule
  // ---------------------------------------------------------------------------

  /** `E`, the round function of step j applied to `BB`, `CC`, `DD`: the switch
      on `Math.floor(j / 16)`. */
  function RoundFunction(j: nat, b: bv32, c: bv32, d: bv32): bv32
  {
    match j / 16
    case 0 => F(b, c, d)
    case 1 => G(b, c, d)
    case 2 => H(b, c, d)
    case _ => I(b, c, d)
  }

  /** `g`, the message word step j reads. */
  function MessageIndex(j: nat): (g: nat)
    ensures g < 16
  {
    match j / 16
    case 0 => j
    case 1 => (j * 5 + 1) % 16
    case 2 => (j * 3 + 5) % 16
    case _ => (j * 7) % 16
  }

  /** The step of round `round` that reads message word k: the inverse of the
      index schedule within the round (13, 11 and 7 are the inverses of 5, 3
      and 7 modulo 16). */
  function StepReading(round: nat, k: nat): (j: nat)
    requires round < 4 && k < 16
    ensures 16 * round <= j < 16 * round + 16
  {
    match round
    case 0 => k
    case 1 => 16 + (k * 13 + 3) % 16
    case 2 => 32 + (k * 11 + 9) % 16
    case _ => 48 + (k * 7) % 16
  }

  lemma Mod16(x: int, q: int, r: int)
    requires x == 16 * q + r && 0 <= r < 16
    ensures x % 16 == r
  {
  }

  /** Every message word is read in every round: the step `StepReading(round, k)`
      reads word k. */
  lemma StepReadingReads(round: nat, k: nat)
    requires round < 4 && k < 16
    ensures MessageIndex(StepReading(round, k)) == k
  {
    var j := StepReading(round, k);
    if round == 1 {
      var q := (k * 13 + 3) / 16;
      assert j * 5 + 1 == 16 * (4 * k + 6 - 5 * q) + k;
      Mod16(j * 5 + 1, 4 * k + 6 - 5 * q, k);
    } else if round == 2 {
      var q := (k * 11 + 9) / 16;
      assert j * 3 + 5 == 16 * (2 * k + 8 - 3 * q) + k;
      Mod16(j * 3 + 5, 2 * k + 8 - 3 * q, k);
    } else if round == 3 {
      var q := (k * 7) / 16;
      assert j * 7 == 16 * (3 * k + 21 - 7 * q) + k;
      Mod16(j * 7, 3 * k + 21 - 7 * q, k);
    }
  }

  /** No message word is read twice in a round: the step is determined by its
      round and the word it reads. */
  lemma MessageIndexDeterminesStep(j: nat)
    requires j < 64
    ensures StepReading(j / 16, MessageIndex(j)) == j
  {
    var g := MessageIndex(j);
    if j / 16 == 1 {
      var q := (j * 5 + 1) / 16;
      assert g * 13 + 3 == 16 * (4 * j + 2 - 13 * q) + (j - 16);
      Mod16(g * 13 + 3, 4 * j + 2 - 13 * q, j - 16);
    } else if j / 16 == 2 {
      var q := (j * 3 + 5) / 16;
      assert g * 11 + 9 == 16 * (2 * j + 6 - 11 * q) + (j - 32);
      Mod16(g * 11 + 9, 2 * j + 6 - 11 * q, j - 32);
    } else if j / 16 == 3 {
      var q := (j * 7) / 16;
      assert g * 7 == 16 * (3 * j + 3 - 7 * q) + (j - 48);
      Mod16(g * 7, 3 * j + 3 - 7 * q, j - 48);
    }
  }

  /** Step j of the working registers: `DD`, `CC` and `BB` move one place, and
      the new `BB` adds to the old one the rotated sum of `AA`, `E`, `K[j]` and
      `m[g]` (RFC 1321 section 3.4). */
  function Step(r: Regs, m: seq<bv32>, j: nat): Regs
    requires |m| == 16 && j < 64
  {
    var e := RoundFunction(j, r.b, r.c, r.d);
    var g := MessageIndex(j);
    var rotated := RotateLeft(ToWord(Unsigned32Add([Val(r.a), Val(e), Val(K[j]), Val(m[g])])), S[j]);
    Regs(r.d, ToWord(Unsigned32Add([Val(r.b), Val(rotated.value)])), r.b, r.c)
  }

  /** Step j as RFC 1321 section 3.4 writes it, in 32-bit word arithmetic:
      b + ((a + E(b, c, d) + X[g] + T[j]) <<< s), the other registers moving
      one place. */
  function RfcStep(r: Regs, m: seq<bv32>, j: nat): Regs
    requires |m| == 16 && j < 64
  {
    var e := RoundFunction(j, r.b, r.c, r.d);
    Regs(r.d, RfcUpdate(r.a, r.b, e, K[j], m[MessageIndex(j)], S[j]), r.b, r.c)
  }

  /** The new `b` register of an RFC step: b + ((a + e + t + x) <<< s). */
  function RfcUpdate(a: bv32, b: bv32, e: bv32, t: bv32, x: bv32, s: nat): bv32
  {
    b + Rotated(a + e + t + x, s)
  }

  /** w rotated left by s modulo 32 bits (`ShiftCount(s)` is s mod 32, as
      `Md5Words.Mod32Value` shows). */
  function Rotated(w: bv32, s: nat): bv32
  {
    w.RotateLeft(ShiftCount(s) as nat)
  }

  /** `rotateLeft` by a non-negative amount is the 32-bit rotation. */
  lemma RotateLeftIsRotated(x: bv32, n: nat)
    ensures RotateLeft(x, n) == Ok(Rotated(x, n))
  {
    RotateLeftRotates(x, n);
  }

  /** `RfcUpdate` through intermediate words: the sum, then its rotation. */
  lemma RfcUpdateOf(a: bv32, b: bv32, e: bv32, t: bv32, x: bv32, s: nat, sum: bv32, rot: bv32)
    requires sum == a + e + t + x && rot == Rotated(sum, s)
    ensures RfcUpdate(a, b, e, t, x, s) == b + rot
  {
    hide Rotated;
    calc {
      RfcUpdate(a, b, e, t, x, s);
      b + Rotated(a + e + t + x, s);
      b + Rotated(sum, s);
      b + rot;
    }
  }

  /** The new `b` register the source computes, two `unsigned32Add` calls around
      a `rotateLeft`, is `RfcUpdate`. */
  lemma StepCore(a: bv32, b: bv32, e: bv32, t: bv32, x: bv32, s: nat)
    ensures ToWord(Unsigned32Add([Val(b), Val(RotateLeft(ToWord(Unsigned32Add([Val(a), Val(e), Val(t), Val(x)])), s).value)]))
      == RfcUpdate(a, b, e, t, x, s)
  {
    hide *;
    var sum := ToWord(Unsigned32Add([Val(a), Val(e), Val(t), Val(x)]));
    Unsigned32AddWords4(a, e, t, x);
    RotateLeftIsRotated(sum, s);
    var rot := Rotated(sum, s);
    Unsigned32AddWords2(b, rot);
    RfcUpdateOf(a, b, e, t, x, s, sum, rot);
  }

  /** The source's step, which adds as numbers and reduces with `>>> 0`, is the
      RFC step in 32-bit word arithmetic. */
  lemma StepIsRfcStep(r: Regs, m: seq<bv32>, j: nat)
    requires |m| == 16 && j < 64
    ensures Step(r, m, j) == RfcStep(r, m, j)
  {
    hide Rotl, ToWord, Val, Unsigned32Add, RoundFunction, ShiftCount, RotateLeft, RfcUpdate, Rotated, F, G, H, I;
    StepCore(r.a, r.b, RoundFunction(j, r.b, r.c, r.d), K[j], m[MessageIndex(j)], S[j]);
  }

  /** Step j reads only message word `MessageIndex(j)` of the block. */
  lemma StepReadsOneWord(r: Regs, m: seq<bv32>, m': seq<bv32>, j: nat)
    requires |m| == 16 && |m'| == 16 && j < 64
    requires m[MessageIndex(j)] == m'[MessageIndex(j)]
    ensures Step(r, m, j) == Step(r, m', j)
  {
  }

  /** The working registers after the first n steps. */
  function Steps(r: Regs, m: seq<bv32>, n: nat): Regs
    requires |m| == 16 && n <= 64
  {
    if n == 0 then r else Step(Steps(r, m, n - 1), m, n - 1)
  }

  /** The working copy a block starts from: the low 32 bits of the digest
      registers. */
  function WorkingCopy(buf: Buffer): Regs
  {
    Regs(ToWord(buf.a), ToWord(buf.b), ToWord(buf.c), ToWord(buf.d))
  }

  /** Lines 215-218: `A += AA`, `B += BB`, `C += CC`, `D += DD`. */
  function Fold(buf: Buffer, w: Regs): Buffer
  {
    Buffer(buf.a + Val(w.a), buf.b + Val(w.b), buf.c + Val(w.c), buf.d + Val(w.d))
  }

  /** Modulo 2^32, each digest register gains its working register. */
  lemma FoldAddsWorkingCopy(buf: Buffer, w: Regs)
    ensures var r := Fold(buf, w);
      ToUint32(r.a) == (ToUint32(buf.a) + Val(w.a)) % M
      && ToUint32(r.b) == (ToUint32(buf.b) + Val(w.b)) % M
      && ToUint32(r.c) == (ToUint32(buf.c) + Val(w.c)) % M
      && ToUint32(r.d) == (ToUint32(buf.d) + Val(w.d)) % M
  {
    AddBelowModulus(buf.a, Val(w.a));
    AddBelowModulus(buf.b, Val(w.b));
    AddBelowModulus(buf.c, Val(w.c));
    AddBelowModulus(buf.d, Val(w.d));
  }

  /** One block: 64 steps from the working copy, then the fold. */
  function Compress(buf: Buffer, m: seq<bv32>): Buffer
    requires |m| == 16
  {
    Fold(buf, Steps(WorkingCopy(buf), m, 64))
  }

  /** The digest registers after the first n blocks of a padded message. */
  function BufferAfter(padded: seq<bv8>, n: nat): Buffer
    requires 64 * n <= |padded|
  {
    if n == 0 then InitialBuffer() else Compress(BufferAfter(padded, n - 1), ChunkWords(padded, n - 1))
  }

  // ---------------------------------------------------------------------------
  // The same computation as RFC 1321 section 3.4 states it, on 32-bit words
  // ---------------------------------------------------------------------------

  /** The working registers after the first n RFC steps. */
  function RfcSteps(r: Regs, m: seq<bv32>, n: nat): Regs
    requires |m| == 16 && n <= 64
  {
    if n == 0 then r else RfcStep(RfcSteps(r, m, n - 1), m, n - 1)
  }

  /** The RFC's initial registers A, B, C and D (section 3.3). */
  const RfcInitial: Regs := Regs(0x67452301, 0xefcdab89, 0x98badcfe, 0x10325476)

  /** The source's initial digest registers are the RFC's, word for word. */
  lemma InitialWords()
    ensures WorkingCopy(InitialBuffer()) == RfcInitial
  {
    hide ToWord;
    ToWordOfVal(0x67452301);
    ToWordOfVal(0xefcdab89);
    ToWordOfVal(0x98badcfe);
    ToWordOfVal(0x10325476);
  }

  /** The source's 64 steps are the RFC's 64 steps. */
  lemma {:induction false} StepsAreRfcSteps(r: Regs, m: seq<bv32>, n: nat)
    requires |m| == 16 && n <= 64
    ensures Steps(r, m, n) == RfcSteps(r, m, n)
  {
    if n > 0 {
      StepsAreRfcSteps(r, m, n - 1);
      StepIsRfcStep(Steps(r, m, n - 1), m, n - 1);
    }
  }

  /** 32-bit word addition, modulo 2^32. */
  function AddWord(x: bv32, y: bv32): bv32
  {
    x + y
  }

  /** The low 32 bits of a number plus a word are `AddWord` of its low 32 bits
      and the word. */
  lemma ToWordAddWord(x: int, w: bv32)
    ensures ToWord(x + Val(w)) == AddWord(ToWord(x), w)
  {
    hide ToWord, Val;
    ToWordPlusWord(x, w);
  }

  /** Register-wise 32-bit sum: "A = A + AA" and so on, in word arithmetic. */
  function RfcAdd(r: Regs, w: Regs): Regs
  {
    Regs(AddWord(r.a, w.a), AddWord(r.b, w.b), AddWord(r.c, w.c), AddWord(r.d, w.d))
  }

  /** One block as the RFC processes it. */
  function RfcCompress(r: Regs, m: seq<bv32>): Regs
    requires |m| == 16
  {
    RfcAdd(r, RfcSteps(r, m, 64))
  }

  /** The RFC's registers after the first n blocks of a padded message. */
  function RfcAfter(padded: seq<bv8>, n: nat): Regs
    requires 64 * n <= |padded|
  {
    if n == 0 then RfcInitial else RfcCompress(RfcAfter(padded, n - 1), ChunkWords(padded, n - 1))
  }

  /** The unreduced `A += AA` of lines 215-218, read modulo 2^32, is the RFC's
      word sum. */
  lemma FoldIsRfcAdd(buf: Buffer, w: Regs)
    ensures WorkingCopy(Fold(buf, w)) == RfcAdd(WorkingCopy(buf), w)
  {
    hide ToWord, Val, AddWord;
    ToWordAddWord(buf.a, w.a);
    ToWordAddWord(buf.b, w.b);
    ToWordAddWord(buf.c, w.c);
    ToWordAddWord(buf.d, w.d);
  }

  /** After any number of blocks, the low 32 bits of the source's digest
      registers are the RFC's registers. */
  lemma {:induction false} BufferAfterIsRfc(padded: seq<bv8>, n: nat)
    requires 64 * n <= |padded|
    ensures WorkingCopy(BufferAfter(padded, n)) == RfcAfter(padded, n)
  {
    hide ToWord, Val, Steps, RfcSteps;
    if n == 0 {
      InitialWords();
    } else {
      var buf := BufferAfter(padded, n - 1);
      var m := ChunkWords(padded, n - 1);
      BufferAfterIsRfc(padded, n - 1);
      StepsAreRfcSteps(WorkingCopy(buf), m, 64);
      FoldIsRfcAdd(buf, Steps(WorkingCopy(buf), m, 64));
    }
  }
}
