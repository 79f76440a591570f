/** Message padding (RFC 1321 sections 3.1 and 3.2): the input bytes, then
    0x80 and zero bytes up to 56 modulo 64, then the length of the input in
    bits as two little-endian 32-bit words. */
module Md5Padding {
  import opened Md5Words

  /** n zero bytes. */
  function Zeros(n: nat): (z: seq<bv8>)
    ensures |z| == n && forall k :: 0 <= k < n ==> z[k] == 0
  {
    seq(n, k => 0)
  }

  /** `PADDING`: the byte 0x80 followed by 63 zero bytes. */
  const PADDING: seq<bv8> := [0x80] + Zeros(63)

  /** `paddingLength`: the number of padding bytes, chosen so that the input and
      its padding end 8 bytes short of a multiple of 64. */
  function PaddingLength(size: nat): (p: nat)
    ensures 1 <= p <= 64 && p <= |PADDING|
    ensures (size + p) % 64 == 56
  {
    if size % 64 < 56 then 56 - size % 64 else 56 + 64 - size % 64
  }

  /** At least one padding byte and at most 64: the two conditions of the
      standard fix the padding length. */
  lemma PaddingLengthUnique(size: nat, p: nat)
    requires 1 <= p <= 64 && (size + p) % 64 == 56
    ensures p == PaddingLength(size)
  {
    var q := PaddingLength(size);
    assert (p - q) % 64 == 0 by {
      assert size + p == 64 * ((size + p) / 64) + 56;
      assert size + q == 64 * ((size + q) / 64) + 56;
    }
  }

  /** `numBlocks`: `Math.ceil((size + paddingLength) / 64)`. */
  function NumBlocks(size: nat): nat
  {
    (size + PaddingLength(size) + 63) / 64
  }

  /** `sizeBitsLower`: the bit length modulo 2^32. */
  function SizeBitsLower(size: nat): nat
  {
    ToUint32(size * 8)
  }

  /** `sizeBitsUpper`: the bit length divided by 2^32, truncated, modulo 2^32. */
  function SizeBitsUpper(size: nat): nat
  {
    ToUint32(size * 8 / M)
  }

  /** The eight length bytes: byte k of each length word is `(x >>> 8k) & 0xff`. */
  function LengthBytes(size: nat): (bs: seq<bv8>)
    ensures |bs| == 8
  {
    LeBytes(ToWord(SizeBitsLower(size))) + LeBytes(ToWord(SizeBitsUpper(size)))
  }

  /** The length bytes read back as two little-endian words give the bit length
      modulo 2^32 and the bit length divided by 2^32, modulo 2^32. */
  lemma LengthBytesValue(size: nat)
    ensures var bs := LengthBytes(size);
      Word(bs[0], bs[1], bs[2], bs[3]) == ToWord(size * 8)
      && Word(bs[4], bs[5], bs[6], bs[7]) == ToWord(size * 8 / M)
  {
    var bs := LengthBytes(size);
    assert bs[..4] == LeBytes(ToWord(SizeBitsLower(size)));
    assert bs[4..] == LeBytes(ToWord(SizeBitsUpper(size)));
    ToWordOfUint32(size * 8);
    ToWordOfUint32(size * 8 / M);
    WordOfLeBytes(ToWord(SizeBitsLower(size)));
    WordOfLeBytes(ToWord(SizeBitsUpper(size)));
  }

  /** The padded message `inputBytes` after the copy, padding and length loops. */
  function Pad(input: seq<bv8>): seq<bv8>
  {
    input + PADDING[..PaddingLength(|input|)] + LengthBytes(|input|)
  }

  /** The padded length is a positive multiple of 64, `numBlocks` blocks long. */
  lemma PadLength(input: seq<bv8>)
    ensures |Pad(input)| == |input| + PaddingLength(|input|) + 8
    ensures |Pad(input)| == 64 * NumBlocks(|input|) && NumBlocks(|input|) >= 1
  {
    hide LeBytes, ToWord;
    var n := |input| + PaddingLength(|input|);
    assert |Pad(input)| == n + 8;
    BlocksCover(n);
    assert NumBlocks(|input|) == (n + 63) / 64;
  }

  lemma BlocksCover(n: nat)
    requires n % 64 == 56
    ensures (n + 63) / 64 * 64 == n + 8 && (n + 63) / 64 >= 1
  {
    var q := n / 64;
    assert n == 64 * q + 56;
    assert n + 63 == 64 * (q + 1) + 55;
  }

  /** The layout of the padded message: the input, 0x80, zero bytes, and the
      length bytes, with nothing else in between. */
  lemma PadLayout(input: seq<bv8>)
    ensures var padded, size, p := Pad(input), |input|, PaddingLength(|input|);
      |padded| == size + p + 8
      && padded[..size] == input
      && padded[size] == 0x80
      && (forall k :: size < k < size + p ==> padded[k] == 0)
      && padded[size + p..] == LengthBytes(size)
  {
    var padded, size, p := Pad(input), |input|, PaddingLength(|input|);
    assert padded[size] == PADDING[0];
    forall k | size < k < size + p
      ensures padded[k] == 0
    {
      assert padded[k] == PADDING[k - size];
    }
  }

  /** Two inputs with the same padded message are equal. */
  lemma PadInjective(x: seq<bv8>, y: seq<bv8>)
    requires Pad(x) == Pad(y)
    ensures x == y
  {
    PadLayout(x);
    PadLayout(y);
  }

  /** Lines 99-101 of `md5`: copy the input into the front of the buffer. */
  method CopyInput(input: seq<bv8>, inputBytes: array<bv8>)
    requires |input| <= inputBytes.Length
    modifies inputBytes
    ensures inputBytes[..|input|] == input
    ensures inputBytes[|input|..] == old(inputBytes[|input|..])
  {
    for i := 0 to |input|
      invariant inputBytes[..i] == input[..i]
      invariant inputBytes[|input|..] == old(inputBytes[|input|..])
    {
      inputBytes[i] := input[i];
    }
  }

  /** Lines 104-106 of `md5`: copy the first `paddingLength` bytes of `PADDING`
      to position `size`. */
  method CopyPadding(inputBytes: array<bv8>, size: nat, paddingLength: nat)
    requires paddingLength <= |PADDING| && size + paddingLength <= inputBytes.Length
    modifies inputBytes
    ensures inputBytes[..size] == old(inputBytes[..size])
    ensures inputBytes[size..size + paddingLength] == PADDING[..paddingLength]
    ensures inputBytes[size + paddingLength..] == old(inputBytes[size + paddingLength..])
  {
    for i := 0 to paddingLength
      invariant inputBytes[..size] == old(inputBytes[..size])
      invariant inputBytes[size..size + i] == PADDING[..i]
      invariant inputBytes[size + paddingLength..] == old(inputBytes[size + paddingLength..])
    {
      inputBytes[size + i] := PADDING[i];
    }
  }

  /** Lines 109-120 of `md5`: the two length words and the eight stores of their
      bytes, `(sizeBitsLower >>> 8k) & 0xff` then the same for `sizeBitsUpper`,
      written here as one loop over the eight positions. */
  method StoreLength(inputBytes: array<bv8>, at: nat, size: nat)
    requires at + 8 == inputBytes.Length
    modifies inputBytes
    ensures inputBytes[..at] == old(inputBytes[..at])
    ensures inputBytes[at..] == LengthBytes(size)
  {
    hide LeBytes, ToWord, SizeBitsLower, SizeBitsUpper;
    var sizeBitsLower := SizeBitsLower(size);
    var sizeBitsUpper := SizeBitsUpper(size);
    var lengthBytes := LeBytes(ToWord(sizeBitsLower)) + LeBytes(ToWord(sizeBitsUpper));
    for k := 0 to 8
      invariant inputBytes[..at] == old(inputBytes[..at])
      invariant inputBytes[at..at + k] == lengthBytes[..k]
    {
      inputBytes[at + k] := lengthBytes[k];
    }
    assert inputBytes[at..] == inputBytes[at..at + 8];
  }

  /** Lines 93-120 of `md5`: allocate the zero-filled buffer, copy the input,
      copy `paddingLength` bytes of `PADDING`, and store the length bytes. */
  method PadMessage(input: seq<bv8>) returns (inputBytes: array<bv8>)
    ensures fresh(inputBytes)
    ensures inputBytes[..] == Pad(input)
  {
    hide LengthBytes, LeBytes, ToWord, PaddingLength, Zeros;
    var size := |input|;
    var paddingLength := PaddingLength(size);
    inputBytes := new bv8[size + paddingLength + 8](_ => 0);
    CopyInput(input, inputBytes);
    CopyPadding(inputBytes, size, paddingLength);
    ghost var front := inputBytes[..size + paddingLength];
    assert front == input + PADDING[..paddingLength] by {
      assert front == inputBytes[..size] + inputBytes[size..size + paddingLength];
    }
    StoreLength(inputBytes, size + paddingLength, size);
    assert inputBytes[..] == inputBytes[..size + paddingLength] + inputBytes[size + paddingLength..];
  }
}
