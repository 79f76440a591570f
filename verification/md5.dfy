/** `md5(input, stateSetters)`: pads the input, compresses it block by block,
    and returns the 16-byte digest. Three optional callbacks observe the work:
    stage 1 receives the padded blocks as binary strings, stage 2 a register
    snapshot after the first step of each round, and stage 3 the registers of
    the last block and the hexadecimal digest.

    The callbacks are modelled by the flag `observe` and the list of calls the
    method makes to them, in order. */
module Md5 {
  import opened Md5Words
  import opened Md5Padding
  import opened Md5Compress
  import opened Md5Render

  /** Four register strings, as `setStage2` and `setStage3` receive them. */
  datatype Snapshot = Snapshot(a: string, b: string, c: string, d: string)

  /** One call to a stage callback with its argument. */
  datatype Stage =
    | Stage1(blocks: seq<seq<string>>)
    | Stage2(round: nat, state: seq<Snapshot>)
    | Stage3(working: Snapshot, saved: Snapshot, final: string)

  // ---------------------------------------------------------------------------
  // What the callbacks receive
  // ---------------------------------------------------------------------------

  /** `b.toString(2).padStart(8, "0")` for a byte of the padded message. */
  function Binary8(b: bv8): string
  {
    Padded(b as int, 2, 8)
  }

  /** `(X >>> 0).toString(2).padStart(32, "0")` for a working register. */
  function RegisterBits(w: bv32): string
  {
    Padded(Val(w), 2, 32)
  }

  /** The stage 2 snapshot of the working registers. */
  function RegsSnapshot(r: Regs): Snapshot
  {
    Snapshot(RegisterBits(r.a), RegisterBits(r.b), RegisterBits(r.c), RegisterBits(r.d))
  }

  /** `stage1Log`: for each of the first n blocks, its 64 bytes in binary. */
  function Stage1Log(padded: seq<bv8>, n: nat): seq<seq<string>>
    requires 64 * n <= |padded|
  {
    seq(n, i requires 0 <= i < n => seq(64, k requires 0 <= k < 64 => Binary8(padded[64 * i + k])))
  }

  /** The snapshots one block pushes in its first n rounds: the one of round k
      shows the registers after step 16k, the first step of the round. */
  function RoundSnapshots(start: Regs, m: seq<bv32>, n: nat): (snaps: seq<Snapshot>)
    requires |m| == 16 && n <= 4
    ensures |snaps| == n
  {
    if n == 0 then [] else RoundSnapshots(start, m, n - 1) + [RegsSnapshot(Steps(start, m, 16 * (n - 1) + 1))]
  }

  /** `stage2State.state` after the first n blocks of a padded message. */
  function Snapshots(padded: seq<bv8>, n: nat): seq<Snapshot>
    requires 64 * n <= |padded|
  {
    if n == 0 then []
    else
      var buf := BufferAfter(padded, n - 1);
      Snapshots(padded, n - 1) + RoundSnapshots(WorkingCopy(buf), ChunkWords(padded, n - 1), 4)
  }

  /** The `setStage2` calls made while `stage2State.state` grew to snaps: one
      per push, passing the round and the snapshots so far. */
  function Stage2Events(snaps: seq<Snapshot>): seq<Stage>
  {
    if snaps == [] then []
    else Stage2Events(snaps[..|snaps| - 1]) + [Stage2((|snaps| - 1) % 4 + 1, snaps)]
  }

  /** `X.toString(16).padStart(8, "0")` for a saved register. */
  function Hex8(x: nat): string
  {
    Padded(x, 16, 8)
  }

  /** The result buffer: the `Uint32Array` stores of A, B, C and D, read back
      as bytes on a little-endian host. */
  function DigestBytes(buf: Buffer): (bs: seq<bv8>)
    ensures |bs| == 16
  {
    LeBytes(ToWord(buf.a)) + LeBytes(ToWord(buf.b)) + LeBytes(ToWord(buf.c)) + LeBytes(ToWord(buf.d))
  }

  /** The `setStage3` call: the registers of the last block as `finalX - lastXX`
      and as `lastXX`, and the hexadecimal digest. */
  function Stage3Of(last: Buffer, final: Buffer): Stage
  {
    Stage3(
      Snapshot(HexTail8(final.a - last.a), HexTail8(final.b - last.b),
               HexTail8(final.c - last.c), HexTail8(final.d - last.d)),
      Snapshot(Hex8(last.a), Hex8(last.b), Hex8(last.c), Hex8(last.d)),
      HexBytes(DigestBytes(final)))
  }

  // ---------------------------------------------------------------------------
  // The digest and the trace of a whole input
  // ---------------------------------------------------------------------------

  /** The digest registers after the last block of the padded input. */
  function FinalBuffer(input: seq<bv8>): Buffer
  {
    PadLength(input);
    BufferAfter(Pad(input), NumBlocks(|input|))
  }

  /** The 16 bytes `md5` returns. */
  function Digest(input: seq<bv8>): seq<bv8>
  {
    DigestBytes(FinalBuffer(input))
  }

  /** The message digest as RFC 1321 section 3.5 defines it: A, B, C and D
      after the last block, each low-order byte first. */
  function RfcDigest(input: seq<bv8>): seq<bv8>
  {
    PadLength(input);
    var r := RfcAfter(Pad(input), NumBlocks(|input|));
    LeBytes(r.a) + LeBytes(r.b) + LeBytes(r.c) + LeBytes(r.d)
  }

  /** The source's number arithmetic gives the same bytes as RFC 1321's
      32-bit word formulation, with the same tables, padding and schedule. */
  lemma DigestIsRfcDigest(input: seq<bv8>)
    ensures Digest(input) == RfcDigest(input)
  {
    hide LeBytes, ToWord, Pad, BufferAfter, RfcAfter;
    PadLength(input);
    BufferAfterIsRfc(Pad(input), NumBlocks(|input|));
  }

  /** The calls to the three callbacks for a padded message of n blocks, in
      order. */
  function Stages(padded: seq<bv8>, n: nat): seq<Stage>
    requires 1 <= n && 64 * n <= |padded|
  {
    [Stage1(Stage1Log(padded, n))]
      + Stage2Events(Snapshots(padded, n))
      + [Stage3Of(BufferAfter(padded, n - 1), BufferAfter(padded, n))]
  }

  /** The calls to the three callbacks, in order. */
  function Trace(input: seq<bv8>): seq<Stage>
  {
    PadLength(input);
    Stages(Pad(input), NumBlocks(|input|))
  }

  // ---------------------------------------------------------------------------
  // What the callbacks receive, read back
  // ---------------------------------------------------------------------------

  /** Stage 1 holds one row per block and one string per byte; each string is
      eight binary digits that read back as the byte of the padded message. */
  lemma Stage1LogExact(padded: seq<bv8>, n: nat, i: nat, k: nat)
    requires 64 * n <= |padded| && i < n && k < 64
    ensures var log := Stage1Log(padded, n);
      |log| == n && |log[i]| == 64
      && |log[i][k]| == 8
      && ParseRadix(log[i][k], 2) == padded[64 * i + k] as int
      && forall t :: 0 <= t < 8 ==> IsBinaryChar(log[i][k][t])
  {
    hide Binary8;
    Binary8Exact(padded[64 * i + k]);
  }

  /** A stage 1 byte string is eight binary digits that read back as the
      byte. */
  lemma Binary8Exact(b: bv8)
    ensures |Binary8(b)| == 8 && ParseRadix(Binary8(b), 2) == b as int
      && forall t :: 0 <= t < 8 ==> IsBinaryChar(Binary8(b)[t])
  {
    PowValues();
    BinaryExact(b as int, 8);
  }

  /** A stage 2 register string is 32 binary digits that read back as the
      register. */
  lemma RegisterBitsExact(w: bv32)
    ensures var s := RegisterBits(w);
      |s| == 32 && ParseRadix(s, 2) == Val(w)
      && forall t :: 0 <= t < 32 ==> IsBinaryChar(s[t])
  {
    PowValues();
    BinaryExact(Val(w), 32);
  }

  /** Snapshot k of a block shows the registers after step 16k + 1. */
  lemma {:induction false} RoundSnapshotsAt(start: Regs, m: seq<bv32>, n: nat, k: nat)
    requires |m| == 16 && k < n <= 4
    ensures RoundSnapshots(start, m, n)[k] == RegsSnapshot(Steps(start, m, 16 * k + 1))
  {
    hide RegsSnapshot, Steps;
    if k < n - 1 {
      RoundSnapshotsAt(start, m, n - 1, k);
    }
  }

  /** Four snapshots per block: snapshot 4i + k shows block i's working
      registers after step 16k + 1. */
  lemma {:induction false} SnapshotsAt(padded: seq<bv8>, n: nat, i: nat, k: nat)
    requires 64 * n <= |padded| && i < n && k < 4
    ensures |Snapshots(padded, n)| == 4 * n
    ensures Snapshots(padded, n)[4 * i + k]
      == RegsSnapshot(Steps(WorkingCopy(BufferAfter(padded, i)), ChunkWords(padded, i), 16 * k + 1))
  {
    hide RegsSnapshot, Steps, BufferAfter, WorkingCopy, ChunkWords, RoundSnapshots;
    var prefix := Snapshots(padded, n - 1);
    var round := RoundSnapshots(WorkingCopy(BufferAfter(padded, n - 1)), ChunkWords(padded, n - 1), 4);
    SnapshotsLength(padded, n - 1);
    if i < n - 1 {
      SnapshotsAt(padded, n - 1, i, k);
      assert Snapshots(padded, n)[4 * i + k] == prefix[4 * i + k];
    } else {
      RoundSnapshotsAt(WorkingCopy(BufferAfter(padded, i)), ChunkWords(padded, i), 4, k);
      assert Snapshots(padded, n)[4 * i + k] == round[k];
    }
  }

  /** Four snapshots per block. */
  lemma {:induction false} SnapshotsLength(padded: seq<bv8>, n: nat)
    requires 64 * n <= |padded|
    ensures |Snapshots(padded, n)| == 4 * n
  {
    hide RoundSnapshots, BufferAfter, WorkingCopy, ChunkWords;
    if n > 0 {
      SnapshotsLength(padded, n - 1);
    }
  }

  /** One `setStage2` call per snapshot: call i passes round i mod 4 + 1 and
      the first i + 1 snapshots. */
  lemma {:induction false} Stage2EventsAt(snaps: seq<Snapshot>, i: nat)
    requires i < |snaps|
    ensures |Stage2Events(snaps)| == |snaps|
    ensures Stage2Events(snaps)[i] == Stage2(i % 4 + 1, snaps[..i + 1])
  {
    var prefix := snaps[..|snaps| - 1];
    Stage2EventsLength(prefix);
    if i < |snaps| - 1 {
      Stage2EventsAt(prefix, i);
      assert prefix[..i + 1] == snaps[..i + 1];
    } else {
      assert snaps[..i + 1] == snaps;
    }
  }

  /** One `setStage2` call per snapshot. */
  lemma {:induction false} Stage2EventsLength(snaps: seq<Snapshot>)
    ensures |Stage2Events(snaps)| == |snaps|
    decreases |snaps|
  {
    if snaps != [] {
      Stage2EventsLength(snaps[..|snaps| - 1]);
    }
  }

  /** `Hex8` of any register is at least eight lowercase hexadecimal digits
      that read back as the register: exactly eight below 2^32, and above
      that the digits of the number with no leading zero. */
  lemma Hex8Reads(x: nat)
    ensures |Hex8(x)| >= 8 && ParseRadix(Hex8(x), 16) == x
    ensures forall i :: 0 <= i < |Hex8(x)| ==> IsHexChar(Hex8(x)[i])
    ensures x < 0x1_0000_0000 ==> |Hex8(x)| == 8
    ensures |Hex8(x)| == 8 || Hex8(x)[0] != '0'
  {
    if x < 0x1_0000_0000 {
      PowValues();
      PaddedExact(x, 16, 8);
    }
    ParseToRadix(x, 16);
    ParsePadStart(ToRadix(x, 16), 8, 16);
    var t := ToRadix(x, 16);
    if |t| < 8 {
      forall i | 0 <= i < |Hex8(x)|
        ensures IsHexChar(Hex8(x)[i])
      {
        if i >= 8 - |t| {
          assert Hex8(x)[i] == t[i - (8 - |t|)];
        }
      }
    }
  }

  /** A working string of stage 3, `finalX - lastXX` with `finalX` the digest
      register after the fold, is eight hexadecimal digits that read back as
      the working register. */
  lemma WorkingHexExact(x: nat, v: bv32)
    ensures |HexTail8(x + Val(v) - x)| == 8 && ParseRadix(HexTail8(x + Val(v) - x), 16) == Val(v)
    ensures AllHex(HexTail8(x + Val(v) - x))
  {
    hide HexTail8;
    HexTail8Exact(Val(v));
  }

  /** The `setStage3` call after the last block folds w into `last`: each
      working string is eight hexadecimal digits that read back as the
      working register, each saved string reads back as the digest register
      at the start of the block, and the final string is 32 hexadecimal digits
      whose pairs read back as the digest bytes. */
  lemma Stage3OfExact(last: Buffer, w: Regs)
    ensures var ev := Stage3Of(last, Fold(last, w));
      var bs := DigestBytes(Fold(last, w));
      |ev.working.a| == 8 && ParseRadix(ev.working.a, 16) == Val(w.a)
      && |ev.working.b| == 8 && ParseRadix(ev.working.b, 16) == Val(w.b)
      && |ev.working.c| == 8 && ParseRadix(ev.working.c, 16) == Val(w.c)
      && |ev.working.d| == 8 && ParseRadix(ev.working.d, 16) == Val(w.d)
      && ParseRadix(ev.saved.a, 16) == last.a && ParseRadix(ev.saved.b, 16) == last.b
      && ParseRadix(ev.saved.c, 16) == last.c && ParseRadix(ev.saved.d, 16) == last.d
      && |ev.final| == 32
      && forall k :: 0 <= k < 16 ==> ParseRadix(ev.final[2 * k..2 * k + 2], 16) == bs[k] as int
    ensures var ev := Stage3Of(last, Fold(last, w));
      AllHex(ev.working.a) && AllHex(ev.working.b) && AllHex(ev.working.c) && AllHex(ev.working.d)
      && AllHex(ev.saved.a) && AllHex(ev.saved.b) && AllHex(ev.saved.c) && AllHex(ev.saved.d)
      && AllHex(ev.final)
    ensures var ev := Stage3Of(last, Fold(last, w));
      (last.a < 0x1_0000_0000 ==> |ev.saved.a| == 8) && (|ev.saved.a| == 8 || ev.saved.a[0] != '0')
      && (last.b < 0x1_0000_0000 ==> |ev.saved.b| == 8) && (|ev.saved.b| == 8 || ev.saved.b[0] != '0')
      && (last.c < 0x1_0000_0000 ==> |ev.saved.c| == 8) && (|ev.saved.c| == 8 || ev.saved.c[0] != '0')
      && (last.d < 0x1_0000_0000 ==> |ev.saved.d| == 8) && (|ev.saved.d| == 8 || ev.saved.d[0] != '0')
  {
    hide HexTail8, Hex8, HexBytes, DigestBytes, Val, ParseRadix;
    WorkingHexExact(last.a, w.a);
    WorkingHexExact(last.b, w.b);
    WorkingHexExact(last.c, w.c);
    WorkingHexExact(last.d, w.d);
    Hex8Reads(last.a);
    Hex8Reads(last.b);
    Hex8Reads(last.c);
    Hex8Reads(last.d);
    HexBytesLayout(DigestBytes(Fold(last, w)));
  }

  /** Reading the working and the saved strings back and adding them gives
      the digest registers after the last block: stage 3 undoes the fold only
      for display. */
  lemma Stage3Reconstructs(last: Buffer, w: Regs)
    ensures var final := Fold(last, w);
      var ev := Stage3Of(last, final);
      ParseRadix(ev.working.a, 16) + ParseRadix(ev.saved.a, 16) == final.a
      && ParseRadix(ev.working.b, 16) + ParseRadix(ev.saved.b, 16) == final.b
      && ParseRadix(ev.working.c, 16) + ParseRadix(ev.saved.c, 16) == final.c
      && ParseRadix(ev.working.d, 16) + ParseRadix(ev.saved.d, 16) == final.d
  {
    hide Stage3Of, ParseRadix, Val;
    Stage3OfExact(last, w);
  }

  /** The calls for n blocks: the `setStage1` call, four `setStage2` calls per
      block, and the `setStage3` call, in that order. */
  lemma StagesLayout(padded: seq<bv8>, n: nat, i: nat)
    requires 1 <= n && 64 * n <= |padded| && i < 4 * n
    ensures |Snapshots(padded, n)| == 4 * n
    ensures var t := Stages(padded, n);
      |t| == 4 * n + 2
      && t[0] == Stage1(Stage1Log(padded, n))
      && t[1 + i] == Stage2(i % 4 + 1, Snapshots(padded, n)[..i + 1])
      && t[4 * n + 1] == Stage3Of(BufferAfter(padded, n - 1), BufferAfter(padded, n))
  {
    hide Stage1Log, Stage3Of, BufferAfter, Snapshots, Stage2Events;
    SnapshotsLength(padded, n);
    Stage2EventsAt(Snapshots(padded, n), i);
  }

  // ---------------------------------------------------------------------------
  // The method
  // ---------------------------------------------------------------------------

  lemma {:induction false} Stage2EventsExtend(snaps: seq<Snapshot>, s: Snapshot)
    ensures Stage2Events(snaps + [s]) == Stage2Events(snaps) + [Stage2(|snaps| % 4 + 1, snaps + [s])]
  {
    assert (snaps + [s])[..|snaps|] == snaps;
  }

  lemma Mod4(x: int, q: int, r: int)
    requires x == 4 * q + r && 0 <= r < 4
    ensures x % 4 == r
  {
  }

  /** How many snapshots the first j steps of a block push. */
  lemma {:induction false} PushCount(j: nat)
    ensures j % 16 == 0 ==> (j + 16) / 16 == j / 16 + 1 && (j + 15) / 16 == j / 16 && 16 * (j / 16) == j
    ensures j % 16 != 0 ==> (j + 16) / 16 == (j + 15) / 16
  {
  }

  /** The push in round q extends the block's snapshots by the registers
      after the round's first step. */
  lemma {:induction false} PushSnapshot(start: Regs, m: seq<bv32>, snaps0: seq<Snapshot>, snaps: seq<Snapshot>, q: nat)
    requires |m| == 16 && q < 4
    requires snaps == snaps0 + RoundSnapshots(start, m, q)
    ensures snaps + [RegsSnapshot(Steps(start, m, 16 * q + 1))] == snaps0 + RoundSnapshots(start, m, q + 1)
  {
    var snap := RegsSnapshot(Steps(start, m, 16 * q + 1));
    assert snaps + [snap] == snaps0 + (RoundSnapshots(start, m, q) + [snap]);
  }

  /** The `setStage2` call after a push passes round `|snaps| % 4 + 1`. */
  lemma {:induction false} PushEvent(head: Stage, snaps: seq<Snapshot>, snap: Snapshot, block: nat, j: nat)
    requires j < 64 && |snaps| == 4 * block + j / 16
    ensures [head] + Stage2Events(snaps) + [Stage2(j / 16 + 1, snaps + [snap])]
      == [head] + Stage2Events(snaps + [snap])
  {
    Mod4(|snaps|, block, j / 16);
    Stage2EventsExtend(snaps, snap);
  }

  /** Lines 170-196: one step, the switch on `Math.floor(j / 16)` choosing the
      round function and the message word, then the register shift. */
  method RunStep(AA0: bv32, BB0: bv32, CC0: bv32, DD0: bv32, m: seq<bv32>, j: nat)
    returns (AA: bv32, BB: bv32, CC: bv32, DD: bv32)
    requires |m| == 16 && j < 64
    ensures Regs(AA, BB, CC, DD) == Step(Regs(AA0, BB0, CC0, DD0), m, j)
  {
    AA, BB, CC, DD := AA0, BB0, CC0, DD0;
    var E: bv32;
    var g: nat;
    match j / 16 {
      case 0 =>
        E := F(BB, CC, DD);
        g := j;
      case 1 =>
        E := G(BB, CC, DD);
        g := (j * 5 + 1) % 16;
      case 2 =>
        E := H(BB, CC, DD);
        g := (j * 3 + 5) % 16;
      case _ =>
        E := I(BB, CC, DD);
        g := (j * 7) % 16;
    }
    var temp := DD;
    DD := CC;
    CC := BB;
    var rotated := RotateLeft(ToWord(Unsigned32Add([Val(AA), Val(E), Val(K[j]), Val(m[g])])), S[j]);
    BB := ToWord(Unsigned32Add([Val(BB), Val(rotated.value)]));
    AA := temp;
  }

  /** Lines 198-212: push the snapshot of the registers after step j and,
      when observed, pass `stage2State` to `setStage2` with round
      `Math.floor(j / 16) + 1`. */
  method Record(regs: Regs, j: nat, snaps0: seq<Snapshot>, events0: seq<Stage>,
                observe: bool, ghost head: Stage, ghost block: nat)
    returns (snaps: seq<Snapshot>, events: seq<Stage>)
    requires j < 64 && |snaps0| == 4 * block + j / 16
    requires events0 == if observe then [head] + Stage2Events(snaps0) else []
    ensures snaps == snaps0 + [RegsSnapshot(regs)]
    ensures events == if observe then [head] + Stage2Events(snaps) else []
  {
    var state := Snapshot(RegisterBits(regs.a), RegisterBits(regs.b), RegisterBits(regs.c), RegisterBits(regs.d));
    snaps := snaps0 + [state];
    events := events0;
    if observe {
      PushEvent(head, snaps0, state, block, j);
      events := events + [Stage2(j / 16 + 1, snaps)];
    }
  }

  /** Lines 169-213: the 64 steps of one block on the working registers, with
      the switch on the round, the register shift, and a snapshot pushed (and
      passed to `setStage2` when observed) after the first step of each round. */
  method RunSteps(start: Regs, m: seq<bv32>, snaps0: seq<Snapshot>, events0: seq<Stage>,
                  observe: bool, ghost head: Stage, ghost block: nat)
    returns (r: Regs, snaps: seq<Snapshot>, events: seq<Stage>)
    requires |m| == 16 && |snaps0| == 4 * block
    requires events0 == if observe then [head] + Stage2Events(snaps0) else []
    ensures r == Steps(start, m, 64)
    ensures snaps == snaps0 + RoundSnapshots(start, m, 4)
    ensures events == if observe then [head] + Stage2Events(snaps) else []
  {
    hide Step, RegsSnapshot;
    var AA, BB, CC, DD := start.a, start.b, start.c, start.d;
    snaps, events := snaps0, events0;
    for j := 0 to 64
      invariant Regs(AA, BB, CC, DD) == Steps(start, m, j)
      invariant snaps == snaps0 + RoundSnapshots(start, m, (j + 15) / 16)
      invariant |snaps| == 4 * block + (j + 15) / 16
      invariant events == if observe then [head] + Stage2Events(snaps) else []
    {
      AA, BB, CC, DD := RunStep(AA, BB, CC, DD, m, j);
      assert Regs(AA, BB, CC, DD) == Steps(start, m, j + 1);
      if j % 16 == 0 {
        PushCount(j);
        PushSnapshot(start, m, snaps0, snaps, j / 16);
        snaps, events := Record(Regs(AA, BB, CC, DD), j, snaps, events, observe, head, block);
      } else {
        PushCount(j);
      }
    }
    r := Regs(AA, BB, CC, DD);
  }

  /** Lines 139-227: the block loop. Each block is read with `getChunk`, its
      working copy goes through the 64 steps and is added back into `A`..`D`;
      the registers at the start and at the end of the last block are saved. */
  method RunBlocks(inputBytes: array<bv8>, numBlocks: nat, events0: seq<Stage>, observe: bool, ghost head: Stage)
    returns (digestRegs: Buffer, last: Buffer, final: Buffer, snaps: seq<Snapshot>, events: seq<Stage>)
    requires inputBytes.Length == 64 * numBlocks && numBlocks >= 1
    requires events0 == if observe then [head] else []
    ensures digestRegs == BufferAfter(inputBytes[..], numBlocks)
    ensures last == BufferAfter(inputBytes[..], numBlocks - 1)
    ensures final == BufferAfter(inputBytes[..], numBlocks)
    ensures snaps == Snapshots(inputBytes[..], numBlocks)
    ensures events == if observe then [head] + Stage2Events(snaps) else []
  {
    hide Steps, Step, RoundSnapshots, RegsSnapshot, ToWord, Val;
    ghost var padded := inputBytes[..];
    var A: nat, B: nat, C: nat, D: nat := A0, B0, C0, D0;
    last, final := Buffer(0, 0, 0, 0), Buffer(0, 0, 0, 0);
    snaps, events := [], events0;
    for i := 0 to numBlocks
      invariant Buffer(A, B, C, D) == BufferAfter(padded, i)
      invariant |snaps| == 4 * i && snaps == Snapshots(padded, i)
      invariant events == if observe then [head] + Stage2Events(snaps) else []
      invariant i == numBlocks ==> last == BufferAfter(padded, numBlocks - 1)
      invariant i == numBlocks ==> final == BufferAfter(padded, numBlocks)
    {
      var m := GetChunk(i, inputBytes);
      var AA, BB, CC, DD := ToWord(A), ToWord(B), ToWord(C), ToWord(D);
      if i == numBlocks - 1 {
        last := Buffer(A, B, C, D);
      }
      var r;
      r, snaps, events := RunSteps(Regs(AA, BB, CC, DD), m, snaps, events, observe, head, i);
      A, B, C, D := A + Val(r.a), B + Val(r.b), C + Val(r.c), D + Val(r.d);
      if i == numBlocks - 1 {
        final := Buffer(A, B, C, D);
      }
    }
    digestRegs := Buffer(A, B, C, D);
  }

  /** Lines 79-261: pad the input, log stage 1, run the blocks, log stage 3
      from the saved registers, and return the digest. The digest does not
      depend on whether the stages are observed. */
  method Md5(input: seq<bv8>, observe: bool) returns (digest: seq<bv8>, events: seq<Stage>)
    ensures digest == Digest(input)
    ensures events == if observe then Trace(input) else []
  {
    hide BufferAfter, Snapshots, Stage2Events, Stage1Log, HexBytes, HexTail8, Hex8, LeBytes, ToWord, Val;
    var inputBytes := PadMessage(input);
    var size := |input|;
    var paddingLength := PaddingLength(size);
    var numBlocks := (size + paddingLength + 63) / 64;
    PadLength(input);

    var stage1Log := Stage1Log(inputBytes[..], numBlocks);
    var head := Stage1(stage1Log);
    events := if observe then [head] else [];

    var regs, last, final, snaps;
    ghost var padded := inputBytes[..];
    regs, last, final, snaps, events := RunBlocks(inputBytes, numBlocks, events, observe, head);
    assert inputBytes[..] == padded;

    var working := Snapshot(HexTail8(final.a - last.a), HexTail8(final.b - last.b),
                            HexTail8(final.c - last.c), HexTail8(final.d - last.d));
    var saved := Snapshot(Hex8(last.a), Hex8(last.b), Hex8(last.c), Hex8(last.d));
    digest := LeBytes(ToWord(regs.a)) + LeBytes(ToWord(regs.b)) + LeBytes(ToWord(regs.c)) + LeBytes(ToWord(regs.d));
    var finalHash := HexBytes(digest);
    assert digest == DigestBytes(regs);
    if observe {
      events := events + [Stage3(working, saved, finalHash)];
      assert events == Stages(padded, numBlocks);
    }
  }
}
