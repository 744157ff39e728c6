/**
  The three SHA-256 drivers of the runtime over one block transform: the one-shot
  hash of a buffer, the streaming hash of a file, and the digest of a snapshot.

  The transform is a parameter, so every statement holds for any compression
  function. `Padded` is the padding of section 5.1.1 of FIPS 180-4 and `Digest`
  the blockwise hash of section 6.2.
 */
module Sha256 {
  import opened Words

  type State = s: seq<word> | |s| == 8 witness [0, 0, 0, 0, 0, 0, 0, 0]
  type Block = s: seq<byte> | |s| == 64 witness seq(64, i => 0)
  type Transform = (State, Block) -> State

  const INITIAL: State := [0x6a09e667, 0xbb67ae85, 0x3c6ef372, 0xa54ff53a,
                           0x510e527f, 0x9b05688c, 0x1f83d9ab, 0x5be0cd19]
  const U64: nat := 0x1_0000_0000_0000_0000

  // ----- the standard's hash -----

  function Zeros(n: nat): (s: seq<byte>)
    ensures |s| == n
  {
    seq(n, i => 0)
  }

  /** The low `n` bytes of `v`, most significant first. */
  function BigEndian(v: nat, n: nat): (s: seq<byte>)
    ensures |s| == n
  {
    if n == 0 then [] else BigEndian(v / 256, n - 1) + [v % 256]
  }

  /** How many zero bytes make message, marker, zeros and length a whole number of blocks. */
  function ZeroCount(n: nat): nat
  {
    (119 - n % 64) % 64
  }

  function Padded(m: seq<byte>): seq<byte>
  {
    m + [0x80] + Zeros(ZeroCount(|m|)) + BigEndian(8 * |m| % U64, 8)
  }

  function Absorb(t: Transform, h: State, s: seq<byte>): State
    requires |s| % 64 == 0
    decreases |s|
  {
    if s == [] then h else Absorb(t, t(h, s[..64]), s[64..])
  }

  lemma PaddedIsWhole(m: seq<byte>)
    ensures |Padded(m)| % 64 == 0
  {
    hide BigEndian, ZeroCount;
    ZeroCountLeast(|m|, 0);
  }

  function Digest(t: Transform, m: seq<byte>): State
  {
    PaddedIsWhole(m);
    Absorb(t, INITIAL, Padded(m))
  }

  // ----- the initial value of section 5.3.3 -----

  const PRIMES: seq<nat> := [2, 3, 5, 7, 11, 13, 17, 19]

  /** `v` is the largest number whose square is at most `n`. */
  predicate IsRoot(v: nat, n: nat)
  {
    v * v <= n < (v + 1) * (v + 1)
  }

  /** `w` is the first 32 bits of the fractional part of the square root of `p`. */
  ghost predicate RootFraction(w: word, p: nat)
  {
    exists r: nat :: IsRoot(r, p) && IsRoot(0x1_0000_0000 * r + w, U64 * p)
  }

  /** The eight words of section 5.3.3 of FIPS 180-4. */
  ghost predicate StandardStart(h: State)
  {
    forall i :: 0 <= i < 8 ==> RootFraction(h[i], PRIMES[i])
  }

  /** `h` is what the standard's start value becomes over the blocks of the padded message. */
  ghost predicate IsHash(t: Transform, m: seq<byte>, h: State)
  {
    PaddedIsWhole(m);
    exists start :: StandardStart(start) && h == Absorb(t, start, Padded(m))
  }

  lemma RootNotLess(v: nat, w: nat, n: nat)
    requires IsRoot(v, n) && IsRoot(w, n)
    ensures w <= v
  {
    hide *;
    if v + 1 <= w {
      SquaresGrow(v + 1, w);
      RootBounds(v, n);
      RootBounds(w, n);
    }
  }

  lemma RootBounds(v: nat, n: nat)
    requires IsRoot(v, n)
    ensures v * v <= n < (v + 1) * (v + 1)
  {
  }

  lemma SquaresGrow(a: nat, b: nat)
    requires a <= b
    ensures a * a <= b * b
  {
    Monotone(a, a, b);
    Monotone(b, a, b);
  }

  lemma Monotone(c: nat, a: nat, b: nat)
    requires a <= b
    ensures c * a <= c * b == b * c
  {
  }

  lemma RootUnique(v: nat, w: nat, n: nat)
    requires IsRoot(v, n) && IsRoot(w, n)
    ensures v == w
  {
    hide IsRoot;
    RootNotLess(v, w, n);
    RootNotLess(w, v, n);
  }

  lemma FractionUnique(v: word, w: word, p: nat)
    requires RootFraction(v, p) && RootFraction(w, p)
    ensures v == w
  {
    var r: nat :| IsRoot(r, p) && IsRoot(0x1_0000_0000 * r + v, U64 * p);
    var q: nat :| IsRoot(q, p) && IsRoot(0x1_0000_0000 * q + w, U64 * p);
    hide IsRoot;
    RootUnique(r, q, p);
    RootUnique(0x1_0000_0000 * r + v, 0x1_0000_0000 * q + w, U64 * p);
  }

  lemma HasRoot(r: nat, w: word, p: nat)
    requires IsRoot(r, p) && IsRoot(0x1_0000_0000 * r + w, U64 * p)
    ensures RootFraction(w, p)
  {
  }

  lemma InitialFractions()
    ensures RootFraction(INITIAL[0], 2) && RootFraction(INITIAL[1], 3)
    ensures RootFraction(INITIAL[2], 5) && RootFraction(INITIAL[3], 7)
    ensures RootFraction(INITIAL[4], 11) && RootFraction(INITIAL[5], 13)
    ensures RootFraction(INITIAL[6], 17) && RootFraction(INITIAL[7], 19)
  {
    hide RootFraction;
    HasRoot(1, 0x6a09e667, 2);
    HasRoot(1, 0xbb67ae85, 3);
    HasRoot(2, 0x3c6ef372, 5);
    HasRoot(2, 0xa54ff53a, 7);
    HasRoot(3, 0x510e527f, 11);
    HasRoot(3, 0x9b05688c, 13);
    HasRoot(4, 0x1f83d9ab, 17);
    HasRoot(4, 0x5be0cd19, 19);
  }

  /** The constants of the runtime are those of the standard, and the standard fixes each of them. */
  lemma StartIff(h: State)
    ensures StandardStart(h) <==> h == INITIAL
  {
    hide RootFraction;
    InitialFractions();
    assert StandardStart(INITIAL);
    if StandardStart(h) {
      forall i | 0 <= i < 8
        ensures h[i] == INITIAL[i]
      {
        FractionUnique(h[i], INITIAL[i], PRIMES[i]);
      }
    }
  }

  lemma HashIff(t: Transform, m: seq<byte>, h: State)
    ensures IsHash(t, m, h) <==> h == Digest(t, m)
  {
    hide StandardStart, Absorb, Padded, INITIAL;
    PaddedIsWhole(m);
    StartIff(INITIAL);
    if IsHash(t, m, h) {
      var start :| StandardStart(start) && h == Absorb(t, start, Padded(m));
      StartIff(start);
    }
  }

  // ----- facts about absorbing and padding -----

  lemma {:induction false} AbsorbConcat(t: Transform, h: State, a: seq<byte>, b: seq<byte>)
    requires |a| % 64 == 0 && |b| % 64 == 0
    ensures Absorb(t, h, a + b) == Absorb(t, Absorb(t, h, a), b)
    decreases |a|
  {
    if a == [] {
      assert a + b == b;
    } else {
      assert (a + b)[..64] == a[..64] && (a + b)[64..] == a[64..] + b;
      AbsorbConcat(t, t(h, a[..64]), a[64..], b);
    }
  }

  lemma AbsorbOne(t: Transform, h: State, s: seq<byte>, b: Block)
    requires |s| % 64 == 0
    ensures Absorb(t, h, s + b) == t(Absorb(t, h, s), b)
  {
    AbsorbConcat(t, h, s, b);
    assert b[..64] == b && b[64..] == [];
    assert Absorb(t, Absorb(t, h, s), b) == Absorb(t, t(Absorb(t, h, s), b), []);
  }

  /** The last one or two blocks: what is left of the message, marker, zeros and length. */
  function LastBlocks(rest: seq<byte>, bits: nat): (s: seq<byte>)
    requires |rest| < 64
    ensures |s| == if |rest| < 56 then 64 else 128
  {
    if |rest| < 56 then rest + [0x80] + Zeros(55 - |rest|) + BigEndian(bits, 8)
    else rest + [0x80] + Zeros(63 - |rest|) + (Zeros(56) + BigEndian(bits, 8))
  }

  lemma ZeroCountSplits(n: nat, q: nat)
    requires q % 64 == 0 && q <= n < q + 64
    ensures ZeroCount(n) == if n - q < 56 then 55 - (n - q) else 119 - (n - q)
  {
    assert n % 64 == n - q;
  }

  lemma PaddedSplits(m: seq<byte>, q: nat)
    requires q % 64 == 0 && q <= |m| < q + 64
    ensures Padded(m) == m[..q] + LastBlocks(m[q..], 8 * |m| % U64)
  {
    hide BigEndian, ZeroCount, Zeros;
    ZeroCountSplits(|m|, q);
    var rest, bits := m[q..], BigEndian(8 * |m| % U64, 8);
    assert m == m[..q] + rest;
    if |rest| < 56 {
      Regroup(m[..q], rest, Zeros(55 - |rest|), bits);
    } else {
      ZerosAdd(63 - |rest|, 56);
      RegroupLong(m[..q], rest, Zeros(63 - |rest|), Zeros(56), bits);
    }
  }

  lemma Regroup(a: seq<byte>, b: seq<byte>, z: seq<byte>, c: seq<byte>)
    ensures a + b + [0x80] + z + c == a + (b + [0x80] + z + c)
  {
  }

  lemma RegroupLong(a: seq<byte>, b: seq<byte>, y: seq<byte>, z: seq<byte>, c: seq<byte>)
    ensures a + b + [0x80] + (y + z) + c == a + (b + [0x80] + y + (z + c))
  {
  }

  lemma ZerosAdd(j: nat, k: nat)
    ensures Zeros(j + k) == Zeros(j) + Zeros(k)
  {
  }

  /** `h` is the state after the first `q` bytes of `m`, a whole number of blocks. */
  ghost predicate Consumed(t: Transform, m: seq<byte>, q: nat, h: State)
  {
    q % 64 == 0 && q <= |m| && h == Absorb(t, INITIAL, m[..q])
  }

  lemma ConsumedNone(t: Transform, m: seq<byte>)
    ensures Consumed(t, m, 0, INITIAL)
  {
    assert m[..0] == [];
  }

  lemma ConsumedNext(t: Transform, m: seq<byte>, q: nat, h: State)
    requires Consumed(t, m, q, h) && q + 64 <= |m|
    ensures Consumed(t, m, q + 64, t(h, m[q..q + 64]))
  {
    hide Absorb;
    assert m[..q + 64] == m[..q] + m[q..q + 64];
    AbsorbOne(t, INITIAL, m[..q], m[q..q + 64]);
  }

  lemma ConsumedAll(t: Transform, m: seq<byte>, q: nat, h: State)
    requires Consumed(t, m, q, h) && |m| < q + 64
    ensures Digest(t, m) == Absorb(t, h, LastBlocks(m[q..], 8 * |m| % U64))
  {
    hide Absorb, LastBlocks, Padded;
    PaddedSplits(m, q);
    AbsorbConcat(t, INITIAL, m[..q], LastBlocks(m[q..], 8 * |m| % U64));
  }

  /** The zero count is the least one that completes a block, as the standard asks. */
  lemma ZeroCountLeast(n: nat, k: nat)
    ensures (n + 1 + ZeroCount(n) + 8) % 64 == 0
    ensures (n + 1 + k + 8) % 64 == 0 ==> ZeroCount(n) <= k
  {
  }

  lemma {:induction false} BigEndianInjective(v: nat, w: nat, n: nat)
    requires v < Pow2(8 * n) && w < Pow2(8 * n)
    requires BigEndian(v, n) == BigEndian(w, n)
    ensures v == w
    decreases n
  {
    if n != 0 {
      Pow2Adds(8, 8 * (n - 1));
      Pow2Values();
      var s, t := BigEndian(v, n), BigEndian(w, n);
      assert s[..n - 1] == BigEndian(v / 256, n - 1) && s[n - 1] == v % 256;
      assert t[..n - 1] == BigEndian(w / 256, n - 1) && t[n - 1] == w % 256;
      BigEndianInjective(v / 256, w / 256, n - 1);
    }
  }

  /** Different messages (of a length the 64-bit field can hold) are padded differently. */
  lemma PaddedInjective(m: seq<byte>, n: seq<byte>)
    requires 8 * |m| < U64 && 8 * |n| < U64
    requires Padded(m) == Padded(n)
    ensures m == n
  {
    hide BigEndian, Pow2, ZeroCount;
    var p := Padded(m);
    var lm, ln := BigEndian(8 * |m|, 8), BigEndian(8 * |n|, 8);
    assert p[|p| - 8..] == lm;
    assert p[|p| - 8..] == ln;
    Pow2Values();
    Pow2Adds(32, 32);
    BigEndianInjective(8 * |m|, 8 * |n|, 8);
    assert p[..|m|] == m && p[..|n|] == n;
  }

  // ----- the shared pieces of the drivers -----

  /** `v >> (8 * i)`. */
  function ShiftBytes(v: nat, i: nat): nat
    decreases i
  {
    if i == 0 then v else ShiftBytes(v, i - 1) / 256
  }

  /** The loop that stores the bit length into the last eight bytes. */
  method PutLength(block: array<byte>, bits: nat)
    requires block.Length == 64
    modifies block
    ensures block[..56] == old(block[..56])
    ensures block[56..] == BigEndian(bits, 8)
  {
    ghost var front := block[..56];
    for i := 0 to 8
      invariant block[..56] == front
      invariant BigEndian(bits, 8) == BigEndian(ShiftBytes(bits, i), 8 - i) + block[64 - i..]
    {
      ghost var done, v := block[64 - i..], ShiftBytes(bits, i);
      block[63 - i] := ShiftBytes(bits, i) % 256;
      assert block[63 - i..] == [v % 256] + done;
      assert BigEndian(v, 8 - i) == BigEndian(v / 256, 7 - i) + [v % 256];
      assert BigEndian(v / 256, 7 - i) + [v % 256] + done == BigEndian(v / 256, 7 - i) + ([v % 256] + done);
    }
    assert block[56..] == [] + block[56..];
  }

  method Fill(block: array<byte>, from: nat, to: nat, v: byte)
    requires from <= to <= block.Length
    modifies block
    ensures forall k :: 0 <= k < block.Length ==> block[k] == if from <= k < to then v else old(block[k])
  {
    forall k | from <= k < to {
      block[k] := v;
    }
  }

  method CopyIn(block: array<byte>, at: nat, src: seq<byte>)
    requires at + |src| <= block.Length
    modifies block
    ensures forall k :: 0 <= k < block.Length ==>
              block[k] == if at <= k < at + |src| then src[k - at] else old(block[k])
    ensures block[..at + |src|] == old(block[..at]) + src
  {
    forall k | 0 <= k < |src| {
      block[at + k] := src[k];
    }
  }

  /** End of the one-shot and snapshot drivers: `rem >= 56` decides on a second block. */
  method PadRemainder(t: Transform, h0: State, rest: seq<byte>, bits: nat) returns (h: State)
    requires |rest| < 64
    ensures h == Absorb(t, h0, LastBlocks(rest, bits))
  {
    hide BigEndian, Absorb;
    h := h0;
    var block := new byte[64];
    Fill(block, 0, 64, 0);
    CopyIn(block, 0, rest);
    block[|rest|] := 0x80;
    ghost var first := block[..];
    assert first == rest + [0x80] + Zeros(63 - |rest|);
    if |rest| >= 56 {
      h := t(h, block[..]);
      Fill(block, 0, 64, 0);
    }
    ghost var front := block[..56];
    PutLength(block, bits);
    assert block[..] == front + BigEndian(bits, 8);
    if |rest| >= 56 {
      assert front == Zeros(56);
      assert LastBlocks(rest, bits) == first + block[..];
      AbsorbTwo(t, h0, first, block[..]);
    } else {
      assert front == rest + [0x80] + Zeros(55 - |rest|);
      assert LastBlocks(rest, bits) == block[..];
      AbsorbSingle(t, h0, block[..]);
    }
    h := t(h, block[..]);
  }

  lemma AbsorbSingle(t: Transform, h: State, b: Block)
    ensures Absorb(t, h, b) == t(h, b)
  {
    AbsorbOne(t, h, [], b);
    assert [] + b == b;
  }

  lemma AbsorbTwo(t: Transform, h: State, a: Block, b: Block)
    ensures Absorb(t, h, a + b) == t(t(h, a), b)
  {
    AbsorbOne(t, h, a, b);
    AbsorbSingle(t, h, a);
  }

  // ----- one-shot and snapshot drivers -----

  method HashBuffer(t: Transform, data: seq<byte>) returns (h: State)
    ensures h == Digest(t, data)
    ensures IsHash(t, data, h)
  {
    hide Absorb, Digest, LastBlocks, Consumed, IsHash;
    h := INITIAL;
    var block := new byte[64];
    var offset := 0;
    var totalBits := |data| * 8 % U64;
    ConsumedNone(t, data);
    while offset + 64 <= |data|
      invariant offset <= |data| && Consumed(t, data, offset, h)
    {
      CopyIn(block, 0, data[offset..offset + 64]);
      assert block[..] == block[..64] == data[offset..offset + 64];
      ConsumedNext(t, data, offset, h);
      h := t(h, block[..]);
      offset := offset + 64;
    }
    ConsumedAll(t, data, offset, h);
    h := PadRemainder(t, h, data[offset..], totalBits);
    HashIff(t, data, h);
  }

  method SnapshotDigest(t: Transform, bytes: seq<byte>) returns (h: State)
    ensures h == Digest(t, bytes)
    ensures IsHash(t, bytes, h)
  {
    hide Absorb, Digest, LastBlocks, Consumed, IsHash;
    h := INITIAL;
    var position := 0;
    ConsumedNone(t, bytes);
    while |bytes| - position >= 64
      invariant position <= |bytes| && Consumed(t, bytes, position, h)
    {
      ConsumedNext(t, bytes, position, h);
      h := t(h, bytes[position..position + 64]);
      position := position + 64;
    }
    ConsumedAll(t, bytes, position, h);
    h := PadRemainder(t, h, bytes[position..], |bytes| * 8 % U64);
    HashIff(t, bytes, h);
  }

  // ----- the digest as text -----

  function HexDigit(d: nat): char
    requires d < 16
  {
    "0123456789abcdef"[d]
  }

  /** The low `n` hexadecimal digits of `v`, most significant first. */
  function HexDigits(v: nat, n: nat): (s: string)
    ensures |s| == n
  {
    if n == 0 then "" else HexDigits(v / 16, n - 1) + [HexDigit(v % 16)]
  }

  /** Eight words, each printed with "%08x". */
  function HexWords(h: seq<word>): (s: string)
    ensures |s| == 8 * |h|
  {
    if h == [] then "" else HexWords(h[..|h| - 1]) + HexDigits(h[|h| - 1], 8)
  }

  function HexPair(b: byte): (s: string)
    ensures |s| == 2
  {
    [HexDigit(b / 16), HexDigit(b % 16)]
  }

  function ByteAt(h: seq<word>, i: nat): byte
    requires i < 4 * |h|
  {
    ShiftBytes(h[i / 4], 3 - i % 4) % 256
  }

  function HexBytes(h: seq<word>, n: nat): (s: string)
    requires n <= 4 * |h|
    ensures |s| == 2 * n
  {
    if n == 0 then "" else HexBytes(h, n - 1) + HexPair(ByteAt(h, n - 1))
  }

  method PutPair(result: array<char>, i: nat, b: byte)
    requires result.Length == 64 && i < 32
    modifies result
    ensures result[..2 * i + 2] == old(result[..2 * i]) + HexPair(b)
  {
    hide HexDigit;
    result[2 * i] := HexDigit(b / 16);
    result[2 * i + 1] := HexDigit(b % 16);
  }

  /** The streaming driver's rendering: byte by byte, two digits each. */
  method RenderBytes(h: State) returns (text: string)
    ensures text == HexWords(h)
  {
    hide HexDigit, HexDigits, HexWords, ShiftBytes;
    var result := new char[64](i => '0');
    for i := 0 to 32
      invariant result[..2 * i] == HexBytes(h, i)
    {
      var b: byte := ShiftBytes(h[i / 4], 3 - i % 4) % 256;
      PutPair(result, i, b);
      assert HexBytes(h, i + 1) == HexBytes(h, i) + HexPair(ByteAt(h, i));
    }
    hide *;
    text := result[..];
    assert result[..64] == result[..] && h[..8] == h;
    HexBytesAreWords(h, 8);
  }

  lemma HexPairDigits(v: nat, n: nat)
    ensures HexDigits(v, n + 2) == HexDigits(v / 256, n) + HexPair(v % 256)
  {
    assert v / 16 / 16 == v / 256;
    assert v / 16 % 16 == v % 256 / 16 && v % 16 == v % 256 % 16;
    assert HexDigits(v, n + 2) == HexDigits(v / 16, n + 1) + [HexDigit(v % 16)];
    assert HexDigits(v / 16, n + 1) == HexDigits(v / 16 / 16, n) + [HexDigit(v / 16 % 16)];
  }

  lemma WordBytes(v: word)
    ensures HexDigits(v, 8) == HexPair(ShiftBytes(v, 3) % 256) + HexPair(ShiftBytes(v, 2) % 256)
                             + HexPair(ShiftBytes(v, 1) % 256) + HexPair(ShiftBytes(v, 0) % 256)
  {
    hide HexDigits, HexPair;
    var v1, v2 := v / 256, v / 256 / 256;
    HexPairDigits(v, 6);
    HexPairDigits(v1, 4);
    HexPairDigits(v2, 2);
    HexPairDigits(v2 / 256, 0);
    NoDigits(v2 / 256 / 256);
  }

  lemma NoDigits(v: nat)
    ensures HexDigits(v, 0) == ""
  {
  }

  lemma HexBytesStep(h: seq<word>, w: nat, b: nat)
    requires w < |h| && b < 4
    ensures HexBytes(h, 4 * w + b + 1) == HexBytes(h, 4 * w + b) + HexPair(ShiftBytes(h[w], 3 - b) % 256)
  {
    hide HexPair, ShiftBytes;
    var i := 4 * w + b;
    assert i / 4 == w && i % 4 == b;
    assert ByteAt(h, i) == ShiftBytes(h[w], 3 - b) % 256;
  }

  lemma WordRendered(h: seq<word>, w: nat)
    requires w < |h|
    ensures HexBytes(h, 4 * w + 4) == HexBytes(h, 4 * w) + HexDigits(h[w], 8)
  {
    hide *;
    var p0, p1 := HexPair(ShiftBytes(h[w], 3) % 256), HexPair(ShiftBytes(h[w], 2) % 256);
    var p2, p3 := HexPair(ShiftBytes(h[w], 1) % 256), HexPair(ShiftBytes(h[w], 0) % 256);
    HexBytesStep(h, w, 0);
    HexBytesStep(h, w, 1);
    HexBytesStep(h, w, 2);
    HexBytesStep(h, w, 3);
    WordBytes(h[w]);
    var s := HexBytes(h, 4 * w);
    assert s + p0 + p1 + p2 + p3 == s + (p0 + p1 + p2 + p3);
  }

  lemma NothingRendered(h: seq<word>)
    ensures HexBytes(h, 0) == "" == HexWords(h[..0])
  {
  }

  lemma {:induction false} HexBytesAreWords(h: seq<word>, n: nat)
    requires n <= |h|
    ensures HexBytes(h, 4 * n) == HexWords(h[..n])
  {
    hide *;
    if n == 0 {
      NothingRendered(h);
      assert 4 * n == 0;
    } else {
      HexBytesAreWords(h, n - 1);
      WordRendered(h, n - 1);
      HexWordsStep(h, n);
      assert 4 * (n - 1) + 4 == 4 * n;
    }
  }

  lemma HexWordsStep(h: seq<word>, n: nat)
    requires 0 < n <= |h|
    ensures HexWords(h[..n]) == HexWords(h[..n - 1]) + HexDigits(h[n - 1], 8)
  {
    hide HexDigits;
    assert h[..n][..n - 1] == h[..n - 1];
  }
}
