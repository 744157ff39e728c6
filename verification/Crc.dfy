/**
  The bitwise CRC-32 of the compressor, and what it detects.
 */
module Crc {
  import opened Words

  const POLYNOMIAL: word := 0xedb88320
  const ALL_ONES: word := 0xffff_ffff

  /** One turn of the inner loop: shift right, and fold in the polynomial when a one fell out. */
  function BitStep(c: word): word
  {
    XorWord(c / 2, POLYNOMIAL);
    if c % 2 == 1 then Xor(c / 2, POLYNOMIAL) else c / 2
  }

  function BitSteps(c: word, k: nat): word
    decreases k
  {
    if k == 0 then c else BitSteps(BitStep(c), k - 1)
  }

  function ByteStep(c: word, b: byte): word
  {
    XorWord(c, b);
    BitSteps(Xor(c, b), 8)
  }

  /** The register after the bytes of `s`. */
  function Register(c: word, s: seq<byte>): word
  {
    if s == [] then c else ByteStep(Register(c, s[..|s| - 1]), s[|s| - 1])
  }

  function Checksum(s: seq<byte>): word
  {
    XorWord(Register(ALL_ONES, s), ALL_ONES);
    Xor(Register(ALL_ONES, s), ALL_ONES)
  }

  method Crc32(s: seq<byte>) returns (crc: word)
    ensures crc == Checksum(s)
  {
    hide Xor, ByteStep;
    crc := ALL_ONES;
    for i := 0 to |s|
      invariant crc == Register(ALL_ONES, s[..i])
    {
      assert s[..i + 1][..i] == s[..i];
      crc := AddByte(crc, s[i]);
    }
    assert s[..|s|] == s;
    XorWord(crc, ALL_ONES);
    crc := Xor(crc, ALL_ONES);
  }

  /** The inner loop, bit by bit. */
  method AddByte(c: word, b: byte) returns (crc: word)
    ensures crc == ByteStep(c, b)
  {
    hide Xor;
    XorWord(c, b);
    crc := Xor(c, b);
    ghost var start := crc;
    for bit := 0 to 8
      invariant BitSteps(crc, 8 - bit) == BitSteps(start, 8)
    {
      XorWord(crc / 2, POLYNOMIAL);
      crc := if crc % 2 == 1 then Xor(crc / 2, POLYNOMIAL) else crc / 2;
    }
  }

  // ----- the bit step is linear and injective -----

  /** The polynomial's top bit reveals whether a one was shifted out. */
  lemma BitStepHigh(c: word)
    ensures BitStep(c) >= 0x8000_0000 <==> c % 2 == 1
  {
    Pow2Values();
    var half := c / 2;
    if c % 2 == 1 && Xor(half, POLYNOMIAL) < 0x8000_0000 {
      XorBound(half, Xor(half, POLYNOMIAL), 31);
      XorCancels(half, POLYNOMIAL);
      assert false;
    }
  }

  lemma BitStepInjective(c: word, d: word)
    requires BitStep(c) == BitStep(d)
    ensures c == d
  {
    BitStepHigh(c);
    BitStepHigh(d);
    XorCancels(POLYNOMIAL, c / 2);
    XorCancels(POLYNOMIAL, d / 2);
  }

  lemma {:induction false} BitStepsInjective(c: word, d: word, k: nat)
    requires BitSteps(c, k) == BitSteps(d, k)
    ensures c == d
    decreases k
  {
    if k != 0 {
      BitStepsInjective(BitStep(c), BitStep(d), k - 1);
      BitStepInjective(c, d);
    }
  }

  lemma XorMoves(x: nat, y: nat, p: nat)
    ensures Xor(Xor(x, y), p) == Xor(x, Xor(y, p))
    ensures Xor(Xor(x, y), p) == Xor(Xor(x, p), y)
    ensures Xor(x, y) == Xor(Xor(x, p), Xor(y, p))
  {
    hide Xor;
    XorAssociates(x, y, p);
    XorCommutes(y, p);
    XorAssociates(x, p, y);
    XorAssociates(x, p, Xor(p, y));
    XorCancels(p, y);
  }

  lemma BitStepLinear(c: word, d: word)
    ensures 0 <= Xor(c, d) < 0x1_0000_0000
    ensures BitStep(Xor(c, d)) == Xor(BitStep(c), BitStep(d))
  {
    hide *;
    XorWord(c, d);
    XorHalves(c, d);
    Parity(c, d);
    StepIs(c);
    StepIs(d);
    StepIs(Xor(c, d));
    XorMoves(c / 2, d / 2, POLYNOMIAL);
  }

  lemma Parity(c: nat, d: nat)
    ensures (c + d) % 2 == if c % 2 == d % 2 then 0 else 1
  {
  }

  lemma StepIs(c: word)
    ensures BitStep(c) == if c % 2 == 1 then Xor(c / 2, POLYNOMIAL) else c / 2
  {
    hide Xor;
  }

  // ----- the register reads a stream of bits -----

  type bit = x: int | 0 <= x < 2

  /** The low `n` bits of `b`, least significant first. */
  function BitsOf(b: nat, n: nat): (s: seq<bit>)
    ensures |s| == n
  {
    if n == 0 then [] else [b % 2] + BitsOf(b / 2, n - 1)
  }

  /** The bits of a message in the order the register meets them. */
  function Stream(s: seq<byte>): (bits: seq<bit>)
    ensures |bits| == 8 * |s|
  {
    if s == [] then [] else Stream(s[..|s| - 1]) + BitsOf(s[|s| - 1], 8)
  }

  function BitIn(c: word, b: bit): word
  {
    XorWord(c, b);
    BitStep(Xor(c, b))
  }

  function Feed(c: word, bits: seq<bit>): word
    decreases |bits|
  {
    if bits == [] then c else Feed(BitIn(c, bits[0]), bits[1..])
  }

  /** The number whose bits these are. */
  function Value(bits: seq<bit>): (v: nat)
    ensures v < Pow2(|bits|)
  {
    if bits == [] then 0 else bits[0] + 2 * Value(bits[1..])
  }

  lemma {:induction false} ValueOfBits(b: nat, n: nat)
    requires b < Pow2(n)
    ensures Value(BitsOf(b, n)) == b
  {
    if n > 0 {
      ValueOfBits(b / 2, n - 1);
      assert BitsOf(b, n)[1..] == BitsOf(b / 2, n - 1);
    }
  }

  lemma {:induction false} ValueInjective(s: seq<bit>, t: seq<bit>)
    requires |s| == |t| && Value(s) == Value(t)
    ensures s == t
    decreases |s|
  {
    if s != [] {
      ValueInjective(s[1..], t[1..]);
      assert s == [s[0]] + s[1..] && t == [t[0]] + t[1..];
    }
  }

  lemma {:induction false} FeedConcat(c: word, a: seq<bit>, b: seq<bit>)
    ensures Feed(c, a + b) == Feed(Feed(c, a), b)
    decreases |a|
  {
    hide BitIn;
    if a == [] {
      assert a + b == b;
    } else {
      FeedConcat(BitIn(c, a[0]), a[1..], b);
      assert (a + b)[1..] == a[1..] + b;
    }
  }

  lemma BitHalves(b: bit, v: nat)
    ensures b / 2 == 0 && 2 * v / 2 == v && (b + 2 * v) % 2 == b
  {
  }

  lemma XorBit(b: bit, v: nat)
    ensures Xor(b, 2 * v) == b + 2 * v
  {
    hide Xor;
    BitHalves(b, v);
    XorHalves(b, 2 * v);
    XorZero(v);
  }

  /** A bit below the rest of a word enters on its own, and the rest moves down. */
  lemma BitBelow(c: word, b: bit, v: nat)
    requires b + 2 * v < 0x1_0000_0000
    ensures 0 <= Xor(c, b + 2 * v) < 0x1_0000_0000 && 0 <= Xor(BitIn(c, b), v) < 0x1_0000_0000
    ensures BitStep(Xor(c, b + 2 * v)) == Xor(BitIn(c, b), v)
  {
    hide Xor;
    XorWord(c, b);
    XorWord(c, b + 2 * v);
    XorWord(BitIn(c, b), v);
    XorBit(b, v);
    XorAssociates(c, b, 2 * v);
    EvenStep(v);
    BitStepLinear(Xor(c, b), 2 * v);
  }

  lemma EvenStep(v: nat)
    requires 2 * v < 0x1_0000_0000
    ensures BitStep(2 * v) == v
  {
  }

  /** At most 32 bits are one word mixed in before the shifts. */
  lemma {:induction false} FeedWord(c: word, bits: seq<bit>)
    requires |bits| <= 32
    ensures 0 <= Value(bits) < 0x1_0000_0000 && 0 <= Xor(c, Value(bits)) < 0x1_0000_0000
    ensures Feed(c, bits) == BitSteps(Xor(c, Value(bits)), |bits|)
    decreases |bits|
  {
    hide Xor, BitStep, BitIn;
    FitsWord(bits);
    XorWord(c, Value(bits));
    if bits == [] {
      XorZero(c);
    } else {
      BitBelow(c, bits[0], Value(bits[1..]));
      FeedWord(BitIn(c, bits[0]), bits[1..]);
    }
  }

  lemma FitsWord(bits: seq<bit>)
    requires |bits| <= 32
    ensures Value(bits) < 0x1_0000_0000
  {
    hide Value;
    Pow2Values();
    Pow2Grows(|bits|, 32);
  }

  lemma ByteIsFed(c: word, b: byte)
    ensures ByteStep(c, b) == Feed(c, BitsOf(b, 8))
  {
    hide Xor, BitSteps, Feed, BitsOf, Value;
    Pow2Values();
    ValueOfBits(b, 8);
    FeedWord(c, BitsOf(b, 8));
  }

  /** Feeding a message byte by byte is feeding its bits one by one. */
  lemma {:induction false} RegisterIsFed(c: word, s: seq<byte>)
    ensures Register(c, s) == Feed(c, Stream(s))
    decreases |s|
  {
    hide ByteStep, BitsOf, BitIn;
    if s != [] {
      var n := |s| - 1;
      RegisterIsFed(c, s[..n]);
      ByteIsFed(Register(c, s[..n]), s[n]);
      FeedConcat(c, Stream(s[..n]), BitsOf(s[n], 8));
    }
  }

  // ----- detection -----

  lemma BitInInjective(c: word, d: word, b: bit)
    requires BitIn(c, b) == BitIn(d, b)
    ensures c == d
  {
    hide Xor;
    XorWord(c, b);
    XorWord(d, b);
    BitStepInjective(Xor(c, b), Xor(d, b));
    XorCancels(b, c);
    XorCancels(b, d);
  }

  /** The same data keeps different registers different. */
  lemma {:induction false} FeedInjective(c: word, d: word, bits: seq<bit>)
    requires Feed(c, bits) == Feed(d, bits)
    ensures c == d
    decreases |bits|
  {
    hide BitIn;
    if bits != [] {
      FeedInjective(BitIn(c, bits[0]), BitIn(d, bits[0]), bits[1..]);
      BitInInjective(c, d, bits[0]);
    }
  }

  /** Different data of at most 32 bits makes equal registers different. */
  lemma WordInjective(c: word, s: seq<bit>, t: seq<bit>)
    requires |s| == |t| <= 32 && Feed(c, s) == Feed(c, t)
    ensures s == t
  {
    hide Xor, Feed, BitSteps;
    FeedWord(c, s);
    FeedWord(c, t);
    BitStepsInjective(Xor(c, Value(s)), Xor(c, Value(t)), |s|);
    XorCancels(c, Value(s));
    XorCancels(c, Value(t));
    ValueInjective(s, t);
  }

  lemma MiddleInjective(c: word, before: seq<bit>, s: seq<bit>, t: seq<bit>, after: seq<bit>)
    requires |s| == |t| <= 32 && Feed(c, before + s + after) == Feed(c, before + t + after)
    ensures s == t
  {
    hide Feed;
    var d := Feed(c, before);
    FeedConcat(c, before, s);
    FeedConcat(c, before, t);
    FeedConcat(c, before + s, after);
    FeedConcat(c, before + t, after);
    FeedInjective(Feed(d, s), Feed(d, t), after);
    WordInjective(d, s, t);
  }

  lemma {:induction false} StreamInjective(s: seq<byte>, t: seq<byte>)
    requires Stream(s) == Stream(t)
    ensures s == t
    decreases |s|
  {
    assert |s| == |t|;
    if s != [] {
      var n := |s| - 1;
      StreamParts(s);
      StreamParts(t);
      hide Stream, BitsOf;
      StreamInjective(s[..n], t[..n]);
      ByteBits(s[n], t[n]);
      assert s == s[..n] + [s[n]] && t == t[..n] + [t[n]];
    }
  }

  lemma StreamParts(s: seq<byte>)
    requires s != []
    ensures var n := |s| - 1; Stream(s)[..8 * n] == Stream(s[..n]) && Stream(s)[8 * n..] == BitsOf(s[n], 8)
  {
    hide BitsOf;
  }

  lemma ByteBits(a: byte, b: byte)
    requires BitsOf(a, 8) == BitsOf(b, 8)
    ensures a == b
  {
    hide BitsOf, Value;
    Pow2Values();
    ValueOfBits(a, 8);
    ValueOfBits(b, 8);
  }

  /** The two messages are equal except inside the 32 bits from bit `i`. */
  predicate AgreeOutsideBits(s: seq<byte>, t: seq<byte>, i: nat)
  {
    |s| == |t| && forall k :: 0 <= k < 8 * |s| && !(i <= k < i + 32) ==> Stream(s)[k] == Stream(t)[k]
  }

  /** Any change confined to 32 consecutive bits changes the checksum. */
  lemma BurstDetected(s: seq<byte>, t: seq<byte>, i: nat)
    requires AgreeOutsideBits(s, t, i) && s != t
    ensures Checksum(s) != Checksum(t)
  {
    hide Xor, Feed, Register;
    if Checksum(s) == Checksum(t) {
      XorCancels(ALL_ONES, Register(ALL_ONES, s));
      XorCancels(ALL_ONES, Register(ALL_ONES, t));
      RegisterIsFed(ALL_ONES, s);
      RegisterIsFed(ALL_ONES, t);
      SplitBurst(Stream(s), Stream(t), i, ALL_ONES);
      StreamInjective(s, t);
    }
  }

  lemma SplitBurst(a: seq<bit>, b: seq<bit>, i: nat, c: word)
    requires |a| == |b| && Feed(c, a) == Feed(c, b)
    requires forall k :: 0 <= k < |a| && !(i <= k < i + 32) ==> a[k] == b[k]
    ensures a == b
  {
    hide Feed;
    var lo := if i <= |a| then i else |a|;
    var hi := if i + 32 <= |a| then i + 32 else |a|;
    assert a == a[..lo] + a[lo..hi] + a[hi..];
    assert b == a[..lo] + b[lo..hi] + a[hi..];
    MiddleInjective(c, a[..lo], a[lo..hi], b[lo..hi], a[hi..]);
  }

  // ----- whole bytes -----

  /** The two messages are equal except inside the four bytes from `i`. */
  predicate AgreeOutside(s: seq<byte>, t: seq<byte>, i: nat)
  {
    |s| == |t| && forall k :: 0 <= k < |s| && !(i <= k < i + 4) ==> s[k] == t[k]
  }

  lemma {:induction false} StreamAt(s: seq<byte>, k: nat)
    requires k < 8 * |s|
    ensures Stream(s)[k] == BitsOf(s[k / 8], 8)[k % 8]
    decreases |s|
  {
    hide BitsOf;
    var n := |s| - 1;
    if k < 8 * n {
      StreamAt(s[..n], k);
    }
  }

  lemma FourBytes(s: seq<byte>, t: seq<byte>, i: nat)
    requires AgreeOutside(s, t, i)
    ensures AgreeOutsideBits(s, t, 8 * i)
  {
    hide BitsOf, Stream;
    forall k | 0 <= k < 8 * |s| && !(8 * i <= k < 8 * i + 32)
      ensures Stream(s)[k] == Stream(t)[k]
    {
      StreamAt(s, k);
      StreamAt(t, k);
    }
  }
}
