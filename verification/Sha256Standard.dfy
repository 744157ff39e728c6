/**
  The padding and the text of the digest against independent readings: the padding
  of section 5.1.1 of FIPS 180-4 as that section states it, on strings of bits, and
  the hexadecimal text read back digit by digit.
 */
module Sha256Standard {
  import opened Words
  import opened Options
  import opened Sha256
  import opened Sha256File

  type Bit = x: int | 0 <= x < 2

  // ----- bit strings -----

  /** The number a bit string denotes, most significant bit first. */
  function Value(b: seq<Bit>): nat
  {
    if b == [] then 0 else 2 * Value(b[..|b| - 1]) + b[|b| - 1]
  }

  /** The low `n` bits of `v`, most significant first. */
  function BitsDown(v: nat, n: nat): (b: seq<Bit>)
    ensures |b| == n
  {
    if n == 0 then [] else BitsDown(v / 2, n - 1) + [v % 2]
  }

  function Bits(s: seq<byte>): (b: seq<Bit>)
    ensures |b| == 8 * |s|
  {
    if s == [] then [] else Bits(s[..|s| - 1]) + BitsDown(s[|s| - 1], 8)
  }

  function ZeroBits(k: nat): (b: seq<Bit>)
    ensures |b| == k
  {
    seq(k, i => 0)
  }

  predicate Congruent(n: nat, k: nat)
  {
    (n + 1 + k) % 512 == 448
  }

  /** `k` is the smallest number of zeros that brings `n` bits and a one to 448 modulo 512. */
  ghost predicate Gap(n: nat, k: nat)
  {
    Congruent(n, k) && forall j: nat :: Congruent(n, j) ==> k <= j
  }

  /** `p` is the message, a one, `k` zeros and the length. */
  predicate LaidOut(m: seq<Bit>, k: nat, length: seq<Bit>, p: seq<Bit>)
  {
    |length| == 64 && p == m + [1] + ZeroBits(k) + length
  }

  /** Section 5.1.1: the message, a one, the fewest zeros, and the length on 64 bits. */
  ghost predicate IsPadding(m: seq<Bit>, p: seq<Bit>)
  {
    exists k: nat, length: seq<Bit> ::
      Gap(|m|, k) && Value(length) == |m| && LaidOut(m, k, length, p)
  }

  // ----- values -----

  lemma ValueSnoc(b: seq<Bit>, x: Bit)
    ensures Value(b + [x]) == 2 * Value(b) + x
  {
    assert (b + [x])[..|b|] == b;
  }

  lemma {:induction false} ValueAppend(c: seq<Bit>, v: nat, n: nat)
    requires v < Pow2(n)
    ensures Value(c + BitsDown(v, n)) == Value(c) * Pow2(n) + v
    decreases n
  {
    if n == 0 {
      assert c + [] == c;
    } else {
      ValueAppend(c, v / 2, n - 1);
      ValueSnoc(c + BitsDown(v / 2, n - 1), v % 2);
      assert c + BitsDown(v, n) == c + BitsDown(v / 2, n - 1) + [v % 2];
      Doubled(Value(c), Pow2(n - 1));
    }
  }

  lemma Doubled(a: nat, b: nat)
    ensures 2 * (a * b) == a * (2 * b)
  {
  }

  lemma {:induction false} ValueInjective(a: seq<Bit>, b: seq<Bit>)
    requires |a| == |b| && Value(a) == Value(b)
    ensures a == b
  {
    if a != [] {
      var n := |a| - 1;
      ValueInjective(a[..n], b[..n]);
      assert a == a[..n] + [a[n]] && b == b[..n] + [b[n]];
    }
  }

  lemma ByteValue(x: byte)
    ensures Value(BitsDown(x, 8)) == x
  {
    hide Value, BitsDown;
    Pow2Values();
    ValueAppend([], x, 8);
    assert [] + BitsDown(x, 8) == BitsDown(x, 8);
    NoValue();
  }

  lemma NoValue()
    ensures Value([]) == 0
  {
  }

  // ----- bits of bytes -----

  lemma BitsSnoc(s: seq<byte>, x: byte)
    ensures Bits(s + [x]) == Bits(s) + BitsDown(x, 8)
  {
    hide BitsDown;
    assert (s + [x])[..|s|] == s;
  }

  lemma {:induction false} BitsConcat(s: seq<byte>, t: seq<byte>)
    ensures Bits(s + t) == Bits(s) + Bits(t)
    decreases |t|
  {
    hide Bits, BitsDown;
    if t == [] {
      NoBits();
      assert s + t == s && Bits(s) + [] == Bits(s);
    } else {
      var n := |t| - 1;
      BitsConcat(s, t[..n]);
      assert t[..n] + [t[n]] == t && s + t == (s + t[..n]) + [t[n]];
      BitsSnoc(s + t[..n], t[n]);
      BitsSnoc(t[..n], t[n]);
      assert Bits(s) + Bits(t[..n]) + BitsDown(t[n], 8) == Bits(s) + (Bits(t[..n]) + BitsDown(t[n], 8));
    }
  }

  lemma NoBits()
    ensures Bits([]) == []
  {
  }

  lemma {:induction false} BitsInjective(s: seq<byte>, t: seq<byte>)
    requires Bits(s) == Bits(t)
    ensures s == t
  {
    hide BitsDown;
    assert |s| == |t|;
    if s != [] {
      var n := |s| - 1;
      assert Bits(s)[..8 * n] == Bits(s[..n]) && Bits(s)[8 * n..] == BitsDown(s[n], 8);
      assert Bits(t)[..8 * n] == Bits(t[..n]) && Bits(t)[8 * n..] == BitsDown(t[n], 8);
      BitsInjective(s[..n], t[..n]);
      ByteValue(s[n]);
      ByteValue(t[n]);
      assert s == s[..n] + [s[n]] && t == t[..n] + [t[n]];
    }
  }

  lemma {:induction false} ZeroDown(n: nat)
    ensures BitsDown(0, n) == ZeroBits(n)
  {
    if n != 0 {
      ZeroDown(n - 1);
    }
  }

  lemma {:induction false} ZerosAreZero(n: nat)
    ensures Bits(Zeros(n)) == ZeroBits(8 * n)
  {
    if n != 0 {
      hide BitsDown, Bits;
      ZerosAreZero(n - 1);
      assert Zeros(n) == Zeros(n - 1) + [0];
      BitsSnoc(Zeros(n - 1), 0);
      ZeroDown(8);
    }
  }

  /** The marker byte is a one and seven zeros. */
  lemma MarkerBits()
    ensures Bits([0x80]) == [1] + ZeroBits(7)
  {
    assert Bits([0x80]) == BitsDown(0x80, 8) by {
      hide BitsDown;
      BitsSnoc([], 0x80);
      assert [] + [0x80] == [0x80 as byte];
    }
    hide Bits;
    ByteValue(0x80);
    MarkerValue();
    ValueInjective(BitsDown(0x80, 8), [1] + ZeroBits(7));
  }

  lemma MarkerValue()
    ensures Value([1] + ZeroBits(7)) == 0x80
  {
    hide ZeroBits, BitsDown;
    Pow2Values();
    ZeroDown(7);
    assert Pow2(8) == 2 * Pow2(7);
    ValueAppend([1], 0, 7);
    ValueSnoc([], 1);
    assert [] + [1] == [1 as Bit];
    NoValue();
  }

  lemma {:induction false} BigEndianValue(v: nat, n: nat)
    requires v < Pow2(8 * n)
    ensures Value(Bits(BigEndian(v, n))) == v
    decreases n
  {
    if n != 0 {
      hide Bits, Value, BitsDown;
      Pow2Adds(8, 8 * (n - 1));
      Pow2Values();
      BigEndianValue(v / 256, n - 1);
      BitsSnoc(BigEndian(v / 256, n - 1), v % 256);
      ValueAppend(Bits(BigEndian(v / 256, n - 1)), v % 256, 8);
    }
  }

  // ----- padding -----

  lemma CongruentBytes(n: nat, i: nat)
    ensures Congruent(8 * n, 8 * i + 7) <==> (n + 1 + i + 8) % 64 == 0
  {
    hide ZeroCount;
    var x := n + 1 + i;
    assert 8 * n + 1 + (8 * i + 7) == 8 * x;
    EightTimes(x);
    var q, r := x / 64, x % 64;
    assert x + 8 == 64 * q + (r + 8);
  }

  lemma EightTimes(x: nat)
    ensures 8 * x % 512 == 8 * (x % 64)
  {
    var q, r := x / 64, x % 64;
    assert 8 * x == 512 * q + 8 * r;
  }

  lemma CongruentIsBytes(n: nat, j: nat)
    requires Congruent(8 * n, j)
    ensures j % 8 == 7
  {
    var q := (8 * n + 1 + j) / 512;
    assert j == 8 * (64 * q + 56 - n - 1) + 7;
  }

  /** The zeros of the marker byte and of the zero bytes. */
  function ZeroRun(n: nat): nat
  {
    7 + 8 * ZeroCount(n)
  }

  lemma GapOfBytes(n: nat, bits: nat)
    requires bits == 8 * n
    ensures Gap(bits, ZeroRun(n))
  {
    hide Congruent, ZeroCount;
    var k := 8 * ZeroCount(n) + 7;
    ZeroCountLeast(n, 0);
    CongruentBytes(n, ZeroCount(n));
    forall j: nat | Congruent(8 * n, j)
      ensures k <= j
    {
      CongruentIsBytes(n, j);
      var i := j / 8;
      assert j == 8 * i + 7;
      CongruentBytes(n, i);
      ZeroCountLeast(n, i);
    }
  }

  lemma GapUnique(n: nat, j: nat, k: nat)
    requires Gap(n, j) && Gap(n, k)
    ensures j == k
  {
  }

  lemma FourParts(a: seq<byte>, b: seq<byte>, c: seq<byte>, d: seq<byte>)
    ensures Bits(a + b + c + d) == Bits(a) + Bits(b) + Bits(c) + Bits(d)
  {
    hide Bits;
    BitsConcat(a + b + c, d);
    BitsConcat(a + b, c);
    BitsConcat(a, b);
  }

  /** The marker's zeros and the zero bytes are one run of zeros. */
  lemma OneRun(b: seq<Bit>, j: nat, k: nat)
    ensures b + ([1] + ZeroBits(j)) + ZeroBits(k) == b + [1] + ZeroBits(j + k)
  {
  }

  lemma PaddedParts(m: seq<byte>, z: nat, n: nat)
    requires z == ZeroCount(|m|) && n == 8 * |m| < U64
    ensures Padded(m) == m + [0x80] + Zeros(z) + BigEndian(n, 8)
  {
    hide BigEndian, ZeroCount, Zeros;
    assert n % U64 == n;
  }

  lemma PaddedBits(m: seq<byte>, n: nat)
    requires n == 8 * |m| < U64
    ensures LaidOut(Bits(m), ZeroRun(|m|), Bits(BigEndian(n, 8)), Bits(Padded(m)))
  {
    hide Bits, BigEndian, ZeroBits, ZeroCount, Zeros, Padded;
    var z := ZeroCount(|m|);
    PaddedParts(m, z, n);
    FourParts(m, [0x80], Zeros(z), BigEndian(n, 8));
    MarkerBits();
    ZerosAreZero(z);
    OneRun(Bits(m), 7, 8 * z);
  }

  lemma IsPaddingUnique(m: seq<Bit>, p: seq<Bit>, q: seq<Bit>)
    requires IsPadding(m, p) && IsPadding(m, q)
    ensures p == q
  {
    hide Gap, Value, ZeroBits;
    var j: nat, a :| Gap(|m|, j) && Value(a) == |m| && LaidOut(m, j, a, p);
    var k: nat, b :| Gap(|m|, k) && Value(b) == |m| && LaidOut(m, k, b, q);
    GapUnique(|m|, j, k);
    ValueInjective(a, b);
  }

  lemma LengthValue(n: nat)
    requires n < U64
    ensures Value(Bits(BigEndian(n, 8))) == n
  {
    hide Value, Bits, BigEndian, Pow2;
    Pow2Values();
    Pow2Adds(32, 32);
    BigEndianValue(n, 8);
  }

  lemma IsPaddingIntro(m: seq<Bit>, n: nat, k: nat, length: seq<Bit>, p: seq<Bit>)
    requires |m| == n && Gap(n, k) && Value(length) == n && LaidOut(m, k, length, p)
    ensures IsPadding(m, p)
  {
    hide Gap, Value, LaidOut;
  }

  lemma PaddingFrom(m: seq<byte>, n: nat, length: seq<Bit>)
    requires n == 8 * |m| && Gap(n, ZeroRun(|m|)) && Value(length) == n
    requires LaidOut(Bits(m), ZeroRun(|m|), length, Bits(Padded(m)))
    ensures IsPadding(Bits(m), Bits(Padded(m)))
  {
    hide *;
    IsPaddingIntro(Bits(m), n, ZeroRun(|m|), length, Bits(Padded(m)));
  }

  lemma PaddedIsPadding(m: seq<byte>)
    requires 8 * |m| < U64
    ensures IsPadding(Bits(m), Bits(Padded(m)))
  {
    hide *;
    var n := 8 * |m|;
    GapOfBytes(|m|, n);
    LengthValue(n);
    PaddedBits(m, n);
    PaddingFrom(m, n, Bits(BigEndian(n, 8)));
  }

  /** On every message the standard admits, the padded bytes are its padding, and nothing else is. */
  lemma PaddedIff(m: seq<byte>, p: seq<byte>)
    requires 8 * |m| < U64
    ensures IsPadding(Bits(m), Bits(p)) <==> p == Padded(m)
  {
    hide IsPadding, Bits, Padded;
    PaddedIsPadding(m);
    if IsPadding(Bits(m), Bits(p)) {
      IsPaddingUnique(Bits(m), Bits(p), Bits(Padded(m)));
      BitsInjective(p, Padded(m));
    }
  }

  /** The standard's start value taken over the blocks of the standard's padding. */
  ghost predicate IsStandardHash(t: Transform, m: seq<byte>, h: State)
  {
    exists start, p: seq<byte> :: IsAbsorbed(t, m, start, p, h)
  }

  ghost predicate IsAbsorbed(t: Transform, m: seq<byte>, start: State, p: seq<byte>, h: State)
  {
    && StandardStart(start) && IsPadding(Bits(m), Bits(p)) && |p| % 64 == 0
    && h == Absorb(t, start, p)
  }

  /** The digest is the hash of the standard, and nothing else is. */
  lemma DigestIff(t: Transform, m: seq<byte>, h: State)
    requires 8 * |m| < U64
    ensures h == Digest(t, m) <==> IsStandardHash(t, m, h)
  {
    hide Absorb, Bits, IsPadding, StandardStart, Padded;
    PaddedIsWhole(m);
    PaddedIff(m, Padded(m));
    StartIff(INITIAL);
    if h == Digest(t, m) {
      assert IsAbsorbed(t, m, INITIAL, Padded(m), h);
    }
    if IsStandardHash(t, m, h) {
      var start, p: seq<byte> :| IsAbsorbed(t, m, start, p, h);
      StartIff(start);
      PaddedIff(m, p);
    }
  }

  // ----- the digest's text -----

  predicate LowerHex(s: string)
  {
    forall c <- s :: '0' <= c <= '9' || 'a' <= c <= 'f'
  }

  function DigitValue(c: char): nat
  {
    if '0' <= c <= '9' then c as nat - '0' as nat
    else if 'a' <= c <= 'f' then c as nat - 'a' as nat + 10
    else 16
  }

  function ReadHex(s: string): nat
  {
    if s == "" then 0 else 16 * ReadHex(s[..|s| - 1]) + DigitValue(s[|s| - 1])
  }

  /** Eight lower-case digits for each of the eight words, most significant digit first. */
  predicate Spells(text: string, h: State)
  {
    && |text| == 64 && LowerHex(text)
    && forall i :: 0 <= i < 8 ==> ReadHex(text[8 * i..8 * i + 8]) == h[i]
  }

  lemma DigitSpelled(d: nat)
    requires d < 16
    ensures LowerHex([HexDigit(d)]) && DigitValue(HexDigit(d)) == d
  {
  }

  lemma {:induction false} DigitsSpelled(v: nat, n: nat)
    requires v < Pow2(4 * n)
    ensures LowerHex(HexDigits(v, n)) && ReadHex(HexDigits(v, n)) == v
    decreases n
  {
    if n != 0 {
      hide HexDigit;
      Pow2Adds(4, 4 * (n - 1));
      assert Pow2(4) == 16;
      DigitsSpelled(v / 16, n - 1);
      DigitSpelled(v % 16);
      var s := HexDigits(v / 16, n - 1);
      assert (s + [HexDigit(v % 16)])[..n - 1] == s;
    }
  }

  lemma PartLower(s: string, i: nat, j: nat)
    requires i <= j <= |s| && LowerHex(s)
    ensures LowerHex(s[i..j])
  {
    forall c <- s[i..j]
      ensures '0' <= c <= '9' || 'a' <= c <= 'f'
    {
      assert c in s;
    }
  }

  lemma SameDigit(a: nat, c: char, b: nat, d: char)
    requires LowerHex([c]) && LowerHex([d])
    requires 16 * a + DigitValue(c) == 16 * b + DigitValue(d)
    ensures a == b && c == d
  {
    assert c in [c] && d in [d];
    assert DigitValue(c) < 16 && DigitValue(d) < 16;
  }

  lemma ReadHexLast(s: string, n: nat)
    requires |s| == n + 1 && LowerHex(s)
    ensures ReadHex(s) == 16 * ReadHex(s[..n]) + DigitValue(s[n])
    ensures LowerHex(s[..n]) && LowerHex([s[n]]) && s == s[..n] + [s[n]]
  {
    hide DigitValue;
    PartLower(s, 0, n);
    PartLower(s, n, n + 1);
    assert s[n..n + 1] == [s[n]];
  }

  lemma {:induction false} ReadHexInjective(s: string, t: string)
    requires |s| == |t| && LowerHex(s) && LowerHex(t) && ReadHex(s) == ReadHex(t)
    ensures s == t
  {
    hide *;
    if s != "" {
      var n := |s| - 1;
      ReadHexLast(s, n);
      ReadHexLast(t, n);
      SameDigit(ReadHex(s[..n]), s[n], ReadHex(t[..n]), t[n]);
      ReadHexInjective(s[..n], t[..n]);
    }
  }

  lemma FrontSlice(s: string, t: string, i: nat, j: nat)
    requires i <= j <= |s|
    ensures (s + t)[i..j] == s[i..j]
  {
  }

  lemma {:induction false} WordAt(h: seq<word>, i: nat)
    requires i < |h|
    ensures HexWords(h)[8 * i..8 * i + 8] == HexDigits(h[i], 8)
  {
    var n := |h| - 1;
    assert h[..n + 1] == h;
    HexWordsStep(h, n + 1);
    hide *;
    var front, last := HexWords(h[..n]), HexDigits(h[n], 8);
    if i < n {
      WordAt(h[..n], i);
      FrontSlice(front, last, 8 * i, 8 * i + 8);
    } else {
      assert (front + last)[8 * n..8 * n + 8] == last;
    }
  }

  lemma {:induction false} WordsLower(h: seq<word>)
    ensures LowerHex(HexWords(h))
  {
    if h != [] {
      hide HexDigits;
      WordsLower(h[..|h| - 1]);
      Pow2Values();
      DigitsSpelled(h[|h| - 1], 8);
    }
  }

  lemma TextSpells(h: State)
    ensures Spells(HexWords(h), h)
  {
    hide HexWords, HexDigits, ReadHex, LowerHex;
    WordsLower(h);
    Pow2Values();
    forall i | 0 <= i < 8
      ensures ReadHex(HexWords(h)[8 * i..8 * i + 8]) == h[i]
    {
      WordAt(h, i);
      DigitsSpelled(h[i], 8);
    }
  }

  lemma SliceOf(text: string, h: State, i: nat)
    requires Spells(text, h) && i < 8
    ensures |text| == 64 && LowerHex(text[8 * i..8 * i + 8]) && ReadHex(text[8 * i..8 * i + 8]) == h[i]
  {
    hide ReadHex, LowerHex;
    PartLower(text, 8 * i, 8 * i + 8);
  }

  lemma SameSlice(text: string, other: string, h: State, i: nat)
    requires Spells(text, h) && Spells(other, h) && i < 8
    ensures |text| == |other| == 64 && text[8 * i..8 * i + 8] == other[8 * i..8 * i + 8]
  {
    hide *;
    SliceOf(text, h, i);
    SliceOf(other, h, i);
    ReadHexInjective(text[8 * i..8 * i + 8], other[8 * i..8 * i + 8]);
  }

  lemma SpellsUnique(text: string, other: string, h: State)
    requires Spells(text, h) && Spells(other, h)
    ensures text == other
  {
    SameSlice(text, other, h, 0);
    hide *;
    forall k | 0 <= k < 64
      ensures text[k] == other[k]
    {
      var i := k / 8;
      SameSlice(text, other, h, i);
      assert text[k] == text[8 * i..8 * i + 8][k - 8 * i];
      assert other[k] == other[8 * i..8 * i + 8][k - 8 * i];
    }
  }

  /** The rendered digest is the one text whose digits spell the eight words. */
  lemma TextIff(text: string, h: State)
    ensures text == HexWords(h) <==> Spells(text, h)
  {
    hide Spells, HexWords;
    TextSpells(h);
    if Spells(text, h) {
      SpellsUnique(text, HexWords(h), h);
    }
  }

  // ----- when a file is hashed, and to what -----

  /** The reads deliver `m` and then the end of the file, none of them failing before that. */
  ghost predicate Arrives(events: seq<ReadEvent>, m: seq<byte>)
  {
    exists n: nat :: n <= |events| && EndsAt(events, n) && Healthy(events[..n]) && Delivered(events[..n]) == m
  }

  predicate EndsAt(events: seq<ReadEvent>, n: nat)
    requires n <= |events|
  {
    n < |events| ==> events[n] == Bytes([])
  }

  /** Nothing wrong with the call, the file before and after, or the close. */
  predicate Undisturbed(maxBytes: int, before: Option<Stat>, after: Option<Stat>, closed: bool)
  {
    && 0 <= maxBytes <= MAX_HASHED && closed
    && before.Some? && after.Some? && before.value.regular
    && after.value.size == before.value.size && after.value.modified == before.value.modified
    && 0 <= before.value.size <= maxBytes
  }

  lemma CollectStops(events: seq<ReadEvent>, n: nat, maxBytes: nat, got: seq<byte>)
    requires n <= |events| && EndsAt(events, n) && Healthy(events[..n]) && |got| <= maxBytes
    ensures Collect(events, maxBytes, got) == Collect(events[..n], maxBytes, got)
    decreases n
  {
    if n == 0 {
      assert events[..0] == [];
    } else {
      assert events[..n][0] == events[0] && events[..n][1..] == events[1..][..n - 1];
      assert events[0] in events[..n];
      assert Healthy(events[1..][..n - 1]);
      match events[0] {
        case Interrupted => CollectStops(events[1..], n - 1, maxBytes, got);
        case Bytes(data) =>
          if |data| <= maxBytes - |got| {
            CollectStops(events[1..], n - 1, maxBytes, got + data);
          }
      }
    }
  }

  lemma {:induction false} ContentArrives(events: seq<ReadEvent>, maxBytes: nat, got: seq<byte>) returns (n: nat)
    requires |got| <= maxBytes && Collect(events, maxBytes, got).Content?
    ensures n <= |events| && EndsAt(events, n) && Healthy(events[..n])
    decreases |events|
  {
    if events == [] || events[0] == Bytes([]) {
      n := 0;
    } else {
      var k;
      if events[0].Bytes? {
        k := ContentArrives(events[1..], maxBytes, got + events[0].data);
      } else {
        k := ContentArrives(events[1..], maxBytes, got);
      }
      n := k + 1;
      assert events[..n] == [events[0]] + events[1..][..k];
    }
  }

  lemma CollectIff(events: seq<ReadEvent>, maxBytes: nat, m: seq<byte>)
    ensures Collect(events, maxBytes, []) == Content(m) <==> Arrives(events, m) && |m| <= maxBytes
  {
    hide Collect;
    if Collect(events, maxBytes, []) == Content(m) {
      var n := ContentArrives(events, maxBytes, []);
      CollectStops(events, n, maxBytes, []);
      CollectDelivered(events[..n], maxBytes, []);
      assert [] + Delivered(events[..n]) == Delivered(events[..n]);
    }
    if Arrives(events, m) && |m| <= maxBytes {
      var n: nat :| n <= |events| && EndsAt(events, n) && Healthy(events[..n]) && Delivered(events[..n]) == m;
      CollectStops(events, n, maxBytes, []);
      CollectDelivered(events[..n], maxBytes, []);
      assert [] + m == m;
    }
  }

  /** `text` spells the standard's hash of what arrives, a file of the size announced. */
  ghost predicate IsHashOfFile(t: Transform, size: int, events: seq<ReadEvent>, text: string)
  {
    exists m: seq<byte>, h: State ::
      Arrives(events, m) && |m| == size && IsStandardHash(t, m, h) && Spells(text, h)
  }

  /** Exactly when hashing a file succeeds, and with which text. */
  lemma HashedIff(t: Transform, maxBytes: int, before: Option<Stat>, events: seq<ReadEvent>,
                  after: Option<Stat>, closed: bool, text: string)
    ensures FileOutcome(t, maxBytes, before, events, after, closed) == Hex(text)
       <==> Undisturbed(maxBytes, before, after, closed) && IsHashOfFile(t, before.value.size, events, text)
  {
    hide Digest, HexWords, Collect, Arrives, IsStandardHash, Spells;
    var r := FileOutcome(t, maxBytes, before, events, after, closed);
    if r == Hex(text) {
      var m := Collect(events, maxBytes, []).bytes;
      CollectIff(events, maxBytes, m);
      DigestIff(t, m, Digest(t, m));
      TextIff(text, Digest(t, m));
    }
    if Undisturbed(maxBytes, before, after, closed) && IsHashOfFile(t, before.value.size, events, text) {
      var m: seq<byte>, h: State :|
        Arrives(events, m) && |m| == before.value.size && IsStandardHash(t, m, h) && Spells(text, h);
      CollectIff(events, maxBytes, m);
      DigestIff(t, m, h);
      TextIff(text, h);
    }
  }
}
