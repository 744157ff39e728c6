/**
  Machine words as natural numbers: bytes, exclusive or, powers of two, and the
  little-endian fields of the compressor.

  A C `uint8_t`, `uint16_t` or `uint32_t` is a natural number below 2^8, 2^16 or
  2^32; shifts and masks are written as division and remainder.
 */
module Words {

  type byte = x: int | 0 <= x < 256
  type word = x: int | 0 <= x < 0x1_0000_0000

  function Pow2(k: nat): (p: nat)
    ensures p > 0
  {
    if k == 0 then 1 else 2 * Pow2(k - 1)
  }

  lemma {:induction false} Pow2Adds(j: nat, k: nat)
    ensures Pow2(j + k) == Pow2(j) * Pow2(k)
  {
    if j != 0 {
      Pow2Adds(j - 1, k);
      assert Pow2(j + k) == 2 * Pow2(j - 1 + k);
    }
  }

  lemma {:induction false} Pow2Grows(j: nat, k: nat)
    requires j <= k
    ensures Pow2(j) <= Pow2(k)
    decreases k
  {
    if j < k {
      Pow2Grows(j, k - 1);
    }
  }

  lemma Pow2Values()
    ensures Pow2(8) == 256 && Pow2(16) == 0x1_0000 && Pow2(24) == 0x100_0000
    ensures Pow2(31) == 0x8000_0000 && Pow2(32) == 0x1_0000_0000
  {
    assert Pow2(4) == 16;
    Pow2Adds(4, 4);
    Pow2Adds(8, 8);
    Pow2Adds(16, 8);
    Pow2Adds(16, 16);
    assert Pow2(32) == 2 * Pow2(31);
  }

  /** Bitwise exclusive or, least significant bit first. */
  function Xor(a: nat, b: nat): nat
    decreases a + b
  {
    if a == 0 && b == 0 then 0 else 2 * Xor(a / 2, b / 2) + (a + b) % 2
  }

  lemma {:induction false} XorZero(a: nat)
    ensures Xor(a, 0) == a && Xor(0, a) == a
  {
    if a != 0 {
      XorZero(a / 2);
    }
  }

  lemma {:induction false} XorSelf(a: nat)
    ensures Xor(a, a) == 0
  {
    if a != 0 {
      XorSelf(a / 2);
    }
  }

  lemma {:induction false} XorCommutes(a: nat, b: nat)
    ensures Xor(a, b) == Xor(b, a)
    decreases a + b
  {
    if a + b != 0 {
      XorCommutes(a / 2, b / 2);
    }
  }

  lemma ParitySum(a: nat, b: nat, c: nat, x: nat, y: nat)
    requires x % 2 == (a + b) % 2 && y % 2 == (b + c) % 2
    ensures (x + c) % 2 == (a + y) % 2
  {
    var p, q, r, s := x / 2, (a + b) / 2, y / 2, (b + c) / 2;
    assert x - 2 * p == a + b - 2 * q && y - 2 * r == b + c - 2 * s;
    assert (x + c) - (a + y) == 2 * (p - q - r + s) + 2 * b - 2 * b;
  }

  lemma {:induction false} XorNestedHalves(a: nat, b: nat, c: nat)
    ensures Xor(Xor(a, b), c) / 2 == Xor(Xor(a / 2, b / 2), c / 2)
    ensures Xor(a, Xor(b, c)) / 2 == Xor(a / 2, Xor(b / 2, c / 2))
    ensures Xor(Xor(a, b), c) % 2 == Xor(a, Xor(b, c)) % 2
  {
    hide Xor;
    XorHalves(a, b);
    XorHalves(b, c);
    XorHalves(Xor(a, b), c);
    XorHalves(a, Xor(b, c));
    ParitySum(a, b, c, Xor(a, b), Xor(b, c));
  }

  lemma {:induction false} XorAssociates(a: nat, b: nat, c: nat)
    ensures Xor(Xor(a, b), c) == Xor(a, Xor(b, c))
    decreases a + b + c
  {
    if a + b + c != 0 {
      XorAssociates(a / 2, b / 2, c / 2);
      XorNestedHalves(a, b, c);
    }
  }

  lemma {:induction false} XorHalves(a: nat, b: nat)
    ensures Xor(a, b) / 2 == Xor(a / 2, b / 2)
    ensures Xor(a, b) % 2 == (a + b) % 2
    ensures Xor(a, b) == 2 * Xor(a / 2, b / 2) + (a + b) % 2
  {
  }

  /** Xor with a fixed word can be undone, so it is injective. */
  lemma {:induction false} XorCancels(a: nat, b: nat)
    ensures Xor(a, Xor(a, b)) == b
    ensures Xor(Xor(b, a), a) == b
  {
    XorAssociates(a, a, b);
    XorAssociates(b, a, a);
    XorSelf(a);
    XorZero(b);
  }

  lemma {:induction false} XorBound(a: nat, b: nat, k: nat)
    requires a < Pow2(k) && b < Pow2(k)
    ensures Xor(a, b) < Pow2(k)
    decreases k
  {
    if k != 0 {
      XorBound(a / 2, b / 2, k - 1);
      XorHalves(a, b);
    }
  }

  lemma OddSum(a: nat, b: nat, half: nat)
    requires a + b + 1 == 2 * half
    ensures a / 2 + b / 2 + 1 == half && (a + b) % 2 == 1
  {
    var x, y, r, q := a / 2, b / 2, a % 2, b % 2;
    assert a == 2 * x + r && b == 2 * y + q;
    assert r + q == 1;
  }

  /** Two words that add up to k ones are each other's k-bit complement. */
  lemma {:induction false} XorComplement(a: nat, b: nat, k: nat)
    requires a + b + 1 == Pow2(k)
    ensures Xor(a, b) == a + b
    decreases k
  {
    if k == 0 {
      XorZero(0);
    } else {
      assert Pow2(k) == 2 * Pow2(k - 1);
      hide *;
      OddSum(a, b, Pow2(k - 1));
      XorComplement(a / 2, b / 2, k - 1);
      XorHalves(a, b);
    }
  }

  lemma XorAllOnesIff(a: nat, b: nat)
    requires a < 65536 && b < 65536
    ensures Xor(a, b) == 65535 <==> b == 65535 - a
  {
    hide *;
    Pow2Values();
    XorComplement(a, 65535 - a, 16);
    XorCancels(a, b);
    XorCancels(a, 65535 - a);
  }

  lemma XorWord(a: word, b: word)
    ensures 0 <= Xor(a, b) < 0x1_0000_0000
  {
    Pow2Values();
    XorBound(a, b, 32);
  }

  function WriteLe16(v: int): (s: seq<byte>)
    requires 0 <= v < 65536
    ensures |s| == 2
  {
    [v % 256, v / 256 % 256]
  }

  function WriteLe32(v: word): (s: seq<byte>)
    ensures |s| == 4
  {
    [v % 256, v / 256 % 256, v / 256 / 256 % 256, v / 256 / 256 / 256 % 256]
  }

  function ReadLe16(s: seq<byte>): (v: int)
    requires |s| == 2
    ensures 0 <= v < 65536
  {
    s[0] as int + 256 * s[1] as int
  }

  function ReadLe32(s: seq<byte>): (v: word)
    requires |s| == 4
  {
    s[0] as int + 256 * (s[1] as int + 256 * (s[2] as int + 256 * s[3] as int))
  }

  lemma LowByte(b: byte, rest: nat)
    ensures (b as int + 256 * rest) % 256 == b
    ensures (b as int + 256 * rest) / 256 == rest
  {
  }

  lemma Le16Inverse(s: seq<byte>)
    requires |s| == 2
    ensures WriteLe16(ReadLe16(s)) == s
  {
    LowByte(s[0], s[1]);
  }

  lemma Le32Inverse(s: seq<byte>)
    requires |s| == 4
    ensures WriteLe32(ReadLe32(s)) == s
  {
    var upper := s[2] as int + 256 * s[3] as int;
    LowByte(s[0], s[1] as int + 256 * upper);
    LowByte(s[1], upper);
    LowByte(s[2], s[3]);
  }

  lemma Le16RoundTrip(v: int)
    requires 0 <= v < 65536
    ensures ReadLe16(WriteLe16(v)) == v
  {
  }

  lemma Le32RoundTrip(v: word)
    ensures ReadLe32(WriteLe32(v)) == v
  {
    var u := v / 256;
    assert v == v % 256 + 256 * u && u == u % 256 + 256 * (u / 256);
  }
}
