/**
  The check value published with the code: the checksum of the nine digits "123456789".
 */
module CrcCheckValue {
  import opened Words
  import opened Crc

  type digit = x: int | 0 <= x < 4

  /** Exclusive or of two digits in base 4: equal digits cancel, and of 1, 2 and 3 two give the third. */
  function Pair(a: int, b: int): int
  {
    if a == b then 0 else if a == 0 then b else if b == 0 then a else 6 - a - b
  }

  lemma PairTable()
    ensures Pair(0, 0) == 0 && Pair(0, 1) == 1 && Pair(0, 2) == 2 && Pair(0, 3) == 3
    ensures Pair(1, 0) == 1 && Pair(1, 1) == 0 && Pair(1, 2) == 3 && Pair(1, 3) == 2
    ensures Pair(2, 0) == 2 && Pair(2, 1) == 3 && Pair(2, 2) == 0 && Pair(2, 3) == 1
    ensures Pair(3, 0) == 3 && Pair(3, 1) == 2 && Pair(3, 2) == 1 && Pair(3, 3) == 0
  {
  }

  lemma {:induction false} XorSplit(a: nat, b: nat, x: nat, y: nat, k: nat)
    requires x < Pow2(k) && y < Pow2(k)
    ensures Xor(Pow2(k) * a + x, Pow2(k) * b + y) == Pow2(k) * Xor(a, b) + Xor(x, y)
    decreases k
  {
    hide Xor;
    if k == 0 {
      XorZero(0);
    } else {
      var p := Pow2(k - 1);
      XorSplit(a, b, x / 2, y / 2, k - 1);
      XorHalves(x, y);
      XorHalves(2 * p * a + x, 2 * p * b + y);
      Halving(p * a, x);
      Halving(p * b, y);
      SameParity(p * a, p * b, x, y);
      Twice(p, a);
      Twice(p, b);
      Twice(p, Xor(a, b));
    }
  }

  lemma Twice(p: nat, a: nat)
    ensures 2 * p * a == 2 * (p * a)
  {
  }

  lemma Halving(q: nat, x: nat)
    ensures (2 * q + x) / 2 == q + x / 2
  {
  }

  lemma SameParity(q: nat, r: nat, x: nat, y: nat)
    ensures (2 * q + x + (2 * r + y)) % 2 == (x + y) % 2
  {
  }

  lemma XorPair(a: digit, b: digit)
    ensures Xor(a, b) == Pair(a, b)
  {
    hide Xor;
    XorHalves(a, b);
    XorSmall(a / 2, b / 2);
  }

  lemma XorSmall(a: nat, b: nat)
    requires a < 2 && b < 2
    ensures Xor(a, b) == if a == b then 0 else 1
  {
    hide Xor;
    XorHalves(a, b);
    XorZero(0);
  }

  /** One more digit below two numbers. */
  lemma XorDigit(a: nat, b: nat, c: nat, x: digit, y: digit)
    requires Xor(a, b) == c
    ensures Xor(4 * a + x, 4 * b + y) == 4 * c + Pair(x, y)
  {
    assert Pow2(2) == 4;
    hide Xor;
    XorPair(x, y);
    XorSplit(a, b, x, y, 2);
  }

  /** A byte by its four digits, and a word by its four bytes. */
  function Quad(a: int, b: int, c: int, d: int): int
  {
    4 * (4 * (4 * a + b) + c) + d
  }

  function Bytes(p: int, q: int, r: int, s: int): int
  {
    256 * (256 * (256 * p + q) + r) + s
  }

  lemma QuadXor(a: digit, b: digit, c: digit, d: digit, w: digit, x: digit, y: digit, z: digit)
    ensures Xor(Quad(a, b, c, d), Quad(w, x, y, z)) == Quad(Pair(a, w), Pair(b, x), Pair(c, y), Pair(d, z))
  {
    hide Xor, Pair;
    XorPair(a, w);
    XorDigit(a, w, Pair(a, w), b, x);
    XorDigit(4 * a + b, 4 * w + x, 4 * Pair(a, w) + Pair(b, x), c, y);
    XorDigit(4 * (4 * a + b) + c, 4 * (4 * w + x) + y, 4 * (4 * Pair(a, w) + Pair(b, x)) + Pair(c, y), d, z);
  }

  lemma BytesXor(p: byte, q: byte, r: byte, s: byte, k: byte, l: byte, m: byte, n: byte)
    ensures Xor(Bytes(p, q, r, s), Bytes(k, l, m, n)) == Bytes(Xor(p, k), Xor(q, l), Xor(r, m), Xor(s, n))
  {
    Pow2Values();
    hide Xor, Pow2;
    XorSplit(p, k, q, l, 8);
    XorSplit(256 * p + q, 256 * k + l, r, m, 8);
    XorSplit(256 * (256 * p + q) + r, 256 * (256 * k + l) + m, s, n, 8);
  }

  /** The bit step of an odd register, by the digits of its upper 31 bits. */
  lemma Odd(u: word, a: digit, b: digit, c: digit, d: digit, e: digit, f: digit, g: digit, h: digit,
            i: digit, j: digit, k: digit, l: digit, m: digit, n: digit, o: digit, p: digit)
    requires u == 2 * Bytes(Quad(a, b, c, d), Quad(e, f, g, h), Quad(i, j, k, l), Quad(m, n, o, p)) + 1
    ensures BitStep(u) == Bytes(Quad(Pair(a, 3), Pair(b, 2), Pair(c, 3), Pair(d, 1)),
                                Quad(Pair(e, 2), Pair(f, 3), Pair(g, 2), Pair(h, 0)),
                                Quad(Pair(i, 2), Pair(j, 0), Pair(k, 0), Pair(l, 3)),
                                Quad(Pair(m, 0), Pair(n, 2), Pair(o, 0), Pair(p, 0)))
  {
    hide Xor, Pair;
    StepIs(u);
    BytesXor(Quad(a, b, c, d), Quad(e, f, g, h), Quad(i, j, k, l), Quad(m, n, o, p), 0xed, 0xb8, 0x83, 0x20);
    QuadXor(a, b, c, d, 3, 2, 3, 1);
    QuadXor(e, f, g, h, 2, 3, 2, 0);
    QuadXor(i, j, k, l, 2, 0, 0, 3);
    QuadXor(m, n, o, p, 0, 2, 0, 0);
    hide BitStep;
    OddHalf(u, Bytes(Quad(a, b, c, d), Quad(e, f, g, h), Quad(i, j, k, l), Quad(m, n, o, p)));
  }

  lemma OddHalf(u: nat, v: nat)
    requires u == 2 * v + 1
    ensures u / 2 == v && u % 2 == 1
  {
  }

  lemma Even(u: word, v: nat)
    requires u == 2 * v
    ensures BitStep(u) == v
  {
  }

  lemma Eight(a: word, b: word, c: word, d: word, e: word, f: word, g: word, h: word, i: word)
    requires BitStep(a) == b && BitStep(b) == c && BitStep(c) == d && BitStep(d) == e
    requires BitStep(e) == f && BitStep(f) == g && BitStep(g) == h && BitStep(h) == i
    ensures BitSteps(a, 8) == i
  {
    hide BitStep;
    assert BitSteps(h, 1) == BitSteps(i, 0) && BitSteps(g, 2) == BitSteps(h, 1) && BitSteps(f, 3) == BitSteps(g, 2);
    assert BitSteps(e, 4) == BitSteps(f, 3) && BitSteps(d, 5) == BitSteps(e, 4) && BitSteps(c, 6) == BitSteps(d, 5);
    assert BitSteps(b, 7) == BitSteps(c, 6);
  }

  /** A byte mixed into the register. */
  lemma Mixed(r: word, b: byte, high: nat, d: digit, e: digit, f: digit, g: digit,
              w: digit, x: digit, y: digit, z: digit)
    requires r == 4 * (4 * (4 * (4 * high + d) + e) + f) + g && b == 4 * (4 * (4 * w + x) + y) + z
    ensures Xor(r, b) == 4 * (4 * (4 * (4 * high + Pair(d, w)) + Pair(e, x)) + Pair(f, y)) + Pair(g, z)
  {
    hide Xor;
    XorZero(high);
    var u, v: nat, t := high, high, 0;
    XorDigit(u, t, v, d, w);
    u, v, t := 4 * u + d, 4 * v + Pair(d, w), w;
    XorDigit(u, t, v, e, x);
    u, v, t := 4 * u + e, 4 * v + Pair(e, x), 4 * t + x;
    XorDigit(u, t, v, f, y);
    u, v, t := 4 * u + f, 4 * v + Pair(f, y), 4 * t + y;
    XorDigit(u, t, v, g, z);
  }

  lemma Digit1()
    ensures ByteStep(0xffffffff, 49) == 0x7c231048
  {
    hide Xor, BitStep, BitSteps, Pair;
    PairTable();
    assert Xor(0xffffffff, 49) == 0xffffffce by {
      Mixed(0xffffffff, 49, 0xffffff, 3, 3, 3, 3, 0, 3, 0, 1);
    }
    Even(0xffffffce, 0x7fffffe7);
    assert BitStep(0x7fffffe7) == 0xd2477cd3 by {
      Odd(0x7fffffe7, 0, 3, 3, 3, 3, 3, 3, 3, 3, 3, 3, 3, 3, 3, 0, 3);
    }
    assert BitStep(0xd2477cd3) == 0x849b3d49 by {
      Odd(0xd2477cd3, 1, 2, 2, 1, 0, 2, 0, 3, 2, 3, 3, 2, 1, 2, 2, 1);
    }
    assert BitStep(0x849b3d49) == 0xaff51d84 by {
      Odd(0x849b3d49, 1, 0, 0, 2, 1, 0, 3, 1, 2, 1, 3, 2, 2, 2, 1, 0);
    }
    Even(0xaff51d84, 0x57fa8ec2);
    Even(0x57fa8ec2, 0x2bfd4761);
    assert BitStep(0x2bfd4761) == 0xf8462090 by {
      Odd(0x2bfd4761, 0, 1, 1, 1, 3, 3, 3, 2, 2, 2, 0, 3, 2, 3, 0, 0);
    }
    Even(0xf8462090, 0x7c231048);
    Eight(0xffffffce, 0x7fffffe7, 0xd2477cd3, 0x849b3d49, 0xaff51d84, 0x57fa8ec2, 0x2bfd4761, 0xf8462090, 0x7c231048);
  }

  lemma Digit2()
    ensures ByteStep(0x7c231048, 50) == 0xb0acbb32
  {
    hide Xor, BitStep, BitSteps, Pair;
    PairTable();
    assert Xor(0x7c231048, 50) == 0x7c23107a by {
      Mixed(0x7c231048, 50, 0x7c2310, 1, 0, 2, 0, 0, 3, 0, 2);
    }
    Even(0x7c23107a, 0x3e11883d);
    assert BitStep(0x3e11883d) == 0xf2b0473e by {
      Odd(0x3e11883d, 0, 1, 3, 3, 0, 0, 2, 0, 3, 0, 1, 0, 0, 1, 3, 2);
    }
    Even(0xf2b0473e, 0x7958239f);
    assert BitStep(0x7958239f) == 0xd11492ef by {
      Odd(0x7958239f, 0, 3, 3, 0, 2, 2, 3, 0, 0, 1, 0, 1, 3, 0, 3, 3);
    }
    assert BitStep(0xd11492ef) == 0x8532ca57 by {
      Odd(0xd11492ef, 1, 2, 2, 0, 2, 0, 2, 2, 1, 0, 2, 1, 1, 3, 1, 3);
    }
    assert BitStep(0x8532ca57) == 0xaf21e60b by {
      Odd(0x8532ca57, 1, 0, 0, 2, 2, 1, 2, 1, 1, 2, 1, 1, 0, 2, 2, 3);
    }
    assert BitStep(0xaf21e60b) == 0xba287025 by {
      Odd(0xaf21e60b, 1, 1, 1, 3, 2, 1, 0, 0, 3, 3, 0, 3, 0, 0, 1, 1);
    }
    assert BitStep(0xba287025) == 0xb0acbb32 by {
      Odd(0xba287025, 1, 1, 3, 1, 0, 1, 1, 0, 0, 3, 2, 0, 0, 1, 0, 2);
    }
    Eight(0x7c23107a, 0x3e11883d, 0xf2b0473e, 0x7958239f, 0xd11492ef, 0x8532ca57, 0xaf21e60b, 0xba287025, 0xb0acbb32);
  }

  lemma Digit3()
    ensures ByteStep(0xb0acbb32, 51) == 0x77b79c2d
  {
    hide Xor, BitStep, BitSteps, Pair;
    PairTable();
    assert Xor(0xb0acbb32, 51) == 0xb0acbb01 by {
      Mixed(0xb0acbb32, 51, 0xb0acbb, 0, 3, 0, 2, 0, 3, 0, 3);
    }
    assert BitStep(0xb0acbb01) == 0xb5eedea0 by {
      Odd(0xb0acbb01, 1, 1, 2, 0, 1, 1, 1, 2, 1, 1, 3, 1, 2, 0, 0, 0);
    }
    Even(0xb5eedea0, 0x5af76f50);
    Even(0x5af76f50, 0x2d7bb7a8);
    Even(0x2d7bb7a8, 0x16bddbd4);
    Even(0x16bddbd4, 0x0b5eedea);
    Even(0x0b5eedea, 0x05af76f5);
    assert BitStep(0x05af76f5) == 0xef6f385a by {
      Odd(0x05af76f5, 0, 0, 0, 2, 3, 1, 1, 3, 2, 3, 2, 3, 1, 3, 2, 2);
    }
    Even(0xef6f385a, 0x77b79c2d);
    Eight(0xb0acbb01, 0xb5eedea0, 0x5af76f50, 0x2d7bb7a8, 0x16bddbd4, 0x0b5eedea, 0x05af76f5, 0xef6f385a, 0x77b79c2d);
  }

  lemma Digit4()
    ensures ByteStep(0x77b79c2d, 52) == 0x641c1f5c
  {
    hide Xor, BitStep, BitSteps, Pair;
    PairTable();
    assert Xor(0x77b79c2d, 52) == 0x77b79c19 by {
      Mixed(0x77b79c2d, 52, 0x77b79c, 0, 2, 3, 1, 0, 3, 1, 0);
    }
    assert BitStep(0x77b79c19) == 0xd6634d2c by {
      Odd(0x77b79c19, 0, 3, 2, 3, 3, 1, 2, 3, 3, 0, 3, 2, 0, 0, 3, 0);
    }
    Even(0xd6634d2c, 0x6b31a696);
    Even(0x6b31a696, 0x3598d34b);
    assert BitStep(0x3598d34b) == 0xf774ea85 by {
      Odd(0x3598d34b, 0, 1, 2, 2, 3, 0, 3, 0, 1, 2, 2, 1, 2, 2, 1, 1);
    }
    assert BitStep(0xf774ea85) == 0x9602f662 by {
      Odd(0xf774ea85, 1, 3, 2, 3, 2, 3, 2, 2, 1, 3, 1, 1, 1, 0, 0, 2);
    }
    Even(0x9602f662, 0x4b017b31);
    assert BitStep(0x4b017b31) == 0xc8383eb8 by {
      Odd(0x4b017b31, 0, 2, 1, 1, 2, 0, 0, 0, 2, 3, 3, 1, 2, 1, 2, 0);
    }
    Even(0xc8383eb8, 0x641c1f5c);
    Eight(0x77b79c19, 0xd6634d2c, 0x6b31a696, 0x3598d34b, 0xf774ea85, 0x9602f662, 0x4b017b31, 0xc8383eb8, 0x641c1f5c);
  }

  lemma Digit5()
    ensures ByteStep(0x641c1f5c, 53) == 0x340ac5e3
  {
    hide Xor, BitStep, BitSteps, Pair;
    PairTable();
    assert Xor(0x641c1f5c, 53) == 0x641c1f69 by {
      Mixed(0x641c1f5c, 53, 0x641c1f, 1, 1, 3, 0, 0, 3, 1, 1);
    }
    assert BitStep(0x641c1f69) == 0xdfb68c94 by {
      Odd(0x641c1f69, 0, 3, 0, 2, 0, 0, 3, 2, 0, 0, 3, 3, 2, 3, 1, 0);
    }
    Even(0xdfb68c94, 0x6fdb464a);
    Even(0x6fdb464a, 0x37eda325);
    assert BitStep(0x37eda325) == 0xf64e52b2 by {
      Odd(0x37eda325, 0, 1, 2, 3, 3, 3, 1, 2, 3, 1, 0, 1, 2, 1, 0, 2);
    }
    Even(0xf64e52b2, 0x7b272959);
    assert BitStep(0x7b272959) == 0xd02b178c by {
      Odd(0x7b272959, 0, 3, 3, 1, 2, 1, 0, 3, 2, 1, 1, 0, 2, 2, 3, 0);
    }
    Even(0xd02b178c, 0x68158bc6);
    Even(0x68158bc6, 0x340ac5e3);
    Eight(0x641c1f69, 0xdfb68c94, 0x6fdb464a, 0x37eda325, 0xf64e52b2, 0x7b272959, 0xd02b178c, 0x68158bc6, 0x340ac5e3);
  }

  lemma Digit6()
    ensures ByteStep(0x340ac5e3, 54) == 0xf68d2c9e
  {
    hide Xor, BitStep, BitSteps, Pair;
    PairTable();
    assert Xor(0x340ac5e3, 54) == 0x340ac5d5 by {
      Mixed(0x340ac5e3, 54, 0x340ac5, 3, 2, 0, 3, 0, 3, 1, 2);
    }
    assert BitStep(0x340ac5d5) == 0xf7bde1ca by {
      Odd(0x340ac5d5, 0, 1, 2, 2, 0, 0, 1, 1, 1, 2, 0, 2, 3, 2, 2, 2);
    }
    Even(0xf7bde1ca, 0x7bdef0e5);
    assert BitStep(0x7bdef0e5) == 0xd057fb52 by {
      Odd(0x7bdef0e5, 0, 3, 3, 1, 3, 2, 3, 3, 1, 3, 2, 0, 1, 3, 0, 2);
    }
    Even(0xd057fb52, 0x682bfda9);
    assert BitStep(0x682bfda9) == 0xd9ad7df4 by {
      Odd(0x682bfda9, 0, 3, 1, 0, 0, 1, 1, 1, 3, 3, 3, 2, 3, 1, 1, 0);
    }
    Even(0xd9ad7df4, 0x6cd6befa);
    Even(0x6cd6befa, 0x366b5f7d);
    assert BitStep(0x366b5f7d) == 0xf68d2c9e by {
      Odd(0x366b5f7d, 0, 1, 2, 3, 0, 3, 1, 1, 2, 2, 3, 3, 2, 3, 3, 2);
    }
    Eight(0x340ac5d5, 0xf7bde1ca, 0x7bdef0e5, 0xd057fb52, 0x682bfda9, 0xd9ad7df4, 0x6cd6befa, 0x366b5f7d, 0xf68d2c9e);
  }

  lemma Digit7()
    ensures ByteStep(0xf68d2c9e, 55) == 0xaffc9660
  {
    hide Xor, BitStep, BitSteps, Pair;
    PairTable();
    assert Xor(0xf68d2c9e, 55) == 0xf68d2ca9 by {
      Mixed(0xf68d2c9e, 55, 0xf68d2c, 2, 1, 3, 2, 0, 3, 1, 3);
    }
    assert BitStep(0xf68d2ca9) == 0x96fe1574 by {
      Odd(0xf68d2ca9, 1, 3, 2, 3, 1, 0, 1, 2, 2, 1, 1, 2, 1, 1, 1, 0);
    }
    Even(0x96fe1574, 0x4b7f0aba);
    Even(0x4b7f0aba, 0x25bf855d);
    assert BitStep(0x25bf855d) == 0xff67418e by {
      Odd(0x25bf855d, 0, 1, 0, 2, 3, 1, 3, 3, 3, 0, 0, 2, 2, 2, 3, 2);
    }
    Even(0xff67418e, 0x7fb3a0c7);
    assert BitStep(0x7fb3a0c7) == 0xd2615343 by {
      Odd(0x7fb3a0c7, 0, 3, 3, 3, 3, 1, 2, 1, 3, 1, 0, 0, 1, 2, 0, 3);
    }
    assert BitStep(0xd2615343) == 0x84882a81 by {
      Odd(0xd2615343, 1, 2, 2, 1, 0, 3, 0, 0, 2, 2, 2, 1, 2, 2, 0, 1);
    }
    assert BitStep(0x84882a81) == 0xaffc9660 by {
      Odd(0x84882a81, 1, 0, 0, 2, 1, 0, 1, 0, 0, 1, 1, 1, 1, 0, 0, 0);
    }
    Eight(0xf68d2ca9, 0x96fe1574, 0x4b7f0aba, 0x25bf855d, 0xff67418e, 0x7fb3a0c7, 0xd2615343, 0x84882a81, 0xaffc9660);
  }

  lemma Digit8()
    ensures ByteStep(0xaffc9660, 56) == 0x651f2550
  {
    hide Xor, BitStep, BitSteps, Pair;
    PairTable();
    assert Xor(0xaffc9660, 56) == 0xaffc9658 by {
      Mixed(0xaffc9660, 56, 0xaffc96, 1, 2, 0, 0, 0, 3, 2, 0);
    }
    Even(0xaffc9658, 0x57fe4b2c);
    Even(0x57fe4b2c, 0x2bff2596);
    Even(0x2bff2596, 0x15ff92cb);
    assert BitStep(0x15ff92cb) == 0xe7474a45 by {
      Odd(0x15ff92cb, 0, 0, 2, 2, 3, 3, 3, 3, 3, 0, 2, 1, 1, 2, 1, 1);
    }
    assert BitStep(0xe7474a45) == 0x9e1b2602 by {
      Odd(0xe7474a45, 1, 3, 0, 3, 2, 2, 0, 3, 2, 2, 1, 1, 0, 2, 0, 2);
    }
    Even(0x9e1b2602, 0x4f0d9301);
    assert BitStep(0x4f0d9301) == 0xca3e4aa0 by {
      Odd(0x4f0d9301, 0, 2, 1, 3, 2, 0, 1, 2, 3, 0, 2, 1, 2, 0, 0, 0);
    }
    Even(0xca3e4aa0, 0x651f2550);
    Eight(0xaffc9658, 0x57fe4b2c, 0x2bff2596, 0x15ff92cb, 0xe7474a45, 0x9e1b2602, 0x4f0d9301, 0xca3e4aa0, 0x651f2550);
  }

  lemma Digit9()
    ensures ByteStep(0x651f2550, 57) == 0x340bc6d9
  {
    hide Xor, BitStep, BitSteps, Pair;
    PairTable();
    assert Xor(0x651f2550, 57) == 0x651f2569 by {
      Mixed(0x651f2550, 57, 0x651f25, 1, 1, 0, 0, 0, 3, 2, 1);
    }
    assert BitStep(0x651f2569) == 0xdf371194 by {
      Odd(0x651f2569, 0, 3, 0, 2, 2, 0, 3, 3, 2, 1, 0, 2, 2, 3, 1, 0);
    }
    Even(0xdf371194, 0x6f9b88ca);
    Even(0x6f9b88ca, 0x37cdc465);
    assert BitStep(0x37cdc465) == 0xf65e6112 by {
      Odd(0x37cdc465, 0, 1, 2, 3, 3, 2, 1, 2, 3, 2, 0, 2, 0, 3, 0, 2);
    }
    Even(0xf65e6112, 0x7b2f3089);
    assert BitStep(0x7b2f3089) == 0xd02f1b64 by {
      Odd(0x7b2f3089, 0, 3, 3, 1, 2, 1, 1, 3, 2, 1, 2, 0, 1, 0, 1, 0);
    }
    Even(0xd02f1b64, 0x68178db2);
    Even(0x68178db2, 0x340bc6d9);
    Eight(0x651f2569, 0xdf371194, 0x6f9b88ca, 0x37cdc465, 0xf65e6112, 0x7b2f3089, 0xd02f1b64, 0x68178db2, 0x340bc6d9);
  }

  /** The register over two parts of a message. */
  lemma Next(r: word, s: seq<byte>, b: byte, x: word, y: word)
    requires Register(r, s) == x && ByteStep(x, b) == y
    ensures Register(r, s + [b]) == y
  {
    hide ByteStep;
    assert (s + [b])[..|s|] == s;
  }

  lemma Nothing(r: word)
    ensures Register(r, []) == r
  {
  }

  /** "123456789" has the checksum 0xcbf43926. */
  lemma CheckValue()
    ensures Checksum([49, 50, 51, 52, 53, 54, 55, 56, 57]) == 0xcbf43926
  {
    hide Xor, Register, ByteStep;
    Nothing(ALL_ONES);
    Pow2Values();
    hide Pow2;
    Digit1();
    Next(ALL_ONES, [], 49, 0xffffffff, 0x7c231048);
    assert [] + [49] == [49];
    Digit2();
    Next(ALL_ONES, [49], 50, 0x7c231048, 0xb0acbb32);
    assert [49] + [50] == [49, 50];
    Digit3();
    Next(ALL_ONES, [49, 50], 51, 0xb0acbb32, 0x77b79c2d);
    assert [49, 50] + [51] == [49, 50, 51];
    Digit4();
    Next(ALL_ONES, [49, 50, 51], 52, 0x77b79c2d, 0x641c1f5c);
    assert [49, 50, 51] + [52] == [49, 50, 51, 52];
    Digit5();
    Next(ALL_ONES, [49, 50, 51, 52], 53, 0x641c1f5c, 0x340ac5e3);
    assert [49, 50, 51, 52] + [53] == [49, 50, 51, 52, 53];
    Digit6();
    Next(ALL_ONES, [49, 50, 51, 52, 53], 54, 0x340ac5e3, 0xf68d2c9e);
    assert [49, 50, 51, 52, 53] + [54] == [49, 50, 51, 52, 53, 54];
    Digit7();
    Next(ALL_ONES, [49, 50, 51, 52, 53, 54], 55, 0xf68d2c9e, 0xaffc9660);
    assert [49, 50, 51, 52, 53, 54] + [55] == [49, 50, 51, 52, 53, 54, 55];
    Digit8();
    Next(ALL_ONES, [49, 50, 51, 52, 53, 54, 55], 56, 0xaffc9660, 0x651f2550);
    assert [49, 50, 51, 52, 53, 54, 55] + [56] == [49, 50, 51, 52, 53, 54, 55, 56];
    Digit9();
    Next(ALL_ONES, [49, 50, 51, 52, 53, 54, 55, 56], 57, 0x651f2550, 0x340bc6d9);
    assert [49, 50, 51, 52, 53, 54, 55, 56] + [57] == [49, 50, 51, 52, 53, 54, 55, 56, 57];
    XorComplement(0x340bc6d9, 0xcbf43926, 32);
    Pow2Values();
    XorCancels(0x340bc6d9, 0xcbf43926);
  }
}
