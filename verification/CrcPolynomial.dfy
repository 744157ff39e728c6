/**
  Which checksum it is: the cyclic redundancy code of section 8 of RFC 1952, by polynomial
  division over the two-element field and without any register.

  A polynomial is the sequence of its coefficients, highest power first. The dividend is the
  message followed by 32 zeros, with 32 ones added at its front; the code is the complement
  of the remainder, its highest coefficient in the lowest bit.
 */
module CrcPolynomial {
  import opened Words
  import opened Crc

  type poly = seq<bit>

  // ----- polynomials -----

  function Zeros(n: nat): (z: poly)
    ensures |z| == n
  {
    seq(n, i => 0)
  }

  function Ones(n: nat): (z: poly)
    ensures |z| == n
  {
    seq(n, i => 1)
  }

  /** Addition modulo 2. */
  function Plus(a: bit, b: bit): bit
  {
    if a == b then 0 else 1
  }

  function Add(a: poly, b: poly): (c: poly)
    requires |a| == |b|
    ensures |c| == |a| && forall i :: 0 <= i < |a| ==> c[i] == Plus(a[i], b[i])
  {
    seq(|a|, i requires 0 <= i < |a| => Plus(a[i], b[i]))
  }

  function Scale(d: bit, a: poly): (c: poly)
    ensures |c| == |a|
  {
    if d == 1 then a else Zeros(|a|)
  }

  /** The powers with coefficient one in the generator of degree 32. */
  const POWERS: set<int> := {32, 26, 23, 22, 16, 12, 11, 10, 8, 7, 5, 4, 2, 1, 0}

  function Generator(): (g: poly)
    ensures |g| == 33
  {
    seq(33, i => if 32 - i in POWERS then 1 else 0)
  }

  /** The product with the generator, by Horner's rule. */
  function Times(q: poly): (m: poly)
    ensures |m| == |q| + 32
  {
    if q == [] then Zeros(32) else
      var n := |q| - 1;
      Add(Times(q[..n]) + [0], Zeros(n) + Scale(q[n], Generator()))
  }

  ghost predicate IsQuotient(m: poly, q: poly, r: poly)
  {
    |r| == 32 && |m| == |q| + 32 && m == Add(Times(q), Zeros(|q|) + r)
  }

  ghost predicate IsRemainder(m: poly, r: poly)
  {
    exists q :: IsQuotient(m, q, r)
  }

  /** The message times x^32, its first 32 coefficients complemented. */
  function Dividend(bits: poly): (m: poly)
    ensures |m| == |bits| + 32
  {
    Add(bits + Zeros(32), Ones(32) + Zeros(|bits|))
  }

  function Complement(a: poly): (c: poly)
    ensures |c| == |a|
  {
    Add(a, Ones(|a|))
  }

  /** `code` is the CRC of the message. */
  ghost predicate IsCrc(s: seq<byte>, code: word)
  {
    exists r :: |r| == 32 && IsRemainder(Dividend(Stream(s)), r) && BitsOf(code, 32) == Complement(r)
  }

  // ----- remainders are unique -----

  lemma {:induction false} QuotientUnique(q: poly, p: poly)
    requires |q| == |p| && Times(q)[..|q|] == Times(p)[..|q|]
    ensures q == p
    decreases |q|
  {
    hide *;
    if q != [] {
      var n := |q| - 1;
      TimesHead(q);
      TimesHead(p);
      Cut(Times(q), Times(p), n);
      QuotientUnique(q[..n], p[..n]);
      SameBit(Times(q[..n])[n], q[n], p[n]);
      SameEnds(q, p, n);
    }
  }

  lemma SameEnds(a: poly, b: poly, n: nat)
    requires |a| == |b| == n + 1 && a[..n] == b[..n] && a[n] == b[n]
    ensures a == b
  {
    assert a == a[..n] + [a[n]] && b == b[..n] + [b[n]];
  }

  lemma Cut(a: poly, b: poly, n: nat)
    requires n < |a| && n < |b| && a[..n + 1] == b[..n + 1]
    ensures a[..n] == b[..n] && a[n] == b[n]
  {
    assert a[..n] == a[..n + 1][..n] && b[..n] == b[..n + 1][..n];
    assert a[n] == a[..n + 1][n] && b[n] == b[..n + 1][n];
  }

  /** The leading coefficients of a product, as the quotient grows. */
  lemma TimesHead(q: poly)
    requires q != []
    ensures var n := |q| - 1;
            Times(q)[..n] == Times(q[..n])[..n] && Times(q)[n] == Plus(Times(q[..n])[n], q[n])
  {
    var n := |q| - 1;
    hide *;
    LeadingOne();
    TimesLast(q);
    ScaleHead(q[n], Generator());
    HeadOf(Times(q[..n]), Scale(q[n], Generator()), n);
  }

  lemma ScaleHead(d: bit, g: poly)
    requires g != [] && g[0] == 1
    ensures Scale(d, g)[0] == d
  {
  }

  lemma TimesLast(q: poly)
    requires q != []
    ensures Times(q) == Add(Times(q[..|q| - 1]) + [0], Zeros(|q| - 1) + Scale(q[|q| - 1], Generator()))
  {
    hide Generator;
  }

  lemma HeadOf(t: poly, g: poly, n: nat)
    requires |t| == n + 32 && |g| == 33
    ensures var u := Add(t + [0], Zeros(n) + g); u[..n] == t[..n] && u[n] == Plus(t[n], g[0])
  {
    var u := Add(t + [0], Zeros(n) + g);
    forall i | 0 <= i < n
      ensures u[i] == t[i]
    {
      assert (Zeros(n) + g)[i] == 0 && (t + [0])[i] == t[i];
    }
  }

  lemma LeadingOne()
    ensures Generator()[0] == 1
  {
  }

  lemma RemainderUnique(m: poly, r: poly, s: poly)
    requires IsRemainder(m, r) && IsRemainder(m, s)
    ensures r == s
  {
    hide Times;
    var q :| IsQuotient(m, q, r);
    var p :| IsQuotient(m, p, s);
    var n := |q|;
    QuotientTop(m, q, r);
    QuotientTop(m, p, s);
    QuotientUnique(q, p);
    forall i | 0 <= i < 32
      ensures r[i] == s[i]
    {
      assert (Zeros(n) + r)[n + i] == r[i] && (Zeros(n) + s)[n + i] == s[i];
      assert m[n + i] == Plus(Times(q)[n + i], r[i]) == Plus(Times(p)[n + i], s[i]);
      SameBit(Times(q)[n + i], r[i], s[i]);
    }
  }

  lemma SameBit(t: bit, a: bit, b: bit)
    requires Plus(t, a) == Plus(t, b)
    ensures a == b
  {
  }

  lemma QuotientTop(m: poly, q: poly, r: poly)
    requires IsQuotient(m, q, r)
    ensures m[..|q|] == Times(q)[..|q|]
  {
    hide Times;
    forall i | 0 <= i < |q|
      ensures m[i] == Times(q)[i]
    {
      assert (Zeros(|q|) + r)[i] == 0;
    }
  }

  // ----- the register divides -----

  lemma {:induction false} BitsOfXor(a: nat, b: nat, n: nat)
    ensures BitsOf(Xor(a, b), n) == Add(BitsOf(a, n), BitsOf(b, n))
    decreases n
  {
    if n > 0 {
      hide Xor;
      XorHalves(a, b);
      BitsOfXor(a / 2, b / 2, n - 1);
      var s, t := BitsOf(a, n), BitsOf(b, n);
      assert s == [a % 2] + BitsOf(a / 2, n - 1) && t == [b % 2] + BitsOf(b / 2, n - 1);
      SumBit(a, b);
    }
  }

  lemma SumBit(a: nat, b: nat)
    ensures (a + b) % 2 == Plus(a % 2, b % 2)
  {
  }

  lemma {:induction false} BitsTop(v: nat, n: nat)
    requires v < Pow2(n)
    ensures BitsOf(v, n + 1) == BitsOf(v, n) + [0]
    decreases n
  {
    if n == 0 {
      assert BitsOf(v, 1) == [0] + BitsOf(0, 0);
    } else {
      BitsTop(v / 2, n - 1);
      assert BitsOf(v, n + 1) == [v % 2] + BitsOf(v / 2, n);
    }
  }

  lemma {:induction false} BitsOfBit(b: bit, n: nat)
    ensures BitsOf(b, n + 1) == [b] + Zeros(n)
    decreases n
  {
    assert BitsOf(b, n + 1) == [b] + BitsOf(0, n);
    if n > 0 {
      BitsOfBit(0, n - 1);
      assert [0] + Zeros(n - 1) == Zeros(n);
    } else {
      assert [b] + [] == [b] + Zeros(0);
    }
  }

  function Halved(v: nat, j: nat): nat
    decreases j
  {
    if j == 0 then v else Halved(v / 2, j - 1)
  }

  lemma {:induction false} BitsSplit(v: nat, j: nat, k: nat)
    ensures BitsOf(v, j + k) == BitsOf(v, j) + BitsOf(Halved(v, j), k)
    decreases j
  {
    if j > 0 {
      BitsSplit(v / 2, j - 1, k);
      assert BitsOf(v, j + k) == [v % 2] + BitsOf(v / 2, j - 1 + k);
    }
  }

  lemma FourBits(v: nat)
    ensures BitsOf(v, 4) == [v % 2, v / 2 % 2, v / 2 / 2 % 2, v / 2 / 2 / 2 % 2] && Halved(v, 4) == v / 2 / 2 / 2 / 2
  {
    var a, b, c := v / 2, v / 2 / 2, v / 2 / 2 / 2;
    assert BitsOf(c, 1) == [c % 2] + BitsOf(c / 2, 0) && Halved(c, 1) == Halved(c / 2, 0);
    assert BitsOf(b, 2) == [b % 2] + BitsOf(c, 1) && Halved(b, 2) == Halved(c, 1);
    assert BitsOf(a, 3) == [a % 2] + BitsOf(b, 2) && Halved(a, 3) == Halved(b, 2);
    assert BitsOf(v, 4) == [v % 2] + BitsOf(a, 3) && Halved(v, 4) == Halved(a, 3);
  }

  /** The bits of the constant, digit by hexadecimal digit. */
  lemma PolynomialBits()
    ensures BitsOf(POLYNOMIAL, 32)
         == [0, 0, 0, 0] + ([0, 1, 0, 0] + ([1, 1, 0, 0] + ([0, 0, 0, 1]
          + ([0, 0, 0, 1] + ([1, 1, 0, 1] + ([1, 0, 1, 1] + ([0, 1, 1, 1] + [])))))))
  {
    hide BitsOf, Halved;
    NextDigit(0xedb88320, 28, [0, 0, 0, 0]);
    NextDigit(0xedb8832, 24, [0, 1, 0, 0]);
    NextDigit(0xedb883, 20, [1, 1, 0, 0]);
    NextDigit(0xedb88, 16, [0, 0, 0, 1]);
    NextDigit(0xedb8, 12, [0, 0, 0, 1]);
    NextDigit(0xedb, 8, [1, 1, 0, 1]);
    NextDigit(0xed, 4, [1, 0, 1, 1]);
    NextDigit(0xe, 0, [0, 1, 1, 1]);
    NoDigits();
  }

  lemma NoDigits()
    ensures BitsOf(0, 0) == []
  {
  }

  lemma NextDigit(v: nat, k: nat, bits: poly)
    requires bits == [v % 2, v / 2 % 2, v / 2 / 2 % 2, v / 2 / 2 / 2 % 2]
    ensures BitsOf(v, 4 + k) == bits + BitsOf(v / 2 / 2 / 2 / 2, k)
  {
    hide BitsOf, Halved;
    FourBits(v);
    BitsSplit(v, 4, k);
  }

  /** The code's constant holds the generator below its leading one, reflected. */
  lemma PolynomialIsGenerator()
    ensures BitsOf(POLYNOMIAL, 32) == Generator()[1..]
  {
    PolynomialBits();
    hide BitsOf, Generator;
    GeneratorBits();
  }

  lemma GeneratorBits()
    ensures Generator()[1..]
         == [0, 0, 0, 0] + ([0, 1, 0, 0] + ([1, 1, 0, 0] + ([0, 0, 0, 1]
          + ([0, 0, 0, 1] + ([1, 1, 0, 1] + ([1, 0, 1, 1] + ([0, 1, 1, 1] + [])))))))
  {
  }

  /** What one bit does to the register, as a polynomial: shift, and subtract the generator if a one falls out. */
  lemma BitInDivides(c: word, b: bit)
    ensures var r := BitsOf(c, 32);
            BitsOf(BitIn(c, b), 32) == Add(r[1..] + [0], Scale(Plus(r[0], b), Generator()[1..]))
  {
    hide *;
    var r, x := BitsOf(c, 32), Xor(c, b);
    XorWord(c, b);
    BitInIs(c, b);
    MixedBits(c, b);
    FirstBit(x);
    HalfBits(x);
    StepIs(x);
    if x % 2 == 1 {
      BitsOfXor(x / 2, POLYNOMIAL, 32);
      PolynomialIsGenerator();
    }
    ScaleIs(Plus(r[0], b), r[1..] + [0], Generator()[1..]);
  }

  lemma BitInIs(c: word, b: bit)
    requires 0 <= Xor(c, b) < 0x1_0000_0000
    ensures BitIn(c, b) == BitStep(Xor(c, b))
  {
    hide Xor, BitStep;
  }

  lemma MixedBits(c: word, b: bit)
    ensures var r, s := BitsOf(c, 32), BitsOf(Xor(c, b), 32); s[0] == Plus(r[0], b) && s[1..] == r[1..]
  {
    hide Xor, BitsOf;
    BitsOfXor(c, b, 32);
    BitsOfBit(b, 31);
  }

  lemma ScaleIs(d: bit, a: poly, g: poly)
    requires |a| == |g|
    ensures Add(a, Scale(d, g)) == if d == 1 then Add(a, g) else a
  {
  }

  lemma FirstBit(c: nat)
    ensures BitsOf(c, 32)[0] == c % 2
  {
  }

  lemma HalfBits(x: word)
    ensures BitsOf(x / 2, 32) == BitsOf(x, 32)[1..] + [0]
  {
    Pow2Values();
    BitsTop(x / 2, 31);
    assert BitsOf(x, 32) == [x % 2] + BitsOf(x / 2, 31);
  }

  // ----- feeding bits is dividing -----

  /** The dividend of the bits so far when the register starts at `start`. */
  function Shifted(bits: poly, start: poly): (m: poly)
    requires |start| == 32
    ensures |m| == |bits| + 32
  {
    Add(bits + Zeros(32), start + Zeros(|bits|))
  }

  lemma ShiftedNext(bits: poly, start: poly, b: bit)
    requires |start| == 32
    ensures var n := |bits|;
            Shifted(bits + [b], start) == Add(Shifted(bits, start) + [0], Zeros(n) + ([b] + Zeros(32)))
  {
    var n := |bits|;
    var u, v := Shifted(bits + [b], start), Add(Shifted(bits, start) + [0], Zeros(n) + ([b] + Zeros(32)));
    forall i | 0 <= i < n + 33
      ensures u[i] == v[i]
    {
    }
  }

  /** One more bit of the quotient, and what is left. */
  lemma DivideStep(t: poly, r: poly, b: bit, n: nat)
    requires |t| == n + 32 && |r| == 32
    ensures var d := Plus(r[0], b);
            Add(Add(t, Zeros(n) + r) + [0], Zeros(n) + ([b] + Zeros(32)))
            == Add(Add(t + [0], Zeros(n) + Scale(d, Generator())),
                   Zeros(n + 1) + Add(r[1..] + [0], Scale(d, Generator()[1..])))
  {
    LeadingOne();
    var g := Generator();
    hide Generator;
    var d := Plus(r[0], b);
    var u := Add(Add(t, Zeros(n) + r) + [0], Zeros(n) + ([b] + Zeros(32)));
    var left := Add(r[1..] + [0], Scale(d, g[1..]));
    var v := Add(Add(t + [0], Zeros(n) + Scale(d, g)), Zeros(n + 1) + left);
    forall i | 0 <= i < n + 33
      ensures u[i] == v[i]
    {
      StepAt(t, r, b, n, g, i);
    }
  }

  lemma StepAt(t: poly, r: poly, b: bit, n: nat, g: poly, i: nat)
    requires |t| == n + 32 && |r| == 32 && |g| == 33 && g[0] == 1 && i < n + 33
    ensures var d := Plus(r[0], b);
            Add(Add(t, Zeros(n) + r) + [0], Zeros(n) + ([b] + Zeros(32)))[i]
            == Add(Add(t + [0], Zeros(n) + Scale(d, g)), Zeros(n + 1) + Add(r[1..] + [0], Scale(d, g[1..])))[i]
  {
    if i == n {
    } else if i > n {
      var k := i - n;
      assert (Zeros(n) + ([b] + Zeros(32)))[i] == 0;
    }
  }

  lemma {:induction false} FeedDivides(c: word, bits: poly) returns (q: poly)
    ensures IsQuotient(Shifted(bits, BitsOf(c, 32)), q, BitsOf(Feed(c, bits), 32))
    decreases |bits|
  {
    hide BitIn, BitsOf, Generator;
    if bits == [] {
      q := [];
      NoBits(BitsOf(c, 32));
    } else {
      var n := |bits| - 1;
      var front, b := bits[..n], bits[n];
      assert bits == front + [b];
      q := FeedDivides(c, front);
      FeedConcat(c, front, [b]);
      FeedOne(Feed(c, front), b);
      var r := BitsOf(Feed(c, front), 32);
      BitInDivides(Feed(c, front), b);
      ShiftedNext(front, BitsOf(c, 32), b);
      DivideStep(Times(q), r, b, n);
      TimesNext(q, Plus(r[0], b));
      q := q + [Plus(r[0], b)];
    }
  }

  lemma FeedOne(c: word, b: bit)
    ensures Feed(c, [b]) == BitIn(c, b)
  {
    hide BitIn;
    assert [b][1..] == [];
  }

  lemma NoBits(start: poly)
    requires |start| == 32
    ensures IsQuotient(Shifted([], start), [], start)
  {
    assert Times([]) == Zeros(32);
    assert start + Zeros(0) == start && Zeros(0) + start == start;
    assert [] + Zeros(32) == Zeros(32);
  }

  lemma TimesNext(q: poly, d: bit)
    ensures Times(q + [d]) == Add(Times(q) + [0], Zeros(|q|) + Scale(d, Generator()))
  {
    hide Generator;
    assert (q + [d])[..|q|] == q;
  }

  // ----- the checksum -----

  lemma AllOnesBits()
    ensures BitsOf(ALL_ONES, 32) == Ones(32)
  {
    OnesBits(32);
    Pow2Values();
  }

  lemma {:induction false} OnesBits(n: nat)
    ensures BitsOf(Pow2(n) - 1, n) == Ones(n)
    decreases n
  {
    if n > 0 {
      OnesBits(n - 1);
      var p := Pow2(n - 1);
      assert (2 * p - 1) / 2 == p - 1 && (2 * p - 1) % 2 == 1;
      assert [1] + Ones(n - 1) == Ones(n);
    }
  }

  lemma ChecksumIsSome(s: seq<byte>)
    ensures IsCrc(s, Checksum(s))
  {
    hide Xor, BitsOf, Times, Register, Feed, Stream;
    AllOnesBits();
    RegisterIsFed(ALL_ONES, s);
    var q := FeedDivides(ALL_ONES, Stream(s));
    var r := BitsOf(Feed(ALL_ONES, Stream(s)), 32);
    assert IsRemainder(Dividend(Stream(s)), r);
    BitsOfXor(Register(ALL_ONES, s), ALL_ONES, 32);
  }

  /** For every message, the checksum is its CRC and nothing else is. */
  lemma ChecksumIff(s: seq<byte>, code: word)
    ensures Checksum(s) == code <==> IsCrc(s, code)
  {
    hide BitsOf, IsRemainder, Checksum, Dividend, Stream;
    ChecksumIsSome(s);
    if IsCrc(s, code) {
      var r :| |r| == 32 && IsRemainder(Dividend(Stream(s)), r) && BitsOf(Checksum(s), 32) == Complement(r);
      var t :| |t| == 32 && IsRemainder(Dividend(Stream(s)), t) && BitsOf(code, 32) == Complement(t);
      RemainderUnique(Dividend(Stream(s)), r, t);
      Pow2Values();
      ValueOfBits(Checksum(s), 32);
      ValueOfBits(code, 32);
    }
  }
}
