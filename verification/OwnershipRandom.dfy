/**
  The random source of the generator is a permutation: its mixing can be undone, its
  increment is the golden ratio's, and no state or full draw repeats within 2^64 steps.
 */
module OwnershipRandom {
  import opened Words
  import opened Ownership

  // ----- folding high bits down, and back -----

  /** `v >> k`. */
  function Shift(v: nat, k: nat): nat
    decreases k
  {
    if k == 0 then v else Shift(v / 2, k - 1)
  }

  function Fold(v: nat, k: nat): nat
  {
    Xor(v, Shift(v, k))
  }

  function Unfold(v: nat, k: nat): nat
  {
    Xor(v, Xor(Shift(v, k), Shift(Shift(v, k), k)))
  }

  lemma {:induction false} ShiftAdds(v: nat, j: nat, k: nat)
    ensures Shift(Shift(v, j), k) == Shift(v, j + k)
    decreases j
  {
    if j > 0 {
      ShiftAdds(v / 2, j - 1, k);
    }
  }

  lemma {:induction false} ShiftXor(a: nat, b: nat, k: nat)
    ensures Shift(Xor(a, b), k) == Xor(Shift(a, k), Shift(b, k))
    decreases k
  {
    hide Xor;
    if k > 0 {
      XorHalves(a, b);
      ShiftXor(a / 2, b / 2, k - 1);
    }
  }

  lemma {:induction false} ShiftedOut(v: nat, k: nat)
    requires v < Pow2(k)
    ensures Shift(v, k) == 0
    decreases k
  {
    if k > 0 {
      ShiftedOut(v / 2, k - 1);
    }
  }

  lemma {:induction false} ShiftSmaller(v: nat, k: nat)
    ensures Shift(v, k) <= v
    decreases k
  {
    if k > 0 {
      ShiftSmaller(v / 2, k - 1);
    }
  }

  lemma ThreeShifts(v: nat, k: nat)
    requires v < Pow2(64) && 3 * k >= 64
    ensures Shift(Shift(Shift(v, k), k), k) == 0
  {
    hide Shift, Pow2;
    ShiftAdds(Shift(v, k), k, k);
    ShiftAdds(v, k, k + k);
    Pow2Grows(64, k + (k + k));
    ShiftedOut(v, k + (k + k));
  }

  lemma UnfoldFold(v: nat, k: nat)
    requires v < Pow2(64) && 3 * k >= 64
    ensures Unfold(Fold(v, k), k) == v
  {
    hide Xor, Shift, Pow2;
    var b, c := Shift(v, k), Shift(Shift(v, k), k);
    ThreeShifts(v, k);
    ShiftXor(v, b, k);
    ShiftXor(b, c, k);
    XorZero(c);
    XorCancels(c, b);
    XorCancels(b, v);
  }

  lemma FoldUnfold(v: nat, k: nat)
    requires v < Pow2(64) && 3 * k >= 64
    ensures Fold(Unfold(v, k), k) == v
  {
    hide Xor, Shift, Pow2;
    var b, c := Shift(v, k), Shift(Shift(v, k), k);
    ThreeShifts(v, k);
    ShiftXor(v, Xor(b, c), k);
    ShiftXor(b, c, k);
    XorZero(c);
    XorCancels(Xor(b, c), v);
  }

  lemma FoldBounds(v: nat, k: nat)
    requires v < Pow2(64)
    ensures Fold(v, k) < Pow2(64) && Unfold(v, k) < Pow2(64)
  {
    hide Xor, Shift, Pow2;
    var b, c := Shift(v, k), Shift(Shift(v, k), k);
    ShiftSmaller(v, k);
    ShiftSmaller(b, k);
    XorBound(v, b, 64);
    XorBound(b, c, 64);
    XorBound(v, Xor(b, c), 64);
  }

  lemma ShiftFive(v: nat)
    ensures Shift(v, 5) == v / 32
  {
    assert Shift(v, 5) == Shift(v / 2, 4) == Shift(v / 2 / 2, 3) == Shift(v / 2 / 2 / 2, 2);
    assert Shift(v / 2 / 2 / 2, 2) == Shift(v / 2 / 2 / 2 / 2, 1) == Shift(v / 2 / 2 / 2 / 2 / 2, 0);
  }

  lemma ShiftFifteen(v: nat)
    ensures Shift(v, 15) == v / 0x8000
  {
    hide Shift;
    ShiftFive(v);
    ShiftFive(v / 32);
    ShiftFive(v / 32 / 32);
    ShiftAdds(v, 5, 5);
    ShiftAdds(v, 10, 5);
  }

  lemma ShiftTwo(v: nat)
    ensures Shift(v, 1) == v / 2 && Shift(v, 2) == v / 4
  {
    assert Shift(v, 2) == Shift(v / 2, 1) == v / 2 / 2;
  }

  /** The three shifts are the three divisions of the mixing. */
  lemma ShiftsDivide(v: nat)
    ensures Shift(v, 27) == v / 0x800_0000 && Shift(v, 30) == v / 0x4000_0000 && Shift(v, 31) == v / 0x8000_0000
  {
    hide Shift;
    var w := v / 0x8000;
    ShiftFifteen(v);
    ShiftFifteen(w);
    ShiftAdds(v, 15, 15);
    ShiftTwo(v / 0x4000_0000);
    ShiftAdds(v, 30, 1);
    ShiftFive(w);
    ShiftFive(w / 32);
    ShiftAdds(v, 15, 5);
    ShiftAdds(v, 20, 5);
    ShiftTwo(w / 32 / 32);
    ShiftAdds(v, 25, 2);
  }

  lemma Width()
    ensures Pow2(64) == M64
  {
    hide Pow2;
    Pow2Values();
    Pow2Adds(32, 32);
  }

  // ----- multiplying, and back -----

  lemma ProductModulo(x: nat, n: nat)
    ensures x % M64 * n % M64 == x * n % M64
  {
    var q, r := x / M64, x % M64;
    Distributed(q, r, n);
    Multiple(q * n, r * n);
  }

  lemma Distributed(q: nat, r: nat, n: nat)
    ensures (M64 * q + r) * n == M64 * (q * n) + r * n
  {
  }

  lemma Multiple(q: nat, r: nat)
    ensures (M64 * q + r) % M64 == r % M64
  {
  }

  /** Multiplying by `n` undoes multiplying by `m` when their product is one. */
  lemma TimesInverse(v: nat, m: nat, n: nat)
    requires v < M64 && m * n % M64 == 1
    ensures v * m % M64 * n % M64 == v
  {
    ProductModulo(v * m, n);
    Reordered(v, m, n);
    ProductModulo(m * n, v);
  }

  lemma Reordered(v: nat, m: nat, n: nat)
    ensures v * m * n == m * n * v
  {
  }

  // ----- mixing, and back -----

  /** The inverse mixing, with the inverses of the two multipliers in the opposite order. */
  function Unmix(w: nat): nat
  {
    var c := Unfold(w, 31) * 0x319642B2D24D8EC3 % M64;
    var b := Unfold(c, 27) * 0x96DE1B173F119089 % M64;
    Unfold(b, 30)
  }

  lemma Inverses()
    ensures 0xBF58476D1CE4E5B9 * 0x96DE1B173F119089 % M64 == 1
    ensures 0x94D049BB133111EB * 0x319642B2D24D8EC3 % M64 == 1
    ensures 0x9E3779B97F4A7C15 * 0xF1DE83E19937733D % M64 == 1
  {
  }

  lemma MixFolds(v: nat)
    ensures Mix(v) == Fold(Fold(Fold(v, 30) * 0xBF58476D1CE4E5B9 % M64, 27) * 0x94D049BB133111EB % M64, 31)
  {
    hide Xor, Shift;
    ShiftsDivide(v);
    var b := Fold(v, 30) * 0xBF58476D1CE4E5B9 % M64;
    ShiftsDivide(b);
    ShiftsDivide(Fold(b, 27) * 0x94D049BB133111EB % M64);
  }

  lemma UnmixMix(v: nat)
    requires v < M64
    ensures Mix(v) < M64 && Unmix(Mix(v)) == v
  {
    hide Fold, Unfold, Mix, Pow2;
    Width();
    Inverses();
    var x := Fold(v, 30);
    var b := x * 0xBF58476D1CE4E5B9 % M64;
    var y := Fold(b, 27);
    var c := y * 0x94D049BB133111EB % M64;
    MixFolds(v);
    FoldBounds(v, 30);
    FoldBounds(b, 27);
    FoldBounds(c, 31);
    UnfoldFold(c, 31);
    TimesInverse(y, 0x94D049BB133111EB, 0x319642B2D24D8EC3);
    UnfoldFold(b, 27);
    TimesInverse(x, 0xBF58476D1CE4E5B9, 0x96DE1B173F119089);
    UnfoldFold(v, 30);
  }

  lemma MixUnmix(w: nat)
    requires w < M64
    ensures Unmix(w) < M64 && Mix(Unmix(w)) == w
  {
    hide Fold, Unfold, Mix, Pow2;
    Width();
    Inverses();
    var x := Unfold(w, 31);
    var c := x * 0x319642B2D24D8EC3 % M64;
    var y := Unfold(c, 27);
    var b := y * 0x96DE1B173F119089 % M64;
    FoldBounds(w, 31);
    FoldBounds(c, 27);
    FoldBounds(b, 30);
    MixFolds(Unmix(w));
    FoldUnfold(b, 30);
    TimesInverse(y, 0x96DE1B173F119089, 0xBF58476D1CE4E5B9);
    FoldUnfold(c, 27);
    TimesInverse(x, 0x319642B2D24D8EC3, 0x94D049BB133111EB);
    FoldUnfold(w, 31);
  }

  // ----- the sequence of states -----

  /** `g` is the integer part of 2^64 over the golden ratio, the positive root of x*x + x == 1 scaled up. */
  predicate Golden(g: nat)
  {
    g * g + M64 * g <= M64 * M64 < (g + 1) * (g + 1) + M64 * (g + 1)
  }

  lemma GoldenUnique(g: nat, h: nat)
    requires Golden(g) && Golden(h)
    ensures g >= h
  {
    if g + 1 <= h {
      Grows(g + 1, h, g + 1);
      Grows(g + 1, h, h);
    }
  }

  lemma Grows(a: nat, b: nat, c: nat)
    requires a <= b
    ensures a * c <= b * c == c * b
  {
  }

  /** Each step adds the golden ratio's increment, which is the only one there is. */
  lemma NextIsGolden(state: nat, g: nat)
    requires Golden(g)
    ensures NextState(state) == (state + g) % M64
  {
    assert Golden(0x9E3779B97F4A7C15);
    GoldenUnique(g, 0x9E3779B97F4A7C15);
    GoldenUnique(0x9E3779B97F4A7C15, g);
  }

  function StateAt(seed: nat, k: nat): nat
  {
    if k == 0 then seed else NextState(StateAt(seed, k - 1))
  }

  lemma {:induction false} StateIs(seed: nat, k: nat)
    requires seed < M64
    ensures StateAt(seed, k) == (seed + k * 0x9E3779B97F4A7C15) % M64
    decreases k
  {
    if k > 0 {
      StateIs(seed, k - 1);
      SumModulo(seed + (k - 1) * 0x9E3779B97F4A7C15, 0x9E3779B97F4A7C15);
    }
  }

  lemma SumModulo(a: nat, b: nat)
    ensures (a % M64 + b) % M64 == (a + b) % M64
  {
  }

  lemma StatesDiffer(seed: nat, j: nat, k: nat)
    requires seed < M64 && j < k < j + M64
    ensures StateAt(seed, j) != StateAt(seed, k)
  {
    var d, g := k - j, 0x9E3779B97F4A7C15;
    StateIs(seed, j);
    StateIs(seed, k);
    hide StateAt;
    Inverses();
    TimesInverse(d, g, 0xF1DE83E19937733D);
    var a := seed + j * g;
    assert seed + k * g == a + d * g;
    if a % M64 == (a + d * g) % M64 {
      SameMultiple(a, d * g);
    }
  }

  lemma SameMultiple(a: nat, b: nat)
    requires a % M64 == (a + b) % M64
    ensures b % M64 == 0
  {
  }

  lemma StateNext(seed: nat, k: nat)
    ensures StateAt(seed, k + 1) == NextState(StateAt(seed, k)) < M64
  {
  }

  lemma FullDraw(state: nat, next: nat)
    requires next == NextState(state) && Mix(next) < M64
    ensures Draw(state, M64) == Mix(next)
  {
    hide Mix, NextState;
  }

  lemma FullDrawAt(seed: nat, k: nat)
    ensures Unmix(Draw(StateAt(seed, k), M64)) == StateAt(seed, k + 1)
  {
    hide *;
    StateNext(seed, k);
    UnmixMix(StateAt(seed, k + 1));
    FullDraw(StateAt(seed, k), StateAt(seed, k + 1));
  }

  /** A full draw gives back its state, so 2^64 successive full draws are all different. */
  lemma DrawsDiffer(seed: nat, j: nat, k: nat)
    requires seed < M64 && j < k < j + M64
    ensures Draw(StateAt(seed, j), M64) != Draw(StateAt(seed, k), M64)
  {
    hide *;
    StatesDiffer(seed, j + 1, k + 1);
    FullDrawAt(seed, j);
    FullDrawAt(seed, k);
  }
}
