/**
  The compression function behind the drivers: section 6.2.2 of FIPS 180-4 over 32-bit words,
  its in-place C form, where its constants come from, and that its rounds can be undone.
 */
module Sha256Transform {
  import opened Words
  import opened Sha256

  /** The constants of the 64 rounds, eight to a row. */
  const K0: seq<word> := [0x428a2f98, 0x71374491, 0xb5c0fbcf, 0xe9b5dba5, 0x3956c25b, 0x59f111f1, 0x923f82a4, 0xab1c5ed5]
  const K1: seq<word> := [0xd807aa98, 0x12835b01, 0x243185be, 0x550c7dc3, 0x72be5d74, 0x80deb1fe, 0x9bdc06a7, 0xc19bf174]
  const K2: seq<word> := [0xe49b69c1, 0xefbe4786, 0x0fc19dc6, 0x240ca1cc, 0x2de92c6f, 0x4a7484aa, 0x5cb0a9dc, 0x76f988da]
  const K3: seq<word> := [0x983e5152, 0xa831c66d, 0xb00327c8, 0xbf597fc7, 0xc6e00bf3, 0xd5a79147, 0x06ca6351, 0x14292967]
  const K4: seq<word> := [0x27b70a85, 0x2e1b2138, 0x4d2c6dfc, 0x53380d13, 0x650a7354, 0x766a0abb, 0x81c2c92e, 0x92722c85]
  const K5: seq<word> := [0xa2bfe8a1, 0xa81a664b, 0xc24b8b70, 0xc76c51a3, 0xd192e819, 0xd6990624, 0xf40e3585, 0x106aa070]
  const K6: seq<word> := [0x19a4c116, 0x1e376c08, 0x2748774c, 0x34b0bcb5, 0x391c0cb3, 0x4ed8aa4a, 0x5b9cca4f, 0x682e6ff3]
  const K7: seq<word> := [0x748f82ee, 0x78a5636f, 0x84c87814, 0x8cc70208, 0x90befffa, 0xa4506ceb, 0xbef9a3f7, 0xc67178f2]
  const K: seq<word> := K0 + K1 + K2 + K3 + (K4 + K5 + K6 + K7)

  // ----- the functions of section 4.1.2 -----

  function Choose(x: bv32, y: bv32, z: bv32): bv32
  {
    (x & y) ^ (!x & z)
  }

  function Majority(x: bv32, y: bv32, z: bv32): bv32
  {
    (x & y) ^ (x & z) ^ (y & z)
  }

  function Xor3(x: bv32, y: bv32, z: bv32): bv32
  {
    x ^ y ^ z
  }

  function Rotated(x: bv32, n: nat): bv32
    requires n < 32
  {
    x.RotateRight(n)
  }

  function Shifted(x: bv32, n: nat): bv32
    requires n < 32
  {
    x >> n
  }

  function BigSigma0(x: bv32): bv32
  {
    Xor3(Rotated(x, 2), Rotated(x, 13), Rotated(x, 22))
  }

  function BigSigma1(x: bv32): bv32
  {
    Xor3(Rotated(x, 6), Rotated(x, 11), Rotated(x, 25))
  }

  function SmallSigma0(x: bv32): bv32
  {
    Xor3(Rotated(x, 7), Rotated(x, 18), Shifted(x, 3))
  }

  function SmallSigma1(x: bv32): bv32
  {
    Xor3(Rotated(x, 17), Rotated(x, 19), Shifted(x, 10))
  }

  /** Addition of words wraps around. */
  function Plus(x: bv32, y: bv32): bv32
  {
    x + y
  }

  function Minus(x: bv32, y: bv32): bv32
  {
    x - y
  }

  // ----- section 6.2.2 -----

  function Schedule(m: seq<bv32>, t: nat): bv32
    requires |m| == 16
  {
    if t < 16 then m[t]
    else Plus(Plus(Plus(SmallSigma1(Schedule(m, t - 2)), Schedule(m, t - 7)), SmallSigma0(Schedule(m, t - 15))),
              Schedule(m, t - 16))
  }

  datatype Working = Working(a: bv32, b: bv32, c: bv32, d: bv32, e: bv32, f: bv32, g: bv32, h: bv32)

  function Round(v: Working, k: bv32, w: bv32): Working
  {
    var t1 := Plus(Plus(Plus(Plus(v.h, BigSigma1(v.e)), Choose(v.e, v.f, v.g)), k), w);
    var t2 := Plus(BigSigma0(v.a), Majority(v.a, v.b, v.c));
    Working(Plus(t1, t2), v.a, v.b, v.c, Plus(v.d, t1), v.e, v.f, v.g)
  }

  function Rounds(v: Working, m: seq<bv32>, t: nat): Working
    requires |m| == 16 && t <= 64
  {
    if t == 0 then v else Round(Rounds(v, m, t - 1), OfWord(K[t - 1]), Schedule(m, t - 1))
  }

  function Added(v: Working, w: Working): Working
  {
    Working(Plus(v.a, w.a), Plus(v.b, w.b), Plus(v.c, w.c), Plus(v.d, w.d),
            Plus(v.e, w.e), Plus(v.f, w.f), Plus(v.g, w.g), Plus(v.h, w.h))
  }

  /** Four bytes as one word, the first one highest. */
  function Load(a: byte, b: byte, c: byte, d: byte): bv32
  {
    ((a as bv8 as bv32) << 24) | ((b as bv8 as bv32) << 16) | ((c as bv8 as bv32) << 8) | (d as bv8 as bv32)
  }

  function Parsed(b: Block): (m: seq<bv32>)
    ensures |m| == 16
  {
    seq(16, i requires 0 <= i < 16 => Load(b[4 * i], b[4 * i + 1], b[4 * i + 2], b[4 * i + 3]))
  }

  function ToWord(x: bv32): (w: word)
    ensures 0 <= w < 0x1_0000_0000
  {
    x as int
  }

  function OfWord(x: word): bv32
  {
    x as bv32
  }

  function FromState(h: State): Working
  {
    Working(OfWord(h[0]), OfWord(h[1]), OfWord(h[2]), OfWord(h[3]), OfWord(h[4]), OfWord(h[5]), OfWord(h[6]), OfWord(h[7]))
  }

  function Eight(a: word, b: word, c: word, d: word, e: word, f: word, g: word, h: word): State
  {
    [a, b, c, d, e, f, g, h]
  }

  function ToState(v: Working): State
  {
    Eight(ToWord(v.a), ToWord(v.b), ToWord(v.c), ToWord(v.d), ToWord(v.e), ToWord(v.f), ToWord(v.g), ToWord(v.h))
  }

  function Compress(h: State, b: Block): State
  {
    ToState(Added(FromState(h), Rounds(FromState(h), Parsed(b), 64)))
  }

  // ----- the C form -----

  /** `sengoo_sha256_rotr`. */
  function Rotr(value: bv32, bits: nat): bv32
    requires 0 < bits < 32
  {
    (value >> bits) | (value << (32 - bits))
  }

  /** The shifts of the C function rotate, by each of the ten amounts it is used with. */
  lemma RotrRotates(x: bv32)
    ensures Rotr(x, 2) == Rotated(x, 2) && Rotr(x, 13) == Rotated(x, 13) && Rotr(x, 22) == Rotated(x, 22)
    ensures Rotr(x, 6) == Rotated(x, 6) && Rotr(x, 11) == Rotated(x, 11) && Rotr(x, 25) == Rotated(x, 25)
    ensures Rotr(x, 7) == Rotated(x, 7) && Rotr(x, 18) == Rotated(x, 18)
    ensures Rotr(x, 17) == Rotated(x, 17) && Rotr(x, 19) == Rotated(x, 19)
  {
  }

  function RotatedBig0(x: bv32): bv32
  {
    Xor3(Rotr(x, 2), Rotr(x, 13), Rotr(x, 22))
  }

  function RotatedBig1(x: bv32): bv32
  {
    Xor3(Rotr(x, 6), Rotr(x, 11), Rotr(x, 25))
  }

  function RotatedSmall0(x: bv32): bv32
  {
    Xor3(Rotr(x, 7), Rotr(x, 18), Shifted(x, 3))
  }

  function RotatedSmall1(x: bv32): bv32
  {
    Xor3(Rotr(x, 17), Rotr(x, 19), Shifted(x, 10))
  }

  lemma SigmasAgree(x: bv32)
    ensures RotatedBig0(x) == BigSigma0(x) && RotatedBig1(x) == BigSigma1(x)
    ensures RotatedSmall0(x) == SmallSigma0(x) && RotatedSmall1(x) == SmallSigma1(x)
  {
    hide Rotr, Rotated, Xor3, Shifted;
    RotrRotates(x);
  }

  /** Where the first word is one the second is chosen, where it is zero the third. */
  lemma ChooseChooses(x: bv32, y: bv32, z: bv32)
    ensures Choose(x, y, z) & x == y & x && Choose(x, y, z) & !x == z & !x
  {
  }

  /** `m` is `x` wherever `x` and `y` agree. */
  predicate Follows(m: bv32, x: bv32, y: bv32)
  {
    m & !(x ^ y) == x & !(x ^ y)
  }

  lemma FollowsFirst(x: bv32, y: bv32, z: bv32)
    ensures Follows(Majority(x, y, z), x, y)
  {
  }

  lemma MajorityTurns(x: bv32, y: bv32, z: bv32)
    ensures Majority(x, y, z) == Majority(y, z, x)
  {
  }

  /** Wherever two words agree, the majority agrees with them. */
  lemma MajorityAgrees(x: bv32, y: bv32, z: bv32)
    ensures var m := Majority(x, y, z); Follows(m, x, y) && Follows(m, y, z) && Follows(m, z, x)
  {
    hide Majority, Follows;
    FollowsFirst(x, y, z);
    FollowsFirst(y, z, x);
    FollowsFirst(z, x, y);
    MajorityTurns(x, y, z);
    MajorityTurns(y, z, x);
  }

  /** The four bytes can be read back from the loaded word. */
  lemma LoadBytes(a: byte, b: byte, c: byte, d: byte)
    ensures var w := Load(a, b, c, d);
            && w >> 24 == a as bv8 as bv32 && (w >> 16) & 0xff == b as bv8 as bv32
            && (w >> 8) & 0xff == c as bv8 as bv32 && w & 0xff == d as bv8 as bv32
  {
  }

  // ----- the constants of section 4.2.2 -----

  /** The first sixty-four primes. */
  const P0: seq<nat> := [2, 3, 5, 7, 11, 13, 17, 19]
  const P1: seq<nat> := [23, 29, 31, 37, 41, 43, 47, 53]
  const P2: seq<nat> := [59, 61, 67, 71, 73, 79, 83, 89]
  const P3: seq<nat> := [97, 101, 103, 107, 109, 113, 127, 131]
  const P4: seq<nat> := [137, 139, 149, 151, 157, 163, 167, 173]
  const P5: seq<nat> := [179, 181, 191, 193, 197, 199, 211, 223]
  const P6: seq<nat> := [227, 229, 233, 239, 241, 251, 257, 263]
  const P7: seq<nat> := [269, 271, 277, 281, 283, 293, 307, 311]
  const P: seq<nat> := P0 + P1 + P2 + P3 + (P4 + P5 + P6 + P7)

  /** `v` is the largest number whose cube is at most `n`. */
  predicate IsCubeRoot(v: nat, n: nat)
  {
    v * v * v <= n < (v + 1) * (v + 1) * (v + 1)
  }

  /** `w` is the first 32 bits of the fractional part of the cube root of `p`. */
  ghost predicate CubeFraction(w: word, p: nat)
  {
    exists r: nat :: IsCubeRoot(r, p) && IsCubeRoot(0x1_0000_0000 * r + w, 0x1_0000_0000_0000_0000_0000_0000 * p)
  }

  lemma HasCubeRoot(r: nat, w: word, p: nat)
    requires IsCubeRoot(r, p) && IsCubeRoot(0x1_0000_0000 * r + w, 0x1_0000_0000_0000_0000_0000_0000 * p)
    ensures CubeFraction(w, p)
  {
  }

  ghost predicate Roots(row: seq<word>, primes: seq<nat>)
  {
    |row| == |primes| && forall i :: 0 <= i < |row| ==> CubeFraction(row[i], primes[i])
  }

  lemma Row0()
    ensures |K0| == 8 && Roots(K0, P0)
  {
    hide CubeFraction;
    HasCubeRoot(1, 0x428a2f98, 2);
    HasCubeRoot(1, 0x71374491, 3);
    HasCubeRoot(1, 0xb5c0fbcf, 5);
    HasCubeRoot(1, 0xe9b5dba5, 7);
    HasCubeRoot(2, 0x3956c25b, 11);
    HasCubeRoot(2, 0x59f111f1, 13);
    HasCubeRoot(2, 0x923f82a4, 17);
    HasCubeRoot(2, 0xab1c5ed5, 19);
  }

  lemma Row1()
    ensures |K1| == 8 && Roots(K1, P1)
  {
    hide CubeFraction;
    HasCubeRoot(2, 0xd807aa98, 23);
    HasCubeRoot(3, 0x12835b01, 29);
    HasCubeRoot(3, 0x243185be, 31);
    HasCubeRoot(3, 0x550c7dc3, 37);
    HasCubeRoot(3, 0x72be5d74, 41);
    HasCubeRoot(3, 0x80deb1fe, 43);
    HasCubeRoot(3, 0x9bdc06a7, 47);
    HasCubeRoot(3, 0xc19bf174, 53);
  }

  lemma Row2()
    ensures |K2| == 8 && Roots(K2, P2)
  {
    hide CubeFraction;
    HasCubeRoot(3, 0xe49b69c1, 59);
    HasCubeRoot(3, 0xefbe4786, 61);
    HasCubeRoot(4, 0x0fc19dc6, 67);
    HasCubeRoot(4, 0x240ca1cc, 71);
    HasCubeRoot(4, 0x2de92c6f, 73);
    HasCubeRoot(4, 0x4a7484aa, 79);
    HasCubeRoot(4, 0x5cb0a9dc, 83);
    HasCubeRoot(4, 0x76f988da, 89);
  }

  lemma Row3()
    ensures |K3| == 8 && Roots(K3, P3)
  {
    hide CubeFraction;
    HasCubeRoot(4, 0x983e5152, 97);
    HasCubeRoot(4, 0xa831c66d, 101);
    HasCubeRoot(4, 0xb00327c8, 103);
    HasCubeRoot(4, 0xbf597fc7, 107);
    HasCubeRoot(4, 0xc6e00bf3, 109);
    HasCubeRoot(4, 0xd5a79147, 113);
    HasCubeRoot(5, 0x06ca6351, 127);
    HasCubeRoot(5, 0x14292967, 131);
  }

  lemma Row4()
    ensures |K4| == 8 && Roots(K4, P4)
  {
    hide CubeFraction;
    HasCubeRoot(5, 0x27b70a85, 137);
    HasCubeRoot(5, 0x2e1b2138, 139);
    HasCubeRoot(5, 0x4d2c6dfc, 149);
    HasCubeRoot(5, 0x53380d13, 151);
    HasCubeRoot(5, 0x650a7354, 157);
    HasCubeRoot(5, 0x766a0abb, 163);
    HasCubeRoot(5, 0x81c2c92e, 167);
    HasCubeRoot(5, 0x92722c85, 173);
  }

  lemma Row5()
    ensures |K5| == 8 && Roots(K5, P5)
  {
    hide CubeFraction;
    HasCubeRoot(5, 0xa2bfe8a1, 179);
    HasCubeRoot(5, 0xa81a664b, 181);
    HasCubeRoot(5, 0xc24b8b70, 191);
    HasCubeRoot(5, 0xc76c51a3, 193);
    HasCubeRoot(5, 0xd192e819, 197);
    HasCubeRoot(5, 0xd6990624, 199);
    HasCubeRoot(5, 0xf40e3585, 211);
    HasCubeRoot(6, 0x106aa070, 223);
  }

  lemma Row6()
    ensures |K6| == 8 && Roots(K6, P6)
  {
    hide CubeFraction;
    HasCubeRoot(6, 0x19a4c116, 227);
    HasCubeRoot(6, 0x1e376c08, 229);
    HasCubeRoot(6, 0x2748774c, 233);
    HasCubeRoot(6, 0x34b0bcb5, 239);
    HasCubeRoot(6, 0x391c0cb3, 241);
    HasCubeRoot(6, 0x4ed8aa4a, 251);
    HasCubeRoot(6, 0x5b9cca4f, 257);
    HasCubeRoot(6, 0x682e6ff3, 263);
  }

  lemma Row7()
    ensures |K7| == 8 && Roots(K7, P7)
  {
    hide CubeFraction;
    HasCubeRoot(6, 0x748f82ee, 269);
    HasCubeRoot(6, 0x78a5636f, 271);
    HasCubeRoot(6, 0x84c87814, 277);
    HasCubeRoot(6, 0x8cc70208, 281);
    HasCubeRoot(6, 0x90befffa, 283);
    HasCubeRoot(6, 0xa4506ceb, 293);
    HasCubeRoot(6, 0xbef9a3f7, 307);
    HasCubeRoot(6, 0xc67178f2, 311);
  }

  lemma RootsJoin(k: seq<word>, l: seq<word>, p: seq<nat>, q: seq<nat>)
    requires Roots(k, p) && Roots(l, q)
    ensures Roots(k + l, p + q)
  {
    hide CubeFraction;
  }

  lemma TableRows()
    ensures K == K0 + K1 + K2 + K3 + (K4 + K5 + K6 + K7) && P == P0 + P1 + P2 + P3 + (P4 + P5 + P6 + P7)
  {
    hide K0, K1, K2, K3, K4, K5, K6, K7, P0, P1, P2, P3, P4, P5, P6, P7;
  }

  /** The table of the runtime is that of the standard. */
  lemma ConstantsAreCubeRoots()
    ensures |K| == 64 && Roots(K, P)
  {
    hide *;
    TableRows();
    Row0();
    Row1();
    Row2();
    Row3();
    Row4();
    Row5();
    Row6();
    Row7();
    RootsJoin(K0, K1, P0, P1);
    RootsJoin(K0 + K1, K2, P0 + P1, P2);
    RootsJoin(K0 + K1 + K2, K3, P0 + P1 + P2, P3);
    RootsJoin(K4, K5, P4, P5);
    RootsJoin(K4 + K5, K6, P4 + P5, P6);
    RootsJoin(K4 + K5 + K6, K7, P4 + P5 + P6, P7);
    RootsJoin(K0 + K1 + K2 + K3, K4 + K5 + K6 + K7, P0 + P1 + P2 + P3, P4 + P5 + P6 + P7);
  }

  // ----- rounds can be undone -----

  function Unround(v: Working, k: bv32, w: bv32): Working
  {
    var t1 := Minus(v.a, Plus(BigSigma0(v.b), Majority(v.b, v.c, v.d)));
    Working(v.b, v.c, v.d, Minus(v.e, t1), v.f, v.g, v.h,
            Minus(Minus(Minus(Minus(t1, w), k), Choose(v.f, v.g, v.h)), BigSigma1(v.f)))
  }

  lemma Cancels(x: bv32, y: bv32)
    ensures x + y - y == x && x - y + y == x
  {
  }

  lemma Back(x: bv32, y: bv32)
    ensures Minus(Plus(x, y), y) == x && Plus(Minus(x, y), y) == x
  {
    assert Minus(Plus(x, y), y) == x by {
      calc {
        Minus(Plus(x, y), y);
        Minus(x + y, y);
        x + y - y;
        { Cancels(x, y); }
        x;
      }
    }
    assert Plus(Minus(x, y), y) == x by {
      calc {
        Plus(Minus(x, y), y);
        Plus(x - y, y);
        x - y + y;
        { Cancels(x, y); }
        x;
      }
    }
  }

  lemma RoundUndone(v: Working, k: bv32, w: bv32)
    ensures Unround(Round(v, k, w), k, w) == v
  {
    hide BigSigma0, BigSigma1, Choose, Majority, Plus, Minus;
    var x1 := Plus(v.h, BigSigma1(v.e));
    var x2 := Plus(x1, Choose(v.e, v.f, v.g));
    var x3 := Plus(x2, k);
    var t1, t2 := Plus(x3, w), Plus(BigSigma0(v.a), Majority(v.a, v.b, v.c));
    Back(t1, t2);
    Back(v.d, t1);
    Back(x3, w);
    Back(x2, k);
    Back(x1, Choose(v.e, v.f, v.g));
    Back(v.h, BigSigma1(v.e));
  }

  lemma UnroundUndone(v: Working, k: bv32, w: bv32)
    ensures Round(Unround(v, k, w), k, w) == v
  {
    hide BigSigma0, BigSigma1, Choose, Majority, Plus, Minus;
    var t2 := Plus(BigSigma0(v.b), Majority(v.b, v.c, v.d));
    var t1 := Minus(v.a, t2);
    var x3 := Minus(t1, w);
    var x2 := Minus(x3, k);
    var x1 := Minus(x2, Choose(v.f, v.g, v.h));
    Back(v.a, t2);
    Back(v.e, t1);
    Back(t1, w);
    Back(x3, k);
    Back(x2, Choose(v.f, v.g, v.h));
    Back(x1, BigSigma1(v.f));
  }

  lemma LastRound(v: Working, m: seq<bv32>, t: nat, k: bv32)
    requires |m| == 16 && 0 < t <= 64 && k == OfWord(K[t - 1])
    ensures Unround(Rounds(v, m, t), k, Schedule(m, t - 1)) == Rounds(v, m, t - 1)
  {
    hide Round, Schedule, OfWord, K, Unround;
    RoundUndone(Rounds(v, m, t - 1), k, Schedule(m, t - 1));
  }

  /** For every block the 64 rounds are a permutation of the working words. */
  lemma {:induction false} RoundsInjective(v: Working, w: Working, m: seq<bv32>, t: nat)
    requires |m| == 16 && t <= 64 && Rounds(v, m, t) == Rounds(w, m, t)
    ensures v == w
    decreases t
  {
    if t > 0 {
      var k := OfWord(K[t - 1]);
      hide *;
      LastRound(v, m, t, k);
      LastRound(w, m, t, k);
      RoundsInjective(v, w, m, t - 1);
    } else {
      hide Round, Schedule, OfWord, K;
    }
  }

  // ----- the loops -----

  /** The first loop: sixteen words from the block. */
  method LoadBlock(block: Block, w: array<bv32>)
    requires w.Length == 64
    modifies w
    ensures w[..16] == Parsed(block)
  {
    hide Load;
    for i := 0 to 16
      invariant forall k :: 0 <= k < i ==> w[k] == Parsed(block)[k]
    {
      w[i] := Load(block[4 * i], block[4 * i + 1], block[4 * i + 2], block[4 * i + 3]);
    }
  }

  lemma Rearranged(a: bv32, b: bv32, c: bv32, d: bv32)
    ensures a + b + c + d == d + c + b + a
  {
  }

  lemma SumRearranged(a: bv32, b: bv32, c: bv32, d: bv32)
    ensures Plus(Plus(Plus(a, b), c), d) == Plus(Plus(Plus(d, c), b), a)
  {
    calc {
      Plus(Plus(Plus(a, b), c), d);
      Plus(Plus(a + b, c), d);
      Plus(a + b + c, d);
      a + b + c + d;
      { Rearranged(a, b, c, d); }
      d + c + b + a;
      Plus(d + c + b, a);
      Plus(Plus(d + c, b), a);
      Plus(Plus(Plus(d, c), b), a);
    }
  }

  lemma ScheduleNext(m: seq<bv32>, t: nat, s0: bv32, s1: bv32)
    requires |m| == 16 && t >= 16
    requires s0 == RotatedSmall0(Schedule(m, t - 15)) && s1 == RotatedSmall1(Schedule(m, t - 2))
    ensures Plus(Plus(Plus(Schedule(m, t - 16), s0), Schedule(m, t - 7)), s1) == Schedule(m, t)
  {
    hide Plus, SmallSigma0, SmallSigma1, RotatedSmall0, RotatedSmall1;
    SigmasAgree(Schedule(m, t - 15));
    SigmasAgree(Schedule(m, t - 2));
    SumRearranged(Schedule(m, t - 16), s0, Schedule(m, t - 7), s1);
  }

  /** The second loop: the message schedule in place. */
  method ExtendSchedule(w: array<bv32>, ghost m: seq<bv32>)
    requires w.Length == 64 && |m| == 16 && w[..16] == m
    modifies w
    ensures forall k :: 0 <= k < 64 ==> w[k] == Schedule(m, k)
  {
    assert forall k :: 0 <= k < 16 ==> w[k] == w[..16][k] == Schedule(m, k);
    hide Plus, RotatedSmall0, RotatedSmall1, Schedule;
    for i := 16 to 64
      invariant forall k :: 0 <= k < i ==> w[k] == Schedule(m, k)
    {
      var s0, s1 := RotatedSmall0(w[i - 15]), RotatedSmall1(w[i - 2]);
      ScheduleNext(m, i, s0, s1);
      w[i] := Plus(Plus(Plus(w[i - 16], s0), w[i - 7]), s1);
    }
  }

  lemma RoundNext(v: Working, m: seq<bv32>, t: nat, s1: bv32, s0: bv32, t1: bv32)
    requires |m| == 16 && t < 64 && |K| == 64
    requires s1 == RotatedBig1(Rounds(v, m, t).e) && s0 == RotatedBig0(Rounds(v, m, t).a)
    requires var u := Rounds(v, m, t);
             t1 == Plus(Plus(Plus(Plus(u.h, s1), Choose(u.e, u.f, u.g)), OfWord(K[t])), Schedule(m, t))
    ensures var u := Rounds(v, m, t);
            Rounds(v, m, t + 1) == Working(Plus(t1, Plus(s0, Majority(u.a, u.b, u.c))), u.a, u.b, u.c, Plus(u.d, t1), u.e, u.f, u.g)
  {
    hide Plus, BigSigma0, BigSigma1, RotatedBig0, RotatedBig1, Choose, Majority, OfWord, Schedule, K;
    SigmasAgree(Rounds(v, m, t).e);
    SigmasAgree(Rounds(v, m, t).a);
  }

  /** The third loop: eight words turned through 64 rounds. */
  method RunRounds(v: Working, w: array<bv32>, ghost m: seq<bv32>) returns (r: Working)
    requires w.Length == 64 && |m| == 16 && forall k :: 0 <= k < 64 ==> w[k] == Schedule(m, k)
    ensures r == Rounds(v, m, 64)
  {
    assert Rounds(v, m, 0) == v;
    TableSize();
    hide Plus, RotatedBig0, RotatedBig1, Choose, Majority, OfWord, Schedule, K, Rounds;
    var a, b, c, d, e, f, g, h := v.a, v.b, v.c, v.d, v.e, v.f, v.g, v.h;
    for i := 0 to 64
      invariant Working(a, b, c, d, e, f, g, h) == Rounds(v, m, i)
    {
      var s1 := RotatedBig1(e);
      var ch := Choose(e, f, g);
      var temp1 := Plus(Plus(Plus(Plus(h, s1), ch), OfWord(K[i])), w[i]);
      var s0 := RotatedBig0(a);
      var maj := Majority(a, b, c);
      var temp2 := Plus(s0, maj);
      RoundNext(v, m, i, s1, s0, temp1);
      h := g;
      g := f;
      f := e;
      e := Plus(d, temp1);
      d := c;
      c := b;
      b := a;
      a := Plus(temp1, temp2);
    }
    r := Working(a, b, c, d, e, f, g, h);
  }

  lemma TableSize()
    ensures |K| == 64
  {
  }

  function Sum(x: word, y: bv32): word
  {
    ToWord(Plus(OfWord(x), y))
  }

  /** `s` is `h` with the words of `r` added. */
  predicate Sums(h: State, r: Working, s: State)
  {
    && s[0] == Sum(h[0], r.a) && s[1] == Sum(h[1], r.b) && s[2] == Sum(h[2], r.c) && s[3] == Sum(h[3], r.d)
    && s[4] == Sum(h[4], r.e) && s[5] == Sum(h[5], r.f) && s[6] == Sum(h[6], r.g) && s[7] == Sum(h[7], r.h)
  }

  lemma SumsAre(h: State, r: Working, s: State)
    requires Sums(h, r, s)
    ensures s == ToState(Added(FromState(h), r))
  {
    hide ToWord, OfWord, Plus;
    assert s == [s[0], s[1], s[2], s[3], s[4], s[5], s[6], s[7]];
  }

  /** The eight additions at the end. */
  method AddInto(state: array<word>, r: Working)
    requires state.Length == 8
    modifies state
    ensures Sums(old(state[..]), r, state[..])
  {
    hide Sum;
    state[0] := Sum(state[0], r.a);
    state[1] := Sum(state[1], r.b);
    state[2] := Sum(state[2], r.c);
    state[3] := Sum(state[3], r.d);
    state[4] := Sum(state[4], r.e);
    state[5] := Sum(state[5], r.f);
    state[6] := Sum(state[6], r.g);
    state[7] := Sum(state[7], r.h);
  }

  /** `sengoo_internal_sha256_transform`. */
  method TransformBlock(state: array<word>, block: Block)
    requires state.Length == 8
    modifies state
    ensures state[..] == Compress(old(state[..]), block)
  {
    hide Parsed, Rounds, Schedule, ToState, FromState, Added, Sums;
    var w := new bv32[64];
    LoadBlock(block, w);
    ExtendSchedule(w, Parsed(block));
    var r := RunRounds(FromState(state[..]), w, Parsed(block));
    AddInto(state, r);
    SumsAre(old(state[..]), r, state[..]);
  }
}
