/**
  The text of a size line: the UTF-8 encoding of section 3 of RFC 3629, which the decoder's
  reading of bytes is proved to invert, the white space it trims, and hexadecimal numbers.
 */
module ChunkedText {
  import opened Options
  import opened Words
  import opened Chunked

  // ----- characters as bytes -----

  /** A Unicode scalar value: any code point but the surrogates. */
  predicate Scalar(c: int)
  {
    0 <= c < 0xd800 || 0xe000 <= c < 0x11_0000
  }

  function EncodeChar(c: int): (s: seq<byte>)
    requires Scalar(c)
    ensures s != []
  {
    if c < 0x80 then [c]
    else if c < 0x800 then [0xc0 + c / 64, 0x80 + c % 64]
    else if c < 0x1_0000 then [0xe0 + c / 4096, 0x80 + c / 64 % 64, 0x80 + c % 64]
    else [0xf0 + c / 262144, 0x80 + c / 4096 % 64, 0x80 + c / 64 % 64, 0x80 + c % 64]
  }

  ghost predicate Text(t: seq<int>)
  {
    forall k :: 0 <= k < |t| ==> Scalar(t[k])
  }

  ghost function EncodeText(t: seq<int>): seq<byte>
    requires Text(t)
  {
    if t == [] then [] else EncodeChar(t[0]) + EncodeText(t[1..])
  }

  // ----- one character -----

  lemma ReadsTwo(c: int, rest: seq<byte>)
    requires 0x80 <= c < 0x800
    ensures Scalar(c) && Width(EncodeChar(c) + rest) == 2 && CodePoint(EncodeChar(c) + rest) == c
  {
  }

  lemma ReadsThree(c: int, rest: seq<byte>)
    requires 0x800 <= c < 0x1_0000 && Scalar(c)
    ensures Width(EncodeChar(c) + rest) == 3 && CodePoint(EncodeChar(c) + rest) == c
  {
    var x, y, z := c / 4096, c / 64 % 64, c % 64;
    Base64Digits(c);
    assert c == (x * 64 + y) * 64 + z;
    var b := EncodeChar(c) + rest;
    assert b[0] == 0xe0 + x && b[1] == 0x80 + y && b[2] == 0x80 + z;
  }

  lemma ReadsFour(c: int, rest: seq<byte>)
    requires 0x1_0000 <= c < 0x11_0000
    ensures Scalar(c) && Width(EncodeChar(c) + rest) == 4 && CodePoint(EncodeChar(c) + rest) == c
  {
    var w, x, y, z := c / 262144, c / 4096 % 64, c / 64 % 64, c % 64;
    Base64Digits(c);
    assert c == ((w * 64 + x) * 64 + y) * 64 + z;
    var b := EncodeChar(c) + rest;
    assert b[0] == 0xf0 + w && b[1] == 0x80 + x && b[2] == 0x80 + y && b[3] == 0x80 + z;
  }

  lemma Base64Digits(c: nat)
    ensures c / 4096 == c / 64 / 64 && c / 262144 == c / 64 / 64 / 64
    ensures c == c / 64 * 64 + c % 64
    ensures c / 64 == c / 4096 * 64 + c / 64 % 64
    ensures c / 4096 == c / 262144 * 64 + c / 4096 % 64
  {
  }

  /** Reading undoes encoding. */
  lemma ReadsChar(c: int, rest: seq<byte>)
    requires Scalar(c)
    ensures Width(EncodeChar(c) + rest) == |EncodeChar(c)| && CodePoint(EncodeChar(c) + rest) == c
    ensures (EncodeChar(c) + rest)[|EncodeChar(c)|..] == rest
  {
    if 0x80 <= c {
      hide Width, CodePoint;
      if c < 0x800 {
        ReadsTwo(c, rest);
      } else if c < 0x1_0000 {
        ReadsThree(c, rest);
      } else {
        ReadsFour(c, rest);
      }
    }
  }

  lemma SplitTwo(x: nat, y: nat)
    requires y < 64
    ensures (x * 64 + y) / 64 == x && (x * 64 + y) % 64 == y
  {
  }

  lemma SplitThree(x: nat, y: nat, z: nat)
    requires y < 64 && z < 64
    ensures var c := (x * 64 + y) * 64 + z; c / 4096 == x && c / 64 % 64 == y && c % 64 == z
  {
    var d := x * 64 + y;
    SplitTwo(d, z);
    SplitTwo(x, y);
    Base64Digits(d * 64 + z);
  }

  lemma SplitFour(w: nat, x: nat, y: nat, z: nat)
    requires x < 64 && y < 64 && z < 64
    ensures var c := ((w * 64 + x) * 64 + y) * 64 + z;
            c / 262144 == w && c / 4096 % 64 == x && c / 64 % 64 == y && c % 64 == z
  {
    var d := w * 64 + x;
    SplitThree(d, y, z);
    SplitTwo(w, x);
    Base64Digits((d * 64 + y) * 64 + z);
  }

  lemma TwoRead(b: seq<byte>)
    requires b != [] && Width(b) == 2
    ensures Scalar(CodePoint(b)) && EncodeChar(CodePoint(b)) == b[..2]
  {
    var x: nat, y: nat := b[0] - 0xc0, b[1] - 0x80;
    SplitTwo(x, y);
    assert CodePoint(b) == x * 64 + y;
  }

  lemma ThreeRead(b: seq<byte>)
    requires b != [] && Width(b) == 3
    ensures Scalar(CodePoint(b)) && EncodeChar(CodePoint(b)) == b[..3]
  {
    var x: nat, y: nat, z: nat := b[0] - 0xe0, b[1] - 0x80, b[2] - 0x80;
    var c := CodePoint(b);
    assert 0 <= x < 16 && 0 <= y < 64 && 0 <= z < 64 && c == (x * 64 + y) * 64 + z;
    assert (x == 0 ==> y >= 32) && (x == 13 ==> y < 32);
    SplitThree(x, y, z);
    hide Width, CodePoint;
    assert 0x800 <= c < 0xd800 || 0xe000 <= c < 0x1_0000;
  }

  lemma FourRead(b: seq<byte>)
    requires b != [] && Width(b) == 4
    ensures Scalar(CodePoint(b)) && EncodeChar(CodePoint(b)) == b[..4]
  {
    var w: nat, x: nat, y: nat, z: nat := b[0] - 0xf0, b[1] - 0x80, b[2] - 0x80, b[3] - 0x80;
    var c := CodePoint(b);
    assert 0 <= w < 5 && 0 <= x < 64 && 0 <= y < 64 && 0 <= z < 64 && c == ((w * 64 + x) * 64 + y) * 64 + z;
    assert (w == 0 ==> x >= 16) && (w == 4 ==> x < 16);
    SplitFour(w, x, y, z);
    hide Width, CodePoint;
    assert 0x1_0000 <= c < 0x11_0000;
  }

  /** Encoding undoes reading: every well-formed sequence is the encoding of the character read. */
  lemma CharRead(b: seq<byte>)
    requires b != [] && Width(b) > 0
    ensures Scalar(CodePoint(b)) && EncodeChar(CodePoint(b)) == b[..Width(b)]
  {
    if Width(b) == 1 {
      assert b[..1] == [b[0]];
    } else {
      assert Width(b) == 2 || Width(b) == 3 || Width(b) == 4;
      hide *;
      if Width(b) == 2 {
        TwoRead(b);
      } else if Width(b) == 3 {
        ThreeRead(b);
      } else {
        FourRead(b);
      }
    }
  }

  // ----- whole texts -----

  lemma {:induction false} ReadsText(t: seq<int>)
    requires Text(t)
    ensures Utf8(EncodeText(t)) == Some(t)
    decreases |t|
  {
    if t != [] {
      hide EncodeChar, Width, CodePoint;
      ReadsChar(t[0], EncodeText(t[1..]));
      ReadsText(t[1..]);
      assert t == [t[0]] + t[1..];
    }
  }

  lemma {:induction false} TextRead(b: seq<byte>)
    requires Utf8(b).Some?
    ensures Text(Utf8(b).value) && EncodeText(Utf8(b).value) == b
    decreases |b|
  {
    if b != [] {
      hide EncodeChar, Width, CodePoint;
      CharRead(b);
      TextRead(b[Width(b)..]);
      var t := Utf8(b).value;
      assert t[1..] == Utf8(b[Width(b)..]).value;
      assert b == b[..Width(b)] + b[Width(b)..];
    }
  }

  /** The decoder reads exactly the texts, each from its one encoding. */
  lemma Utf8Iff(b: seq<byte>, t: seq<int>)
    ensures Utf8(b) == Some(t) <==> Text(t) && EncodeText(t) == b
  {
    hide Utf8, EncodeText;
    if Utf8(b) == Some(t) {
      TextRead(b);
    }
    if Text(t) && EncodeText(t) == b {
      ReadsText(t);
    }
  }

  lemma EncodeFirst(s: seq<int>, t: seq<int>)
    requires s != [] && Text(s) && Text(t)
    ensures Text(s[1..]) && Text(s + t) && Text(s[1..] + t)
    ensures EncodeText(s) == EncodeChar(s[0]) + EncodeText(s[1..])
    ensures EncodeText(s + t) == EncodeChar(s[0]) + EncodeText(s[1..] + t)
  {
    hide EncodeChar, Scalar;
    assert (s + t)[0] == s[0] && (s + t)[1..] == s[1..] + t;
  }

  lemma EncodeNothing(t: seq<int>)
    requires Text(t)
    ensures EncodeText([]) == [] && [] + t == t
  {
  }

  lemma {:induction false} EncodeConcat(s: seq<int>, t: seq<int>)
    requires Text(s) && Text(t)
    ensures Text(s + t) && EncodeText(s + t) == EncodeText(s) + EncodeText(t)
    decreases |s|
  {
    hide EncodeChar, EncodeText, Scalar;
    if s == [] {
      EncodeNothing(t);
    } else {
      EncodeFirst(s, t);
      EncodeConcat(s[1..], t);
    }
  }

  function Codes(s: seq<byte>): (t: seq<int>)
    ensures |t| == |s| && forall k :: 0 <= k < |s| ==> t[k] == s[k]
  {
    seq(|s|, k requires 0 <= k < |s| => s[k] as int)
  }

  lemma {:induction false} EncodeAscii(s: seq<byte>)
    requires forall k :: 0 <= k < |s| ==> s[k] < 0x80
    ensures Text(Codes(s)) && EncodeText(Codes(s)) == s
    decreases |s|
  {
    if s != [] {
      EncodeAscii(s[1..]);
      assert Codes(s)[1..] == Codes(s[1..]);
    }
  }

  // ----- white space and hexadecimal -----

  /** The code points with the White_Space property of the Unicode Character Database. */
  const WHITE_SPACE: set<int> :=
    {0x9, 0xa, 0xb, 0xc, 0xd, 0x20, 0x85, 0xa0, 0x1680, 0x2000, 0x2001, 0x2002, 0x2003, 0x2004, 0x2005, 0x2006,
     0x2007, 0x2008, 0x2009, 0x200a, 0x2028, 0x2029, 0x202f, 0x205f, 0x3000}

  lemma SpaceIff(c: int)
    ensures IsSpace(c) <==> c in WHITE_SPACE
  {
  }

  predicate Decimal(c: int) { '0' as int <= c <= '9' as int }
  predicate Upper(c: int) { 'A' as int <= c <= 'F' as int }
  predicate LowerCase(c: int) { 'a' as int <= c <= 'f' as int }

  predicate Hexadecimal(t: seq<int>)
  {
    t != [] && forall k :: 0 <= k < |t| ==> Decimal(t[k]) || Upper(t[k]) || LowerCase(t[k])
  }

  /** The value of hexadecimal digits of either case, most significant first. */
  function NumberOf(t: seq<int>): int
  {
    if t == [] then 0 else
      var c := t[|t| - 1];
      16 * NumberOf(t[..|t| - 1])
      + if c < 'A' as int then c - '0' as int else if c < 'a' as int then 10 + c - 'A' as int else 10 + c - 'a' as int
  }

  lemma {:induction false} DigitsIff(t: seq<int>, n: nat)
    requires t != []
    ensures Digits(t) == Some(n) <==> Hexadecimal(t) && NumberOf(t) == n
    decreases |t|
  {
    var k := |t| - 1;
    if k == 0 {
      assert t[..0] == [];
    } else {
      if Digits(t[..k]).Some? {
        DigitsIff(t[..k], Digits(t[..k]).value);
      }
      if Hexadecimal(t) {
        assert Hexadecimal(t[..k]);
        NumberNatural(t[..k]);
        DigitsIff(t[..k], NumberOf(t[..k]));
      }
    }
  }

  lemma {:induction false} NumberNatural(t: seq<int>)
    requires Hexadecimal(t)
    ensures NumberOf(t) >= 0
    decreases |t|
  {
    if |t| > 1 {
      NumberNatural(t[..|t| - 1]);
    }
  }
}
