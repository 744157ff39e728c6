/**
  The base64 encoder against a strict decoder of the alphabet and padding of section 4 of
  RFC 4648, which accepts only zero padding bits (section 3.5).
 */
module Base64 {
  import opened Options
  import opened Words

  const TABLE: string := "ABCDEFGHIJKLMNOP" + "QRSTUVWXYZabcdef" + "ghijklmnopqrstuv" + "wxyz0123456789+/"

  type sextet = x: int | 0 <= x < 64

  // ----- encoding -----

  /** `(triple >> (6 * (3 - k))) & 0x3f`. */
  function Sextet(triple: nat, k: nat): sextet
    requires k < 4
  {
    (match k case 0 => triple / 0x4_0000 case 1 => triple / 0x1000 case 2 => triple / 64 case _ => triple) % 64
  }

  function Symbol(v: sextet): char
  {
    TABLE[v]
  }

  function Triple(a: byte, b: byte, c: byte): nat
  {
    a * 0x1_0000 + b * 0x100 + c
  }

  function Group(data: seq<byte>): (s: string)
    requires 0 < |data|
    ensures |s| == 4
  {
    var b := if |data| > 1 then data[1] else 0;
    var c := if |data| > 2 then data[2] else 0;
    var triple := Triple(data[0], b, c);
    [Symbol(Sextet(triple, 0)), Symbol(Sextet(triple, 1)),
     if |data| > 1 then Symbol(Sextet(triple, 2)) else '=',
     if |data| > 2 then Symbol(Sextet(triple, 3)) else '=']
  }

  function Rest(data: seq<byte>): (r: seq<byte>)
    ensures |r| == if |data| > 3 then |data| - 3 else 0
  {
    if |data| > 3 then data[3..] else []
  }

  function Encode(data: seq<byte>): string
    decreases |data|
  {
    if data == [] then "" else Group(data) + Encode(Rest(data))
  }

  lemma {:induction false} EncodedLength(data: seq<byte>)
    ensures |Encode(data)| == (|data| + 2) / 3 * 4
    decreases |data|
  {
    hide Group;
    if data != [] {
      EncodedLength(Rest(data));
    }
  }

  function Left(data: seq<byte>, i: nat): seq<byte>
  {
    if i < |data| then data[i..] else []
  }

  /** One turn of the encoding loop. */
  method PutGroup(scratch: array<char>, j: nat, data: seq<byte>, i: nat)
    requires i < |data| && j + 4 <= scratch.Length
    modifies scratch
    ensures scratch[..j + 4] == old(scratch[..j]) + Group(data[i..])
  {
    hide Symbol, Sextet;
    var triple: nat := data[i] as int * 0x1_0000;
    if i + 1 < |data| {
      triple := triple + data[i + 1] as int * 0x100;
    }
    if i + 2 < |data| {
      triple := triple + data[i + 2];
    }
    scratch[j] := Symbol(Sextet(triple, 0));
    scratch[j + 1] := Symbol(Sextet(triple, 1));
    scratch[j + 2] := if i + 1 < |data| then Symbol(Sextet(triple, 2)) else '=';
    scratch[j + 3] := if i + 2 < |data| then Symbol(Sextet(triple, 3)) else '=';
  }

  method Base64Encode(data: seq<byte>) returns (text: string)
    ensures text == Encode(data)
  {
    hide Group, Encode, Left;
    LeftEnds(data);
    var scratch := new char[(|data| + 2) / 3 * 4 + 1](i => '0');
    var i: nat, j: nat := 0, 0;
    assert scratch[..0] == [];
    EncodedLength(data);
    while i < |data|
      invariant j + |Encode(Left(data, i))| < scratch.Length
      invariant scratch[..j] + Encode(Left(data, i)) == Encode(data)
      invariant i >= |data| ==> Encode(Left(data, i)) == []
    {
      ghost var done := scratch[..j];
      LeftNext(data, i);
      PutGroup(scratch, j, data, i);
      assert done + (Group(data[i..]) + Encode(Left(data, i + 3))) == done + Group(data[i..]) + Encode(Left(data, i + 3));
      i, j := i + 3, j + 4;
    }
    text := scratch[..j];
  }

  lemma LeftEnds(data: seq<byte>)
    ensures Left(data, 0) == data
    ensures forall i: nat :: i >= |data| ==> Encode(Left(data, i)) == []
  {
  }

  lemma LeftNext(data: seq<byte>, i: nat)
    requires i < |data|
    ensures Encode(Left(data, i)) == Group(data[i..]) + Encode(Left(data, i + 3))
  {
    hide Group;
    assert Rest(data[i..]) == Left(data, i + 3);
  }

  // ----- decoding -----

  /** The value of a symbol, by the ranges of the standard's alphabet. */
  function Value(c: char): Option<sextet>
  {
    if 'A' <= c <= 'Z' then Some(c as int - 'A' as int)
    else if 'a' <= c <= 'z' then Some(c as int - 'a' as int + 26)
    else if '0' <= c <= '9' then Some(c as int - '0' as int + 52)
    else if c == '+' then Some(62)
    else if c == '/' then Some(63)
    else None
  }

  function Bytes(v: sextet, w: sextet, x: sextet, y: sextet): (s: seq<byte>)
    ensures |s| == 3
  {
    var triple := v * 0x4_0000 + w * 0x1000 + x * 64 + y;
    [triple / 0x1_0000, triple / 0x100 % 256, triple % 256]
  }

  /** The one to three bytes of four symbols; padding is allowed in the last group only. */
  function GroupBytes(s: string, last: bool): (r: Option<seq<byte>>)
    requires |s| == 4
  {
    var v, w, x, y := Value(s[0]), Value(s[1]), Value(s[2]), Value(s[3]);
    if v.None? || w.None? then None
    else if last && s[2] == '=' && s[3] == '=' then
      if w.value % 16 == 0 then Some(Bytes(v.value, w.value, 0, 0)[..1]) else None
    else if x.None? then None
    else if last && s[3] == '=' then
      if x.value % 4 == 0 then Some(Bytes(v.value, w.value, x.value, 0)[..2]) else None
    else if y.None? then None
    else Some(Bytes(v.value, w.value, x.value, y.value))
  }

  function Decode(s: string): Option<seq<byte>>
  {
    if s == [] then Some([])
    else if |s| < 4 then None
    else
      var group := GroupBytes(s[..4], |s| == 4);
      var rest := Decode(s[4..]);
      if group.None? || rest.None? then None else Some(group.value + rest.value)
  }

  // ----- the two agree -----

  lemma LowSymbols(v: sextet)
    requires v < 32
    ensures v < 26 ==> Symbol(v) as int == 'A' as int + v
    ensures v >= 26 ==> Symbol(v) as int == 'a' as int + (v - 26)
  {
  }

  lemma HighSymbols(v: sextet)
    requires v >= 32
    ensures v < 52 ==> Symbol(v) as int == 'a' as int + (v - 26)
    ensures 52 <= v < 62 ==> Symbol(v) as int == '0' as int + (v - 52)
    ensures v == 62 ==> Symbol(v) == '+'
    ensures v == 63 ==> Symbol(v) == '/'
  {
  }

  lemma TableRanges(v: sextet)
    ensures Value(Symbol(v)) == Some(v) && Symbol(v) != '='
  {
    hide Symbol;
    if v < 32 {
      LowSymbols(v);
    } else {
      HighSymbols(v);
    }
  }

  lemma ValueSymbol(c: char)
    requires Value(c).Some?
    ensures Symbol(Value(c).value) == c
  {
    hide Symbol;
    if Value(c).value < 32 {
      LowSymbols(Value(c).value);
    } else {
      HighSymbols(Value(c).value);
    }
  }

  // ----- arithmetic of the groups -----

  lemma By64(t: nat, q: nat, r: nat)
    requires t == 64 * q + r && r < 64
    ensures t / 64 == q && t % 64 == r
  {
  }

  lemma By256(t: nat, q: nat, r: nat)
    requires t == 0x100 * q + r && r < 0x100
    ensures t / 0x100 == q && t % 0x100 == r
  {
  }

  lemma By4096(t: nat, q: nat, r: nat)
    requires t == 0x1000 * q + r && r < 0x1000
    ensures t / 0x1000 == q && t % 0x1000 == r
  {
  }

  lemma By65536(t: nat, q: nat, r: nat)
    requires t == 0x1_0000 * q + r && r < 0x1_0000
    ensures t / 0x1_0000 == q && t % 0x1_0000 == r
  {
  }

  lemma By262144(t: nat, q: nat, r: nat)
    requires t == 0x4_0000 * q + r && r < 0x4_0000
    ensures t / 0x4_0000 == q && t % 0x4_0000 == r
  {
  }

  lemma FirstSextet(a: byte, b: byte, c: byte)
    ensures Triple(a, b, c) / 0x4_0000 == a / 4 && a / 4 % 64 == a / 4
  {
    var high, low := a / 4, a % 4;
    assert a == 4 * high + low;
    By262144(Triple(a, b, c), high, low * 0x1_0000 + b * 0x100 + c);
  }

  lemma SecondSextet(a: byte, b: byte, c: byte)
    ensures Triple(a, b, c) / 0x1000 % 64 == a % 4 * 16 + b / 16
  {
    var a1, a0, b1, b0 := a / 4, a % 4, b / 16, b % 16;
    assert a == 4 * a1 + a0 && b == 16 * b1 + b0;
    By4096(Triple(a, b, c), 16 * a + b1, b0 * 0x100 + c);
    By64(16 * a + b1, a1, a0 * 16 + b1);
  }

  lemma ThirdSextet(a: byte, b: byte, c: byte)
    ensures Triple(a, b, c) / 64 % 64 == b % 16 * 4 + c / 64 && Triple(a, b, c) % 64 == c % 64
  {
    var b1, b0, c1, c0 := b / 16, b % 16, c / 64, c % 64;
    assert b == 16 * b1 + b0 && c == 64 * c1 + c0;
    By64(Triple(a, b, c), a * 0x400 + b * 4 + c1, c0);
    By64(a * 0x400 + b * 4 + c1, a * 16 + b1, b0 * 4 + c1);
  }

  lemma SextetParts(a: byte, b: byte, c: byte)
    ensures Sextet(Triple(a, b, c), 0) == a / 4
    ensures Sextet(Triple(a, b, c), 1) == a % 4 * 16 + b / 16
    ensures Sextet(Triple(a, b, c), 2) == b % 16 * 4 + c / 64
    ensures Sextet(Triple(a, b, c), 3) == c % 64
  {
    hide Triple;
    FirstSextet(a, b, c);
    SecondSextet(a, b, c);
    ThirdSextet(a, b, c);
  }

  lemma Regroup16(high: nat, low: nat)
    requires low < 16
    ensures (high * 16 + low) / 16 == high && (high * 16 + low) % 16 == low
  {
  }

  lemma Regroup4(high: nat, low: nat)
    requires low < 4
    ensures (high * 4 + low) / 4 == high && (high * 4 + low) % 4 == low
  {
  }

  lemma FirstByte(v: sextet, w: sextet, x: sextet, y: sextet)
    ensures (v * 0x4_0000 + w * 0x1000 + x * 64 + y) / 0x1_0000 == v * 4 + w / 16
  {
    var w1, w0 := w / 16, w % 16;
    assert w == 16 * w1 + w0;
    By65536(v * 0x4_0000 + w * 0x1000 + x * 64 + y, v * 4 + w1, w0 * 0x1000 + x * 64 + y);
  }

  lemma OtherBytes(v: sextet, w: sextet, x: sextet, y: sextet)
    ensures (v * 0x4_0000 + w * 0x1000 + x * 64 + y) / 0x100 % 256 == w % 16 * 16 + x / 4
    ensures (v * 0x4_0000 + w * 0x1000 + x * 64 + y) % 256 == x % 4 * 64 + y
  {
    var w1, w0, x1, x0 := w / 16, w % 16, x / 4, x % 4;
    assert w == 16 * w1 + w0 && x == 4 * x1 + x0;
    By256(v * 0x4_0000 + w * 0x1000 + x * 64 + y, v * 0x400 + w * 16 + x1, x0 * 64 + y);
    By256(v * 0x400 + w * 16 + x1, v * 4 + w1, w0 * 16 + x1);
  }

  lemma ByteParts(v: sextet, w: sextet, x: sextet, y: sextet)
    ensures Bytes(v, w, x, y) == [v * 4 + w / 16, w % 16 * 16 + x / 4, x % 4 * 64 + y]
  {
    FirstByte(v, w, x, y);
    OtherBytes(v, w, x, y);
  }

  lemma SextetsOfBytes(a: byte, b: byte, c: byte)
    ensures var t := Triple(a, b, c); Bytes(Sextet(t, 0), Sextet(t, 1), Sextet(t, 2), Sextet(t, 3)) == [a, b, c]
  {
    hide *;
    SextetParts(a, b, c);
    ByteParts(a / 4, a % 4 * 16 + b / 16, b % 16 * 4 + c / 64, c % 64);
    Regroup16(a % 4, b / 16);
    Regroup4(b % 16, c / 64);
  }

  lemma BytesOfSextets(v: sextet, w: sextet, x: sextet, y: sextet)
    ensures var s := Bytes(v, w, x, y);
            var t := Triple(s[0], s[1], s[2]);
            Sextet(t, 0) == v && Sextet(t, 1) == w && Sextet(t, 2) == x && Sextet(t, 3) == y
  {
    hide *;
    ByteParts(v, w, x, y);
    SextetParts(v * 4 + w / 16, w % 16 * 16 + x / 4, x % 4 * 64 + y);
  }

  /** The first group is decoded to its bytes, whether or not another group follows. */
  lemma GroupDecodes(data: seq<byte>)
    requires data != []
    ensures GroupBytes(Group(data), |data| <= 3) == Some(if |data| > 3 then data[..3] else data)
  {
    hide Symbol, Value, Sextet, Bytes, Triple;
    var a := data[0];
    var b := if |data| > 1 then data[1] else 0;
    var c := if |data| > 2 then data[2] else 0;
    SextetParts(a, b, c);
    SextetsOfBytes(a, b, c);
    var t := Triple(a, b, c);
    TableRanges(Sextet(t, 0));
    TableRanges(Sextet(t, 1));
    TableRanges(Sextet(t, 2));
    TableRanges(Sextet(t, 3));
    PaddingIsNone();
    if |data| == 1 {
      assert Sextet(t, 2) == 0 && Sextet(t, 3) == 0 && Sextet(t, 1) % 16 == 0;
      assert [a, b, c][..1] == data;
    } else if |data| == 2 {
      assert Sextet(t, 3) == 0 && Sextet(t, 2) % 4 == 0;
      assert [a, b, c][..2] == data;
    } else {
      assert [a, b, c] == if |data| > 3 then data[..3] else data;
    }
  }

  lemma PaddingIsNone()
    ensures Value('=').None?
  {
  }

  /** Decoding undoes encoding. */
  lemma {:induction false} DecodeEncode(data: seq<byte>)
    ensures Decode(Encode(data)) == Some(data)
    decreases |data|
  {
    hide Group, GroupBytes;
    if data != [] {
      DecodeEncode(Rest(data));
      GroupDecodes(data);
      EncodedLength(data);
      var text := Encode(data);
      assert text[..4] == Group(data) && text[4..] == Encode(Rest(data));
      assert |text| == 4 <==> |data| <= 3;
      assert (if |data| > 3 then data[..3] else data) + Rest(data) == data;
    }
  }

  /** A decoded group is the encoding of its bytes. */
  lemma GroupEncodes(s: string, last: bool)
    requires |s| == 4 && GroupBytes(s, last).Some?
    ensures 0 < |GroupBytes(s, last).value| <= 3 && Group(GroupBytes(s, last).value) == s
    ensures !last ==> |GroupBytes(s, last).value| == 3
  {
    hide Symbol, Value, Sextet, Bytes, Triple;
    PaddingIsNone();
    var v, w := Value(s[0]).value, Value(s[1]).value;
    var x := if Value(s[2]).Some? then Value(s[2]).value else 0;
    var y := if Value(s[3]).Some? then Value(s[3]).value else 0;
    BytesOfSextets(v, w, x, y);
    ByteParts(v, w, x, y);
    ValueSymbol(s[0]);
    ValueSymbol(s[1]);
    if Value(s[2]).Some? {
      ValueSymbol(s[2]);
    }
    if Value(s[3]).Some? {
      ValueSymbol(s[3]);
    }
  }

  /** The encoder's texts are all the strict decoder accepts. */
  lemma {:induction false} EncodeDecode(s: string)
    requires Decode(s).Some?
    ensures Encode(Decode(s).value) == s
  {
    hide Group, GroupBytes;
    if s != [] {
      EncodeDecode(s[4..]);
      GroupEncodes(s[..4], |s| == 4);
      var group, rest := GroupBytes(s[..4], |s| == 4).value, Decode(s[4..]).value;
      GroupFront(group, rest);
    }
  }

  lemma GroupFront(group: seq<byte>, rest: seq<byte>)
    requires 0 < |group| <= 3 && (|group| == 3 || rest == [])
    ensures Group(group + rest) == Group(group) && Rest(group + rest) == rest
  {
    assert rest == [] ==> group + rest == group;
  }

  lemma DecodesIff(s: string, data: seq<byte>)
    ensures Decode(s) == Some(data) <==> s == Encode(data)
  {
    DecodeEncode(data);
    if Decode(s).Some? {
      EncodeDecode(s);
    }
  }
}
