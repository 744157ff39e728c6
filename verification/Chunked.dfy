/**
  The chunked-body decoder of the HTTP client, and the message grammar of section 7.1 of
  RFC 9112 as this decoder reads it.
 */
module Chunked {
  import opened Options
  import opened Words

  const CR: byte := 13
  const LF: byte := 10
  const CRLF: seq<byte> := [13, 10]
  const USIZE: nat := 0x1_0000_0000_0000_0000

  // ----- text of a size line -----

  predicate Continuation(b: byte)
  {
    0x80 <= b < 0xc0
  }

  /** Length of the well-formed UTF-8 sequence at the front, or 0. */
  function Width(b: seq<byte>): (w: nat)
    requires b != []
    ensures w <= |b|
  {
    var x := b[0];
    if x < 0x80 then 1
    else if 0xc2 <= x < 0xe0 then (if |b| >= 2 && Continuation(b[1]) then 2 else 0)
    else if 0xe0 <= x < 0xf0 then
      if |b| >= 3 && Continuation(b[1]) && Continuation(b[2]) && (x == 0xe0 ==> b[1] >= 0xa0) && (x == 0xed ==> b[1] < 0xa0)
      then 3 else 0
    else if 0xf0 <= x < 0xf5 then
      if |b| >= 4 && Continuation(b[1]) && Continuation(b[2]) && Continuation(b[3])
         && (x == 0xf0 ==> b[1] >= 0x90) && (x == 0xf4 ==> b[1] < 0x90)
      then 4 else 0
    else 0
  }

  function CodePoint(b: seq<byte>): int
    requires b != [] && Width(b) > 0
  {
    match Width(b)
    case 1 => b[0] as int
    case 2 => (b[0] as int - 0xc0) * 64 + (b[1] as int - 0x80)
    case 3 => ((b[0] as int - 0xe0) * 64 + (b[1] as int - 0x80)) * 64 + (b[2] as int - 0x80)
    case _ => (((b[0] as int - 0xf0) * 64 + (b[1] as int - 0x80)) * 64 + (b[2] as int - 0x80)) * 64 + (b[3] as int - 0x80)
  }

  /** `std::str::from_utf8`. */
  function Utf8(b: seq<byte>): Option<seq<int>>
    decreases |b|
  {
    if b == [] then Some([])
    else if Width(b) == 0 then None
    else
      var rest := Utf8(b[Width(b)..]);
      if rest.None? then None else Some([CodePoint(b)] + rest.value)
  }

  function BeforeSemicolon(t: seq<int>): seq<int>
  {
    if t == [] || t[0] == 0x3b then [] else [t[0]] + BeforeSemicolon(t[1..])
  }

  /** The Unicode White_Space property, as `str::trim` uses it. */
  predicate IsSpace(c: int)
  {
    || 0x09 <= c <= 0x0d || c == 0x20 || c == 0x85 || c == 0xa0 || c == 0x1680
    || 0x2000 <= c <= 0x200a || c == 0x2028 || c == 0x2029 || c == 0x202f || c == 0x205f || c == 0x3000
  }

  function TrimStart(t: seq<int>): seq<int>
  {
    if t != [] && IsSpace(t[0]) then TrimStart(t[1..]) else t
  }

  function TrimEnd(t: seq<int>): seq<int>
  {
    if t != [] && IsSpace(t[|t| - 1]) then TrimEnd(t[..|t| - 1]) else t
  }

  function HexValue(c: int): (v: int)
    ensures -1 <= v < 16
  {
    if 0x30 <= c <= 0x39 then c - 0x30
    else if 0x41 <= c <= 0x46 then c - 0x41 + 10
    else if 0x61 <= c <= 0x66 then c - 0x61 + 10
    else -1
  }

  function Digits(t: seq<int>): Option<nat>
  {
    if t == [] then Some(0) else
      var front, d := Digits(t[..|t| - 1]), HexValue(t[|t| - 1]);
      if front.None? || d < 0 then None else Some(front.value * 16 + d)
  }

  /** `usize::from_str_radix(text, 16)`: an optional plus sign, at least one digit, no overflow. */
  function FromHex(t: seq<int>): Option<nat>
  {
    var digits := if t != [] && t[0] == 0x2b then t[1..] else t;
    if digits == [] then None
    else
      var v := Digits(digits);
      if v.None? || v.value >= USIZE then None else v
  }

  /** The size a line announces: text up to a semicolon, trimmed, in hexadecimal. */
  function SizeOf(line: seq<byte>): Option<nat>
  {
    var t := Utf8(line);
    if t.None? then None else FromHex(TrimEnd(TrimStart(BeforeSemicolon(t.value))))
  }

  // ----- the decoder -----

  /** Index of the first CR LF, or the length when there is none. */
  function FindCrlf(b: seq<byte>): (p: nat)
    ensures p < |b| ==> p + 2 <= |b| && b[p] == CR && b[p + 1] == LF
    ensures p <= |b|
    ensures forall k :: 0 <= k < p && k + 2 <= |b| ==> !(b[k] == CR && b[k + 1] == LF)
  {
    if |b| < 2 then |b|
    else if b[0] == CR && b[1] == LF then 0
    else
      var rest := FindCrlf(b[1..]);
      assert forall k :: 1 <= k < |b| ==> b[k] == b[1..][k - 1];
      1 + rest
  }

  /** The front of the rest of a body: an error, the end, or a chunk and where the next one starts. */
  datatype Front = Malformed | Last | Chunk(data: seq<byte>, next: nat)

  function ReadChunk(b: seq<byte>): (f: Front)
    ensures f.Chunk? ==> 0 < f.next <= |b| && f.data != []
  {
    var p := FindCrlf(b);
    if p == |b| then Malformed
    else
      var size := SizeOf(b[..p]);
      if size.None? then Malformed
      else if size.value == 0 then
        if b[p + 2..] == [] || CRLF <= b[p + 2..] then Last else Malformed
      else
        var end := p + 2 + size.value;
        if end + 2 > |b| || b[end..end + 2] != CRLF then Malformed
        else Chunk(b[p + 2..end], end + 2)
  }

  function Decode(b: seq<byte>): Option<seq<byte>>
    decreases |b|
  {
    match ReadChunk(b)
    case Malformed => None
    case Last => Some([])
    case Chunk(data, next) => Prepend(data, Decode(b[next..]))
  }

  function Prepend(x: seq<byte>, r: Option<seq<byte>>): Option<seq<byte>>
  {
    if r.None? then None else Some(x + r.value)
  }

  method FirstCrlf(body: seq<byte>, idx: nat) returns (found: bool, rel: nat)
    requires idx <= |body|
    ensures found <==> FindCrlf(body[idx..]) < |body| - idx
    ensures found ==> rel == idx + FindCrlf(body[idx..]) && rel + 2 <= |body|
  {
    rel := idx;
    while rel + 2 <= |body|
      invariant idx <= rel <= |body|
      invariant forall k :: idx <= k < rel && k + 2 <= |body| ==> !(body[k] == CR && body[k + 1] == LF)
    {
      if body[rel..rel + 2] == CRLF {
        FirstFound(body, idx, rel);
        return true, rel;
      }
      rel := rel + 1;
    }
    found := false;
    assert forall k :: 0 <= k && k + 2 <= |body| - idx ==> !(body[idx..][k] == CR && body[idx..][k + 1] == LF);
  }

  lemma FirstFound(body: seq<byte>, idx: nat, rel: nat)
    requires idx <= rel && rel + 2 <= |body| && body[rel..rel + 2] == CRLF
    requires forall k :: idx <= k < rel && k + 2 <= |body| ==> !(body[k] == CR && body[k + 1] == LF)
    ensures FindCrlf(body[idx..]) == rel - idx
  {
    hide FindCrlf;
    var b := body[idx..];
    assert body[rel..rel + 2][0] == body[rel] && body[rel..rel + 2][1] == body[rel + 1];
    forall k | 0 <= k < rel - idx
      ensures !(b[k] == CR && b[k + 1] == LF)
    {
      assert b[k] == body[idx + k] && b[k + 1] == body[idx + k + 1];
    }
    FirstIsUnique(b, rel - idx);
  }

  lemma FirstIsUnique(b: seq<byte>, p: nat)
    requires p + 2 <= |b| && b[p] == CR && b[p + 1] == LF
    requires forall k :: 0 <= k < p ==> !(b[k] == CR && b[k + 1] == LF)
    ensures FindCrlf(b) == p
  {
    hide FindCrlf;
  }

  /** One turn of the decoder's loop, from the cursor `start`. */
  method TakeChunk(body: seq<byte>, start: nat) returns (f: Front)
    requires start <= |body|
    ensures f == ReadChunk(body[start..])
  {
    hide FindCrlf, SizeOf;
    ghost var b := body[start..];
    var found, rel := FirstCrlf(body, start);
    if !found {
      return Malformed;
    }
    ghost var p := rel - start;
    assert body[start..rel] == b[..p];
    var size := SizeOf(body[start..rel]);
    if size.None? {
      return Malformed;
    }
    var idx := rel + 2;
    assert b[p + 2..] == body[idx..];
    if size.value == 0 {
      if body[idx..] == [] || CRLF <= body[idx..] {
        return Last;
      }
      return Malformed;
    }
    var end := idx + size.value;
    if end > |body| || end + 2 > |body| {
      return Malformed;
    }
    SliceOfRest(body, start, end - start, end + 2 - start);
    SliceOfRest(body, start, p + 2, end - start);
    if body[end..end + 2] != CRLF {
      return Malformed;
    }
    return Chunk(body[idx..end], end + 2 - start);
  }

  lemma SliceOfRest(body: seq<byte>, start: nat, i: nat, j: nat)
    requires i <= j && start + j <= |body|
    ensures body[start..][i..j] == body[start + i..start + j]
  {
    assert forall k :: 0 <= k < j - i ==> body[start..][i..j][k] == body[start + i..start + j][k];
  }

  method DecodeChunkedBody(body: seq<byte>) returns (r: Option<seq<byte>>)
    ensures r == Decode(body)
  {
    hide ReadChunk;
    var idx := 0;
    var decoded: seq<byte> := [];
    assert body[0..] == body;
    ghost var goal := Decode(body);
    PrependNothing(goal);
    while true
      invariant idx <= |body|
      invariant goal == Prepend(decoded, Decode(body[idx..]))
      decreases |body| - idx
    {
      var f := TakeChunk(body, idx);
      match f {
        case Malformed =>
          return None;
        case Last =>
          assert decoded + [] == decoded;
          return Some(decoded);
        case Chunk(data, next) =>
          assert body[idx..][next..] == body[idx + next..];
          PrependTwice(decoded, data, Decode(body[idx + next..]));
          decoded := decoded + data;
          idx := idx + next;
      }
    }
  }

  lemma PrependNothing(r: Option<seq<byte>>)
    ensures Prepend([], r) == r
  {
    if r.Some? {
      assert [] + r.value == r.value;
    }
  }

  lemma PrependTwice(x: seq<byte>, y: seq<byte>, r: Option<seq<byte>>)
    ensures Prepend(x + y, r) == Prepend(x, Prepend(y, r))
  {
    if r.Some? {
      assert x + y + r.value == x + (y + r.value);
    }
  }
}
