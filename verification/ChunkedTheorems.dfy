/**
  The decoder accepts exactly the chunked message grammar, undoes every encoding, and
  refuses truncated bodies.
 */
module ChunkedTheorems {
  import opened Options
  import opened Words
  import opened Chunked
  import opened ChunkedText
  import opened ChunkedLines

  // ----- the grammar -----

  predicate Unbroken(line: seq<byte>)
  {
    forall k :: 0 <= k && k + 2 <= |line| ==> !(line[k] == CR && line[k + 1] == LF)
  }

  /** A line announcing `n`, with no line end inside. */
  ghost predicate IsLine(line: seq<byte>, n: nat)
  {
    Announces(line, n) && Unbroken(line)
  }

  datatype Piece = Piece(line: seq<byte>, data: seq<byte>)

  ghost predicate ValidPiece(c: Piece)
  {
    c.data != [] && IsLine(c.line, |c.data|)
  }

  function EncodePiece(c: Piece): seq<byte>
  {
    c.line + CRLF + c.data + CRLF
  }

  function EncodePieces(cs: seq<Piece>): seq<byte>
  {
    if cs == [] then [] else EncodePiece(cs[0]) + EncodePieces(cs[1..])
  }

  function Joined(cs: seq<Piece>): seq<byte>
  {
    if cs == [] then [] else cs[0].data + Joined(cs[1..])
  }

  /** Chunks, a line announcing zero, and then the end or an empty line (after which anything may follow). */
  ghost predicate BodyOf(b: seq<byte>, x: seq<byte>, cs: seq<Piece>, last: seq<byte>, tail: seq<byte>)
  {
    && (forall c <- cs :: ValidPiece(c)) && IsLine(last, 0) && (tail == [] || CRLF <= tail)
    && b == EncodePieces(cs) + (last + CRLF + tail) && x == Joined(cs)
  }

  ghost predicate Body(b: seq<byte>, x: seq<byte>)
  {
    exists cs, last, tail :: BodyOf(b, x, cs, last, tail)
  }

  // ----- one chunk -----

  lemma LineFound(line: seq<byte>, n: nat, rest: seq<byte>)
    requires IsLine(line, n)
    ensures FindCrlf(line + CRLF + rest) == |line|
    ensures (line + CRLF + rest)[..|line|] == line && (line + CRLF + rest)[|line| + 2..] == rest
  {
    hide Announces;
    var b := line + CRLF + rest;
    assert forall k :: 0 <= k < |line| ==> b[k] == line[k];
    assert b[|line|] == CR && b[|line| + 1] == LF;
    FirstIsUnique(b, |line|);
  }

  /** When the front of a body is a chunk of `n` bytes behind a line of `p` bytes. */
  lemma ChunkShape(b: seq<byte>, p: nat, n: nat)
    requires p == FindCrlf(b) < |b| && n > 0
    ensures ReadChunk(b).Chunk? && |ReadChunk(b).data| == n
       <==> SizeOf(b[..p]) == Some(n) && p + 4 + n <= |b| && b[p + 2 + n..p + 4 + n] == CRLF
    ensures ReadChunk(b).Chunk? && |ReadChunk(b).data| == n ==> ReadChunk(b) == Chunk(b[p + 2..p + 2 + n], p + 4 + n)
  {
    hide SizeOf, FindCrlf;
  }

  lemma ChunkHasLine(b: seq<byte>)
    requires ReadChunk(b).Chunk?
    ensures FindCrlf(b) < |b|
  {
    hide SizeOf, FindCrlf;
  }

  lemma LineSize(line: seq<byte>, n: nat)
    ensures IsLine(line, n) <==> SizeOf(line) == Some(n) && Unbroken(line)
  {
    hide SizeOf, Announces, Unbroken;
    SizeIff(line, n);
  }

  lemma PieceSlices(c: Piece, rest: seq<byte>, b: seq<byte>)
    requires b == EncodePiece(c) + rest
    ensures var p, n := |c.line|, |c.data|;
            && |EncodePiece(c)| == p + 4 + n
            && b == c.line + CRLF + (c.data + CRLF + rest)
            && b[..p] == c.line && b[p + 2..p + 2 + n] == c.data
            && b[p + 2 + n..p + 4 + n] == CRLF && b[p + 4 + n..] == rest
  {
  }

  lemma PieceRead(c: Piece, rest: seq<byte>)
    requires ValidPiece(c)
    ensures ReadChunk(EncodePiece(c) + rest) == Chunk(c.data, |EncodePiece(c)|)
    ensures (EncodePiece(c) + rest)[|EncodePiece(c)|..] == rest
  {
    hide SizeOf, FindCrlf, IsLine, ReadChunk, EncodePiece;
    var b := EncodePiece(c) + rest;
    PieceSlices(c, rest, b);
    LineFound(c.line, |c.data|, c.data + CRLF + rest);
    LineSize(c.line, |c.data|);
    ChunkShape(b, |c.line|, |c.data|);
  }

  lemma LastRead(last: seq<byte>, tail: seq<byte>)
    requires IsLine(last, 0) && (tail == [] || CRLF <= tail)
    ensures ReadChunk(last + CRLF + tail) == Last
  {
    LineFound(last, 0, tail);
    LineSize(last, 0);
    hide SizeOf, FindCrlf, IsLine;
  }

  lemma Cut(b: seq<byte>, p: nat)
    requires p + 2 <= |b| && b[p] == CR && b[p + 1] == LF
    ensures b == b[..p] + CRLF + b[p + 2..]
  {
    assert b[p..p + 2] == CRLF;
  }

  lemma FoundLine(b: seq<byte>, n: nat)
    requires FindCrlf(b) < |b| && SizeOf(b[..FindCrlf(b)]) == Some(n)
    ensures IsLine(b[..FindCrlf(b)], n)
    ensures b == b[..FindCrlf(b)] + CRLF + b[FindCrlf(b) + 2..]
  {
    hide SizeOf, FindCrlf, IsLine;
    Cut(b, FindCrlf(b));
    LineSize(b[..FindCrlf(b)], n);
  }

  lemma CutTwice(b: seq<byte>, p: nat, n: nat)
    requires p + 4 + n <= |b| && b == b[..p] + CRLF + b[p + 2..] && b[p + 2 + n..p + 4 + n] == CRLF
    ensures b == EncodePiece(Piece(b[..p], b[p + 2..p + 2 + n])) + b[p + 4 + n..]
  {
    var q := p + 2 + n;
    assert b[q] == b[q..q + 2][0] && b[q + 1] == b[q..q + 2][1];
    Cut(b, q);
    assert b[..q] == b[..p] + CRLF + b[p + 2..q];
  }

  lemma ReadPiece(b: seq<byte>) returns (c: Piece)
    requires ReadChunk(b).Chunk?
    ensures ValidPiece(c) && c.data == ReadChunk(b).data
    ensures b == EncodePiece(c) + b[ReadChunk(b).next..] && |EncodePiece(c)| == ReadChunk(b).next
  {
    hide SizeOf, FindCrlf, ReadChunk, IsLine;
    var p, n := FindCrlf(b), |ReadChunk(b).data|;
    ChunkHasLine(b);
    ChunkShape(b, p, n);
    FoundLine(b, n);
    c := Piece(b[..p], ReadChunk(b).data);
    CutTwice(b, p, n);
  }

  // ----- exact acceptance -----

  lemma {:induction false} DecodeSound(b: seq<byte>)
    requires Decode(b).Some?
    ensures Body(b, Decode(b).value)
    decreases |b|
  {
    hide SizeOf, FindCrlf;
    match ReadChunk(b) {
      case Last =>
        LastBody(b);
      case Chunk(data, next) =>
        hide ReadChunk, ValidPiece, EncodePiece;
        var rest := b[next..];
        DecodeSound(rest);
        var c := ReadPiece(b);
        var cs, last, tail :| BodyOf(rest, Decode(rest).value, cs, last, tail);
        hide BodyOf;
        BodyExtends(rest, Decode(rest).value, cs, last, tail, c);
    }
  }

  lemma LastShape(b: seq<byte>)
    requires ReadChunk(b) == Last
    ensures FindCrlf(b) < |b| && SizeOf(b[..FindCrlf(b)]) == Some(0)
    ensures b[FindCrlf(b) + 2..] == [] || CRLF <= b[FindCrlf(b) + 2..]
  {
    hide SizeOf, FindCrlf;
  }

  lemma LastBody(b: seq<byte>)
    requires ReadChunk(b) == Last
    ensures Body(b, [])
  {
    hide SizeOf, FindCrlf, ReadChunk, IsLine;
    LastShape(b);
    var p := FindCrlf(b);
    FoundLine(b, 0);
    assert b == EncodePieces([]) + (b[..p] + CRLF + b[p + 2..]);
    assert BodyOf(b, [], [], b[..p], b[p + 2..]);
  }

  lemma BodyExtends(b: seq<byte>, x: seq<byte>, cs: seq<Piece>, last: seq<byte>, tail: seq<byte>, c: Piece)
    requires BodyOf(b, x, cs, last, tail) && ValidPiece(c)
    ensures Body(EncodePiece(c) + b, c.data + x)
  {
    hide IsLine, ValidPiece, EncodePiece;
    var all := [c] + cs;
    assert all[1..] == cs;
    assert EncodePieces(all) + (last + CRLF + tail) == EncodePiece(c) + (EncodePieces(cs) + (last + CRLF + tail));
    assert BodyOf(EncodePiece(c) + b, c.data + x, all, last, tail);
  }

  lemma {:induction false} DecodeComplete(cs: seq<Piece>, last: seq<byte>, tail: seq<byte>)
    requires (forall c <- cs :: ValidPiece(c)) && IsLine(last, 0) && (tail == [] || CRLF <= tail)
    ensures Decode(EncodePieces(cs) + (last + CRLF + tail)) == Some(Joined(cs))
    decreases |cs|
  {
    hide IsLine, ValidPiece, ReadChunk, EncodePiece;
    var end := last + CRLF + tail;
    if cs == [] {
      assert [] + end == end;
      LastRead(last, tail);
    } else {
      var rest := EncodePieces(cs[1..]) + end;
      assert EncodePieces(cs) + end == EncodePiece(cs[0]) + rest;
      PieceRead(cs[0], rest);
      DecodeComplete(cs[1..], last, tail);
    }
  }

  /** The decoder returns `x` exactly for the bodies whose chunks join to `x`. */
  lemma DecodesIff(b: seq<byte>, x: seq<byte>)
    ensures Decode(b) == Some(x) <==> Body(b, x)
  {
    hide Decode, IsLine, ValidPiece;
    if Decode(b) == Some(x) {
      DecodeSound(b);
    }
    if Body(b, x) {
      var cs, last, tail :| BodyOf(b, x, cs, last, tail);
      DecodeComplete(cs, last, tail);
    }
  }

  // ----- canonical lines, with and without an extension -----

  function HexByte(d: nat): byte
    requires d < 16
  {
    if d < 10 then 0x30 + d else 0x61 + d - 10
  }

  function HexText(n: nat): (s: seq<byte>)
    ensures s != []
    ensures forall k :: 0 <= k < |s| ==> s[k] < 0x80
  {
    if n < 16 then [HexByte(n)] else HexText(n / 16) + [HexByte(n % 16)]
  }

  lemma {:induction false} HexTextNumber(n: nat)
    ensures Hexadecimal(Codes(HexText(n))) && NumberOf(Codes(HexText(n))) == n
    decreases n
  {
    var t := Codes(HexText(n));
    if n < 16 {
      assert t[..0] == [];
    } else {
      HexTextNumber(n / 16);
      assert t[..|t| - 1] == Codes(HexText(n / 16));
      assert t == Codes(HexText(n / 16)) + [HexByte(n % 16) as int];
    }
  }

  /** An extension: nothing, or a semicolon and text without a line end. */
  ghost predicate IsExtension(ext: seq<byte>, text: seq<int>)
  {
    && (text == [] || text[0] == 0x3b) && IsEncoded(ext, text) && Unbroken(ext)
  }

  lemma HexIsAscii(digits: seq<byte>)
    requires Hexadecimal(Codes(digits))
    ensures forall k :: 0 <= k < |digits| ==> digits[k] < 0x80 && digits[k] != CR
  {
    forall k | 0 <= k < |digits|
      ensures digits[k] < 0x80 && digits[k] != CR
    {
      assert Codes(digits)[k] == digits[k];
    }
  }

  /** Digits of either case, with or without an extension, announce the number they denote. */
  lemma HexLine(digits: seq<byte>, n: nat, ext: seq<byte>, text: seq<int>)
    requires Hexadecimal(Codes(digits)) && NumberOf(Codes(digits)) == n < USIZE && IsExtension(ext, text)
    ensures IsLine(digits + ext, n)
  {
    hide Hexadecimal, NumberOf, EncodeText, Text;
    HexIsAscii(digits);
    EncodeAscii(digits);
    var d := Codes(digits);
    EncodeConcat(d, text);
    var none: seq<int> := [];
    assert none + none + d + none + text == d + text;
    assert Spells(none, none, d, none, text, n) && IsEncoded(digits + ext, none + none + d + none + text);
    assert Announces(digits + ext, n);
    HexUnbroken(digits, ext);
  }

  lemma HexUnbroken(digits: seq<byte>, ext: seq<byte>)
    requires (forall k :: 0 <= k < |digits| ==> digits[k] != CR) && Unbroken(ext)
    ensures Unbroken(digits + ext)
  {
    var line := digits + ext;
    forall k | 0 <= k && k + 2 <= |line|
      ensures !(line[k] == CR && line[k + 1] == LF)
    {
      if k >= |digits| {
        assert line[k] == ext[k - |digits|] && line[k + 1] == ext[k + 1 - |digits|];
      }
    }
  }

  lemma NumberLine(n: nat)
    requires n < USIZE
    ensures IsLine(HexText(n), n)
  {
    hide Hexadecimal, NumberOf, HexText, IsLine;
    HexTextNumber(n);
    HexLine(HexText(n), n, [], []);
    assert HexText(n) + [] == HexText(n);
  }

  // ----- encoding and truncation -----

  /** The canonical encoding: lower-case sizes, no extensions, a final "0" and an empty line. */
  function Encode(chunks: seq<seq<byte>>): seq<byte>
  {
    if chunks == [] then HexText(0) + CRLF + CRLF
    else EncodePiece(Piece(HexText(|chunks[0]|), chunks[0])) + Encode(chunks[1..])
  }

  function Flat(chunks: seq<seq<byte>>): seq<byte>
  {
    if chunks == [] then [] else chunks[0] + Flat(chunks[1..])
  }

  ghost predicate Encodable(chunks: seq<seq<byte>>)
  {
    forall c <- chunks :: c != [] && |c| < USIZE
  }

  lemma CanonicalPiece(chunk: seq<byte>)
    requires chunk != [] && |chunk| < USIZE
    ensures ValidPiece(Piece(HexText(|chunk|), chunk))
  {
    hide SizeOf, HexText;
    NumberLine(|chunk|);
  }

  lemma ZeroLine()
    ensures IsLine(HexText(0), 0)
  {
    hide SizeOf, HexText;
    NumberLine(0);
  }

  lemma {:induction false} EncodeDecodes(chunks: seq<seq<byte>>)
    requires Encodable(chunks)
    ensures Decode(Encode(chunks)) == Some(Flat(chunks))
    decreases |chunks|
  {
    hide ReadChunk, EncodePiece, IsLine, ValidPiece, HexText;
    if chunks == [] {
      ZeroLine();
      LastRead(HexText(0), CRLF);
    } else {
      CanonicalPiece(chunks[0]);
      PieceRead(Piece(HexText(|chunks[0]|), chunks[0]), Encode(chunks[1..]));
      EncodeDecodes(chunks[1..]);
    }
  }

  /** A line that has not been ended yet is refused. */
  lemma UnendedLine(line: seq<byte>, n: nat, rest: seq<byte>, k: nat)
    requires IsLine(line, n) && k < |line| + 2
    ensures ReadChunk((line + CRLF + rest)[..k]) == Malformed
  {
    hide SizeOf, IsLine;
    LineSize(line, n);
    var b := (line + CRLF + rest)[..k];
    assert forall i :: 0 <= i < |line| && i < k ==> b[i] == line[i];
    assert k > |line| ==> b[|line|] == CR;
    var p := FindCrlf(b);
    if p < |b| {
      assert false;
    }
  }

  lemma CutPiece(c: Piece, rest: seq<byte>, k: nat)
    requires ValidPiece(c) && k < |EncodePiece(c)|
    ensures ReadChunk((EncodePiece(c) + rest)[..k]) == Malformed
  {
    hide SizeOf, FindCrlf, IsLine;
    var p, n := |c.line|, |c.data|;
    var after := c.data + CRLF + rest;
    assert EncodePiece(c) + rest == c.line + CRLF + after;
    LineSize(c.line, n);
    if k < p + 2 {
      UnendedLine(c.line, n, after, k);
    } else {
      var b := (EncodePiece(c) + rest)[..k];
      assert b == c.line + CRLF + after[..k - p - 2];
      LineFound(c.line, n, after[..k - p - 2]);
    }
  }

  lemma CutLast(k: nat)
    requires k < 5
    ensures Decode((HexText(0) + CRLF + CRLF)[..k]).Some? <==> k == 3
  {
    ZeroLine();
    var b := HexText(0) + CRLF + CRLF;
    assert |HexText(0)| == 1;
    hide IsLine, HexText, SizeOf;
    if k < 3 {
      UnendedLine(HexText(0), 0, CRLF, k);
    } else if k == 3 {
      assert b[..k] == HexText(0) + CRLF + [];
      LastRead(HexText(0), []);
    } else {
      assert b[..k] == HexText(0) + CRLF + [CR];
      LineFound(HexText(0), 0, [CR]);
      ZeroSize();
    }
  }

  lemma ZeroSize()
    ensures SizeOf(HexText(0)) == Some(0)
  {
    ZeroLine();
    hide SizeOf, IsLine;
    LineSize(HexText(0), 0);
  }

  /** Of all proper prefixes of an encoding, only the one without its last line end is accepted. */
  lemma {:induction false} TruncationRefused(chunks: seq<seq<byte>>, k: nat)
    requires Encodable(chunks) && k < |Encode(chunks)|
    ensures Decode(Encode(chunks)[..k]).Some? <==> k == |Encode(chunks)| - 2
    decreases |chunks|
  {
    hide *;
    if chunks == [] {
      EncodeNone();
      CutLast(k);
    } else {
      EncodeFirst(chunks);
      EncodeLong(chunks[1..]);
      var c := Piece(HexText(|chunks[0]|), chunks[0]);
      var n, rest := |EncodePiece(c)|, Encode(chunks[1..]);
      if k < n {
        CutDecode(c, rest, k);
      } else {
        AfterPiece(c, rest, k);
        TruncationRefused(chunks[1..], k - n);
      }
    }
  }

  lemma EncodeNone()
    ensures Encode([]) == HexText(0) + CRLF + CRLF && |Encode([])| == 5
  {
  }

  lemma EncodeFirst(chunks: seq<seq<byte>>)
    requires Encodable(chunks) && chunks != []
    ensures var c := Piece(HexText(|chunks[0]|), chunks[0]);
            ValidPiece(c) && Encode(chunks) == EncodePiece(c) + Encode(chunks[1..]) && Encodable(chunks[1..])
  {
    hide HexText, ValidPiece, EncodePiece;
    CanonicalPiece(chunks[0]);
  }

  lemma CutDecode(c: Piece, rest: seq<byte>, k: nat)
    requires ValidPiece(c) && k < |EncodePiece(c)|
    ensures Decode((EncodePiece(c) + rest)[..k]).None?
  {
    hide ReadChunk, EncodePiece, ValidPiece;
    CutPiece(c, rest, k);
  }

  lemma AfterPiece(c: Piece, rest: seq<byte>, k: nat)
    requires ValidPiece(c) && |EncodePiece(c)| <= k <= |EncodePiece(c) + rest|
    ensures Decode((EncodePiece(c) + rest)[..k]).Some? <==> Decode(rest[..k - |EncodePiece(c)|]).Some?
  {
    hide ReadChunk, EncodePiece, ValidPiece;
    var n := |EncodePiece(c)|;
    assert (EncodePiece(c) + rest)[..k] == EncodePiece(c) + rest[..k - n];
    PieceRead(c, rest[..k - n]);
  }

  lemma {:induction false} EncodeLong(chunks: seq<seq<byte>>)
    ensures |Encode(chunks)| >= 5
    decreases |chunks|
  {
    if chunks != [] {
      EncodeLong(chunks[1..]);
    }
  }
}
