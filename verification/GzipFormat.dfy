/**
  The members byte by byte, with little-endian numbers read independently of the codec; what
  the decompressor answers to each of them; and that the compressor writes the shortest one.
 */
module GzipFormat {
  import opened Options
  import opened Words
  import opened Crc
  import opened CrcPolynomial
  import opened Gzip
  import opened GzipTheorems

  // ----- numbers -----

  /** The number a byte string denotes, least significant byte first. */
  function LittleEndian(s: seq<byte>): nat
  {
    if s == [] then 0 else s[0] + 256 * LittleEndian(s[1..])
  }

  lemma Le16Value(v: int)
    requires 0 <= v < 65536
    ensures LittleEndian(WriteLe16(v)) == v
  {
    var s := WriteLe16(v);
    assert s[1..] == [s[1]] && s[1..][1..] == [];
    assert LittleEndian(s[1..]) == s[1];
  }

  lemma Le32Value(v: word)
    ensures LittleEndian(WriteLe32(v)) == v
  {
    Le32RoundTrip(v);
    var s := WriteLe32(v);
    hide WriteLe32;
    FourBytes(s);
  }

  lemma FourBytes(s: seq<byte>)
    requires |s| == 4
    ensures LittleEndian(s) == ReadLe32(s)
  {
    assert s[1..][1..] == s[2..] && s[2..][1..] == s[3..] && s[3..] == [s[3]] && s[3..][1..] == [];
    assert LittleEndian(s[3..]) == s[3];
    assert LittleEndian(s[2..]) == s[2] + 256 * LittleEndian(s[3..]);
    assert LittleEndian(s[1..]) == s[1] + 256 * LittleEndian(s[2..]);
  }

  // ----- blocks and trailer -----

  /** A stored block of section 3.2.4 of RFC 1951: final flag, length, its complement, and the data. */
  predicate IsStored(b: seq<byte>, last: bool, payload: seq<byte>)
  {
    && |b| == 5 + |payload| && b[0] == (if last then 1 else 0)
    && LittleEndian(b[1..3]) == |payload| && LittleEndian(b[3..5]) == 65535 - |payload|
    && b[5..] == payload
  }

  lemma BlockIsStored(last: bool, payload: seq<byte>)
    requires |payload| <= STORED_BLOCK
    ensures IsStored(StoredBlock(last, payload), last, payload)
  {
    hide WriteLe16, LittleEndian;
    var b := StoredBlock(last, payload);
    assert b[1..3] == WriteLe16(|payload|) && b[3..5] == WriteLe16(65535 - |payload|) && b[5..] == payload;
    Le16Value(|payload|);
    Le16Value(65535 - |payload|);
  }

  /** Stored blocks one after the other, the last and only the last marked final, of content `x`. */
  ghost predicate IsBody(body: seq<byte>, x: seq<byte>)
    decreases |body|, 1
  {
    exists n: nat, payload :: Begins(body, x, n, payload)
  }

  /** The first `n` bytes of the body are a block with that payload, and the rest is a body of the rest. */
  ghost predicate Begins(body: seq<byte>, x: seq<byte>, n: nat, payload: seq<byte>)
    decreases |body|, 0
  {
    && n <= |body| && IsStored(body[..n], n == |body|, payload)
    && payload <= x && if n == |body| then payload == x else IsBody(body[n..], x[|payload|..])
  }

  lemma {:induction false} BlocksAreBody(payloads: seq<seq<byte>>)
    requires payloads != [] && WellSized(payloads)
    ensures IsBody(EncodeBlocks(payloads), Flatten(payloads))
    decreases |payloads|
  {
    FirstPayload(payloads);
    var payload, tail := payloads[0], payloads[1..];
    var last := tail == [];
    BlockIsStored(last, payload);
    hide StoredBlock, IsStored, EncodeBlocks, Flatten, WellSized;
    var b, body, x := StoredBlock(last, payload), EncodeBlocks(payloads), Flatten(payloads);
    if last {
      assert body[..|b|] == b && payload + [] == payload;
    } else {
      BlocksAreBody(tail);
      EncodedSize(tail);
      assert body[..|b|] == b && body[|b|..] == EncodeBlocks(tail) && x[|payload|..] == Flatten(tail);
    }
    assert Begins(body, x, |b|, payload);
  }

  /** Section 2.3.1 of RFC 1952: the checksum by polynomial division, and the length, on four bytes each. */
  ghost predicate IsTrailer(t: seq<byte>, x: seq<byte>)
  {
    && |t| == 8
    && LittleEndian(t[..4]) < 0x1_0000_0000 && IsCrc(x, LittleEndian(t[..4]))
    && LittleEndian(t[4..]) == |x|
  }

  lemma TrailerFormat(x: seq<byte>)
    requires |x| < 0x1_0000_0000
    ensures IsTrailer(Trailer(x), x)
  {
    hide WriteLe32, LittleEndian, IsCrc, Checksum;
    var t := Trailer(x);
    assert t[..4] == WriteLe32(Checksum(x)) && t[4..] == WriteLe32(|x|);
    Le32Value(Checksum(x));
    Le32Value(|x|);
    ChecksumIff(x, Checksum(x));
  }

  lemma HeaderBytes(h: seq<byte>)
    requires FlaglessHeader(h)
    ensures |h| == 10 && h[0] == 31 && h[1] == 139 && h[2] == 8 && h[3] == 0
  {
    assert h[..4] == [h[0], h[1], h[2], h[3]];
  }

  lemma PieceByPiece(d: seq<byte>, x: seq<byte>, h: seq<byte>, payloads: seq<seq<byte>>)
    requires MemberOf(d, x, h, payloads)
    ensures payloads != [] && WellSized(payloads) && x == Flatten(payloads) && |x| < 0x1_0000_0000
    ensures FlaglessHeader(h) && |h| == 10 && d == h + EncodeBlocks(payloads) + Trailer(x)
  {
    hide Flatten, EncodeBlocks, Trailer, WellSized;
  }

  lemma Pieces(d: seq<byte>, x: seq<byte>, h: seq<byte>, payloads: seq<seq<byte>>)
    requires MemberOf(d, x, h, payloads)
    ensures |d| >= 18 && d[..10] == h && IsBody(d[10..|d| - 8], x) && IsTrailer(d[|d| - 8..], x)
  {
    hide *;
    PieceByPiece(d, x, h, payloads);
    BlocksAreBody(payloads);
    TrailerFormat(x);
    Parts(h, EncodeBlocks(payloads), Trailer(x), d);
  }

  // ----- and back -----

  lemma {:induction false} LittleEndianInjective(s: seq<byte>, t: seq<byte>)
    requires |s| == |t| && LittleEndian(s) == LittleEndian(t)
    ensures s == t
  {
    if s != [] {
      LowByte(s[0], LittleEndian(s[1..]));
      LowByte(t[0], LittleEndian(t[1..]));
      LittleEndianInjective(s[1..], t[1..]);
      assert s == [s[0]] + s[1..] && t == [t[0]] + t[1..];
    }
  }

  lemma StoredIsBlock(b: seq<byte>, last: bool, payload: seq<byte>)
    requires IsStored(b, last, payload)
    ensures |payload| <= STORED_BLOCK && b == StoredBlock(last, payload)
  {
    hide WriteLe16, LittleEndian;
    Le16Value(|payload|);
    Le16Value(65535 - |payload|);
    LittleEndianInjective(b[1..3], WriteLe16(|payload|));
    LittleEndianInjective(b[3..5], WriteLe16(65535 - |payload|));
    assert b == [b[0]] + b[1..3] + b[3..5] + b[5..];
  }

  lemma TrailerIs(t: seq<byte>, x: seq<byte>)
    requires IsTrailer(t, x) && |x| < 0x1_0000_0000
    ensures t == Trailer(x)
  {
    hide WriteLe32, LittleEndian, IsCrc, Checksum;
    var code := LittleEndian(t[..4]);
    ChecksumIff(x, code);
    Le32Value(code);
    Le32Value(|x|);
    LittleEndianInjective(t[..4], WriteLe32(code));
    LittleEndianInjective(t[4..], WriteLe32(|x|));
    assert t == t[..4] + t[4..];
  }

  lemma FirstBlockIs(body: seq<byte>, x: seq<byte>, n: nat, payload: seq<byte>)
    requires Begins(body, x, n, payload)
    ensures 0 < n <= |body| && |payload| <= |x| && |payload| <= STORED_BLOCK
    ensures n == |body| ==> body == StoredBlock(true, payload) && x == payload
    ensures n < |body| ==> body == StoredBlock(false, payload) + body[n..] && x == payload + x[|payload|..]
    ensures n < |body| ==> IsBody(body[n..], x[|payload|..])
  {
    StoredIsBlock(body[..n], n == |body|, payload);
    hide StoredBlock, IsStored, IsBody;
    assert body[..|body|] == body && body == body[..n] + body[n..];
  }

  lemma {:induction false} BodyIsBlocks(body: seq<byte>, x: seq<byte>) returns (payloads: seq<seq<byte>>)
    requires IsBody(body, x)
    ensures payloads != [] && WellSized(payloads) && body == EncodeBlocks(payloads) && x == Flatten(payloads)
    decreases |body|
  {
    var n: nat, payload :| Begins(body, x, n, payload);
    hide *;
    FirstBlockIs(body, x, n, payload);
    if n == |body| {
      payloads := [payload];
      OnePayload(payload);
    } else {
      var tail := BodyIsBlocks(body[n..], x[|payload|..]);
      payloads := [payload] + tail;
      OneMorePayload(payload, tail);
    }
  }

  lemma OnePayload(payload: seq<byte>)
    requires |payload| <= STORED_BLOCK
    ensures WellSized([payload]) && EncodeBlocks([payload]) == StoredBlock(true, payload) && Flatten([payload]) == payload
  {
    hide StoredBlock;
    assert [payload][1..] == [] && Flatten([]) == [] && payload + [] == payload;
  }

  lemma OneMorePayload(payload: seq<byte>, tail: seq<seq<byte>>)
    requires |payload| <= STORED_BLOCK && tail != [] && WellSized(tail)
    ensures WellSized([payload] + tail)
    ensures EncodeBlocks([payload] + tail) == StoredBlock(false, payload) + EncodeBlocks(tail)
    ensures Flatten([payload] + tail) == payload + Flatten(tail)
  {
    hide StoredBlock;
    assert ([payload] + tail)[1..] == tail;
  }

  /** The whole file: the header's fixed bytes, six free ones, stored blocks, and the trailer. */
  ghost predicate IsGzipFile(d: seq<byte>, x: seq<byte>)
  {
    && |d| >= 18 && d[0] == 31 && d[1] == 139 && d[2] == 8 && d[3] == 0
    && IsBody(d[10..|d| - 8], x) && IsTrailer(d[|d| - 8..], x)
  }

  lemma FileIsMember(d: seq<byte>, x: seq<byte>)
    requires IsGzipFile(d, x) && |x| < 0x1_0000_0000
    ensures Member(d, x)
  {
    hide IsBody, IsTrailer, Trailer, EncodeBlocks, Flatten, WellSized;
    var t := |d| - 8;
    var payloads := BodyIsBlocks(d[10..t], x);
    TrailerIs(d[t..], x);
    var h := d[..10];
    assert h[..4] == [d[0], d[1], d[2], d[3]];
    assert d == h + d[10..t] + d[t..];
    assert MemberOf(d, x, h, payloads);
  }

  /** The members of the model are exactly these files. */
  lemma MemberIff(d: seq<byte>, x: seq<byte>)
    ensures Member(d, x) <==> IsGzipFile(d, x) && |x| < 0x1_0000_0000
  {
    if Member(d, x) {
      hide IsBody, IsTrailer, FlaglessHeader, MemberOf;
      var h, payloads :| MemberOf(d, x, h, payloads);
      Pieces(d, x, h, payloads);
      PieceByPiece(d, x, h, payloads);
      HeaderBytes(h);
      assert d[0] == d[..10][0] && d[1] == d[..10][1] && d[2] == d[..10][2] && d[3] == d[..10][3];
    }
    if IsGzipFile(d, x) && |x| < 0x1_0000_0000 {
      FileIsMember(d, x);
    }
  }

  // ----- what the decompressor answers to a member -----

  lemma FirstTooLong(last: bool, payload: seq<byte>, rest: seq<byte>, done: seq<byte>, capacity: nat, limit: nat)
    requires |payload| <= STORED_BLOCK && |done| + |payload| > capacity
    ensures Inflate(StoredBlock(last, payload) + rest, done, capacity, limit) == Fail(BUFFER_TOO_SMALL)
  {
    hide ReadHeader, StoredBlock;
    HeaderOfBlock(last, payload, rest, |done|, capacity, limit);
  }

  /** Blocks that are too long for the buffer are refused for that reason. */
  lemma {:induction false} InflateTooLong(payloads: seq<seq<byte>>, done: seq<byte>, capacity: nat, limit: nat)
    requires payloads != [] && WellSized(payloads)
    requires capacity < |done + Flatten(payloads)| <= limit
    ensures Inflate(EncodeBlocks(payloads), done, capacity, limit) == Fail(BUFFER_TOO_SMALL)
    decreases |payloads|
  {
    hide *;
    var payload, tail := payloads[0], payloads[1..];
    FirstPayload(payloads);
    var rest := if tail == [] then [] else EncodeBlocks(tail);
    assert StoredBlock(true, payload) + [] == StoredBlock(true, payload);
    if |done| + |payload| > capacity {
      FirstTooLong(tail == [], payload, rest, done, capacity, limit);
    } else {
      InflateFirst(false, payload, rest, done, capacity, limit);
      assert done + payload + Flatten(tail) == done + (payload + Flatten(tail));
      InflateTooLong(tail, done + payload, capacity, limit);
    }
  }

  /** A member within the size limit is answered with its content, or with the one thing that was missing. */
  lemma MemberOutcome(d: seq<byte>, x: seq<byte>, capacity: nat, heapOk: bool)
    requires Member(d, x) && |d| <= MAX_GZIP_BYTES
    ensures GunzipOutcome(Some(d), Writable(capacity), heapOk)
         == if !heapOk then Fail(OUT_OF_MEMORY) else if |x| > capacity then Fail(BUFFER_TOO_SMALL) else Done(x)
  {
    hide Inflate, Trailer, EncodeBlocks, Flatten, Checksum, ReadLe32;
    OutputBound(d, x);
    if |x| <= capacity && heapOk {
      hide GunzipMember;
      MemberIsAccepted(d, x, capacity);
    } else {
      var h, payloads :| MemberOf(d, x, h, payloads);
      var t := |d| - 8;
      assert d[..10] == h && d[10..t] == EncodeBlocks(payloads);
      assert h[..4] == [d[0], d[1], d[2], d[3]];
      if heapOk {
        assert [] + x == x;
        InflateTooLong(payloads, [], capacity, OutputLimit(|d|));
      }
    }
  }

  // ----- the compressor writes the shortest member -----

  lemma FewestBlocks(n: nat, blocks: nat)
    requires blocks >= 1 && n <= STORED_BLOCK * blocks
    ensures BlockCount(n) <= blocks
  {
  }

  lemma GzipIsShortest(x: seq<byte>, d: seq<byte>)
    requires |x| <= MAX_INPUT && Member(d, x)
    ensures |GzipBytes(x)| <= |d|
  {
    hide GzipBytes;
    var h, payloads :| MemberOf(d, x, h, payloads);
    hide EncodeBlocks, Flatten, Trailer, WellSized;
    EncodedSize(payloads);
    FewestBlocks(|x|, |payloads|);
  }

  /** Compression succeeds exactly when the input is within its limit and some member of it fits the buffer. */
  lemma GzipSucceedsIff(x: seq<byte>, capacity: nat, heapOk: bool)
    ensures GzipOutcome(Some(x), Writable(capacity), heapOk).Done?
       <==> |x| <= 1024 * 1024 && heapOk && exists d :: Member(d, x) && |d| <= capacity
  {
    hide GzipBytes, Member;
    if |x| <= MAX_INPUT {
      GzipIsMember(x);
      forall d | Member(d, x)
        ensures |GzipBytes(x)| <= |d|
      {
        GzipIsShortest(x, d);
      }
    }
  }

  /** What it writes is a member of the input, with no time stamp, no extra flags and an unknown system. */
  lemma GzipWrites(x: seq<byte>, capacity: nat, heapOk: bool)
    requires GzipOutcome(Some(x), Writable(capacity), heapOk).Done?
    ensures var d := GzipOutcome(Some(x), Writable(capacity), heapOk).bytes;
            Member(d, x) && |d| >= 23 && LittleEndian(d[4..8]) == 0 && d[8] == 0 && d[9] == 255
  {
    hide Blocks, Member, LittleEndian;
    GzipIsMember(x);
    GzipParts(x, GzipBytes(x));
    var d := GzipBytes(x);
    hide GzipBytes;
    assert d[4..8] == d[..10][4..8] == [0, 0, 0, 0] && d[8] == d[..10][8] && d[9] == d[..10][9];
    NoTime();
  }

  lemma NoTime()
    ensures LittleEndian([0, 0, 0, 0]) == 0
  {
    FourBytes([0, 0, 0, 0]);
  }
}
