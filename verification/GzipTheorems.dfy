/**
  What the codec guarantees: exact acceptance, bounds, the round trip, and the
  detection of damaged members.
 */
module GzipTheorems {
  import opened Options
  import opened Words
  import opened Crc
  import opened Gzip

  // ----- one block -----

  lemma HeaderOfBlock(last: bool, payload: seq<byte>, rest: seq<byte>, produced: nat, capacity: nat, limit: nat)
    requires |payload| <= STORED_BLOCK
    ensures ReadHeader(StoredBlock(last, payload) + rest, produced, capacity, limit)
         == if produced + |payload| > capacity then Bad(BUFFER_TOO_SMALL)
            else if produced + |payload| > limit then Bad(OVERFLOW)
            else Payload(|payload|, last)
    ensures (StoredBlock(last, payload) + rest)[5..5 + |payload|] == payload
    ensures (StoredBlock(last, payload) + rest)[5 + |payload|..] == rest
  {
    hide Xor, WriteLe16, ReadLe16;
    var n := |payload|;
    var body := StoredBlock(last, payload) + rest;
    assert body[1..3] == WriteLe16(n);
    assert body[3..5] == WriteLe16(65535 - n);
    assert body[5..5 + n] == payload;
    Le16RoundTrip(n);
    Le16RoundTrip(65535 - n);
    XorAllOnesIff(n, 65535 - n);
  }

  lemma BlockOfHeader(body: seq<byte>, produced: nat, capacity: nat, limit: nat)
    requires ReadHeader(body, produced, capacity, limit).Payload?
    ensures var h := ReadHeader(body, produced, capacity, limit);
            && h.len <= STORED_BLOCK
            && body == StoredBlock(h.last, body[5..5 + h.len]) + body[5 + h.len..]
  {
    hide Xor, WriteLe16, ReadLe16;
    var h := ReadHeader(body, produced, capacity, limit);
    Le16Inverse(body[1..3]);
    Le16Inverse(body[3..5]);
    XorAllOnesIff(ReadLe16(body[1..3]), ReadLe16(body[3..5]));
    var n := h.len;
    assert body[0] == if h.last then 1 else 0;
    assert body == body[..1] + body[1..3] + body[3..5] + body[5..5 + n] + body[5 + n..];
  }

  // ----- the block loop and the block grammar -----

  lemma {:induction false} InflateSound(body: seq<byte>, done: seq<byte>, capacity: nat, limit: nat)
    returns (payloads: seq<seq<byte>>)
    requires Inflate(body, done, capacity, limit).Done?
    ensures payloads != [] && WellSized(payloads)
    ensures body == EncodeBlocks(payloads)
    ensures Inflate(body, done, capacity, limit) == Done(done + Flatten(payloads))
    decreases |body|
  {
    hide ReadHeader, StoredBlock;
    var h := ReadHeader(body, |done|, capacity, limit);
    BlockOfHeader(body, |done|, capacity, limit);
    var payload, rest := body[5..5 + h.len], body[5 + h.len..];
    if h.last {
      payloads := [payload];
      assert payloads[1..] == [] && payload + [] == payload;
    } else {
      var tail := InflateSound(rest, done + payload, capacity, limit);
      payloads := [payload] + tail;
      assert payloads[1..] == tail;
      assert done + payload + Flatten(tail) == done + (payload + Flatten(tail));
    }
  }

  lemma {:induction false} InflateComplete(payloads: seq<seq<byte>>, done: seq<byte>, capacity: nat, limit: nat)
    requires payloads != [] && WellSized(payloads)
    requires |done + Flatten(payloads)| <= capacity && |done + Flatten(payloads)| <= limit
    ensures Inflate(EncodeBlocks(payloads), done, capacity, limit) == Done(done + Flatten(payloads))
    decreases |payloads|
  {
    hide *;
    var payload, tail := payloads[0], payloads[1..];
    FirstPayload(payloads);
    if tail == [] {
      InflateFirst(true, payload, [], done, capacity, limit);
      assert StoredBlock(true, payload) + [] == StoredBlock(true, payload);
      assert payload + [] == payload;
    } else {
      InflateFirst(false, payload, EncodeBlocks(tail), done, capacity, limit);
      assert done + payload + Flatten(tail) == done + (payload + Flatten(tail));
      InflateComplete(tail, done + payload, capacity, limit);
    }
  }

  lemma FirstPayload(payloads: seq<seq<byte>>)
    requires payloads != [] && WellSized(payloads)
    ensures |payloads[0]| <= STORED_BLOCK && WellSized(payloads[1..])
    ensures Flatten(payloads) == payloads[0] + Flatten(payloads[1..]) && Flatten([]) == []
    ensures payloads[1..] == [] ==> EncodeBlocks(payloads) == StoredBlock(true, payloads[0])
    ensures payloads[1..] != [] ==> EncodeBlocks(payloads) == StoredBlock(false, payloads[0]) + EncodeBlocks(payloads[1..])
  {
    hide StoredBlock;
  }

  /** The decompressor at a block that fits. */
  lemma InflateFirst(last: bool, payload: seq<byte>, rest: seq<byte>, done: seq<byte>, capacity: nat, limit: nat)
    requires |payload| <= STORED_BLOCK && |done| + |payload| <= capacity && |done| + |payload| <= limit
    ensures Inflate(StoredBlock(last, payload) + rest, done, capacity, limit)
         == if !last then Inflate(rest, done + payload, capacity, limit)
            else if rest == [] then Done(done + payload) else Fail(PARSE)
  {
    hide ReadHeader, StoredBlock;
    HeaderOfBlock(last, payload, rest, |done|, capacity, limit);
  }

  // ----- bounds -----

  lemma {:induction false} EncodedSize(payloads: seq<seq<byte>>)
    requires payloads != [] && WellSized(payloads)
    ensures |EncodeBlocks(payloads)| == |Flatten(payloads)| + 5 * |payloads|
    ensures |Flatten(payloads)| <= STORED_BLOCK * |payloads|
  {
    hide StoredBlock;
    if |payloads| > 1 {
      EncodedSize(payloads[1..]);
    } else {
      assert payloads[1..] == [];
    }
  }

  lemma SizeArithmetic(blocks: nat, n: nat, size: nat)
    requires blocks >= 1 && n <= STORED_BLOCK * blocks && size == 18 + n + 5 * blocks
    ensures n + 23 <= size
    ensures size <= MAX_GZIP_BYTES ==> n <= MAX_INPUT
  {
  }

  /** A member no longer than the largest the compressor writes holds at most 1 MiB. */
  lemma OutputBound(d: seq<byte>, x: seq<byte>)
    requires Member(d, x)
    ensures |x| + 23 <= |d|
    ensures |d| <= MAX_GZIP_BYTES ==> |x| <= MAX_INPUT
  {
    var h, payloads :| MemberOf(d, x, h, payloads);
    EncodedSize(payloads);
    SizeArithmetic(|payloads|, |x|, |d|);
  }

  // ----- exact acceptance -----

  lemma TrailerReads(t: seq<byte>, x: seq<byte>)
    requires |t| == 8 && |x| < 0x1_0000_0000
    ensures t == Trailer(x) <==> ReadLe32(t[4..]) == |x| && ReadLe32(t[..4]) == Checksum(x)
  {
    hide Checksum, WriteLe32, ReadLe32;
    Le32RoundTrip(Checksum(x));
    Le32RoundTrip(|x|);
    Le32Inverse(t[..4]);
    Le32Inverse(t[4..]);
    assert t == t[..4] + t[4..];
  }

  /** The decompressor's tests, with the trailer compared as a whole. */
  lemma MemberTests(d: seq<byte>, capacity: nat, heapOk: bool)
    requires |d| <= MAX_GZIP_BYTES
    ensures GunzipMember(d, capacity, heapOk).Done?
       <==> && |d| >= 23 && FlaglessHeader(d[..10]) && heapOk
            && var r := Inflate(d[10..|d| - 8], [], capacity, OutputLimit(|d|));
               r.Done? && d[|d| - 8..] == Trailer(r.bytes)
    ensures GunzipMember(d, capacity, heapOk).Done?
        ==> GunzipMember(d, capacity, heapOk) == Inflate(d[10..|d| - 8], [], capacity, OutputLimit(|d|))
  {
    hide Inflate, Checksum, ReadLe32, Trailer;
    if |d| >= 23 {
      var t := |d| - 8;
      assert d[t..][..4] == d[t..t + 4] && d[t..][4..] == d[t + 4..];
      assert d[..10][..4] == [d[0], d[1], d[2], d[3]];
      var r := Inflate(d[10..t], [], capacity, OutputLimit(|d|));
      if r.Done? {
        TrailerReads(d[t..], r.bytes);
      }
    }
  }

  lemma AcceptedIsMember(d: seq<byte>, capacity: nat, heapOk: bool)
    requires |d| <= MAX_GZIP_BYTES
    requires GunzipMember(d, capacity, heapOk).Done?
    ensures Member(d, GunzipMember(d, capacity, heapOk).bytes)
    ensures |GunzipMember(d, capacity, heapOk).bytes| <= capacity && heapOk
  {
    hide Inflate, Trailer, GunzipMember, EncodeBlocks, Flatten;
    MemberTests(d, capacity, heapOk);
    var body := d[10..|d| - 8];
    var payloads := InflateSound(body, [], capacity, OutputLimit(|d|));
    var x := Flatten(payloads);
    assert [] + x == x;
    assert d == d[..10] + body + d[|d| - 8..];
    assert MemberOf(d, x, d[..10], payloads);
  }

  lemma MemberIsAccepted(d: seq<byte>, x: seq<byte>, capacity: nat)
    requires Member(d, x) && |d| <= MAX_GZIP_BYTES && |x| <= capacity
    ensures GunzipMember(d, capacity, true) == Done(x)
  {
    hide Inflate, Trailer, GunzipMember, EncodeBlocks, Flatten;
    OutputBound(d, x);
    var h, payloads :| MemberOf(d, x, h, payloads);
    var t := |d| - 8;
    assert d[..10] == h;
    assert d[10..t] == EncodeBlocks(payloads);
    assert d[t..] == Trailer(x);
    assert [] + x == x;
    InflateComplete(payloads, [], capacity, OutputLimit(|d|));
    MemberTests(d, capacity, true);
  }

  /** Acceptance, exactly: a flagless stored-block member of bounded size that fits the buffer. */
  lemma AcceptsIff(d: seq<byte>, x: seq<byte>, capacity: nat, heapOk: bool)
    ensures GunzipOutcome(Some(d), Writable(capacity), heapOk) == Done(x)
       <==> Member(d, x) && |d| <= MAX_GZIP_BYTES && |x| <= capacity && heapOk
  {
    hide GunzipMember;
    if |d| <= MAX_GZIP_BYTES {
      if GunzipMember(d, capacity, heapOk).Done? {
        AcceptedIsMember(d, capacity, heapOk);
      }
      if Member(d, x) && |x| <= capacity && heapOk {
        MemberIsAccepted(d, x, capacity);
      }
    }
  }

  /** With room for the whole body, the block loop never reports OVERFLOW. */
  lemma {:induction false} RatioGuardIdle(body: seq<byte>, done: seq<byte>, capacity: nat, limit: nat)
    requires |done| + |body| <= limit
    ensures Inflate(body, done, capacity, limit) != Fail(OVERFLOW)
    decreases |body|
  {
    var h := ReadHeader(body, |done|, capacity, limit);
    if h.Payload? {
      RatioGuardIdle(body[5 + h.len..], done + body[5..5 + h.len], capacity, limit);
    }
  }

  /** The ratio and 4 MiB guard is dead code for every input the size test lets through. */
  lemma GuardNeverFires(d: seq<byte>, capacity: nat, heapOk: bool)
    requires |d| <= MAX_GZIP_BYTES
    ensures GunzipMember(d, capacity, heapOk) != Fail(OVERFLOW)
  {
    hide Inflate, Checksum, ReadLe32;
    if |d| >= 23 {
      RatioGuardIdle(d[10..|d| - 8], [], capacity, OutputLimit(|d|));
    }
  }

  // ----- the round trip -----

  lemma {:induction false} BlocksAreEncoded(x: seq<byte>) returns (payloads: seq<seq<byte>>)
    ensures payloads != [] && WellSized(payloads)
    ensures Blocks(x) == EncodeBlocks(payloads) && x == Flatten(payloads)
    decreases |x|
  {
    hide StoredBlock;
    if |x| <= STORED_BLOCK {
      payloads := [x];
      assert payloads[1..] == [] && x + [] == x;
    } else {
      var tail := BlocksAreEncoded(x[STORED_BLOCK..]);
      payloads := [x[..STORED_BLOCK]] + tail;
      assert payloads[1..] == tail;
    }
  }

  lemma GzipIsMember(x: seq<byte>)
    requires |x| <= MAX_INPUT
    ensures Member(GzipBytes(x), x) && |GzipBytes(x)| <= MAX_GZIP_BYTES
  {
    hide Blocks, Trailer, BlockCount, Flatten, EncodeBlocks;
    GzipSize(|x|);
    var payloads := BlocksAreEncoded(x);
    assert MemberOf(GzipBytes(x), x, HEADER, payloads);
  }

  /** gunzip(gzip(x)) = x, for every input and capacities on which both calls have room. */
  lemma RoundTrip(x: seq<byte>, gzipCapacity: nat, gunzipCapacity: nat)
    requires |x| <= MAX_INPUT
    requires |x| + 5 * BlockCount(|x|) + 18 <= gzipCapacity && |x| <= gunzipCapacity
    ensures var z := GzipOutcome(Some(x), Writable(gzipCapacity), true);
            z.Done? && GunzipOutcome(Some(z.bytes), Writable(gunzipCapacity), true) == Done(x)
  {
    hide GzipBytes, GunzipOutcome, Member;
    GzipIsMember(x);
    AcceptsIff(GzipBytes(x), x, gunzipCapacity, true);
  }

  /** Whatever gunzip accepts can be compressed again, and comes back the same. */
  lemma Recompressible(d: seq<byte>, capacity: nat, heapOk: bool)
    requires GunzipOutcome(Some(d), Writable(capacity), heapOk).Done?
    ensures var x := GunzipOutcome(Some(d), Writable(capacity), heapOk).bytes;
            && |x| <= MAX_INPUT
            && GzipOutcome(Some(x), Writable(MAX_GZIP_BYTES), true).Done?
            && GunzipOutcome(Some(GzipBytes(x)), Writable(capacity), true) == Done(x)
  {
    hide GunzipOutcome, GzipBytes, Member;
    var x := GunzipOutcome(Some(d), Writable(capacity), heapOk).bytes;
    AcceptsIff(d, x, capacity, heapOk);
    OutputBound(d, x);
    GzipIsMember(x);
    AcceptsIff(GzipBytes(x), x, capacity, true);
  }

  // ----- damage -----

  /** A stored block with one byte replaced, read in front of `rest`. */
  lemma DamagedHeader(last: bool, payload: seq<byte>, rest: seq<byte>, k: nat, v: byte,
                      produced: nat, capacity: nat, limit: nat)
    requires |payload| <= STORED_BLOCK && k < 5 && v != StoredBlock(last, payload)[k]
    ensures var h := ReadHeader((StoredBlock(last, payload) + rest)[k := v], produced, capacity, limit);
            h.Bad? || (k == 0 && h == Payload(|payload|, !last))
  {
    hide *;
    var body := (StoredBlock(last, payload) + rest)[k := v];
    var h := ReadHeader(body, produced, capacity, limit);
    if h.Payload? {
      BlockOfHeader(body, produced, capacity, limit);
      DamagedFields(last, payload, rest, k, v, h.len, h.last, body[5..5 + h.len], body[5 + h.len..]);
    }
  }

  lemma DamagedFields(last: bool, payload: seq<byte>, rest: seq<byte>, k: nat, v: byte,
                      len: nat, last': bool, payload': seq<byte>, rest': seq<byte>)
    requires |payload| <= STORED_BLOCK && k < 5 && v != StoredBlock(last, payload)[k]
    requires |payload'| == len <= STORED_BLOCK
    requires (StoredBlock(last, payload) + rest)[k := v] == StoredBlock(last', payload') + rest'
    ensures k == 0 && len == |payload| && last' == !last
  {
    hide WriteLe16, ReadLe16;
    var n := |payload|;
    var s, t := StoredBlock(last, payload) + rest, StoredBlock(last', payload') + rest';
    assert s[1..3] == WriteLe16(n) && t[1..3] == WriteLe16(len);
    assert s[3..5] == WriteLe16(65535 - n) && t[3..5] == WriteLe16(65535 - len);
    if 1 <= k < 3 {
      assert t[3..5] == s[3..5];
      Le16RoundTrip(65535 - n);
      Le16RoundTrip(65535 - len);
      assert false;
    } else {
      assert t[1..3] == s[1..3];
      Le16RoundTrip(n);
      Le16RoundTrip(len);
      if k >= 3 {
        assert false;
      }
      assert t[0] == v;
    }
  }

  /** The first block of what the compressor writes, and the blocks after it. */
  lemma FirstBlock(x: seq<byte>) returns (last: bool, n: nat, rest: seq<byte>)
    ensures last == (|x| <= STORED_BLOCK) && n == if last then |x| else STORED_BLOCK
    ensures rest == if last then [] else Blocks(x[n..])
    ensures Blocks(x) == StoredBlock(last, x[..n]) + rest
    ensures last <==> rest == []
  {
    hide StoredBlock;
    last := |x| <= STORED_BLOCK;
    n := if last then |x| else STORED_BLOCK;
    rest := if last then [] else Blocks(x[n..]);
    assert x[..|x|] == x;
  }

  /** Reading undamaged blocks can only fail for room. */
  lemma {:induction false} InflateOwn(x: seq<byte>, done: seq<byte>, capacity: nat, limit: nat)
    ensures Inflate(Blocks(x), done, capacity, limit).Done?
        ==> Inflate(Blocks(x), done, capacity, limit) == Done(done + x)
    decreases |x|
  {
    hide StoredBlock, ReadHeader, Blocks;
    var last, n, rest := FirstBlock(x);
    HeaderOfBlock(last, x[..n], rest, |done|, capacity, limit);
    if last {
      assert x[..n] == x;
    } else {
      assert done + x[..n] + x[n..] == done + x;
      InflateOwn(x[n..], done + x[..n], capacity, limit);
    }
  }

  lemma DamagedHead(x: seq<byte>, k: nat, v: byte, done: seq<byte>, capacity: nat, limit: nat)
    requires k < 5 && v != Blocks(x)[k]
    ensures Inflate(Blocks(x)[k := v], done, capacity, limit).Fail?
  {
    var last, n, rest := FirstBlock(x);
    hide StoredBlock, ReadHeader, Blocks;
    DamagedHeader(last, x[..n], rest, k, v, |done|, capacity, limit);
    var body := Blocks(x)[k := v];
    var h := ReadHeader(body, |done|, capacity, limit);
    if h.Payload? && last {
      assert body[5 + n..] == [];
      EmptyHeader(|done| + n, capacity, limit);
    }
  }

  lemma PayloadUpdate(last: bool, payload: seq<byte>, rest: seq<byte>, i: nat, v: byte)
    requires i < |payload| <= STORED_BLOCK
    ensures (StoredBlock(last, payload) + rest)[5 + i] == payload[i]
    ensures (StoredBlock(last, payload) + rest)[5 + i := v] == StoredBlock(last, payload[i := v]) + rest
  {
    hide WriteLe16;
    var head := [if last then 1 else 0] + WriteLe16(|payload|) + WriteLe16(65535 - |payload|);
    assert StoredBlock(last, payload) + rest == head + payload + rest;
    assert StoredBlock(last, payload[i := v]) + rest == head + payload[i := v] + rest;
  }

  lemma DamagedPayload(x: seq<byte>, i: nat, v: byte, done: seq<byte>, capacity: nat, limit: nat)
    requires i < |x| && i < STORED_BLOCK
    ensures 5 + i < |Blocks(x)| && Blocks(x)[5 + i] == x[i]
    ensures var r := Inflate(Blocks(x)[5 + i := v], done, capacity, limit);
            r.Done? ==> r.bytes == done + x[i := v]
  {
    hide StoredBlock, ReadHeader, Blocks;
    var last, n, rest := FirstBlock(x);
    var p := x[..n][i := v];
    PayloadUpdate(last, x[..n], rest, i, v);
    HeaderOfBlock(last, p, rest, |done|, capacity, limit);
    if last {
      assert p == x[i := v];
    } else {
      InflateOwn(x[n..], done + p, capacity, limit);
      assert done + p + x[n..] == done + x[i := v];
    }
  }

  lemma InflateAfterBlock(payload: seq<byte>, rest: seq<byte>, done: seq<byte>, capacity: nat, limit: nat)
    requires |payload| <= STORED_BLOCK
    ensures var r := Inflate(StoredBlock(false, payload) + rest, done, capacity, limit);
            r.Done? ==> r == Inflate(rest, done + payload, capacity, limit)
  {
    hide StoredBlock, ReadHeader;
    HeaderOfBlock(false, payload, rest, |done|, capacity, limit);
  }

  /** One damaged byte among the blocks is rejected, or is one damaged byte of the content. */
  lemma {:induction false} DamagedBlocks(x: seq<byte>, k: nat, v: byte, done: seq<byte>, capacity: nat, limit: nat)
    returns (y: seq<byte>, j: nat)
    requires k < |Blocks(x)| && v != Blocks(x)[k]
    ensures var r := Inflate(Blocks(x)[k := v], done, capacity, limit);
            r.Done? ==> r.bytes == done + y && y != x && AgreeOutside(x, y, j)
    decreases |x|
  {
    hide StoredBlock, ReadHeader, Blocks, Inflate;
    y, j := [], 0;
    var last, n, rest := FirstBlock(x);
    if k < 5 {
      DamagedHead(x, k, v, done, capacity, limit);
    } else if k < 5 + n {
      j := k - 5;
      DamagedPayload(x, j, v, done, capacity, limit);
      y := x[j := v];
      assert y[j] == v;
    } else {
      var i := k - 5 - n;
      assert Blocks(x)[k := v] == StoredBlock(last, x[..n]) + rest[i := v];
      InflateAfterBlock(x[..n], rest[i := v], done, capacity, limit);
      var z, m := DamagedBlocks(x[n..], i, v, done + x[..n], capacity, limit);
      y, j := x[..n] + z, n + m;
      assert done + x[..n] + z == done + y;
      assert y[n..] == z && x == x[..n] + x[n..];
    }
  }

  lemma TrailersAgree(x: seq<byte>, y: seq<byte>)
    requires |x| < 0x1_0000_0000 && |y| < 0x1_0000_0000
    ensures Trailer(x) == Trailer(y) <==> |x| == |y| && Checksum(x) == Checksum(y)
  {
    hide Checksum, Trailer, ReadLe32;
    TrailerReads(Trailer(x), x);
    TrailerReads(Trailer(x), y);
  }

  lemma Parts(a: seq<byte>, b: seq<byte>, c: seq<byte>, d: seq<byte>)
    requires d == a + b + c
    ensures |d| == |a| + |b| + |c|
    ensures d[..|a|] == a && d[|a|..|a| + |b|] == b && d[|a| + |b|..] == c
  {
  }

  lemma GzipSize(n: nat)
    requires n <= MAX_INPUT
    ensures 1 <= BlockCount(n) && 18 + n + 5 * BlockCount(n) <= MAX_GZIP_BYTES
  {
  }

  lemma GzipParts(x: seq<byte>, d: seq<byte>)
    requires |x| <= MAX_INPUT && d == GzipBytes(x)
    ensures 23 <= |d| <= MAX_GZIP_BYTES
    ensures d[..10] == HEADER && d[10..|d| - 8] == Blocks(x) && d[|d| - 8..] == Trailer(x)
  {
    hide Blocks, Trailer, BlockCount;
    GzipSize(|x|);
    Parts(HEADER, Blocks(x), Trailer(x), d);
  }

  lemma DamagedMember(x: seq<byte>, p: nat, v: byte, capacity: nat, heapOk: bool)
    requires |x| <= MAX_INPUT && p < |GzipBytes(x)|
    requires !(4 <= p < 10) && v != GzipBytes(x)[p]
    ensures GunzipMember(GzipBytes(x)[p := v], capacity, heapOk).Fail?
  {
    hide GzipBytes, Inflate, Blocks, Trailer, Checksum, GunzipMember, BlockCount;
    var d := GzipBytes(x);
    var e, t := d[p := v], |d| - 8;
    GzipParts(x, d);
    MemberTests(e, capacity, heapOk);
    if p < 10 {
      assert e[..10][p] == v && d[..10][p] == d[p];
    } else if p < t {
      assert e[10..t] == d[10..t][p - 10 := v] && e[t..] == d[t..];
      DamagedContent(x, p - 10, v, capacity, OutputLimit(|d|));
    } else {
      assert e[10..t] == d[10..t] && e[t..][p - t] == v && d[t..][p - t] == d[p];
      InflateOwn(x, [], capacity, OutputLimit(|d|));
      assert [] + x == x;
    }
  }

  lemma DamagedContent(x: seq<byte>, k: nat, v: byte, capacity: nat, limit: nat)
    requires |x| <= MAX_INPUT && limit <= MAX_OUTPUT
    requires k < |Blocks(x)| && v != Blocks(x)[k]
    ensures var r := Inflate(Blocks(x)[k := v], [], capacity, limit);
            r.Done? ==> Trailer(r.bytes) != Trailer(x)
  {
    hide Inflate, Blocks, Trailer, Checksum;
    var y, j := DamagedBlocks(x, k, v, [], capacity, limit);
    assert [] + y == y;
    var r := Inflate(Blocks(x)[k := v], [], capacity, limit);
    if r.Done? && Trailer(y) == Trailer(x) {
      FourBytes(x, y, j);
      BurstDetected(x, y, 8 * j);
      TrailersAgree(x, y);
    }
  }

  /** Time stamp, extra flags and system are not looked at. */
  lemma FreeHeaderByte(x: seq<byte>, p: nat, v: byte, capacity: nat)
    requires |x| <= MAX_INPUT && 4 <= p < 10 && |x| <= capacity
    ensures GunzipMember(GzipBytes(x)[p := v], capacity, true) == Done(x)
  {
    hide *;
    var d := GzipBytes(x);
    GzipParts(x, d);
    var payloads := BlocksAreEncoded(x);
    HeaderByte(d, p, v);
    FreeHeader(d[..10], p, v);
    MemberParts(d[p := v], x, d[..10][p := v], payloads);
    MemberIsAccepted(d[p := v], x, capacity);
  }

  lemma HeaderByte(d: seq<byte>, p: nat, v: byte)
    requires p < 10 && |d| >= 18
    ensures d[p := v] == d[..10][p := v] + d[10..|d| - 8] + d[|d| - 8..] && |d[p := v]| == |d|
  {
  }

  lemma FreeHeader(head: seq<byte>, p: nat, v: byte)
    requires head == HEADER && 4 <= p < 10
    ensures |head| == 10 && FlaglessHeader(head[p := v])
  {
  }

  lemma MemberParts(e: seq<byte>, x: seq<byte>, head: seq<byte>, payloads: seq<seq<byte>>)
    requires |x| <= MAX_INPUT && FlaglessHeader(head) && payloads != [] && WellSized(payloads) && Flatten(payloads) == x
    requires e == head + EncodeBlocks(payloads) + Trailer(x)
    ensures Member(e, x)
  {
    hide FlaglessHeader, WellSized, Flatten, EncodeBlocks, Trailer;
    assert MemberOf(e, x, head, payloads);
  }

  /**
    One damaged byte: the member is still accepted exactly when the byte is one of
    the six header bytes the format leaves free (and the content still has room).
   */
  lemma SingleByteDamage(x: seq<byte>, p: nat, v: byte, capacity: nat, heapOk: bool)
    requires |x| <= MAX_INPUT && p < |GzipBytes(x)| && v != GzipBytes(x)[p]
    ensures GunzipOutcome(Some(GzipBytes(x)[p := v]), Writable(capacity), heapOk).Done?
       <==> 4 <= p < 10 && |x| <= capacity && heapOk
  {
    hide GzipBytes, GunzipMember, Member;
    var d := GzipBytes(x);
    var e := d[p := v];
    GzipParts(x, d);
    if !(4 <= p < 10) {
      DamagedMember(x, p, v, capacity, heapOk);
    } else {
      var room := |x| + capacity;
      FreeHeaderByte(x, p, v, room);
      AcceptsIff(e, x, room, true);
      AcceptsIff(e, x, capacity, heapOk);
      AcceptedAlike(e, x, capacity, heapOk);
    }
  }

  /** Acceptance determines the content. */
  lemma AcceptedAlike(d: seq<byte>, x: seq<byte>, capacity: nat, heapOk: bool)
    requires Member(d, x)
    ensures GunzipOutcome(Some(d), Writable(capacity), heapOk).Done?
        ==> GunzipOutcome(Some(d), Writable(capacity), heapOk) == Done(x)
  {
    hide GunzipOutcome, Member;
    var r := GunzipOutcome(Some(d), Writable(capacity), heapOk);
    if r.Done? {
      var room := |x| + capacity;
      AcceptsIff(d, r.bytes, capacity, heapOk);
      AcceptsIff(d, r.bytes, room, true);
      AcceptsIff(d, x, room, true);
    }
  }

  /**
    Content replaced under an unchanged trailer is accepted exactly when length and
    checksum agree; so a change within 32 consecutive content bits never is.
   */
  lemma ForgedContent(x: seq<byte>, y: seq<byte>, capacity: nat)
    requires |x| <= MAX_INPUT && |y| <= MAX_INPUT && |y| <= capacity
    ensures GunzipOutcome(Some(HEADER + Blocks(y) + Trailer(x)), Writable(capacity), true).Done?
       <==> |x| == |y| && Checksum(x) == Checksum(y)
    ensures |x| == |y| && x != y && (exists i: nat :: AgreeOutsideBits(x, y, i))
        ==> GunzipOutcome(Some(HEADER + Blocks(y) + Trailer(x)), Writable(capacity), true).Fail?
  {
    hide Blocks, Trailer, GunzipMember, Checksum, BlockCount;
    GzipSize(|y|);
    var d := HEADER + Blocks(y) + Trailer(x);
    Parts(HEADER, Blocks(y), Trailer(x), d);
    ForgedTests(d, x, y, capacity);
    if i: nat :| x != y && AgreeOutsideBits(x, y, i) {
      BurstDetected(x, y, i);
    }
  }

  lemma ForgedTests(d: seq<byte>, x: seq<byte>, y: seq<byte>, capacity: nat)
    requires |x| <= MAX_INPUT && |y| <= MAX_INPUT && |y| <= capacity
    requires |d| == |GzipBytes(y)|
    requires d[..10] == HEADER && d[10..|d| - 8] == Blocks(y) && d[|d| - 8..] == Trailer(x)
    ensures GunzipMember(d, capacity, true).Done? <==> |x| == |y| && Checksum(x) == Checksum(y)
  {
    hide Inflate, Blocks, Checksum, GunzipMember, Trailer, GzipBytes, BlockCount, EncodeBlocks, Flatten;
    GzipSize(|y|);
    MemberTests(d, capacity, true);
    var payloads := BlocksAreEncoded(y);
    InflateComplete(payloads, [], capacity, OutputLimit(|d|));
    assert [] + y == y;
    TrailersAgree(x, y);
  }

  // ----- truncation and trailing bytes -----

  lemma {:induction false} BlocksPrefixFree(ps: seq<seq<byte>>, qs: seq<seq<byte>>, rest: seq<byte>)
    requires ps != [] && WellSized(ps) && qs != [] && WellSized(qs)
    requires EncodeBlocks(ps) + rest == EncodeBlocks(qs)
    ensures rest == []
    decreases |ps|
  {
    hide StoredBlock, ReadHeader;
    var body := EncodeBlocks(qs);
    var n := |body|;
    var ps', qs' := ps[1..], qs[1..];
    var restP := if |ps| == 1 then rest else EncodeBlocks(ps') + rest;
    var restQ := if |qs| == 1 then [] else EncodeBlocks(qs');
    assert body == StoredBlock(|ps| == 1, ps[0]) + restP;
    assert body == StoredBlock(|qs| == 1, qs[0]) + restQ;
    HeaderOfBlock(|ps| == 1, ps[0], restP, 0, 65535, 65535);
    HeaderOfBlock(|qs| == 1, qs[0], restQ, 0, 65535, 65535);
    assert restP == restQ;
    if |ps| > 1 {
      BlocksPrefixFree(ps', qs', rest);
    }
  }

  /** No member is a proper prefix of another: truncation and trailing bytes are always rejected. */
  lemma MembersPrefixFree(d: seq<byte>, x: seq<byte>, extra: seq<byte>, y: seq<byte>)
    requires Member(d, x) && Member(d + extra, y)
    ensures extra == []
  {
    hide Trailer, EncodeBlocks, Flatten;
    var g, ps :| MemberOf(d, x, g, ps);
    var h, qs :| MemberOf(d + extra, y, h, qs);
    var m, n := |EncodeBlocks(ps)|, |EncodeBlocks(qs)|;
    var e := d + extra;
    assert n == m + |extra|;
    assert e[10..10 + n] == EncodeBlocks(qs);
    assert e[10..10 + m] == d[10..10 + m] == EncodeBlocks(ps);
    assert EncodeBlocks(ps) + e[10 + m..10 + n] == EncodeBlocks(qs);
    BlocksPrefixFree(ps, qs, e[10 + m..10 + n]);
  }
}
