/**
  The stored-block gzip codec: a compressor that never compresses, and a strict
  decompressor for the members it (and any other stored-block writer) produces.

  `Gzip` and `Gunzip` are the two C entry points, working through cursors on a
  scratch array. `GzipOutcome` and `GunzipOutcome` say what each call returns;
  `Member` is the file format itself, from section 2.3 of RFC 1952 and section
  3.2.4 of RFC 1951, defined without reference to either entry point.
 */
module Gzip {
  import opened Options
  import opened Words
  import opened Crc

  const OK := 0
  const INVALID_ARGUMENT := 2
  const INVALID_HANDLE := 3
  const BUFFER_TOO_SMALL := 4
  const UNSUPPORTED := 8
  const PARSE := 10
  const OVERFLOW := 13
  const OUT_OF_MEMORY := 14

  const MAX_INPUT := 1024 * 1024
  const MAX_OUTPUT := 4 * 1024 * 1024
  const STORED_BLOCK := 65535
  const MAX_BLOCKS := (MAX_INPUT + STORED_BLOCK - 1) / STORED_BLOCK
  const MAX_GZIP_BYTES := 10 + MAX_INPUT + MAX_BLOCKS * 5 + 8

  datatype Outcome = Fail(code: int) | Done(bytes: seq<byte>)

  /** What the output buffer offers: a refusal, or a number of writable bytes. */
  datatype Capacity = Refused(code: int) | Writable(size: nat)

  // ----- the format -----

  function StoredBlock(last: bool, payload: seq<byte>): (s: seq<byte>)
    requires |payload| <= STORED_BLOCK
    ensures |s| == 5 + |payload|
  {
    [if last then 1 else 0] + WriteLe16(|payload|) + WriteLe16(65535 - |payload|) + payload
  }

  ghost predicate WellSized(payloads: seq<seq<byte>>)
  {
    forall p <- payloads :: |p| <= STORED_BLOCK
  }

  /** Stored blocks for the payloads, only the last one marked final. */
  ghost function EncodeBlocks(payloads: seq<seq<byte>>): seq<byte>
    requires payloads != [] && WellSized(payloads)
  {
    if |payloads| == 1 then StoredBlock(true, payloads[0])
    else StoredBlock(false, payloads[0]) + EncodeBlocks(payloads[1..])
  }

  ghost function Flatten(payloads: seq<seq<byte>>): seq<byte>
  {
    if payloads == [] then [] else payloads[0] + Flatten(payloads[1..])
  }

  /** Magic number, method 8, no flags; time stamp, extra flags and system are free. */
  predicate FlaglessHeader(h: seq<byte>)
  {
    |h| == 10 && h[..4] == [0x1f, 0x8b, 0x08, 0x00]
  }

  function Trailer(x: seq<byte>): (t: seq<byte>)
    requires |x| < 0x1_0000_0000
    ensures |t| == 8
  {
    WriteLe32(Checksum(x)) + WriteLe32(|x|)
  }

  /** `d` is a flagless gzip member of stored blocks whose content is `x`. */
  ghost predicate Member(d: seq<byte>, x: seq<byte>)
  {
    exists h, payloads :: MemberOf(d, x, h, payloads)
  }

  ghost predicate MemberOf(d: seq<byte>, x: seq<byte>, h: seq<byte>, payloads: seq<seq<byte>>)
  {
    && FlaglessHeader(h)
    && payloads != [] && WellSized(payloads)
    && x == Flatten(payloads) && |x| < 0x1_0000_0000
    && d == h + EncodeBlocks(payloads) + Trailer(x)
  }

  // ----- what the compressor writes -----

  const HEADER: seq<byte> := [0x1f, 0x8b, 0x08, 0x00, 0, 0, 0, 0, 0x00, 0xff]

  function Blocks(x: seq<byte>): (s: seq<byte>)
    ensures |s| == |x| + 5 * BlockCount(|x|)
  {
    if |x| <= STORED_BLOCK then StoredBlock(true, x)
    else
      assert BlockCount(|x|) == 1 + BlockCount(|x| - STORED_BLOCK);
      StoredBlock(false, x[..STORED_BLOCK]) + Blocks(x[STORED_BLOCK..])
  }

  function BlockCount(n: nat): nat
  {
    if n == 0 then 1 else (n + STORED_BLOCK - 1) / STORED_BLOCK
  }

  function GzipBytes(x: seq<byte>): (d: seq<byte>)
    requires |x| <= MAX_INPUT
    ensures |d| == 10 + |x| + 5 * BlockCount(|x|) + 8
  {
    HEADER + Blocks(x) + Trailer(x)
  }

  function GzipOutcome(data: Option<seq<byte>>, capacity: Capacity, heapOk: bool): Outcome
  {
    if data.None? then Fail(INVALID_ARGUMENT)
    else if |data.value| > MAX_INPUT then Fail(OVERFLOW)
    else if capacity.Refused? then Fail(capacity.code)
    else if |GzipBytes(data.value)| > capacity.size then Fail(BUFFER_TOO_SMALL)
    else if !heapOk then Fail(OUT_OF_MEMORY)
    else Done(GzipBytes(data.value))
  }

  // ----- what the decompressor accepts -----

  /** What the decompressor makes of the next block: a status, or a payload to copy. */
  datatype BlockHeader = Bad(code: int) | Payload(len: nat, last: bool)

  function ReadHeader(body: seq<byte>, produced: nat, capacity: nat, limit: nat): (h: BlockHeader)
    ensures h.Payload? ==> 5 + h.len <= |body| && produced + h.len <= capacity && produced + h.len <= limit
    ensures h.Bad? ==> h.code != OK
  {
    if body == [] then Bad(PARSE)
    else if body[0] / 2 % 4 != 0 || body[0] / 8 != 0 then Bad(UNSUPPORTED)
    else if |body| < 5 then Bad(PARSE)
    else
      var len, nlen := ReadLe16(body[1..3]), ReadLe16(body[3..5]);
      if Xor(len, nlen) != 0xffff || 5 + len > |body| then Bad(PARSE)
      else if produced + len > capacity then Bad(BUFFER_TOO_SMALL)
      else if produced + len > limit then Bad(OVERFLOW)
      else Payload(len, body[0] % 2 != 0)
  }

  /** The block loop on the bytes between header and trailer, with `done` already produced. */
  function Inflate(body: seq<byte>, done: seq<byte>, capacity: nat, limit: nat): (r: Outcome)
    ensures r.Done? ==> |r.bytes| <= capacity && |r.bytes| <= limit
    ensures r.Fail? ==> r.code != OK
  {
    match ReadHeader(body, |done|, capacity, limit)
    case Bad(code) => Fail(code)
    case Payload(len, last) =>
      var next := done + body[5..5 + len];
      if !last then Inflate(body[5 + len..], next, capacity, limit)
      else if 5 + len == |body| then Done(next)
      else Fail(PARSE)
  }

  function OutputLimit(n: nat): nat
  {
    if n * 4 < MAX_OUTPUT then n * 4 else MAX_OUTPUT
  }

  function GunzipMember(d: seq<byte>, capacity: nat, heapOk: bool): Outcome
  {
    if |d| < 23 || d[0] != 0x1f || d[1] != 0x8b then Fail(PARSE)
    else if d[2] != 0x08 then Fail(UNSUPPORTED)
    else if d[3] != 0x00 then Fail(UNSUPPORTED)
    else if !heapOk then Fail(OUT_OF_MEMORY)
    else
      var trailer := |d| - 8;
      var r := Inflate(d[10..trailer], [], capacity, OutputLimit(|d|));
      if r.Fail? then r
      else if |r.bytes| % 0x1_0000_0000 != ReadLe32(d[trailer + 4..]) then Fail(PARSE)
      else if Checksum(r.bytes) != ReadLe32(d[trailer..trailer + 4]) then Fail(PARSE)
      else r
  }

  function GunzipOutcome(data: Option<seq<byte>>, capacity: Capacity, heapOk: bool): Outcome
  {
    if data.None? then Fail(INVALID_ARGUMENT)
    else if |data.value| > MAX_GZIP_BYTES then Fail(OVERFLOW)
    else if capacity.Refused? then Fail(capacity.code)
    else GunzipMember(data.value, capacity.size, heapOk)
  }

  // ----- the entry points -----

  /** A caller's output buffer: `used` bytes of it are meaningful. */
  class FfiBuffer {
    const bytes: array<byte>
    var used: nat

    ghost predicate Valid()
      reads this
    {
      used <= bytes.Length
    }

    ghost function Contents(): seq<byte>
      requires Valid()
      reads this, bytes
    {
      bytes[..used]
    }

    constructor (capacity: nat)
      ensures Valid() && bytes.Length == capacity && Contents() == []
    {
      bytes := new byte[capacity];
      used := 0;
    }
  }

  /** `memcpy`, and the little-endian writers: replaces the bytes from `at` on. */
  method Put(buffer: array<byte>, at: nat, src: seq<byte>)
    requires at + |src| <= buffer.Length
    modifies buffer
    ensures buffer[..at + |src|] == old(buffer[..at]) + src
    ensures buffer[at + |src|..] == old(buffer[at + |src|..])
  {
    forall i | 0 <= i < |src| {
      buffer[at + i] := src[i];
    }
  }

  /** The bytes a call may read, or None when the source rejects the pointer and length. */
  function Input(data: array?<byte>, dataLen: int): Option<seq<byte>>
    requires data != null && dataLen > 0 ==> dataLen <= data.Length
    reads data
  {
    if dataLen < 0 || (dataLen > 0 && data == null) then None
    else if dataLen == 0 then Some([])
    else Some(data[..dataLen])
  }

  function OutputCapacity(out: FfiBuffer?, outCapacity: int): Capacity
  {
    if out == null then Refused(INVALID_HANDLE)
    else if outCapacity < 0 then Refused(INVALID_ARGUMENT)
    else if outCapacity < out.bytes.Length then Writable(outCapacity)
    else Writable(out.bytes.Length)
  }

  class Runtime {
    var lastError: int

    constructor ()
      ensures lastError == OK
    {
      lastError := OK;
    }

    /** A call that ended in `o`: the status, and the buffer only written on success. */
    twostate predicate Returned(o: Outcome, r: int, out: FfiBuffer?)
      reads this, out, if out == null then {} else {out.bytes}
    {
      && (out != null ==> out.Valid())
      && match o
         case Fail(code) =>
           && r == -code && lastError == code
           && (out != null ==> unchanged(out) && unchanged(out.bytes))
         case Done(bytes) =>
           && r == |bytes| && lastError == OK
           && out != null && out.Contents() == bytes
           && out.bytes[|bytes|..] == old(out.bytes[|bytes|..])
    }

    method Fail(code: int) returns (r: int)
      modifies this
      ensures lastError == code && r == -code
    {
      lastError := code;
      r := -code;
    }

    method Gzip(data: array?<byte>, dataLen: int, out: FfiBuffer?, outCapacity: int, heapOk: bool)
      returns (r: int)
      requires data != null && dataLen > 0 ==> dataLen <= data.Length
      requires out != null ==> out.Valid()
      modifies this, out, if out == null then {} else {out.bytes}
      ensures Returned(old(GzipOutcome(Input(data, dataLen), OutputCapacity(out, outCapacity), heapOk)), r, out)
    {
      hide GzipBytes;
      if dataLen < 0 || (dataLen > 0 && data == null) {
        r := Fail(INVALID_ARGUMENT);
        return;
      }
      if dataLen > MAX_INPUT {
        r := Fail(OVERFLOW);
        return;
      }
      var capacity := OutputCapacity(out, outCapacity);
      if capacity.Refused? {
        r := Fail(capacity.code);
        return;
      }
      var input: seq<byte> := if dataLen == 0 then [] else data[..dataLen];
      var blockCount := if dataLen == 0 then 1 else (dataLen + STORED_BLOCK - 1) / STORED_BLOCK;
      var outputLen := 10 + dataLen + blockCount * 5 + 8;
      if outputLen > capacity.size {
        r := Fail(BUFFER_TOO_SMALL);
        return;
      }
      if !heapOk {
        r := Fail(OUT_OF_MEMORY);
        return;
      }
      var scratch := FillScratch(input, outputLen);
      Put(out.bytes, 0, scratch[..]);
      out.used := outputLen;
      lastError := OK;
      r := outputLen;
    }

    /**
      The size_t overflow test and the copy failure of the source have no branch here:
      after each block `ReadHeader` keeps the produced length within the capacity and the limit,
      so the sum cannot wrap and the copy fits; `RatioGuardIdle` shows the limit idle.
     */
    method Gunzip(data: array?<byte>, dataLen: int, out: FfiBuffer?, outCapacity: int, heapOk: bool)
      returns (r: int)
      requires data != null && dataLen > 0 ==> dataLen <= data.Length
      requires out != null ==> out.Valid()
      modifies this, out, if out == null then {} else {out.bytes}
      ensures Returned(old(GunzipOutcome(Input(data, dataLen), OutputCapacity(out, outCapacity), heapOk)), r, out)
    {
      hide Inflate, Checksum, ReadLe32;
      if dataLen < 0 || (dataLen > 0 && data == null) {
        r := Fail(INVALID_ARGUMENT);
        return;
      }
      if dataLen > MAX_GZIP_BYTES {
        r := Fail(OVERFLOW);
        return;
      }
      var capacity := OutputCapacity(out, outCapacity);
      if capacity.Refused? {
        r := Fail(capacity.code);
        return;
      }
      var d: seq<byte> := if dataLen == 0 then [] else data[..dataLen];
      var o := UnpackMember(d, capacity.size, heapOk);
      if o.Fail? {
        r := Fail(o.code);
        return;
      }
      Put(out.bytes, 0, o.bytes);
      out.used := |o.bytes|;
      lastError := OK;
      r := |o.bytes|;
    }
  }

  /** The checks on header and trailer around the block loop. */
  method UnpackMember(d: seq<byte>, capacity: nat, heapOk: bool) returns (o: Outcome)
    ensures o == GunzipMember(d, capacity, heapOk)
  {
    hide Inflate, Checksum, ReadLe32;
    if |d| < 23 || d[0] != 0x1f || d[1] != 0x8b {
      return Fail(PARSE);
    }
    if d[2] != 0x08 {
      return Fail(UNSUPPORTED);
    }
    if d[3] != 0x00 {
      return Fail(UNSUPPORTED);
    }
    if !heapOk {
      return Fail(OUT_OF_MEMORY);
    }
    var scratch := new byte[OutputLimit(|d|)];
    var trailer := |d| - 8;
    var status, produced := InflateBlocks(d, trailer, capacity, scratch);
    if status != OK {
      return Fail(status);
    }
    var expectedCrc := ReadLe32(d[trailer..trailer + 4]);
    var expectedSize := ReadLe32(d[trailer + 4..]);
    var crc := Crc32(scratch[..produced]);
    if produced % 0x1_0000_0000 != expectedSize || crc != expectedCrc {
      return Fail(PARSE);
    }
    return Done(scratch[..produced]);
  }

  /** The tests on one block, from the cursor `start`. */
  method CheckBlock(d: seq<byte>, start: nat, trailer: nat, produced: nat, capacity: nat, limit: nat)
    returns (h: BlockHeader)
    requires start < trailer <= |d|
    ensures h == ReadHeader(d[start..trailer], produced, capacity, limit)
  {
    hide ReadLe16, Xor;
    ghost var body := d[start..trailer];
    var pos := start;
    var block := d[pos];
    pos := pos + 1;
    if block / 2 % 4 != 0 || block / 8 != 0 {
      return Bad(UNSUPPORTED);
    }
    if pos + 4 > trailer {
      return Bad(PARSE);
    }
    var len, nlen := ReadLe16(d[pos..pos + 2]), ReadLe16(d[pos + 2..pos + 4]);
    SliceOfSlice(d, start, trailer, 1, 3);
    SliceOfSlice(d, start, trailer, 3, 5);
    pos := pos + 4;
    if Xor(len, nlen) != 0xffff || pos + len > trailer {
      return Bad(PARSE);
    }
    if produced + len > capacity {
      return Bad(BUFFER_TOO_SMALL);
    }
    if produced + len > limit {
      return Bad(OVERFLOW);
    }
    return Payload(len, block % 2 != 0);
  }

  /** The block loop of the decompressor, with its two cursors. */
  method InflateBlocks(d: seq<byte>, trailer: nat, capacity: nat, scratch: array<byte>)
    returns (status: int, produced: nat)
    requires 10 <= trailer <= |d|
    modifies scratch
    ensures match Inflate(d[10..trailer], [], capacity, scratch.Length)
            case Fail(code) => status == code
            case Done(bytes) => status == OK && produced <= scratch.Length && scratch[..produced] == bytes
  {
    hide ReadHeader;
    var pos, last := 10, false;
    produced := 0;
    ghost var goal := Inflate(d[10..trailer], [], capacity, scratch.Length);
    while pos < trailer && !last
      invariant 10 <= pos <= trailer && produced <= scratch.Length
      invariant !last ==> Inflate(d[pos..trailer], scratch[..produced], capacity, scratch.Length) == goal
      invariant last ==> goal == if pos == trailer then Done(scratch[..produced]) else Fail(PARSE)
    {
      ghost var body, done := d[pos..trailer], scratch[..produced];
      var header := CheckBlock(d, pos, trailer, produced, capacity, scratch.Length);
      if header.Bad? {
        return header.code, produced;
      }
      pos := pos + 5;
      Put(scratch, produced, d[pos..pos + header.len]);
      produced := produced + header.len;
      SliceOfSlice(d, pos - 5, trailer, 5, 5 + header.len);
      assert scratch[..produced] == done + body[5..5 + header.len];
      pos := pos + header.len;
      last := header.last;
      assert body[5 + header.len..] == d[pos..trailer];
    }
    if !last || pos != trailer {
      assert !last ==> ReadHeader([], produced, capacity, scratch.Length) == Bad(PARSE) by { EmptyHeader(produced, capacity, scratch.Length); }
      return PARSE, produced;
    }
    return OK, produced;
  }

  lemma SliceOfSlice(d: seq<byte>, lo: nat, hi: nat, i: nat, j: nat)
    requires i <= j && lo + j <= hi <= |d|
    ensures d[lo..hi][i..j] == d[lo + i..lo + j]
  {
    assert forall k :: 0 <= k < j - i ==> d[lo..hi][i..j][k] == d[lo + i..lo + j][k];
  }

  lemma EmptyHeader(produced: nat, capacity: nat, limit: nat)
    ensures ReadHeader([], produced, capacity, limit) == Bad(PARSE)
  {
  }

  /** One turn of the compressor's block loop. */
  method PutBlock(scratch: array<byte>, at: nat, last: bool, payload: seq<byte>)
    requires |payload| <= STORED_BLOCK && at + 5 + |payload| <= scratch.Length
    modifies scratch
    ensures scratch[..at + 5 + |payload|] == old(scratch[..at]) + StoredBlock(last, payload)
  {
    ghost var before := scratch[..at];
    Put(scratch, at, [if last then 0x01 else 0x00]);
    Put(scratch, at + 1, WriteLe16(|payload|));
    Put(scratch, at + 3, WriteLe16(65535 - |payload|));
    Put(scratch, at + 5, payload);
    assert scratch[..at + 5 + |payload|]
        == before + [if last then 1 else 0] + WriteLe16(|payload|) + WriteLe16(65535 - |payload|) + payload;
  }

  /** The block loop of the compressor. */
  method PutBlocks(scratch: array<byte>, start: nat, input: seq<byte>) returns (at: nat)
    requires start + |Blocks(input)| <= scratch.Length
    modifies scratch
    ensures at == start + |Blocks(input)|
    ensures scratch[..at] == old(scratch[..start]) + Blocks(input)
  {
    hide Blocks, StoredBlock, BlockCount, WriteLe16;
    at := start;
    var offset, last := 0, false;
    ghost var goal := scratch[..start] + Blocks(input);
    ghost var rest := Blocks(input);
    assert input[0..] == input;
    while !last
      invariant 0 <= offset <= |input| && at <= scratch.Length
      invariant rest == if last then [] else Blocks(input[offset..])
      invariant at + |rest| == |goal|
      invariant scratch[..at] + rest == goal
      decreases |input| - offset, !last
    {
      var remaining := |input| - offset;
      var chunk := if remaining > STORED_BLOCK then STORED_BLOCK else remaining;
      last := remaining <= STORED_BLOCK;
      var payload := input[offset..offset + chunk];
      BlocksStep(input, offset, chunk, last);
      rest := if last then [] else Blocks(input[offset + chunk..]);
      Regroup(scratch[..at], StoredBlock(last, payload), rest);
      PutBlock(scratch, at, last, payload);
      at := at + 5 + chunk;
      offset := offset + chunk;
    }
  }

  lemma Regroup(a: seq<byte>, b: seq<byte>, c: seq<byte>)
    ensures (a + b) + c == a + (b + c)
  {
  }

  lemma BlocksStep(input: seq<byte>, offset: nat, chunk: nat, last: bool)
    requires offset <= |input|
    requires last == (|input| - offset <= STORED_BLOCK)
    requires chunk == if last then |input| - offset else STORED_BLOCK
    ensures Blocks(input[offset..])
         == StoredBlock(last, input[offset..offset + chunk]) + if last then [] else Blocks(input[offset + chunk..])
  {
    assert input[offset..][..chunk] == input[offset..offset + chunk];
    assert input[offset..][chunk..] == input[offset + chunk..];
    assert last ==> input[offset..] == input[offset..offset + chunk];
  }

  /** All the writes of the compressor: the cursor ends exactly at the precomputed length. */
  method FillScratch(input: seq<byte>, outputLen: nat) returns (scratch: array<byte>)
    requires |input| <= MAX_INPUT && outputLen == |GzipBytes(input)|
    ensures fresh(scratch)
    ensures scratch[..] == GzipBytes(input)
  {
    hide Blocks, BlockCount, Checksum, WriteLe32;
    scratch := new byte[outputLen];
    Put(scratch, 0, HEADER);
    assert scratch[..10] == HEADER;
    var at := PutBlocks(scratch, 10, input);
    var crc := Crc32(input);
    Put(scratch, at, WriteLe32(crc));
    Put(scratch, at + 4, WriteLe32(|input|));
    assert at + 8 == outputLen;
    assert scratch[..] == scratch[..at + 8];
    assert scratch[..] == HEADER + Blocks(input) + (WriteLe32(crc) + WriteLe32(|input|));
  }
}
