/**
  The streaming SHA-256 of a file: a 64-byte tail, a running total, and the read
  loop that feeds it, with every outcome of the operating system as input.
 */
module Sha256File {
  import opened Options
  import opened Words
  import opened Sha256

  const INVALID_ARGUMENT := 2
  const IO := 9
  const OVERFLOW := 13
  const MAX_HASHED: nat := 0x1fff_ffff_ffff_ffff

  lemma TotalAdds(k: nat, n: nat)
    ensures (k % U64 + n) % U64 == (k + n) % U64
  {
    var q := k / U64;
    assert k == U64 * q + k % U64;
    assert k + n == U64 * q + (k % U64 + n);
  }

  lemma BlockOf(m: seq<byte>, s: seq<byte>, at: nat)
    requires |s| <= |m| && m[|m| - |s|..] == s && at + 64 <= |s|
    ensures var q := |m| - |s| + at; m[q..q + 64] == s[at..at + 64]
  {
    var q := |m| - |s|;
    assert m[q..][at..at + 64] == m[q + at..q + at + 64];
  }

  lemma SliceGrows(m: seq<byte>, lo: nat, hi: nat, n: nat, s: seq<byte>)
    requires lo <= hi <= hi + n <= |m| && n <= |s| && m[hi..] == s
    ensures m[lo..hi + n] == m[lo..hi] + s[..n]
  {
    assert m[hi..hi + n] == m[hi..][..n];
    assert m[lo..hi + n] == m[lo..hi] + m[hi..hi + n];
  }

  lemma ConsumedGrows(t: Transform, m: seq<byte>, more: seq<byte>, q: nat, h: State)
    requires Consumed(t, m, q, h)
    ensures Consumed(t, m + more, q, h)
  {
    hide Absorb;
    assert (m + more)[..q] == m[..q];
  }

  class StreamingHash {
    const transform: Transform
    const tail: array<byte>
    var state: State
    var tailLen: nat
    var total: nat

    /** Everything fed so far. */
    ghost var message: seq<byte>

    /** State and tail hold the first `k` bytes of the message. */
    ghost predicate Fed(k: nat)
      reads this, tail
    {
      && tail.Length == 64
      && tailLen <= 64 && tailLen <= k <= |message|
      && tail[..tailLen] == message[k - tailLen..k]
      && Consumed(transform, message, k - tailLen, state)
    }

    ghost predicate Valid()
      reads this, tail
    {
      tailLen < 64 && total == |message| % U64 && Fed(|message|)
    }

    constructor (t: Transform)
      ensures Valid() && message == [] && transform == t && fresh(tail)
    {
      ConsumedNone(t, []);
      transform := t;
      tail := new byte[64](i => 0);
      state, tailLen, total, message := INITIAL, 0, 0, [];
    }

    method Update(bytes: seq<byte>)
      requires Valid()
      modifies this, tail
      ensures Valid() && message == old(message) + bytes
    {
      hide Consumed;
      ghost var k := |message|;
      message := message + bytes;
      total := (total + |bytes|) % U64;
      assert message[k - tailLen..k] == old(message)[k - tailLen..k];
      ConsumedGrows(transform, old(message), bytes, k - tailLen, state);
      assert message[k..] == bytes;
      assert Fed(k) && tailLen < 64;
      TotalAdds(k, |bytes|);
      hide Fed;
      var at := 0;
      if tailLen != 0 {
        at := FillTail(bytes);
      }
      at := AbsorbWhole(bytes, at);
      KeepRest(bytes, at);
    }

    /** Top up a non-empty tail, and absorb it once it is full. */
    method FillTail(bytes: seq<byte>) returns (count: nat)
      requires 0 < tailLen < 64 && |bytes| <= |message| && message[|message| - |bytes|..] == bytes
      requires Fed(|message| - |bytes|)
      modifies this`state, this`tailLen, tail
      ensures count <= |bytes| && Fed(|message| - |bytes| + count)
      ensures tailLen == 0 || (count == |bytes| && tailLen < 64)
    {
      hide Fed;
      count := if 64 - tailLen > |bytes| then |bytes| else 64 - tailLen;
      TopUp(bytes, count);
      if tailLen == 64 {
        AbsorbTail(|message| - |bytes| + count);
      }
    }

    method TopUp(bytes: seq<byte>, count: nat)
      requires tailLen + count <= 64 && count <= |bytes| <= |message| && message[|message| - |bytes|..] == bytes
      requires Fed(|message| - |bytes|)
      modifies this`tailLen, tail
      ensures tailLen == old(tailLen) + count && Fed(|message| - |bytes| + count)
    {
      hide Consumed;
      ghost var k := |message| - |bytes|;
      SliceGrows(message, k - tailLen, k, count, bytes);
      CopyIn(tail, tailLen, bytes[..count]);
      tailLen := tailLen + count;
      assert k + count - tailLen == k - old(tailLen);
    }

    method AbsorbTail(ghost k: nat)
      requires tailLen == 64 && Fed(k)
      modifies this`state, this`tailLen
      ensures tailLen == 0 && Fed(k)
    {
      hide Consumed;
      assert tail[..] == tail[..64];
      ConsumedNext(transform, message, k - 64, state);
      state := transform(state, tail[..]);
      tailLen := 0;
    }

    /** Absorb whole blocks straight from the input. */
    method AbsorbWhole(bytes: seq<byte>, start: nat) returns (at: nat)
      requires start <= |bytes| <= |message| && message[|message| - |bytes|..] == bytes
      requires Fed(|message| - |bytes| + start)
      requires tailLen == 0 || (start == |bytes| && tailLen < 64)
      modifies this`state
      ensures at <= |bytes| < at + 64 && Fed(|message| - |bytes| + at)
      ensures tailLen == 0 || at == |bytes|
    {
      hide Fed;
      at := start;
      while |bytes| - at >= 64
        invariant at <= |bytes| && Fed(|message| - |bytes| + at)
        invariant tailLen == 0 || at == |bytes|
      {
        BlockOf(message, bytes, at);
        AbsorbBlock(bytes[at..at + 64], |message| - |bytes| + at);
        at := at + 64;
      }
    }

    method AbsorbBlock(block: Block, ghost q: nat)
      requires tailLen == 0 && Fed(q) && q + 64 <= |message| && message[q..q + 64] == block
      modifies this`state
      ensures Fed(q + 64)
    {
      hide Consumed;
      ConsumedNext(transform, message, q, state);
      state := transform(state, block);
    }

    /** Keep what is left of the input for the next call. */
    method KeepRest(bytes: seq<byte>, at: nat)
      requires at <= |bytes| < at + 64 && |bytes| <= |message| && message[|message| - |bytes|..] == bytes
      requires Fed(|message| - |bytes| + at)
      requires tailLen == 0 || (at == |bytes| && tailLen < 64)
      modifies this`tailLen, tail
      ensures tailLen < 64 && Fed(|message|)
    {
      if at < |bytes| {
        StoreRest(bytes[at..], |message| - |bytes| + at);
      }
    }

    method StoreRest(rest: seq<byte>, ghost q: nat)
      requires tailLen == 0 && |rest| < 64 && Fed(q) && q + |rest| == |message| && message[q..] == rest
      modifies this`tailLen, tail
      ensures tailLen == |rest| && Fed(|message|)
    {
      hide Consumed;
      CopyIn(tail, 0, rest);
      tailLen := |rest|;
      assert message[q..|message|] == message[q..] && tail[..0] == [];
    }

    /** The streaming padding: the marker first, then `length > 56` decides on a second block. */
    method Finish()
      requires Valid()
      modifies this, tail
      ensures state == Digest(transform, old(message))
      ensures IsHash(transform, old(message), state)
    {
      hide Absorb, BigEndian, Digest, Consumed, IsHash;
      ghost var m, q, rest, h0 := message, |message| - tailLen, tail[..tailLen], state;
      assert m[q..] == rest;
      ConsumedAll(transform, m, q, h0);
      TotalBits(|m|);
      var bits := total * 8 % U64;
      var length := tailLen;
      tail[length] := 0x80;
      length := length + 1;
      assert tail[..length] == rest + [0x80];
      ghost var first: Block := rest + [0x80] + Zeros(64 - length);
      if length > 56 {
        Fill(tail, length, 64, 0);
        assert tail[..] == first;
        state := transform(state, tail[..]);
        length := 0;
      }
      Fill(tail, length, 56, 0);
      ghost var front := tail[..56];
      PutLength(tail, bits);
      assert tail[..] == front + BigEndian(bits, 8);
      if |rest| >= 56 {
        assert front == Zeros(56);
        AbsorbTwo(transform, h0, first, tail[..]);
      } else {
        assert front == rest + [0x80] + Zeros(55 - |rest|);
        AbsorbSingle(transform, h0, tail[..]);
      }
      state := transform(state, tail[..]);
      HashIff(transform, m, state);
    }
  }

  lemma TotalBits(n: nat)
    ensures n % U64 * 8 % U64 == 8 * n % U64
  {
    var q, r := n / U64, n % U64;
    assert 8 * n == U64 * (8 * q) + 8 * r;
  }

  // ----- the read loop -----

  datatype Stat = Stat(regular: bool, size: int, modified: int)

  /** One `read`: interrupted, failed, or some bytes, no bytes meaning the end of the file. */
  datatype ReadEvent = Interrupted | ReadFailed | Bytes(data: seq<byte>)
  datatype Collected = Broken(code: int) | Content(bytes: seq<byte>)
  datatype HashOutcome = Error(code: int) | Hex(text: string)

  /** What the reads deliver under the byte limit; the end of the script is the end of the file. */
  function Collect(events: seq<ReadEvent>, maxBytes: nat, got: seq<byte>): (c: Collected)
    requires |got| <= maxBytes
    ensures c.Content? ==> |c.bytes| <= maxBytes
    ensures c.Broken? ==> c.code != 0
  {
    if events == [] then Content(got)
    else match events[0]
      case Interrupted => Collect(events[1..], maxBytes, got)
      case ReadFailed => Broken(IO)
      case Bytes(data) =>
        if data == [] then Content(got)
        else if |data| > maxBytes - |got| then Broken(OVERFLOW)
        else Collect(events[1..], maxBytes, got + data)
  }

  function FileOutcome(t: Transform, maxBytes: int, before: Option<Stat>, events: seq<ReadEvent>,
                       after: Option<Stat>, closed: bool): HashOutcome
  {
    if maxBytes < 0 || maxBytes > MAX_HASHED then Error(INVALID_ARGUMENT)
    else if before.None? then Error(IO)
    else if !before.value.regular then Error(INVALID_ARGUMENT)
    else if before.value.size < 0 || before.value.size > maxBytes then Error(OVERFLOW)
    else match Collect(events, maxBytes, [])
      case Broken(code) => Error(code)
      case Content(bytes) =>
        if |bytes| != before.value.size || after.None?
           || after.value.size != before.value.size || after.value.modified != before.value.modified
        then Error(IO)
        else if !closed then Error(IO)
        else Hex(HexWords(Digest(t, bytes)))
  }

  /** `sengoo_hash_sha256_file` after a successful open. */
  method HashFile(t: Transform, maxBytes: int, before: Option<Stat>, events: seq<ReadEvent>,
                  after: Option<Stat>, closed: bool) returns (r: HashOutcome)
    ensures r == FileOutcome(t, maxBytes, before, events, after, closed)
  {
    hide Digest, HexWords, Collect, StreamingHash.Fed;
    if maxBytes < 0 || maxBytes > MAX_HASHED {
      return Error(INVALID_ARGUMENT);
    }
    var status := 0;
    if before.None? {
      status := IO;
    } else if !before.value.regular {
      status := INVALID_ARGUMENT;
    } else if before.value.size < 0 || before.value.size > maxBytes {
      status := OVERFLOW;
    }
    if status != 0 {
      return Error(status);
    }
    var hash := new StreamingHash(t);
    status := ReadLoop(hash, maxBytes, events);
    if status == 0 && (hash.total != before.value.size || after.None?
         || after.value.size != before.value.size || after.value.modified != before.value.modified) {
      status := IO;
    }
    if !closed && status == 0 {
      status := IO;
    }
    if status != 0 {
      return Error(status);
    }
    hash.Finish();
    var text := RenderBytes(hash.state);
    return Hex(text);
  }

  method ReadLoop(hash: StreamingHash, maxBytes: nat, events: seq<ReadEvent>) returns (status: int)
    requires hash.Valid() && hash.message == [] && maxBytes <= MAX_HASHED
    modifies hash, hash.tail
    ensures hash.Valid()
    ensures match Collect(events, maxBytes, [])
            case Broken(code) => status == code
            case Content(bytes) => status == 0 && hash.message == bytes && hash.total == |bytes|
  {
    hide StreamingHash.Fed;
    status := 0;
    var i := 0;
    ghost var goal := Collect(events, maxBytes, []);
    assert events[0..] == events;
    while i < |events|
      invariant 0 <= i <= |events| && hash.Valid() && |hash.message| <= maxBytes && status == 0
      invariant Collect(events[i..], maxBytes, hash.message) == goal
    {
      assert events[i..][0] == events[i] && events[i..][1..] == events[i + 1..];
      match events[i] {
        case Interrupted =>
        case ReadFailed =>
          return IO;
        case Bytes(data) =>
          if data == [] {
            return 0;
          }
          if |data| > maxBytes - hash.total {
            return OVERFLOW;
          }
          hash.Update(data);
      }
      i := i + 1;
    }
  }

  // ----- what the digest of a file depends on -----

  function Delivered(events: seq<ReadEvent>): seq<byte>
  {
    if events == [] then []
    else (if events[0].Bytes? then events[0].data else []) + Delivered(events[1..])
  }

  predicate Healthy(events: seq<ReadEvent>)
  {
    forall e <- events :: e.Interrupted? || (e.Bytes? && e.data != [])
  }

  /** Without a failed read, only the concatenation counts, and only its length can be refused. */
  lemma {:induction false} CollectDelivered(events: seq<ReadEvent>, maxBytes: nat, got: seq<byte>)
    requires Healthy(events) && |got| <= maxBytes
    ensures Collect(events, maxBytes, got)
         == if |got + Delivered(events)| <= maxBytes then Content(got + Delivered(events)) else Broken(OVERFLOW)
    decreases |events|
  {
    if events == [] {
      assert got + [] == got;
    } else {
      var rest := events[1..];
      assert Healthy(rest);
      match events[0] {
        case Interrupted =>
          assert [] + Delivered(rest) == Delivered(rest);
          CollectDelivered(rest, maxBytes, got);
        case Bytes(data) =>
          assert got + data + Delivered(rest) == got + (data + Delivered(rest));
          if |data| <= maxBytes - |got| {
            CollectDelivered(rest, maxBytes, got + data);
          }
      }
    }
  }

  /** The digest of a file does not depend on how the reads were cut. */
  lemma ChunkingIrrelevant(t: Transform, maxBytes: int, stat: Stat, events: seq<ReadEvent>, others: seq<ReadEvent>)
    requires Healthy(events) && Healthy(others) && Delivered(events) == Delivered(others)
    ensures FileOutcome(t, maxBytes, Some(stat), events, Some(stat), true)
         == FileOutcome(t, maxBytes, Some(stat), others, Some(stat), true)
  {
    hide Digest, HexWords, Collect;
    if 0 <= maxBytes {
      CollectDelivered(events, maxBytes, []);
      CollectDelivered(others, maxBytes, []);
    }
  }

  /** Whenever a digest is returned, the padded length field is the true bit length. */
  lemma LengthNeverWraps(t: Transform, maxBytes: int, before: Option<Stat>, events: seq<ReadEvent>,
                         after: Option<Stat>, closed: bool)
    requires FileOutcome(t, maxBytes, before, events, after, closed).Hex?
    ensures 0 <= maxBytes && Collect(events, maxBytes, []).Content?
    ensures var m := Collect(events, maxBytes, []).bytes;
            && 8 * |m| < U64
            && |Padded(m)| >= 8
            && Padded(m)[|Padded(m)| - 8..] == BigEndian(8 * |m|, 8)
  {
    hide Digest, HexWords, BigEndian, ZeroCount, Collect;
    var m := Collect(events, maxBytes, []).bytes;
    var p := Padded(m);
    assert p[|p| - 8..] == BigEndian(8 * |m| % U64, 8);
  }
}
