/**
  File snapshots: `open` reads a whole file into an owner record and hands out an opaque
  handle for it, `close` gives it up. The runtime keeps the owners, their number and
  their bytes; the handle table is shared with the rest of the runtime.

  What the operating system does is input: an `Attempt` scripts one `open`.
 */
module Snapshots {
  import opened Words
  import opened Sha256
  import opened Handles

  const MAX_OWNERS: int := 32
  const MAX_BYTES: int := 64 * 1024 * 1024
  const TOTAL_BYTES: int := 128 * 1024 * 1024
  const READ_BYTES: int := 65536

  const INVALID_ARGUMENT: int := -2
  const INVALID_HANDLE: int := -3
  const IO: int := -9
  const OVERFLOW: int := -13
  const OUT_OF_MEMORY: int := -14

  /** 0, or the negated status of the step that failed. */
  type Status = x: int | x <= 0
  /** What closing the operating system's handles answers: 0, or the negated input/output status. */
  type Closing = x: int | x == 0 || x == -9
  type Failure = x: int | x < 0 witness -1
  type Address = p: nat | p > 0 witness 1

  datatype Read = ReadFailed(status: Failure) | Bytes(data: seq<byte>)

  /**
    One `open`: `early` covers the steps before the size is known, `late` those from there
    to the first read, `probe` the read past the end and `after` the second look at the
    file; `address` and `granted` are what the allocator answers.
   */
  datatype Attempt = Attempt(maxBytes: int, early: Status, length: nat, late: Status,
                             script: seq<Read>, probe: Read, after: Status, address: Address, granted: bool)

  datatype Loaded = Failed(status: Failure) | Content(bytes: seq<byte>)
  datatype Owner = Owner(handle: int, bytes: seq<byte>, digest: string)

  /** `calls` is every call made to the handle table so far. */
  datatype Store = Store(owners: seq<Owner>, count: int, total: int, calls: seq<Call>)

  const NONE := Store([], 0, 0, [])

  // ----- what the operations do -----

  function ReadLimit(left: int): int
  {
    if left > READ_BYTES then READ_BYTES else left
  }

  /** The read loop; past the end of the script a read delivers nothing. */
  function Load(script: seq<Read>, length: nat, got: seq<byte>): (r: Loaded)
    requires |got| <= length
    ensures r.Content? ==> |r.bytes| == length
  {
    if |got| == length then Content(got)
    else if script == [] then Failed(IO)
    else match script[0]
      case ReadFailed(status) => Failed(status)
      case Bytes(data) =>
        if data == [] || |data| > ReadLimit(length - |got|) then Failed(IO)
        else Load(script[1..], length, got + data)
  }

  function Examine(s: Store, a: Attempt): (r: Loaded)
    ensures r.Content? ==> |r.bytes| == a.length <= a.maxBytes <= MAX_BYTES && s.count < MAX_OWNERS
  {
    if a.maxBytes < 0 || a.maxBytes > MAX_BYTES then Failed(INVALID_ARGUMENT)
    else if s.count >= MAX_OWNERS then Failed(OVERFLOW)
    else if a.early < 0 then Failed(a.early)
    else if a.length > a.maxBytes || a.length > (TOTAL_BYTES - s.total) % U64 then Failed(OVERFLOW)
    else if a.late < 0 then Failed(a.late)
    else
      var loaded := Load(a.script, a.length, []);
      if loaded.Failed? then loaded
      else if a.probe.ReadFailed? then Failed(a.probe.status)
      else if a.probe.data != [] then Failed(if a.length >= a.maxBytes then OVERFLOW else IO)
      else if a.after < 0 then Failed(a.after)
      else loaded
  }

  function OpenStep(t: Transform, s: Store, a: Attempt): (Store, int)
  {
    var found := Examine(s, a);
    if found.Failed? then (s, found.status)
    else
      var calls := s.calls + [New(a.address, a.granted)];
      var h := Answer(calls, |s.calls|);
      if h <= 0 then (s.(calls := calls), OUT_OF_MEMORY)
      else
        var owner := Owner(h, found.bytes, HexWords(Digest(t, found.bytes)));
        (Store([owner] + s.owners, s.count + 1, s.total + a.length, calls), h)
  }

  function Find(owners: seq<Owner>, handle: int): (i: nat)
    ensures i <= |owners|
    ensures i < |owners| ==> owners[i].handle == handle
    ensures forall k :: 0 <= k < i ==> owners[k].handle != handle
  {
    if owners == [] || owners[0].handle == handle then 0 else
      var i := Find(owners[1..], handle);
      assert forall k :: 1 <= k < i + 1 ==> owners[k] == owners[1..][k - 1];
      i + 1
  }

  function Without(owners: seq<Owner>, i: nat): (r: seq<Owner>)
    requires i < |owners|
  {
    owners[..i] + owners[i + 1..]
  }

  function CloseStep(s: Store, handle: Handle, closed: Closing): (Store, int)
  {
    var i := Find(s.owners, handle);
    if handle == 0 then (s, 0)
    else if i == |s.owners| then (s, INVALID_HANDLE)
    else (Store(Without(s.owners, i), s.count - 1, s.total - |s.owners[i].bytes|, s.calls + [Take(handle)]),
          closed)
  }

  /** The rest of the runtime may call the handle table at any time, with any handle. */
  datatype Event = OpenFile(attempt: Attempt) | CloseFile(handle: Handle, closed: Closing) | Elsewhere(call: Call)

  function EventStep(t: Transform, s: Store, e: Event): (Store, int)
  {
    match e
    case OpenFile(a) => OpenStep(t, s, a)
    case CloseFile(handle, closed) => CloseStep(s, handle, closed)
    case Elsewhere(c) => (s.(calls := s.calls + [c]), 0)
  }

  function History(t: Transform, events: seq<Event>): Store
  {
    if events == [] then NONE else
      EventStep(t, History(t, events[..|events| - 1]), events[|events| - 1]).0
  }

  // ----- the store as the runtime keeps it -----

  class FileSnapshots {
    var owners: seq<Owner>
    var count: int
    var total: int
    const table: HandleTable
    ghost var calls: seq<Call>

    ghost function State(): Store
      reads this
    {
      Store(owners, count, total, calls)
    }

    ghost predicate Valid()
      reads this, table
    {
      table.State() == Run(calls)
    }

    constructor (shared: HandleTable)
      requires shared.State() == EMPTY
      ensures Valid() && State() == NONE && table == shared
    {
      owners, count, total, calls, table := [], 0, 0, [], shared;
    }

    /** A call to the shared table by another part of the runtime. */
    method CallElsewhere(c: Call) returns (answer: int)
      requires Valid()
      modifies this`calls, table
      ensures Valid() && State() == old(State()).(calls := old(calls) + [c])
      ensures answer == Answer(calls, |old(calls)|)
    {
      Extended(calls, c);
      calls := calls + [c];
      match c {
        case New(ptr, granted) => answer := table.NewHandle(ptr, granted);
        case Get(handle) => answer := table.GetPointer(handle);
        case Take(handle) => answer := table.TakePointer(handle);
      }
    }

    method ReadContent(script: seq<Read>, length: nat) returns (r: Loaded)
      ensures r == Load(script, length, [])
    {
      var buffer := new byte[length + 1];
      var offset: nat, next: nat := 0, 0;
      ghost var goal := Load(script, length, []);
      assert buffer[..0] == [] && script[0..] == script;
      while offset < length
        invariant 0 <= offset <= length && next <= |script|
        invariant Load(script[next..], length, buffer[..offset]) == goal
        decreases |script| - next
      {
        if next == |script| {
          return Failed(IO);
        }
        if script[next].ReadFailed? {
          return Failed(script[next].status);
        }
        var data := script[next].data;
        if data == [] || |data| > ReadLimit(length - offset) {
          return Failed(IO);
        }
        ghost var done := buffer[..offset];
        forall k | 0 <= k < |data| {
          buffer[offset + k] := data[k];
        }
        assert buffer[..offset + |data|] == done + data;
        assert script[next..][1..] == script[next + 1..];
        offset, next := offset + |data|, next + 1;
      }
      return Content(buffer[..length]);
    }

    method OpenSnapshot(t: Transform, a: Attempt) returns (answer: int)
      requires Valid()
      modifies this, table
      ensures Valid() && (State(), answer) == OpenStep(t, old(State()), a)
    {
      hide Load, Digest, HexWords, Run;
      if a.maxBytes < 0 || a.maxBytes > MAX_BYTES {
        return INVALID_ARGUMENT;
      }
      if count >= MAX_OWNERS {
        return OVERFLOW;
      }
      if a.early < 0 {
        return a.early;
      }
      if a.length > a.maxBytes || a.length > (TOTAL_BYTES - total) % U64 {
        return OVERFLOW;
      }
      if a.late < 0 {
        return a.late;
      }
      var loaded := ReadContent(a.script, a.length);
      if loaded.Failed? {
        return loaded.status;
      }
      if a.probe.ReadFailed? {
        return a.probe.status;
      }
      if a.probe.data != [] {
        return if a.length >= a.maxBytes then OVERFLOW else IO;
      }
      if a.after < 0 {
        return a.after;
      }
      answer := Register(t, loaded.bytes, a.address, a.granted);
    }

    method Register(t: Transform, bytes: seq<byte>, address: Address, granted: bool) returns (answer: int)
      requires Valid()
      modifies this, table
      ensures Valid() && calls == old(calls) + [New(address, granted)]
      ensures var h := Answer(calls, |old(calls)|);
              if h <= 0 then answer == OUT_OF_MEMORY && owners == old(owners) && count == old(count) && total == old(total)
              else answer == h && owners == [Owner(h, bytes, HexWords(Digest(t, bytes)))] + old(owners)
                   && count == old(count) + 1 && total == old(total) + |bytes|
    {
      hide Digest, HexWords;
      var state := SnapshotDigest(t, bytes);
      Extended(calls, New(address, granted));
      calls := calls + [New(address, granted)];
      var handle := table.NewHandle(address, granted);
      if handle <= 0 {
        return OUT_OF_MEMORY;
      }
      owners, count, total := [Owner(handle, bytes, HexWords(state))] + owners, count + 1, total + |bytes|;
      return handle;
    }

    method FindOwner(handle: int) returns (i: nat)
      ensures i == Find(owners, handle)
    {
      i := 0;
      while i < |owners| && owners[i].handle != handle
        invariant i <= |owners| && forall k :: 0 <= k < i ==> owners[k].handle != handle
      {
        i := i + 1;
      }
      FindIs(owners, handle, i);
    }

    method CloseSnapshot(handle: Handle, closed: Closing) returns (answer: int)
      requires Valid()
      modifies this, table
      ensures Valid() && (State(), answer) == CloseStep(old(State()), handle, closed)
    {
      hide Run, Find, Without, TakeStep;
      if handle == 0 {
        return 0;
      }
      var i := FindOwner(handle);
      if i == |owners| {
        return INVALID_HANDLE;
      }
      var length := |owners[i].bytes|;
      owners := Without(owners, i);
      Extended(calls, Take(handle));
      calls := calls + [Take(handle)];
      var taken := table.TakePointer(handle);
      count, total := count - 1, total - length;
      return closed;
    }
  }

  lemma Extended(calls: seq<Call>, c: Call)
    ensures Run(calls + [c]) == Step(Run(calls), c).0
    ensures Answer(calls + [c], |calls|) == Step(Run(calls), c).1
  {
    assert (calls + [c])[..|calls|] == calls;
  }

  lemma FindIs(owners: seq<Owner>, handle: int, i: nat)
    requires i <= |owners| && (i < |owners| ==> owners[i].handle == handle)
    requires forall k :: 0 <= k < i ==> owners[k].handle != handle
    ensures Find(owners, handle) == i
  {
  }
}
