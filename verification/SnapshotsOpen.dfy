/**
  Exactly when an open succeeds in a reachable store, and what it then stores.
 */
module SnapshotsOpen {
  import opened Words
  import opened Sha256
  import opened Sha256Standard
  import opened Handles
  import opened HandlesTheorems
  import opened Snapshots
  import opened SnapshotsTheorems

  /** The reads deliver `bytes` in some number of steady pieces. */
  ghost predicate Supplies(script: seq<Read>, bytes: seq<byte>)
  {
    exists n: nat :: Steady(script, n) && Joined(script, n) == bytes
  }

  lemma {:induction false} SteadyLoads(script: seq<Read>, n: nat, length: nat, got: seq<byte>)
    requires Steady(script, n) && |got + Joined(script, n)| == length
    ensures Load(script, length, got) == Content(got + Joined(script, n))
    decreases n
  {
    if n == 0 {
      assert got + [] == got;
    } else {
      JoinedFront(script, n);
      var data, rest := script[0].data, Joined(script[1..], n - 1);
      assert got + (data + rest) == (got + data) + rest;
      SteadyLoads(script[1..], n - 1, length, got + data);
    }
  }

  /** The read loop succeeds exactly when the reads supply as many bytes as were announced. */
  lemma LoadIff(script: seq<Read>, length: nat, bytes: seq<byte>)
    ensures Load(script, length, []) == Content(bytes) <==> Supplies(script, bytes) && |bytes| == length
  {
    hide Load;
    if Load(script, length, []) == Content(bytes) {
      var n := LoadDelivers(script, length, []);
      WithoutPrefix(script, n);
    }
    if Supplies(script, bytes) && |bytes| == length {
      var n: nat :| Steady(script, n) && Joined(script, n) == bytes;
      assert [] + bytes == bytes;
      SteadyLoads(script, n, length, []);
    }
  }

  lemma WithoutPrefix(script: seq<Read>, n: nat)
    requires Steady(script, n)
    ensures [] + Joined(script, n) == Joined(script, n)
  {
  }

  /** Nothing stands in the way of an open: its arguments, the limits, and each step on the file. */
  ghost predicate Clear(s: Store, a: Attempt)
  {
    && 0 <= a.maxBytes <= 64 * 1024 * 1024 && a.length <= a.maxBytes
    && |s.owners| < 32 && Sum(s.owners) + a.length <= 128 * 1024 * 1024
    && a.early == 0 && a.late == 0 && a.probe == Bytes([]) && a.after == 0
  }

  lemma ExamineIff(t: Transform, s: Store, a: Attempt, bytes: seq<byte>)
    requires Inv(t, s)
    ensures Examine(s, a) == Content(bytes) <==> Clear(s, a) && Supplies(a.script, bytes) && |bytes| == a.length
  {
    hide Load, Supplies, Digest, HexWords, OwnersOk, Unlike, Sum;
    LoadIff(a.script, a.length, bytes);
    assert 0 <= TOTAL_BYTES - s.total < U64;
  }

  /** Exactly when an open of a reachable store succeeds: then and only then is a positive handle answered. */
  lemma OpensIff(t: Transform, events: seq<Event>, a: Attempt)
    ensures var s := History(t, events);
            OpenStep(t, s, a).1 > 0 <==>
              && Clear(s, a) && (exists bytes :: Supplies(a.script, bytes) && |bytes| == a.length)
              && Answer(s.calls + [New(a.address, a.granted)], |s.calls|) > 0
  {
    var s := History(t, events);
    HistoryKeeps(t, events);
    hide History, Examine, Clear, Supplies, Digest, HexWords, Answer, Inv;
    if OpenStep(t, s, a).1 > 0 {
      ExamineIff(t, s, a, Examine(s, a).bytes);
    }
    if bytes :| Clear(s, a) && Supplies(a.script, bytes) && |bytes| == a.length {
      ExamineIff(t, s, a, bytes);
    }
  }

  /** What a successful open stores in front: the bytes supplied, and the text of their standard hash. */
  lemma OpenedContents(t: Transform, events: seq<Event>, a: Attempt)
    requires OpenStep(t, History(t, events), a).1 > 0
    ensures var (u, h) := OpenStep(t, History(t, events), a);
            && u.owners != [] && u.owners[1..] == History(t, events).owners
            && var o := u.owners[0];
               && o.handle == h && Supplies(a.script, o.bytes) && |o.bytes| == a.length
               && exists digest :: IsStandardHash(t, o.bytes, digest) && Spells(o.digest, digest)
  {
    var s := History(t, events);
    HistoryKeeps(t, events);
    hide History, Examine, Clear, Supplies, Digest, HexWords, Answer, Inv, IsStandardHash, Spells;
    var bytes := Examine(s, a).bytes;
    ExamineIff(t, s, a, bytes);
    DigestIff(t, bytes, Digest(t, bytes));
    TextIff(HexWords(Digest(t, bytes)), Digest(t, bytes));
  }
}
