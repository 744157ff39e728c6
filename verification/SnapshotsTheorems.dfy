/**
  Theorems about the snapshot store over every sequence of opens, closes and calls made
  to the handle table by other parts of the runtime.
 */
module SnapshotsTheorems {
  import opened Words
  import opened Sha256
  import opened Handles
  import opened HandlesTheorems
  import opened Snapshots

  function Sum(owners: seq<Owner>): nat
  {
    if owners == [] then 0 else |owners[0].bytes| + Sum(owners[1..])
  }

  ghost predicate Unlike(owners: seq<Owner>)
  {
    forall i, j :: 0 <= i < j < |owners| ==> owners[i].handle != owners[j].handle
  }

  ghost predicate OwnersOk(t: Transform, owners: seq<Owner>, calls: seq<Call>)
  {
    forall i :: 0 <= i < |owners| ==>
      owners[i].handle > 0 && owners[i].handle in Issued(calls)
      && |owners[i].bytes| <= MAX_BYTES && owners[i].digest == HexWords(Digest(t, owners[i].bytes))
  }

  /** The accounts agree with the owners and stay within the limits. */
  ghost predicate Accounted(s: Store)
  {
    s.count == |s.owners| <= MAX_OWNERS && s.total == Sum(s.owners) <= TOTAL_BYTES
  }

  ghost predicate Inv(t: Transform, s: Store)
  {
    Accounted(s) && Unlike(s.owners) && OwnersOk(t, s.owners, s.calls)
  }

  lemma {:induction false} SumWithout(owners: seq<Owner>, i: nat)
    requires i < |owners|
    ensures Sum(owners) == Sum(Without(owners, i)) + |owners[i].bytes|
  {
    if i == 0 {
      assert Without(owners, 0) == owners[1..];
    } else {
      SumWithout(owners[1..], i - 1);
      assert Without(owners, i) == [owners[0]] + Without(owners[1..], i - 1);
      assert Without(owners, i)[1..] == Without(owners[1..], i - 1);
    }
  }

  /** What was issued stays issued, and a new handle was not. */
  lemma CallsGrow(calls: seq<Call>, c: Call)
    ensures forall h :: h in Issued(calls) ==> h in Issued(calls + [c])
    ensures c.New? && Answer(calls + [c], |calls|) > 0 ==>
      Answer(calls + [c], |calls|) in Issued(calls + [c])
    ensures c.New? ==> Answer(calls + [c], |calls|) !in Issued(calls)
  {
    hide Answer, Run, Step;
    assert (calls + [c])[..|calls|] == calls;
    AnswersFromLedger(calls + [c], |calls|);
  }

  lemma OwnersOkGrow(t: Transform, owners: seq<Owner>, calls: seq<Call>, c: Call)
    requires OwnersOk(t, owners, calls)
    ensures OwnersOk(t, owners, calls + [c])
  {
    hide Issued, Digest, HexWords;
    CallsGrow(calls, c);
  }

  // ----- each event -----

  lemma OpenKeeps(t: Transform, s: Store, a: Attempt)
    requires Inv(t, s)
    ensures Inv(t, OpenStep(t, s, a).0)
  {
    hide Examine, Issued, Answer, Digest, HexWords;
    var found := Examine(s, a);
    if found.Content? {
      Bounded(s, a);
      var c := New(a.address, a.granted);
      OwnersOkGrow(t, s.owners, s.calls, c);
      CallsGrow(s.calls, c);
      var owners := OpenStep(t, s, a).0.owners;
      assert owners != s.owners ==> owners[1..] == s.owners;
    }
  }

  lemma Bounded(s: Store, a: Attempt)
    requires Accounted(s) && Examine(s, a).Content?
    ensures s.total + a.length <= TOTAL_BYTES && |Examine(s, a).bytes| == a.length <= MAX_BYTES
    ensures s.count < MAX_OWNERS
  {
    hide Load;
  }

  lemma CloseKeeps(t: Transform, s: Store, handle: Handle, closed: Closing)
    requires Inv(t, s)
    ensures Inv(t, CloseStep(s, handle, closed).0)
  {
    hide Issued, Digest, HexWords, Sum;
    var i := Find(s.owners, handle);
    if i < |s.owners| {
      SumWithout(s.owners, i);
      OwnersOkGrow(t, s.owners, s.calls, Take(handle));
    }
  }

  /** Every reachable store keeps its accounts. */
  lemma {:induction false} HistoryKeeps(t: Transform, events: seq<Event>)
    ensures Inv(t, History(t, events))
  {
    hide Inv, OpenStep, CloseStep;
    if events == [] {
      NoneKeeps(t);
    } else {
      var n := |events| - 1;
      HistoryKeeps(t, events[..n]);
      EventKeeps(t, History(t, events[..n]), events[n]);
    }
  }

  lemma NoneKeeps(t: Transform)
    ensures Inv(t, NONE)
  {
  }

  lemma EventKeeps(t: Transform, s: Store, e: Event)
    requires Inv(t, s)
    ensures Inv(t, EventStep(t, s, e).0)
  {
    match e {
      case OpenFile(a) => OpenKeeps(t, s, a);
      case CloseFile(handle, closed) => CloseKeeps(t, s, handle, closed);
      case Elsewhere(c) => OwnersOkGrow(t, s.owners, s.calls, c);
    }
  }

  // ----- open and close -----

  /** A registration changes a reachable table exactly when it answers a handle, negative ones included. */
  lemma NewChangesTable(calls: seq<Call>, ptr: nat, granted: bool)
    ensures Run(calls + [New(ptr, granted)]) == Run(calls) <==> Answer(calls + [New(ptr, granted)], |calls|) == 0
  {
    hide Run, Answer, TableOk;
    Extended(calls, New(ptr, granted));
    RunMatches(calls);
    NewChanges(Run(calls), ptr, granted);
  }

  lemma NewChanges(t: Table, ptr: nat, granted: bool)
    requires TableOk(t)
    ensures NewStep(t, ptr, granted).0 == t <==> NewStep(t, ptr, granted).1 == 0
  {
    if ptr != 0 && HasRoom(t, granted) {
      var i := FirstFree(t.slots);
      NewAnswer(t, ptr, granted);
      hide TableOk, Room, Fits, NextGeneration, Pack;
      assert i < |t.slots| ==> NewStep(t, ptr, granted).0.slots[i] != t.slots[i];
    }
  }

  /**
    A failed open changes no owner and no account. It leaves the handle table as it was exactly
    when it failed before registering or the table refused; a negative handle keeps its slot.
   */
  lemma FailedOpenChangesNothing(t: Transform, s: Store, a: Attempt)
    requires OpenStep(t, s, a).1 <= 0
    ensures var u := OpenStep(t, s, a).0;
            && u.owners == s.owners && u.count == s.count && u.total == s.total
            && (Run(u.calls) == Run(s.calls)
                <==> Examine(s, a).Failed? || Answer(s.calls + [New(a.address, a.granted)], |s.calls|) == 0)
  {
    hide Examine, Run, Answer;
    NewChangesTable(s.calls, a.address, a.granted);
  }

  /** Closing the handle an open answered restores owners and accounts. */
  lemma OpenThenClose(t: Transform, s: Store, a: Attempt, closed: Closing)
    requires OpenStep(t, s, a).1 > 0
    ensures OpenStep(t, s, a).1 < I63
    ensures var (u, h) := OpenStep(t, s, a);
            var (v, answer) := CloseStep(u, h, closed);
            answer == closed && v.owners == s.owners && v.count == s.count && v.total == s.total
  {
    hide Load, Answer, Digest, HexWords;
    var (u, h) := OpenStep(t, s, a);
    AnswerInRange(u.calls, |s.calls|);
    FindIs(u.owners, h, 0);
    assert Without(u.owners, 0) == s.owners;
  }

  ghost predicate Owned(s: Store, h: int)
  {
    exists i :: 0 <= i < |s.owners| && s.owners[i].handle == h
  }

  /** A close is refused exactly when its handle is not zero and owns nothing. */
  lemma CloseRefusedIff(s: Store, h: Handle, closed: Closing)
    ensures CloseStep(s, h, closed).1 == INVALID_HANDLE <==> h != 0 && !Owned(s, h)
    ensures CloseStep(s, h, closed).0 == s <==> h == 0 || !Owned(s, h)
    ensures h != 0 && Owned(s, h) ==> CloseStep(s, h, closed).1 == closed
  {
    var i := Find(s.owners, h);
    if i < |s.owners| {
      assert s.owners[i].handle == h;
    }
  }

  /** Removing the owner at `i` leaves the others, in order. */
  lemma WithoutOwns(owners: seq<Owner>, i: nat, k: int)
    requires i < |owners| && Unlike(owners)
    ensures (exists j :: 0 <= j < |Without(owners, i)| && Without(owners, i)[j].handle == k)
       <==> k != owners[i].handle && exists j :: 0 <= j < |owners| && owners[j].handle == k
  {
    var left := Without(owners, i);
    if j :| 0 <= j < |left| && left[j].handle == k {
      assert left[j] == owners[if j < i then j else j + 1];
    }
    if j :| 0 <= j < |owners| && owners[j].handle == k && k != owners[i].handle {
      assert left[if j < i then j else j - 1] == owners[j];
    }
  }

  /** A close takes away one owner, the one with its handle. */
  lemma CloseRemovesOne(t: Transform, s: Store, h: Handle, closed: Closing, k: int)
    requires Inv(t, s) && Owned(s, h) && h != 0
    ensures Owned(CloseStep(s, h, closed).0, k) <==> Owned(s, k) && k != h
    ensures |CloseStep(s, h, closed).0.owners| == |s.owners| - 1
  {
    hide OwnersOk, Accounted, Unlike, Without;
    var i := Find(s.owners, h);
    WithoutOwns(s.owners, i, k);
    WithoutSize(s.owners, i);
  }

  lemma WithoutSize(owners: seq<Owner>, i: nat)
    requires i < |owners|
    ensures |Without(owners, i)| == |owners| - 1
  {
  }

  // ----- closed handles -----

  ghost predicate Gone(s: Store, h: int)
  {
    h in Issued(s.calls) && !Owned(s, h)
  }

  lemma EventKeepsGone(t: Transform, s: Store, e: Event, h: int)
    requires Inv(t, s) && Gone(s, h)
    ensures Gone(EventStep(t, s, e).0, h)
  {
    hide Issued, Answer, Digest, HexWords, Examine, Inv;
    match e {
      case OpenFile(a) =>
        CallsGrow(s.calls, New(a.address, a.granted));
      case CloseFile(handle, closed) =>
        CallsGrow(s.calls, Take(handle));
        CloseAddsNothing(s, handle, closed, h);
      case Elsewhere(c) =>
        CallsGrow(s.calls, c);
    }
  }

  lemma CloseAddsNothing(s: Store, handle: Handle, closed: Closing, h: int)
    requires !Owned(s, h)
    ensures !Owned(CloseStep(s, handle, closed).0, h)
  {
    var i := Find(s.owners, handle);
    if i < |s.owners| {
      var left := Without(s.owners, i);
      assert forall j :: 0 <= j < |left| ==> left[j] == s.owners[if j < i then j else j + 1];
    }
  }

  lemma HistoryNext(t: Transform, events: seq<Event>, k: nat)
    requires k < |events|
    ensures History(t, events[..k + 1]) == EventStep(t, History(t, events[..k]), events[k]).0
  {
    hide EventStep;
    assert events[..k + 1][..k] == events[..k];
  }

  lemma {:induction false} GoneStaysGone(t: Transform, events: seq<Event>, j: nat, k: nat, h: int)
    requires j <= k <= |events| && Gone(History(t, events[..j]), h)
    ensures Gone(History(t, events[..k]), h)
    decreases k
  {
    hide Gone, EventStep, Inv, History;
    if j < k {
      GoneStaysGone(t, events, j, k - 1, h);
      HistoryKeeps(t, events[..k - 1]);
      HistoryNext(t, events, k - 1);
      EventKeepsGone(t, History(t, events[..k - 1]), events[k - 1], h);
    }
  }

  /** Once closed, a handle is refused by every later close of the run. */
  lemma ClosedOnce(t: Transform, events: seq<Event>, j: nat, k: nat, h: Handle)
    requires j < k < |events| && events[j].CloseFile? && events[k].CloseFile?
    requires events[j].handle == events[k].handle == h && h != 0 && Owned(History(t, events[..j]), h)
    ensures EventStep(t, History(t, events[..k]), events[k]) == (History(t, events[..k]), INVALID_HANDLE)
  {
    hide CloseStep, Issued, Inv;
    var s := History(t, events[..j]);
    HistoryKeeps(t, events[..j]);
    OwnedIsIssued(t, s, h);
    CloseRemovesOne(t, s, h, events[j].closed, h);
    CloseCalls(s, h, events[j].closed);
    HistoryNext(t, events, j);
    GoneStaysGone(t, events, j + 1, k, h);
    CloseRefusedIff(History(t, events[..k]), h, events[k].closed);
  }

  lemma OwnedIsIssued(t: Transform, s: Store, h: int)
    requires Inv(t, s) && Owned(s, h)
    ensures h in Issued(s.calls)
  {
    hide Issued, Digest, HexWords;
  }

  lemma CloseCalls(s: Store, h: Handle, closed: Closing)
    requires h in Issued(s.calls)
    ensures h in Issued(CloseStep(s, h, closed).0.calls)
  {
    hide Issued;
    CallsGrow(s.calls, Take(h));
  }

  // ----- what was read -----

  function Joined(script: seq<Read>, n: nat): seq<byte>
    requires n <= |script| && forall i :: 0 <= i < n ==> script[i].Bytes?
  {
    if n == 0 then [] else Joined(script, n - 1) + script[n - 1].data
  }

  lemma {:induction false} JoinedFront(script: seq<Read>, n: nat)
    requires 0 < n <= |script| && forall i :: 0 <= i < n ==> script[i].Bytes?
    ensures Joined(script, n) == script[0].data + Joined(script[1..], n - 1)
  {
    if n > 1 {
      JoinedFront(script, n - 1);
      assert Joined(script[1..], n - 1) == Joined(script[1..], n - 2) + script[n - 1].data;
    }
  }

  /** The first `n` reads deliver something each, at most 64 KiB at a time. */
  ghost predicate Steady(script: seq<Read>, n: nat)
  {
    n <= |script| && forall i :: 0 <= i < n ==> script[i].Bytes? && 0 < |script[i].data| <= 65536
  }

  /** A snapshot holds the bytes its reads delivered, in order and nothing else. */
  lemma {:induction false} LoadDelivers(script: seq<Read>, length: nat, got: seq<byte>) returns (n: nat)
    requires |got| <= length && Load(script, length, got).Content?
    ensures Steady(script, n)
    ensures Load(script, length, got).bytes == got + Joined(script, n)
  {
    if |got| == length {
      n := 0;
      assert got + [] == got;
    } else {
      var m := LoadDelivers(script[1..], length, got + script[0].data);
      n := m + 1;
      assert forall i :: 1 <= i < n ==> script[i] == script[1..][i - 1];
      JoinedFront(script, n);
      assert got + (script[0].data + Joined(script[1..], m)) == (got + script[0].data) + Joined(script[1..], m);
    }
  }
}
