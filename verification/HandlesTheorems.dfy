/**
  Theorems about the handle table, over every sequence of calls: it behaves like a map
  from handles to pointers that never issues a handle twice, so a freed handle stays dead.
 */
module HandlesTheorems {
  import opened Handles

  // ----- the ledger -----

  /** The handles the calls were given, oldest first. */
  function Issued(calls: seq<Call>): seq<int>
  {
    if calls == [] then [] else
      var n := |calls| - 1;
      var before := Issued(calls[..n]);
      if calls[n].New? && Answer(calls, n) > 0 then before + [Answer(calls, n)] else before
  }

  /** A plain map: `New` adds the handle it answers, `Take` removes the one it is given. */
  function Ledger(calls: seq<Call>): map<int, nat>
  {
    if calls == [] then map[] else
      var n := |calls| - 1;
      var before := Ledger(calls[..n]);
      match calls[n]
      case New(ptr, _) => if Answer(calls, n) > 0 then before[Answer(calls, n) := ptr] else before
      case Get(_) => before
      case Take(handle) => before - {handle}
  }

  function Lookup(ledger: map<int, nat>, handle: int): nat
  {
    if handle in ledger then ledger[handle] else 0
  }

  // ----- the invariant -----

  predicate SlotOk(s: Slot)
  {
    1 <= s.generation <= LAST
    && (s.alive ==> s.ptr != 0)
    && (s.generation == LAST ==> s.alive)
  }

  ghost predicate TableOk(t: Table)
  {
    |t.slots| <= t.capacity <= MAX_SLOTS && forall i :: 0 <= i < |t.slots| ==> SlotOk(t.slots[i])
  }

  /** The handle belongs to a generation its slot has had. */
  predicate Known(slots: seq<Slot>, handle: int)
  {
    handle < I63 && Decodes(slots, handle) && handle / U32 <= slots[handle % U32 - 1].generation
  }

  ghost predicate Matches(t: Table, issued: seq<int>, ledger: map<int, nat>)
  {
    (forall h :: h in issued <==> Known(t.slots, h))
    && (forall h :: h in ledger <==> h < I63 && Current(t.slots, h))
    && (forall h :: h in ledger ==> ledger[h] == t.slots[h % U32 - 1].ptr)
  }

  lemma PackParts(g: nat, i: nat)
    requires 1 <= g <= LAST && i < MAX_SLOTS
    ensures g < LAST ==> 0 < Pack(g, i) < I63 && Pack(g, i) / U32 == g && Pack(g, i) % U32 == i + 1
    ensures g == LAST ==> Pack(g, i) < 0
  {
    if g < LAST {
      assert Pack(g, i) == g * U32 + (i + 1);
    }
  }

  /** The table has a free slot or gets a new one. */
  ghost predicate HasRoom(t: Table, granted: bool)
  {
    FirstFree(t.slots) < |t.slots| || Fits(t.capacity, |t.slots| + 1, granted)
  }

  /** A free slot is never in its last generation, so the wrapped generation is never reached. */
  lemma NewGeneration(t: Table, granted: bool)
    requires TableOk(t) && HasRoom(t, granted)
    ensures var i := FirstFree(t.slots);
            i < MAX_SLOTS && GenerationAt(t.slots, i) < LAST
            && NextGeneration(GenerationAt(t.slots, i)) == GenerationAt(t.slots, i) + 1
  {
    var i := FirstFree(t.slots);
    if i < |t.slots| {
      assert SlotOk(t.slots[i]);
    }
  }

  lemma NewKeepsOk(t: Table, ptr: nat, granted: bool)
    requires TableOk(t)
    ensures TableOk(NewStep(t, ptr, granted).0)
  {
    if HasRoom(t, granted) {
      NewGeneration(t, granted);
    }
  }

  lemma TakeKeepsOk(t: Table, handle: int)
    requires TableOk(t) && handle < I63
    ensures TableOk(TakeStep(t, handle).0)
  {
    if Current(t.slots, handle) {
      assert SlotOk(t.slots[handle % U32 - 1]);
      assert handle / U32 < LAST;
    }
  }

  // ----- one call -----

  /** A new handle is fresh, and it is the only change to what handles mean. */
  lemma NewMatches(t: Table, ptr: nat, granted: bool, issued: seq<int>, ledger: map<int, nat>)
    requires TableOk(t) && Matches(t, issued, ledger)
    ensures var (u, h) := NewStep(t, ptr, granted);
            h !in issued
            && (h > 0 ==> Matches(u, issued + [h], ledger[h := ptr]))
            && (h <= 0 ==> Matches(u, issued, ledger))
  {
    var (u, h) := NewStep(t, ptr, granted);
    assert !Known(t.slots, 0);
    if ptr != 0 && HasRoom(t, granted) {
      NewGeneration(t, granted);
      var i := FirstFree(t.slots);
      var g := GenerationAt(t.slots, i) + 1;
      assert Refilled(t.slots, u.slots, i, g, ptr) && h == Pack(g, i);
      RefillMatches(t, u, i, g, ptr, issued, ledger);
    }
  }

  lemma RefillMatches(t: Table, u: Table, i: nat, g: nat, ptr: nat, issued: seq<int>, ledger: map<int, nat>)
    requires Refilled(t.slots, u.slots, i, g, ptr) && Matches(t, issued, ledger)
    ensures var h := Pack(g, i);
            h !in issued
            && (h > 0 ==> Matches(u, issued + [h], ledger[h := ptr]))
            && (h <= 0 ==> Matches(u, issued, ledger))
  {
    hide Pack, Known, Current, Refilled;
    RefillFacts(t.slots, u.slots, i, g, ptr);
    forall k {
      NewKnows(t.slots, u.slots, i, g, ptr, k);
    }
  }

  lemma RefillFacts(s: seq<Slot>, u: seq<Slot>, i: nat, g: nat, ptr: nat)
    requires Refilled(s, u, i, g, ptr)
    ensures !Known(s, Pack(g, i))
    ensures Pack(g, i) > 0 <==> g < LAST
    ensures g < LAST ==> Current(u, Pack(g, i)) && u[Pack(g, i) % U32 - 1].ptr == ptr
  {
    PackParts(g, i);
  }

  ghost predicate Refilled(s: seq<Slot>, u: seq<Slot>, i: nat, g: nat, ptr: nat)
  {
    i <= |s| && i < MAX_SLOTS && g == GenerationAt(s, i) + 1 <= LAST
    && (i < |s| ==> !s[i].alive) && u == Put(s, i, Slot(ptr, g, true))
  }

  lemma NewKnows(s: seq<Slot>, u: seq<Slot>, i: nat, g: nat, ptr: nat, k: int)
    requires Refilled(s, u, i, g, ptr)
    ensures Known(u, k) <==> Known(s, k) || (g < LAST && k == Pack(g, i))
    ensures k < I63 && Current(u, k) <==> (k < I63 && Current(s, k)) || (g < LAST && k == Pack(g, i))
    ensures Current(s, k) ==> u[k % U32 - 1] == s[k % U32 - 1]
  {
    PackParts(g, i);
    if 0 < k < I63 && k % U32 == i + 1 {
      assert k == k / U32 * U32 + i + 1;
    }
  }

  lemma TakeMatches(t: Table, handle: int, issued: seq<int>, ledger: map<int, nat>)
    requires TableOk(t) && Matches(t, issued, ledger) && handle < I63
    ensures Matches(TakeStep(t, handle).0, issued, ledger - {handle})
    ensures TakeStep(t, handle).1 == Lookup(ledger, handle)
  {
  }

  // ----- every run -----

  ghost predicate Distinct(s: seq<int>)
  {
    forall i, j :: 0 <= i < j < |s| ==> s[i] != s[j]
  }

  lemma {:induction false} RunMatches(calls: seq<Call>)
    ensures TableOk(Run(calls)) && Matches(Run(calls), Issued(calls), Ledger(calls))
    ensures Distinct(Issued(calls))
  {
    if calls != [] {
      var n := |calls| - 1;
      var before := calls[..n];
      RunMatches(before);
      match calls[n] {
        case New(ptr, granted) =>
          NewKeepsOk(Run(before), ptr, granted);
          NewMatches(Run(before), ptr, granted, Issued(before), Ledger(before));
        case Get(_) =>
        case Take(handle) =>
          TakeKeepsOk(Run(before), handle);
          TakeMatches(Run(before), handle, Issued(before), Ledger(before));
      }
    }
  }

  /** Every answer is the ledger's, and a new handle has never been issued before. */
  lemma AnswersFromLedger(calls: seq<Call>, k: nat)
    requires k < |calls|
    ensures match calls[k]
            case New(_, _) => Answer(calls, k) !in Issued(calls[..k])
            case Get(handle) => Answer(calls, k) == Lookup(Ledger(calls[..k]), handle)
            case Take(handle) => Answer(calls, k) == Lookup(Ledger(calls[..k]), handle)
  {
    var before := calls[..k];
    RunMatches(before);
    match calls[k] {
      case New(ptr, granted) =>
        NewMatches(Run(before), ptr, granted, Issued(before), Ledger(before));
      case Get(_) =>
      case Take(handle) =>
        TakeMatches(Run(before), handle, Issued(before), Ledger(before));
    }
  }

  /** The calls up to and including number `k`. */
  lemma OneMore(calls: seq<Call>, k: nat)
    requires k < |calls|
    ensures calls[..k + 1][..k] == calls[..k] && calls[..k + 1][k] == calls[k]
    ensures Answer(calls[..k + 1], k) == Answer(calls, k)
  {
    assert calls[..k + 1][..k] == calls[..k];
  }

  lemma AnswerInRange(calls: seq<Call>, k: nat)
    requires k < |calls| && calls[k].New?
    ensures Answer(calls, k) < I63
  {
    hide Answer, Run, Step;
    OneMore(calls, k);
    RunMatches(calls[..k + 1]);
    if Answer(calls, k) > 0 {
      assert Answer(calls, k) in Issued(calls[..k + 1]);
    }
  }

  lemma {:induction false} DeadStaysDead(calls: seq<Call>, j: nat, k: nat, h: int)
    requires j <= k <= |calls|
    requires h in Issued(calls[..j]) && h !in Ledger(calls[..j])
    ensures h in Issued(calls[..k]) && h !in Ledger(calls[..k])
    decreases k
  {
    hide Run, Step, Answer;
    if j < k {
      DeadStaysDead(calls, j, k - 1, h);
      OneMore(calls, k - 1);
      AnswersFromLedger(calls, k - 1);
    }
  }

  /** Once a handle was taken, no later call in any run resolves it. */
  lemma TakenNeverResolves(calls: seq<Call>, j: nat, k: nat, h: Handle)
    requires j < k < |calls| && calls[j] == Take(h) && Answer(calls, j) != 0
    requires calls[k] == Get(h) || calls[k] == Take(h)
    ensures Answer(calls, k) == 0
  {
    hide Run, Step, Answer;
    AnswersFromLedger(calls, j);
    RunMatches(calls[..j]);
    OneMore(calls, j);
    DeadStaysDead(calls, j + 1, k, h);
    AnswersFromLedger(calls, k);
  }

  ghost predicate TakenBetween(calls: seq<Call>, j: nat, k: nat, h: Handle)
  {
    exists i :: j <= i < k && i < |calls| && calls[i] == Take(h)
  }

  lemma {:induction false} StaysLive(calls: seq<Call>, j: nat, k: nat, h: Handle)
    requires j <= k <= |calls| && h in Ledger(calls[..j]) && !TakenBetween(calls, j, k, h)
    ensures h in Ledger(calls[..k]) && Ledger(calls[..k])[h] == Ledger(calls[..j])[h]
    decreases k
  {
    hide Run, Step, Answer;
    if j < k {
      StaysLive(calls, j, k - 1, h);
      OneMore(calls, k - 1);
      AnswersFromLedger(calls, k - 1);
      RunMatches(calls[..k - 1]);
      assert calls[k - 1] != Take(h);
    }
  }

  /** A handle answers its own pointer exactly until it is taken. */
  lemma ResolvesUntilTaken(calls: seq<Call>, j: nat, k: nat, h: Handle)
    requires j < k < |calls| && calls[j].New? && Answer(calls, j) == h && h > 0 && calls[k] == Get(h)
    ensures Answer(calls, k) == if TakenBetween(calls, j + 1, k, h) then 0 else calls[j].ptr
  {
    hide Run, Step, Answer;
    OneMore(calls, j);
    if TakenBetween(calls, j + 1, k, h) {
      var i :| j + 1 <= i < k && i < |calls| && calls[i] == Take(h);
      IssuedStays(calls, j + 1, i, h);
      OneMore(calls, i);
      DeadStaysDead(calls, i + 1, k, h);
    } else {
      StaysLive(calls, j + 1, k, h);
    }
    AnswersFromLedger(calls, k);
  }

  lemma {:induction false} IssuedStays(calls: seq<Call>, j: nat, k: nat, h: int)
    requires j <= k <= |calls| && h in Issued(calls[..j])
    ensures h in Issued(calls[..k])
    decreases k
  {
    hide Run, Step, Answer;
    if j < k {
      IssuedStays(calls, j, k - 1, h);
      OneMore(calls, k - 1);
    }
  }

  // ----- the last generation -----

  /**
    A registered pointer can be read back exactly when its slot is not entering its last
    generation; otherwise the handle is negative.
   */
  lemma ReadsBackIff(calls: seq<Call>, ptr: nat, granted: bool)
    requires ptr != 0 && HasRoom(Run(calls), granted)
    ensures var t := Run(calls);
            var (u, h) := NewStep(t, ptr, granted);
            && (GetStep(u, h) == ptr <==> GenerationAt(t.slots, FirstFree(t.slots)) + 1 < LAST)
            && (GetStep(u, h) == ptr <==> h > 0) && (h < 0 <==> GenerationAt(t.slots, FirstFree(t.slots)) + 1 == LAST)
  {
    hide Run;
    RunMatches(calls);
    NewAnswer(Run(calls), ptr, granted);
  }

  lemma NewAnswer(t: Table, ptr: nat, granted: bool)
    requires TableOk(t) && ptr != 0 && HasRoom(t, granted)
    ensures var i := FirstFree(t.slots);
            var (u, h) := NewStep(t, ptr, granted);
            && GenerationAt(t.slots, i) + 1 <= LAST
            && (h > 0 <==> GenerationAt(t.slots, i) + 1 < LAST) && (h < 0 <==> GenerationAt(t.slots, i) + 1 == LAST)
            && GetStep(u, h) == if h > 0 then ptr else 0
  {
    var i := FirstFree(t.slots);
    NewGeneration(t, granted);
    PackParts(GenerationAt(t.slots, i) + 1, i);
    hide TableOk, NextGeneration, FirstFree, Fits, Room, Pack;
  }

  // ----- a run into the last generation -----

  /** Register and free one pointer, `g` times over. */
  function Recycle(g: nat): seq<Call>
    requires g < LAST
  {
    if g == 0 then [] else Recycle(g - 1) + [New(1, true), Take(g * U32 + 1)]
  }

  lemma {:induction false} Recycled(g: nat)
    requires 0 < g < LAST
    ensures Run(Recycle(g)) == Table([Slot(0, g, false)], 16)
  {
    var before, calls := Recycle(g - 1), Recycle(g);
    var middle := before + [New(1, true)];
    assert calls == middle + [Take(g * U32 + 1)];
    assert middle[..|before|] == before && calls[..|middle|] == middle;
    if g > 1 {
      Recycled(g - 1);
    }
    RecycleNew(Run(before), g);
    RecycleTake(g);
  }

  lemma RecycleNew(t: Table, g: nat)
    requires 0 < g < LAST && t == if g == 1 then EMPTY else Table([Slot(0, g - 1, false)], 16)
    ensures NewStep(t, 1, true) == (Table([Slot(1, g, true)], 16), g * U32 + 1)
  {
    PackParts(g, 0);
    if g == 1 {
      assert Doubled(16, 1) == 16 && Room(0, 1) == 16;
      assert [] + [Slot(1, g, true)] == [Slot(1, g, true)];
    } else {
      assert FirstFree([Slot(0, g - 1, false)]) == 0;
      assert [Slot(0, g - 1, false)][0 := Slot(1, g, true)] == [Slot(1, g, true)];
    }
  }

  lemma RecycleTake(g: nat)
    requires 0 < g < LAST
    ensures TakeStep(Table([Slot(1, g, true)], 16), g * U32 + 1) == (Table([Slot(0, g, false)], 16), 1)
  {
    PackParts(g, 0);
    assert [Slot(1, g, true)][0 := Slot(0, g, false)] == [Slot(0, g, false)];
  }

  /** There is a run after which a granted registration answers a negative handle and cannot be read back. */
  lemma LastGenerationReached()
    ensures var t := Run(Recycle(LAST - 1));
            HasRoom(t, true) && NewStep(t, 1, true).1 < 0 && GetStep(NewStep(t, 1, true).0, NewStep(t, 1, true).1) != 1
  {
    hide Recycle, Run;
    Recycled(LAST - 1);
    ReadsBackIff(Recycle(LAST - 1), 1, true);
  }

  /** A slot in its last generation is never freed again. */
  lemma {:induction false} RetiredForever(calls: seq<Call>, j: nat, k: nat, i: nat)
    requires j <= k <= |calls| && i < |Run(calls[..j]).slots|
    requires Run(calls[..j]).slots[i].generation == LAST
    ensures i < |Run(calls[..k]).slots| && Run(calls[..k]).slots[i] == Run(calls[..j]).slots[i]
    decreases k
  {
    if j < k {
      RetiredForever(calls, j, k - 1, i);
      OneMore(calls, k - 1);
      RunMatches(calls[..k - 1]);
      StepKeepsRetired(Run(calls[..k - 1]), calls[k - 1], i);
    }
  }

  lemma StepKeepsRetired(t: Table, c: Call, i: nat)
    requires TableOk(t) && i < |t.slots| && t.slots[i].generation == LAST
    ensures i < |Step(t, c).0.slots| && Step(t, c).0.slots[i] == t.slots[i]
  {
    assert SlotOk(t.slots[i]);
  }

  // ----- reuse -----

  function Peak(calls: seq<Call>): nat
  {
    var now := Alive(Run(calls).slots);
    if calls == [] then now else
      var before := Peak(calls[..|calls| - 1]);
      if now > before then now else before
  }

  lemma {:induction false} AllAlive(slots: seq<Slot>)
    requires forall k :: 0 <= k < |slots| ==> slots[k].alive
    ensures Alive(slots) == |slots|
  {
    if slots != [] {
      AllAlive(slots[..|slots| - 1]);
    }
  }

  lemma StepSlots(t: Table, c: Call)
    ensures var u := Step(t, c).0;
            |u.slots| == |t.slots| || (|u.slots| == |t.slots| + 1 && Alive(u.slots) == |u.slots|)
  {
    var u := Step(t, c).0;
    if |u.slots| > |t.slots| {
      AllAlive(u.slots);
    }
  }

  /** The table is never longer than the most handles that were alive at one time. */
  lemma {:induction false} SlotsArePeak(calls: seq<Call>)
    ensures |Run(calls).slots| == Peak(calls)
  {
    if calls != [] {
      var n := |calls| - 1;
      SlotsArePeak(calls[..n]);
      StepSlots(Run(calls[..n]), calls[n]);
    }
  }

  // ----- growth -----

  /** Sixteen, doubled any number of times. */
  predicate Doubling(c: nat)
  {
    c == 16 || (c > 16 && c % 2 == 0 && Doubling(c / 2))
  }

  /** No slots and no capacity, or the smallest doubling of sixteen that holds the slots. */
  predicate Sized(t: Table)
  {
    if t.slots == [] then t.capacity == 0
    else Doubling(t.capacity) && |t.slots| <= t.capacity && (t.capacity == 16 || t.capacity / 2 < |t.slots|)
  }

  lemma {:induction false} DoubledSized(capacity: nat, need: nat)
    requires Doubling(capacity)
    ensures var c := Doubled(capacity, need); Doubling(c) && (c == capacity || c / 2 < need)
    decreases need - capacity
  {
    if capacity < need {
      assert 2 * capacity / 2 == capacity;
      DoubledSized(2 * capacity, need);
    }
  }

  lemma RoomSized(t: Table)
    requires Sized(t)
    ensures var n, c := |t.slots| + 1, Room(t.capacity, |t.slots| + 1);
            Doubling(c) && n <= c && (c == 16 || c / 2 < n)
  {
    hide Doubling, Doubled;
    if t.capacity == 0 {
      assert Doubling(16) by { NoDoubling(); }
      DoubledSized(16, |t.slots| + 1);
    } else if t.capacity < |t.slots| + 1 {
      DoubledSized(t.capacity, |t.slots| + 1);
    }
  }

  lemma NoDoubling()
    ensures Doubling(16) && !Doubling(0)
  {
  }

  lemma StepSized(t: Table, c: Call)
    requires Sized(t)
    ensures Sized(Step(t, c).0)
  {
    RoomSized(t);
    hide Doubling, Room, Fits, Pack, NextGeneration, GenerationAt;
    NoDoubling();
  }

  /** In every run the capacity is the smallest doubling of sixteen that holds the slots. */
  lemma {:induction false} RunSized(calls: seq<Call>)
    ensures Sized(Run(calls))
    decreases |calls|
  {
    if calls != [] {
      var n := |calls| - 1;
      RunSized(calls[..n]);
      hide Sized, Step;
      StepSized(Run(calls[..n]), calls[n]);
    }
  }

  lemma FitsFull(n: nat, granted: bool)
    ensures Fits(n, n + 1, granted) <==> granted && (n == 0 || 2 * n <= MAX_SLOTS)
  {
    assert Doubled(16, 1) == 16;
    if n > 0 {
      assert Doubled(n, n + 1) == Doubled(2 * n, n + 1) == 2 * n;
    }
  }

  /**
    Exactly when registering fails: a null pointer, or every slot up to the capacity alive and
    twice as many either too many or not granted.
   */
  lemma RefusedIff(calls: seq<Call>, ptr: nat, granted: bool)
    ensures var t := Run(calls);
            NewStep(t, ptr, granted).1 == 0 <==>
              ptr == 0 || (&& (forall k :: 0 <= k < |t.slots| ==> t.slots[k].alive) && |t.slots| == t.capacity
                           && (!granted || 2 * |t.slots| > 0x8000_0000))
  {
    var t := Run(calls);
    RunMatches(calls);
    RunSized(calls);
    FitsFull(|t.slots|, granted);
    hide Run, Doubling, Fits, Room, Matches;
    if ptr != 0 && HasRoom(t, granted) {
      NewAnswer(t, ptr, granted);
    }
  }
}
