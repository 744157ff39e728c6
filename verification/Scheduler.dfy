/**
  The cooperative scheduler: a queue of tasks polled tick by tick, a status table,
  wakeup hints, cancellation and drop.

  A task is a state of type `S`; `Tasks` says what polling and cancelling do to it,
  so every statement is about arbitrary tasks that do not re-enter the scheduler.
  `Sched` is the scheduler as a value together with the history of what happened to
  its tasks; the methods of `CoroutineScheduler` are proved to act on it.
 */
module Scheduler {
  import opened Options

  type TaskId = nat
  type Instant = nat

  const MAX_ID: nat := 0xffff_ffff_ffff_ffff

  /** One poll: finished or not, the deadlines recorded meanwhile, and the task afterwards. */
  datatype Polled<S> = Polled(complete: bool, hints: seq<Instant>, task: S)

  datatype Tasks<!S> = Tasks(
    poll: S -> Polled<S>,
    cancel: S -> (bool, S),
    identity: S -> Option<(int, int)>)

  datatype Entry<S> = Entry(id: TaskId, task: S, nextWakeup: Option<Instant>)
  datatype Status = Pending | Completed | Canceled

  datatype Ending = ByCompletion | ByCancel | ByDrop
  datatype Event = Poll(id: TaskId) | Ended(id: TaskId, how: Ending)

  datatype Sched<S> = Sched(
    nextId: nat,
    queue: seq<Entry<S>>,
    completed: nat,
    statuses: map<TaskId, Status>,
    spawned: nat,
    log: seq<Event>)

  // ----- what each operation does -----

  function Fresh<S>(): Sched<S>
  {
    Sched(1, [], 0, map[], 0, [])
  }

  /** `u64::saturating_add(1)`. */
  function SaturatingNext(id: nat): nat
  {
    if id < MAX_ID then id + 1 else MAX_ID
  }

  function Spawn<S>(s: Sched<S>, task: S): Sched<S>
  {
    s.(nextId := SaturatingNext(s.nextId),
       queue := s.queue + [Entry(s.nextId, task, None)],
       statuses := s.statuses[s.nextId := Pending],
       spawned := s.spawned + 1)
  }

  /** Ask the task at `index` to cancel: it leaves the queue only if it agrees. */
  function CancelAt<S>(b: Tasks<S>, s: Sched<S>, index: nat): Sched<S>
    requires index < |s.queue|
  {
    var entry := s.queue[index];
    var (accepted, task) := b.cancel(entry.task);
    if accepted then
      s.(queue := s.queue[..index] + s.queue[index + 1..],
         statuses := s.statuses[entry.id := Canceled],
         log := s.log + [Ended(entry.id, ByCancel)])
    else
      s.(queue := s.queue[index := entry.(task := task)])
  }

  function FirstWithId<S>(q: seq<Entry<S>>, id: TaskId): (index: nat)
    ensures index <= |q|
    ensures index < |q| ==> q[index].id == id
    ensures forall k :: 0 <= k < index ==> q[k].id != id
  {
    if q == [] then 0 else if q[0].id == id then 0 else
      var rest := FirstWithId(q[1..], id);
      assert forall k :: 1 <= k < rest + 1 ==> q[k] == q[1..][k - 1];
      1 + rest
  }

  function FirstForeign<S>(b: Tasks<S>, q: seq<Entry<S>>, who: (int, int)): (index: nat)
    ensures index <= |q|
    ensures index < |q| ==> b.identity(q[index].task) == Some(who)
    ensures forall k :: 0 <= k < index ==> b.identity(q[k].task) != Some(who)
  {
    if q == [] then 0 else if b.identity(q[0].task) == Some(who) then 0 else
      var rest := FirstForeign(b, q[1..], who);
      assert forall k :: 1 <= k < rest + 1 ==> q[k] == q[1..][k - 1];
      1 + rest
  }

  function Cancel<S>(b: Tasks<S>, s: Sched<S>, id: TaskId): Sched<S>
  {
    var index := FirstWithId(s.queue, id);
    if index < |s.queue| then CancelAt(b, s, index) else s
  }

  function CancelForeign<S>(b: Tasks<S>, s: Sched<S>, who: (int, int)): Sched<S>
  {
    var index := FirstForeign(b, s.queue, who);
    if index < |s.queue| then CancelAt(b, s, index) else s
  }

  /**
    What asking the k-th queued task to cancel comes to. It is the task that answers: if it
    agrees, its entry alone is gone and its id alone is marked, and if it refuses, its own
    new state is all that changes.
   */
  ghost predicate Asked<S>(b: Tasks<S>, before: Sched<S>, k: nat, canceled: bool, after: Sched<S>)
    requires k < |before.queue|
  {
    var q, r, e := before.queue, after.queue, before.queue[k];
    && canceled == b.cancel(e.task).0
    && after.nextId == before.nextId && after.completed == before.completed && after.spawned == before.spawned
    && (canceled ==>
         && r == q[..k] + q[k + 1..]
         && after.log == before.log + [Ended(e.id, ByCancel)]
         && after.statuses.Keys == before.statuses.Keys + {e.id} && after.statuses[e.id] == Canceled
         && (forall id <- before.statuses :: id != e.id ==> after.statuses[id] == before.statuses[id]))
    && (!canceled ==>
         && |r| == |q| && r[k] == Entry(e.id, b.cancel(e.task).1, e.nextWakeup)
         && (forall i :: 0 <= i < |q| && i != k ==> r[i] == q[i])
         && after.log == before.log && after.statuses == before.statuses)
  }

  predicate Due<S>(e: Entry<S>, now: Instant)
  {
    e.nextWakeup.None? || e.nextWakeup.value <= now
  }

  /** The hint cell after a poll: the earliest deadline recorded, if any. */
  function Earliest(hints: seq<Instant>): Option<Instant>
  {
    if hints == [] then None else Lower(Earliest(hints[..|hints| - 1]), hints[|hints| - 1])
  }

  /** No deadline when none was recorded, otherwise the least of those recorded. */
  ghost predicate IsEarliest(cell: Option<Instant>, hints: seq<Instant>)
  {
    && (cell.None? <==> hints == [])
    && (cell.Some? ==> cell.value in hints && forall h <- hints :: cell.value <= h)
  }

  lemma {:induction false} EarliestIff(cell: Option<Instant>, hints: seq<Instant>)
    ensures cell == Earliest(hints) <==> IsEarliest(cell, hints)
    decreases |hints|
  {
    if hints != [] {
      var n := |hints| - 1;
      EarliestIff(Earliest(hints[..n]), hints[..n]);
      assert hints == hints[..n] + [hints[n]];
      assert IsEarliest(Earliest(hints), hints);
    }
  }

  function Lower(cell: Option<Instant>, deadline: Instant): Option<Instant>
  {
    match cell
    case Some(current) => if current <= deadline then cell else Some(deadline)
    case None => Some(deadline)
  }

  /** The entries left after one tick, in their old order. */
  function Survivors<S>(b: Tasks<S>, q: seq<Entry<S>>, now: Instant): seq<Entry<S>>
  {
    if q == [] then [] else
      var rest, e := Survivors(b, q[..|q| - 1], now), q[|q| - 1];
      if !Due(e, now) then rest + [e]
      else
        var p := b.poll(e.task);
        if p.complete then rest else rest + [Entry(e.id, p.task, Earliest(p.hints))]
  }

  /** The ids completed by one tick, in queue order. */
  function Ready<S>(b: Tasks<S>, q: seq<Entry<S>>, now: Instant): seq<TaskId>
  {
    if q == [] then [] else
      var rest, e := Ready(b, q[..|q| - 1], now), q[|q| - 1];
      if Due(e, now) && b.poll(e.task).complete then rest + [e.id] else rest
  }

  /** What one tick adds to the history: each due task is polled, and may end. */
  function TickLog<S>(b: Tasks<S>, q: seq<Entry<S>>, now: Instant): seq<Event>
  {
    if q == [] then [] else
      var rest, e := TickLog(b, q[..|q| - 1], now), q[|q| - 1];
      if !Due(e, now) then rest
      else if b.poll(e.task).complete then rest + [Poll(e.id), Ended(e.id, ByCompletion)]
      else rest + [Poll(e.id)]
  }

  function MarkCompleted(statuses: map<TaskId, Status>, ids: seq<TaskId>): map<TaskId, Status>
  {
    if ids == [] then statuses else MarkCompleted(statuses, ids[..|ids| - 1])[ids[|ids| - 1] := Completed]
  }

  function Tick<S>(b: Tasks<S>, s: Sched<S>, now: Instant): Sched<S>
  {
    var ready := Ready(b, s.queue, now);
    s.(queue := Survivors(b, s.queue, now),
       completed := s.completed + |ready|,
       statuses := MarkCompleted(s.statuses, ready),
       log := s.log + TickLog(b, s.queue, now))
  }

  /** `task_status`, with None for Unknown. */
  function StatusIn<S>(s: Sched<S>, id: TaskId): Option<Status>
  {
    if id in s.statuses then Some(s.statuses[id]) else None
  }

  function DropLog<S>(q: seq<Entry<S>>): seq<Event>
  {
    if q == [] then [] else DropLog(q[..|q| - 1]) + [Ended(q[|q| - 1].id, ByDrop)]
  }

  function Dropped<S>(s: Sched<S>): Sched<S>
  {
    s.(queue := [], log := s.log + DropLog(s.queue))
  }

  /** When the sleep between two ticks ends if nothing interrupts it; None when there is no sleep. */
  function SleepTarget<S>(q: seq<Entry<S>>, now: Instant): Option<Instant>
  {
    if |q| == 0 || exists i :: 0 <= i < |q| && Due(q[i], now) then None
    else EarliestDeadline(q)
  }

  function EarliestDeadline<S>(q: seq<Entry<S>>): Option<Instant>
  {
    if |q| == 0 then None else Lower(EarliestDeadline(q[..|q| - 1]), DeadlineOf(q[|q| - 1]))
  }

  function DeadlineOf<S>(e: Entry<S>): Instant
  {
    if e.nextWakeup.Some? then e.nextWakeup.value else 0
  }

  /** The k-th tick happens at `times(k).0`, the sleep after it reads the clock at `times(k).1`. */
  type Clock = nat -> (Instant, Instant)

  function RunUntilIdle<S>(b: Tasks<S>, s: Sched<S>, clock: Clock, k: nat, maxTicks: nat): (Sched<S>, seq<TaskId>)
    decreases maxTicks
  {
    if maxTicks == 0 || s.queue == [] then (s, [])
    else
      var now := clock(k).0;
      var (end, finished) := RunUntilIdle(b, Tick(b, s, now), clock, k + 1, maxTicks - 1);
      (end, Ready(b, s.queue, now) + finished)
  }

  // ----- unfolding, one entry at a time -----

  lemma TickNothing<S>(b: Tasks<S>, q: seq<Entry<S>>, now: Instant, statuses: map<TaskId, Status>)
    ensures Survivors(b, q[..0], now) == [] && Ready(b, q[..0], now) == [] && TickLog(b, q[..0], now) == []
    ensures MarkCompleted(statuses, []) == statuses
    ensures q == q[0..] + []
  {
  }

  lemma TickNext<S>(b: Tasks<S>, q: seq<Entry<S>>, i: nat, now: Instant)
    requires i < |q|
    ensures var e, p := q[i], b.poll(q[i].task);
            && Survivors(b, q[..i + 1], now) == Survivors(b, q[..i], now)
               + (if !Due(e, now) then [e] else if p.complete then [] else [Entry(e.id, p.task, Earliest(p.hints))])
            && Ready(b, q[..i + 1], now) == Ready(b, q[..i], now) + (if Due(e, now) && p.complete then [e.id] else [])
            && TickLog(b, q[..i + 1], now) == TickLog(b, q[..i], now)
               + (if !Due(e, now) then [] else if p.complete then [Poll(e.id), Ended(e.id, ByCompletion)] else [Poll(e.id)])
  {
    assert q[..i + 1][..i] == q[..i];
  }

  lemma MarkNext(statuses: map<TaskId, Status>, ids: seq<TaskId>, id: TaskId)
    ensures MarkCompleted(statuses, ids + [id]) == MarkCompleted(statuses, ids)[id := Completed]
  {
    assert (ids + [id])[..|ids|] == ids;
  }

  // ----- the scheduler itself -----

  class CoroutineScheduler<!S(!new)> {
    const tasks: Tasks<S>
    var nextId: nat
    var queue: seq<Entry<S>>
    var completed: nat
    var statuses: map<TaskId, Status>
    /** The thread-local cell a poll records its deadlines in. */
    var hint: Option<Instant>
    ghost var spawned: nat
    ghost var log: seq<Event>

    ghost function Value(): Sched<S>
      reads this
    {
      Sched(nextId, queue, completed, statuses, spawned, log)
    }

    constructor (b: Tasks<S>)
      ensures Value() == Fresh() && tasks == b
    {
      tasks := b;
      nextId, queue, completed, statuses, hint := 1, [], 0, map[], None;
      spawned, log := 0, [];
    }

    method SpawnTask(task: S) returns (id: TaskId)
      modifies this
      ensures Value() == Spawn(old(Value()), task) && id == old(nextId)
      ensures queue == old(queue) + [Entry(id, task, None)] && statuses == old(statuses)[id := Pending]
      ensures nextId == if id < 0xffff_ffff_ffff_ffff then id + 1 else 0xffff_ffff_ffff_ffff
      ensures completed == old(completed)
    {
      id := nextId;
      nextId := SaturatingNext(nextId);
      queue := queue + [Entry(id, task, None)];
      statuses := statuses[id := Pending];
      spawned := spawned + 1;
    }

    method TaskStatus(id: TaskId) returns (status: Option<Status>)
      ensures status == StatusIn(Value(), id)
    {
      status := if id in statuses then Some(statuses[id]) else None;
    }

    method CancelTask(id: TaskId) returns (canceled: bool)
      modifies this
      ensures Value() == Cancel(tasks, old(Value()), id)
      ensures canceled <==> |queue| < |old(queue)|
      ensures (forall e <- old(queue) :: e.id != id) ==> !canceled && Value() == old(Value())
      ensures forall k ::
                0 <= k < |old(queue)| && old(queue)[k].id == id && (forall j :: 0 <= j < k ==> old(queue)[j].id != id) ==>
                  Asked(tasks, old(Value()), k, canceled, Value())
    {
      var index := 0;
      while index < |queue| && queue[index].id != id
        invariant 0 <= index <= |queue| && Value() == old(Value())
        invariant forall k :: 0 <= k < index ==> queue[k].id != id
      {
        index := index + 1;
      }
      assert index == FirstWithId(queue, id);
      if index == |queue| {
        return false;
      }
      canceled := CancelIndex(index);
    }

    method CancelForeignTask(kind: int, handle: int) returns (canceled: bool)
      modifies this
      ensures Value() == CancelForeign(tasks, old(Value()), (kind, handle))
      ensures canceled <==> |queue| < |old(queue)|
      ensures (forall e <- old(queue) :: tasks.identity(e.task) != Some((kind, handle))) ==>
                !canceled && Value() == old(Value())
      ensures forall k ::
                0 <= k < |old(queue)| && tasks.identity(old(queue)[k].task) == Some((kind, handle))
                && (forall j :: 0 <= j < k ==> tasks.identity(old(queue)[j].task) != Some((kind, handle))) ==>
                  Asked(tasks, old(Value()), k, canceled, Value())
    {
      var index := 0;
      while index < |queue| && tasks.identity(queue[index].task) != Some((kind, handle))
        invariant 0 <= index <= |queue| && Value() == old(Value())
        invariant forall k :: 0 <= k < index ==> tasks.identity(queue[k].task) != Some((kind, handle))
      {
        index := index + 1;
      }
      assert index == FirstForeign(tasks, queue, (kind, handle));
      if index == |queue| {
        return false;
      }
      canceled := CancelIndex(index);
    }

    method CancelIndex(index: nat) returns (canceled: bool)
      requires index < |queue|
      modifies this
      ensures Value() == CancelAt(tasks, old(Value()), index)
      ensures canceled <==> |queue| < |old(queue)|
      ensures Asked(tasks, old(Value()), index, canceled, Value())
    {
      var entry := queue[index];
      var (accepted, task) := tasks.cancel(entry.task);
      if !accepted {
        queue := queue[index := entry.(task := task)];
        return false;
      }
      queue := queue[..index] + queue[index + 1..];
      statuses := statuses[entry.id := Canceled];
      log := log + [Ended(entry.id, ByCancel)];
      canceled := true;
    }

    method RecordHint(deadline: Instant)
      modifies this`hint
      ensures hint == Lower(old(hint), deadline)
    {
      match hint {
        case Some(current) =>
          hint := if current <= deadline then Some(current) else Some(deadline);
        case None =>
          hint := Some(deadline);
      }
    }

    /** A poll, recording its deadlines in the cell one after the other. */
    method PollTask(task: S) returns (complete: bool, after: S)
      requires hint == None
      modifies this`hint
      ensures complete == tasks.poll(task).complete && after == tasks.poll(task).task
      ensures hint == Earliest(tasks.poll(task).hints) && IsEarliest(hint, tasks.poll(task).hints)
    {
      var p := tasks.poll(task);
      for i := 0 to |p.hints|
        invariant hint == Earliest(p.hints[..i])
      {
        assert p.hints[..i + 1][..i] == p.hints[..i];
        RecordHint(p.hints[i]);
      }
      assert p.hints[..|p.hints|] == p.hints;
      EarliestIff(hint, p.hints);
      return p.complete, p.task;
    }

    /** One tick: rotate once through the queue, dropping what completes. */
    method TickAll(now: Instant) returns (ready: seq<TaskId>)
      modifies this
      ensures Value() == Tick(tasks, old(Value()), now)
      ensures ready == Ready(tasks, old(queue), now)
    {
      hide Survivors, Ready, TickLog, MarkCompleted;
      ready := [];
      ghost var q := queue;
      var cycle := |queue|;
      TickNothing(tasks, q, now, statuses);
      for i := 0 to cycle
        invariant queue == q[i..] + Survivors(tasks, q[..i], now)
        invariant ready == Ready(tasks, q[..i], now)
        invariant completed == old(completed) + |ready|
        invariant statuses == MarkCompleted(old(statuses), ready)
        invariant log == old(log) + TickLog(tasks, q[..i], now)
        invariant nextId == old(nextId) && spawned == old(spawned)
      {
        TickNext(tasks, q, i, now);
        MarkNext(old(statuses), ready, q[i].id);
        var entry := queue[0];
        assert entry == q[i] && queue[1..] == q[i + 1..] + Survivors(tasks, q[..i], now);
        queue := queue[1..];
        if entry.nextWakeup.Some? && entry.nextWakeup.value > now {
          queue := queue + [entry];
        } else {
          hint := None;
          var complete, task := PollTask(entry.task);
          if complete {
            completed := completed + 1;
            statuses := statuses[entry.id := Completed];
            ready := ready + [entry.id];
            log := log + [Poll(entry.id), Ended(entry.id, ByCompletion)];
          } else {
            queue := queue + [Entry(entry.id, task, hint)];
            hint := None;
            log := log + [Poll(entry.id)];
          }
        }
      }
      assert q[..|q|] == q;
    }

    /** How long to sleep: until the earliest deadline, unless some task is due. */
    method SleepUntilNextWakeup(now: Instant) returns (target: Option<Instant>)
      ensures target == SleepTarget(queue, now)
    {
      target := None;
      for i := 0 to |queue|
        invariant target == EarliestDeadline(queue[..i])
        invariant forall k :: 0 <= k < i ==> !Due(queue[k], now)
      {
        if queue[i].nextWakeup.None? || queue[i].nextWakeup.value <= now {
          assert Due(queue[i], now);
          return None;
        }
        assert queue[..i + 1][..i] == queue[..i];
        target := Lower(target, queue[i].nextWakeup.value);
      }
      assert queue[..|queue|] == queue;
    }

    method RunToIdle(clock: Clock, maxTicks: nat) returns (finished: seq<TaskId>)
      modifies this
      ensures (Value(), finished) == RunUntilIdle(tasks, old(Value()), clock, 0, maxTicks)
    {
      hide Tick, Ready, SleepTarget;
      finished := [];
      var k := 0;
      ghost var goal := RunUntilIdle(tasks, Value(), clock, 0, maxTicks);
      ghost var rest := goal;
      assert [] + goal.1 == goal.1;
      while k < maxTicks && queue != []
        invariant k <= maxTicks
        invariant rest == RunUntilIdle(tasks, Value(), clock, k, maxTicks - k)
        invariant goal == (rest.0, finished + rest.1)
      {
        ghost var done, later := finished, RunUntilIdle(tasks, Tick(tasks, Value(), clock(k).0), clock, k + 1, maxTicks - k - 1);
        var ready := TickAll(clock(k).0);
        finished := finished + ready;
        k := k + 1;
        assert done + (ready + later.1) == (done + ready) + later.1;
        rest := later;
        if queue == [] {
          break;
        }
        var target := SleepUntilNextWakeup(clock(k - 1).1);
      }
      assert finished + [] == finished;
    }

    method DropScheduler()
      modifies this
      ensures Value() == Dropped(old(Value()))
    {
      ghost var q := queue;
      assert q[..0] == [];
      ghost var i := 0;
      while queue != []
        invariant 0 <= i <= |q| && queue == q[i..]
        invariant log == old(log) + DropLog(q[..i])
        invariant Value() == old(Value()).(queue := queue, log := log)
        decreases |queue|
      {
        assert q[..i + 1][..i] == q[..i];
        log := log + [Ended(queue[0].id, ByDrop)];
        queue := queue[1..];
        i := i + 1;
      }
      assert q[..|q|] == q;
    }
  }
}
