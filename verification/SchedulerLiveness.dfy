/**
  One tick polls exactly the due tasks, in order; and why repeated ticks empty the queue.
 */
module SchedulerLiveness {
  import opened Options
  import opened Scheduler

  // ----- one tick -----

  function PollsOf(log: seq<Event>): seq<TaskId>
  {
    if log == [] then [] else
      PollsOf(log[..|log| - 1]) + (if log[|log| - 1].Poll? then [log[|log| - 1].id] else [])
  }

  /** Waiting for a deadline that lies ahead: the only entries a tick leaves alone. */
  predicate Asleep<S>(e: Entry<S>, now: Instant)
  {
    e.nextWakeup.Some? && now < e.nextWakeup.value
  }

  function DueIds<S>(q: seq<Entry<S>>, now: Instant): seq<TaskId>
  {
    if |q| == 0 then [] else
      DueIds(q[..|q| - 1], now) + (if Asleep(q[|q| - 1], now) then [] else [q[|q| - 1].id])
  }

  lemma PollsAppend(log: seq<Event>, e: Event)
    ensures PollsOf(log + [e]) == PollsOf(log) + (if e.Poll? then [e.id] else [])
  {
    assert (log + [e])[..|log|] == log;
  }

  /** A tick polls the due tasks: each once, in queue order, and no other. */
  lemma {:induction false} TickPollsDue<S>(b: Tasks<S>, q: seq<Entry<S>>, now: Instant)
    ensures PollsOf(TickLog(b, q, now)) == DueIds(q, now)
    decreases |q|
  {
    if |q| != 0 {
      var e := q[|q| - 1];
      var rest := TickLog(b, q[..|q| - 1], now);
      TickPollsDue(b, q[..|q| - 1], now);
      hide PollsOf;
      PollsAppend(rest, Poll(e.id));
      PollsAppend(rest + [Poll(e.id)], Ended(e.id, ByCompletion));
      assert rest + [Poll(e.id)] + [Ended(e.id, ByCompletion)] == rest + [Poll(e.id), Ended(e.id, ByCompletion)];
    }
  }

  predicate Finishing<S>(b: Tasks<S>, e: Entry<S>, now: Instant)
  {
    !Asleep(e, now) && b.poll(e.task).complete
  }

  /** What becomes of an entry that does not finish: left alone, or polled and put back with its new deadline. */
  ghost predicate Carried<S>(b: Tasks<S>, e: Entry<S>, now: Instant, after: Entry<S>)
  {
    if Asleep(e, now) then after == e
    else after.id == e.id && after.task == b.poll(e.task).task && IsEarliest(after.nextWakeup, b.poll(e.task).hints)
  }

  /** What the last entry of a queue adds to a tick. */
  lemma LastTicked<S>(b: Tasks<S>, q: seq<Entry<S>>, now: Instant)
    requires |q| > 0
    ensures var n := |q| - 1;
            var s, r := Survivors(b, q[..n], now), Ready(b, q[..n], now);
            && (Finishing(b, q[n], now) ==> Survivors(b, q, now) == s && Ready(b, q, now) == r + [q[n].id])
            && (!Finishing(b, q[n], now) ==>
                 Ready(b, q, now) == r && |Survivors(b, q, now)| == |s| + 1
                 && Survivors(b, q, now)[..|s|] == s && Carried(b, q[n], now, Survivors(b, q, now)[|s|]))
  {
    hide IsEarliest;
    var hints := b.poll(q[|q| - 1].task).hints;
    EarliestIff(Earliest(hints), hints);
  }

  /** The entries of `survivors` are entries of `q` that do not finish, at the positions `at`. */
  ghost predicate Placed<S>(b: Tasks<S>, q: seq<Entry<S>>, now: Instant, survivors: seq<Entry<S>>, at: seq<nat>)
  {
    && |at| == |survivors|
    && (forall i, j :: 0 <= i < j < |at| ==> at[i] < at[j])
    && (forall i :: 0 <= i < |at| ==> at[i] < |q| && !Finishing(b, q[at[i]], now) && Carried(b, q[at[i]], now, survivors[i]))
  }

  lemma PlacedLast<S>(b: Tasks<S>, q: seq<Entry<S>>, now: Instant, front: seq<Entry<S>>, survivors: seq<Entry<S>>, at: seq<nat>)
    requires |q| > 0 && Placed(b, q[..|q| - 1], now, front, at) && |survivors| == |front| + 1
    requires survivors[..|front|] == front && Carried(b, q[|q| - 1], now, survivors[|front|])
    requires !Finishing(b, q[|q| - 1], now)
    ensures Placed(b, q, now, survivors, at + [|q| - 1])
  {
    hide Finishing, Carried;
    var n := |q| - 1;
    forall i | 0 <= i < |at|
      ensures at[i] < n && !Finishing(b, q[at[i]], now) && Carried(b, q[at[i]], now, survivors[i])
    {
      assert q[..n][at[i]] == q[at[i]] && survivors[i] == survivors[..|front|][i];
    }
  }

  lemma PlacedSkip<S>(b: Tasks<S>, q: seq<Entry<S>>, now: Instant, survivors: seq<Entry<S>>, at: seq<nat>)
    requires |q| > 0 && Placed(b, q[..|q| - 1], now, survivors, at)
    ensures Placed(b, q, now, survivors, at)
  {
    hide Finishing, Carried;
    assert forall i :: 0 <= i < |at| ==> q[..|q| - 1][at[i]] == q[at[i]];
  }

  /** The survivors are the unfinished entries, in their original order, each polled if it was due. */
  lemma {:induction false} SurvivorsInOrder<S>(b: Tasks<S>, q: seq<Entry<S>>, now: Instant) returns (at: seq<nat>)
    ensures Placed(b, q, now, Survivors(b, q, now), at) && |at| + |Ready(b, q, now)| == |q|
    decreases |q|
  {
    if |q| == 0 {
      at := [];
    } else {
      hide *;
      var n := |q| - 1;
      at := SurvivorsInOrder(b, q[..n], now);
      LastTicked(b, q, now);
      PlacedSize(b, q[..n], now, Survivors(b, q[..n], now), at);
      if Finishing(b, q[n], now) {
        PlacedSkip(b, q, now, Survivors(b, q, now), at);
      } else {
        PlacedLast(b, q, now, Survivors(b, q[..n], now), Survivors(b, q, now), at);
        at := at + [n];
      }
    }
  }

  lemma PlacedSize<S>(b: Tasks<S>, q: seq<Entry<S>>, now: Instant, survivors: seq<Entry<S>>, at: seq<nat>)
    requires Placed(b, q, now, survivors, at)
    ensures |at| == |survivors|
  {
  }

  // ----- who is returned -----

  function IdList<S>(q: seq<Entry<S>>): seq<TaskId>
  {
    if |q| == 0 then [] else IdList(q[..|q| - 1]) + [q[|q| - 1].id]
  }

  lemma IdListLast<S>(q: seq<Entry<S>>)
    requires |q| > 0
    ensures IdList(q) == IdList(q[..|q| - 1]) + [q[|q| - 1].id]
  {
  }

  lemma SameTasksLast(ready: seq<TaskId>, remaining: seq<TaskId>, queued: seq<TaskId>, id: TaskId)
    requires SameTasks(ready, remaining, queued)
    ensures SameTasks(ready + [id], remaining, queued + [id]) && SameTasks(ready, remaining + [id], queued + [id])
  {
  }

  /** A tick loses and duplicates nobody. */
  lemma {:induction false} TickKeepsIds<S>(b: Tasks<S>, q: seq<Entry<S>>, now: Instant)
    ensures SameTasks(Ready(b, q, now), IdList(Survivors(b, q, now)), IdList(q))
    decreases |q|
  {
    if |q| != 0 {
      hide *;
      var n := |q| - 1;
      var front := Survivors(b, q[..n], now);
      TickKeepsIds(b, q[..n], now);
      LastTicked(b, q, now);
      IdListLast(q);
      SameTasksLast(Ready(b, q[..n], now), IdList(front), IdList(q[..n]), q[n].id);
      if !Finishing(b, q[n], now) {
        IdListLast(Survivors(b, q, now));
      }
    }
  }

  lemma RunUnfold<S>(b: Tasks<S>, s: Sched<S>, clock: Clock, k: nat, n: nat)
    ensures n == 0 || |s.queue| == 0 ==> RunUntilIdle(b, s, clock, k, n) == (s, [])
    ensures n > 0 && |s.queue| > 0 ==>
              var after := Tick(b, s, clock(k).0);
              && after.queue == Survivors(b, s.queue, clock(k).0)
              && RunUntilIdle(b, s, clock, k, n).0 == RunUntilIdle(b, after, clock, k + 1, n - 1).0
              && RunUntilIdle(b, s, clock, k, n).1
                 == Ready(b, s.queue, clock(k).0) + RunUntilIdle(b, after, clock, k + 1, n - 1).1
  {
    hide Survivors, Ready, TickLog, MarkCompleted;
  }

  ghost predicate SameTasks(returned: seq<TaskId>, remaining: seq<TaskId>, queued: seq<TaskId>)
  {
    multiset(returned) + multiset(remaining) == multiset(queued)
  }

  lemma SameTasksAppend(ready: seq<TaskId>, later: seq<TaskId>, remaining: seq<TaskId>, middle: seq<TaskId>, queued: seq<TaskId>)
    requires SameTasks(ready, middle, queued) && SameTasks(later, remaining, middle)
    ensures SameTasks(ready + later, remaining, queued)
  {
    assert multiset(ready + later) == multiset(ready) + multiset(later);
  }

  /** Over any number of ticks, the queued tasks are exactly the returned and the remaining ones. */
  lemma {:induction false} RunReturnsIds<S>(b: Tasks<S>, s: Sched<S>, clock: Clock, k: nat, n: nat)
    ensures SameTasks(RunUntilIdle(b, s, clock, k, n).1, IdList(RunUntilIdle(b, s, clock, k, n).0.queue), IdList(s.queue))
    decreases n
  {
    hide RunUntilIdle, Tick, Survivors, Ready, IdList;
    RunUnfold(b, s, clock, k, n);
    if n != 0 && |s.queue| != 0 {
      var now := clock(k).0;
      var after := Tick(b, s, now);
      var rest := RunUntilIdle(b, after, clock, k + 1, n - 1);
      TickKeepsIds(b, s.queue, now);
      RunReturnsIds(b, after, clock, k + 1, n - 1);
      hide SameTasks;
      SameTasksAppend(Ready(b, s.queue, now), rest.1, IdList(rest.0.queue), IdList(after.queue), IdList(s.queue));
    }
  }

  // ----- how many polls a task still needs -----

  ghost predicate Finishes<S>(b: Tasks<S>, task: S, n: nat)
  {
    n > 0 && if b.poll(task).complete then n == 1 else Finishes(b, b.poll(task).task, n - 1)
  }

  lemma {:induction false} FinishesOnce<S>(b: Tasks<S>, task: S, m: nat, n: nat)
    requires Finishes(b, task, m) && Finishes(b, task, n)
    ensures m == n
    decreases m
  {
    if !b.poll(task).complete {
      FinishesOnce(b, b.poll(task).task, m - 1, n - 1);
    }
  }

  ghost predicate Terminates<S>(b: Tasks<S>, task: S)
  {
    exists n :: Finishes(b, task, n)
  }

  ghost function Left<S>(b: Tasks<S>, task: S): (n: nat)
    requires Terminates(b, task)
    ensures Finishes(b, task, n)
  {
    var n :| Finishes(b, task, n);
    n
  }

  /** A poll either finishes the task or brings it one poll closer. */
  lemma PollProgress<S>(b: Tasks<S>, task: S)
    requires Terminates(b, task)
    ensures b.poll(task).complete ==> Left(b, task) == 1
    ensures !b.poll(task).complete ==> Terminates(b, b.poll(task).task) && Left(b, task) == Left(b, b.poll(task).task) + 1
  {
    if !b.poll(task).complete {
      assert Finishes(b, b.poll(task).task, Left(b, task) - 1);
      FinishesOnce(b, b.poll(task).task, Left(b, task) - 1, Left(b, b.poll(task).task));
    }
  }

  ghost predicate AllTerminate<S>(b: Tasks<S>, q: seq<Entry<S>>)
  {
    forall k :: 0 <= k < |q| ==> Terminates(b, q[k].task)
  }

  /** The polls all queued tasks still need together. */
  ghost function Work<S>(b: Tasks<S>, q: seq<Entry<S>>): nat
    requires AllTerminate(b, q)
  {
    if |q| == 0 then 0 else Work(b, q[..|q| - 1]) + Left(b, q[|q| - 1].task)
  }

  lemma WorkAppend<S>(b: Tasks<S>, q: seq<Entry<S>>, e: Entry<S>)
    requires AllTerminate(b, q) && Terminates(b, e.task)
    ensures AllTerminate(b, q + [e]) && Work(b, q + [e]) == Work(b, q) + Left(b, e.task)
  {
    assert (q + [e])[..|q|] == q;
  }

  /** Each tick does exactly one unit of work per due task. */
  lemma {:induction false} TickWork<S>(b: Tasks<S>, q: seq<Entry<S>>, now: Instant)
    requires AllTerminate(b, q)
    ensures AllTerminate(b, Survivors(b, q, now))
    ensures Work(b, Survivors(b, q, now)) + |DueIds(q, now)| == Work(b, q)
    decreases |q|
  {
    if |q| != 0 {
      var n := |q| - 1;
      var e, p := q[n], b.poll(q[n].task);
      var rest := Survivors(b, q[..n], now);
      TickWork(b, q[..n], now);
      hide Left, Terminates, Finishes;
      PollProgress(b, e.task);
      WorkAppend(b, rest, e);
      if !p.complete {
        WorkAppend(b, rest, Entry(e.id, p.task, Earliest(p.hints)));
      }
    }
  }

  // ----- sleeping -----

  ghost predicate SomeDue<S>(q: seq<Entry<S>>, now: Instant)
  {
    exists k :: 0 <= k < |q| && !Asleep(q[k], now)
  }

  lemma {:induction false} SomeDueCounts<S>(q: seq<Entry<S>>, now: Instant)
    requires SomeDue(q, now)
    ensures |DueIds(q, now)| > 0
    decreases |q|
  {
    var n := |q| - 1;
    var k :| 0 <= k < |q| && !Asleep(q[k], now);
    if k < n {
      assert q[..n][k] == q[k];
      SomeDueCounts(q[..n], now);
    }
  }

  lemma {:induction false} EarliestIsMinimum<S>(q: seq<Entry<S>>) returns (k: nat)
    requires |q| > 0 && forall i :: 0 <= i < |q| ==> q[i].nextWakeup.Some?
    ensures k < |q| && EarliestDeadline(q) == q[k].nextWakeup
    ensures forall i :: 0 <= i < |q| ==> q[k].nextWakeup.value <= q[i].nextWakeup.value
    decreases |q|
  {
    var n := |q| - 1;
    if n == 0 {
      k := 0;
      assert EarliestDeadline(q[..0]) == None;
    } else {
      var m := EarliestIsMinimum(q[..n]);
      assert forall i :: 0 <= i < n ==> q[..n][i] == q[i];
      k := if q[m].nextWakeup.value <= q[n].nextWakeup.value then m else n;
    }
  }

  /** A sleep that is not interrupted ends at the earliest deadline, with some task due. */
  lemma SleepWakesSome<S>(q: seq<Entry<S>>, now: Instant, later: Instant)
    requires |q| > 0 && now <= later
    requires SleepTarget(q, now).Some? ==> SleepTarget(q, now).value <= later
    ensures SomeDue(q, later)
    ensures SleepTarget(q, now).None? <==> SomeDue(q, now)
    ensures SleepTarget(q, now).Some? ==>
              && (forall i :: 0 <= i < |q| ==> q[i].nextWakeup.Some? && SleepTarget(q, now).value <= q[i].nextWakeup.value)
              && (exists i :: 0 <= i < |q| && q[i].nextWakeup == SleepTarget(q, now))
  {
    if i :| 0 <= i < |q| && Due(q[i], now) {
      assert !Asleep(q[i], now) && !Asleep(q[i], later);
    } else {
      assert forall i :: 0 <= i < |q| ==> !Due(q[i], now) && Asleep(q[i], now);
      var k := EarliestIsMinimum(q);
      assert !Asleep(q[k], later);
    }
  }

  // ----- runs become idle -----

  /** Clocks do not go back, and no sleep of the run is cut short. */
  ghost predicate Uninterrupted<S>(b: Tasks<S>, s: Sched<S>, clock: Clock, k: nat, n: nat)
    decreases n
  {
    n == 0 || |s.queue| == 0 ||
    var after := Tick(b, s, clock(k).0);
    && clock(k).0 <= clock(k).1 <= clock(k + 1).0
    && (SleepTarget(after.queue, clock(k).1).Some? ==> SleepTarget(after.queue, clock(k).1).value <= clock(k + 1).0)
    && Uninterrupted(b, after, clock, k + 1, n - 1)
  }

  /** After a tick of such a run the remaining work has shrunk, and the next tick finds a task due. */
  lemma NextTick<S>(b: Tasks<S>, s: Sched<S>, clock: Clock, k: nat, n: nat)
    requires AllTerminate(b, s.queue) && Uninterrupted(b, s, clock, k, n) && n > 0 && |s.queue| > 0
    ensures var after := Tick(b, s, clock(k).0);
            && AllTerminate(b, after.queue) && Uninterrupted(b, after, clock, k + 1, n - 1)
            && (|after.queue| == 0 || SomeDue(after.queue, clock(k + 1).0))
            && Work(b, after.queue) + |DueIds(s.queue, clock(k).0)| == Work(b, s.queue)
            && RunUntilIdle(b, s, clock, k, n).0 == RunUntilIdle(b, after, clock, k + 1, n - 1).0
  {
    var after := Tick(b, s, clock(k).0);
    RunUnfold(b, s, clock, k, n);
    hide Tick, RunUntilIdle, Survivors, Ready, Work, DueIds, SleepTarget, AllTerminate, Finishes;
    TickWork(b, s.queue, clock(k).0);
    if |after.queue| != 0 {
      SleepWakesSome(after.queue, clock(k).1, clock(k + 1).0);
    }
  }

  lemma {:induction false} IdleFromDue<S>(b: Tasks<S>, s: Sched<S>, clock: Clock, k: nat, n: nat)
    requires AllTerminate(b, s.queue) && Uninterrupted(b, s, clock, k, n)
    requires |s.queue| == 0 || SomeDue(s.queue, clock(k).0)
    requires n >= Work(b, s.queue)
    ensures |RunUntilIdle(b, s, clock, k, n).0.queue| == 0
    decreases n
  {
    hide Tick, RunUntilIdle, Uninterrupted, Work, DueIds, AllTerminate;
    RunUnfold(b, s, clock, k, n);
    if |s.queue| != 0 {
      SomeDueCounts(s.queue, clock(k).0);
      TickWork(b, s.queue, clock(k).0);
      NextTick(b, s, clock, k, n);
      IdleFromDue(b, Tick(b, s, clock(k).0), clock, k + 1, n - 1);
    }
  }

  /**
    Whatever deadlines tasks ask for: if every queued task needs finitely many polls and
    sleeps are not cut short, one tick more than all those polls together empties the queue
    and returns every queued task.
   */
  lemma RunsBecomeIdle<S>(b: Tasks<S>, s: Sched<S>, clock: Clock, n: nat)
    requires AllTerminate(b, s.queue) && Uninterrupted(b, s, clock, 0, n)
    requires n > Work(b, s.queue)
    ensures |RunUntilIdle(b, s, clock, 0, n).0.queue| == 0
    ensures multiset(RunUntilIdle(b, s, clock, 0, n).1) == multiset(IdList(s.queue))
  {
    hide Tick, RunUntilIdle, Uninterrupted, Work, DueIds, AllTerminate;
    RunUnfold(b, s, clock, 0, n);
    if |s.queue| != 0 {
      NextTick(b, s, clock, 0, n);
      IdleFromDue(b, Tick(b, s, clock(0).0), clock, 1, n - 1);
    }
    RunReturnsIds(b, s, clock, 0, n);
  }

  /** Every queued task is due at any time and needs at most `n` polls. */
  ghost predicate Within<S>(b: Tasks<S>, q: seq<Entry<S>>, n: nat)
  {
    forall k :: 0 <= k < |q| ==> q[k].nextWakeup.None? && Terminates(b, q[k].task) && Left(b, q[k].task) <= n
  }

  ghost predicate NoHints<S(!new)>(b: Tasks<S>)
  {
    forall task :: b.poll(task).hints == []
  }

  lemma {:induction false} TickWithin<S(!new)>(b: Tasks<S>, q: seq<Entry<S>>, n: nat, now: Instant)
    requires NoHints(b) && n > 0 && Within(b, q, n)
    ensures Within(b, Survivors(b, q, now), n - 1)
    decreases |q|
  {
    if |q| != 0 {
      var i := |q| - 1;
      assert forall k :: 0 <= k < i ==> q[..i][k] == q[k];
      TickWithin(b, q[..i], n, now);
      hide Terminates, Left;
      PollProgress(b, q[i].task);
      assert Earliest(b.poll(q[i].task).hints) == None;
    }
  }

  lemma {:induction false} RobinEmpties<S(!new)>(b: Tasks<S>, s: Sched<S>, clock: Clock, k: nat, n: nat)
    requires NoHints(b) && Within(b, s.queue, n)
    ensures |RunUntilIdle(b, s, clock, k, n).0.queue| == 0
    decreases n
  {
    if |s.queue| != 0 {
      assert Left(b, s.queue[0].task) > 0;
      TickWithin(b, s.queue, n, clock(k).0);
      RobinEmpties(b, Tick(b, s, clock(k).0), clock, k + 1, n - 1);
    }
  }

  /** Round robin: without deadlines, as many ticks as the slowest task needs polls return every task. */
  lemma RoundRobin<S(!new)>(b: Tasks<S>, s: Sched<S>, clock: Clock, k: nat, n: nat)
    requires NoHints(b) && Within(b, s.queue, n)
    ensures |RunUntilIdle(b, s, clock, k, n).0.queue| == 0
    ensures multiset(RunUntilIdle(b, s, clock, k, n).1) == multiset(IdList(s.queue))
  {
    hide RunUntilIdle, Within, NoHints;
    RobinEmpties(b, s, clock, k, n);
    RunReturnsIds(b, s, clock, k, n);
  }
}
