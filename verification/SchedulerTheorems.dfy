/**
  What every run of the scheduler keeps, how tasks end, and why runs become idle.
 */
module SchedulerTheorems {
  import opened Options
  import opened Scheduler

  // ----- the invariant -----

  ghost predicate Distinct<S>(q: seq<Entry<S>>)
  {
    forall i, j :: 0 <= i < j < |q| ==> q[i].id != q[j].id
  }

  ghost function Ids<S>(q: seq<Entry<S>>): set<TaskId>
  {
    set i | 0 <= i < |q| :: q[i].id
  }

  ghost function With(statuses: map<TaskId, Status>, status: Status): set<TaskId>
  {
    set id | id in statuses && statuses[id] == status
  }

  ghost function UpTo(n: nat): (ids: set<TaskId>)
    ensures |ids| == n
    ensures forall id :: id in ids <==> 1 <= id <= n
  {
    if n == 0 then {} else UpTo(n - 1) + {n}
  }

  /** A task is pending exactly while it is queued, and only once. */
  ghost predicate Table<S>(s: Sched<S>)
  {
    && s.nextId == SaturatingNext(s.spawned)
    && s.statuses.Keys == UpTo(s.spawned)
    && Distinct(s.queue)
    && With(s.statuses, Pending) == Ids(s.queue)
    && |With(s.statuses, Completed)| == s.completed
  }

  /** Nothing happens to a task after it ended. */
  ghost predicate EndIsLast(log: seq<Event>)
  {
    forall i, j :: 0 <= i < j < |log| && log[i].Ended? ==> log[j].id != log[i].id
  }

  /** The history explains the status table. */
  ghost predicate Explained(statuses: map<TaskId, Status>, log: seq<Event>)
  {
    && EndIsLast(log)
    && (forall e <- log :: e.id in statuses)
    && (forall id, how :: Ended(id, how) in log ==> id in statuses && statuses[id] == StatusOf(how) != Pending)
    && (forall id :: id in statuses && statuses[id] == Completed ==> Ended(id, ByCompletion) in log)
    && (forall id :: id in statuses && statuses[id] == Canceled ==> Ended(id, ByCancel) in log)
  }

  function StatusOf(how: Ending): Status
  {
    match how
    case ByCompletion => Completed
    case ByCancel => Canceled
    case ByDrop => Pending
  }

  ghost predicate Inv<S>(s: Sched<S>)
  {
    Table(s) && Explained(s.statuses, s.log)
  }

  // ----- three kinds of steps keep it -----

  lemma PollExplained(statuses: map<TaskId, Status>, log: seq<Event>, id: TaskId)
    requires Explained(statuses, log) && id in statuses && statuses[id] == Pending
    ensures Explained(statuses, log + [Poll(id)])
  {
    var l := log + [Poll(id)];
    forall i, j | 0 <= i < j < |l| && l[i].Ended?
      ensures l[j].id != l[i].id
    {
      assert l[i] == log[i] && Ended(l[i].id, l[i].how) in log;
    }
  }

  lemma EndExplained(statuses: map<TaskId, Status>, log: seq<Event>, id: TaskId, how: Ending)
    requires Explained(statuses, log) && id in statuses && statuses[id] == Pending
    requires how != ByDrop
    ensures Explained(statuses[id := StatusOf(how)], log + [Ended(id, how)])
  {
    var st, l := statuses[id := StatusOf(how)], log + [Ended(id, how)];
    forall i, j | 0 <= i < j < |l| && l[i].Ended?
      ensures l[j].id != l[i].id
    {
      assert l[i] == log[i] && Ended(l[i].id, l[i].how) in log;
    }
    forall x, h | Ended(x, h) in l
      ensures x in st && st[x] == StatusOf(h) != Pending
    {
      if Ended(x, h) in log {
        assert statuses[x] != Pending;
      }
    }
  }

  /** Queue reordered or tasks advanced: same ids. */
  lemma ReorderKeeps<S>(s: Sched<S>, q: seq<Entry<S>>)
    requires Inv(s) && Distinct(q) && Ids(q) == Ids(s.queue)
    ensures Inv(s.(queue := q))
  {
  }

  lemma PollKeeps<S>(s: Sched<S>, id: TaskId)
    requires Inv(s) && id in Ids(s.queue)
    ensures Inv(s.(log := s.log + [Poll(id)]))
  {
    hide Explained, Distinct, Ids;
    assert id in With(s.statuses, Pending);
    PollExplained(s.statuses, s.log, id);
  }

  function After<S>(s: Sched<S>, q: seq<Entry<S>>, id: TaskId, how: Ending): Sched<S>
  {
    s.(queue := q, statuses := s.statuses[id := StatusOf(how)], log := s.log + [Ended(id, how)],
       completed := if how == ByCompletion then s.completed + 1 else s.completed)
  }

  lemma EndKeeps<S>(s: Sched<S>, q: seq<Entry<S>>, id: TaskId, how: Ending)
    requires Inv(s) && id in Ids(s.queue) && how != ByDrop
    requires Distinct(q) && Ids(q) == Ids(s.queue) - {id}
    ensures Inv(After(s, q, id, how))
  {
    hide Explained, Distinct, Ids, UpTo;
    assert id in With(s.statuses, Pending);
    EndExplained(s.statuses, s.log, id, how);
    var st := s.statuses[id := StatusOf(how)];
    assert st.Keys == s.statuses.Keys;
    assert With(st, Pending) == With(s.statuses, Pending) - {id};
    if how == ByCompletion {
      assert With(st, Completed) == With(s.statuses, Completed) + {id};
    } else {
      assert With(st, Completed) == With(s.statuses, Completed);
    }
  }

  // ----- removing and rotating entries -----

  lemma RemoveIds<S>(q: seq<Entry<S>>, index: nat)
    requires Distinct(q) && index < |q|
    ensures q[index].id in Ids(q)
    ensures Distinct(q[..index] + q[index + 1..])
    ensures Ids(q[..index] + q[index + 1..]) == Ids(q) - {q[index].id}
  {
    var r := q[..index] + q[index + 1..];
    assert forall k :: 0 <= k < |r| ==> r[k] == if k < index then q[k] else q[k + 1];
    forall id | id in Ids(q) - {q[index].id}
      ensures id in Ids(r)
    {
      var k :| 0 <= k < |q| && q[k].id == id;
      assert r[if k < index then k else k - 1].id == id;
    }
  }

  lemma SameIds<S>(q: seq<Entry<S>>, r: seq<Entry<S>>)
    requires |q| == |r| && Distinct(q) && forall k :: 0 <= k < |q| ==> q[k].id == r[k].id
    ensures Distinct(r) && Ids(r) == Ids(q)
  {
  }

  lemma RotateIds<S>(q: seq<Entry<S>>, e: Entry<S>)
    requires q != [] && Distinct(q) && e.id == q[0].id
    ensures Distinct(q[1..] + [e]) && Ids(q[1..] + [e]) == Ids(q)
  {
    var r := q[1..] + [e];
    assert forall k :: 0 <= k < |r| ==> r[k].id == if k < |q| - 1 then q[k + 1].id else q[0].id;
    forall id | id in Ids(q)
      ensures id in Ids(r)
    {
      var k :| 0 <= k < |q| && q[k].id == id;
      assert r[if k == 0 then |r| - 1 else k - 1].id == id;
    }
  }

  // ----- every operation keeps the invariant -----

  lemma FreshInv<S>()
    ensures Inv(Fresh<S>())
  {
  }

  lemma AppendIds<S>(q: seq<Entry<S>>, e: Entry<S>)
    ensures Ids(q + [e]) == Ids(q) + {e.id}
    ensures Distinct(q) && e.id !in Ids(q) ==> Distinct(q + [e])
  {
    var r := q + [e];
    assert forall k :: 0 <= k < |r| ==> r[k] == if k < |q| then q[k] else e;
    assert r[|q|].id == e.id;
    forall id | id in Ids(q)
      ensures id in Ids(r)
    {
      var k :| 0 <= k < |q| && q[k].id == id;
      assert r[k].id == id;
    }
    assert forall k :: 0 <= k < |q| ==> q[k].id in Ids(q);
  }

  lemma FreshId<S>(s: Sched<S>)
    requires Table(s) && s.spawned < MAX_ID
    ensures s.nextId == s.spawned + 1 && s.nextId !in s.statuses && s.nextId !in Ids(s.queue)
  {
    hide Ids, Distinct;
    PendingKeys(s.statuses);
  }

  lemma SpawnTable<S>(s: Sched<S>, task: S)
    requires Table(s) && s.spawned < MAX_ID
    ensures Table(Spawn(s, task))
  {
    hide Ids, Distinct, With;
    var id, t := s.nextId, Spawn(s, task);
    FreshId(s);
    AppendIds(s.queue, Entry(id, task, None));
    SpawnWith(s.statuses, id);
    assert t.statuses.Keys == UpTo(id);
  }

  lemma SpawnKeeps<S>(s: Sched<S>, task: S)
    requires Inv(s) && s.spawned < MAX_ID
    ensures Inv(Spawn(s, task))
  {
    hide Table, Explained;
    FreshId(s);
    SpawnTable(s, task);
    SpawnExplained(s.statuses, s.log, s.nextId);
  }

  lemma PendingKeys(statuses: map<TaskId, Status>)
    ensures With(statuses, Pending) <= statuses.Keys
  {
  }

  lemma SpawnWith(statuses: map<TaskId, Status>, id: TaskId)
    requires id !in statuses
    ensures With(statuses[id := Pending], Pending) == With(statuses, Pending) + {id}
    ensures With(statuses[id := Pending], Completed) == With(statuses, Completed)
  {
  }

  lemma SpawnExplained(statuses: map<TaskId, Status>, log: seq<Event>, id: TaskId)
    requires Explained(statuses, log) && id !in statuses
    ensures Explained(statuses[id := Pending], log)
  {
  }

  lemma CancelAtKeeps<S>(b: Tasks<S>, s: Sched<S>, index: nat)
    requires Inv(s) && index < |s.queue|
    ensures Inv(CancelAt(b, s, index))
  {
    hide Table, Explained;
    var entry := s.queue[index];
    var (accepted, task) := b.cancel(entry.task);
    assert Distinct(s.queue) by { InvDistinct(s); }
    if accepted {
      RemoveIds(s.queue, index);
      EndKeeps(s, s.queue[..index] + s.queue[index + 1..], entry.id, ByCancel);
    } else {
      SameIds(s.queue, s.queue[index := entry.(task := task)]);
      ReorderKeeps(s, s.queue[index := entry.(task := task)]);
    }
  }

  lemma InvDistinct<S>(s: Sched<S>)
    requires Inv(s)
    ensures Distinct(s.queue)
  {
  }

  /** The scheduler after `i` turns of a tick's loop. */
  ghost function MidTick<S>(b: Tasks<S>, s: Sched<S>, now: Instant, i: nat): Sched<S>
    requires i <= |s.queue|
  {
    var done := s.queue[..i];
    s.(queue := s.queue[i..] + Survivors(b, done, now),
       completed := s.completed + |Ready(b, done, now)|,
       statuses := MarkCompleted(s.statuses, Ready(b, done, now)),
       log := s.log + TickLog(b, done, now))
  }

  lemma MidTickEnds<S>(b: Tasks<S>, s: Sched<S>, now: Instant)
    ensures MidTick(b, s, now, 0) == s
    ensures MidTick(b, s, now, |s.queue|) == Tick(b, s, now)
  {
    TickNothing(b, s.queue, now, s.statuses);
    assert s.log + [] == s.log;
    assert s.queue[..|s.queue|] == s.queue;
    assert [] + Survivors(b, s.queue, now) == Survivors(b, s.queue, now);
  }

  /** One turn: the head is rotated untouched, polled and rotated, or polled and ended. */
  lemma MidTickNext<S>(b: Tasks<S>, s: Sched<S>, now: Instant, i: nat)
    requires i < |s.queue|
    ensures var m, n, e, p := MidTick(b, s, now, i), MidTick(b, s, now, i + 1), s.queue[i], b.poll(s.queue[i].task);
            && m.queue != [] && m.queue[0] == e
            && n == if !Due(e, now) then m.(queue := m.queue[1..] + [e])
                    else if p.complete
                    then After(m.(log := m.log + [Poll(e.id)]), m.queue[1..], e.id, ByCompletion)
                    else m.(queue := m.queue[1..] + [Entry(e.id, p.task, Earliest(p.hints))], log := m.log + [Poll(e.id)])
  {
    hide Survivors, Ready, TickLog, MarkCompleted, Due;
    var q, e, p := s.queue, s.queue[i], b.poll(s.queue[i].task);
    var m, n := MidTick(b, s, now, i), MidTick(b, s, now, i + 1);
    TickNext(b, q, i, now);
    MarkNext(s.statuses, Ready(b, q[..i], now), e.id);
    assert m.queue[1..] == q[i + 1..] + Survivors(b, q[..i], now);
    assert Ready(b, q[..i], now) + [] == Ready(b, q[..i], now);
    if !Due(e, now) {
      assert m.log + [] == m.log;
    } else if p.complete {
      assert n.queue == m.queue[1..];
      assert n.log == m.log + [Poll(e.id)] + [Ended(e.id, ByCompletion)];
    }
  }

  lemma {:induction false} MidTickInv<S>(b: Tasks<S>, s: Sched<S>, now: Instant, i: nat)
    requires Inv(s) && i <= |s.queue|
    ensures Inv(MidTick(b, s, now, i))
    decreases i
  {
    hide Table, Explained, MidTick, Tick;
    MidTickEnds(b, s, now);
    if i > 0 {
      var m, e := MidTick(b, s, now, i - 1), s.queue[i - 1];
      MidTickInv(b, s, now, i - 1);
      MidTickNext(b, s, now, i - 1);
      TurnKeeps(m, e, b.poll(e.task), now);
    }
  }

  lemma TurnKeeps<S>(m: Sched<S>, e: Entry<S>, p: Polled<S>, now: Instant)
    requires Inv(m) && m.queue != [] && m.queue[0] == e
    ensures Inv(m.(queue := m.queue[1..] + [e]))
    ensures Inv(After(m.(log := m.log + [Poll(e.id)]), m.queue[1..], e.id, ByCompletion))
    ensures Inv(m.(queue := m.queue[1..] + [Entry(e.id, p.task, Earliest(p.hints))], log := m.log + [Poll(e.id)]))
  {
    hide Table, Explained;
    InvDistinct(m);
    var e' := Entry(e.id, p.task, Earliest(p.hints));
    RotateIds(m.queue, e);
    RotateIds(m.queue, e');
    RemoveIds(m.queue, 0);
    assert m.queue[..0] + m.queue[1..] == m.queue[1..];
    ReorderKeeps(m, m.queue[1..] + [e]);
    PollKeeps(m, e.id);
    var polled := m.(log := m.log + [Poll(e.id)]);
    ReorderKeeps(polled, m.queue[1..] + [e']);
    EndKeeps(polled, m.queue[1..], e.id, ByCompletion);
  }

  lemma TickKeeps<S>(b: Tasks<S>, s: Sched<S>, now: Instant)
    requires Inv(s)
    ensures Inv(Tick(b, s, now))
  {
    MidTickInv(b, s, now, |s.queue|);
    MidTickEnds(b, s, now);
  }

  // ----- whole runs -----

  datatype Op<S> = SpawnOp(task: S) | CancelOp(id: TaskId) | CancelForeignOp(who: (int, int)) | TickOp(now: Instant)

  function Step<S>(b: Tasks<S>, s: Sched<S>, op: Op<S>): Sched<S>
  {
    match op
    case SpawnOp(task) => Spawn(s, task)
    case CancelOp(id) => Cancel(b, s, id)
    case CancelForeignOp(who) => CancelForeign(b, s, who)
    case TickOp(now) => Tick(b, s, now)
  }

  function Run<S>(b: Tasks<S>, s: Sched<S>, ops: seq<Op<S>>): Sched<S>
    decreases |ops|
  {
    if |ops| == 0 then s else Run(b, Step(b, s, ops[0]), ops[1..])
  }

  function Spawns<S>(ops: seq<Op<S>>): nat
    decreases |ops|
  {
    if |ops| == 0 then 0 else (if ops[0].SpawnOp? then 1 else 0) + Spawns(ops[1..])
  }

  lemma StepKeeps<S>(b: Tasks<S>, s: Sched<S>, op: Op<S>)
    requires Inv(s) && (op.SpawnOp? ==> s.spawned < MAX_ID)
    ensures Inv(Step(b, s, op))
    ensures Step(b, s, op).spawned == s.spawned + if op.SpawnOp? then 1 else 0
    ensures s.log <= Step(b, s, op).log
  {
    hide Table, Explained, Tick, Inv;
    match op {
      case SpawnOp(task) => SpawnKeeps(s, task);
      case CancelOp(id) =>
        if FirstWithId(s.queue, id) < |s.queue| {
          CancelAtKeeps(b, s, FirstWithId(s.queue, id));
        }
      case CancelForeignOp(who) =>
        if FirstForeign(b, s.queue, who) < |s.queue| {
          CancelAtKeeps(b, s, FirstForeign(b, s.queue, who));
        }
      case TickOp(now) =>
        TickKeeps(b, s, now);
        TickShape(b, s, now);
    }
  }

  lemma TickShape<S>(b: Tasks<S>, s: Sched<S>, now: Instant)
    ensures Tick(b, s, now).spawned == s.spawned && s.log <= Tick(b, s, now).log
  {
  }

  lemma {:induction false} RunKeeps<S>(b: Tasks<S>, s: Sched<S>, ops: seq<Op<S>>)
    requires Inv(s) && s.spawned + Spawns(ops) <= MAX_ID
    ensures Inv(Run(b, s, ops))
    ensures Run(b, s, ops).spawned == s.spawned + Spawns(ops)
    ensures s.log <= Run(b, s, ops).log
    decreases |ops|
  {
    hide Inv, Step;
    if |ops| != 0 {
      StepKeeps(b, s, ops[0]);
      RunKeeps(b, Step(b, s, ops[0]), ops[1..]);
    }
  }

  lemma StatusesPartition(statuses: map<TaskId, Status>)
    ensures |statuses.Keys| == |With(statuses, Pending)| + |With(statuses, Completed)| + |With(statuses, Canceled)|
  {
    var p, c, x := With(statuses, Pending), With(statuses, Completed), With(statuses, Canceled);
    assert p !! c && (p + c) !! x;
    assert statuses.Keys == p + c + x;
  }

  /** In every run, spawned tasks are queued, completed or canceled, each counted once. */
  lemma Conservation<S>(s: Sched<S>)
    requires Inv(s)
    ensures s.spawned == |s.queue| + s.completed + |With(s.statuses, Canceled)|
    ensures forall id :: id in s.statuses ==> (s.statuses[id] == Pending <==> id in Ids(s.queue))
  {
    assert forall id :: id in s.statuses ==> (s.statuses[id] == Pending <==> id in With(s.statuses, Pending));
    hide Ids, Distinct, Explained, With, UpTo;
    StatusesPartition(s.statuses);
    IdsCount(s.queue);
  }

  lemma {:induction false} IdsCount<S>(q: seq<Entry<S>>)
    requires Distinct(q)
    ensures |Ids(q)| == |q|
    decreases |q|
  {
    if |q| == 0 {
      assert Ids(q) == {};
    } else {
      var n := |q| - 1;
      assert q == q[..n] + [q[n]];
      AppendIds(q[..n], q[n]);
      IdsCount(q[..n]);
      assert forall k :: 0 <= k < n ==> q[..n][k].id != q[n].id;
    }
  }

  /** Completed and Canceled are final: no later operation changes them. */
  lemma EndedIsFinal<S>(b: Tasks<S>, s: Sched<S>, ops: seq<Op<S>>, id: TaskId)
    requires Inv(s) && s.spawned + Spawns(ops) <= MAX_ID
    requires id in s.statuses && s.statuses[id] != Pending
    ensures id in Run(b, s, ops).statuses && Run(b, s, ops).statuses[id] == s.statuses[id]
  {
    hide Run, Spawns, Table;
    RunKeeps(b, s, ops);
    var how := if s.statuses[id] == Completed then ByCompletion else ByCancel;
    assert Ended(id, how) in s.log;
    assert Ended(id, how) in Run(b, s, ops).log;
  }

  // ----- when the ids run out -----

  /** In any run ids count up to the 64-bit maximum and then stay there. */
  ghost predicate Small<S>(s: Sched<S>)
  {
    && s.nextId == (if s.spawned < MAX_ID then s.spawned + 1 else MAX_ID)
    && (s.spawned >= MAX_ID ==> MAX_ID in s.statuses)
    && (forall id :: id in s.statuses ==> id <= MAX_ID)
    && (forall k :: 0 <= k < |s.queue| ==> s.queue[k].id <= MAX_ID)
  }

  lemma {:induction false} TickSmall<S>(b: Tasks<S>, q: seq<Entry<S>>, now: Instant)
    requires forall k :: 0 <= k < |q| ==> q[k].id <= MAX_ID
    ensures forall k :: 0 <= k < |Survivors(b, q, now)| ==> Survivors(b, q, now)[k].id <= MAX_ID
    ensures forall k :: 0 <= k < |Ready(b, q, now)| ==> Ready(b, q, now)[k] <= MAX_ID
    decreases |q|
  {
    if |q| != 0 {
      TickSmall(b, q[..|q| - 1], now);
    }
  }

  lemma {:induction false} MarkSmall(statuses: map<TaskId, Status>, ids: seq<TaskId>)
    requires forall id :: id in statuses ==> id <= MAX_ID
    requires forall k :: 0 <= k < |ids| ==> ids[k] <= MAX_ID
    ensures forall id :: id in MarkCompleted(statuses, ids) ==> id <= MAX_ID
    ensures statuses.Keys <= MarkCompleted(statuses, ids).Keys
    decreases |ids|
  {
    if ids != [] {
      MarkSmall(statuses, ids[..|ids| - 1]);
    }
  }

  lemma StepSmall<S>(b: Tasks<S>, s: Sched<S>, op: Op<S>)
    requires Small(s)
    ensures Small(Step(b, s, op))
    ensures Step(b, s, op).spawned == s.spawned + if op.SpawnOp? then 1 else 0
  {
    match op {
      case SpawnOp(task) => SpawnSmall(s, task);
      case CancelOp(id) =>
        if FirstWithId(s.queue, id) < |s.queue| {
          CancelAtSmall(b, s, FirstWithId(s.queue, id));
        }
      case CancelForeignOp(who) =>
        if FirstForeign(b, s.queue, who) < |s.queue| {
          CancelAtSmall(b, s, FirstForeign(b, s.queue, who));
        }
      case TickOp(now) =>
        hide Survivors, Ready, MarkCompleted;
        TickSmall(b, s.queue, now);
        MarkSmall(s.statuses, Ready(b, s.queue, now));
    }
  }

  lemma SpawnSmall<S>(s: Sched<S>, task: S)
    requires Small(s)
    ensures Small(Spawn(s, task))
  {
  }

  lemma CancelAtSmall<S>(b: Tasks<S>, s: Sched<S>, index: nat)
    requires Small(s) && index < |s.queue|
    ensures Small(CancelAt(b, s, index)) && CancelAt(b, s, index).spawned == s.spawned
  {
  }

  lemma {:induction false} RunSmall<S>(b: Tasks<S>, s: Sched<S>, ops: seq<Op<S>>)
    requires Small(s)
    ensures Small(Run(b, s, ops))
    ensures Run(b, s, ops).spawned == s.spawned + Spawns(ops)
    decreases |ops|
  {
    hide Small, Step;
    if |ops| != 0 {
      StepSmall(b, s, ops[0]);
      RunSmall(b, Step(b, s, ops[0]), ops[1..]);
    }
  }

  /**
    The invariant holds after a run from a fresh scheduler exactly when the run spawned no more
    tasks than there are ids, and the next spawn gets an id not issued yet exactly when fewer.
   */
  lemma RunInvariantIff<S>(b: Tasks<S>, ops: seq<Op<S>>)
    ensures Inv(Run(b, Fresh<S>(), ops)) <==> Spawns(ops) <= MAX_ID
    ensures Run(b, Fresh<S>(), ops).nextId !in Run(b, Fresh<S>(), ops).statuses <==> Spawns(ops) < MAX_ID
  {
    hide Run, Spawns, Explained, Distinct, Ids, With;
    FreshInv<S>();
    RunSmall(b, Fresh<S>(), ops);
    if Spawns(ops) <= MAX_ID {
      RunKeeps(b, Fresh<S>(), ops);
    } else {
      assert Spawns(ops) in UpTo(Spawns(ops));
    }
  }

  /** A run that spawns the same task `n` times. */
  function Many<S>(task: S, n: nat): seq<Op<S>>
  {
    if n == 0 then [] else [SpawnOp(task)] + Many(task, n - 1)
  }

  lemma {:induction false} ManySpawns<S>(task: S, n: nat)
    ensures Spawns(Many(task, n)) == n
    decreases n
  {
    if n > 0 {
      ManySpawns(task, n - 1);
      assert Many(task, n)[1..] == Many(task, n - 1);
    }
  }

  /** There is a run that uses up the ids: its next spawn gets an id that was issued before. */
  lemma IdsRunOut<S>(b: Tasks<S>, task: S)
    ensures var s := Run(b, Fresh<S>(), Many(task, MAX_ID));
            Inv(s) && s.nextId in s.statuses && !Inv(Run(b, Fresh<S>(), Many(task, MAX_ID + 1)))
  {
    hide Run, Many, Spawns;
    ManySpawns(task, MAX_ID);
    ManySpawns(task, MAX_ID + 1);
    RunInvariantIff(b, Many(task, MAX_ID));
    RunInvariantIff(b, Many(task, MAX_ID + 1));
  }

  /** What a status means in every run: never issued, queued, or ended by the event it names. */
  lemma StatusMeaning<S>(b: Tasks<S>, ops: seq<Op<S>>, id: TaskId)
    requires Spawns(ops) <= MAX_ID
    ensures var s := Run(b, Fresh<S>(), ops);
            && (StatusIn(s, id) == None <==> !(1 <= id <= Spawns(ops)))
            && (StatusIn(s, id) == Some(Pending) <==> exists k :: 0 <= k < |s.queue| && s.queue[k].id == id)
            && (StatusIn(s, id) == Some(Completed) <==> Ended(id, ByCompletion) in s.log)
            && (StatusIn(s, id) == Some(Canceled) <==> Ended(id, ByCancel) in s.log)
  {
    hide Run, Spawns;
    FreshInv<S>();
    RunKeeps(b, Fresh<S>(), ops);
    var s := Run(b, Fresh<S>(), ops);
    assert id in With(s.statuses, Pending) <==> id in Ids(s.queue);
  }

  // ----- every task ends exactly once -----

  ghost predicate EndAt(log: seq<Event>, i: int, id: TaskId)
  {
    0 <= i < |log| && log[i].Ended? && log[i].id == id
  }

  lemma {:induction false} DropLogAt<S>(q: seq<Entry<S>>, k: nat)
    requires k < |q|
    ensures |DropLog(q)| == |q| && DropLog(q)[k] == Ended(q[k].id, ByDrop)
    decreases |q|
  {
    if k < |q| - 1 {
      DropLogAt(q[..|q| - 1], k);
    } else if k > 0 {
      DropLogAt(q[..|q| - 1], 0);
    }
  }

  lemma DropEndIsLast<S>(s: Sched<S>)
    requires Inv(s)
    ensures EndIsLast(Dropped(s).log) && |DropLog(s.queue)| == |s.queue|
  {
    hide DropLog;
    var log, q := Dropped(s).log, s.queue;
    assert |DropLog(q)| == |q| by {
      if q != [] { DropLogAt(q, 0); } else { DropNothing<S>(); }
    }
    forall i, j | 0 <= i < j < |log| && log[i].Ended?
      ensures log[j].id != log[i].id
    {
      if j >= |s.log| {
        var k := j - |s.log|;
        DropLogAt(q, k);
        if i >= |s.log| {
          DropLogAt(q, i - |s.log|);
        } else {
          assert q[k].id in Ids(q) && q[k].id in With(s.statuses, Pending);
          assert Ended(log[i].id, log[i].how) in s.log;
        }
      }
    }
  }

  lemma DropNothing<S>()
    ensures DropLog<S>([]) == []
  {
  }

  /** Once the scheduler is dropped, each task has ended exactly once, as its status says. */
  lemma EndsExactlyOnce<S>(s: Sched<S>, id: TaskId)
    requires Inv(s) && 1 <= id <= s.spawned
    ensures id in s.statuses
    ensures exists i :: EndAt(Dropped(s).log, i, id) && StatusOf(Dropped(s).log[i].how) == s.statuses[id]
    ensures forall i, j :: EndAt(Dropped(s).log, i, id) && EndAt(Dropped(s).log, j, id) ==> i == j
  {
    var log := Dropped(s).log;
    assert id in UpTo(s.spawned);
    if s.statuses[id] == Pending {
      DroppedEnd(s, id);
    } else {
      var how := if s.statuses[id] == Completed then ByCompletion else ByCancel;
      assert Ended(id, how) in s.log;
      var i :| 0 <= i < |s.log| && s.log[i] == Ended(id, how);
      assert EndAt(log, i, id) && log[i].how == how;
    }
    hide Inv;
    DropEndIsLast(s);
  }

  lemma DroppedEnd<S>(s: Sched<S>, id: TaskId)
    requires Inv(s) && id in s.statuses && s.statuses[id] == Pending
    ensures exists i :: EndAt(Dropped(s).log, i, id) && Dropped(s).log[i].how == ByDrop
  {
    hide Explained, Distinct, DropLog;
    assert id in With(s.statuses, Pending);
    var k :| 0 <= k < |s.queue| && s.queue[k].id == id;
    DropLogAt(s.queue, k);
    assert EndAt(Dropped(s).log, |s.log| + k, id);
  }
}
