/**
  The generated program as a whole: on its failing, early and full paths `exercise` drops
  everything it created, the printed drops are the oracle, and `main` returns 0.
 */
module OwnershipMain {
  import opened Options
  import opened Ownership
  import opened OwnershipLanguage
  import opened OwnershipProgram
  import opened OwnershipTheorems
  import opened OwnershipRun

  // ----- the envelope -----

  lemma {:induction false} RunTakeParts(vs: seq<Value>, i: nat)
    requires i <= |vs| && forall j :: 0 <= j < |vs| ==> vs[j] != Gone
    ensures TakeParts(Parts(vs, i), i, |vs|) == Some((vs[i..], Parts(vs, |vs|)))
    decreases |vs| - i
  {
    hide Peek, Store, Parts, TakeParts;
    TakeUnfolds(Parts(vs, i), i, |vs|);
    if i == |vs| {
      assert vs[i..] == [];
    } else {
      TakeOne(vs, i);
      RunTakeParts(vs, i + 1);
      assert [vs[i]] + vs[i + 1..] == vs[i..];
    }
  }

  lemma TakeUnfolds(env: Env, i: nat, n: nat)
    requires i <= n
    ensures i == n ==> TakeParts(env, i, n) == Some(([], env))
    ensures i < n && Peek(env, Part(i)) != Gone ==>
      var rest := TakeParts(Store(env, Part(i), Gone), i + 1, n);
      TakeParts(env, i, n) == if rest.None? then None else Some(([Peek(env, Part(i))] + rest.value.0, rest.value.1))
  {
    hide Peek, Store;
  }

  lemma TakeOne(vs: seq<Value>, i: nat)
    requires i < |vs|
    ensures Peek(Parts(vs, i), Part(i)) == vs[i] && Store(Parts(vs, i), Part(i), Gone) == Parts(vs, i + 1)
  {
    PeekAt(Parts(vs, i), Part(i), i);
    assert Parts(vs, i)[i := Binding(Part(i), Gone)] == Parts(vs, i + 1);
  }

  lemma AssembleRecord(p: Functions, stack: nat, marker: nat, vs: seq<Value>, w: World)
    requires forall j :: 0 <= j < |vs| ==> vs[j] != Gone
    ensures Assembled(Exec(p, stack, [Let(Outcome, Struct(marker, |vs|))], Parts(vs, 0), w), Record(marker, vs), w)
  {
    hide Exec, TakeParts;
    RunTakeParts(vs, 0);
    assert vs[0..] == vs;
    RunLet(p, stack, Outcome, Struct(marker, |vs|), [], Parts(vs, 0), w);
    assert [Let(Outcome, Struct(marker, |vs|))] + [] == [Let(Outcome, Struct(marker, |vs|))];
    OutcomeBound(p, stack, Parts(vs, |vs|), Record(marker, vs), w);
  }

  function Sealed(c: Case, w: World): (Value, World)
  {
    var (vs, u) := BuiltAll(c.built, w);
    (Record(c.marker, vs), u)
  }

  lemma CrossCovers(c: Case)
    requires Emitted(c)
    ensures Covers(c.functions, FunctionsOfAll(c.built, 1))
    ensures 0 in c.functions && c.functions[0] == CrossBody(c.built, c.marker)
  {
    hide FunctionsOfAll, CrossBody;
    FunctionAllKeys(c.built, 1);
  }

  /** `cross_function_return` builds the three trees and the envelope around them. */
  lemma CallSeals(c: Case, stack: nat, env: Env, w: World)
    requires Emitted(c) && stack > MAX_DEPTH + 1
    ensures Eval(c.functions, stack, Call(0), env, w) == Some(Evaluated(Ok(Sealed(c, w).0), env, Sealed(c, w).1))
  {
    hide FunctionsOfAll, Covers, Constructs, Exec, Assembled, WellLabeled, BuiltAll;
    CrossCovers(c);
    var (vs, u) := BuiltAll(c.built, w);
    assert Parts([], 0) == [] && [] + vs == vs;
    RunConstructs(c.functions, stack - 1, c.built, [], 1, MAX_DEPTH, w);
    AssembleRecord(c.functions, stack - 1, c.marker, vs, u);
    RunBody(c.functions, stack - 1, Constructs(c.built, 0, 1), [Let(Outcome, Struct(c.marker, |c.built|))],
            Parts(vs, 0), w, u, Record(c.marker, vs), u);
  }

  // ----- the loop -----

  /** One resource created and dropped. */
  function Cycled(w: World, id: nat): World
  {
    w.(printed := w.printed + multiset{id}, created := w.created + 1, dropped := w.dropped + 1)
  }

  lemma DropMade(id: nat, w: World)
    requires id > 0 && Fresh(w)
    ensures DropAll([Resource(id, w.created)], Make(w, id)) == Some(Cycled(w, id))
  {
    var u := Make(w, id);
    assert u.live - {w.created} == w.live;
    assert DropValue(Resource(id, w.created), u) == Some(Cycled(w, id));
    assert [Resource(id, w.created)][1..] == [];
  }

  /** The environment of the loop: eight variables, the last of them the index. */
  ghost predicate LoopEnv(env: Env, i: int)
  {
    |env| == 8 && env[7] == Binding(Index, Number(i)) && forall j :: 0 <= j < 7 ==> env[j].name != Index
  }

  function WithIndex(env: Env, i: int): Env
    requires |env| == 8
  {
    env[7 := Binding(Index, Number(i))]
  }

  /** A test that fails does nothing, and one that holds leaves by its one statement. */
  lemma WhenSkips(p: Functions, stack: nat, t: Test, body: seq<Stmt>, rest: seq<Stmt>, env: Env, w: World)
    requires EvalTest(t, env, w) == Some(false)
    ensures Exec(p, stack, [When(t, body)] + rest, env, w) == Exec(p, stack, rest, env, w)
  {
    hide Exec;
    ExecFirst(p, stack, When(t, body), rest, env, w);
  }

  lemma WhenLeaves(p: Functions, stack: nat, t: Test, s: Stmt, flow: Flow, rest: seq<Stmt>, env: Env, w: World)
    requires EvalTest(t, env, w) == Some(true) && flow != Normal
    requires Step(p, stack, s, env, w) == Some(State(flow, env, w))
    ensures Exec(p, stack, [When(t, [s])] + rest, env, w) == Some(State(flow, env, w))
  {
    ExecFirst(p, stack, s, [], env, w);
    assert [s] + [] == [s];
    hide Exec, Eval;
    assert env[|env|..] == [] && env[..|env|] == env && Values([]) == [];
    DropInert([], w);
    ExecFirst(p, stack, When(t, [s]), rest, env, w);
  }

  lemma IndexPlus(env: Env, i: int, k: int, w: World)
    requires Peek(env, Index) == Number(i)
    ensures EvalInt(Local(Index), env, w) == Some(i) && EvalInt(Plus(Local(Index), k), env, w) == Some(i + k)
  {
  }

  lemma MakeAtIndex(p: Functions, stack: nat, env: Env, i: nat, loopBase: nat, w: World)
    requires Peek(env, Index) == Number(i)
    ensures Eval(p, stack, MakeOwned(Plus(Local(Index), loopBase)), env, w)
         == Some(Evaluated(Ok(Resource(loopBase + i, w.created)), env, Make(w, loopBase + i)))
  {
    IndexPlus(env, i, loopBase, w);
    hide EvalInt, Peek;
  }

  lemma RaiseIndex(p: Functions, stack: nat, env: Env, i: int, w: World)
    requires Peek(env, Index) == Number(i)
    ensures Step(p, stack, Assign(Index, Plus(Local(Index), 1)), env, w)
         == Some(State(Normal, Store(env, Index, Number(i + 1)), w))
  {
    IndexPlus(env, i, 1, w);
    hide EvalInt, Peek, Store, Eval, Exec, Loop;
  }

  lemma TestIndex(env: Env, i: int, k: int, loopBase: nat, w: World)
    requires Peek(env, Index) == Number(i) && Peek(env, Current).Resource? && Peek(env, Current).handle in w.live
    requires w.live[Peek(env, Current).handle] == loopBase + i - 1
    ensures EvalTest(Same(Local(Index), Constant(k)), env, w) == Some(i == k)
    ensures EvalTest(Differ(Probe(Current), Plus(Local(Index), loopBase - 1)), env, w) == Some(false)
  {
    IndexPlus(env, i, loopBase - 1, w);
    assert EvalInt(Probe(Current), env, w) == Some(loopBase + i - 1);
  }

  function FlowOf(i: int, iterations: nat): Flow
  {
    if i == 1 then Continued else if i == iterations then Broken else Normal
  }

  /** After the index was raised to `i`: the three tests decide how the turn ends. */
  lemma RunTests(p: Functions, stack: nat, loopBase: nat, iterations: nat, env: Env, i: int, w: World)
    requires |env| == 9 && env[7] == Binding(Index, Number(i)) && iterations >= 2 && 1 <= i
    requires env[8].name == Current && env[8].value.Resource? && env[8].value.handle in w.live
    requires w.live[env[8].value.handle] == loopBase + i - 1
    ensures Exec(p, stack, LoopBody(loopBase, iterations)[2..], env, w) == Some(State(FlowOf(i, iterations), env, w))
  {
    PeekAt(env, Index, 7);
    PeekAt(env, Current, 8);
    TestIndex(env, i, 1, loopBase, w);
    TestIndex(env, i, iterations, loopBase, w);
    SimpleFlows(p, stack, env, w);
    hide *;
    var t1, t2, t3 := Same(Local(Index), Constant(1)), Differ(Probe(Current), Plus(Local(Index), loopBase - 1)),
                      Same(Local(Index), Constant(iterations));
    var s1, s2, s3 := When(t1, [Continue]), When(t2, [Return(WrapInt(ResultError, Constant(92)))]), When(t3, [Break]);
    LastTests(loopBase, iterations);
    FlowCases(i, iterations);
    NothingLeft(p, stack, env, w);
    if i == 1 {
      WhenLeaves(p, stack, t1, Continue, Continued, [s2] + ([s3] + []), env, w);
    } else {
      WhenSkips(p, stack, t1, [Continue], [s2] + ([s3] + []), env, w);
      WhenSkips(p, stack, t2, [Return(WrapInt(ResultError, Constant(92)))], [s3] + [], env, w);
      if i == iterations {
        WhenLeaves(p, stack, t3, Break, Broken, [], env, w);
      } else {
        WhenSkips(p, stack, t3, [Break], [], env, w);
      }
    }
  }

  lemma LastTests(loopBase: nat, iterations: nat)
    ensures LoopBody(loopBase, iterations)[2..]
         == [When(Same(Local(Index), Constant(1)), [Continue])]
          + ([When(Differ(Probe(Current), Plus(Local(Index), loopBase - 1)), [Return(WrapInt(ResultError, Constant(92)))])]
          + ([When(Same(Local(Index), Constant(iterations)), [Break])] + []))
  {
  }

  lemma FlowCases(i: int, iterations: nat)
    ensures FlowOf(i, iterations) == if i == 1 then Continued else if i == iterations then Broken else Normal
  {
  }

  lemma SimpleFlows(p: Functions, stack: nat, env: Env, w: World)
    ensures Step(p, stack, Continue, env, w) == Some(State(Continued, env, w))
    ensures Step(p, stack, Break, env, w) == Some(State(Broken, env, w))
  {
  }

  lemma NothingLeft(p: Functions, stack: nat, env: Env, w: World)
    ensures Exec(p, stack, [], env, w) == Some(State(Normal, env, w))
  {
  }

  lemma RunTurn(p: Functions, stack: nat, loopBase: nat, iterations: nat, env: Env, i: nat, w: World)
    requires LoopEnv(env, i) && iterations >= 2 && loopBase > 0 && Fresh(w)
    ensures |env| == 8
    ensures Leave(8, Exec(p, stack, LoopBody(loopBase, iterations), env, w))
         == Some(State(FlowOf(i + 1, iterations), WithIndex(env, i + 1), Cycled(w, loopBase + i)))
  {
    hide *;
    var id := loopBase + i;
    var current := Resource(id, w.created);
    TurnEnvs(env, i, current);
    TurnBody(loopBase, iterations);
    var env1 := env + [Binding(Current, current)];
    var env2 := WithIndex(env, i + 1) + [Binding(Current, current)];
    var rest := LoopBody(loopBase, iterations)[2..];
    MakeAtIndex(p, stack, env, i, loopBase, w);
    RaiseIndex(p, stack, env1, i, Make(w, id));
    RunLetTry(p, stack, Current, MakeOwned(Plus(Local(Index), loopBase)), current,
              [Assign(Index, Plus(Local(Index), 1))] + rest, env, w);
    ExecFirst(p, stack, Assign(Index, Plus(Local(Index), 1)), rest, env1, Make(w, id));
    MadeLive(w, id);
    RunTests(p, stack, loopBase, iterations, env2, i + 1, Make(w, id));
    DropMade(id, w);
    LeaveTurn(FlowOf(i + 1, iterations), env2, Make(w, id), Cycled(w, id), current);
  }

  lemma TurnEnvs(env: Env, i: int, current: Value)
    requires LoopEnv(env, i)
    ensures |env| == 8 && Peek(env, Index) == Number(i)
    ensures var env1, env2 := env + [Binding(Current, current)], WithIndex(env, i + 1) + [Binding(Current, current)];
            && Peek(env1, Index) == Number(i) && Store(env1, Index, Number(i + 1)) == env2
            && |env2| == 9 && env2[7] == Binding(Index, Number(i + 1)) && env2[8] == Binding(Current, current)
            && env2[..8] == WithIndex(env, i + 1)
  {
    var env1 := env + [Binding(Current, current)];
    PeekAt(env, Index, 7);
    PeekAt(env1, Index, 7);
    assert env1[7 := Binding(Index, Number(i + 1))] == WithIndex(env, i + 1) + [Binding(Current, current)];
  }

  lemma TurnBody(loopBase: nat, iterations: nat)
    ensures |LoopBody(loopBase, iterations)| == 5
    ensures LoopBody(loopBase, iterations)
         == [LetTry(Current, MakeOwned(Plus(Local(Index), loopBase)))]
          + ([Assign(Index, Plus(Local(Index), 1))] + LoopBody(loopBase, iterations)[2..])
  {
  }

  lemma MadeLive(w: World, id: nat)
    ensures w.created in Make(w, id).live && Make(w, id).live[w.created] == id
  {
  }

  lemma LeaveTurn(flow: Flow, env: Env, w: World, u: World, current: Value)
    requires |env| == 9 && env[8] == Binding(Current, current) && DropAll([current], w) == Some(u)
    ensures Leave(8, Some(State(flow, env, w))) == Some(State(flow, env[..8], u))
  {
    hide DropAll;
    assert Values(env[8..]) == [current];
  }

  /** The world after the turns that are left. */
  function Cycles(w: World, from: nat, n: nat): World
  {
    w.(printed := w.printed + multiset(Range(from, n)), created := w.created + n, dropped := w.dropped + n)
  }

  lemma CyclesNext(w: World, from: nat, n: nat)
    ensures Cycles(Cycled(w, from), from + 1, n) == Cycles(w, from, n + 1)
  {
    assert Range(from, n + 1) == [from] + Range(from + 1, n);
  }

  lemma NoCycles(w: World, from: nat)
    ensures Cycles(w, from, 0) == w
  {
    assert Range(from, 0) == [];
  }

  lemma {:induction false} RunLoop(p: Functions, stack: nat, loopBase: nat, iterations: nat, env: Env, i: nat, w: World)
    requires LoopEnv(env, i) && i < iterations && iterations >= 2 && loopBase > 0 && Fresh(w)
    ensures |env| == 8
    ensures Loop(p, stack, Index, iterations + 2, LoopBody(loopBase, iterations), iterations + 2 - i, env, w)
         == Some(State(Normal, WithIndex(env, iterations), Cycles(w, loopBase + i, iterations - i)))
    decreases iterations - i
  {
    hide *;
    IndexEnv(env, i, i + 1, iterations);
    FlowCases(i + 1, iterations);
    RunTurn(p, stack, loopBase, iterations, env, i, w);
    LoopTurn(p, stack, iterations + 2, LoopBody(loopBase, iterations), iterations + 1 - i, env, i, w,
             State(FlowOf(i + 1, iterations), WithIndex(env, i + 1), Cycled(w, loopBase + i)));
    StillFresh(w, loopBase + i);
    CyclesNext(w, loopBase + i, iterations - i - 1);
    if i + 1 == iterations {
      NoCycles(Cycled(w, loopBase + i), loopBase + i + 1);
    } else {
      RunLoop(p, stack, loopBase, iterations, WithIndex(env, i + 1), i + 1, Cycled(w, loopBase + i));
    }
  }

  lemma IndexEnv(env: Env, i: int, j: int, k: int)
    requires LoopEnv(env, i)
    ensures |env| == 8 && Peek(env, Index) == Number(i)
    ensures LoopEnv(WithIndex(env, j), j) && WithIndex(WithIndex(env, j), k) == WithIndex(env, k)
  {
    PeekAt(env, Index, 7);
  }

  /** One turn of the loop, by the way its body ended. */
  lemma LoopTurn(p: Functions, stack: nat, limit: int, body: seq<Stmt>, turns: nat, env: Env, i: int, w: World, s: State)
    requires Peek(env, Index) == Number(i) && i < limit && Leave(|env|, Exec(p, stack, body, env, w)) == Some(s)
    ensures s.flow == Broken ==> Loop(p, stack, Index, limit, body, turns + 1, env, w) == Some(s.(flow := Normal))
    ensures s.flow == Normal || s.flow == Continued ==>
      Loop(p, stack, Index, limit, body, turns + 1, env, w) == Loop(p, stack, Index, limit, body, turns, s.env, s.w)
  {
    hide Exec, Leave, Peek;
  }

  lemma StillFresh(w: World, id: nat)
    requires Fresh(w)
    ensures Fresh(Cycled(w, id))
  {
  }

  // ----- one call of `exercise` -----

  function Bit(b: bool): Value
  {
    Number(if b then 1 else 0)
  }

  function Args(fail: bool, early: bool, flag: bool): Env
  {
    [Binding(Fail, Bit(fail)), Binding(Early, Bit(early)), Binding(Flag, Bit(flag))]
  }

  function Chosen(c: Case, flag: bool): nat
  {
    if flag then c.branchTrue else c.branchFalse
  }

  function Body(c: Case): seq<Stmt>
  {
    ExerciseBody(c.branchTrue, c.branchFalse, c.loopBase, c.iterations)
  }

  /** With the envelope and the selected resource bound. */
  function OpenEnv(c: Case, fail: bool, early: bool, flag: bool, w: World): Env
  {
    var (envelope, u) := Sealed(c, w);
    Args(fail, early, flag) + [Binding(Envelope, envelope), Binding(Selected, Resource(Chosen(c, flag), u.created))]
  }

  function OpenWorld(c: Case, flag: bool, w: World): World
  {
    Make(Sealed(c, w).1, Chosen(c, flag))
  }

  lemma SelectRuns(p: Functions, stack: nat, c: Case, env: Env, flag: bool, w: World)
    requires Peek(env, Flag) == Bit(flag)
    ensures Eval(p, stack, IfElse(Truth(Flag), MakeOwned(Constant(c.branchTrue)), MakeOwned(Constant(c.branchFalse))), env, w)
         == Some(Evaluated(Ok(Resource(Chosen(c, flag), w.created)), env, Make(w, Chosen(c, flag))))
  {
    hide Peek, Exec, Invoke;
    assert EvalTest(Truth(Flag), env, w) == Some(flag);
  }

  lemma BodyOpens(c: Case)
    ensures |Body(c)| == 8
    ensures Body(c) == [LetTry(Envelope, Call(0))]
                     + ([LetTry(Selected, IfElse(Truth(Flag), MakeOwned(Constant(c.branchTrue)), MakeOwned(Constant(c.branchFalse))))]
                     + Body(c)[2..])
  {
    hide LoopBody;
  }

  lemma OpenRuns(c: Case, stack: nat, fail: bool, early: bool, flag: bool, w: World)
    requires Emitted(c) && stack > MAX_DEPTH + 1
    ensures Exec(c.functions, stack, Body(c), Args(fail, early, flag), w)
         == Exec(c.functions, stack, Body(c)[2..], OpenEnv(c, fail, early, flag, w), OpenWorld(c, flag, w))
  {
    var args := Args(fail, early, flag);
    var (envelope, u) := Sealed(c, w);
    var env := args + [Binding(Envelope, envelope)];
    CallSeals(c, stack, args, w);
    PeekAt(env, Flag, 2);
    SelectRuns(c.functions, stack, c, env, flag, u);
    BodyOpens(c);
    hide Emitted, Eval, Exec, Peek, Sealed, LoopBody, Body, Args, Make;
    var body := Body(c);
    var select := IfElse(Truth(Flag), MakeOwned(Constant(c.branchTrue)), MakeOwned(Constant(c.branchFalse)));
    RunLetTry(c.functions, stack, Envelope, Call(0), envelope, [LetTry(Selected, select)] + body[2..], args, w);
    RunLetTry(c.functions, stack, Selected, select, Resource(Chosen(c, flag), u.created), body[2..], env, u);
    assert env + [Binding(Selected, Resource(Chosen(c, flag), u.created))] == OpenEnv(c, fail, early, flag, w);
  }

  const GATE := IfElse(Truth(Fail), WrapInt(ResultError, Constant(9)), WrapInt(ResultOk, Constant(1)))

  function GateValue(fail: bool): Value
  {
    if fail then Box(ResultError, [Number(9)]) else Ok(Number(1))
  }

  lemma GateRuns(p: Functions, stack: nat, env: Env, fail: bool, w: World)
    requires Peek(env, Fail) == Bit(fail)
    ensures Eval(p, stack, GATE, env, w) == Some(Evaluated(GateValue(fail), env, w))
  {
    hide Peek, Exec, Invoke;
    assert EvalTest(Truth(Fail), env, w) == Some(fail);
  }

  /** The question mark returns the error, or binds the payload. */
  lemma TryGate(p: Functions, stack: nat, env: Env, fail: bool, rest: seq<Stmt>, w: World)
    requires Peek(env, Fail) == Bit(fail)
    ensures var gone := env + [Binding(Gate, Gone)];
            Exec(p, stack, [Let(Gate, GATE)] + ([LetTry(Payload, Move(Gate))] + rest), env, w)
            == if fail then Some(State(Returned(GateValue(true)), gone, w))
               else Exec(p, stack, rest, gone + [Binding(Payload, Number(1))], w)
  {
    var bound, gone := env + [Binding(Gate, GateValue(fail))], env + [Binding(Gate, Gone)];
    var try := LetTry(Payload, Move(Gate));
    GateRuns(p, stack, env, fail, w);
    PeekLast(env, Gate, GateValue(fail));
    assert Eval(p, stack, Move(Gate), bound, w) == Some(Evaluated(GateValue(fail), gone, w));
    hide Eval, Exec, Peek;
    RunLet(p, stack, Gate, GATE, [try] + rest, env, w);
    ExecFirst(p, stack, try, rest, bound, w);
  }

  function ErrorOf(v: Value): int
  {
    if v.Box? && v.kind == ResultError && |v.items| == 1 && v.items[0].Number? then v.items[0].n else 0
  }

  function NumberOf(v: Value): int
  {
    if v.Box? && v.kind == ResultOk && |v.items| == 1 && v.items[0].Number? then v.items[0].n else 0
  }

  /** What `exercise` returns on its three paths. */
  function Answer(c: Case, fail: bool, early: bool, flag: bool): Value
  {
    if fail then GateValue(true) else Ok(Number(if early then Chosen(c, flag) else c.iterations))
  }

  function EndWorld(c: Case, fail: bool, early: bool, flag: bool, w: World): World
  {
    var open := OpenWorld(c, flag, w);
    if fail || early then open else Cycles(open, c.loopBase, c.iterations)
  }

  /** The call ends with its answer, and beside the envelope and the selected resource only inert variables. */
  ghost predicate Ends(s: Option<State>, c: Case, fail: bool, early: bool, flag: bool, w: World)
  {
    && s.Some? && s.value.flow == Returned(Answer(c, fail, early, flag)) && s.value.w == EndWorld(c, fail, early, flag, w)
    && |s.value.env| >= 5 && s.value.env[..5] == OpenEnv(c, fail, early, flag, w)
    && forall i :: 5 <= i < |s.value.env| ==> Inert(s.value.env[i].value)
  }

  lemma OpenNames(c: Case, fail: bool, early: bool, flag: bool, w: World)
    ensures var env := OpenEnv(c, fail, early, flag, w);
            && |env| == 5 && env[0] == Binding(Fail, Bit(fail)) && env[1] == Binding(Early, Bit(early))
            && env[2].name == Flag && env[3].name == Envelope
            && env[4] == Binding(Selected, Resource(Chosen(c, flag), Sealed(c, w).1.created))
  {
    hide Sealed;
  }

  lemma BodyParts(c: Case)
    ensures |Body(c)| == 8
    ensures var body := Body(c);
            && body[2..] == [Let(Gate, GATE)] + ([LetTry(Payload, Move(Gate))] + body[4..])
            && body[4..] == [When(Truth(Early), [Return(WrapInt(ResultOk, Probe(Selected)))])] + body[5..]
            && body[5..] == [LetInt(Index, Constant(0))] + ([While(Index, c.iterations + 2, LoopBody(c.loopBase, c.iterations))]
                          + [Return(WrapInt(ResultOk, Local(Index)))])
  {
    hide LoopBody;
  }

  lemma EarlyRuns(p: Functions, stack: nat, env: Env, id: nat, w: World)
    requires Peek(env, Selected).Resource? && Peek(env, Selected).handle in w.live
    requires w.live[Peek(env, Selected).handle] == id
    ensures Step(p, stack, Return(WrapInt(ResultOk, Probe(Selected))), env, w) == Some(State(Returned(Ok(Number(id))), env, w))
  {
    hide Peek, Exec, Loop;
    assert EvalInt(Probe(Selected), env, w) == Some(id);
    assert Eval(p, stack, WrapInt(ResultOk, Probe(Selected)), env, w) == Some(Evaluated(Ok(Number(id)), env, w));
  }

  lemma ReturnIndex(p: Functions, stack: nat, env: Env, i: int, w: World)
    requires Peek(env, Index) == Number(i)
    ensures Exec(p, stack, [Return(WrapInt(ResultOk, Local(Index)))], env, w) == Some(State(Returned(Ok(Number(i))), env, w))
  {
    var ret := Return(WrapInt(ResultOk, Local(Index)));
    IndexPlus(env, i, 0, w);
    hide Peek, Exec, Loop, EvalInt;
    assert Eval(p, stack, WrapInt(ResultOk, Local(Index)), env, w) == Some(Evaluated(Ok(Number(i)), env, w));
    assert Step(p, stack, ret, env, w) == Some(State(Returned(Ok(Number(i))), env, w));
    ExecFirst(p, stack, ret, [], env, w);
    assert [ret] + [] == [ret];
  }

  /** The counting loop and the final return, from a variable list of seven. */
  lemma CountRuns(c: Case, stack: nat, env: Env, w: World)
    requires |env| == 7 && (forall j :: 0 <= j < 7 ==> env[j].name != Index) && c.iterations >= 2 && c.loopBase > 0 && Fresh(w)
    ensures Exec(c.functions, stack, Body(c)[5..], env, w)
         == Some(State(Returned(Ok(Number(c.iterations))), env + [Binding(Index, Number(c.iterations))],
                       Cycles(w, c.loopBase, c.iterations)))
  {
    var p := c.functions;
    var loop := While(Index, c.iterations + 2, LoopBody(c.loopBase, c.iterations));
    var env0 := env + [Binding(Index, Number(0))];
    var envN := env + [Binding(Index, Number(c.iterations))];
    BodyParts(c);
    PeekLast(env, Index, Number(0));
    PeekLast(env, Index, Number(c.iterations));
    hide Body, LoopBody, Fresh, Exec, Peek, Loop;
    ExecFirst(p, stack, LetInt(Index, Constant(0)), [loop] + [Return(WrapInt(ResultOk, Local(Index)))], env, w);
    RunLoop(p, stack, c.loopBase, c.iterations, env0, 0, w);
    assert WithIndex(env0, c.iterations) == envN;
    ExecFirst(p, stack, loop, [Return(WrapInt(ResultOk, Local(Index)))], env0, w);
    ReturnIndex(p, stack, envN, c.iterations, Cycles(w, c.loopBase, c.iterations));
  }

  /** The selected resource is live and reads as its id. */
  lemma SelectedLive(c: Case, flag: bool, w: World)
    ensures var h := Sealed(c, w).1.created;
            h in OpenWorld(c, flag, w).live && OpenWorld(c, flag, w).live[h] == Chosen(c, flag)
  {
    hide Sealed;
  }

  lemma OpenFresh(c: Case, flag: bool, w: World)
    requires Fresh(w)
    ensures Fresh(OpenWorld(c, flag, w))
  {
    hide BuiltAll;
    BuiltAllGrows(c.built, w);
  }

  function GateEnv(c: Case, early: bool, flag: bool, w: World): Env
  {
    OpenEnv(c, false, early, flag, w) + [Binding(Gate, Gone)] + [Binding(Payload, Number(1))]
  }

  lemma GateEnvFacts(c: Case, early: bool, flag: bool, w: World)
    ensures var env := GateEnv(c, early, flag, w);
            && |env| == 7 && (forall j :: 0 <= j < 7 ==> env[j].name != Index)
            && Peek(env, Early) == Bit(early)
            && Peek(env, Selected) == Resource(Chosen(c, flag), Sealed(c, w).1.created)
            && env[..5] == OpenEnv(c, false, early, flag, w) && Inert(env[5].value) && Inert(env[6].value)
  {
    var env := GateEnv(c, early, flag, w);
    OpenNames(c, false, early, flag, w);
    hide OpenEnv;
    PeekAt(env, Early, 1);
    PeekAt(env, Selected, 4);
  }

  lemma EarlyTest(env: Env, early: bool, w: World)
    requires Peek(env, Early) == Bit(early)
    ensures EvalTest(Truth(Early), env, w) == Some(early)
  {
    hide Peek;
  }

  lemma EndsEarly(c: Case, flag: bool, env: Env, w: World)
    requires |env| == 7 && env[..5] == OpenEnv(c, false, true, flag, w) && Inert(env[5].value) && Inert(env[6].value)
    ensures Ends(Some(State(Returned(Ok(Number(Chosen(c, flag)))), env, OpenWorld(c, flag, w))), c, false, true, flag, w)
  {
    hide OpenEnv, OpenWorld;
  }

  lemma EndsCount(c: Case, flag: bool, env: Env, w: World)
    requires |env| == 7 && env[..5] == OpenEnv(c, false, false, flag, w) && Inert(env[5].value) && Inert(env[6].value)
    ensures Ends(Some(State(Returned(Ok(Number(c.iterations))), env + [Binding(Index, Number(c.iterations))],
                            Cycles(OpenWorld(c, flag, w), c.loopBase, c.iterations))), c, false, false, flag, w)
  {
    hide OpenEnv, OpenWorld, Cycles;
    assert (env + [Binding(Index, Number(c.iterations))])[..5] == env[..5];
  }

  lemma PassedGate(c: Case, stack: nat, early: bool, flag: bool, w: World)
    requires c.iterations >= 2 && c.loopBase > 0 && Fresh(w)
    ensures Ends(Exec(c.functions, stack, Body(c)[4..], GateEnv(c, early, flag, w), OpenWorld(c, flag, w)),
                 c, false, early, flag, w)
  {
    hide *;
    var env, u := GateEnv(c, early, flag, w), OpenWorld(c, flag, w);
    GateEnvFacts(c, early, flag, w);
    OpenFresh(c, flag, w);
    BodyParts(c);
    EarlyTest(env, early, u);
    var test, ret := Truth(Early), Return(WrapInt(ResultOk, Probe(Selected)));
    if early {
      SelectedLive(c, flag, w);
      EarlyRuns(c.functions, stack, env, Chosen(c, flag), u);
      WhenLeaves(c.functions, stack, test, ret, Returned(Ok(Number(Chosen(c, flag)))), Body(c)[5..], env, u);
      EndsEarly(c, flag, env, w);
    } else {
      WhenSkips(c.functions, stack, test, [ret], Body(c)[5..], env, u);
      CountRuns(c, stack, env, u);
      EndsCount(c, flag, env, w);
    }
  }

  lemma ExerciseEnds(c: Case, stack: nat, fail: bool, early: bool, flag: bool, w: World)
    requires Emitted(c) && stack > MAX_DEPTH + 1 && c.iterations >= 2 && c.loopBase > 0 && Fresh(w)
    ensures Ends(Exec(c.functions, stack, Body(c), Args(fail, early, flag), w), c, fail, early, flag, w)
  {
    var env, u := OpenEnv(c, fail, early, flag, w), OpenWorld(c, flag, w);
    OpenRuns(c, stack, fail, early, flag, w);
    OpenNames(c, fail, early, flag, w);
    BodyParts(c);
    PeekAt(env, Fail, 0);
    hide Emitted, Body, OpenEnv, OpenWorld, Exec, Peek, Fresh;
    TryGate(c.functions, stack, env, fail, Body(c)[4..], u);
    if fail {
      assert (env + [Binding(Gate, Gone)])[..5] == env;
    } else {
      hide Ends;
      assert GateEnv(c, early, flag, w) == env + [Binding(Gate, Gone)] + [Binding(Payload, Number(1))];
      PassedGate(c, stack, early, flag, w);
    }
  }

  // ----- everything is dropped -----

  /** From `w` to `x` these ids were printed and `n` resources created and dropped; nothing is left. */
  ghost predicate Settled(w: World, x: World, ids: multiset<nat>, n: nat)
  {
    && x.printed == w.printed + ids && x.live == w.live && x.heap == w.heap && x.strings == w.strings
    && x.created == w.created + n && x.dropped == w.dropped + n && x.nextCell >= w.nextCell
  }

  lemma ReleasedAll(w: World, u: World, x: World, ids: seq<nat>, id: nat)
    requires Fresh(w) && Grows(w, u) && x.live == Make(u, id).live && x.heap == u.heap
    ensures var y := Released(x, w, u, ids); y.heap == w.heap && y.live - {u.created} == w.live
    ensures u.created in Released(x, w, u, ids).live && Released(x, w, u, ids).live[u.created] == id
  {
    var y := Released(x, w, u, ids);
    assert forall h :: h in y.live - {u.created} <==> h in w.live;
    assert forall c :: c in y.heap <==> c in w.heap;
  }

  /** The envelope prints its marker and drops its trees; then the selected resource goes. */
  lemma DropOpened(c: Case, flag: bool, w: World, x: World)
    requires Emitted(c) && Fresh(w) && Chosen(c, flag) > 0
    requires x.live == OpenWorld(c, flag, w).live && x.heap == OpenWorld(c, flag, w).heap
    ensures var r := DropAll([Sealed(c, w).0, Resource(Chosen(c, flag), Sealed(c, w).1.created)], x);
            && r.Some? && r.value.live == w.live && r.value.heap == w.heap
            && r.value == x.(printed := x.printed + multiset{c.marker} + multiset(c.tree) + multiset{Chosen(c, flag)},
                             live := w.live, heap := w.heap, dropped := x.dropped + |c.tree| + 1,
                             strings := x.strings - |c.tree| - 1)
  {
    hide WellLabeled, BuiltAll, IdsOfAll, FunctionsOfAll, CrossBody, DropAll, Released, Fresh, Grows, Keeps;
    var (vs, u) := BuiltAll(c.built, w);
    var id := Chosen(c, flag);
    var marked := x.(printed := x.printed + multiset{c.marker});
    BuiltAllGrows(c.built, w);
    SizesGrow(w, u);
    MadeKeeps(w, u, marked, id);
    DropBuiltAll(c.built, MAX_DEPTH, w, marked);
    ReleasedAll(w, u, marked, c.tree, id);
    ReleasedFields(marked, w, u, c.tree);
    var y := Released(marked, w, u, c.tree);
    DropMarked(c.marker, vs, x, y);
    DropSelected(id, u.created, y);
    hide DropValue, Make, Emitted;
    DropTwo(Record(c.marker, vs), Resource(id, u.created), x, y);
  }

  lemma DropMarked(marker: nat, vs: seq<Value>, x: World, y: World)
    requires DropAll(vs, x.(printed := x.printed + multiset{marker})) == Some(y)
    ensures DropValue(Record(marker, vs), x) == Some(y)
  {
    hide DropAll;
  }

  lemma DropSelected(id: nat, h: nat, y: World)
    requires h in y.live && y.live[h] == id && id > 0
    ensures DropValue(Resource(id, h), y)
         == Some(y.(printed := y.printed + multiset{id}, live := y.live - {h}, dropped := y.dropped + 1, strings := y.strings - 1))
  {
  }

  lemma ReleasedFields(x: World, w: World, u: World, ids: seq<nat>)
    requires w.created <= u.created
    ensures var y := Released(x, w, u, ids);
            y == x.(printed := x.printed + multiset(ids), live := y.live, heap := y.heap,
                    dropped := x.dropped + (u.created - w.created), strings := x.strings - (u.created - w.created))
  {
  }

  lemma MadeKeeps(w: World, u: World, x: World, id: nat)
    requires Fresh(w) && Grows(w, u) && x.live == Make(u, id).live && x.heap == u.heap
    ensures Keeps(x, w, u)
  {
  }

  lemma DropTwo(a: Value, b: Value, w: World, u: World)
    requires DropValue(a, w) == Some(u) && DropValue(b, u).Some?
    ensures DropAll([a, b], w) == DropValue(b, u)
  {
    assert [a, b][1..] == [b] && [b][1..] == [];
    assert DropAll([b], u) == DropAll([], DropValue(b, u).value);
  }

  /** What one call prints: the trees and the marker, the selected resource, and the loop's resources. */
  ghost function Drops(c: Case, fail: bool, early: bool, flag: bool): multiset<nat>
  {
    multiset{c.marker} + multiset(c.tree) + multiset{Chosen(c, flag)}
    + if fail || early then multiset{} else multiset(Range(c.loopBase, c.iterations))
  }

  function Creations(c: Case, fail: bool, early: bool): nat
  {
    |c.tree| + 1 + if fail || early then 0 else c.iterations
  }

  lemma SettledAfter(c: Case, fail: bool, early: bool, flag: bool, w: World, x: World)
    requires Emitted(c) && Fresh(w)
    requires var y := EndWorld(c, fail, early, flag, w);
             x == y.(printed := y.printed + multiset{c.marker} + multiset(c.tree) + multiset{Chosen(c, flag)},
                     live := w.live, heap := w.heap, dropped := y.dropped + |c.tree| + 1, strings := y.strings - |c.tree| - 1)
    ensures Settled(w, x, Drops(c, fail, early, flag), Creations(c, fail, early)) && Fresh(x)
  {
    hide BuiltAll, IdsOfAll, FunctionsOfAll, CrossBody, WellLabeled;
    BuiltAllGrows(c.built, w);
  }

  /** Every call of `exercise` drops all it created, on each of its paths. */
  lemma ExerciseSettles(c: Case, stack: nat, fail: bool, early: bool, flag: bool, w: World)
    requires Emitted(c) && stack > MAX_DEPTH + 1 && c.iterations >= 2 && c.loopBase > 0 && Chosen(c, flag) > 0 && Fresh(w)
    ensures var r := Invoke(c.functions, stack, Body(c), Args(fail, early, flag), w);
            && r.Some? && r.value.0 == Answer(c, fail, early, flag) && Fresh(r.value.1)
            && Settled(w, r.value.1, Drops(c, fail, early, flag), Creations(c, fail, early))
  {
    var s := Exec(c.functions, stack, Body(c), Args(fail, early, flag), w);
    ExerciseEnds(c, stack, fail, early, flag, w);
    var y, env := EndWorld(c, fail, early, flag, w), s.value.env;
    hide Emitted, Exec, Body, Args, Fresh, DropAll, Settled, Drops;
    DropOpened(c, flag, w, y);
    DropEnv(c, fail, early, flag, w, env, y);
    SettledAfter(c, fail, early, flag, w, DropAll(Values(env), y).value);
    assert env[0..] == env;
  }

  /** Arguments, envelope, selected resource and inert variables, dropped together. */
  lemma DropEnv(c: Case, fail: bool, early: bool, flag: bool, w: World, env: Env, y: World)
    requires |env| >= 5 && env[..5] == OpenEnv(c, fail, early, flag, w)
    requires forall i :: 5 <= i < |env| ==> Inert(env[i].value)
    requires DropAll([Sealed(c, w).0, Resource(Chosen(c, flag), Sealed(c, w).1.created)], y).Some?
    ensures DropAll(Values(env), y) == DropAll([Sealed(c, w).0, Resource(Chosen(c, flag), Sealed(c, w).1.created)], y)
  {
    hide DropAll, Sealed;
    var args, pair := [Bit(fail), Bit(early), Bit(flag)], [Sealed(c, w).0, Resource(Chosen(c, flag), Sealed(c, w).1.created)];
    var rest := Values(env[5..]);
    assert forall i :: 0 <= i < 5 ==> env[i] == env[..5][i];
    assert Values(env) == args + (pair + rest);
    DropInert(args, y);
    DropConcat(args, pair + rest, y);
    DropConcat(pair, rest, y);
    DropInert(rest, DropAll(pair, y).value);
  }

  // ----- main -----

  /** The generated `main`: it returns 0 and its drops print exactly the oracle. */
  method RunMain(c: Case, stack: nat, ghost start: nat) returns (code: int, printed: multiset<nat>)
    requires Numbered(c, start) && start > 0 && Emitted(c) && stack > MAX_DEPTH + 1
    ensures code == 0 && printed == c.expected
  {
    hide Emitted, Invoke, Body, Args, Drops, Settled;
    var w := START;
    assert Fresh(w);
    hide Fresh;
    ExerciseSettles(c, stack, true, false, true, w);
    var failed := Invoke(c.functions, stack, Body(c), Args(true, false, true), w).value;
    ExerciseSettles(c, stack, false, true, false, failed.1);
    var early := Invoke(c.functions, stack, Body(c), Args(false, true, false), failed.1).value;
    ExerciseSettles(c, stack, false, false, true, early.1);
    var passed := Invoke(c.functions, stack, Body(c), Args(false, false, true), early.1).value;
    var after := passed.1;
    AllSettled(c, start, w, failed.1, early.1, after);
    printed := after.printed;
    if ErrorOf(failed.0) != 9 || NumberOf(early.0) != c.branchFalse || NumberOf(passed.0) != c.iterations {
      return 1, printed;
    }
    if w.strings != after.strings {
      return 2, printed;
    }
    if |after.live| != 0 || after.created != c.resourceCount || after.dropped != c.resourceCount {
      return 3, printed;
    }
    return 0, printed;
  }

  lemma DropsAdd(t: multiset<nat>, l: multiset<nat>, m: nat, a: nat, b: nat)
    ensures (multiset{m} + t + multiset{a} + multiset{}) + (multiset{m} + t + multiset{b} + multiset{})
          + (multiset{m} + t + multiset{a} + l)
         == t + t + t + multiset{m, m, m} + multiset{a, a} + multiset{b} + l
  {
    assert multiset{m, m, m} == multiset{m} + multiset{m} + multiset{m} && multiset{a, a} == multiset{a} + multiset{a};
  }

  /** The three calls together print the oracle. */
  lemma DropsAreOracle(c: Case)
    ensures Drops(c, true, false, true) + Drops(c, false, true, false) + Drops(c, false, false, true) == Oracle(c)
  {
    DropsAdd(multiset(c.tree), multiset(Range(c.loopBase, c.iterations)), c.marker, c.branchTrue, c.branchFalse);
  }

  lemma AllSettled(c: Case, start: nat, w: World, x: World, y: World, z: World)
    requires Numbered(c, start) && w == START
    requires Settled(w, x, Drops(c, true, false, true), Creations(c, true, false))
    requires Settled(x, y, Drops(c, false, true, false), Creations(c, false, true))
    requires Settled(y, z, Drops(c, false, false, true), Creations(c, false, false))
    ensures z.printed == c.expected && z.live == map[] && z.strings == w.strings
    ensures z.created == z.dropped == c.resourceCount
  {
    hide Drops, Oracle, Range;
    DropsAreOracle(c);
    assert multiset{} + Drops(c, true, false, true) == Drops(c, true, false, true);
  }
}
