/**
  Running the generated programs: a constructor function builds the value of its tree, and
  dropping that value drops every resource in it once and releases every cell.
 */
module OwnershipRun {
  import opened Options
  import opened Ownership
  import opened OwnershipLanguage
  import opened OwnershipProgram
  import opened OwnershipTheorems

  // ----- what construction leaves behind -----

  /** The value of a tree built in a world, and the world afterwards. */
  function Built(l: Labeled, w: World): (Value, World)
    decreases l, 1
  {
    if l.kind == Owned then (Resource(l.id, w.created), Make(w, l.id))
    else
      var (vs, u) := BuiltAll(l.children, w);
      if l.kind == Rc && |vs| == 1 then (Shared(u.nextCell), Share(u, vs[0])) else (Box(l.kind, vs), u)
  }

  function BuiltAll(ls: seq<Labeled>, w: World): (r: (seq<Value>, World))
    ensures |r.0| == |ls| && forall i :: 0 <= i < |ls| ==> r.0[i] != Gone
    decreases ls, 0
  {
    if ls == [] then ([], w) else
      var (v, u) := Built(ls[0], w);
      var (vs, x) := BuiltAll(ls[1..], u);
      ([v] + vs, x)
  }

  // ----- variables -----

  lemma {:induction false} FindAt(env: Env, x: Name, i: nat)
    requires i < |env| && env[i].name == x && forall j :: i < j < |env| ==> env[j].name != x
    ensures Find(env, x) == Some(i)
    decreases |env|
  {
    if i < |env| - 1 {
      FindAt(env[..|env| - 1], x, i);
    }
  }

  lemma PeekAt(env: Env, x: Name, i: nat)
    requires i < |env| && env[i].name == x && forall j :: i < j < |env| ==> env[j].name != x
    ensures Peek(env, x) == env[i].value && forall v :: Store(env, x, v) == env[i := Binding(x, v)]
  {
    FindAt(env, x, i);
  }

  lemma PeekLast(env: Env, x: Name, v: Value)
    ensures Peek(env + [Binding(x, v)], x) == v
    ensures forall u :: Store(env + [Binding(x, v)], x, u) == env + [Binding(x, u)]
  {
    PeekAt(env + [Binding(x, v)], x, |env|);
  }

  // ----- sequences of statements -----

  lemma ExecFirst(p: Functions, stack: nat, s: Stmt, rest: seq<Stmt>, env: Env, w: World)
    ensures var first := Step(p, stack, s, env, w);
            Exec(p, stack, [s] + rest, env, w) == if first.None? || first.value.flow != Normal then first
                                                  else Exec(p, stack, rest, first.value.env, first.value.w)
  {
    hide Step;
    assert ([s] + rest)[1..] == rest;
  }

  lemma {:induction false} ExecConcat(p: Functions, stack: nat, a: seq<Stmt>, b: seq<Stmt>, env: Env, w: World)
    requires Exec(p, stack, a, env, w).Some? && Exec(p, stack, a, env, w).value.flow == Normal
    ensures var s := Exec(p, stack, a, env, w).value; Exec(p, stack, a + b, env, w) == Exec(p, stack, b, s.env, s.w)
    decreases |a|
  {
    hide Step;
    if a == [] {
      assert a + b == b;
    } else {
      var first := Step(p, stack, a[0], env, w);
      ExecConcat(p, stack, a[1..], b, first.value.env, first.value.w);
      assert a + b == [a[0]] + (a[1..] + b);
      ExecFirst(p, stack, a[0], a[1..] + b, env, w);
    }
  }

  /** `let x = e` and `let x = e?` for an expression that succeeds. */
  lemma RunLet(p: Functions, stack: nat, x: Name, e: Expr, rest: seq<Stmt>, env: Env, w: World)
    requires Eval(p, stack, e, env, w).Some?
    ensures var r := Eval(p, stack, e, env, w).value;
            Exec(p, stack, [Let(x, e)] + rest, env, w) == Exec(p, stack, rest, r.env + [Binding(x, r.value)], r.w)
  {
    hide Eval, Exec;
    ExecFirst(p, stack, Let(x, e), rest, env, w);
  }

  lemma RunLetTry(p: Functions, stack: nat, x: Name, e: Expr, v: Value, rest: seq<Stmt>, env: Env, w: World)
    requires Eval(p, stack, e, env, w).Some? && Eval(p, stack, e, env, w).value.value == Ok(v)
    ensures var r := Eval(p, stack, e, env, w).value;
            Exec(p, stack, [LetTry(x, e)] + rest, env, w) == Exec(p, stack, rest, r.env + [Binding(x, v)], r.w)
  {
    hide Eval, Exec;
    ExecFirst(p, stack, LetTry(x, e), rest, env, w);
  }

  // ----- dropping -----

  predicate Inert(v: Value)
  {
    v == Gone || v.Number?
  }

  lemma {:induction false} DropInert(vs: seq<Value>, w: World)
    requires forall i :: 0 <= i < |vs| ==> Inert(vs[i])
    ensures DropAll(vs, w) == Some(w)
    decreases |vs|
  {
    if vs != [] {
      assert Inert(vs[0]);
      DropInert(vs[1..], w);
    }
  }

  lemma {:induction false} DropConcat(a: seq<Value>, b: seq<Value>, w: World)
    requires DropAll(a, w).Some?
    ensures DropAll(a + b, w) == DropAll(b, DropAll(a, w).value)
    decreases |a|
  {
    hide DropValue;
    if a == [] {
      assert a + b == b;
    } else {
      DropConcat(a[1..], b, DropValue(a[0], w).value);
      assert (a + b)[1..] == a[1..] + b;
    }
  }

  // ----- the functions of a tree -----

  ghost predicate Covers(p: Functions, q: Functions)
  {
    forall f :: f in q ==> f in p && p[f] == q[f]
  }

  lemma {:induction false} FunctionKeys(l: Labeled, f: nat)
    ensures forall k :: k in FunctionsOf(l, f) ==> f <= k < f + Size(l)
    decreases l, 1
  {
    hide ConstructBody;
    FunctionAllKeys(l.children, f + 1);
  }

  lemma {:induction false} FunctionAllKeys(ls: seq<Labeled>, f: nat)
    ensures forall k :: k in FunctionsOfAll(ls, f) ==> f <= k < f + SizeAll(ls)
    decreases ls, 0
  {
    hide FunctionsOf, Size;
    if ls != [] {
      FunctionKeys(ls[0], f);
      FunctionAllKeys(ls[1..], f + Size(ls[0]));
    }
  }

  lemma CoversChildren(p: Functions, l: Labeled, f: nat)
    requires Covers(p, FunctionsOf(l, f))
    ensures Covers(p, FunctionsOfAll(l.children, f + 1)) && f in p && p[f] == ConstructBody(l, f)
  {
    hide ConstructBody, FunctionsOfAll;
    FunctionAllKeys(l.children, f + 1);
    var own := FunctionsOf(l, f);
    assert f in own;
    forall k | k in FunctionsOfAll(l.children, f + 1)
      ensures k in p && p[k] == FunctionsOfAll(l.children, f + 1)[k]
    {
      assert k in own;
    }
  }

  lemma CoversFirst(p: Functions, ls: seq<Labeled>, f: nat)
    requires ls != [] && Covers(p, FunctionsOfAll(ls, f))
    ensures Covers(p, FunctionsOf(ls[0], f)) && Covers(p, FunctionsOfAll(ls[1..], f + Size(ls[0])))
  {
    var all := FunctionsOfAll(ls, f);
    FunctionKeys(ls[0], f);
    FunctionAllKeys(ls[1..], f + Size(ls[0]));
    hide FunctionsOf, Size;
    forall k | k in FunctionsOf(ls[0], f)
      ensures k in p && p[k] == FunctionsOf(ls[0], f)[k]
    {
      assert k in all && all[k] == FunctionsOf(ls[0], f)[k];
    }
    forall k | k in FunctionsOfAll(ls[1..], f + Size(ls[0]))
      ensures k in p && p[k] == FunctionsOfAll(ls[1..], f + Size(ls[0]))[k]
    {
      assert k in all && all[k] == FunctionsOfAll(ls[1..], f + Size(ls[0]))[k];
    }
  }

  // ----- assembling a value from its parts -----

  /** The parts of a value, the first `i` of them moved out. */
  function Parts(vs: seq<Value>, i: nat): (env: Env)
    ensures |env| == |vs|
    ensures forall j :: 0 <= j < |vs| ==> env[j] == Binding(Part(j), if j < i then Gone else vs[j])
  {
    seq(|vs|, j requires 0 <= j < |vs| => Binding(Part(j), if j < i then Gone else vs[j]))
  }

  /** Everything was moved into the outcome. */
  ghost predicate Assembled(s: Option<State>, v: Value, w: World)
  {
    && s.Some? && s.value.flow == Normal && s.value.w == w
    && |s.value.env| > 0 && s.value.env[|s.value.env| - 1] == Binding(Outcome, v)
    && forall j :: 0 <= j < |s.value.env| - 1 ==> s.value.env[j].value == Gone
  }

  lemma OutcomeBound(p: Functions, stack: nat, env: Env, v: Value, w: World)
    requires forall j :: 0 <= j < |env| ==> env[j].value == Gone
    ensures Assembled(Exec(p, stack, [], env + [Binding(Outcome, v)], w), v, w)
  {
  }

  lemma MoveWhole(p: Functions, stack: nat, env: Env, v: Value, w: World)
    requires v != Gone && forall j :: 0 <= j < |env| ==> env[j].value == Gone
    ensures Assembled(Exec(p, stack, [Let(Outcome, Move(Whole))], env + [Binding(Whole, v)], w), v, w)
  {
    hide Exec;
    PeekLast(env, Whole, v);
    RunLet(p, stack, Outcome, Move(Whole), [], env + [Binding(Whole, v)], w);
    assert [Let(Outcome, Move(Whole))] + [] == [Let(Outcome, Move(Whole))];
    OutcomeBound(p, stack, env + [Binding(Whole, Gone)], v, w);
  }

  lemma AssembleOwned(p: Functions, stack: nat, id: nat, w: World)
    ensures Assembled(Exec(p, stack, [LetTry(Outcome, MakeOwned(Constant(id)))], [], w), Resource(id, w.created), Make(w, id))
  {
    hide Exec;
    var s := LetTry(Outcome, MakeOwned(Constant(id)));
    RunLetTry(p, stack, Outcome, MakeOwned(Constant(id)), Resource(id, w.created), [], [], w);
    assert [s] + [] == [s];
    OutcomeBound(p, stack, [], Resource(id, w.created), Make(w, id));
  }

  lemma AssembleWrapped(p: Functions, stack: nat, kind: Kind, v: Value, w: World)
    requires v != Gone
    ensures Assembled(Exec(p, stack, [Let(Outcome, Wrap(kind, Part(0)))], Parts([v], 0), w), Box(kind, [v]), w)
  {
    hide Exec;
    var env := Parts([v], 0);
    PeekAt(env, Part(0), 0);
    RunLet(p, stack, Outcome, Wrap(kind, Part(0)), [], env, w);
    assert [Let(Outcome, Wrap(kind, Part(0)))] + [] == [Let(Outcome, Wrap(kind, Part(0)))];
    OutcomeBound(p, stack, env[0 := Binding(Part(0), Gone)], Box(kind, [v]), w);
  }

  lemma PushOne(p: Functions, stack: nat, vs: seq<Value>, i: nat, w: World)
    requires i < |vs| && vs[i] != Gone
    ensures Step(p, stack, Push(Whole, Part(i)), Parts(vs, i) + [Binding(Whole, Box(Vec, vs[..i]))], w)
         == Some(State(Normal, Parts(vs, i + 1) + [Binding(Whole, Box(Vec, vs[..i + 1]))], w))
  {
    var env := Parts(vs, i) + [Binding(Whole, Box(Vec, vs[..i]))];
    PeekAt(env, Whole, |vs|);
    PeekAt(env, Part(i), i);
    var moved := env[i := Binding(Part(i), Gone)];
    PeekAt(moved, Whole, |vs|);
    assert vs[..i] + [vs[i]] == vs[..i + 1];
    assert moved[|vs| := Binding(Whole, Box(Vec, vs[..i + 1]))]
        == Parts(vs, i + 1) + [Binding(Whole, Box(Vec, vs[..i + 1]))];
  }

  lemma {:induction false} RunPushes(p: Functions, stack: nat, vs: seq<Value>, i: nat, w: World)
    requires i <= |vs| && forall j :: 0 <= j < |vs| ==> vs[j] != Gone
    ensures Exec(p, stack, Pushes(i, |vs|), Parts(vs, i) + [Binding(Whole, Box(Vec, vs[..i]))], w)
         == Some(State(Normal, Parts(vs, |vs|) + [Binding(Whole, Box(Vec, vs))], w))
    decreases |vs| - i
  {
    hide Step;
    if i == |vs| {
      assert vs[..i] == vs;
    } else {
      PushOne(p, stack, vs, i, w);
      RunPushes(p, stack, vs, i + 1, w);
      ExecFirst(p, stack, Push(Whole, Part(i)), Pushes(i + 1, |vs|), Parts(vs, i) + [Binding(Whole, Box(Vec, vs[..i]))], w);
    }
  }

  lemma AssembleVec(p: Functions, stack: nat, vs: seq<Value>, w: World)
    requires forall j :: 0 <= j < |vs| ==> vs[j] != Gone
    ensures Assembled(Exec(p, stack, [Let(Whole, Empty(Vec))] + Pushes(0, |vs|) + [Let(Outcome, Move(Whole))], Parts(vs, 0), w),
                      Box(Vec, vs), w)
  {
    hide Exec, Pushes;
    var last := [Let(Outcome, Move(Whole))];
    var env := Parts(vs, 0) + [Binding(Whole, Box(Vec, []))];
    assert [Let(Whole, Empty(Vec))] + Pushes(0, |vs|) + last == [Let(Whole, Empty(Vec))] + (Pushes(0, |vs|) + last);
    RunLet(p, stack, Whole, Empty(Vec), Pushes(0, |vs|) + last, Parts(vs, 0), w);
    assert vs[..0] == [];
    RunPushes(p, stack, vs, 0, w);
    ExecConcat(p, stack, Pushes(0, |vs|), last, env, w);
    MoveWhole(p, stack, Parts(vs, |vs|), Box(Vec, vs), w);
  }

  lemma InsertOne(p: Functions, stack: nat, key: nat, v: Value, w: World)
    requires v != Gone
    ensures Step(p, stack, Insert(Whole, key, Part(0)), Parts([v], 0) + [Binding(Whole, Box(MapOf, []))], w)
         == Some(State(Normal, Parts([v], 1) + [Binding(Whole, Box(MapOf, [v]))], w))
  {
    var env := [Binding(Part(0), v), Binding(Whole, Box(MapOf, []))];
    assert env == Parts([v], 0) + [Binding(Whole, Box(MapOf, []))];
    assert [Binding(Part(0), Gone), Binding(Whole, Box(MapOf, [v]))] == Parts([v], 1) + [Binding(Whole, Box(MapOf, [v]))];
    PeekAt(env, Whole, 1);
    AddOne(v, w);
    hide Peek, AddItem, Eval, Exec, Loop, Parts;
  }

  lemma AddOne(v: Value, w: World)
    requires v != Gone
    ensures AddItem([Binding(Part(0), v), Binding(Whole, Box(MapOf, []))], Whole, Part(0), w)
         == Some(State(Normal, [Binding(Part(0), Gone), Binding(Whole, Box(MapOf, [v]))], w))
  {
    var env := [Binding(Part(0), v), Binding(Whole, Box(MapOf, []))];
    PeekAt(env, Whole, 1);
    PeekAt(env, Part(0), 0);
    var moved := [Binding(Part(0), Gone), Binding(Whole, Box(MapOf, []))];
    assert env[0 := Binding(Part(0), Gone)] == moved;
    PeekAt(moved, Whole, 1);
    hide Peek, Store;
    assert [] + [v] == [v];
    assert moved[1 := Binding(Whole, Box(MapOf, [v]))] == [Binding(Part(0), Gone), Binding(Whole, Box(MapOf, [v]))];
  }

  lemma AssembleMap(p: Functions, stack: nat, key: nat, v: Value, w: World)
    requires v != Gone
    ensures Assembled(Exec(p, stack, [Let(Whole, Empty(MapOf)), Insert(Whole, key, Part(0)), Let(Outcome, Move(Whole))],
                           Parts([v], 0), w), Box(MapOf, [v]), w)
  {
    hide Exec, Step, Parts;
    var insert, last := Insert(Whole, key, Part(0)), [Let(Outcome, Move(Whole))];
    assert [Let(Whole, Empty(MapOf)), insert, Let(Outcome, Move(Whole))] == [Let(Whole, Empty(MapOf))] + ([insert] + last);
    RunLet(p, stack, Whole, Empty(MapOf), [insert] + last, Parts([v], 0), w);
    InsertOne(p, stack, key, v, w);
    ExecFirst(p, stack, insert, last, Parts([v], 0) + [Binding(Whole, Box(MapOf, []))], w);
    MoveWhole(p, stack, Parts([v], 1), Box(MapOf, [v]), w);
  }

  const COUNT_GUARD := When(CountDiffers(Alias, 2), [Return(ErrorWith(Whole, 91))])

  lemma GuardPasses(p: Functions, stack: nat, env: Env, c: nat, v: Value, w: World)
    requires |env| == 3 && env[2] == Binding(Alias, Shared(c)) && c in w.heap && w.heap[c] == Cell(2, v)
    ensures Exec(p, stack, [COUNT_GUARD], env, w) == Some(State(Normal, env, w))
  {
    PeekAt(env, Alias, 2);
    hide Eval, Loop;
    assert Step(p, stack, COUNT_GUARD, env, w) == Some(State(Normal, env, w));
    ExecFirst(p, stack, COUNT_GUARD, [], env, w);
    assert [COUNT_GUARD] + [] == [COUNT_GUARD];
  }

  /** The alias raises the count to two and its scope lowers it again. */
  lemma RunAlias(p: Functions, stack: nat, env: Env, v: Value, w: World)
    requires |env| == 2 && env[1] == Binding(Whole, Shared(w.nextCell))
    ensures Step(p, stack, ALIAS_SCOPE, env, Share(w, v)) == Some(State(Normal, env, Share(w, v)))
  {
    var c, u := w.nextCell, Share(w, v);
    var body := [Let(Alias, CloneRc(Whole)), COUNT_GUARD];
    PeekAt(env, Whole, 1);
    var u2 := u.(heap := u.heap[c := Cell(2, v)]);
    var env2 := env + [Binding(Alias, Shared(c))];
    assert Eval(p, stack, CloneRc(Whole), env, u) == Some(Evaluated(Shared(c), env, u2));
    hide Eval, Exec, DropAll;
    assert body == [Let(Alias, CloneRc(Whole))] + [COUNT_GUARD];
    RunLet(p, stack, Alias, CloneRc(Whole), [COUNT_GUARD], env, u);
    GuardPasses(p, stack, env2, c, v, u2);
    assert Values(env2[2..]) == [Shared(c)];
    DropAlias(c, v, u, u2);
    assert env2[..2] == env;
  }

  lemma DropAlias(c: nat, v: Value, u: World, u2: World)
    requires c in u.heap && u.heap[c] == Cell(1, v) && u2 == u.(heap := u.heap[c := Cell(2, v)])
    ensures DropAll([Shared(c)], u2) == Some(u)
  {
    assert u2.heap[c := Cell(1, v)] == u.heap;
    assert DropValue(Shared(c), u2) == Some(u);
    assert [Shared(c)][1..] == [];
  }

  lemma AssembleRc(p: Functions, stack: nat, v: Value, w: World)
    requires v != Gone
    ensures Assembled(Exec(p, stack, [Let(Whole, NewRc(Part(0))), ALIAS_SCOPE, Let(Outcome, Move(Whole))], Parts([v], 0), w),
                      Shared(w.nextCell), Share(w, v))
  {
    hide Exec, Step;
    var last := [Let(Outcome, Move(Whole))];
    var env := Parts([v], 1) + [Binding(Whole, Shared(w.nextCell))];
    PeekAt(Parts([v], 0), Part(0), 0);
    assert Parts([v], 0)[0 := Binding(Part(0), Gone)] == Parts([v], 1);
    assert [Let(Whole, NewRc(Part(0))), ALIAS_SCOPE, Let(Outcome, Move(Whole))]
        == [Let(Whole, NewRc(Part(0)))] + ([ALIAS_SCOPE] + last);
    RunLet(p, stack, Whole, NewRc(Part(0)), [ALIAS_SCOPE] + last, Parts([v], 0), w);
    RunAlias(p, stack, env, v, w);
    ExecFirst(p, stack, ALIAS_SCOPE, last, env, Share(w, v));
    MoveWhole(p, stack, Parts([v], 1), Shared(w.nextCell), Share(w, v));
  }

  // ----- constructor functions -----

  /** From the built children to the built tree. */
  lemma RunAssemble(p: Functions, stack: nat, l: Labeled, depth: nat, w: World)
    requires WellLabeled(l, depth)
    ensures var (vs, u) := BuiltAll(l.children, w);
            Assembled(Exec(p, stack, Assemble(l), Parts(vs, 0), u), Built(l, w).0, Built(l, w).1)
  {
    hide Exec, Assembled, Pushes, ALIAS_SCOPE;
    var (vs, u) := BuiltAll(l.children, w);
    match l.kind {
      case Owned =>
        assert Parts([], 0) == [];
        AssembleOwned(p, stack, l.id, w);
      case Vec => AssembleVec(p, stack, vs, u);
      case Rc => assert vs == [vs[0]]; AssembleRc(p, stack, vs[0], u);
      case MapOf => assert vs == [vs[0]]; AssembleMap(p, stack, l.key, vs[0], u);
      case _ => assert vs == [vs[0]]; AssembleWrapped(p, stack, l.kind, vs[0], u);
    }
  }

  /** Returning the outcome leaves only moved variables behind. */
  lemma RunReturn(p: Functions, stack: nat, s: Option<State>, v: Value, w: World)
    requires Assembled(s, v, w) && v != Gone
    ensures Leave(0, Exec(p, stack, RETURN_OUTCOME, s.value.env, w)) == Some(State(Returned(Ok(v)), [], w))
  {
    var env := s.value.env;
    var n := |env| - 1;
    PeekAt(env, Outcome, n);
    var gone := env[n := Binding(Outcome, Gone)];
    var ret := Return(Wrap(ResultOk, Outcome));
    assert Eval(p, stack, Wrap(ResultOk, Outcome), env, w) == Some(Evaluated(Ok(v), gone, w));
    hide Eval;
    assert Step(p, stack, ret, env, w) == Some(State(Returned(Ok(v)), gone, w));
    ExecFirst(p, stack, ret, [], env, w);
    assert [ret] + [] == [ret];
    DropInert(Values(gone[0..]), w);
    assert gone[..0] == [];
  }

  /** Calling a tree's constructor builds the tree, with a stack deeper than the tree. */
  lemma {:induction false} CallBuilds(p: Functions, stack: nat, l: Labeled, f: nat, depth: nat, env: Env, w: World)
    requires WellLabeled(l, depth) && stack > depth && Covers(p, FunctionsOf(l, f))
    ensures Eval(p, stack, Call(f), env, w) == Some(Evaluated(Ok(Built(l, w).0), env, Built(l, w).1))
    decreases l, 1
  {
    hide FunctionsOf, FunctionsOfAll, Covers, Assemble, Constructs, Exec, Assembled;
    CoversChildren(p, l, f);
    var (vs, u) := BuiltAll(l.children, w);
    var binds := Constructs(l.children, 0, f + 1);
    assert Parts([], 0) == [] && [] + vs == vs;
    if l.children != [] {
      RunConstructs(p, stack - 1, l.children, [], f + 1, depth - 1, w);
    } else {
      NoConstructs(p, stack - 1, f + 1, w);
    }
    RunAssemble(p, stack - 1, l, depth, w);
    RunBody(p, stack - 1, binds, Assemble(l), Parts(vs, 0), w, u, Built(l, w).0, Built(l, w).1);
  }

  lemma NoConstructs(p: Functions, stack: nat, f: nat, w: World)
    ensures Exec(p, stack, Constructs([], 0, f), [], w) == Some(State(Normal, [], w))
  {
  }

  /** Binding the parts, assembling them and returning the outcome. */
  lemma RunBody(p: Functions, stack: nat, binds: seq<Stmt>, make: seq<Stmt>, env: Env, w: World, u: World, v: Value, x: World)
    requires v != Gone && Exec(p, stack, binds, [], w) == Some(State(Normal, env, u))
    requires Assembled(Exec(p, stack, make, env, u), v, x)
    ensures Invoke(p, stack, binds + make + RETURN_OUTCOME, [], w) == Some((Ok(v), x))
  {
    hide Exec;
    assert binds + make + RETURN_OUTCOME == binds + (make + RETURN_OUTCOME);
    ExecConcat(p, stack, binds, make + RETURN_OUTCOME, [], w);
    ExecConcat(p, stack, make, RETURN_OUTCOME, env, u);
    RunReturn(p, stack, Exec(p, stack, make, env, u), v, x);
  }

  lemma {:induction false} RunConstructs(p: Functions, stack: nat, ls: seq<Labeled>, done: seq<Value>, f: nat, depth: nat, w: World)
    requires (forall i :: 0 <= i < |ls| ==> WellLabeled(ls[i], depth)) && stack > depth && Covers(p, FunctionsOfAll(ls, f))
    ensures var (vs, u) := BuiltAll(ls, w);
            Exec(p, stack, Constructs(ls, |done|, f), Parts(done, 0), w) == Some(State(Normal, Parts(done + vs, 0), u))
    decreases ls, 0
  {
    hide FunctionsOf, FunctionsOfAll, Covers, WellLabeled, Eval, Step;
    if ls == [] {
      assert done + [] == done;
    } else {
      CoversFirst(p, ls, f);
      var (v, u) := Built(ls[0], w);
      var rest := Constructs(ls[1..], |done| + 1, f + Size(ls[0]));
      CallBuilds(p, stack, ls[0], f, depth, Parts(done, 0), w);
      RunLetTry(p, stack, Part(|done|), Call(f), v, rest, Parts(done, 0), w);
      assert Parts(done, 0) + [Binding(Part(|done|), v)] == Parts(done + [v], 0);
      RunConstructs(p, stack, ls[1..], done + [v], f + Size(ls[0]), depth, u);
      assert done + [v] + BuiltAll(ls[1..], u).0 == done + BuiltAll(ls, w).0;
    }
  }

  // ----- dropping what was built -----

  /** Handles and cells are numbered in the order of creation. */
  ghost predicate Fresh(w: World)
  {
    (forall h :: h in w.live ==> h < w.created) && (forall c :: c in w.heap ==> c < w.nextCell)
  }

  /** Building only adds resources and cells, with the next numbers. */
  ghost predicate Grows(w: World, u: World)
  {
    && w.created <= u.created && w.nextCell <= u.nextCell && u.printed == w.printed && u.dropped == w.dropped
    && u.strings - w.strings == u.created - w.created
    && (forall h :: h < w.created ==> (h in w.live <==> h in u.live))
    && (forall h :: h < w.created && h in w.live ==> u.live[h] == w.live[h])
    && (forall c :: c < w.nextCell ==> (c in w.heap <==> c in u.heap))
    && (forall c :: c < w.nextCell && c in w.heap ==> u.heap[c] == w.heap[c])
    && (Fresh(w) ==> Fresh(u))
  }

  lemma GrowsTrans(a: World, b: World, c: World)
    requires Grows(a, b) && Grows(b, c)
    ensures Grows(a, c)
  {
    hide Fresh;
  }

  lemma {:induction false} BuiltGrows(l: Labeled, w: World)
    ensures Grows(w, Built(l, w).1) && Built(l, w).1.created == w.created + |IdsOf(l)|
    decreases l, 1
  {
    if l.kind != Owned {
      BuiltAllGrows(l.children, w);
      var (vs, u) := BuiltAll(l.children, w);
      if l.kind == Rc && |vs| == 1 {
        assert Grows(u, Share(u, vs[0]));
        GrowsTrans(w, u, Share(u, vs[0]));
      }
    }
  }

  lemma {:induction false} BuiltAllGrows(ls: seq<Labeled>, w: World)
    ensures Grows(w, BuiltAll(ls, w).1) && BuiltAll(ls, w).1.created == w.created + |IdsOfAll(ls)|
    decreases ls, 0
  {
    hide Built, IdsOf;
    if ls != [] {
      var (v, u) := Built(ls[0], w);
      BuiltGrows(ls[0], w);
      BuiltAllGrows(ls[1..], u);
      GrowsTrans(w, u, BuiltAll(ls[1..], u).1);
    }
  }

  /** `x` still holds what was built between `w` and `u`. */
  ghost predicate Keeps(x: World, w: World, u: World)
  {
    && (forall h :: w.created <= h < u.created && h in u.live ==> h in x.live && x.live[h] == u.live[h])
    && (forall c :: w.nextCell <= c < u.nextCell && c in u.heap ==> c in x.heap && x.heap[c] == u.heap[c])
  }

  /** `x` without what was built between `w` and `u`, its drops printed. */
  function Released(x: World, w: World, u: World, ids: seq<nat>): World
    requires w.created <= u.created
  {
    x.(printed := x.printed + multiset(ids),
       live := map h | h in x.live && !(w.created <= h < u.created) :: x.live[h],
       dropped := x.dropped + (u.created - w.created),
       strings := x.strings - (u.created - w.created),
       heap := map c | c in x.heap && !(w.nextCell <= c < u.nextCell) :: x.heap[c])
  }

  lemma ReleasedTwice(x: World, w: World, u: World, v: World, a: seq<nat>, b: seq<nat>)
    requires w.created <= u.created <= v.created && w.nextCell <= u.nextCell <= v.nextCell
    ensures Released(Released(x, w, u, a), u, v, b) == Released(x, w, v, a + b)
  {
    var once, twice := Released(Released(x, w, u, a), u, v, b), Released(x, w, v, a + b);
    assert once.live == twice.live && once.heap == twice.heap;
    assert multiset(a + b) == multiset(a) + multiset(b);
  }

  /** The first of several built values, and the others after it is dropped. */
  lemma KeepsFirst(x: World, w: World, u: World, v: World, ids: seq<nat>)
    requires Grows(w, u) && Grows(u, v) && Keeps(x, w, v)
    ensures Keeps(x, w, u) && Keeps(Released(x, w, u, ids), u, v)
  {
    hide Fresh;
  }

  lemma DropLeaf(id: nat, w: World, x: World)
    requires id > 0 && Keeps(x, w, Make(w, id))
    ensures DropValue(Resource(id, w.created), x) == Some(Released(x, w, Make(w, id), [id]))
  {
    var h, y := w.created, Released(x, w, Make(w, id), [id]);
    assert h in Make(w, id).live;
    assert x.live - {h} == y.live && y.heap == x.heap;
    assert multiset([id]) == multiset{id};
  }

  /** Dropping a built value prints each of its ids and gives back all it holds. */
  lemma {:induction false} DropBuilt(l: Labeled, depth: nat, w: World, x: World)
    requires WellLabeled(l, depth) && Keeps(x, w, Built(l, w).1)
    ensures Built(l, w).1.created >= w.created
    ensures DropValue(Built(l, w).0, x) == Some(Released(x, w, Built(l, w).1, IdsOf(l)))
    decreases l, 1
  {
    BuiltGrows(l, w);
    if l.kind == Owned {
      DropLeaf(l.id, w, x);
    } else {
      BuiltAllGrows(l.children, w);
      hide Grows;
      if l.kind == Rc {
        DropRc(l, depth, w, x);
      } else {
        DropBox(l, depth, w, x);
      }
    }
  }

  lemma {:induction false} DropBox(l: Labeled, depth: nat, w: World, x: World)
    requires WellLabeled(l, depth) && l.kind != Owned && l.kind != Rc && Keeps(x, w, Built(l, w).1)
    ensures Built(l, w).1.created >= w.created
    ensures DropValue(Built(l, w).0, x) == Some(Released(x, w, Built(l, w).1, IdsOf(l)))
    decreases l, 0
  {
    hide Grows, Released;
    if l.children == [] {
      DropNothing(w, x);
    } else {
      DropBuiltAll(l.children, depth - 1, w, x);
    }
  }

  lemma DropNothing(w: World, x: World)
    ensures Released(x, w, w, []) == x && DropAll([], x) == Some(x)
  {
    assert Released(x, w, w, []).live == x.live && Released(x, w, w, []).heap == x.heap;
  }

  lemma {:induction false} DropRc(l: Labeled, depth: nat, w: World, x: World)
    requires WellLabeled(l, depth) && l.kind == Rc && Keeps(x, w, Built(l, w).1)
    ensures Built(l, w).1.created >= w.created
    ensures DropValue(Built(l, w).0, x) == Some(Released(x, w, Built(l, w).1, IdsOf(l)))
    decreases l, 0
  {
    var child := l.children[0];
    assert l.children == [child];
    OneBuilt(child, w);
    BuiltGrows(child, w);
    var (v, u) := Built(child, w);
    hide WellLabeled, IdsOf, Built, BuiltAll;
    RcHeld(x, w, u, v);
    var y := x.(heap := x.heap - {u.nextCell});
    DropBuilt(child, depth - 1, w, y);
    RcReleased(x, w, u, v, IdsOf(child));
  }

  lemma OneBuilt(l: Labeled, w: World)
    ensures BuiltAll([l], w) == ([Built(l, w).0], Built(l, w).1) && IdsOfAll([l]) == IdsOf(l)
  {
    hide Built, IdsOf;
    assert [l][1..] == [] && [l][0] == l;
    var (v, u) := Built(l, w);
    assert BuiltAll([], u) == ([], u) && [v] + [] == [v];
    assert IdsOfAll([]) == [] && IdsOf(l) + [] == IdsOf(l);
  }

  lemma RcHeld(x: World, w: World, u: World, v: Value)
    requires Grows(w, u) && Keeps(x, w, Share(u, v))
    ensures u.nextCell in x.heap && x.heap[u.nextCell] == Cell(1, v)
    ensures Keeps(x.(heap := x.heap - {u.nextCell}), w, u)
  {
    hide Fresh;
    assert u.nextCell in Share(u, v).heap;
    forall c | w.nextCell <= c < u.nextCell && c in u.heap
      ensures c in x.heap && x.heap[c] == u.heap[c]
    {
      assert c in Share(u, v).heap;
    }
  }

  lemma RcReleased(x: World, w: World, u: World, v: Value, ids: seq<nat>)
    requires w.created <= u.created && w.nextCell <= u.nextCell
    ensures Released(x.(heap := x.heap - {u.nextCell}), w, u, ids) == Released(x, w, Share(u, v), ids)
  {
    var a, b := Released(x.(heap := x.heap - {u.nextCell}), w, u, ids), Released(x, w, Share(u, v), ids);
    assert a.live == b.live && a.heap == b.heap;
  }

  lemma {:induction false} DropBuiltAll(ls: seq<Labeled>, depth: nat, w: World, x: World)
    requires (forall i :: 0 <= i < |ls| ==> WellLabeled(ls[i], depth)) && Keeps(x, w, BuiltAll(ls, w).1)
    ensures BuiltAll(ls, w).1.created >= w.created
    ensures DropAll(BuiltAll(ls, w).0, x) == Some(Released(x, w, BuiltAll(ls, w).1, IdsOfAll(ls)))
    decreases ls, 0
  {
    hide Built, IdsOf, WellLabeled, Grows, Keeps, Released, DropValue;
    if ls == [] {
      DropNothing(w, x);
      SizesGrow(w, w);
    } else {
      var (v, u) := Built(ls[0], w);
      var (vs, z) := BuiltAll(ls[1..], u);
      BuiltGrows(ls[0], w);
      BuiltAllGrows(ls[1..], u);
      SizesGrow(w, u);
      SizesGrow(u, z);
      KeepsFirst(x, w, u, z, IdsOf(ls[0]));
      DropBuilt(ls[0], depth, w, x);
      DropBuiltAll(ls[1..], depth, u, Released(x, w, u, IdsOf(ls[0])));
      ReleasedTwice(x, w, u, z, IdsOf(ls[0]), IdsOfAll(ls[1..]));
      assert ([v] + vs)[1..] == vs;
    }
  }

  lemma SizesGrow(w: World, u: World)
    ensures Grows(w, u) ==> w.created <= u.created && w.nextCell <= u.nextCell
  {
  }
}
