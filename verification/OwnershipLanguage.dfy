/**
  The language of the generated ownership tests, with moves, reference counts and scopes.
  A world records what the test can observe: the printed drops, the probe's resources, the
  live strings and the reference-counted cells.

  Values leave a world only by being dropped. A value dropped twice, a variable used after
  its value was moved, or a call below the last stack frame has no result.
 */
module OwnershipLanguage {
  import opened Options
  import opened Ownership

  // ----- values -----

  /**
    `Box` is a vector, option, result or map with its elements; `Shared` is a reference to a
    counted cell; `Record` is the envelope. `Gone` is what a move leaves behind.
   */
  datatype Value = Gone | Number(n: int) | Resource(id: nat, handle: nat) | Box(kind: Kind, items: seq<Value>)
    | Shared(cell: nat) | Record(marker: nat, fields: seq<Value>)

  datatype Cell = Cell(count: nat, content: Value)

  datatype World = World(printed: multiset<nat>, live: map<nat, nat>, created: nat, dropped: nat, strings: int,
                         heap: map<nat, Cell>, nextCell: nat)

  const START := World(multiset{}, map[], 0, 0, 0, map[], 0)

  /** Dropping a resource prints its id, gives it back to the probe and frees its text. */
  function DropResource(id: nat, handle: nat, w: World): Option<World>
  {
    if handle !in w.live || w.live[handle] == 0 then None
    else Some(w.(printed := w.printed + multiset{id}, live := w.live - {handle}, dropped := w.dropped + 1,
                 strings := w.strings - 1))
  }

  function DropValue(v: Value, w: World): (r: Option<World>)
    ensures r.Some? ==> r.value.heap.Keys <= w.heap.Keys
    decreases w.heap.Keys, v, 1
  {
    match v
    case Gone => Some(w)
    case Number(_) => Some(w)
    case Resource(id, handle) => DropResource(id, handle, w)
    case Box(_, items) => DropAll(items, w)
    case Record(marker, fields) => DropAll(fields, w.(printed := w.printed + multiset{marker}))
    case Shared(cell) =>
      if cell !in w.heap then None
      else if w.heap[cell].count > 1
      then Some(w.(heap := w.heap[cell := Cell(w.heap[cell].count - 1, w.heap[cell].content)]))
      else
        var rest := w.(heap := w.heap - {cell});
        assert cell !in rest.heap.Keys && rest.heap.Keys < w.heap.Keys;
        DropValue(w.heap[cell].content, rest)
  }

  function DropAll(items: seq<Value>, w: World): (r: Option<World>)
    ensures r.Some? ==> r.value.heap.Keys <= w.heap.Keys
    decreases w.heap.Keys, items, 0
  {
    if items == [] then Some(w) else
      var first := DropValue(items[0], w);
      if first.None? then None else DropAll(items[1..], first.value)
  }

  // ----- programs -----

  /** `Part(i)` is a constructor's child or the envelope's field number i. */
  datatype Name = Part(i: nat) | Whole | Outcome | Alias | Envelope | Selected | Gate | Payload | Index | Current
    | Fail | Early | Flag

  datatype IntExpr = Constant(n: int) | Local(x: Name) | Plus(e: IntExpr, n: int) | Probe(x: Name)

  datatype Test = Truth(x: Name) | Same(a: IntExpr, b: IntExpr) | Differ(a: IntExpr, b: IntExpr)
    | CountDiffers(x: Name, n: nat)

  datatype Expr = Move(x: Name) | MakeOwned(id: IntExpr) | Call(f: nat) | Wrap(kind: Kind, x: Name) | Empty(kind: Kind)
    | NewRc(x: Name) | CloneRc(x: Name) | Struct(marker: nat, parts: nat) | WrapInt(kind: Kind, e: IntExpr)
    | ErrorWith(x: Name, code: int) | IfElse(test: Test, yes: Expr, no: Expr)

  datatype Stmt = Let(x: Name, e: Expr) | LetTry(x: Name, e: Expr) | LetInt(x: Name, v: IntExpr)
    | Assign(x: Name, v: IntExpr) | Push(x: Name, y: Name) | Insert(x: Name, key: nat, y: Name)
    | When(test: Test, body: seq<Stmt>) | Scope(body: seq<Stmt>) | While(x: Name, limit: int, body: seq<Stmt>)
    | Return(e: Expr) | Continue | Break

  type Functions = map<nat, seq<Stmt>>

  datatype Binding = Binding(name: Name, value: Value)
  type Env = seq<Binding>

  // ----- variables -----

  function Find(env: Env, x: Name): (i: Option<nat>)
    ensures i.Some? ==> i.value < |env|
  {
    if env == [] then None
    else if env[|env| - 1].name == x then Some(|env| - 1)
    else Find(env[..|env| - 1], x)
  }

  function Peek(env: Env, x: Name): Value
  {
    var i := Find(env, x);
    if i.None? then Gone else env[i.value].value
  }

  function Store(env: Env, x: Name, v: Value): (r: Env)
    ensures |r| == |env|
  {
    var i := Find(env, x);
    if i.None? then env else env[i.value := Binding(x, v)]
  }

  function Values(env: Env): (vs: seq<Value>)
    ensures |vs| == |env|
  {
    seq(|env|, i requires 0 <= i < |env| => env[i].value)
  }

  /** Moves the parts from `i` on into a list. */
  function TakeParts(env: Env, i: nat, n: nat): Option<(seq<Value>, Env)>
    requires i <= n
    decreases n - i
  {
    if i == n then Some(([], env))
    else if Peek(env, Part(i)) == Gone then None
    else
      var rest := TakeParts(Store(env, Part(i), Gone), i + 1, n);
      if rest.None? then None else Some(([Peek(env, Part(i))] + rest.value.0, rest.value.1))
  }

  // ----- expressions -----

  function EvalInt(e: IntExpr, env: Env, w: World): Option<int>
  {
    match e
    case Constant(n) => Some(n)
    case Local(x) => if Peek(env, x).Number? then Some(Peek(env, x).n) else None
    case Plus(e, n) =>
      var a := EvalInt(e, env, w);
      if a.None? then None else Some(a.value + n)
    case Probe(x) =>
      var v := Peek(env, x);
      if v.Resource? && v.handle in w.live then Some(w.live[v.handle]) else None
  }

  function EvalTest(t: Test, env: Env, w: World): Option<bool>
  {
    match t
    case Truth(x) => if Peek(env, x).Number? then Some(Peek(env, x).n != 0) else None
    case Same(a, b) =>
      var m, n := EvalInt(a, env, w), EvalInt(b, env, w);
      if m.None? || n.None? then None else Some(m.value == n.value)
    case Differ(a, b) =>
      var m, n := EvalInt(a, env, w), EvalInt(b, env, w);
      if m.None? || n.None? then None else Some(m.value != n.value)
    case CountDiffers(x, n) =>
      var v := Peek(env, x);
      if v.Shared? && v.cell in w.heap then Some(w.heap[v.cell].count != n) else None
  }

  datatype Evaluated = Evaluated(value: Value, env: Env, w: World)

  function Ok(v: Value): Value
  {
    Box(ResultOk, [v])
  }

  /** `make_owned`: a fresh probe handle and a fresh text. */
  function Make(w: World, id: nat): World
  {
    w.(live := w.live[w.created := id], created := w.created + 1, strings := w.strings + 1)
  }

  /** `rc_new`. */
  function Share(w: World, v: Value): World
  {
    w.(heap := w.heap[w.nextCell := Cell(1, v)], nextCell := w.nextCell + 1)
  }

  /** The expressions that call no function. */
  function EvalSimple(e: Expr, env: Env, w: World): Option<Evaluated>
  {
    match e
    case Move(x) =>
      if Peek(env, x) == Gone then None else Some(Evaluated(Peek(env, x), Store(env, x, Gone), w))
    case MakeOwned(id) =>
      var n := EvalInt(id, env, w);
      if n.None? || n.value < 0 then None else Some(Evaluated(Ok(Resource(n.value, w.created)), env, Make(w, n.value)))
    case Wrap(kind, x) =>
      if Peek(env, x) == Gone then None else Some(Evaluated(Box(kind, [Peek(env, x)]), Store(env, x, Gone), w))
    case Empty(kind) => Some(Evaluated(Box(kind, []), env, w))
    case NewRc(x) =>
      if Peek(env, x) == Gone then None
      else Some(Evaluated(Shared(w.nextCell), Store(env, x, Gone), Share(w, Peek(env, x))))
    case CloneRc(x) =>
      var v := Peek(env, x);
      if !v.Shared? || v.cell !in w.heap then None
      else
        var cell := w.heap[v.cell];
        Some(Evaluated(v, env, w.(heap := w.heap[v.cell := Cell(cell.count + 1, cell.content)])))
    case Struct(marker, parts) =>
      var taken := TakeParts(env, 0, parts);
      if taken.None? then None else Some(Evaluated(Record(marker, taken.value.0), taken.value.1, w))
    case WrapInt(kind, e) =>
      var n := EvalInt(e, env, w);
      if n.None? then None else Some(Evaluated(Box(kind, [Number(n.value)]), env, w))
    case ErrorWith(x, code) =>
      if Peek(env, x) == Gone then None
      else Some(Evaluated(Box(ResultError, [Number(code), Peek(env, x)]), Store(env, x, Gone), w))
    case Call(_) => None
    case IfElse(_, _, _) => None
  }

  function Eval(p: Functions, stack: nat, e: Expr, env: Env, w: World): Option<Evaluated>
    decreases stack, 0, e
  {
    match e
    case Call(f) =>
      if stack == 0 || f !in p then None
      else
        var done := Invoke(p, stack - 1, p[f], [], w);
        if done.None? then None else Some(Evaluated(done.value.0, env, done.value.1))
    case IfElse(test, yes, no) =>
      var b := EvalTest(test, env, w);
      if b.None? then None else if b.value then Eval(p, stack, yes, env, w) else Eval(p, stack, no, env, w)
    case _ => EvalSimple(e, env, w)
  }

  // ----- statements -----

  datatype Flow = Normal | Returned(value: Value) | Continued | Broken
  datatype State = State(flow: Flow, env: Env, w: World)

  function BindValue(flow: Flow, x: Name, v: Value, env: Env, w: World): State
  {
    State(flow, env + [Binding(x, v)], w)
  }

  /** The statements without a body. */
  function StepSimple(p: Functions, stack: nat, s: Stmt, env: Env, w: World): Option<State>
    decreases stack, 1, s, 0
  {
    match s
    case Let(x, e) =>
      var r := Eval(p, stack, e, env, w);
      if r.None? then None else Some(BindValue(Normal, x, r.value.value, r.value.env, r.value.w))
    case LetTry(x, e) =>
      var r := Eval(p, stack, e, env, w);
      if r.None? then None
      else if r.value.value.Box? && r.value.value.kind == ResultOk && |r.value.value.items| == 1
      then Some(BindValue(Normal, x, r.value.value.items[0], r.value.env, r.value.w))
      else if r.value.value.Box? && r.value.value.kind == ResultError
      then Some(State(Returned(r.value.value), r.value.env, r.value.w))
      else None
    case LetInt(x, v) =>
      var n := EvalInt(v, env, w);
      if n.None? then None else Some(BindValue(Normal, x, Number(n.value), env, w))
    case Assign(x, v) =>
      var n := EvalInt(v, env, w);
      if n.None? || !Peek(env, x).Number? then None else Some(State(Normal, Store(env, x, Number(n.value)), w))
    case Push(x, y) => AddItem(env, x, y, w)
    case Insert(x, _, y) =>
      if Peek(env, x) == Box(MapOf, []) then AddItem(env, x, y, w) else None
    case Return(e) =>
      var r := Eval(p, stack, e, env, w);
      if r.None? then None else Some(State(Returned(r.value.value), r.value.env, r.value.w))
    case Continue => Some(State(Continued, env, w))
    case Break => Some(State(Broken, env, w))
    case _ => None
  }

  function AddItem(env: Env, x: Name, y: Name, w: World): Option<State>
  {
    var box, item := Peek(env, x), Peek(env, y);
    if !box.Box? || item == Gone then None
    else Some(State(Normal, Store(Store(env, y, Gone), x, Box(box.kind, box.items + [item])), w))
  }

  function Step(p: Functions, stack: nat, s: Stmt, env: Env, w: World): Option<State>
    decreases stack, 1, s, 1
  {
    match s
    case When(test, body) =>
      var b := EvalTest(test, env, w);
      if b.None? then None
      else if b.value then Leave(|env|, Exec(p, stack, body, env, w))
      else Some(State(Normal, env, w))
    case Scope(body) => Leave(|env|, Exec(p, stack, body, env, w))
    case While(x, limit, body) =>
      if !Peek(env, x).Number? then None
      else if Peek(env, x).n >= limit then Some(State(Normal, env, w))
      else Loop(p, stack, x, limit, body, limit - Peek(env, x).n, env, w)
    case _ => StepSimple(p, stack, s, env, w)
  }

  /** Leaving a scope drops what was bound since, whichever way it is left. */
  function Leave(base: nat, s: Option<State>): Option<State>
  {
    if s.None? || |s.value.env| < base then None
    else
      var w := DropAll(Values(s.value.env[base..]), s.value.w);
      if w.None? then None else Some(State(s.value.flow, s.value.env[..base], w.value))
  }

  function Exec(p: Functions, stack: nat, body: seq<Stmt>, env: Env, w: World): Option<State>
    decreases stack, 1, body, 0
  {
    if body == [] then Some(State(Normal, env, w)) else
      var first := Step(p, stack, body[0], env, w);
      if first.None? || first.value.flow != Normal then first
      else Exec(p, stack, body[1..], first.value.env, first.value.w)
  }

  /** A loop that counts `x` up to `limit` takes at most the missing number of turns. */
  function Loop(p: Functions, stack: nat, x: Name, limit: int, body: seq<Stmt>, turns: nat, env: Env, w: World): Option<State>
    decreases stack, 1, body, 1 + turns
  {
    if !Peek(env, x).Number? then None
    else if Peek(env, x).n >= limit then Some(State(Normal, env, w))
    else if turns == 0 then None
    else
      var turn := Leave(|env|, Exec(p, stack, body, env, w));
      if turn.None? then None
      else match turn.value.flow
        case Broken => Some(turn.value.(flow := Normal))
        case Returned(_) => turn
        case _ => Loop(p, stack, x, limit, body, turns - 1, turn.value.env, turn.value.w)
  }

  /** A function body ends in a return; its variables are dropped after its result is moved out. */
  function Invoke(p: Functions, stack: nat, body: seq<Stmt>, args: Env, w: World): Option<(Value, World)>
    decreases stack, 2
  {
    var s := Leave(0, Exec(p, stack, body, args, w));
    if s.None? || !s.value.flow.Returned? then None else Some((s.value.flow.value, s.value.w))
  }
}
