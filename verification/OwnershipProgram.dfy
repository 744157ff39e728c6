/**
  The emitted program: a constructor function for every node of the ownership trees, a
  function that returns the envelope holding them, and the function that exercises it.
  Functions are named by number: 0 is `cross_function_return` and s + 1 is `construct_s`.
 */
module OwnershipProgram {
  import opened Options
  import opened Words
  import opened Ownership
  import opened OwnershipLanguage

  // ----- emitted statements -----

  /** The functions of a tree: one for each node, numbered in preorder. */
  function Size(l: Labeled): (n: nat)
    ensures n > 0
    decreases l, 1
  {
    1 + SizeAll(l.children)
  }

  function SizeAll(ls: seq<Labeled>): nat
    decreases ls, 0
  {
    if ls == [] then 0 else Size(ls[0]) + SizeAll(ls[1..])
  }

  /** Binds part `i` and the following to what the functions from `f` on construct. */
  function Constructs(ls: seq<Labeled>, i: nat, f: nat): seq<Stmt>
  {
    if ls == [] then [] else [LetTry(Part(i), Call(f))] + Constructs(ls[1..], i + 1, f + Size(ls[0]))
  }

  function Pushes(i: nat, n: nat): seq<Stmt>
    requires i <= n
    decreases n - i
  {
    if i == n then [] else [Push(Whole, Part(i))] + Pushes(i + 1, n)
  }

  const ALIAS_SCOPE := Scope([Let(Alias, CloneRc(Whole)), When(CountDiffers(Alias, 2), [Return(ErrorWith(Whole, 91))])])
  const RETURN_OUTCOME := [Return(Wrap(ResultOk, Outcome))]

  /** From the bound children to the result. */
  function Assemble(l: Labeled): seq<Stmt>
  {
    match l.kind
    case Owned => [LetTry(Outcome, MakeOwned(Constant(l.id)))]
    case Vec => [Let(Whole, Empty(Vec))] + Pushes(0, |l.children|) + [Let(Outcome, Move(Whole))]
    case Rc => [Let(Whole, NewRc(Part(0))), ALIAS_SCOPE, Let(Outcome, Move(Whole))]
    case MapOf => [Let(Whole, Empty(MapOf)), Insert(Whole, l.key, Part(0)), Let(Outcome, Move(Whole))]
    case _ => [Let(Outcome, Wrap(l.kind, Part(0)))]
  }

  function ConstructBody(l: Labeled, f: nat): seq<Stmt>
  {
    Constructs(l.children, 0, f + 1) + Assemble(l) + RETURN_OUTCOME
  }

  /** All constructor functions of a tree whose own function is `f`. */
  function FunctionsOf(l: Labeled, f: nat): Functions
    decreases l, 1
  {
    FunctionsOfAll(l.children, f + 1)[f := ConstructBody(l, f)]
  }

  function FunctionsOfAll(ls: seq<Labeled>, f: nat): Functions
    decreases ls, 0
  {
    if ls == [] then map[] else FunctionsOf(ls[0], f) + FunctionsOfAll(ls[1..], f + Size(ls[0]))
  }

  function CrossBody(ls: seq<Labeled>, marker: nat): seq<Stmt>
  {
    Constructs(ls, 0, 1) + [Let(Outcome, Struct(marker, |ls|))] + RETURN_OUTCOME
  }

  function LoopBody(loopBase: nat, iterations: nat): seq<Stmt>
  {
    [LetTry(Current, MakeOwned(Plus(Local(Index), loopBase))),
     Assign(Index, Plus(Local(Index), 1)),
     When(Same(Local(Index), Constant(1)), [Continue]),
     When(Differ(Probe(Current), Plus(Local(Index), loopBase - 1)), [Return(WrapInt(ResultError, Constant(92)))]),
     When(Same(Local(Index), Constant(iterations)), [Break])]
  }

  function ExerciseBody(branchTrue: nat, branchFalse: nat, loopBase: nat, iterations: nat): seq<Stmt>
  {
    [LetTry(Envelope, Call(0)),
     LetTry(Selected, IfElse(Truth(Flag), MakeOwned(Constant(branchTrue)), MakeOwned(Constant(branchFalse)))),
     Let(Gate, IfElse(Truth(Fail), WrapInt(ResultError, Constant(9)), WrapInt(ResultOk, Constant(1)))),
     LetTry(Payload, Move(Gate)),
     When(Truth(Early), [Return(WrapInt(ResultOk, Probe(Selected)))]),
     LetInt(Index, Constant(0)),
     While(Index, iterations + 2, LoopBody(loopBase, iterations)),
     Return(WrapInt(ResultOk, Local(Index)))]
  }

  // ----- the generator object -----

  class Program {
    var rng: nat
    var budget: int
    var nextId: nat
    var nextFunction: nat
    var functions: Functions

    constructor (seed: nat, index: nat)
      ensures nextId == 1000 + index * 100 && rng == Xor(seed, index * 0xD1342543DE82EF95) % M64 && budget == 18
      ensures nextFunction == 0 && functions == map[]
    {
      rng := Xor(seed, index * 0xD1342543DE82EF95) % M64;
      budget := 18;
      nextId := 1000 + index * 100;
      nextFunction, functions := 0, map[];
    }

    method Take(bound: nat) returns (v: nat)
      requires bound > 0
      modifies this`rng
      ensures v == Draw(old(rng), bound) && rng == NextState(old(rng))
    {
      v := Draw(rng, bound);
      rng := NextState(rng);
    }

    method Shape(depth: nat, forced: Option<Kind>) returns (node: Option<Node>)
      modifies this`rng, this`budget
      ensures match ShapeOf(old(rng), depth, old(budget), forced)
              case None => node.None?
              case Some(g) => node == Some(g.node) && rng == g.rng && budget == g.budget
      decreases depth
    {
      hide Draw, NextState, Nodes;
      if budget < 1 {
        return None;
      }
      budget := budget - 1;
      var kind := if forced.Some? then forced.value else Owned;
      if forced.None? && !(depth == 0 || budget < 3) {
        var i := Take(7);
        kind := CHOICES[i];
      }
      if depth == 0 || budget < 1 {
        kind := Owned;
      }
      assert (kind, rng) == KindOf(old(rng), depth, budget, forced);
      hide KindOf;
      if kind == Owned {
        return Some(Node(Owned, []));
      }
      var count := 1;
      if kind == Vec && budget > 3 {
        var extra := Take(2);
        count := 1 + extra;
      }
      var child := Shape(depth - 1, None);
      if child.None? {
        return None;
      }
      var children := [child.value];
      var duplicateCost := Nodes(child.value);
      if count == 2 && budget >= duplicateCost {
        budget := budget - duplicateCost;
        children := children + [child.value];
        assert children == [child.value, child.value];
      }
      node := Some(Node(kind, children));
    }

    method OwnedId() returns (id: nat)
      modifies this`nextId
      ensures id == old(nextId) && nextId == old(nextId) + 1
    {
      id := nextId;
      nextId := nextId + 1;
    }

    /** Emits the constructor functions of a tree; `name` is the number of its own. */
    method Lower(node: Node) returns (l: Labeled, name: nat)
      modifies this`nextId, this`rng, this`nextFunction, this`functions
      ensures l == Label(node, old(nextId), old(rng)) && name == old(nextFunction) + 1
      ensures nextId == old(nextId) + Resources(node) && rng == DrawnBy(node, old(rng))
      ensures nextFunction == old(nextFunction) + Size(l) && functions == old(functions) + FunctionsOf(l, name)
      decreases node, 1
    {
      hide *;
      LowerStep(node, nextId, rng, nextFunction + 1);
      name := nextFunction + 1;
      nextFunction := nextFunction + 1;
      var children := LowerAll(node.children);
      var id, key := 0, 0;
      if node.kind == Owned {
        id := OwnedId();
      } else if node.kind == MapOf {
        var drawn := Take(100);
        key := 1 + drawn;
      }
      l := Labeled(node.kind, id, key, children);
      functions := functions[name := ConstructBody(l, name)];
    }

    method LowerAll(ns: seq<Node>) returns (ls: seq<Labeled>)
      modifies this`nextId, this`rng, this`nextFunction, this`functions
      ensures ls == LabelAll(ns, old(nextId), old(rng))
      ensures nextId == old(nextId) + ResourcesAll(ns) && rng == DrawnByAll(ns, old(rng))
      ensures nextFunction == old(nextFunction) + SizeAll(ls)
      ensures functions == old(functions) + FunctionsOfAll(ls, old(nextFunction) + 1)
      decreases ns, 0
    {
      hide *;
      LowerAllStep(ns, nextId, rng, nextFunction + 1);
      if ns == [] {
        ls := [];
        assert functions == old(functions) + map[];
        return;
      }
      var first, name := Lower(ns[0]);
      var rest := LowerAll(ns[1..]);
      ls := [first] + rest;
      assert ls[1..] == rest;
    }
  }

  /** What `Lower` adds to its children's part. */
  lemma LowerStep(n: Node, next: nat, rng: nat, f: nat)
    ensures var l, ls := Label(n, next, rng), LabelAll(n.children, next, rng);
            && l == Labeled(n.kind, if n.kind == Owned then next + ResourcesAll(n.children) else 0,
                            if n.kind == MapOf then 1 + Draw(DrawnByAll(n.children, rng), 100) else 0, ls)
            && Size(l) == 1 + SizeAll(ls) && FunctionsOf(l, f) == FunctionsOfAll(ls, f + 1)[f := ConstructBody(l, f)]
    ensures Resources(n) == ResourcesAll(n.children) + if n.kind == Owned then 1 else 0
    ensures DrawnBy(n, rng) == if n.kind == MapOf then NextState(DrawnByAll(n.children, rng)) else DrawnByAll(n.children, rng)
  {
    hide Draw, NextState, ConstructBody;
  }

  lemma LowerAllStep(ns: seq<Node>, next: nat, rng: nat, f: nat)
    ensures ns == [] ==> LabelAll(ns, next, rng) == [] && ResourcesAll(ns) == 0 && DrawnByAll(ns, rng) == rng
    ensures SizeAll([]) == 0 && FunctionsOfAll([], f) == map[]
    ensures ns != [] ==>
      var first, rest := Label(ns[0], next, rng), LabelAll(ns[1..], next + Resources(ns[0]), DrawnBy(ns[0], rng));
      && LabelAll(ns, next, rng) == [first] + rest
      && ResourcesAll(ns) == Resources(ns[0]) + ResourcesAll(ns[1..])
      && DrawnByAll(ns, rng) == DrawnByAll(ns[1..], DrawnBy(ns[0], rng))
      && SizeAll([first] + rest) == Size(first) + SizeAll(rest)
      && FunctionsOfAll([first] + rest, f) == FunctionsOf(first, f) + FunctionsOfAll(rest, f + Size(first))
  {
    if ns != [] {
      LowerFirst(Label(ns[0], next, rng), LabelAll(ns[1..], next + Resources(ns[0]), DrawnBy(ns[0], rng)), f);
    }
  }

  lemma LowerFirst(first: Labeled, rest: seq<Labeled>, f: nat)
    ensures SizeAll([first] + rest) == Size(first) + SizeAll(rest)
    ensures FunctionsOfAll([first] + rest, f) == FunctionsOf(first, f) + FunctionsOfAll(rest, f + Size(first))
  {
    hide FunctionsOf, Size;
    assert ([first] + rest)[1..] == rest;
  }
}
