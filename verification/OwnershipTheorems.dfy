/**
  Growth stays within its bounds, so generation never fails; resource ids are consecutive;
  and the drop oracle of a generated case counts what its numbering says.
 */
module OwnershipTheorems {
  import opened Options
  import opened Words
  import opened Ownership
  import opened OwnershipLanguage
  import opened OwnershipProgram

  // ----- growth -----

  /** Leaves own a resource, containers hold something, and only vectors more than one thing. */
  ghost predicate WellFormed(n: Node)
    decreases n
  {
    && (n.kind == Owned <==> n.children == [])
    && (n.kind == Owned || n.kind == Vec || |n.children| == 1)
    && forall i :: 0 <= i < |n.children| ==> WellFormed(n.children[i])
  }

  lemma OneChild(kind: Kind, c: Node)
    ensures Nodes(Node(kind, [c])) == 1 + Nodes(c) && Depth(Node(kind, [c])) == 1 + Depth(c)
  {
    assert [c][1..] == [];
    assert NodesAll([c]) == Nodes(c) + NodesAll([]);
    assert DepthAll([c]) == Larger(Depth(c), DepthAll([]));
  }

  lemma TwoChildren(kind: Kind, c: Node)
    ensures Nodes(Node(kind, [c, c])) == 1 + 2 * Nodes(c) && Depth(Node(kind, [c, c])) == 1 + Depth(c)
  {
    assert [c, c][1..] == [c] && [c][1..] == [];
    assert NodesAll([c]) == Nodes(c) + NodesAll([]) && NodesAll([c, c]) == Nodes(c) + NodesAll([c]);
    assert DepthAll([c]) == Larger(Depth(c), DepthAll([])) && DepthAll([c, c]) == Larger(Depth(c), DepthAll([c]));
  }

  /**
    From a positive budget growth succeeds, spends exactly one budget unit per node, and stays
    within the depth and the size of a full binary tree.
   */
  lemma {:induction false} ShapeBounds(rng: nat, depth: nat, budget: int, forced: Option<Kind>)
    requires budget >= 1
    ensures ShapeOf(rng, depth, budget, forced).Some?
    ensures var g := ShapeOf(rng, depth, budget, forced).value;
            && g.budget >= 0 && budget - g.budget == Nodes(g.node)
            && Depth(g.node) <= depth && Nodes(g.node) < Pow2(depth + 1)
            && WellFormed(g.node)
            && (forced.Some? && depth > 0 && budget > 1 ==> g.node.kind == forced.value)
    decreases depth
  {
    hide Draw, NextState, Nodes, Depth;
    var left := budget - 1;
    var (kind, rng1) := KindOf(rng, depth, left, forced);
    if kind == Owned {
      LeafSize();
    } else {
      var pair := kind == Vec && left > 3;
      var rng2 := if pair then NextState(rng1) else rng1;
      ShapeBounds(rng2, depth - 1, left, None);
      var c := ShapeOf(rng2, depth - 1, left, None).value.node;
      OneChild(kind, c);
      TwoChildren(kind, c);
      assert Pow2(depth + 1) == 2 * Pow2(depth);
    }
  }

  lemma LeafSize()
    ensures Nodes(Node(Owned, [])) == 1 && Depth(Node(Owned, [])) == 0
  {
  }

  // ----- numbering -----

  function Range(from: nat, n: nat): (s: seq<nat>)
    ensures |s| == n && forall i :: 0 <= i < n ==> s[i] == from + i
  {
    seq(n, i requires 0 <= i < n => from + i)
  }

  /** The ids of a numbered tree are consecutive, hence distinct. */
  lemma {:induction false} LabelIds(n: Node, next: nat, rng: nat)
    requires WellFormed(n)
    ensures IdsOf(Label(n, next, rng)) == Range(next, Resources(n))
    decreases n, 1
  {
    hide Draw;
    if n.kind == Owned {
      assert ResourcesAll(n.children) == 0;
    } else {
      LabelAllIds(n.children, next, rng);
    }
  }

  lemma {:induction false} LabelAllIds(ns: seq<Node>, next: nat, rng: nat)
    requires forall i :: 0 <= i < |ns| ==> WellFormed(ns[i])
    ensures IdsOfAll(LabelAll(ns, next, rng)) == Range(next, ResourcesAll(ns))
    decreases ns, 0
  {
    hide *;
    if ns == [] {
      NoIds(next, rng);
    } else {
      var rest, drawn := next + Resources(ns[0]), DrawnBy(ns[0], rng);
      assert forall i :: 0 <= i < |ns[1..]| ==> ns[1..][i] == ns[i + 1];
      LabelIds(ns[0], next, rng);
      LabelAllIds(ns[1..], rest, drawn);
      LowerAllStep(ns, next, rng, 0);
      IdsFirst(Label(ns[0], next, rng), LabelAll(ns[1..], rest, drawn));
      RangeConcat(next, Resources(ns[0]), ResourcesAll(ns[1..]));
    }
  }

  lemma NoIds(next: nat, rng: nat)
    ensures IdsOfAll(LabelAll([], next, rng)) == Range(next, ResourcesAll([]))
  {
  }

  lemma IdsFirst(first: Labeled, rest: seq<Labeled>)
    ensures IdsOfAll([first] + rest) == IdsOf(first) + IdsOfAll(rest)
  {
    hide IdsOf;
    assert ([first] + rest)[1..] == rest;
  }

  lemma RangeConcat(from: nat, m: nat, n: nat)
    ensures Range(from, m) + Range(from + m, n) == Range(from, m + n)
  {
  }

  /** The emitter's view of a well-formed tree: positive ids, and how deep its functions call. */
  ghost predicate WellLabeled(l: Labeled, depth: nat)
    decreases l
  {
    && (l.kind == Owned ==> l.id > 0 && l.children == [])
    && (l.kind == Owned || l.kind == Vec || |l.children| == 1)
    && (l.children != [] ==> depth > 0 && forall i :: 0 <= i < |l.children| ==> WellLabeled(l.children[i], depth - 1))
  }

  lemma {:induction false} LabelShape(n: Node, next: nat, rng: nat, depth: nat)
    requires WellFormed(n) && next > 0 && Depth(n) <= depth
    ensures WellLabeled(Label(n, next, rng), depth)
    decreases n, 1
  {
    hide Draw, NextState;
    if n.kind != Owned {
      LabelAllShape(n.children, next, rng, depth - 1);
    }
  }

  lemma {:induction false} LabelAllShape(ns: seq<Node>, next: nat, rng: nat, depth: nat)
    requires next > 0 && DepthAll(ns) <= depth && forall i :: 0 <= i < |ns| ==> WellFormed(ns[i])
    ensures forall i :: 0 <= i < |ns| ==> WellLabeled(LabelAll(ns, next, rng)[i], depth)
    decreases ns, 0
  {
    hide Label, DrawnBy, Resources, WellLabeled, WellFormed, Depth;
    if ns != [] {
      LabelShape(ns[0], next, rng, depth);
      LabelAllShape(ns[1..], next + Resources(ns[0]), DrawnBy(ns[0], rng), depth);
    }
  }

  lemma {:induction false} ResourcesAtMostNodes(n: Node)
    ensures Resources(n) <= Nodes(n)
    decreases n, 1
  {
    ResourcesAllAtMostNodes(n.children);
  }

  lemma {:induction false} ResourcesAllAtMostNodes(ns: seq<Node>)
    ensures ResourcesAll(ns) <= NodesAll(ns)
    decreases ns, 0
  {
    if ns != [] {
      ResourcesAtMostNodes(ns[0]);
      ResourcesAllAtMostNodes(ns[1..]);
    }
  }

  // ----- a generated case -----

  datatype Case = Case(nodes: seq<Node>, built: seq<Labeled>, functions: Functions, tree: seq<nat>,
                       marker: nat, branchTrue: nat, branchFalse: nat, loopBase: nat, iterations: nat,
                       expected: multiset<nat>, resourceCount: nat)

  const MANDATORY: seq<Kind> := [Vec, MapOf, Rc, OptionOf]
  const PINNED := Node(Vec, [Node(ResultError, [Node(Owned, [])])])

  lemma PinnedSize()
    ensures Nodes(PINNED) == 3 && Depth(PINNED) == 2 && WellFormed(PINNED)
  {
    LeafSize();
    OneChild(ResultError, Node(Owned, []));
    OneChild(Vec, Node(ResultError, [Node(Owned, [])]));
  }

  /** The emitted functions of a case are those of its labeled trees. */
  ghost predicate Emitted(c: Case)
  {
    && |c.built| == 3 && c.tree == IdsOfAll(c.built)
    && c.functions == FunctionsOfAll(c.built, 1)[0 := CrossBody(c.built, c.marker)]
    && forall i :: 0 <= i < 3 ==> WellLabeled(c.built[i], MAX_DEPTH)
  }

  /** The numbering of a case that starts at `start`, and its oracle. */
  ghost predicate Numbered(c: Case, start: nat)
  {
    && c.tree == Range(start, |c.tree|)
    && c.marker == start + |c.tree| && c.branchTrue == c.marker + 1 && c.branchFalse == c.marker + 2
    && c.loopBase == c.marker + 3 && 2 <= c.iterations <= 4
    && c.expected == Oracle(c) && c.resourceCount == 3 * |c.tree| + 3 + c.iterations
    && c.loopBase + c.iterations < start + 100
  }

  /** Three runs over the trees and the marker, the two branches, and one drop per loop turn. */
  ghost function Oracle(c: Case): multiset<nat>
  {
    multiset(c.tree) + multiset(c.tree) + multiset(c.tree)
    + multiset{c.marker, c.marker, c.marker} + multiset{c.branchTrue, c.branchTrue} + multiset{c.branchFalse}
    + multiset(Range(c.loopBase, c.iterations))
  }

  lemma ThreeNodes(a: Node, b: Node, c: Node)
    ensures NodesAll([a, b, c]) == Nodes(a) + Nodes(b) + Nodes(c)
    ensures DepthAll([a, b, c]) == Larger(Depth(a), Larger(Depth(b), Depth(c)))
  {
    assert [a, b, c][1..] == [b, c] && [b, c][1..] == [c] && [c][1..] == [];
    assert NodesAll([c]) == Nodes(c) + NodesAll([]) && DepthAll([c]) == Larger(Depth(c), DepthAll([]));
    assert NodesAll([b, c]) == Nodes(b) + NodesAll([c]) && DepthAll([b, c]) == Larger(Depth(b), DepthAll([c]));
  }

  /** `Program.generate`: neither the budget error nor the bounds error can occur. */
  method Generate(program: Program, index: nat) returns (r: Option<Case>)
    requires program.budget == 18 && program.nextId > 0 && program.nextFunction == 0 && program.functions == map[]
    modifies program
    ensures r.Some? && Numbered(r.value, old(program.nextId)) && Emitted(r.value)
    ensures |r.value.nodes| == 3 && NodesAll(r.value.nodes) <= 21 && DepthAll(r.value.nodes) <= MAX_DEPTH
    ensures r.value.nodes[0].kind == MANDATORY[index % 4] && r.value.nodes[1].kind == MANDATORY[(index + 1) % 4]
  {
    hide *;
    var nodes := GrowTrees(program, index);
    var built, tree := NumberTrees(program, nodes);
    var c := FinishCase(program, nodes, built, tree);
    r := Some(c);
  }

  method NumberTrees(program: Program, nodes: seq<Node>) returns (built: seq<Labeled>, tree: seq<nat>)
    requires program.nextId > 0 && program.nextFunction == 0 && program.functions == map[]
    requires |nodes| == 3 && NodesAll(nodes) <= 21 && DepthAll(nodes) <= MAX_DEPTH
    requires forall i :: 0 <= i < 3 ==> WellFormed(nodes[i])
    modifies program
    ensures |built| == 3 && tree == IdsOfAll(built) == Range(old(program.nextId), |tree|) && |tree| <= 21
    ensures program.nextId == old(program.nextId) + |tree| && program.functions == FunctionsOfAll(built, 1)
    ensures forall i :: 0 <= i < 3 ==> WellLabeled(built[i], MAX_DEPTH)
  {
    hide Draw, FunctionsOfAll, LabelAll, IdsOfAll, WellLabeled, WellFormed, NodesAll, DepthAll, ResourcesAll, SizeAll, DrawnByAll;
    LabelAllIds(nodes, program.nextId, program.rng);
    LabelAllShape(nodes, program.nextId, program.rng, MAX_DEPTH);
    ResourcesAllAtMostNodes(nodes);
    built := program.LowerAll(nodes);
    tree := IdsOfAll(built);
    assert map[] + FunctionsOfAll(built, 1) == FunctionsOfAll(built, 1);
  }

  /** The ids after the trees, the loop count and the oracle. */
  method FinishCase(program: Program, nodes: seq<Node>, built: seq<Labeled>, tree: seq<nat>) returns (c: Case)
    requires |tree| <= program.nextId && |tree| <= 21
    requires |built| == 3 && tree == IdsOfAll(built) == Range(program.nextId - |tree|, |tree|)
    requires program.functions == FunctionsOfAll(built, 1)
    requires forall i :: 0 <= i < 3 ==> WellLabeled(built[i], MAX_DEPTH)
    modifies program
    ensures c.nodes == nodes && Numbered(c, old(program.nextId) - |tree|) && Emitted(c)
  {
    hide Draw, FunctionsOfAll, IdsOfAll, WellLabeled, CrossBody, Oracle;
    ghost var start := program.nextId - |tree|;
    var marker := program.OwnedId();
    program.functions := program.functions[0 := CrossBody(built, marker)];
    var branchTrue := program.OwnedId();
    var branchFalse := program.OwnedId();
    var loopBase := program.OwnedId();
    var extra := program.Take(3);
    var iterations := 2 + extra;
    program.nextId := program.nextId + iterations;
    var expected := CountDrops(tree, marker, branchTrue, branchFalse, loopBase, iterations);
    c := Case(nodes, built, program.functions, tree, marker, branchTrue, branchFalse, loopBase, iterations, expected,
              |tree| * 3 + 3 + iterations);
    OracleIs(c);
  }

  lemma OracleIs(c: Case)
    ensures Oracle(c) == multiset(c.tree) + multiset(c.tree) + multiset(c.tree)
                       + multiset{c.marker, c.marker, c.marker} + multiset{c.branchTrue, c.branchTrue}
                       + multiset{c.branchFalse} + multiset(Range(c.loopBase, c.iterations))
  {
  }

  /** The two grown trees and the pinned one, within the declared bounds. */
  method GrowTrees(program: Program, index: nat) returns (nodes: seq<Node>)
    requires program.budget == 18
    modifies program`rng, program`budget
    ensures |nodes| == 3 && NodesAll(nodes) <= 21 && DepthAll(nodes) <= MAX_DEPTH
    ensures forall i :: 0 <= i < 3 ==> WellFormed(nodes[i])
    ensures nodes[0].kind == MANDATORY[index % 4] && nodes[1].kind == MANDATORY[(index + 1) % 4]
  {
    hide ShapeOf, Nodes, Depth, WellFormed, NodesAll, DepthAll;
    ShapeBounds(program.rng, MAX_DEPTH, program.budget, Some(MANDATORY[index % 4]));
    PowersUsed();
    var a := program.Shape(MAX_DEPTH, Some(MANDATORY[index % 4]));
    ShapeBounds(program.rng, MAX_DEPTH, program.budget, Some(MANDATORY[(index + 1) % 4]));
    var b := program.Shape(MAX_DEPTH, Some(MANDATORY[(index + 1) % 4]));
    PinnedSize();
    nodes := [a.value, b.value, PINNED];
    ThreeNodes(a.value, b.value, PINNED);
    assert NodesAll(nodes) <= MAX_NODES && DepthAll(nodes) <= MAX_DEPTH;
  }

  lemma PowersUsed()
    ensures Pow2(MAX_DEPTH + 1) == 16
  {
  }

  /** `Counter.update` with one key. */
  function Add(m: multiset<nat>, id: nat, n: nat): multiset<nat>
  {
    m[id := m[id] + n]
  }

  lemma AddIsSum(m: multiset<nat>, id: nat)
    ensures Add(m, id, 1) == m + multiset{id}
    ensures Add(m, id, 2) == m + multiset{id, id}
    ensures Add(m, id, 3) == m + multiset{id, id, id}
  {
  }

  /** The `Counter` updates of the oracle. */
  method CountDrops(tree: seq<nat>, marker: nat, branchTrue: nat, branchFalse: nat, loopBase: nat, iterations: nat)
    returns (expected: multiset<nat>)
    ensures expected == multiset(tree) + multiset(tree) + multiset(tree)
                      + multiset{marker, marker, marker} + multiset{branchTrue, branchTrue} + multiset{branchFalse}
                      + multiset(Range(loopBase, iterations))
  {
    hide Add;
    expected := multiset(tree + tree + tree);
    assert expected == multiset(tree) + multiset(tree) + multiset(tree);
    AddIsSum(expected, marker);
    expected := Add(expected, marker, 3);
    AddIsSum(expected, branchTrue);
    expected := Add(expected, branchTrue, 2);
    AddIsSum(expected, branchFalse);
    expected := Add(expected, branchFalse, 1);
    expected := CountLoop(expected, loopBase, iterations);
  }

  method CountLoop(base: multiset<nat>, loopBase: nat, iterations: nat) returns (expected: multiset<nat>)
    ensures expected == base + multiset(Range(loopBase, iterations))
  {
    hide Add;
    expected := base;
    assert Range(loopBase, 0) == [];
    for i := 0 to iterations
      invariant expected == base + multiset(Range(loopBase, i))
    {
      AddIsSum(expected, loopBase + i);
      assert Range(loopBase, i + 1) == Range(loopBase, i) + [loopBase + i];
      expected := Add(expected, loopBase + i, 1);
    }
  }

  /** Cases of different index use disjoint ids. */
  lemma CasesDisjoint(a: Case, i: nat, b: Case, j: nat, x: nat)
    requires i < j && Numbered(a, 1000 + i * 100) && Numbered(b, 1000 + j * 100)
    ensures x !in a.expected || x !in b.expected
  {
    hide Numbered;
    if x in a.expected {
      OracleRange(a, 1000 + i * 100, x);
    }
    if x in b.expected {
      OracleRange(b, 1000 + j * 100, x);
    }
  }

  lemma OracleRange(c: Case, start: nat, x: nat)
    requires Numbered(c, start) && x in c.expected
    ensures start <= x < start + 100
  {
    if x in multiset(c.tree) {
      var i :| 0 <= i < |c.tree| && c.tree[i] == x;
    } else if x in multiset(Range(c.loopBase, c.iterations)) {
      var i :| 0 <= i < c.iterations && Range(c.loopBase, c.iterations)[i] == x;
    }
  }

  /** Printed drops exceed created resources by the three markers. */
  lemma OracleSize(c: Case, start: nat)
    requires Numbered(c, start)
    ensures |c.expected| == c.resourceCount + 3
  {
    var t, l := multiset(c.tree), multiset(Range(c.loopBase, c.iterations));
    var s := multiset{c.marker, c.marker, c.marker} + multiset{c.branchTrue, c.branchTrue} + multiset{c.branchFalse};
    assert |t| == |c.tree| && |l| == c.iterations && |s| == 6;
    assert c.expected == t + t + t + s + l;
  }
}
