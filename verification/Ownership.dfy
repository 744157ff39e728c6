/**
  The generator of ownership test programs: random ownership trees under a node budget, the
  numbering of their resources, and the oracle of expected drops.
 */
module Ownership {
  import opened Options
  import opened Words

  const MAX_DEPTH := 3
  const MAX_NODES := 32
  const M64: nat := 0x1_0000_0000_0000_0000

  datatype Kind = Owned | Vec | OptionOf | ResultOk | ResultError | Rc | MapOf
  datatype Node = Node(kind: Kind, children: seq<Node>)

  // ----- SplitMix64 -----

  function NextState(state: nat): nat
  {
    (state + 0x9E3779B97F4A7C15) % M64
  }

  /** Two rounds of folding the high bits down and multiplying, and a last folding. */
  function Mix(a: nat): nat
  {
    var b := Xor(a, a / 0x4000_0000) * 0xBF58476D1CE4E5B9 % M64;
    var c := Xor(b, b / 0x800_0000) * 0x94D049BB133111EB % M64;
    Xor(c, c / 0x8000_0000)
  }

  /** `Random.take`: the value drawn after advancing the state. */
  function Draw(state: nat, bound: nat): (v: nat)
    requires bound > 0
    ensures v < bound
  {
    Mix(NextState(state)) % bound
  }

  // ----- statistics -----

  function Nodes(n: Node): (k: nat)
    ensures k >= 1
    decreases n, 1
  {
    1 + NodesAll(n.children)
  }

  function NodesAll(ns: seq<Node>): nat
    decreases ns, 0
  {
    if ns == [] then 0 else Nodes(ns[0]) + NodesAll(ns[1..])
  }

  /** Zero for a leaf, else one more than the deepest child. */
  function Depth(n: Node): nat
    decreases n, 1
  {
    if n.children == [] then 0 else 1 + DepthAll(n.children)
  }

  function DepthAll(ns: seq<Node>): nat
    decreases ns, 0
  {
    if ns == [] then 0 else Larger(Depth(ns[0]), DepthAll(ns[1..]))
  }

  function Larger(a: nat, b: nat): nat
  {
    if a < b then b else a
  }

  function Resources(n: Node): nat
    decreases n, 1
  {
    (if n.kind == Owned then 1 else 0) + ResourcesAll(n.children)
  }

  function ResourcesAll(ns: seq<Node>): nat
    decreases ns, 0
  {
    if ns == [] then 0 else Resources(ns[0]) + ResourcesAll(ns[1..])
  }

  // ----- growing a tree -----

  /** The tree, the generator state and the budget afterwards; None is the ValueError. */
  datatype Grown = Grown(node: Node, rng: nat, budget: int)

  const CHOICES: seq<Kind> := [Owned, Vec, OptionOf, ResultOk, ResultError, Rc, MapOf]

  /** The kind drawn for a node when `left` nodes remain in the budget. */
  function KindOf(rng: nat, depth: nat, left: int, forced: Option<Kind>): (Kind, nat)
  {
    var (kind, rng') :=
      if forced.Some? then (forced.value, rng)
      else if depth == 0 || left < 3 then (Owned, rng)
      else (CHOICES[Draw(rng, 7)], NextState(rng));
    (if depth == 0 || left < 1 then Owned else kind, rng')
  }

  function ShapeOf(rng: nat, depth: nat, budget: int, forced: Option<Kind>): Option<Grown>
    decreases depth
  {
    if budget < 1 then None
    else
      var left := budget - 1;
      var (kind, rng1) := KindOf(rng, depth, left, forced);
      if kind == Owned then Some(Grown(Node(Owned, []), rng1, left))
      else
        var pair := kind == Vec && left > 3;
        var count, rng2 := if pair then 1 + Draw(rng1, 2) else 1, if pair then NextState(rng1) else rng1;
        assert depth > 0;
        var child := ShapeOf(rng2, depth - 1, left, None);
        if child.None? then None
        else
          var Grown(node, rng3, rest) := child.value;
          if count == 2 && rest >= Nodes(node)
          then Some(Grown(Node(kind, [node, node]), rng3, rest - Nodes(node)))
          else Some(Grown(Node(kind, [node]), rng3, rest))
  }

  // ----- numbering resources -----

  /** A tree whose owned leaves carry their resource id and whose maps carry the key drawn for them. */
  datatype Labeled = Labeled(kind: Kind, id: nat, key: nat, children: seq<Labeled>)

  /** The generator state after lowering: every map draws a key once its children are done. */
  function DrawnBy(n: Node, rng: nat): nat
    decreases n, 1
  {
    if n.kind == MapOf then NextState(DrawnByAll(n.children, rng)) else DrawnByAll(n.children, rng)
  }

  function DrawnByAll(ns: seq<Node>, rng: nat): nat
    decreases ns, 0
  {
    if ns == [] then rng else DrawnByAll(ns[1..], DrawnBy(ns[0], rng))
  }

  /** `lower` numbers the owned nodes from `next` in the order it meets them. */
  function Label(n: Node, next: nat, rng: nat): (l: Labeled)
    decreases n, 1
  {
    Labeled(n.kind,
            if n.kind == Owned then next + ResourcesAll(n.children) else 0,
            if n.kind == MapOf then 1 + Draw(DrawnByAll(n.children, rng), 100) else 0,
            LabelAll(n.children, next, rng))
  }

  function LabelAll(ns: seq<Node>, next: nat, rng: nat): (ls: seq<Labeled>)
    ensures |ls| == |ns|
    decreases ns, 0
  {
    if ns == [] then []
    else [Label(ns[0], next, rng)] + LabelAll(ns[1..], next + Resources(ns[0]), DrawnBy(ns[0], rng))
  }

  /** `resource_ids`: the ids a tree owns, read from the labels alone. */
  function IdsOf(l: Labeled): seq<nat>
    decreases l, 1
  {
    if l.kind == Owned then [l.id] else IdsOfAll(l.children)
  }

  function IdsOfAll(ls: seq<Labeled>): seq<nat>
    decreases ls, 0
  {
    if ls == [] then [] else IdsOf(ls[0]) + IdsOfAll(ls[1..])
  }
}
