/** The scalar autograd node of structures/Value.ts, as an arena: a graph is
    a sequence of nodes and a node is addressed by its index (a handle). Each
    node records its operation and its input handles instead of a backward
    closure; every input is an earlier node, which is how the source keeps
    the graph acyclic (an operation only consumes nodes that already exist). */
module Autograd {

  type Handle = nat

  /** The operation that produced a node; `Pow` carries its integer exponent. */
  datatype Op = Leaf | Add | Mul | Pow(exponent: int)

  datatype Node = Node(data: real, grad: real, op: Op, inputs: seq<Handle>)

  type Graph = seq<Node>

  /** The result of an operation: the grown graph and the new node's handle. */
  datatype Step = Step(graph: Graph, node: Handle)

  /** `x ** n` for an integer exponent; a negative exponent divides. */
  function Power(x: real, n: int): real
    requires n >= 0 || x != 0.0
    decreases if n >= 0 then n else -n
  {
    if n == 0 then 1.0
    else if n > 0 then x * Power(x, n - 1)
    else Power(x, n + 1) / x
  }

  /** One step of the exponent: `x ** n == x * x ** (n - 1)` for every integer
      exponent, negative ones included. */
  lemma {:induction false} PowerStep(x: real, n: int)
    requires x != 0.0
    ensures Power(x, n) == x * Power(x, n - 1)
    decreases if n >= 0 then n else -n
  {
    if n < 0 {
      assert Power(x, n) == Power(x, n + 1) / x;
      if n + 1 < 0 {
        PowerStep(x, n + 1);
      }
    } else if n == 0 {
      assert Power(x, -1) == 1.0 / x;
    }
  }

  /** `pow(-1)` is the reciprocal. */
  lemma PowerMinusOne(x: real)
    requires x != 0.0
    ensures Power(x, -1) == 1.0 / x
  {
  }

  /** The set of distinct inputs (the source's `_prev`, a `Set` built from
      the children list). */
  function Parents(n: Node): set<Handle>
  {
    set j | j in n.inputs
  }

  /** Node `i` consumes only earlier nodes, with the arity of its operation. */
  predicate WellFormedAt(g: Graph, i: nat)
    requires i < |g|
  {
    && (forall j :: 0 <= j < |g[i].inputs| ==> g[i].inputs[j] < i)
    && match g[i].op
       case Leaf => |g[i].inputs| == 0
       case Add => |g[i].inputs| == 2
       case Mul => |g[i].inputs| == 2
       case Pow(_) => |g[i].inputs| == 1
  }

  /** The graph is acyclic: every node only consumes earlier nodes. */
  predicate Acyclic(g: Graph)
  {
    forall i :: 0 <= i < |g| ==> WellFormedAt(g, i)
  }

  /** Node `i` is well formed and, if it is a power, its local rule is
      defined over the reals: the base is nonzero unless the exponent is at
      least 1 (`0 ** (n - 1)` is infinite for `n < 1`). */
  predicate NodeOk(g: Graph, i: nat)
    requires i < |g|
  {
    && WellFormedAt(g, i)
    && (g[i].op.Pow? ==> g[i].op.exponent >= 1 || g[g[i].inputs[0]].data != 0.0)
  }

  predicate Valid(g: Graph)
  {
    forall i :: 0 <= i < |g| ==> NodeOk(g, i)
  }

  /** `r` is `g` with only gradients possibly changed. */
  predicate SameShape(g: Graph, r: Graph)
  {
    |r| == |g| &&
    forall i :: 0 <= i < |g| ==>
      r[i].data == g[i].data && r[i].op == g[i].op && r[i].inputs == g[i].inputs
  }

  lemma SameShapeValid(g: Graph, r: Graph)
    requires Valid(g) && SameShape(g, r)
    ensures Valid(r)
  {
    assert forall i :: 0 <= i < |g| ==> NodeOk(g, i) == NodeOk(r, i);
  }

  /** A fresh node: gradient 0, no operation to undo (a no-op backward). */
  predicate Fresh(g: Graph, r: Step)
  {
    && |r.graph| == |g| + 1
    && r.graph[..|g|] == g
    && r.node == |g|
    && r.graph[r.node].grad == 0.0
  }

  /** `new Value(data)`: a leaf with no parents and gradient 0. */
  function NewValue(g: Graph, x: real): (r: Step)
    requires Valid(g)
    ensures Fresh(g, r) && Valid(r.graph)
    ensures r.graph[r.node].data == x && r.graph[r.node].op == Leaf
    ensures Parents(r.graph[r.node]) == {}
  {
    var r := Step(g + [Node(x, 0.0, Leaf, [])], |g|);
    assert forall i :: 0 <= i < |g| ==> NodeOk(g, i) == NodeOk(r.graph, i);
    r
  }

  /** `a.add(b)`: data is the sum, parents are the distinct operands. */
  function AddNodes(g: Graph, a: Handle, b: Handle): (r: Step)
    requires Valid(g) && a < |g| && b < |g|
    ensures Fresh(g, r) && Valid(r.graph)
    ensures r.graph[r.node].data == g[a].data + g[b].data
    ensures r.graph[r.node].op == Add && r.graph[r.node].inputs == [a, b]
    ensures Parents(r.graph[r.node]) == {a, b}
  {
    var r := Step(g + [Node(g[a].data + g[b].data, 0.0, Add, [a, b])], |g|);
    assert NodeOk(r.graph, |g|);
    assert forall i :: 0 <= i < |g| ==> NodeOk(g, i) == NodeOk(r.graph, i);
    r
  }

  /** `a.multiply(b)`: data is the product, parents are the distinct operands. */
  function MulNodes(g: Graph, a: Handle, b: Handle): (r: Step)
    requires Valid(g) && a < |g| && b < |g|
    ensures Fresh(g, r) && Valid(r.graph)
    ensures r.graph[r.node].data == g[a].data * g[b].data
    ensures r.graph[r.node].op == Mul && r.graph[r.node].inputs == [a, b]
    ensures Parents(r.graph[r.node]) == {a, b}
  {
    var r := Step(g + [Node(g[a].data * g[b].data, 0.0, Mul, [a, b])], |g|);
    assert NodeOk(r.graph, |g|);
    assert forall i :: 0 <= i < |g| ==> NodeOk(g, i) == NodeOk(r.graph, i);
    r
  }

  /** `a.pow(n)` for an integer exponent; the base must be nonzero when the
      local rule's `a ** (n - 1)` would divide by it. */
  function PowNode(g: Graph, a: Handle, n: int): (r: Step)
    requires Valid(g) && a < |g| && (n >= 1 || g[a].data != 0.0)
    ensures Fresh(g, r) && Valid(r.graph)
    ensures r.graph[r.node].data == Power(g[a].data, n)
    ensures r.graph[r.node].op == Pow(n) && r.graph[r.node].inputs == [a]
    ensures Parents(r.graph[r.node]) == {a}
  {
    var r := Step(g + [Node(Power(g[a].data, n), 0.0, Pow(n), [a])], |g|);
    assert NodeOk(r.graph, |g|);
    assert forall i :: 0 <= i < |g| ==> NodeOk(g, i) == NodeOk(r.graph, i);
    r
  }

  /** `a.negative()`: multiplication by a fresh leaf holding -1. */
  function Negative(g: Graph, a: Handle): (r: Step)
    requires Valid(g) && a < |g|
    ensures |r.graph| == |g| + 2 && r.graph[..|g|] == g && r.node == |g| + 1
    ensures Valid(r.graph) && r.graph[r.node].grad == 0.0
    ensures r.graph[r.node].data == -g[a].data
  {
    var m := NewValue(g, -1.0);
    MulNodes(m.graph, a, m.node)
  }

  /** `a.subtract(b)`: `a.add(b.negative())`. */
  function Subtract(g: Graph, a: Handle, b: Handle): (r: Step)
    requires Valid(g) && a < |g| && b < |g|
    ensures |r.graph| == |g| + 3 && r.graph[..|g|] == g && r.node == |g| + 2
    ensures Valid(r.graph) && r.graph[r.node].grad == 0.0
    ensures r.graph[r.node].data == g[a].data - g[b].data
  {
    var n := Negative(g, b);
    AddNodes(n.graph, a, n.node)
  }

  /** `a.divide(b)`: `a.multiply(b.pow(-1))`; `b` must be nonzero. */
  function Divide(g: Graph, a: Handle, b: Handle): (r: Step)
    requires Valid(g) && a < |g| && b < |g| && g[b].data != 0.0
    ensures |r.graph| == |g| + 2 && r.graph[..|g|] == g && r.node == |g| + 1
    ensures Valid(r.graph) && r.graph[r.node].grad == 0.0
    ensures r.graph[r.node].data == g[a].data / g[b].data
  {
    var p := PowNode(g, b, -1);
    PowerMinusOne(g[b].data);
    MulNodes(p.graph, a, p.node)
  }
}
