/** `Value.backward` (structures/Value.ts): a depth-first post-order
    topological sort from the root with a visited set, then the root's
    gradient is seeded with 1 and every listed node's local rule runs once,
    in reverse order. */
module Backprop {
  import opened Autograd

  lemma ValidAcyclic(g: Graph)
    requires Valid(g)
    ensures Acyclic(g)
  {
    assert forall i :: 0 <= i < |g| ==> NodeOk(g, i) ==> WellFormedAt(g, i);
  }

  /** The input list of node `v`; every entry precedes `v`. */
  function InputsOf(g: Graph, v: Handle): (cs: seq<Handle>)
    requires Acyclic(g) && v < |g|
    ensures cs == g[v].inputs
    ensures forall k :: 0 <= k < |cs| ==> cs[k] < v
  {
    assert WellFormedAt(g, v);
    g[v].inputs
  }

  /** The nodes reachable from `v` through inputs, `v` included. */
  ghost function Reach(g: Graph, v: Handle): set<Handle>
    requires Acyclic(g) && v < |g|
    decreases v, 1
  {
    {v} + ReachAll(g, InputsOf(g, v), v)
  }

  /** The nodes reachable from any of `cs`, all of which precede `bound`. */
  ghost function ReachAll(g: Graph, cs: seq<Handle>, bound: Handle): set<Handle>
    requires Acyclic(g) && bound <= |g|
    requires forall k :: 0 <= k < |cs| ==> cs[k] < bound
    decreases bound, 0, |cs|
  {
    if |cs| == 0 then {} else Reach(g, cs[0]) + ReachAll(g, cs[1..], bound)
  }

  /** The DFS state: the visited set and the post-order list built so far. */
  datatype Walk = Walk(visited: set<Handle>, topo: seq<Handle>)

  /** `build_topo(v)`: an unvisited node is marked, its inputs are visited in
      order, then it is appended. A node's inputs are iterated as a list; a
      repeated input (`a.add(a)`) is skipped by the visited check, exactly as
      the source's `Set` of parents would skip it. */
  function Visit(g: Graph, v: Handle, w: Walk): Walk
    requires Acyclic(g) && v < |g|
    decreases v, 1
  {
    if v in w.visited then w
    else
      var w1 := VisitInputs(g, v, 0, Walk(w.visited + {v}, w.topo));
      Walk(w1.visited, w1.topo + [v])
  }

  /** The loop `for (const child of v._prev) build_topo(child)` from input `i` on. */
  function VisitInputs(g: Graph, v: Handle, i: nat, w: Walk): Walk
    requires Acyclic(g) && v < |g| && i <= |g[v].inputs|
    decreases v, 0, |g[v].inputs| - i
  {
    if i == |g[v].inputs| then w
    else VisitInputs(g, v, i + 1, Visit(g, InputsOf(g, v)[i], w))
  }

  /** The topological list `backward` builds from `root`. */
  function Topo(g: Graph, root: Handle): seq<Handle>
    requires Acyclic(g) && root < |g|
  {
    Visit(g, root, Walk({}, [])).topo
  }

  /** The handles a list holds. */
  function Elems(s: seq<Handle>): set<Handle>
  {
    set x | x in s
  }

  lemma ElemsAppend(s: seq<Handle>, v: Handle)
    ensures Elems(s + [v]) == Elems(s) + {v}
  {
    assert forall x :: x in s + [v] <==> x in s || x == v;
  }

  predicate NoDuplicates(s: seq<Handle>)
  {
    forall i, j :: 0 <= i < j < |s| ==> s[i] != s[j]
  }

  /** Every listed node's inputs are listed before it. */
  predicate InputsFirst(g: Graph, topo: seq<Handle>)
    requires forall i :: 0 <= i < |topo| ==> topo[i] < |g|
  {
    forall i, j :: 0 <= i < |topo| && 0 <= j < |g[topo[i]].inputs| ==>
      g[topo[i]].inputs[j] in topo[..i]
  }

  /** The DFS invariant: handles are valid, the list has no repeats, is in
      dependency order, and only holds visited nodes. */
  predicate WalkOk(g: Graph, w: Walk)
  {
    && (forall x :: x in w.visited ==> x < |g|)
    && (forall i :: 0 <= i < |w.topo| ==> w.topo[i] in w.visited)
    && NoDuplicates(w.topo)
    && InputsFirst(g, w.topo)
  }

  /** Nodes visited but not yet listed: those whose visit is in progress. */
  function Open(w: Walk): set<Handle>
  {
    w.visited - Elems(w.topo)
  }

  /** `r` continues the walk `w`: the invariant holds, the list only grew at
      its end, by exactly the nodes `added` (up to repeats already listed),
      and the set of open visits is as it was. */
  predicate Grows(g: Graph, w: Walk, r: Walk, added: set<Handle>)
  {
    && WalkOk(g, r)
    && |w.topo| <= |r.topo| && r.topo[..|w.topo|] == w.topo
    && Elems(r.topo) == Elems(w.topo) + added
    && Open(r) == Open(w)
  }

  lemma GrowsTrans(g: Graph, w: Walk, w1: Walk, r: Walk, a: set<Handle>, b: set<Handle>)
    requires Grows(g, w, w1, a) && Grows(g, w1, r, b)
    ensures Grows(g, w, r, a + b)
  {
    assert r.topo[..|w.topo|] == r.topo[..|w1.topo|][..|w.topo|];
  }

  /** A listed node's whole reachable set is listed. */
  lemma {:induction false} ListedClosed(g: Graph, w: Walk, v: Handle)
    requires Acyclic(g) && WalkOk(g, w) && v in w.topo
    ensures Reach(g, v) <= Elems(w.topo)
    decreases v, 1
  {
    var i :| 0 <= i < |w.topo| && w.topo[i] == v;
    var cs := InputsOf(g, v);
    assert forall k :: 0 <= k < |cs| ==> cs[k] in w.topo[..i];
    ListedClosedAll(g, w, cs, v);
  }

  lemma {:induction false} ListedClosedAll(g: Graph, w: Walk, cs: seq<Handle>, bound: Handle)
    requires Acyclic(g) && WalkOk(g, w) && bound <= |g|
    requires forall k :: 0 <= k < |cs| ==> cs[k] < bound && cs[k] in w.topo
    ensures ReachAll(g, cs, bound) <= Elems(w.topo)
    decreases bound, 0, |cs|
  {
    if |cs| > 0 {
      ListedClosed(g, w, cs[0]);
      ListedClosedAll(g, w, cs[1..], bound);
    }
  }

  /** Listing a visited, unlisted node whose inputs are all listed keeps the
      DFS invariant and closes that node's visit. */
  lemma AppendKeepsWalkOk(g: Graph, w: Walk, v: Handle)
    requires Acyclic(g) && WalkOk(g, w) && v < |g| && v in Open(w)
    requires forall k :: 0 <= k < |g[v].inputs| ==> g[v].inputs[k] in w.topo
    ensures var r := Walk(w.visited, w.topo + [v]);
            && WalkOk(g, r)
            && r.topo[..|w.topo|] == w.topo
            && Elems(r.topo) == Elems(w.topo) + {v}
            && Open(r) == Open(w) - {v}
  {
    var r := Walk(w.visited, w.topo + [v]);
    assert r.topo[..|w.topo|] == w.topo;
    assert v !in w.topo;
    assert InputsFirst(g, r.topo) by {
      forall i, j | 0 <= i < |r.topo| && 0 <= j < |g[r.topo[i]].inputs|
        ensures g[r.topo[i]].inputs[j] in r.topo[..i]
      {
        if i < |w.topo| {
          assert r.topo[..i] == w.topo[..i];
        } else {
          assert r.topo[..i] == w.topo;
        }
      }
    }
    ElemsAppend(w.topo, v);
  }

  /** Visiting `v` while every open node lies above `v` keeps the invariant,
      extends the list with exactly the nodes reachable from `v` that were
      not yet listed, leaves the open set as it was, and lists `v` last when
      it was unvisited. */
  lemma {:induction false} VisitSpec(g: Graph, v: Handle, w: Walk)
    requires Acyclic(g) && v < |g| && WalkOk(g, w)
    requires forall x :: x in Open(w) ==> x > v
    ensures var r := Visit(g, v, w);
            Grows(g, w, r, Reach(g, v)) && (v !in w.visited ==> r.topo[|r.topo| - 1] == v)
    decreases v, 2
  {
    if v in w.visited {
      assert v !in Open(w);
      ListedClosed(g, w, v);
    } else {
      VisitFresh(g, v, w);
    }
  }

  /** The visit of an unvisited node: mark it, visit its inputs, list it. */
  lemma {:induction false} VisitFresh(g: Graph, v: Handle, w: Walk)
    requires Acyclic(g) && v < |g| && WalkOk(g, w) && v !in w.visited
    requires forall x :: x in Open(w) ==> x > v
    ensures var r := Visit(g, v, w);
            Grows(g, w, r, Reach(g, v)) && r.topo[|r.topo| - 1] == v
    decreases v, 1
  {
    var cs := InputsOf(g, v);
    var w0 := Walk(w.visited + {v}, w.topo);
    assert WalkOk(g, w0);
    assert Open(w0) == Open(w) + {v};
    VisitInputsSpec(g, v, 0, w0);
    var w1 := VisitInputs(g, v, 0, w0);
    assert cs[0..] == cs;
    CloseVisit(g, v, w, w1);
    assert Visit(g, v, w) == Walk(w1.visited, w1.topo + [v]);
  }

  /** Listing `v` after its inputs' visits closes the visit of `v`: the walk
      has grown by everything reachable from `v`. */
  lemma CloseVisit(g: Graph, v: Handle, w: Walk, w1: Walk)
    requires Acyclic(g) && v < |g| && v !in w.visited && v !in w.topo
    requires Grows(g, Walk(w.visited + {v}, w.topo), w1, ReachAll(g, InputsOf(g, v), v))
    requires forall k :: 0 <= k < |g[v].inputs| ==> g[v].inputs[k] in w1.topo
    ensures Grows(g, w, Walk(w1.visited, w1.topo + [v]), Reach(g, v))
  {
    var r := Walk(w1.visited, w1.topo + [v]);
    AppendKeepsWalkOk(g, w1, v);
    PrefixOfAppend(w1.topo, v, |w.topo|);
    CloseVisitSets(g, v, w, w1);
  }

  /** The set bookkeeping of `CloseVisit`. */
  lemma CloseVisitSets(g: Graph, v: Handle, w: Walk, w1: Walk)
    requires Acyclic(g) && v < |g| && v !in w.visited && v !in w.topo
    requires Elems(w1.topo) == Elems(w.topo) + ReachAll(g, InputsOf(g, v), v)
    requires Open(w1) == Open(Walk(w.visited + {v}, w.topo))
    ensures Elems(w1.topo + [v]) == Elems(w.topo) + Reach(g, v)
    ensures Open(w1) - {v} == Open(w)
  {
    assert Open(w1) == Open(w) + {v};
    assert v !in Open(w);
    AddRemove(Open(w), v);
    ElemsAppend(w1.topo, v);
    assert Reach(g, v) == {v} + ReachAll(g, InputsOf(g, v), v);
  }

  lemma PrefixOfAppend(s: seq<Handle>, x: Handle, n: nat)
    requires n <= |s|
    ensures (s + [x])[..n] == s[..n]
  {
  }

  lemma AddRemove(s: set<Handle>, x: Handle)
    requires x !in s
    ensures (s + {x}) - {x} == s
  {
  }

  /** Visiting the inputs of open node `v` from the `i`-th on: the same
      guarantees as `VisitSpec`, for everything reachable from those inputs,
      and afterwards every input of `v` is listed. */
  lemma {:induction false} VisitInputsSpec(g: Graph, v: Handle, i: nat, w: Walk)
    requires Acyclic(g) && v < |g| && i <= |g[v].inputs| && WalkOk(g, w)
    requires v in Open(w)
    requires forall x :: x in Open(w) ==> x >= v
    requires forall k :: 0 <= k < i ==> g[v].inputs[k] in w.topo
    ensures var r := VisitInputs(g, v, i, w);
            && Grows(g, w, r, ReachAll(g, InputsOf(g, v)[i..], v))
            && (forall k :: 0 <= k < |g[v].inputs| ==> g[v].inputs[k] in r.topo)
    decreases v, 0, |g[v].inputs| - i, 1
  {
    var cs := InputsOf(g, v);
    if i == |cs| {
      assert cs[i..] == [];
    } else {
      VisitInputsStep(g, v, i, w);
    }
  }

  lemma {:induction false} VisitInputsStep(g: Graph, v: Handle, i: nat, w: Walk)
    requires Acyclic(g) && v < |g| && i < |g[v].inputs| && WalkOk(g, w)
    requires v in Open(w)
    requires forall x :: x in Open(w) ==> x >= v
    requires forall k :: 0 <= k < i ==> g[v].inputs[k] in w.topo
    ensures var r := VisitInputs(g, v, i, w);
            && Grows(g, w, r, ReachAll(g, InputsOf(g, v)[i..], v))
            && (forall k :: 0 <= k < |g[v].inputs| ==> g[v].inputs[k] in r.topo)
    decreases v, 0, |g[v].inputs| - i, 0
  {
    var cs := InputsOf(g, v);
    var c := cs[i];
    VisitSpec(g, c, w);
    var w1 := Visit(g, c, w);
    assert c in Elems(w1.topo) by {
      assert c in Reach(g, c);
    }
    PrefixKeepsMembers(w.topo, w1.topo);
    VisitInputsSpec(g, v, i + 1, w1);
    var r := VisitInputs(g, v, i + 1, w1);
    assert r == VisitInputs(g, v, i, w);
    GrowsTrans(g, w, w1, r, Reach(g, c), ReachAll(g, cs[i + 1..], v));
    ReachAllSuffix(g, v, i);
  }

  lemma ReachAllSuffix(g: Graph, v: Handle, i: nat)
    requires Acyclic(g) && v < |g| && i < |g[v].inputs|
    ensures var cs := InputsOf(g, v);
            ReachAll(g, cs[i..], v) == Reach(g, cs[i]) + ReachAll(g, cs[i + 1..], v)
  {
    var cs := InputsOf(g, v);
    assert cs[i..][1..] == cs[i + 1..];
  }

  lemma PrefixKeepsMembers(s: seq<Handle>, t: seq<Handle>)
    requires |s| <= |t| && t[..|s|] == s
    ensures forall x :: x in s ==> x in t
  {
    forall x | x in s
      ensures x in t
    {
      var m :| 0 <= m < |s| && s[m] == x;
      assert t[m] == x;
    }
  }

  /** The list `backward` builds holds every node reachable from the root
      exactly once, each after all of its inputs, with the root last. */
  lemma TopoOrder(g: Graph, root: Handle)
    requires Acyclic(g) && root < |g|
    ensures var topo := Topo(g, root);
            && NoDuplicates(topo)
            && Elems(topo) == Reach(g, root)
            && (forall i :: 0 <= i < |topo| ==> topo[i] < |g|)
            && InputsFirst(g, topo)
            && |topo| > 0 && topo[|topo| - 1] == root
  {
    var w := Walk({}, []);
    assert Open(w) == {};
    VisitSpec(g, root, w);
  }

  /** The partial derivative of node `h` with respect to its `k`-th input,
      at the current data: 1 for a sum, the other factor for a product, and
      `n * a ** (n - 1)` for a power. */
  function Partial(g: Graph, h: Handle, k: nat): real
    requires Valid(g) && h < |g| && k < |g[h].inputs|
  {
    assert NodeOk(g, h);
    var ins := g[h].inputs;
    match g[h].op
    case Leaf => 0.0
    case Add => 1.0
    case Mul => if k == 0 then g[ins[1]].data else g[ins[0]].data
    case Pow(n) => (n as real) * Power(g[ins[0]].data, n - 1)
  }

  /** What the chain rule adds to node `x` from node `h`: the node's gradient
      times the partial derivative, once per input position `x` occupies. */
  function Contribution(g: Graph, h: Handle, x: Handle): real
    requires Valid(g) && h < |g|
  {
    ContributionFrom(g, h, x, 0)
  }

  function ContributionFrom(g: Graph, h: Handle, x: Handle, k: nat): real
    requires Valid(g) && h < |g| && k <= |g[h].inputs|
    decreases |g[h].inputs| - k
  {
    if k == |g[h].inputs| then 0.0
    else (if g[h].inputs[k] == x then Partial(g, h, k) * g[h].grad else 0.0)
         + ContributionFrom(g, h, x, k + 1)
  }

  /** The contribution of a node of arity one or two, term by term. */
  lemma ContributionUnfold(g: Graph, h: Handle)
    requires Valid(g) && h < |g|
    ensures |g[h].inputs| == 1 ==>
              forall x :: Contribution(g, h, x) ==
                (if g[h].inputs[0] == x then Partial(g, h, 0) * g[h].grad else 0.0)
    ensures |g[h].inputs| == 2 ==>
              forall x :: Contribution(g, h, x) ==
                (if g[h].inputs[0] == x then Partial(g, h, 0) * g[h].grad else 0.0)
                + (if g[h].inputs[1] == x then Partial(g, h, 1) * g[h].grad else 0.0)
  {
    var n := |g[h].inputs|;
    forall x
      ensures n == 1 ==>
                Contribution(g, h, x) ==
                  (if g[h].inputs[0] == x then Partial(g, h, 0) * g[h].grad else 0.0)
      ensures n == 2 ==>
                Contribution(g, h, x) ==
                  (if g[h].inputs[0] == x then Partial(g, h, 0) * g[h].grad else 0.0)
                  + (if g[h].inputs[1] == x then Partial(g, h, 1) * g[h].grad else 0.0)
    {
      assert ContributionFrom(g, h, x, n) == 0.0;
      if n == 2 {
        assert ContributionFrom(g, h, x, 1) ==
          (if g[h].inputs[1] == x then Partial(g, h, 1) * g[h].grad else 0.0);
      }
    }
  }

  /** Adds `d` to the gradient of node `a` and changes nothing else. */
  function AddGrad(g: Graph, a: Handle, d: real): (r: Graph)
    requires a < |g|
    ensures SameShape(g, r)
    ensures forall x :: 0 <= x < |g| ==> r[x].grad == g[x].grad + (if x == a then d else 0.0)
  {
    g[a := g[a].(grad := g[a].grad + d)]
  }

  /** Adds `da` to node `a` and then `db` to node `b`; when `a == b` both
      land on the same node. */
  function AddGrads(g: Graph, a: Handle, da: real, b: Handle, db: real): (r: Graph)
    requires a < |g| && b < |g|
    ensures SameShape(g, r)
    ensures forall x :: 0 <= x < |g| ==>
              r[x].grad == g[x].grad + (if x == a then da else 0.0) + (if x == b then db else 0.0)
  {
    AddGrad(AddGrad(g, a, da), b, db)
  }

  /** The closure `add` attaches: both inputs receive the output gradient. */
  function AddBackward(g: Graph, h: Handle): (r: Graph)
    requires Valid(g) && h < |g| && g[h].op.Add?
    ensures SameShape(g, r)
    ensures forall x :: 0 <= x < |g| ==> r[x].grad == g[x].grad + Contribution(g, h, x)
  {
    assert NodeOk(g, h);
    ContributionUnfold(g, h);
    var n := g[h];
    assert Partial(g, h, 0) == 1.0 && Partial(g, h, 1) == 1.0;
    AddGrads(g, n.inputs[0], 1.0 * n.grad, n.inputs[1], 1.0 * n.grad)
  }

  /** The closure `multiply` attaches: each input receives the other's data
      times the output gradient. */
  function MulBackward(g: Graph, h: Handle): (r: Graph)
    requires Valid(g) && h < |g| && g[h].op.Mul?
    ensures SameShape(g, r)
    ensures forall x :: 0 <= x < |g| ==> r[x].grad == g[x].grad + Contribution(g, h, x)
  {
    assert NodeOk(g, h);
    ContributionUnfold(g, h);
    var n := g[h];
    var a, b := n.inputs[0], n.inputs[1];
    assert Partial(g, h, 0) == g[b].data && Partial(g, h, 1) == g[a].data;
    AddGrads(g, a, g[b].data * n.grad, b, g[a].data * n.grad)
  }

  /** The closure `pow` attaches: the base receives `n * a ** (n - 1)` times
      the output gradient. */
  function PowBackward(g: Graph, h: Handle): (r: Graph)
    requires Valid(g) && h < |g| && g[h].op.Pow?
    ensures SameShape(g, r)
    ensures forall x :: 0 <= x < |g| ==> r[x].grad == g[x].grad + Contribution(g, h, x)
  {
    assert NodeOk(g, h);
    ContributionUnfold(g, h);
    var n := g[h];
    var a, e := n.inputs[0], n.op.exponent;
    assert Partial(g, h, 0) == (e as real) * Power(g[a].data, e - 1);
    AddGrad(g, a, (e as real) * Power(g[a].data, e - 1) * n.grad)
  }

  /** The local backward rule of node `h`; a leaf's rule does nothing. Every
      node's gradient grows by exactly what the chain rule assigns it through
      `h`. */
  function ApplyRule(g: Graph, h: Handle): (r: Graph)
    requires Valid(g) && h < |g|
    ensures SameShape(g, r)
    ensures forall x :: 0 <= x < |g| ==> r[x].grad == g[x].grad + Contribution(g, h, x)
  {
    match g[h].op
    case Leaf =>
      assert NodeOk(g, h);
      assert forall x :: ContributionFrom(g, h, x, 0) == 0.0;
      g
    case Add => AddBackward(g, h)
    case Mul => MulBackward(g, h)
    case Pow(_) => PowBackward(g, h)
  }

  /** Runs the rules of `order` from its last element to its first. */
  function Sweep(g: Graph, order: seq<Handle>): (r: Graph)
    requires Valid(g) && forall k :: 0 <= k < |order| ==> order[k] < |g|
    ensures SameShape(g, r)
    decreases |order|
  {
    if |order| == 0 then g
    else
      var g1 := ApplyRule(g, order[|order| - 1]);
      SameShapeValid(g, g1);
      Sweep(g1, order[..|order| - 1])
  }

  /** `backward()`: seed the root's gradient with 1 (an overwrite), then run
      every rule of the topological list once, in reverse. */
  function Backward(g: Graph, root: Handle): (r: Graph)
    requires Valid(g) && root < |g|
    ensures SameShape(g, r)
  {
    ValidAcyclic(g);
    TopoInGraph(g, root);
    var seeded := g[root := g[root].(grad := 1.0)];
    SameShapeValid(g, seeded);
    Sweep(seeded, Topo(g, root))
  }

  /** Every handle of the topological list names a node of the graph. */
  lemma TopoInGraph(g: Graph, root: Handle)
    requires Acyclic(g) && root < |g|
    ensures forall i :: 0 <= i < |Topo(g, root)| ==> Topo(g, root)[i] < |g|
  {
    TopoOrder(g, root);
  }

  /** Sweeping a prefix of a list runs the prefix's last rule first. */
  lemma SweepStep(g: Graph, order: seq<Handle>, i: nat)
    requires Valid(g) && 0 < i <= |order| && forall k :: 0 <= k < |order| ==> order[k] < |g|
    ensures Valid(ApplyRule(g, order[i - 1]))
    ensures Sweep(g, order[..i]) == Sweep(ApplyRule(g, order[i - 1]), order[..i - 1])
  {
    SameShapeValid(g, ApplyRule(g, order[i - 1]));
    assert order[..i][..i - 1] == order[..i - 1];
  }

  /** The imperative sweep: the loop `for (node of topo.reverse())`. */
  method RunBackward(g: Graph, root: Handle) returns (r: Graph)
    requires Valid(g) && root < |g|
    ensures r == Backward(g, root)
  {
    ValidAcyclic(g);
    TopoInGraph(g, root);
    var topo := Topo(g, root);
    r := g[root := g[root].(grad := 1.0)];
    SameShapeValid(g, r);
    var i := |topo|;
    assert topo[..i] == topo;
    while i > 0
      invariant 0 <= i <= |topo|
      invariant forall k :: 0 <= k < |topo| ==> topo[k] < |g|
      invariant SameShape(g, r) && Valid(r)
      invariant Sweep(r, topo[..i]) == Backward(g, root)
    {
      SweepStep(r, topo, i);
      r := ApplyRule(r, topo[i - 1]);
      SameShapeValid(g, r);
      i := i - 1;
    }
  }

  /** A rule only adds to the inputs of its node. */
  lemma ContributionOutside(g: Graph, h: Handle, x: Handle, k: nat)
    requires Valid(g) && h < |g| && k <= |g[h].inputs|
    requires forall j :: 0 <= j < |g[h].inputs| ==> g[h].inputs[j] != x
    ensures ContributionFrom(g, h, x, k) == 0.0
    decreases |g[h].inputs| - k
  {
    if k < |g[h].inputs| {
      ContributionOutside(g, h, x, k + 1);
    }
  }

  /** A sweep leaves the gradient of a node alone when no node of the order
      has it as an input. */
  lemma {:induction false} SweepFrame(g: Graph, order: seq<Handle>, x: Handle)
    requires Valid(g) && x < |g| && forall k :: 0 <= k < |order| ==> order[k] < |g|
    requires forall k, j :: 0 <= k < |order| && 0 <= j < |g[order[k]].inputs| ==> g[order[k]].inputs[j] != x
    ensures Sweep(g, order)[x].grad == g[x].grad
    decreases |order|
  {
    if |order| > 0 {
      var h := order[|order| - 1];
      var g1 := ApplyRule(g, h);
      ContributionOutside(g, h, x, 0);
      SameShapeValid(g, g1);
      SweepFrame(g1, order[..|order| - 1], x);
    }
  }

  /** Every node reachable from `v` is `v` or an earlier node. */
  lemma {:induction false} ReachBelow(g: Graph, v: Handle, x: Handle)
    requires Acyclic(g) && v < |g| && x in Reach(g, v)
    ensures x <= v
    decreases v, 1
  {
    if x != v {
      ReachAllBelow(g, InputsOf(g, v), v, x);
    }
  }

  lemma {:induction false} ReachAllBelow(g: Graph, cs: seq<Handle>, bound: Handle, x: Handle)
    requires Acyclic(g) && bound <= |g| && forall k :: 0 <= k < |cs| ==> cs[k] < bound
    requires x in ReachAll(g, cs, bound)
    ensures x < bound
    decreases bound, 0, |cs|
  {
    if x in Reach(g, cs[0]) {
      ReachBelow(g, cs[0], x);
    } else {
      ReachAllBelow(g, cs[1..], bound, x);
    }
  }

  /** The inputs of a reachable node are reachable. */
  lemma {:induction false} ReachInputs(g: Graph, v: Handle, y: Handle, j: nat)
    requires Acyclic(g) && v < |g| && y in Reach(g, v) && y < |g| && j < |g[y].inputs|
    ensures g[y].inputs[j] in Reach(g, v)
    decreases v, 1
  {
    ReachBelow(g, v, y);
    var cs := InputsOf(g, v);
    if y == v {
      ReachAllHas(g, cs, v, j);
    } else {
      ReachAllInputs(g, cs, v, y, j);
    }
  }

  lemma {:induction false} ReachAllInputs(g: Graph, cs: seq<Handle>, bound: Handle, y: Handle, j: nat)
    requires Acyclic(g) && bound <= |g| && forall k :: 0 <= k < |cs| ==> cs[k] < bound
    requires y in ReachAll(g, cs, bound) && y < |g| && j < |g[y].inputs|
    ensures g[y].inputs[j] in ReachAll(g, cs, bound)
    decreases bound, 0, |cs|
  {
    if y in Reach(g, cs[0]) {
      ReachInputs(g, cs[0], y, j);
    } else {
      ReachAllInputs(g, cs[1..], bound, y, j);
    }
  }

  lemma {:induction false} ReachAllHas(g: Graph, cs: seq<Handle>, bound: Handle, j: nat)
    requires Acyclic(g) && bound <= |g| && forall k :: 0 <= k < |cs| ==> cs[k] < bound
    requires j < |cs|
    ensures cs[j] in ReachAll(g, cs, bound)
    decreases |cs|
  {
    if j == 0 {
      assert cs[0] in Reach(g, cs[0]);
    } else {
      ReachAllHas(g, cs[1..], bound, j - 1);
    }
  }

  /** After `backward`, the root's gradient is exactly 1 (the seed is an
      overwrite and no rule below the root can reach it), data and structure
      are untouched, and every node the root does not depend on keeps its
      gradient. */
  lemma BackwardSeedsAndFrames(g: Graph, root: Handle)
    requires Valid(g) && root < |g|
    ensures Backward(g, root)[root].grad == 1.0
    ensures Acyclic(g)
    ensures forall x :: 0 <= x < |g| && x !in Reach(g, root) ==> Backward(g, root)[x].grad == g[x].grad
  {
    ValidAcyclic(g);
    TopoOrder(g, root);
    var topo := Topo(g, root);
    var seeded := g[root := g[root].(grad := 1.0)];
    SameShapeValid(g, seeded);
    forall k, j | 0 <= k < |topo| && 0 <= j < |g[topo[k]].inputs|
      ensures g[topo[k]].inputs[j] < root
    {
      assert topo[k] in Elems(topo);
      ReachBelow(g, root, topo[k]);
      assert WellFormedAt(g, topo[k]);
    }
    SweepFrame(seeded, topo, root);
    forall x | 0 <= x < |g| && x !in Reach(g, root)
      ensures Backward(g, root)[x].grad == g[x].grad
    {
      BackwardFrameAt(g, root, x);
    }
  }

  /** A node the root does not depend on is no input of any listed node, so
      the sweep leaves its gradient alone. */
  lemma BackwardFrameAt(g: Graph, root: Handle, x: Handle)
    requires Valid(g) && Acyclic(g) && root < |g| && x < |g| && x !in Reach(g, root)
    ensures Backward(g, root)[x].grad == g[x].grad
  {
    ValidAcyclic(g);
    TopoOrder(g, root);
    var topo := Topo(g, root);
    var seeded := g[root := g[root].(grad := 1.0)];
    SameShapeValid(g, seeded);
    forall k, j | 0 <= k < |topo| && 0 <= j < |g[topo[k]].inputs|
      ensures g[topo[k]].inputs[j] != x
    {
      assert topo[k] in Elems(topo);
      ReachInputs(g, root, topo[k], j);
    }
    SweepFrame(seeded, topo, x);
  }

  /** The contribution depends only on data, structure and the node's own
      gradient. */
  lemma {:induction false} ContributionSameShape(g1: Graph, g2: Graph, h: Handle, x: Handle, k: nat)
    requires Valid(g1) && SameShape(g1, g2) && h < |g1| && k <= |g1[h].inputs|
    requires g1[h].grad == g2[h].grad
    ensures Valid(g2)
    ensures ContributionFrom(g1, h, x, k) == ContributionFrom(g2, h, x, k)
    decreases |g1[h].inputs| - k
  {
    SameShapeValid(g1, g2);
    if k < |g1[h].inputs| {
      assert NodeOk(g1, h);
      assert Partial(g1, h, k) == Partial(g2, h, k);
      ContributionSameShape(g1, g2, h, x, k + 1);
    }
  }

  /** A leaf's reach is itself. */
  lemma ReachLeaf(g: Graph, c: Handle)
    requires Acyclic(g) && c < |g| && g[c].op.Leaf?
    ensures Reach(g, c) == {c}
  {
    assert WellFormedAt(g, c);
    assert InputsOf(g, c) == [];
  }

  lemma {:induction false} ReachAllLeaves(g: Graph, cs: seq<Handle>, bound: Handle, y: Handle)
    requires Acyclic(g) && bound <= |g| && forall k :: 0 <= k < |cs| ==> cs[k] < bound
    requires forall k :: 0 <= k < |cs| ==> g[cs[k]].op.Leaf?
    requires y in ReachAll(g, cs, bound)
    ensures y < |g| && g[y].op.Leaf?
    decreases |cs|
  {
    ReachLeaf(g, cs[0]);
    if y != cs[0] {
      ReachAllLeaves(g, cs[1..], bound, y);
    }
  }

  /** Rules of leaves change nothing. */
  lemma {:induction false} SweepLeaves(g: Graph, order: seq<Handle>)
    requires Valid(g) && forall k :: 0 <= k < |order| ==> order[k] < |g| && g[order[k]].op.Leaf?
    ensures Sweep(g, order) == g
    decreases |order|
  {
    if |order| > 0 {
      SweepLeaves(g, order[..|order| - 1]);
    }
  }

  /** Every input of `root` is a leaf. */
  predicate OverLeaves(g: Graph, root: Handle)
    requires root < |g|
  {
    forall j :: 0 <= j < |g[root].inputs| ==> g[root].inputs[j] < |g| && g[g[root].inputs[j]].op.Leaf?
  }

  /** When every input of the root is a leaf, `backward` amounts to seeding
      the root and running the root's own rule once. */
  lemma BackwardOneOp(g: Graph, root: Handle)
    requires Valid(g) && root < |g|
    requires OverLeaves(g, root)
    ensures var seeded := g[root := g[root].(grad := 1.0)];
            Valid(seeded) && Backward(g, root) == ApplyRule(seeded, root)
  {
    ValidAcyclic(g);
    TopoOverLeaves(g, root);
    var topo := Topo(g, root);
    var seeded := g[root := g[root].(grad := 1.0)];
    SameShapeValid(g, seeded);
    var n := |topo|;
    assert topo[..n] == topo;
    SweepStep(seeded, topo, n);
    var g1 := ApplyRule(seeded, root);
    SameShapeValid(seeded, g1);
    SweepLeaves(g1, topo[..n - 1]);
  }

  /** Over leaves, the topological list is the root's leaf inputs followed by
      the root itself. */
  lemma TopoOverLeaves(g: Graph, root: Handle)
    requires Valid(g) && root < |g|
    requires OverLeaves(g, root)
    ensures Acyclic(g)
    ensures var topo := Topo(g, root);
            && |topo| > 0 && topo[|topo| - 1] == root
            && forall k :: 0 <= k < |topo| - 1 ==> topo[k] < |g| && g[topo[k]].op.Leaf?
  {
    ValidAcyclic(g);
    TopoOrder(g, root);
    var topo := Topo(g, root);
    var n := |topo|;
    forall k | 0 <= k < n - 1
      ensures topo[k] < |g| && g[topo[k]].op.Leaf?
    {
      assert topo[k] != topo[n - 1];
      assert topo[k] in Elems(topo);
      ReachAllLeaves(g, InputsOf(g, root), root, topo[k]);
    }
  }

  /** The root's gradient after `backward` on a single operation over leaves
      is the seed, and each input's grows by the chain rule's contribution. */
  lemma BackwardOneOpGrad(g: Graph, root: Handle, x: Handle)
    requires Valid(g) && root < |g| && x < |g|
    requires OverLeaves(g, root)
    ensures var seeded := g[root := g[root].(grad := 1.0)];
            Valid(seeded) &&
            Backward(g, root)[x].grad ==
              (if x == root then 1.0 else g[x].grad + Contribution(seeded, root, x))
  {
    var seeded := g[root := g[root].(grad := 1.0)];
    BackwardOneOp(g, root);
    if x == root {
      assert NodeOk(g, root);
      ContributionOutside(seeded, root, root, 0);
    }
  }

  /** Calling `backward` twice on a single operation over leaves, without
      zeroing, adds each input's contribution twice: the rules use `+=` and
      only the root is overwritten. */
  lemma BackwardTwiceOneOp(g: Graph, root: Handle, x: Handle)
    requires Valid(g) && root < |g| && x < |g| && x != root
    requires OverLeaves(g, root)
    ensures var seeded := g[root := g[root].(grad := 1.0)];
            Valid(seeded) && Valid(Backward(g, root)) &&
            Backward(Backward(g, root), root)[x].grad == g[x].grad + 2.0 * Contribution(seeded, root, x)
  {
    var seeded := g[root := g[root].(grad := 1.0)];
    var b1 := Backward(g, root);
    SameShapeValid(g, b1);
    BackwardOneOpGrad(g, root, x);
    assert OverLeaves(b1, root);
    BackwardOneOpGrad(b1, root, x);
    BackwardOneOpGrad(g, root, root);
    var seeded2 := b1[root := b1[root].(grad := 1.0)];
    ContributionSameShape(seeded, seeded2, root, x, 0);
  }

  /** The depth-first walk reads only the inputs, so graphs that differ in
      data or gradients only are walked alike. */
  lemma {:induction false} VisitSameShape(g1: Graph, g2: Graph, v: Handle, w: Walk)
    requires Acyclic(g1) && Acyclic(g2) && SameShape(g1, g2) && v < |g1|
    ensures Visit(g1, v, w) == Visit(g2, v, w)
    decreases v, 1
  {
    if v !in w.visited {
      VisitInputsSameShape(g1, g2, v, 0, Walk(w.visited + {v}, w.topo));
    }
  }

  lemma {:induction false} VisitInputsSameShape(g1: Graph, g2: Graph, v: Handle, i: nat, w: Walk)
    requires Acyclic(g1) && Acyclic(g2) && SameShape(g1, g2) && v < |g1| && i <= |g1[v].inputs|
    ensures VisitInputs(g1, v, i, w) == VisitInputs(g2, v, i, w)
    decreases v, 0, |g1[v].inputs| - i
  {
    if i < |g1[v].inputs| {
      var c := InputsOf(g1, v)[i];
      VisitSameShape(g1, g2, c, w);
      VisitInputsSameShape(g1, g2, v, i + 1, Visit(g1, c, w));
    }
  }

  /** A rule of another node treats the extra gradient at `x` as it is:
      the rule of `h` reads only data and `h`'s own gradient. */
  lemma ApplyRuleShift(g: Graph, h: Handle, x: Handle, d: real)
    requires Valid(g) && h < |g| && x < |g| && h != x
    ensures Valid(AddGrad(g, x, d))
    ensures ApplyRule(AddGrad(g, x, d), h) == AddGrad(ApplyRule(g, h), x, d)
  {
    var g2 := AddGrad(g, x, d);
    SameShapeValid(g, g2);
    var a1 := ApplyRule(g, h);
    var a2 := ApplyRule(g2, h);
    forall y | 0 <= y < |g|
      ensures a2[y] == AddGrad(a1, x, d)[y]
    {
      ContributionSameShape(g, g2, h, y, 0);
    }
  }

  /** Dropping the last entry keeps a list free of repeats and in
      dependency order. */
  lemma OrderPrefix(g: Graph, order: seq<Handle>)
    requires |order| > 0 && forall k :: 0 <= k < |order| ==> order[k] < |g|
    requires NoDuplicates(order) && InputsFirst(g, order)
    ensures var rest := order[..|order| - 1];
            NoDuplicates(rest) && InputsFirst(g, rest)
  {
    var rest := order[..|order| - 1];
    forall k, j | 0 <= k < |rest| && 0 <= j < |g[rest[k]].inputs|
      ensures g[rest[k]].inputs[j] in rest[..k]
    {
      assert rest[k] == order[k] && rest[..k] == order[..k];
    }
  }

  /** In a list free of repeats and in dependency order, no entry before
      the last one has the last one as an input, in any graph of the same
      structure. */
  lemma LastFeedsNothing(g: Graph, s: Graph, order: seq<Handle>)
    requires |order| > 0 && forall k :: 0 <= k < |order| ==> order[k] < |g|
    requires NoDuplicates(order) && InputsFirst(g, order) && SameShape(g, s)
    ensures var rest := order[..|order| - 1];
            forall k, j :: 0 <= k < |rest| && 0 <= j < |s[rest[k]].inputs| ==> s[rest[k]].inputs[j] != order[|order| - 1]
  {
    var n := |order|;
    var rest := order[..n - 1];
    forall k, j | 0 <= k < |rest| && 0 <= j < |s[rest[k]].inputs|
      ensures s[rest[k]].inputs[j] != order[n - 1]
    {
      assert rest[k] == order[k];
      assert g[order[k]].inputs[j] in order[..k];
    }
  }

  /** A node's own rule never feeds the node itself, so extra gradient at
      `x` is still extra after `x`'s rule. */
  lemma RuleShiftSelf(g: Graph, x: Handle, d: real)
    requires Valid(g) && x < |g|
    ensures Valid(AddGrad(g, x, d))
    ensures var a1 := ApplyRule(g, x);
            var a2 := ApplyRule(AddGrad(g, x, d), x);
            Valid(a1) && Valid(a2) && SameShape(g, a1) && SameShape(g, a2) && a2[x].grad == a1[x].grad + d
  {
    var g2 := AddGrad(g, x, d);
    SameShapeValid(g, g2);
    SameShapeValid(g, ApplyRule(g, x));
    SameShapeValid(g2, ApplyRule(g2, x));
    assert NodeOk(g, x);
    ContributionOutside(g, x, x, 0);
    ContributionOutside(g2, x, x, 0);
  }

  /** When `x` is the last entry, its own rule runs first and no later rule
      feeds it, so the extra `d` stays at `x` to the end. */
  lemma SweepShiftLast(g: Graph, order: seq<Handle>, d: real)
    requires Valid(g) && |order| > 0 && forall k :: 0 <= k < |order| ==> order[k] < |g|
    requires NoDuplicates(order) && InputsFirst(g, order)
    ensures var x := order[|order| - 1];
            Valid(AddGrad(g, x, d)) &&
            Sweep(AddGrad(g, x, d), order)[x].grad == Sweep(g, order)[x].grad + d
  {
    var n := |order|;
    var x := order[n - 1];
    var rest := order[..n - 1];
    RuleShiftSelf(g, x, d);
    var a1 := ApplyRule(g, x);
    var a2 := ApplyRule(AddGrad(g, x, d), x);
    assert Sweep(g, order) == Sweep(a1, rest);
    assert Sweep(AddGrad(g, x, d), order) == Sweep(a2, rest);
    LastFeedsNothing(g, a1, order);
    LastFeedsNothing(g, a2, order);
    SweepFrame(a1, rest, x);
    SweepFrame(a2, rest, x);
  }

  /** Sweeping a graph whose node `x` holds `d` more gradient ends with `d`
      more at `x`, provided every listed node's inputs are listed before it
      and nothing is listed twice: the extra gradient reaches `x`'s inputs
      only when `x`'s own rule runs, and no rule run after it feeds `x`. */
  lemma {:induction false} SweepShift(g: Graph, order: seq<Handle>, x: Handle, d: real)
    requires Valid(g) && x < |g| && forall k :: 0 <= k < |order| ==> order[k] < |g|
    requires NoDuplicates(order) && InputsFirst(g, order)
    ensures Valid(AddGrad(g, x, d))
    ensures Sweep(AddGrad(g, x, d), order)[x].grad == Sweep(g, order)[x].grad + d
    decreases |order|
  {
    SameShapeValid(g, AddGrad(g, x, d));
    if |order| > 0 {
      var h := order[|order| - 1];
      if h == x {
        SweepShiftLast(g, order, d);
      } else {
        var rest := order[..|order| - 1];
        var a1 := ApplyRule(g, h);
        SameShapeValid(g, a1);
        ApplyRuleShift(g, h, x, d);
        SameShapeValid(a1, AddGrad(a1, x, d));
        assert Sweep(AddGrad(g, x, d), order) == Sweep(AddGrad(a1, x, d), rest);
        OrderPrefix(g, order);
        SweepShift(a1, rest, x, d);
      }
    }
  }

  /** Seeding the root of `g` is seeding the root of `g` with `x`'s
      gradient zeroed, plus that gradient at `x`. */
  lemma SeedZeroed(g: Graph, root: Handle, x: Handle)
    requires Valid(g) && root < |g| && x < |g| && x != root
    ensures var zeroed := g[x := g[x].(grad := 0.0)];
            var seeded0 := zeroed[root := zeroed[root].(grad := 1.0)];
            Valid(zeroed) && Valid(seeded0) &&
            g[root := g[root].(grad := 1.0)] == AddGrad(seeded0, x, g[x].grad)
  {
    var zeroed := g[x := g[x].(grad := 0.0)];
    var seeded0 := zeroed[root := zeroed[root].(grad := 1.0)];
    assert SameShape(g, zeroed);
    SameShapeValid(g, zeroed);
    assert SameShape(zeroed, seeded0);
    SameShapeValid(zeroed, seeded0);
  }

  /** `backward` accumulates into every node but the root: the gradient a
      node ends with is the one it had plus what a run from gradient 0 would
      give it, and that amount does not depend on the node's old gradient. */
  lemma BackwardAccumulates(g: Graph, root: Handle, x: Handle)
    requires Valid(g) && root < |g| && x < |g| && x != root
    ensures var zeroed := g[x := g[x].(grad := 0.0)];
            Valid(zeroed) &&
            Backward(g, root)[x].grad == g[x].grad + Backward(zeroed, root)[x].grad
  {
    var zeroed := g[x := g[x].(grad := 0.0)];
    var seeded0 := zeroed[root := zeroed[root].(grad := 1.0)];
    SeedZeroed(g, root, x);
    ValidAcyclic(g);
    ValidAcyclic(zeroed);
    VisitSameShape(g, zeroed, root, Walk({}, []));
    TopoOrder(g, root);
    SweepShift(seeded0, Topo(g, root), x, g[x].grad);
  }

  /** The chain `r = (a * k) * c` with `a = 1`, `k = 2` and `c = 3`, every
      gradient 0: nodes `a, k, m = a * k, c, r = m * c` at handles 0 to 4. */
  function Chain(): (g: Graph)
    ensures Valid(g)
  {
    var g := [Node(1.0, 0.0, Leaf, []), Node(2.0, 0.0, Leaf, []), Node(2.0, 0.0, Mul, [0, 1]),
              Node(3.0, 0.0, Leaf, []), Node(6.0, 0.0, Mul, [2, 3])];
    assert NodeOk(g, 0) && NodeOk(g, 1) && NodeOk(g, 2) && NodeOk(g, 3) && NodeOk(g, 4);
    g
  }

  /** `build_topo` on the chain lists the handles in order. */
  lemma ChainWalk()
    ensures Acyclic(Chain()) && Topo(Chain(), 4) == [0, 1, 2, 3, 4]
  {
    var g := Chain();
    ValidAcyclic(g);
    var w0 := Walk({4, 2}, []);
    assert Visit(g, 0, w0) == Walk({4, 2, 0}, [0]);
    assert Visit(g, 1, Walk({4, 2, 0}, [0])) == Walk({4, 2, 0, 1}, [0, 1]);
    assert VisitInputs(g, 2, 0, w0) == Walk({4, 2, 0, 1}, [0, 1]);
    assert Visit(g, 2, Walk({4}, [])) == Walk({4, 2, 0, 1}, [0, 1, 2]);
    assert Visit(g, 3, Walk({4, 2, 0, 1}, [0, 1, 2])) == Walk({4, 2, 0, 1, 3}, [0, 1, 2, 3]);
    assert VisitInputs(g, 4, 0, Walk({4}, [])) == Walk({4, 2, 0, 1, 3}, [0, 1, 2, 3]);
  }

  /** The walk reads only the inputs, so every graph shaped like the chain
      is listed in the same order. */
  lemma ChainTopo(s: Graph)
    requires SameShape(Chain(), s)
    ensures Valid(s) && Acyclic(s) && Topo(s, 4) == [0, 1, 2, 3, 4]
  {
    var g := Chain();
    SameShapeValid(g, s);
    ValidAcyclic(s);
    ChainWalk();
    VisitSameShape(g, s, 4, Walk({}, []));
  }

  /** The rule of the product `r` hands `c`'s data times `r.grad` to `m`. */
  lemma ChainRootRule(s: Graph)
    requires SameShape(Chain(), s)
    ensures Valid(s)
    ensures var a := ApplyRule(s, 4);
            a[0].grad == s[0].grad && a[2].grad == s[2].grad + 3.0 * s[4].grad && a[4].grad == s[4].grad
  {
    SameShapeValid(Chain(), s);
    assert NodeOk(s, 4);
    ContributionUnfold(s, 4);
  }

  /** The rule of the product `m` hands `k`'s data times `m.grad` to `a`. */
  lemma ChainInnerRule(s: Graph)
    requires SameShape(Chain(), s)
    ensures Valid(s)
    ensures var a := ApplyRule(s, 2);
            a[0].grad == s[0].grad + 2.0 * s[2].grad && a[2].grad == s[2].grad && a[4].grad == s[4].grad
  {
    SameShapeValid(Chain(), s);
    assert NodeOk(s, 2);
    ContributionUnfold(s, 2);
  }

  /** A sweep runs the rule of its last entry first. */
  lemma SweepLast(s: Graph, order: seq<Handle>)
    requires Valid(s) && |order| > 0 && forall k :: 0 <= k < |order| ==> order[k] < |s|
    ensures Valid(ApplyRule(s, order[|order| - 1]))
    ensures Sweep(s, order) == Sweep(ApplyRule(s, order[|order| - 1]), order[..|order| - 1])
  {
    SameShapeValid(s, ApplyRule(s, order[|order| - 1]));
  }

  /** The sweep over the chain: `a` gains `2 * (m.grad + 3 * r.grad)`. */
  lemma ChainSweep(s: Graph)
    requires SameShape(Chain(), s)
    ensures Valid(s)
    ensures var r := Sweep(s, [0, 1, 2, 3, 4]);
            r[0].grad == s[0].grad + 2.0 * (s[2].grad + 3.0 * s[4].grad) &&
            r[2].grad == s[2].grad + 3.0 * s[4].grad && r[4].grad == s[4].grad
  {
    SameShapeValid(Chain(), s);
    var o5: seq<Handle> := [0, 1, 2, 3, 4];
    var o4 := o5[..4];
    var o3 := o4[..3];
    var o2 := o3[..2];
    assert o2 == [0, 1];
    ChainRootRule(s);
    SweepLast(s, o5);
    var s4 := ApplyRule(s, 4);
    assert s4[3].op == Leaf;
    SweepLast(s4, o4);
    assert ApplyRule(s4, 3) == s4;
    ChainInnerRule(s4);
    SweepLast(s4, o3);
    var s2 := ApplyRule(s4, 2);
    SweepLeaves(s2, o2);
  }

  /** One `backward` from the chain's root, whatever the gradients: `m`
      gains `3`, and `a` gains `2` times `m`'s gradient after that. */
  lemma ChainBackward(s: Graph)
    requires SameShape(Chain(), s)
    ensures Valid(s) && SameShape(Chain(), Backward(s, 4))
    ensures var r := Backward(s, 4);
            r[0].grad == s[0].grad + 2.0 * (s[2].grad + 3.0) && r[2].grad == s[2].grad + 3.0
  {
    var seeded := s[4 := s[4].(grad := 1.0)];
    ChainTopo(s);
    ChainSweep(seeded);
  }

  /** Over deeper graphs a second `backward` without zeroing does not simply
      add the first run's amounts again: interior nodes keep their
      gradients, and the rules read them. On the chain the first run gives
      `a.grad == 6` and `m.grad == 3`; the second run feeds `m.grad == 6`
      into `m`'s rule, so `a.grad` becomes 18, not 12. */
  lemma BackwardTwiceCompounds()
    ensures var g := Chain();
            Valid(Backward(g, 4)) &&
            Backward(g, 4)[0].grad == 6.0 && Backward(g, 4)[2].grad == 3.0 &&
            Backward(Backward(g, 4), 4)[0].grad == 18.0
  {
    var g := Chain();
    ChainBackward(g);
    ChainBackward(Backward(g, 4));
  }

  /** `a.add(a).backward()` leaves `a.grad == 2`: the rule adds the output
      gradient once per operand position. */
  lemma AddSelfGradient(x: real)
    ensures var a := NewValue([], x);
            var c := AddNodes(a.graph, a.node, a.node);
            c.graph[c.node].data == x + x &&
            Backward(c.graph, c.node)[a.node].grad == 2.0
  {
    var a := NewValue([], x);
    var c := AddNodes(a.graph, a.node, a.node);
    var seeded := c.graph[c.node := c.graph[c.node].(grad := 1.0)];
    assert OverLeaves(c.graph, c.node);
    BackwardOneOpGrad(c.graph, c.node, a.node);
    assert NodeOk(seeded, c.node);
    ContributionUnfold(seeded, c.node);
  }

  /** `backward` on a product of two distinct leaves adds to each operand's
      gradient the other operand's data. */
  lemma MulOverLeaves(g: Graph, root: Handle, a: Handle, b: Handle)
    requires Valid(g) && root < |g| && g[root].op == Mul && g[root].inputs == [a, b] && a != b
    requires OverLeaves(g, root)
    ensures Backward(g, root)[a].grad == g[a].grad + g[b].data
    ensures Backward(g, root)[b].grad == g[b].grad + g[a].data
  {
    var seeded := g[root := g[root].(grad := 1.0)];
    assert NodeOk(g, root);
    assert g[root].inputs[0] == a && g[root].inputs[1] == b;
    assert a < root && b < root;
    BackwardOneOpGrad(g, root, a);
    BackwardOneOpGrad(g, root, b);
    assert NodeOk(seeded, root);
    ContributionUnfold(seeded, root);
  }

  /** After `backward` on a fresh `a.multiply(b)`, each operand's gradient is
      the other operand's data. */
  lemma MulGradient(g: Graph, x: real, y: real)
    requires Valid(g)
    ensures var a := NewValue(g, x);
            var b := NewValue(a.graph, y);
            var c := MulNodes(b.graph, a.node, b.node);
            c.graph[c.node].data == x * y &&
            Backward(c.graph, c.node)[a.node].grad == y &&
            Backward(c.graph, c.node)[b.node].grad == x
  {
    var a := NewValue(g, x);
    var b := NewValue(a.graph, y);
    var c := MulNodes(b.graph, a.node, b.node);
    assert c.graph[..|b.graph|] == b.graph && b.graph[..|a.graph|] == a.graph;
    assert c.graph[a.node] == b.graph[a.node] == a.graph[a.node];
    assert c.graph[b.node] == b.graph[b.node];
    assert OverLeaves(c.graph, c.node);
    MulOverLeaves(c.graph, c.node, a.node, b.node);
  }

  /** `pow(2, 3)` has data 8, and `backward` gives the base gradient
      `3 * 2 ** 2 == 12`. */
  lemma PowGradient()
    ensures var a := NewValue([], 2.0);
            var p := PowNode(a.graph, a.node, 3);
            p.graph[p.node].data == 8.0 &&
            Backward(p.graph, p.node)[a.node].grad == 12.0
  {
    var a := NewValue([], 2.0);
    var p := PowNode(a.graph, a.node, 3);
    var seeded := p.graph[p.node := p.graph[p.node].(grad := 1.0)];
    assert Power(2.0, 3) == 8.0;
    assert OverLeaves(p.graph, p.node);
    BackwardOneOpGrad(p.graph, p.node, a.node);
    assert NodeOk(seeded, p.node);
    ContributionUnfold(seeded, p.node);
    assert Partial(seeded, p.node, 0) == 3.0 * Power(2.0, 2);
  }

  /** A second `backward` on `a.multiply(b)` without zeroing doubles the
      operands' gradients, while the root stays at 1. */
  lemma MulGradientTwice(g: Graph, x: real, y: real)
    requires Valid(g)
    ensures var a := NewValue(g, x);
            var b := NewValue(a.graph, y);
            var c := MulNodes(b.graph, a.node, b.node);
            var once := Backward(c.graph, c.node);
            Valid(once) &&
            Backward(once, c.node)[a.node].grad == 2.0 * y &&
            Backward(once, c.node)[b.node].grad == 2.0 * x &&
            Backward(once, c.node)[c.node].grad == 1.0
  {
    var a := NewValue(g, x);
    var b := NewValue(a.graph, y);
    var c := MulNodes(b.graph, a.node, b.node);
    var once := Backward(c.graph, c.node);
    assert c.graph[..|b.graph|] == b.graph && b.graph[..|a.graph|] == a.graph;
    assert c.graph[a.node] == b.graph[a.node] == a.graph[a.node];
    assert c.graph[b.node] == b.graph[b.node];
    assert OverLeaves(c.graph, c.node);
    MulOverLeaves(c.graph, c.node, a.node, b.node);
    SameShapeValid(c.graph, once);
    assert OverLeaves(once, c.node);
    MulOverLeaves(once, c.node, a.node, b.node);
    BackwardSeedsAndFrames(once, c.node);
  }
}
