/** The matt-torch.ts helpers that build nodes: `valuize`, which wraps the
    numbers of a nested array in fresh leaves, and `loss`, the sum of squared
    differences as a chain of graph nodes. */
module NodeHelpers {
  import opened Autograd
  import opened NodeTensors
  import opened ListHelpers
  import opened Normalization

  /** A nested JavaScript array of numbers. */
  datatype Nested = Scalar(x: real) | Array(items: seq<Nested>)

  /** The same nesting with every number replaced by a node handle. */
  datatype Valued = One(h: Handle) | Many(vs: seq<Valued>)

  /** The result of `valuize`: the grown graph and the nested handles. */
  datatype Valuized = Valuized(graph: Graph, value: Valued)
  datatype ValuizedList = ValuizedList(graph: Graph, values: seq<Valued>)

  /** The number of numbers in a nested array. */
  function Count(d: Nested): nat
    decreases d, 1
  {
    match d
    case Scalar(_) => 1
    case Array(items) => CountList(items)
  }

  function CountList(items: seq<Nested>): nat
    decreases items, 0
  {
    if |items| == 0 then 0 else Count(items[0]) + CountList(items[1..])
  }

  /** The handles of a nested value, in depth-first left-to-right order. */
  function Handles(v: Valued): seq<Handle>
    decreases v, 1
  {
    match v
    case One(h) => [h]
    case Many(vs) => HandlesList(vs)
  }

  function HandlesList(vs: seq<Valued>): seq<Handle>
    decreases vs, 0
  {
    if |vs| == 0 then [] else Handles(vs[0]) + HandlesList(vs[1..])
  }

  /** Reads a nested value back as the nested array of its nodes' data. */
  function Read(g: Graph, v: Valued): Nested
    requires InGraph(Handles(v), g)
    decreases v, 1
  {
    match v
    case One(h) =>
      assert Handles(v)[0] == h;
      Scalar(g[h].data)
    case Many(vs) => Array(ReadList(g, vs))
  }

  function ReadList(g: Graph, vs: seq<Valued>): seq<Nested>
    requires InGraph(HandlesList(vs), g)
    decreases vs, 0
  {
    if |vs| == 0 then []
    else
      InGraphSplit(vs, g);
      [Read(g, vs[0])] + ReadList(g, vs[1..])
  }

  /** A list of nested values is in the graph exactly when its first value
      and the remaining ones are. */
  lemma InGraphSplit(vs: seq<Valued>, g: Graph)
    requires |vs| > 0
    ensures HandlesList(vs) == Handles(vs[0]) + HandlesList(vs[1..])
    ensures InGraph(HandlesList(vs), g) <==> InGraph(Handles(vs[0]), g) && InGraph(HandlesList(vs[1..]), g)
  {
    InGraphConcat(Handles(vs[0]), HandlesList(vs[1..]), g);
  }

  lemma InGraphConcat(a: seq<Handle>, b: seq<Handle>, g: Graph)
    ensures InGraph(a + b, g) <==> InGraph(a, g) && InGraph(b, g)
  {
    assert forall i :: 0 <= i < |a| ==> (a + b)[i] == a[i];
    assert forall i :: 0 <= i < |b| ==> (a + b)[|a| + i] == b[i];
  }

  /** The handles `lo, lo + 1, ..., lo + n - 1`. */
  function Consecutive(lo: nat, n: nat): (r: seq<Handle>)
    ensures |r| == n && forall i :: 0 <= i < n ==> r[i] == lo + i
  {
    seq(n, i requires 0 <= i < n => lo + i)
  }

  /** Every node from `|g|` on is a leaf with gradient 0. */
  predicate FreshLeaves(g: Graph, r: Graph)
  {
    forall k :: |g| <= k < |r| ==> r[k].op == Leaf && r[k].inputs == [] && r[k].grad == 0.0
  }

  lemma FreshLeavesTrans(g1: Graph, g2: Graph, g3: Graph)
    requires Extends(g1, g2) && Extends(g2, g3) && FreshLeaves(g1, g2) && FreshLeaves(g2, g3)
    ensures FreshLeaves(g1, g3)
  {
    forall k | |g1| <= k < |g2|
      ensures g3[k] == g2[k]
    {
      ExtendsAt(g2, g3, k);
    }
  }

  /** Reading a nested value gives the same result in every extension. */
  lemma {:induction false} ReadExtends(g: Graph, r: Graph, v: Valued)
    requires InGraph(Handles(v), g) && Extends(g, r)
    ensures InGraph(Handles(v), r) && Read(r, v) == Read(g, v)
    decreases v, 1
  {
    match v
    case One(h) =>
      assert Handles(v)[0] == h;
      ExtendsAt(g, r, h);
    case Many(vs) => ReadListExtends(g, r, vs);
  }

  lemma {:induction false} ReadListExtends(g: Graph, r: Graph, vs: seq<Valued>)
    requires InGraph(HandlesList(vs), g) && Extends(g, r)
    ensures InGraph(HandlesList(vs), r) && ReadList(r, vs) == ReadList(g, vs)
    decreases vs, 0
  {
    if |vs| > 0 {
      InGraphSplit(vs, g);
      InGraphSplit(vs, r);
      ReadExtends(g, r, vs[0]);
      ReadListExtends(g, r, vs[1..]);
    }
  }

  /** `valuize`: a number becomes a fresh leaf; an array is valuized item by
      item, first to last. The leaves are consecutive fresh nodes in
      depth-first order, and reading them back gives the input. */
  function Valuize(g: Graph, d: Nested): (r: Valuized)
    requires Valid(g)
    ensures Valid(r.graph) && Extends(g, r.graph) && FreshLeaves(g, r.graph)
    ensures |r.graph| == |g| + Count(d)
    ensures Handles(r.value) == Consecutive(|g|, Count(d))
    ensures InGraph(Handles(r.value), r.graph) && Read(r.graph, r.value) == d
    decreases d, 1
  {
    match d
    case Scalar(x) =>
      var s := NewValue(g, x);
      Valuized(s.graph, One(s.node))
    case Array(items) =>
      var r := ValuizeList(g, items);
      Valuized(r.graph, Many(r.values))
  }

  function ValuizeList(g: Graph, items: seq<Nested>): (r: ValuizedList)
    requires Valid(g)
    ensures Valid(r.graph) && Extends(g, r.graph) && FreshLeaves(g, r.graph)
    ensures |r.graph| == |g| + CountList(items)
    ensures HandlesList(r.values) == Consecutive(|g|, CountList(items))
    ensures InGraph(HandlesList(r.values), r.graph) && ReadList(r.graph, r.values) == items
    decreases items, 0
  {
    if |items| == 0 then ValuizedList(g, [])
    else
      var first := Valuize(g, items[0]);
      var rest := ValuizeList(first.graph, items[1..]);
      var r := ValuizedList(rest.graph, [first.value] + rest.values);
      ExtendsTrans(g, first.graph, rest.graph);
      FreshLeavesTrans(g, first.graph, rest.graph);
      HandlesStep(|g|, first.value, Count(items[0]), rest.values, CountList(items[1..]));
      ReadStep(first.graph, rest.graph, items, first.value, rest.values);
      r
  }

  /** The handles of a list of valuized items are consecutive when those
      of its first item and of the rest are, one run after the other. */
  lemma HandlesStep(lo: nat, first: Valued, a: nat, rest: seq<Valued>, b: nat)
    requires Handles(first) == Consecutive(lo, a)
    requires HandlesList(rest) == Consecutive(lo + a, b)
    ensures HandlesList([first] + rest) == Consecutive(lo, a + b)
  {
    assert ([first] + rest)[0] == first && ([first] + rest)[1..] == rest;
    ConsecutiveConcat(lo, a, b);
  }

  /** Reading a list of valuized items gives the items when reading its
      first item (before the rest was allocated) and the rest does. */
  lemma ReadStep(g: Graph, r: Graph, items: seq<Nested>, first: Valued, rest: seq<Valued>)
    requires |items| > 0 && Extends(g, r)
    requires InGraph(Handles(first), g) && Read(g, first) == items[0]
    requires InGraph(HandlesList(rest), r) && ReadList(r, rest) == items[1..]
    ensures InGraph(HandlesList([first] + rest), r) && ReadList(r, [first] + rest) == items
  {
    var vs := [first] + rest;
    assert vs[0] == first && vs[1..] == rest;
    ReadExtends(g, r, first);
    InGraphSplit(vs, r);
    ReadListCons(r, vs);
    assert items == [items[0]] + items[1..];
  }

  lemma ConsecutiveConcat(lo: nat, a: nat, b: nat)
    ensures Consecutive(lo, a) + Consecutive(lo + a, b) == Consecutive(lo, a + b)
  {
  }

  lemma ReadListCons(g: Graph, vs: seq<Valued>)
    requires |vs| > 0 && InGraph(HandlesList(vs), g)
    ensures InGraph(Handles(vs[0]), g) && InGraph(HandlesList(vs[1..]), g)
    ensures ReadList(g, vs) == [Read(g, vs[0])] + ReadList(g, vs[1..])
  {
    InGraphSplit(vs, g);
  }

  function Square(x: real): real
  {
    x * x
  }

  /** A square is positive unless its base is 0. */
  lemma SquareZero(x: real)
    ensures Square(x) >= 0.0
    ensures Square(x) == 0.0 <==> x == 0.0
  {
    if x > 0.0 {
      calc {
        Square(x);
        x * x;
      > 0.0 * x;
        0.0;
      }
    } else if x < 0.0 {
      calc {
        Square(x);
        (-x) * (-x);
      > 0.0 * (-x);
        0.0;
      }
    }
  }

  /** Sum of `(t - p) ** 2` over equal positions, stopping at the shorter
      list (reference definition). */
  function SquaredError(ts: seq<real>, ps: seq<real>): real
  {
    if |ts| == 0 || |ps| == 0 then 0.0 else Square(ts[0] - ps[0]) + SquaredError(ts[1..], ps[1..])
  }

  /** The squared error is never negative, and it is 0 exactly when the two
      lists agree on every position both have. */
  lemma {:induction false} SquaredErrorZero(ts: seq<real>, ps: seq<real>)
    ensures SquaredError(ts, ps) >= 0.0
    ensures SquaredError(ts, ps) == 0.0 <==>
              forall i :: 0 <= i < |ts| && i < |ps| ==> ts[i] == ps[i]
  {
    if |ts| > 0 && |ps| > 0 {
      SquareZero(ts[0] - ps[0]);
      SquaredErrorZero(ts[1..], ps[1..]);
      if SquaredError(ts, ps) == 0.0 {
        forall i | 0 <= i < |ts| && i < |ps|
          ensures ts[i] == ps[i]
        {
          if i > 0 {
            assert ts[1..][i - 1] == ts[i] && ps[1..][i - 1] == ps[i];
          }
        }
      } else {
        if ts[0] == ps[0] {
          var i :| 0 <= i < |ts| - 1 && i < |ps| - 1 && ts[1..][i] != ps[1..][i];
          assert ts[i + 1] != ps[i + 1];
        }
      }
    }
  }

  /** Both handles of every pair name nodes of `g`. */
  predicate PairsIn(pairs: seq<(Handle, Handle)>, g: Graph)
  {
    forall i :: 0 <= i < |pairs| ==> pairs[i].0 < |g| && pairs[i].1 < |g|
  }

  /** Sum of the squared differences of the data of each pair. */
  function PairsError(g: Graph, pairs: seq<(Handle, Handle)>): real
    requires PairsIn(pairs, g)
  {
    if |pairs| == 0 then 0.0
    else Square(g[pairs[0].0].data - g[pairs[0].1].data) + PairsError(g, pairs[1..])
  }

  lemma {:induction false} PairsErrorExtends(g: Graph, r: Graph, pairs: seq<(Handle, Handle)>)
    requires PairsIn(pairs, g) && Extends(g, r)
    ensures PairsIn(pairs, r) && PairsError(r, pairs) == PairsError(g, pairs)
  {
    if |pairs| > 0 {
      ExtendsAt(g, r, pairs[0].0);
      ExtendsAt(g, r, pairs[0].1);
      PairsErrorExtends(g, r, pairs[1..]);
    }
  }

  /** The error over the zipped handles is the squared error of their data. */
  lemma {:induction false} ZipError(g: Graph, ts: seq<Handle>, ps: seq<Handle>)
    requires InGraph(ts, g) && InGraph(ps, g)
    ensures PairsIn(Zip(ts, ps), g)
    ensures PairsError(g, Zip(ts, ps)) == SquaredError(Values(g, ts), Values(g, ps))
  {
    if |ts| > 0 && |ps| > 0 {
      ZipError(g, ts[1..], ps[1..]);
      assert Zip(ts, ps)[1..] == Zip(ts[1..], ps[1..]);
      assert Values(g, ts)[1..] == Values(g, ts[1..]);
      assert Values(g, ps)[1..] == Values(g, ps[1..]);
    }
  }

  /** `t.subtract(p).pow(2)`: four fresh nodes, the last holding the
      squared difference of the data. */
  function SquaredDifference(g: Graph, t: Handle, p: Handle): (s: Step)
    requires Valid(g) && t < |g| && p < |g|
    ensures Valid(s.graph) && Extends(g, s.graph)
    ensures |s.graph| == |g| + 4 && s.node == |g| + 3
    ensures s.graph[s.node].data == Square(g[t].data - g[p].data)
  {
    var d := Subtract(g, t, p);
    var s := PowNode(d.graph, d.node, 2);
    var x := d.graph[d.node].data;
    assert Power(x, 2) == x * Power(x, 1);
    assert Power(x, 1) == x * 1.0;
    assert s.graph[..|g|] == d.graph[..|d.graph|][..|g|];
    s
  }

  /** The loop of `loss`: for each pair `[t, p]`, in order,
      `t.subtract(p).pow(2)`. */
  function Squares(g: Graph, pairs: seq<(Handle, Handle)>): (r: Allocated)
    requires Valid(g) && PairsIn(pairs, g)
    ensures Valid(r.graph) && Extends(g, r.graph)
    ensures |r.graph| == |g| + 4 * |pairs|
    ensures |r.handles| == |pairs| && InGraph(r.handles, r.graph)
    ensures DataSum(r.graph, r.handles) == PairsError(g, pairs)
    decreases |pairs|
  {
    if |pairs| == 0 then Allocated(g, [])
    else
      var s := SquaredDifference(g, pairs[0].0, pairs[0].1);
      PairsErrorExtends(g, s.graph, pairs[1..]);
      var rest := Squares(s.graph, pairs[1..]);
      var r := Allocated(rest.graph, [s.node] + rest.handles);
      SquaresStep(g, pairs, s, rest, r);
      r
  }

  lemma SquaresStep(g: Graph, pairs: seq<(Handle, Handle)>, s: Step, rest: Allocated, r: Allocated)
    requires |pairs| > 0 && PairsIn(pairs, g) && r == Allocated(rest.graph, [s.node] + rest.handles)
    requires Extends(g, s.graph) && |s.graph| == |g| + 4 && s.node == |g| + 3
    requires s.graph[s.node].data == Square(g[pairs[0].0].data - g[pairs[0].1].data)
    requires PairsIn(pairs[1..], s.graph) && PairsError(s.graph, pairs[1..]) == PairsError(g, pairs[1..])
    requires Extends(s.graph, rest.graph) && |rest.graph| == |s.graph| + 4 * (|pairs| - 1)
    requires |rest.handles| == |pairs| - 1 && InGraph(rest.handles, rest.graph)
    requires DataSum(rest.graph, rest.handles) == PairsError(s.graph, pairs[1..])
    ensures Extends(g, r.graph) && |r.graph| == |g| + 4 * |pairs|
    ensures |r.handles| == |pairs| && InGraph(r.handles, r.graph)
    ensures DataSum(r.graph, r.handles) == PairsError(g, pairs)
  {
    ExtendsTrans(g, s.graph, rest.graph);
    ExtendsAt(s.graph, rest.graph, s.node);
    assert r.handles[0] == s.node && r.handles[1..] == rest.handles;
  }

  /** `loss(predictions, targets)`: the squares of the zipped
      `[target, prediction]` pairs, then a fresh leaf 0 and an add chain over
      the squares. Its data is the squared error of the targets against the
      predictions. */
  function Loss(g: Graph, predictions: seq<Handle>, targets: seq<Handle>): (r: Step)
    requires Valid(g) && InGraph(predictions, g) && InGraph(targets, g)
    ensures Valid(r.graph) && Extends(g, r.graph) && r.node < |r.graph|
    ensures r.graph[r.node].data == SquaredError(Values(g, targets), Values(g, predictions))
    ensures r.graph[r.node].grad == 0.0
  {
    ZipError(g, targets, predictions);
    var sq := Squares(g, Zip(targets, predictions));
    var z := NewValue(sq.graph, 0.0);
    DataSumExtends(sq.graph, z.graph, sq.handles);
    var r := AddChain(z.graph, z.node, sq.handles);
    ExtendsTrans(g, sq.graph, z.graph);
    ExtendsTrans(g, z.graph, r.graph);
    r
  }

  /** The loss is never negative, and it is 0 exactly when every prediction
      equals its target over the shorter list. */
  lemma LossZeroIff(g: Graph, predictions: seq<Handle>, targets: seq<Handle>)
    requires Valid(g) && InGraph(predictions, g) && InGraph(targets, g)
    ensures var r := Loss(g, predictions, targets);
            r.graph[r.node].data >= 0.0 &&
            (r.graph[r.node].data == 0.0 <==>
               forall i :: 0 <= i < |targets| && i < |predictions| ==>
                 g[targets[i]].data == g[predictions[i]].data)
  {
    SquaredErrorZero(Values(g, targets), Values(g, predictions));
  }
}
