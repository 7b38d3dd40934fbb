/** Tensors of scalar nodes (structures/Tensor.ts over structures/Value.ts):
    the operations that read or allocate nodes of the autograd graph. A
    tensor holds node handles; an operation that wraps a raw number in
    `new Value(...)` appends a fresh leaf to the graph. */
module NodeTensors {
  import opened Wrappers
  import opened Shape
  import opened Tensors
  import opened Autograd
  import opened Backprop

  /** What an initializer or a transform hands back: a raw number, which the
      tensor wraps in a fresh leaf, or an already existing node, which it
      stores as is (`isValue(x) ? x : new Value(x)`). */
  datatype Produced = Raw(x: real) | Existing(h: Handle)

  /** What a callback hands back: the graph as the call leaves it (the nodes
      it built appended) and its result. */
  datatype Outcome = Outcome(graph: Graph, result: Produced)

  /** The fill argument of the constructor (`ValueInitializer`). */
  datatype Initializer =
    | Number(x: real)                            // a number: one fresh leaf per element
    | CopyOf(h: Handle)                          // a node: one fresh leaf per element, holding a copy of its data
    | Generator(f: (Graph, seq<nat>) -> Outcome) // a function of the element's coordinates, which may build nodes

  /** A graph grown from another: every old node is kept as it was. */
  predicate Extends(g: Graph, r: Graph)
  {
    |g| <= |r| && r[..|g|] == g
  }

  /** Every handle of `hs` names a node of `g`. */
  predicate InGraph(hs: seq<Handle>, g: Graph)
  {
    forall i :: 0 <= i < |hs| ==> hs[i] < |g|
  }

  /** Node `h` of the grown graph `r` stands for `p`: the existing node
      itself, or a leaf allocated after `g` with the number and gradient 0. */
  predicate Realizes(g: Graph, r: Graph, p: Produced, h: Handle)
  {
    match p
    case Existing(e) => h == e
    case Raw(x) => |g| <= h < |r| && r[h] == Node(x, 0.0, Leaf, [])
  }

  /** An existing node named by `p` is in `g`. */
  predicate ProducedIn(p: Produced, g: Graph)
  {
    p.Existing? ==> p.h < |g|
  }

  lemma ExtendsTrans(g1: Graph, g2: Graph, g3: Graph)
    requires Extends(g1, g2) && Extends(g2, g3)
    ensures Extends(g1, g3)
  {
    assert g3[..|g1|] == g3[..|g2|][..|g1|];
  }

  /** A node of `g` reads the same in every extension of `g`. */
  lemma ExtendsAt(g: Graph, r: Graph, h: Handle)
    requires Extends(g, r) && h < |g|
    ensures r[h] == g[h]
  {
    assert r[..|g|][h] == r[h];
  }

  /** `isValue(x) ? x : new Value(x)`. */
  function Realize(g: Graph, p: Produced): (r: Step)
    requires Valid(g) && ProducedIn(p, g)
    ensures Valid(r.graph) && Extends(g, r.graph) && r.node < |r.graph|
    ensures Realizes(g, r.graph, p, r.node)
    ensures |r.graph| == |g| + (if p.Raw? then 1 else 0)
  {
    match p
    case Existing(e) => Step(g, e)
    case Raw(x) => NewValue(g, x)
  }

  /** A callback's outcome over `g`: the graph only grew, and a returned
      node is in it. */
  predicate OutcomeOk(g: Graph, o: Outcome)
  {
    Valid(o.graph) && Extends(g, o.graph) && ProducedIn(o.result, o.graph)
  }

  /** `call` behaves on every graph grown from `g`: it only appends nodes, as
      the operations of a node do, and what it returns is in the graph it
      leaves. */
  ghost predicate CallOk<A(!new)>(g: Graph, call: (Graph, A) -> Outcome)
  {
    forall g', a :: Valid(g') && Extends(g, g') ==> OutcomeOk(g', call(g', a))
  }

  lemma CallOkExtends<A(!new)>(g: Graph, r: Graph, call: (Graph, A) -> Outcome)
    requires CallOk(g, call) && Extends(g, r)
    ensures CallOk(r, call)
  {
    forall g', a | Valid(g') && Extends(r, g')
      ensures OutcomeOk(g', call(g', a))
    {
      ExtendsTrans(g, r, g');
    }
  }

  lemma ExtendsRefl(g: Graph)
    ensures Extends(g, g)
  {
    assert g[..|g|] == g;
  }

  lemma InGraphExtends(hs: seq<Handle>, g: Graph, r: Graph)
    requires InGraph(hs, g) && Extends(g, r)
    ensures InGraph(hs, r)
  {
  }

  /** The handles a sequence of calls ends up as, and the grown graph. */
  datatype Allocated = Allocated(graph: Graph, handles: seq<Handle>)

  /** One call on the graph `g`, its result then stored as a node
      (`isValue(x) ? x : new Value(x)`). */
  function Place<A(!new)>(g: Graph, call: (Graph, A) -> Outcome, a: A): (r: Step)
    requires OutcomeOk(g, call(g, a))
    ensures Valid(r.graph) && Extends(g, r.graph) && r.node < |r.graph|
    ensures Extends(call(g, a).graph, r.graph)
    ensures Realizes(call(g, a).graph, r.graph, call(g, a).result, r.node)
  {
    var o := call(g, a);
    var r := Realize(o.graph, o.result);
    ExtendsTrans(g, o.graph, r.graph);
    r
  }

  /** Runs `call` on the items in order, each call seeing the graph the
      earlier ones left, and stores each result as a node right after its
      call. */
  function Thread<A(!new)>(g: Graph, xs: seq<A>, call: (Graph, A) -> Outcome): (r: Allocated)
    requires Valid(g) && CallOk(g, call)
    ensures Valid(r.graph) && Extends(g, r.graph) && |r.handles| == |xs| && InGraph(r.handles, r.graph)
    decreases |xs|
  {
    if |xs| == 0 then
      ExtendsRefl(g);
      Allocated(g, [])
    else
      var p := Thread(g, xs[..|xs| - 1], call);
      CallOkExtends(g, p.graph, call);
      ExtendsRefl(p.graph);
      var s := Place(p.graph, call, xs[|xs| - 1]);
      ExtendsTrans(g, p.graph, s.graph);
      InGraphExtends(p.handles, p.graph, s.graph);
      Allocated(s.graph, p.handles + [s.node])
  }

  lemma RealizesExtends(g: Graph, r1: Graph, r2: Graph, p: Produced, h: Handle)
    requires Realizes(g, r1, p, h) && Extends(r1, r2)
    ensures Realizes(g, r2, p, h)
  {
    if p.Raw? {
      ExtendsAt(r1, r2, h);
    }
  }

  /** The last item's step, on the graph the earlier items left. */
  lemma ThreadLast<A(!new)>(g: Graph, xs: seq<A>, call: (Graph, A) -> Outcome)
    requires Valid(g) && CallOk(g, call) && |xs| > 0
    ensures var p := Thread(g, xs[..|xs| - 1], call);
            CallOk(p.graph, call) && OutcomeOk(p.graph, call(p.graph, xs[|xs| - 1]))
    ensures var p := Thread(g, xs[..|xs| - 1], call);
            var s := Place(p.graph, call, xs[|xs| - 1]);
            Thread(g, xs, call) == Allocated(s.graph, p.handles + [s.node])
  {
    var p := Thread(g, xs[..|xs| - 1], call);
    CallOkExtends(g, p.graph, call);
    ExtendsRefl(p.graph);
  }

  /** Item `i` is stored as the node its call produced on the graph the
      first `i` calls left, and the later calls keep that node as it was. */
  lemma {:induction false} ThreadAt<A(!new)>(g: Graph, xs: seq<A>, call: (Graph, A) -> Outcome, i: nat)
    requires Valid(g) && CallOk(g, call) && i < |xs|
    ensures var p := Thread(g, xs[..i], call);
            CallOk(p.graph, call) && OutcomeOk(p.graph, call(p.graph, xs[i]))
    ensures var p := Thread(g, xs[..i], call);
            var s := Place(p.graph, call, xs[i]);
            var r := Thread(g, xs, call);
            Extends(s.graph, r.graph) && r.handles[i] == s.node
    decreases |xs|
  {
    var n := |xs|;
    ThreadLast(g, xs, call);
    var front := xs[..n - 1];
    var q := Thread(g, front, call);
    var last := Place(q.graph, call, xs[n - 1]);
    var r := Thread(g, xs, call);
    assert r == Allocated(last.graph, q.handles + [last.node]);
    if i < n - 1 {
      assert front[..i] == xs[..i] && front[i] == xs[i];
      ThreadAt(g, front, call, i);
      var p := Thread(g, xs[..i], call);
      var s := Place(p.graph, call, xs[i]);
      assert Extends(s.graph, q.graph) && q.handles[i] == s.node;
      assert r.handles[i] == q.handles[i];
      ExtendsTrans(s.graph, q.graph, last.graph);
    } else {
      assert xs[..i] == front;
      ExtendsRefl(last.graph);
    }
  }

  /** With a call that builds nothing and always returns the number `x`,
      item `o` becomes the fresh leaf `|g| + o`. */
  lemma {:induction false} ThreadRaw<A(!new)>(g: Graph, xs: seq<A>, call: (Graph, A) -> Outcome, x: real)
    requires Valid(g) && CallOk(g, call)
    requires forall g', a :: call(g', a) == Outcome(g', Raw(x))
    ensures var r := Thread(g, xs, call);
            |r.graph| == |g| + |xs| &&
            forall o :: 0 <= o < |xs| ==> r.handles[o] == |g| + o && r.graph[|g| + o] == Node(x, 0.0, Leaf, [])
    decreases |xs|
  {
    if |xs| > 0 {
      var n := |xs|;
      ThreadRaw(g, xs[..n - 1], call, x);
      var p := Thread(g, xs[..n - 1], call);
      var r := Thread(g, xs, call);
      assert call(p.graph, xs[n - 1]) == Outcome(p.graph, Raw(x));
      forall o | 0 <= o < n
        ensures r.handles[o] == |g| + o && r.graph[|g| + o] == Node(x, 0.0, Leaf, [])
      {
        if o < n - 1 {
          assert r.handles[o] == p.handles[o];
          ExtendsAt(p.graph, r.graph, |g| + o);
        }
      }
    }
  }

  /** A fill names only nodes of `g`, and a generator only appends. */
  ghost predicate InitializerOk(g: Graph, fill: Initializer)
  {
    match fill
    case Number(_) => true
    case CopyOf(h) => h < |g|
    case Generator(f) => CallOk(g, f)
  }

  lemma InitializerOkExtends(g: Graph, r: Graph, fill: Initializer)
    requires InitializerOk(g, fill) && Extends(g, r)
    ensures InitializerOk(r, fill)
  {
    if fill.Generator? {
      CallOkExtends(g, r, fill.f);
    }
  }

  /** What the fill gives on the graph `g` for the element at `coords`: a
      number, or a copy of a node's data, is a raw number; a generator is
      called. */
  function Resolve(g: Graph, fill: Initializer, coords: seq<nat>): (r: Outcome)
    requires Valid(g) && InitializerOk(g, fill)
    ensures OutcomeOk(g, r)
  {
    ExtendsRefl(g);
    match fill
    case Number(x) => Outcome(g, Raw(x))
    case CopyOf(h) => Outcome(g, Raw(g[h].data))
    case Generator(f) => f(g, coords)
  }

  /** `resolveInitializer`: the node the element at `coords` starts out as,
      on the graph as the constructor has grown it so far. */
  function ResolveInitializer(g: Graph, fill: Initializer, coords: seq<nat>): (r: Step)
    requires Valid(g) && InitializerOk(g, fill)
    ensures Valid(r.graph) && Extends(g, r.graph) && r.node < |r.graph|
    ensures fill.Number? ==> r.node == |g| && r.graph[r.node] == Node(fill.x, 0.0, Leaf, [])
    ensures fill.CopyOf? ==> r.node == |g| && r.node != fill.h &&
                             r.graph[r.node] == Node(g[fill.h].data, 0.0, Leaf, [])
    ensures fill.Generator? && fill.f(g, coords).result.Existing? ==>
              r.graph == fill.f(g, coords).graph && r.node == fill.f(g, coords).result.h
    ensures fill.Generator? && fill.f(g, coords).result.Raw? ==>
              r.node == |fill.f(g, coords).graph| &&
              r.graph[r.node] == Node(fill.f(g, coords).result.x, 0.0, Leaf, [])
  {
    var o := Resolve(g, fill, coords);
    var r := Realize(o.graph, o.result);
    ExtendsTrans(g, o.graph, r.graph);
    r
  }

  /** The fill as a call on a grown graph: a node's data is read once, as it
      cannot change while the constructor runs. */
  function FillCall(g: Graph, fill: Initializer): (call: (Graph, seq<nat>) -> Outcome)
    requires InitializerOk(g, fill)
    ensures CallOk(g, call)
  {
    ExtendsRefl(g);
    match fill
    case Number(x) =>
      var call := (g': Graph, c: seq<nat>) => Outcome(g', Raw(x));
      assert CallOk(g, call) by {
        forall g', c | Valid(g') && Extends(g, g')
          ensures OutcomeOk(g', call(g', c))
        {
          ExtendsRefl(g');
        }
      }
      call
    case CopyOf(h) =>
      var x := g[h].data;
      var call := (g': Graph, c: seq<nat>) => Outcome(g', Raw(x));
      assert CallOk(g, call) by {
        forall g', c | Valid(g') && Extends(g, g')
          ensures OutcomeOk(g', call(g', c))
        {
          ExtendsRefl(g');
        }
      }
      call
    case Generator(f) => f
  }

  /** On a graph grown from `g`, the fill call is `resolveInitializer`'s
      outcome there. */
  lemma FillCallResolves(g: Graph, fill: Initializer, r: Graph, c: seq<nat>)
    requires InitializerOk(g, fill) && Valid(r) && Extends(g, r)
    ensures InitializerOk(r, fill)
    ensures FillCall(g, fill)(r, c) == Resolve(r, fill, c)
  {
    InitializerOkExtends(g, r, fill);
    if fill.CopyOf? {
      ExtendsAt(g, r, fill.h);
    }
  }

  /** A tensor of nodes and the graph its handles point into. */
  datatype Built = Built(graph: Graph, tensor: Tensor<Handle>)

  predicate BuiltOk(g: Graph, b: Built)
  {
    Valid(b.graph) && Extends(g, b.graph) && b.tensor.Valid() && InGraph(b.tensor.data, b.graph)
  }

  /** The coordinates of every offset, in ascending offset order. */
  function CoordList(dims: seq<nat>): (cs: seq<seq<nat>>)
    ensures |cs| == Product(dims)
    ensures forall o :: 0 <= o < |cs| ==> cs[o] == Unflatten(dims, o)
  {
    seq(Product(dims), o requires 0 <= o < Product(dims) => Unflatten(dims, o))
  }

  /** The constructor: rejects an empty shape, otherwise resolves the fill
      for every offset in ascending order, `unflatten(offset)` giving the
      coordinates, each on the graph the earlier ones left. */
  function Construct(g: Graph, dims: seq<nat>, fill: Initializer): (r: Result<Built>)
    requires Valid(g) && InitializerOk(g, fill)
    ensures r.Err? <==> |dims| == 0
    ensures r.Err? ==> r.error == EmptyDims
    ensures r.Ok? ==> BuiltOk(g, r.value) && r.value.tensor.dims == dims
  {
    if |dims| == 0 then Err(EmptyDims)
    else
      var m := Thread(g, CoordList(dims), FillCall(g, fill));
      Ok(Built(m.graph, Tensor(dims, m.handles)))
  }

  /** The graph as the constructor has grown it when it reaches offset `o`. */
  function ConstructBefore(g: Graph, dims: seq<nat>, fill: Initializer, o: nat): (r: Graph)
    requires Valid(g) && InitializerOk(g, fill) && o <= Product(dims)
    ensures Valid(r) && Extends(g, r)
  {
    Thread(g, CoordList(dims)[..o], FillCall(g, fill)).graph
  }

  /** The element the constructor leaves at in-bounds coordinates `c` is the
      node `resolveInitializer` gives for `c` on the graph the earlier
      offsets left, and the later offsets keep that node as it was. */
  lemma ConstructAt(g: Graph, dims: seq<nat>, fill: Initializer, c: seq<int>)
    requires Valid(g) && InitializerOk(g, fill) && |dims| > 0 && InBounds(dims, c)
    ensures Construct(g, dims, fill).Ok?
    ensures var before := ConstructBefore(g, dims, fill, Offset(dims, c));
            InitializerOk(before, fill)
    ensures var b := Construct(g, dims, fill).value;
            var s := ResolveInitializer(ConstructBefore(g, dims, fill, Offset(dims, c)), fill, c);
            Extends(s.graph, b.graph) && At(b.tensor, c) == Ok(s.node)
  {
    var o := Offset(dims, c);
    var cs := CoordList(dims);
    var call := FillCall(g, fill);
    UnflattenFlatten(dims, c);
    assert cs[o] == c;
    ThreadAt(g, cs, call, o);
    var before := ConstructBefore(g, dims, fill, o);
    FillCallResolves(g, fill, before, c);
  }

  /** `new Tensor(dims, x)`: offset `o` holds the fresh leaf `|g| + o`, so the
      leaves are distinct and allocated in ascending offset order. */
  lemma ConstructNumber(g: Graph, dims: seq<nat>, x: real)
    requires Valid(g) && |dims| > 0
    ensures Construct(g, dims, Number(x)).Ok?
    ensures var b := Construct(g, dims, Number(x)).value;
            |b.graph| == |g| + Product(dims) &&
            forall o :: 0 <= o < Product(dims) ==>
              b.tensor.data[o] == |g| + o && b.graph[|g| + o] == Node(x, 0.0, Leaf, [])
  {
    var call := FillCall(g, Number(x));
    NumberCall(g, x);
    ThreadRaw(g, CoordList(dims), call, x);
    var m := Thread(g, CoordList(dims), call);
    assert Construct(g, dims, Number(x)) == Ok(Built(m.graph, Tensor(dims, m.handles)));
    assert |CoordList(dims)| == Product(dims);
    forall o | 0 <= o < Product(dims)
      ensures m.handles[o] == |g| + o && m.graph[|g| + o] == Node(x, 0.0, Leaf, [])
    {
    }
  }

  /** A number fill builds nothing and always gives the number. */
  lemma NumberCall(g: Graph, x: real)
    ensures forall g', c :: FillCall(g, Number(x))(g', c) == Outcome(g', Raw(x))
  {
  }

  /** `set`: checks the coordinates first, then stores the node (a raw
      number is wrapped in a fresh leaf). */
  function SetValue(g: Graph, t: Tensor<Handle>, coords: seq<int>, v: Produced): (r: Result<Built>)
    requires Valid(g) && t.Valid() && InGraph(t.data, g) && ProducedIn(v, g)
    ensures r.Ok? <==> InBounds(t.dims, coords)
    ensures r.Err? ==> r.error == Flatten(t.dims, coords).error
    ensures r.Ok? ==> BuiltOk(g, r.value) && r.value.tensor.dims == t.dims
    ensures r.Ok? ==> |r.value.graph| == |g| + (if v.Raw? then 1 else 0)
  {
    var i :- Flatten(t.dims, coords);
    var s := Realize(g, v);
    Ok(Built(s.graph, Tensor(t.dims, t.data[i := s.node])))
  }

  /** After `set(c, v)`, `at(c)` reads the node standing for `v`, and every
      other coordinate reads what it read before. */
  lemma SetValueAt(g: Graph, t: Tensor<Handle>, c: seq<int>, v: Produced, d: seq<int>)
    requires Valid(g) && t.Valid() && InGraph(t.data, g) && ProducedIn(v, g)
    requires InBounds(t.dims, c)
    ensures SetValue(g, t, c, v).Ok?
    ensures var b := SetValue(g, t, c, v).value;
            At(b.tensor, c).Ok? && Realizes(g, b.graph, v, At(b.tensor, c).value)
    ensures d != c ==> At(SetValue(g, t, c, v).value.tensor, d) == At(t, d)
  {
    var s := Realize(g, v);
    assert SetValue(g, t, c, v).value.tensor == Set(t, c, s.node).value;
    SetThenAt(t, c, s.node);
    if d != c {
      SetKeepsOthers(t, c, s.node, d);
    }
  }

  /** A transform of `map` or `forEach`: it sees the graph as the earlier
      calls left it, the element's node and its coordinates. */
  type Transform = (Graph, Handle, seq<nat>) -> Outcome

  /** `f` only appends on every graph grown from `g`. */
  ghost predicate TransformOk(g: Graph, f: Transform)
  {
    forall g', h, c :: Valid(g') && Extends(g, g') ==> OutcomeOk(g', f(g', h, c))
  }

  /** The transform as a call on an element paired with its coordinates. */
  function OnPair(f: Transform): (call: (Graph, (Handle, seq<nat>)) -> Outcome)
  {
    (g': Graph, p: (Handle, seq<nat>)) => f(g', p.0, p.1)
  }

  lemma OnPairOk(g: Graph, f: Transform)
    requires TransformOk(g, f)
    ensures CallOk(g, OnPair(f))
  {
    forall g', p: (Handle, seq<nat>) | Valid(g') && Extends(g, g')
      ensures OutcomeOk(g', OnPair(f)(g', p))
    {
      assert OnPair(f)(g', p) == f(g', p.0, p.1);
    }
  }

  /** Each element paired with its coordinates, in offset order. */
  function Elements(t: Tensor<Handle>): (ps: seq<(Handle, seq<nat>)>)
    requires t.Valid()
    ensures |ps| == |t.data|
    ensures forall o :: 0 <= o < |ps| ==> ps[o] == (t.data[o], Unflatten(t.dims, o))
  {
    seq(|t.data|, o requires 0 <= o < |t.data| => (t.data[o], Unflatten(t.dims, o)))
  }

  /** `map`: the transform of every element and its coordinates, in
      ascending offset order, each call on the graph the earlier ones left;
      a raw result becomes a fresh leaf. */
  function MapNodes(g: Graph, t: Tensor<Handle>, f: Transform): (r: Built)
    requires Valid(g) && t.Valid() && InGraph(t.data, g) && TransformOk(g, f)
    ensures BuiltOk(g, r) && r.tensor.dims == t.dims
  {
    OnPairOk(g, f);
    var m := Thread(g, Elements(t), OnPair(f));
    Built(m.graph, Tensor(t.dims, m.handles))
  }

  /** The graph as `map` has grown it when it reaches offset `o`. */
  function MapBefore(g: Graph, t: Tensor<Handle>, f: Transform, o: nat): (r: Graph)
    requires Valid(g) && t.Valid() && TransformOk(g, f) && o <= |t.data|
    ensures Valid(r) && Extends(g, r)
  {
    OnPairOk(g, f);
    Thread(g, Elements(t)[..o], OnPair(f)).graph
  }

  /** The mapped element at `c` is the node the transform produced for the
      source element at `c` and `c` itself, on the graph the earlier
      elements left; the later calls keep that node as it was. */
  lemma MapNodesAt(g: Graph, t: Tensor<Handle>, f: Transform, c: seq<int>)
    requires Valid(g) && t.Valid() && InGraph(t.data, g) && TransformOk(g, f)
    requires InBounds(t.dims, c)
    ensures At(t, c).Ok?
    ensures var before := MapBefore(g, t, f, Offset(t.dims, c));
            OutcomeOk(before, f(before, At(t, c).value, c))
    ensures var out := f(MapBefore(g, t, f, Offset(t.dims, c)), At(t, c).value, c);
            var s := Realize(out.graph, out.result);
            var r := MapNodes(g, t, f);
            Extends(s.graph, r.graph) && At(r.tensor, c) == Ok(s.node)
  {
    var o := Offset(t.dims, c);
    OnPairOk(g, f);
    var ps := Elements(t);
    UnflattenFlatten(t.dims, c);
    assert ps[o] == (At(t, c).value, c);
    ThreadAt(g, ps, OnPair(f), o);
  }

  /** The transform `x => x.multiply(w)`: a fresh product node of the
      element and `w`. It only runs on graphs holding both. */
  function MultiplyBy(w: Handle): Transform
  {
    (g': Graph, h: Handle, c: seq<nat>) =>
      if Valid(g') && h < |g'| && w < |g'| then
        var s := MulNodes(g', h, w);
        Outcome(s.graph, Existing(s.node))
      else Outcome(g', Raw(0.0))
  }

  lemma MultiplyByOk(g: Graph, w: Handle)
    requires w < |g|
    ensures TransformOk(g, MultiplyBy(w))
  {
    forall g', h, c | Valid(g') && Extends(g, g')
      ensures OutcomeOk(g', MultiplyBy(w)(g', h, c))
    {
      ExtendsRefl(g');
    }
  }

  /** When the transform returns a node it built for the element at `c`,
      the mapped tensor holds that node, as the transform left it. */
  lemma MapNodesAtNew(g: Graph, t: Tensor<Handle>, f: Transform, c: seq<int>, n: Node)
    requires Valid(g) && t.Valid() && InGraph(t.data, g) && TransformOk(g, f)
    requires InBounds(t.dims, c) && At(t, c).Ok?
    requires var before := MapBefore(g, t, f, Offset(t.dims, c));
             var o := f(before, At(t, c).value, c);
             o.result.Existing? && |before| <= o.result.h < |o.graph| && o.graph[o.result.h] == n
    ensures var r := MapNodes(g, t, f);
            At(r.tensor, c).Ok? && At(r.tensor, c).value >= |g| && r.graph[At(r.tensor, c).value] == n
  {
    MapNodesAt(g, t, f, c);
    var out := f(MapBefore(g, t, f, Offset(t.dims, c)), At(t, c).value, c);
    var s := Realize(out.graph, out.result);
    assert s.graph == out.graph && s.node == out.result.h;
    ExtendsAt(s.graph, MapNodes(g, t, f).graph, s.node);
  }

  /** On a graph holding both, the transform appends the product node. */
  lemma MultiplyByAt(g: Graph, e: Handle, w: Handle, c: seq<nat>, de: real, dw: real)
    requires Valid(g) && e < |g| && w < |g| && g[e].data == de && g[w].data == dw
    ensures var o := MultiplyBy(w)(g, e, c);
            o.result.Existing? && |g| <= o.result.h < |o.graph| &&
            o.graph[o.result.h] == Node(de * dw, 0.0, Mul, [e, w])
  {
    var s := MulNodes(g, e, w);
    assert MultiplyBy(w)(g, e, c) == Outcome(s.graph, Existing(s.node));
  }

  /** `t.map(x => x.multiply(w))` builds a product node per element: the
      element at `c` is a new `Mul` node of the source element at `c` and
      `w`, holding their product and no gradient. */
  lemma MapMultiply(g: Graph, t: Tensor<Handle>, w: Handle, c: seq<int>)
    requires Valid(g) && t.Valid() && InGraph(t.data, g) && w < |g|
    requires InBounds(t.dims, c)
    ensures TransformOk(g, MultiplyBy(w)) && At(t, c).Ok?
    ensures At(MapNodes(g, t, MultiplyBy(w)).tensor, c).Ok?
    ensures At(MapNodes(g, t, MultiplyBy(w)).tensor, c).value >= |g|
    ensures var r := MapNodes(g, t, MultiplyBy(w));
            r.graph[At(r.tensor, c).value] == Node(g[At(t, c).value].data * g[w].data, 0.0, Mul, [At(t, c).value, w])
  {
    MultiplyByOk(g, w);
    var before := MapBefore(g, t, MultiplyBy(w), Offset(t.dims, c));
    ExtendsAt(g, before, At(t, c).value);
    ExtendsAt(g, before, w);
    var n := Node(g[At(t, c).value].data * g[w].data, 0.0, Mul, [At(t, c).value, w]);
    MultiplyByAt(before, At(t, c).value, w, c, g[At(t, c).value].data, g[w].data);
    MapNodesAtNew(g, t, MultiplyBy(w), c, n);
  }

  /** One step of `forEach` on node `v`: a raw result overwrites its data; a
      node result overwrites its data and gradient with that node's. */
  function Overwrite(g: Graph, v: Handle, res: Produced): (r: Graph)
    requires v < |g| && ProducedIn(res, g)
    ensures |r| == |g| && r[v].op == g[v].op && r[v].inputs == g[v].inputs
    ensures res.Raw? ==> r[v].data == res.x && r[v].grad == g[v].grad
    ensures res.Existing? ==> r[v].data == g[res.h].data && r[v].grad == g[res.h].grad
    ensures forall x :: 0 <= x < |g| && x != v ==> r[x] == g[x]
  {
    match res
    case Raw(x) => g[v := g[v].(data := x)]
    case Existing(e) => g[v := g[v].(data := g[e].data, grad := g[e].grad)]
  }

  /** `f` only appends on every graph at least as long as `g`: `forEach`
      overwrites nodes, so the graphs it hands on need not be extensions of
      `g`, nor valid. */
  ghost predicate AppendsOnly(g: Graph, f: Transform)
  {
    forall g', h, c :: |g| <= |g'| ==>
      Extends(g', f(g', h, c).graph) && ProducedIn(f(g', h, c).result, f(g', h, c).graph)
  }

  /** `r` keeps the nodes of `g` with their operations and inputs, and may
      have more after them. */
  predicate KeepsStructure(g: Graph, r: Graph)
  {
    |g| <= |r| && forall x :: 0 <= x < |g| ==> r[x].op == g[x].op && r[x].inputs == g[x].inputs
  }

  /** One step of `forEach`: the transform runs on node `v` of `p`, then `v`
      is overwritten with what it returned. */
  function TransformInPlace(p: Graph, f: Transform, v: Handle, c: seq<nat>): (r: Graph)
    requires v < |p| && Extends(p, f(p, v, c).graph) && ProducedIn(f(p, v, c).result, f(p, v, c).graph)
    ensures KeepsStructure(p, r)
    ensures forall x :: 0 <= x < |p| && x != v ==> r[x] == p[x]
  {
    var o := f(p, v, c);
    ExtendsAt(p, o.graph, v);
    var r := Overwrite(o.graph, v, o.result);
    assert forall x :: 0 <= x < |p| ==> o.graph[x] == p[x] by {
      forall x | 0 <= x < |p|
        ensures o.graph[x] == p[x]
      {
        ExtendsAt(p, o.graph, x);
      }
    }
    r
  }

  /** `forEach` over the first `k` offsets: each element's node is handed to
      the transform on the graph the earlier steps left, then overwritten in
      place. */
  function ForEachUpTo(g: Graph, t: Tensor<Handle>, f: Transform, k: nat): (r: Graph)
    requires t.Valid() && InGraph(t.data, g) && k <= |t.data| && AppendsOnly(g, f)
    ensures KeepsStructure(g, r)
    decreases k
  {
    if k == 0 then g
    else
      var p := ForEachUpTo(g, t, f, k - 1);
      TransformInPlace(p, f, t.data[k - 1], Unflatten(t.dims, k - 1))
  }

  /** `forEach`: mutates the tensor's nodes in place; the transform may
      append nodes. */
  function ForEach(g: Graph, t: Tensor<Handle>, f: Transform): (r: Graph)
    requires t.Valid() && InGraph(t.data, g) && AppendsOnly(g, f)
    ensures KeepsStructure(g, r)
    ensures forall x :: 0 <= x < |g| && x !in t.data ==> r[x] == g[x]
  {
    var r := ForEachUpTo(g, t, f, |t.data|);
    assert forall x :: 0 <= x < |g| && x !in t.data ==> r[x] == g[x] by {
      forall x | 0 <= x < |g| && x !in t.data
        ensures r[x] == g[x]
      {
        ForEachKeeps(g, t, f, 0, |t.data|, x);
      }
    }
    r
  }

  /** Step `m` of `forEach`, on the graph the earlier steps left. */
  lemma ForEachStep(g: Graph, t: Tensor<Handle>, f: Transform, m: nat)
    requires t.Valid() && InGraph(t.data, g) && 0 < m <= |t.data| && AppendsOnly(g, f)
    ensures var p := ForEachUpTo(g, t, f, m - 1);
            var o := f(p, t.data[m - 1], Unflatten(t.dims, m - 1));
            Extends(p, o.graph) && t.data[m - 1] < |o.graph| && ProducedIn(o.result, o.graph) &&
            ForEachUpTo(g, t, f, m) == Overwrite(o.graph, t.data[m - 1], o.result)
  {
    var p := ForEachUpTo(g, t, f, m - 1);
    var o := f(p, t.data[m - 1], Unflatten(t.dims, m - 1));
    ExtendsAt(p, o.graph, t.data[m - 1]);
  }

  /** A step that does not touch `x` keeps it as it was. */
  lemma {:induction false} ForEachKeeps(g: Graph, t: Tensor<Handle>, f: Transform, k: nat, m: nat, x: Handle)
    requires t.Valid() && InGraph(t.data, g) && k <= m <= |t.data| && AppendsOnly(g, f)
    requires x < |ForEachUpTo(g, t, f, k)|
    requires x !in t.data[k..m]
    ensures x < |ForEachUpTo(g, t, f, m)| && ForEachUpTo(g, t, f, m)[x] == ForEachUpTo(g, t, f, k)[x]
    decreases m - k
  {
    if k < m {
      assert t.data[k..m] == t.data[k..m - 1] + [t.data[m - 1]];
      ForEachKeeps(g, t, f, k, m - 1, x);
      ForEachStepKeeps(g, t, f, m, x);
    }
  }

  lemma ForEachStepKeeps(g: Graph, t: Tensor<Handle>, f: Transform, m: nat, x: Handle)
    requires t.Valid() && InGraph(t.data, g) && 0 < m <= |t.data| && AppendsOnly(g, f)
    requires x < |ForEachUpTo(g, t, f, m - 1)| && t.data[m - 1] != x
    ensures x < |ForEachUpTo(g, t, f, m)| && ForEachUpTo(g, t, f, m)[x] == ForEachUpTo(g, t, f, m - 1)[x]
  {
  }

  /** With distinct nodes, `forEach` leaves element `k`'s node as its own
      step wrote it: the transform runs on the graph the earlier steps
      left, a number becomes the data with the gradient kept, and a node
      gives its data and gradient. */
  lemma ForEachAt(g: Graph, t: Tensor<Handle>, f: Transform, k: nat)
    requires t.Valid() && InGraph(t.data, g) && k < |t.data| && AppendsOnly(g, f)
    requires NoDuplicates(t.data)
    ensures var p := ForEachUpTo(g, t, f, k);
            var v := t.data[k];
            var o := f(p, v, Unflatten(t.dims, k));
            var r := ForEach(g, t, f);
            v < |p| && Extends(p, o.graph) && ProducedIn(o.result, o.graph) &&
            r[v].op == g[v].op && r[v].inputs == g[v].inputs &&
            (o.result.Raw? ==> r[v].data == o.result.x && r[v].grad == p[v].grad) &&
            (o.result.Existing? ==> r[v].data == o.graph[o.result.h].data && r[v].grad == o.graph[o.result.h].grad)
  {
    var v := t.data[k];
    var p := ForEachUpTo(g, t, f, k);
    var o := f(p, v, Unflatten(t.dims, k));
    ExtendsAt(p, o.graph, v);
    ForEachKeeps(g, t, f, k + 1, |t.data|, v);
    assert t.data[..|t.data|] == t.data;
  }

  /** The transform `x => x.data + 1`, reading the node as it is when the
      transform runs. */
  function PlusOne(): Transform
  {
    (g': Graph, h: Handle, c: seq<nat>) => Outcome(g', Raw((if h < |g'| then g'[h].data else 0.0) + 1.0))
  }

  lemma PlusOneAppendsOnly(g: Graph)
    ensures AppendsOnly(g, PlusOne())
  {
    forall g', h, c | |g| <= |g'|
      ensures Extends(g', PlusOne()(g', h, c).graph)
    {
      ExtendsRefl(g');
    }
  }

  /** A node held twice is transformed twice: `forEach(x => x.data + 1)` on
      a tensor holding node `h` at both positions adds 2 to its data. */
  lemma ForEachRepeatedNode(g: Graph, h: Handle)
    requires h < |g|
    ensures var t := Tensor([2], [h, h]);
            t.Valid() && AppendsOnly(g, PlusOne()) && ForEach(g, t, PlusOne())[h].data == g[h].data + 2.0
  {
    var t := Tensor([2], [h, h]);
    assert Product([2]) == 2;
    PlusOneAppendsOnly(g);
    var g1 := ForEachUpTo(g, t, PlusOne(), 1);
    assert g1 == ForEachUpTo(g, t, PlusOne(), 0)[h := g[h].(data := g[h].data + 1.0)];
    assert ForEach(g, t, PlusOne()) == ForEachUpTo(g, t, PlusOne(), 2);
  }

  /** `zero_grad` over a list of nodes. */
  function ZeroGrads(g: Graph, hs: seq<Handle>): (r: Graph)
    requires InGraph(hs, g)
    ensures SameShape(g, r)
    ensures forall x :: 0 <= x < |g| ==> r[x].grad == (if x in hs then 0.0 else g[x].grad)
    decreases |hs|
  {
    if |hs| == 0 then g
    else
      var r := ZeroGrads(g[hs[0] := g[hs[0]].(grad := 0.0)], hs[1..]);
      assert forall x :: x in hs <==> x == hs[0] || x in hs[1..];
      r
  }

  /** `zero_grad`: every node of the tensor gets gradient 0; nothing else
      changes. */
  function ZeroGrad(g: Graph, t: Tensor<Handle>): (r: Graph)
    requires InGraph(t.data, g)
    ensures SameShape(g, r)
    ensures forall x :: 0 <= x < |g| ==> r[x].grad == (if x in t.data then 0.0 else g[x].grad)
  {
    ZeroGrads(g, t.data)
  }

  /** Zeroing twice is zeroing once. */
  lemma ZeroGradIdempotent(g: Graph, t: Tensor<Handle>)
    requires InGraph(t.data, g)
    ensures ZeroGrad(ZeroGrad(g, t), t) == ZeroGrad(g, t)
  {
    var once := ZeroGrad(g, t);
    var twice := ZeroGrad(once, t);
    assert forall x :: 0 <= x < |g| ==> twice[x] == once[x];
  }

  /** Sum of the data of a list of nodes (reference definition). */
  function DataSum(g: Graph, hs: seq<Handle>): real
    requires InGraph(hs, g)
  {
    if |hs| == 0 then 0.0 else g[hs[0]].data + DataSum(g, hs[1..])
  }

  lemma {:induction false} DataSumExtends(g: Graph, r: Graph, hs: seq<Handle>)
    requires InGraph(hs, g) && Extends(g, r)
    ensures InGraph(hs, r) && DataSum(r, hs) == DataSum(g, hs)
  {
    if |hs| > 0 {
      ExtendsAt(g, r, hs[0]);
      DataSumExtends(g, r, hs[1..]);
    }
  }

  /** `hs.reduce((acc, cur) => acc.add(cur), acc)`: one fresh sum node per
      element, each adding the next element to the previous sum. */
  function AddChain(g: Graph, acc: Handle, hs: seq<Handle>): (r: Step)
    requires Valid(g) && acc < |g| && InGraph(hs, g)
    ensures Valid(r.graph) && Extends(g, r.graph) && r.node < |r.graph|
    ensures |r.graph| == |g| + |hs|
    ensures r.graph[r.node].data == g[acc].data + DataSum(g, hs)
    ensures |hs| > 0 ==> r.node == |g| + |hs| - 1 && r.graph[r.node].grad == 0.0 && r.graph[r.node].op == Add
    decreases |hs|
  {
    if |hs| == 0 then Step(g, acc)
    else
      var s := AddNodes(g, acc, hs[0]);
      DataSumExtends(g, s.graph, hs[1..]);
      var r := AddChain(s.graph, s.node, hs[1..]);
      ExtendsTrans(g, s.graph, r.graph);
      r
  }

  /** `sum(start)`: a fresh leaf holding `start ?? 0`, then the add chain
      over the elements in storage order. */
  function TensorSum(g: Graph, t: Tensor<Handle>, start: Option<real>): (r: Step)
    requires Valid(g) && t.Valid() && InGraph(t.data, g)
    ensures Valid(r.graph) && Extends(g, r.graph) && r.node < |r.graph|
    ensures |r.graph| == |g| + 1 + |t.data| && r.node == |r.graph| - 1
    ensures r.graph[r.node].data == start.GetOr(0.0) + DataSum(g, t.data)
    ensures r.graph[r.node].grad == 0.0
  {
    var s0 := NewValue(g, start.GetOr(0.0));
    DataSumExtends(g, s0.graph, t.data);
    var r := AddChain(s0.graph, s0.node, t.data);
    ExtendsTrans(g, s0.graph, r.graph);
    r
  }
}
