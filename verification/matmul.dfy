/** The naive matrix product of matt-torch.ts. It reads operand data as
    plain numbers and writes every partial sum back with `set`, so each
    result cell ends as a fresh leaf holding the dot product, with no link
    to the operands' nodes. */
module MatrixProduct {
  import opened Wrappers
  import opened Shape
  import opened Tensors
  import opened Autograd
  import opened NodeTensors

  /** A rank-2 tensor whose handles name nodes of `g`. */
  predicate IsMatrix(g: Graph, t: Tensor<Handle>)
  {
    t.Valid() && |t.dims| == 2 && InGraph(t.data, g)
  }

  /** The offset of row `i`, column `j` in a rank-2 tensor is `i * n + j`,
      and distinct in-bounds cells have distinct offsets. */
  lemma MatrixOffset(dims: seq<nat>, i: nat, j: nat)
    requires |dims| == 2 && i < dims[0] && j < dims[1]
    ensures InBounds(dims, [i, j])
    ensures Offset(dims, [i, j]) == i * dims[1] + j < Product(dims)
    ensures Flatten(dims, [i, j]) == Ok(i * dims[1] + j)
  {
    assert Strides(dims) == [Product(dims[1..])] + Strides(dims[1..]);
    assert dims[1..] == [dims[1]] && Product([dims[1]]) == dims[1];
    assert Strides([dims[1]]) == [1];
    assert [i, j][1..] == [j] && [dims[1], 1][1..] == [1];
    assert Dot([j], [1]) == j;
    assert Dot([i, j], [dims[1], 1]) == i * dims[1] + j;
  }

  lemma MatrixOffsetInjective(dims: seq<nat>, i: nat, j: nat, i': nat, j': nat)
    requires |dims| == 2 && i < dims[0] && j < dims[1] && i' < dims[0] && j' < dims[1]
    requires i != i' || j != j'
    ensures i * dims[1] + j != i' * dims[1] + j'
  {
    MatrixOffset(dims, i, j);
    MatrixOffset(dims, i', j');
    UnflattenFlatten(dims, [i, j]);
    UnflattenFlatten(dims, [i', j']);
  }

  /** The handle at row `i`, column `j`. */
  function Cell(t: Tensor<Handle>, i: nat, j: nat): Handle
    requires t.Valid() && |t.dims| == 2 && i < t.dims[0] && j < t.dims[1]
  {
    MatrixOffset(t.dims, i, j);
    t.data[i * t.dims[1] + j]
  }

  lemma CellIn(g: Graph, t: Tensor<Handle>, i: nat, j: nat)
    requires IsMatrix(g, t) && i < t.dims[0] && j < t.dims[1]
    ensures Cell(t, i, j) < |g|
  {
    MatrixOffset(t.dims, i, j);
  }

  /** `t.at([i, j])` reads the cell. */
  lemma CellAt(t: Tensor<Handle>, i: nat, j: nat)
    requires t.Valid() && |t.dims| == 2 && i < t.dims[0] && j < t.dims[1]
    ensures At(t, [i, j]) == Ok(Cell(t, i, j))
  {
    MatrixOffset(t.dims, i, j);
  }

  /** The data at row `i`, column `j`. */
  function Entry(g: Graph, t: Tensor<Handle>, i: nat, j: nat): real
    requires IsMatrix(g, t) && i < t.dims[0] && j < t.dims[1]
  {
    CellIn(g, t, i, j);
    g[Cell(t, i, j)].data
  }

  /** Two matrices of `g` whose inner sizes agree. */
  predicate Operands(g: Graph, a: Tensor<Handle>, b: Tensor<Handle>)
  {
    IsMatrix(g, a) && IsMatrix(g, b) && a.dims[1] == b.dims[0]
  }

  /** `a[i, 0] * b[0, j] + ... + a[i, k - 1] * b[k - 1, j]`, added from the
      left (reference definition). */
  function InnerUpTo(g: Graph, a: Tensor<Handle>, b: Tensor<Handle>, i: nat, j: nat, k: nat): real
    requires Operands(g, a, b) && i < a.dims[0] && j < b.dims[1] && k <= a.dims[1]
  {
    if k == 0 then 0.0
    else InnerUpTo(g, a, b, i, j, k - 1) + Entry(g, a, i, k - 1) * Entry(g, b, k - 1, j)
  }

  /** Entry `(i, j)` of the matrix product: row `i` of `a` times column `j`
      of `b`. */
  function ProductEntry(g: Graph, a: Tensor<Handle>, b: Tensor<Handle>, i: nat, j: nat): real
    requires Operands(g, a, b) && i < a.dims[0] && j < b.dims[1]
  {
    InnerUpTo(g, a, b, i, j, a.dims[1])
  }

  lemma EntryExtends(g: Graph, r: Graph, t: Tensor<Handle>, i: nat, j: nat)
    requires IsMatrix(g, t) && Extends(g, r) && i < t.dims[0] && j < t.dims[1]
    ensures IsMatrix(r, t) && Entry(r, t, i, j) == Entry(g, t, i, j)
  {
    CellIn(g, t, i, j);
    ExtendsAt(g, r, Cell(t, i, j));
  }

  lemma {:induction false} InnerUpToExtends(g: Graph, r: Graph, a: Tensor<Handle>, b: Tensor<Handle>, i: nat, j: nat, k: nat)
    requires Operands(g, a, b) && Extends(g, r) && i < a.dims[0] && j < b.dims[1] && k <= a.dims[1]
    ensures Operands(r, a, b) && InnerUpTo(r, a, b, i, j, k) == InnerUpTo(g, a, b, i, j, k)
  {
    assert InGraph(a.data, r) && InGraph(b.data, r);
    if k > 0 {
      EntryExtends(g, r, a, i, k - 1);
      EntryExtends(g, r, b, k - 1, j);
      InnerUpToExtends(g, r, a, b, i, j, k - 1);
    }
  }

  /** The result matrix under construction: shape `[m, n]` for `a` of shape
      `[m, p]` and `b` of shape `[p, n]`. */
  predicate Shaped(g: Graph, a: Tensor<Handle>, b: Tensor<Handle>, res: Tensor<Handle>)
  {
    Operands(g, a, b) && IsMatrix(g, res) && res.dims == [a.dims[0], b.dims[1]]
  }

  /** Cell `(i, j)` of `res` is a leaf with gradient 0 holding `x`. */
  predicate LeafAt(g: Graph, res: Tensor<Handle>, i: nat, j: nat, x: real)
    requires IsMatrix(g, res) && i < res.dims[0] && j < res.dims[1]
  {
    CellIn(g, res, i, j);
    g[Cell(res, i, j)] == Node(x, 0.0, Leaf, [])
  }

  /** Every cell of `t` other than `(i, j)` holds the handle it holds in `u`. */
  predicate OthersKept(t: Tensor<Handle>, u: Tensor<Handle>, i: nat, j: nat)
    requires t.Valid() && u.Valid() && |t.dims| == 2 && u.dims == t.dims
  {
    forall i', j' :: 0 <= i' < t.dims[0] && 0 <= j' < t.dims[1] && (i' != i || j' != j) ==>
      Cell(t, i', j') == Cell(u, i', j')
  }

  /** `set([i, j], v)` on a matrix stores the node standing for `v` at offset
      `i * n + j`. */
  lemma SetCell(g: Graph, res: Tensor<Handle>, i: nat, j: nat, v: Produced)
    requires Valid(g) && IsMatrix(g, res) && i < res.dims[0] && j < res.dims[1] && ProducedIn(v, g)
    ensures SetValue(g, res, [i, j], v).Ok?
    ensures i * res.dims[1] + j < |res.data|
    ensures var s := Realize(g, v);
            SetValue(g, res, [i, j], v).value == Built(s.graph, Tensor(res.dims, res.data[i * res.dims[1] + j := s.node]))
  {
    MatrixOffset(res.dims, i, j);
  }

  /** Replacing the handle at offset `i * n + j` changes cell `(i, j)` only. */
  lemma StoreCell(res: Tensor<Handle>, i: nat, j: nat, h: Handle)
    requires res.Valid() && |res.dims| == 2 && i < res.dims[0] && j < res.dims[1]
    requires i * res.dims[1] + j < |res.data|
    ensures var t := Tensor(res.dims, res.data[i * res.dims[1] + j := h]);
            t.Valid() && Cell(t, i, j) == h && OthersKept(t, res, i, j)
  {
    var t := Tensor(res.dims, res.data[i * res.dims[1] + j := h]);
    forall i', j' | 0 <= i' < res.dims[0] && 0 <= j' < res.dims[1] && (i' != i || j' != j)
      ensures Cell(t, i', j') == Cell(res, i', j')
    {
      MatrixOffsetInjective(res.dims, i, j, i', j');
      MatrixOffset(res.dims, i', j');
    }
  }

  /** One pass of the inner loop: `result.set([i, j], result.at([i, j]).data
      + a.at([i, k]).data * b.at([k, j]).data)`. The cell becomes a fresh
      leaf holding the new partial sum; every other cell keeps its handle. */
  method AddProduct(g: Graph, a: Tensor<Handle>, b: Tensor<Handle>, res: Tensor<Handle>, i: nat, j: nat, k: nat)
    returns (s: Built)
    requires Valid(g) && Shaped(g, a, b, res) && i < a.dims[0] && j < b.dims[1] && k < a.dims[1]
    ensures BuiltOk(g, s) && Shaped(s.graph, a, b, s.tensor)
    ensures LeafAt(s.graph, s.tensor, i, j, Entry(g, res, i, j) + Entry(g, a, i, k) * Entry(g, b, k, j))
    ensures Cell(s.tensor, i, j) == |g|
    ensures OthersKept(s.tensor, res, i, j)
  {
    var cur := Entry(g, res, i, j);
    var add := Entry(g, a, i, k) * Entry(g, b, k, j);
    SetCell(g, res, i, j, Raw(cur + add));
    s := SetValue(g, res, [i, j], Raw(cur + add)).value;
    StoreCell(res, i, j, |g|);
  }

  /** The innermost loop for cell `(i, j)`, starting from its zero leaf:
      after it the cell is a fresh leaf holding the entry of the product. */
  method CellProduct(g: Graph, a: Tensor<Handle>, b: Tensor<Handle>, res: Tensor<Handle>, i: nat, j: nat)
    returns (r: Built)
    requires Valid(g) && Shaped(g, a, b, res) && i < a.dims[0] && j < b.dims[1]
    requires LeafAt(g, res, i, j, 0.0)
    ensures BuiltOk(g, r) && Shaped(r.graph, a, b, r.tensor)
    ensures LeafAt(r.graph, r.tensor, i, j, ProductEntry(g, a, b, i, j))
    ensures Cell(r.tensor, i, j) == Cell(res, i, j) || Cell(r.tensor, i, j) >= |g|
    ensures OthersKept(r.tensor, res, i, j)
  {
    r := Built(g, res);
    var k := 0;
    while k < a.dims[1]
      invariant 0 <= k <= a.dims[1]
      invariant BuiltOk(g, r) && Shaped(r.graph, a, b, r.tensor)
      invariant LeafAt(r.graph, r.tensor, i, j, InnerUpTo(g, a, b, i, j, k))
      invariant Cell(r.tensor, i, j) == Cell(res, i, j) || Cell(r.tensor, i, j) >= |g|
      invariant OthersKept(r.tensor, res, i, j)
    {
      var s := AddProduct(r.graph, a, b, r.tensor, i, j, k);
      CellProductStep(g, a, b, res, i, j, k, r, s);
      r := s;
      k := k + 1;
    }
  }

  lemma CellProductStep(g: Graph, a: Tensor<Handle>, b: Tensor<Handle>, res: Tensor<Handle>, i: nat, j: nat, k: nat, r: Built, s: Built)
    requires Valid(g) && Shaped(g, a, b, res) && i < a.dims[0] && j < b.dims[1] && k < a.dims[1]
    requires BuiltOk(g, r) && Shaped(r.graph, a, b, r.tensor)
    requires LeafAt(r.graph, r.tensor, i, j, InnerUpTo(g, a, b, i, j, k))
    requires OthersKept(r.tensor, res, i, j)
    requires BuiltOk(r.graph, s) && Shaped(s.graph, a, b, s.tensor)
    requires LeafAt(s.graph, s.tensor, i, j, Entry(r.graph, r.tensor, i, j) + Entry(r.graph, a, i, k) * Entry(r.graph, b, k, j))
    requires Cell(s.tensor, i, j) == |r.graph|
    requires OthersKept(s.tensor, r.tensor, i, j)
    ensures BuiltOk(g, s)
    ensures LeafAt(s.graph, s.tensor, i, j, InnerUpTo(g, a, b, i, j, k + 1))
    ensures Cell(s.tensor, i, j) >= |g|
    ensures OthersKept(s.tensor, res, i, j)
  {
    ExtendsTrans(g, r.graph, s.graph);
    EntryExtends(g, r.graph, a, i, k);
    EntryExtends(g, r.graph, b, k, j);
    CellIn(r.graph, r.tensor, i, j);
  }

  /** Cells are filled row by row, each row left to right: `(i', j')` comes
      before `(i, j)`. */
  predicate Before(i': nat, j': nat, i: nat, j: nat)
  {
    i' < i || (i' == i && j' < j)
  }

  /** What cell `(i', j')` holds when the loops stand at `(i, j)`: the
      product entry once filled, the initial 0 before. */
  function Target(g0: Graph, a: Tensor<Handle>, b: Tensor<Handle>, i': nat, j': nat, i: nat, j: nat): real
    requires Operands(g0, a, b) && i' < a.dims[0] && j' < b.dims[1]
  {
    if Before(i', j', i, j) then ProductEntry(g0, a, b, i', j') else 0.0
  }

  /** The loop invariant of `multiply`: every cell is a leaf allocated after
      `g0` holding its target, the operands being read in `g0`. */
  predicate Progress(g0: Graph, a: Tensor<Handle>, b: Tensor<Handle>, g: Graph, t: Tensor<Handle>, i: nat, j: nat)
    requires Operands(g0, a, b) && Shaped(g, a, b, t)
  {
    forall i', j' :: 0 <= i' < a.dims[0] && 0 <= j' < b.dims[1] ==>
      LeafAt(g, t, i', j', Target(g0, a, b, i', j', i, j)) && Cell(t, i', j') >= |g0|
  }

  /** `new Tensor([m, n], 0)`: every cell starts as its own fresh leaf
      holding 0. */
  method Zeros(g: Graph, a: Tensor<Handle>, b: Tensor<Handle>) returns (z: Built)
    requires Valid(g) && Operands(g, a, b)
    ensures BuiltOk(g, z) && Shaped(z.graph, a, b, z.tensor)
    ensures Progress(g, a, b, z.graph, z.tensor, 0, 0)
  {
    ZerosStart(g, a, b);
    z := Construct(g, [a.dims[0], b.dims[1]], Number(0.0)).value;
  }

  lemma ZerosStart(g: Graph, a: Tensor<Handle>, b: Tensor<Handle>)
    requires Valid(g) && Operands(g, a, b)
    ensures Construct(g, [a.dims[0], b.dims[1]], Number(0.0)).Ok?
    ensures var z := Construct(g, [a.dims[0], b.dims[1]], Number(0.0)).value;
            BuiltOk(g, z) && Shaped(z.graph, a, b, z.tensor) &&
            Progress(g, a, b, z.graph, z.tensor, 0, 0)
  {
    var dims := [a.dims[0], b.dims[1]];
    ConstructNumber(g, dims, 0.0);
    var z := Construct(g, dims, Number(0.0)).value;
    assert InGraph(a.data, z.graph) && InGraph(b.data, z.graph);
    forall i', j' | 0 <= i' < a.dims[0] && 0 <= j' < b.dims[1]
      ensures LeafAt(z.graph, z.tensor, i', j', Target(g, a, b, i', j', 0, 0)) && Cell(z.tensor, i', j') >= |g|
    {
      MatrixOffset(dims, i', j');
    }
  }

  /** Filling cell `(i, j)` moves the invariant to the next cell of the row. */
  lemma ProgressStep(g0: Graph, a: Tensor<Handle>, b: Tensor<Handle>, cur: Built, c: Built, i: nat, j: nat)
    requires Operands(g0, a, b) && i < a.dims[0] && j < b.dims[1]
    requires BuiltOk(g0, cur) && Shaped(cur.graph, a, b, cur.tensor)
    requires Progress(g0, a, b, cur.graph, cur.tensor, i, j)
    requires BuiltOk(cur.graph, c) && Shaped(c.graph, a, b, c.tensor)
    requires LeafAt(c.graph, c.tensor, i, j, ProductEntry(cur.graph, a, b, i, j))
    requires Cell(c.tensor, i, j) == Cell(cur.tensor, i, j) || Cell(c.tensor, i, j) >= |cur.graph|
    requires OthersKept(c.tensor, cur.tensor, i, j)
    ensures BuiltOk(g0, c)
    ensures Progress(g0, a, b, c.graph, c.tensor, i, j + 1)
  {
    ExtendsTrans(g0, cur.graph, c.graph);
    InnerUpToExtends(g0, cur.graph, a, b, i, j, a.dims[1]);
    var next := j + 1;
    forall i', j' | 0 <= i' < a.dims[0] && 0 <= j' < b.dims[1]
      ensures LeafAt(c.graph, c.tensor, i', j', Target(g0, a, b, i', j', i, next)) && Cell(c.tensor, i', j') >= |g0|
    {
      if i' != i || j' != j {
        assert LeafAt(cur.graph, cur.tensor, i', j', Target(g0, a, b, i', j', i, j));
        CellIn(cur.graph, cur.tensor, i', j');
        ExtendsAt(cur.graph, c.graph, Cell(cur.tensor, i', j'));
      }
    }
  }

  /** A finished row: standing at the end of row `i` is standing at the
      start of row `i + 1`. */
  lemma ProgressRow(g0: Graph, a: Tensor<Handle>, b: Tensor<Handle>, g: Graph, t: Tensor<Handle>, i: nat)
    requires Operands(g0, a, b) && Shaped(g, a, b, t)
    requires Progress(g0, a, b, g, t, i, b.dims[1])
    ensures Progress(g0, a, b, g, t, i + 1, 0)
  {
    var next := i + 1;
    forall i', j' | 0 <= i' < a.dims[0] && 0 <= j' < b.dims[1]
      ensures LeafAt(g, t, i', j', Target(g0, a, b, i', j', next, 0)) && Cell(t, i', j') >= |g0|
    {
      assert LeafAt(g, t, i', j', Target(g0, a, b, i', j', i, b.dims[1]));
    }
  }

  /** The two inner loops for row `i`: every cell of the row is filled in
      turn. */
  method FillRow(g0: Graph, a: Tensor<Handle>, b: Tensor<Handle>, start: Built, i: nat) returns (cur: Built)
    requires Valid(g0) && Operands(g0, a, b) && i < a.dims[0]
    requires BuiltOk(g0, start) && Shaped(start.graph, a, b, start.tensor)
    requires Progress(g0, a, b, start.graph, start.tensor, i, 0)
    ensures BuiltOk(g0, cur) && Shaped(cur.graph, a, b, cur.tensor)
    ensures Progress(g0, a, b, cur.graph, cur.tensor, i + 1, 0)
  {
    cur := start;
    var j := 0;
    while j < b.dims[1]
      invariant 0 <= j <= b.dims[1]
      invariant BuiltOk(g0, cur) && Shaped(cur.graph, a, b, cur.tensor)
      invariant Progress(g0, a, b, cur.graph, cur.tensor, i, j)
    {
      assert LeafAt(cur.graph, cur.tensor, i, j, Target(g0, a, b, i, j, i, j));
      var c := CellProduct(cur.graph, a, b, cur.tensor, i, j);
      ProgressStep(g0, a, b, cur, c, i, j);
      cur := c;
      j := j + 1;
    }
    ProgressRow(g0, a, b, cur.graph, cur.tensor, i);
  }

  /** Past the last row every cell holds its product entry. */
  lemma ProgressDone(g0: Graph, a: Tensor<Handle>, b: Tensor<Handle>, g: Graph, t: Tensor<Handle>)
    requires Operands(g0, a, b) && Shaped(g, a, b, t)
    requires Progress(g0, a, b, g, t, a.dims[0], 0)
    ensures forall i, j :: 0 <= i < a.dims[0] && 0 <= j < b.dims[1] ==>
              LeafAt(g, t, i, j, ProductEntry(g0, a, b, i, j)) && Cell(t, i, j) >= |g0|
  {
    forall i, j | 0 <= i < a.dims[0] && 0 <= j < b.dims[1]
      ensures LeafAt(g, t, i, j, ProductEntry(g0, a, b, i, j)) && Cell(t, i, j) >= |g0|
    {
      assert LeafAt(g, t, i, j, Target(g0, a, b, i, j, a.dims[0], 0));
    }
  }

  /** `multiply(a, b)`: rejects operands that are not both of rank 2, then
      operands whose inner sizes differ; otherwise every cell of the
      `[m, n]` result is a leaf allocated after `g`, with gradient 0 and no
      inputs, holding the entry of the product computed from the operands'
      data in `g`: no path leads from the result back to the operands. */
  method MatMul(g: Graph, a: Tensor<Handle>, b: Tensor<Handle>) returns (r: Result<Built>)
    requires Valid(g) && a.Valid() && b.Valid() && InGraph(a.data, g) && InGraph(b.data, g)
    ensures r.Err? <==> |a.dims| != 2 || |b.dims| != 2 || a.dims[1] != b.dims[0]
    ensures |a.dims| != 2 || |b.dims| != 2 ==> r == Err(NotMatrix)
    ensures |a.dims| == 2 && |b.dims| == 2 && a.dims[1] != b.dims[0] ==>
              r == Err(InnerMismatch(a.dims[1], b.dims[0]))
    ensures r.Ok? ==> BuiltOk(g, r.value) && Shaped(r.value.graph, a, b, r.value.tensor)
    ensures r.Ok? ==> forall i, j :: 0 <= i < a.dims[0] && 0 <= j < b.dims[1] ==>
              LeafAt(r.value.graph, r.value.tensor, i, j, ProductEntry(g, a, b, i, j)) &&
              Cell(r.value.tensor, i, j) >= |g|
  {
    if |a.dims| != 2 || |b.dims| != 2 {
      return Err(NotMatrix);
    }
    if a.dims[1] != b.dims[0] {
      return Err(InnerMismatch(a.dims[1], b.dims[0]));
    }
    var cur := Zeros(g, a, b);
    var i := 0;
    while i < a.dims[0]
      invariant 0 <= i <= a.dims[0]
      invariant BuiltOk(g, cur) && Shaped(cur.graph, a, b, cur.tensor)
      invariant Progress(g, a, b, cur.graph, cur.tensor, i, 0)
    {
      cur := FillRow(g, a, b, cur, i);
      i := i + 1;
    }
    ProgressDone(g, a, b, cur.graph, cur.tensor);
    r := Ok(cur);
  }
}
