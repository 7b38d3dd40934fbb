# mattgpt tensor and autograd core, in Dafny

A model of the core of mattgpt, a small TypeScript deep-learning playground, with proofs about it. The core has three parts.

- **The strided tensor** (`structures/Tensor.ts`). It is a shape plus a flat row-major storage. The model covers:
  - the stride table;
  - `flatten`/`unflatten` between coordinate tuples and offsets;
  - the constructor and its initializers;
  - `at`, `set`, `vrow`, `row`, `map`, `forEach`, `sum` and `zero_grad`;
  - the Python-like `slice`;
  - the group-wise `normalize`.
- **The scalar autograd node** (`structures/Value.ts`).
  - Nodes live in an arena. A `Graph` is a sequence of `Node(data, grad, op, inputs)` addressed by `nat` handles.
  - An operation appends a node whose inputs are earlier handles, so the graph is acyclic by construction.
  - The closures the source attaches as `_backward` become an op tag (`Leaf | Add | Mul | Pow(n)`) and one local rule per tag.
  - `backward` is the depth-first post-order topological sort with a visited set, then the reverse sweep.
- **The free helpers** (`matt-torch.ts`): `zip`, `sum`, `oneHot`, `valuize`, `loss` and the naive rank-2 matrix `multiply`.

Modules:

| module | file | models |
|---|---|---|
| `Wrappers` | `wrappers.dfy` | `Option`, `Result`, and the error kinds the source throws |
| `Shape` | `shape.dfy` | strides, `flatten`, `unflatten` |
| `Tensors` | `tensor.dfy` | the container, generic in its element type |
| `Slicing` | `slice.dfy` | `slice` |
| `Autograd` | `value.dfy` | nodes and the forward operations |
| `Backprop` | `backward.dfy` | `backward` |
| `NodeTensors` | `nodes.dfy` | the tensor operations that allocate or mutate nodes |
| `Normalization` | `normalize.dfy` | `normalize` |
| `ListHelpers` | `helpers.dfy` | `zip`, `sum`, `oneHot` |
| `NodeHelpers` | `losses.dfy` | `valuize`, `loss` |
| `MatrixProduct` | `matmul.dfy` | the matrix `multiply` |

How the source's behaviour is represented:

- Every `throw` of the source is an `Err` carrying the kind of error.
- A raw number handed where a node is expected becomes a fresh leaf, as `new Value(x)` does.
- Numbers are mathematical reals.
- The source's reference identity of `Value` objects is handle identity.
- Mutating a node in place (`forEach`, `zero_grad`, `backward`) returns the updated graph.
- A callback is a function of the graph as it stands. This covers the constructor's generator and the transforms of `map` and `forEach`. The callback returns an `Outcome`: the graph with the nodes it built appended, and its result. Elements are handled in ascending offset order, and each call sees the graph the earlier calls left.

## Model

| member | source | states |
|---|---|---|
| Shape.BuildStrides | structures/Tensor.ts:417-427 | Filling the table right to left with a running product gives the stride table. The last axis has stride 1, and `strides[i-1] == strides[i] * dims[i]`. |
| Shape.StrideAt | structures/Tensor.ts:417-427 | The stride of axis `i` is the product of the sizes to its right. |
| Shape.Flatten | structures/Tensor.ts:375-397 | Fails with an arity error exactly when the coordinate count differs from the rank. Otherwise fails, reporting the first out-of-range coordinate, exactly when one is out of range. On success returns `Σ c[i]*strides[i]`, which is below the size. |
| Shape.Unflatten | structures/Tensor.ts:402-413 | The divide/mod cascade of an offset below the size gives an in-bounds coordinate tuple. |
| Shape.FlattenUnflatten | structures/Tensor.ts:375-413 | Round trip: `flatten(unflatten(o)) == o` for every offset below the size. |
| Shape.UnflattenFlatten | structures/Tensor.ts:375-413 | Round trip: `unflatten(flatten(c)) == c` for every in-bounds `c`. |
| Shape.FlattenInjective | structures/Tensor.ts:375-397 | Distinct in-bounds tuples have distinct offsets. |
| Tensors.Build | structures/Tensor.ts:28-43 | The fill loop rejects empty `dims`. Otherwise the storage holds exactly `count()` elements, and offset `o` holds the fill of `unflatten(o)`. |
| Tensors.BuildAt | structures/Tensor.ts:28-43 | Reading a built tensor at any in-bounds `c` gives the fill of `c`. |
| Tensors.At | structures/Tensor.ts:131-134 | Succeeds exactly for in-bounds coordinates and reads the element at their offset. Otherwise it reports `flatten`'s error. |
| Tensors.Set | structures/Tensor.ts:187-190 | Succeeds exactly for in-bounds coordinates, keeping the shape. Otherwise it reports `flatten`'s error. |
| Tensors.SetThenAt | structures/Tensor.ts:187-190 | After `set(c, v)`, `at(c)` reads `v`. |
| Tensors.SetKeepsOthers | structures/Tensor.ts:187-190 | After `set(c, v)`, every other coordinate reads what it read before. |
| Tensors.VRow | structures/Tensor.ts:147-156 | A prefix of the wrong length is rejected. The call succeeds exactly when `prefix + [0]` is in bounds, and returns the contiguous run of last-axis length starting at that offset. |
| Tensors.VRowAt | structures/Tensor.ts:147-156 | Element `k` of the row is what `at(prefix + [k])` reads. |
| Tensors.Row | structures/Tensor.ts:161-168 | Succeeds exactly when `vrow` does. The result is a rank-1 tensor of last-axis length whose `[k]` reads the source's `prefix + [k]`. |
| Tensors.Map | structures/Tensor.ts:198-209 | The result has the same shape. |
| Tensors.MapAt | structures/Tensor.ts:198-209 | The mapped tensor at `c` is the transform of the source element at `c` together with `c`. |
| Slicing.SliceIndices | structures/Tensor.ts:237-261 | Every selected position lies in `[0, length]`. With a positive step every position is below `length`. |
| Slicing.SliceIndicesWalk | structures/Tensor.ts:237-261 | The selection starts at the normalised, clamped start and advances by `step`. It stops at the first position at or past the normalised end, walking ascending for `step > 0` and descending for `step < 0`. |
| Slicing.NegativeStartCountsFromEnd | structures/Tensor.ts:246-249 | `{start: -3}` on an axis of 10 selects 7, 8, 9, the same as `{start: 7}`. |
| Slicing.NegativeStepDefaultStartIsEmpty | structures/Tensor.ts:238-260 | A negative step with the default start of 0 selects nothing. |
| Slicing.NegativeStepDefaultEndIsEmpty | structures/Tensor.ts:239-260 | A negative step with the default end (`length`) selects nothing. |
| Slicing.Slice | structures/Tensor.ts:232-295 | A missing axis and step 0 are rejected with their errors. On success the shape is the source shape with the sliced axis resized to the number of selected positions. |
| Slicing.SliceAt | structures/Tensor.ts:263-293 | Result element `d` is the source element at `d` with `d[axis]` replaced by the `d[axis]`-th selected position. |
| Slicing.GatherContents | structures/Tensor.ts:270-293 | The recursive copy, once complete, holds at each destination offset the source element at that offset's source coordinates. |
| Slicing.GatherFirstError | structures/Tensor.ts:274 | A failed copy reports the `at` error of the first destination offset whose source coordinates are out of bounds. |
| Slicing.SliceFailsIff | structures/Tensor.ts:248-274 | A slice on a valid axis with a nonzero step fails exactly when the result is non-empty and position `length` was selected. It then fails with `OutOfBounds(length, length)`. |
| Slicing.NegativeStepSelectsLength | structures/Tensor.ts:248-274 | As written, `{start: 5, end: 0, step: -1}` on an axis of 3 selects 3, 2, 1, and the slice fails. |
| Slicing.NegativeStepNeverReachesZero | structures/Tensor.ts:249-260 | As written, a negative step never selects position 0. `{start: 2, end: -10, step: -1}` on an axis of 3 selects 2, 1. |
| Slicing.FixedSliceSucceeds | structures/Tensor.ts:232-295 | With descending bounds clamped as Python does, a slice fails only for a missing axis or step 0. It agrees with the source for positive steps and selects 2, 1 and 2, 1, 0 on the two inputs above. |
| Autograd.NewValue | structures/Value.ts:9-21 | A new node is a fresh leaf with gradient 0, no parents and the given data. |
| Autograd.AddNodes | structures/Value.ts:31-40 | The data is the sum, the inputs are `[a, b]`, the parent set is `{a, b}`, and the gradient is 0. |
| Autograd.MulNodes | structures/Value.ts:42-51 | The data is the product, the inputs are `[a, b]`, the parent set is `{a, b}`, and the gradient is 0. |
| Autograd.PowNode | structures/Value.ts:53-61 | The data is `a ** n` for integer `n`, and the parent set is `{a}`. An exponent below 1 needs a nonzero base, because the rule's `a ** (n - 1)` divides by it. |
| Autograd.Negative | structures/Value.ts:67-69 | Built by composition, it appends two nodes, the last holding `-a`. |
| Autograd.Subtract | structures/Value.ts:71-73 | Built by composition, it appends three nodes, the last holding `a - b`. |
| Autograd.Divide | structures/Value.ts:63-65 | Built by composition, with a nonzero divisor it appends two nodes, the last holding `a / b`. |
| Autograd.PowerMinusOne | structures/Value.ts:63-65 | `pow(-1)` is the reciprocal, so `divide` divides. |
| Backprop.TopoOrder | structures/Value.ts:100-111 | The list `build_topo` produces has no repeats. It holds exactly the nodes reachable from the root, lists every node after its inputs, and ends with the root. |
| Backprop.VisitSpec | structures/Value.ts:102-110 | Visiting a node keeps the DFS invariant. It adds exactly the reachable set of the node and, if the node is new, lists it last. |
| Backprop.AddBackward | structures/Value.ts:34-37 | `add`'s rule adds the output gradient to each input. A repeated input receives it twice. |
| Backprop.MulBackward | structures/Value.ts:45-48 | `multiply`'s rule adds the other operand's data times the output gradient to each input. |
| Backprop.PowBackward | structures/Value.ts:56-58 | `pow`'s rule adds `n * a ** (n - 1)` times the output gradient to the base. |
| Backprop.ApplyRule | structures/Value.ts:113-116 | A node's rule adds, to every node, that node's chain-rule contribution, and changes nothing else. |
| Backprop.RunBackward | structures/Value.ts:113-116 | The imperative reverse loop over the list computes the recursive sweep of the seeded graph. |
| Backprop.BackwardSeedsAndFrames | structures/Value.ts:99-117 | After `backward` the root's gradient is exactly 1, an overwrite. Every node the root does not reach keeps its gradient. |
| Backprop.BackwardOneOpGrad | structures/Value.ts:99-117 | On one operation over leaves, each node gains exactly its contribution from the seeded root. |
| Backprop.BackwardTwiceOneOp | structures/Value.ts:99-117 | On one operation over leaves, a second `backward` without zeroing adds every non-root contribution again. |
| Backprop.SweepShift | structures/Value.ts:113-116 | Extra gradient at a node before the reverse sweep is still exactly that much extra at the end: the rules use `+=`, and no rule run after a node's own feeds it. |
| Backprop.BackwardAccumulates | structures/Value.ts:99-117 | For every graph and every node but the root, `backward` ends with the node's old gradient plus an amount that does not depend on that old gradient. |
| Backprop.BackwardTwiceCompounds | structures/Value.ts:99-117 | On `r = (a * 2) * 3` with `a = 1`, the first `backward` gives `a.grad == 6` and `m.grad == 3`. The second, without zeroing, gives `a.grad == 18`, not 12, because `m`'s rule reads `m`'s accumulated gradient. |
| Backprop.AddSelfGradient | structures/Value.ts:31-40 | `a.add(a).backward()` leaves `a.grad == 2`. |
| Backprop.MulGradient | structures/Value.ts:42-51 | After `backward` on a fresh `a*b`, `a.grad == b.data` and `b.grad == a.data`. |
| Backprop.PowGradient | structures/Value.ts:53-61 | `pow(2, 3)` has data 8, and `backward` gives the base gradient 12. |
| Backprop.MulGradientTwice | structures/Value.ts:42-51 | Two `backward`s on `a*b` give `a.grad == 2 * b.data` and `b.grad == 2 * a.data`, and the root's gradient stays 1. |
| NodeTensors.Realize | structures/Tensor.ts:189 | A node is kept. A raw number becomes one fresh leaf. |
| NodeTensors.ThreadAt | structures/Tensor.ts:39-42 | Element `i`'s callback runs on the graph the first `i` calls left. Its result is stored right after it, a raw number as a fresh leaf. The later calls keep that node as it was. |
| NodeTensors.ResolveInitializer | structures/Tensor.ts:357-372 | A number gives a fresh leaf holding it. A node gives a fresh leaf holding a copy of its data, never the node itself. A function runs on the graph as it stands. Its node result is kept together with the nodes it built. Its number result becomes a fresh leaf after them. |
| NodeTensors.Construct | structures/Tensor.ts:28-43 | The constructor fails exactly for empty `dims`. Otherwise it has that shape and `count()` elements, all nodes of the graph, and it only appends to the graph. |
| NodeTensors.ConstructAt | structures/Tensor.ts:39-41 | The element at in-bounds `c` is the node `resolveInitializer` gives for `c` on the graph the lower offsets left. The higher offsets keep that node as it was. |
| NodeTensors.ConstructNumber | structures/Tensor.ts:28-43 | `new Tensor(dims, x)` puts a distinct fresh leaf holding `x` at every offset, in ascending order. |
| NodeTensors.SetValue | structures/Tensor.ts:187-190 | Fails with `flatten`'s error exactly for out-of-bounds coordinates. Otherwise keeps the shape and allocates one leaf for a raw number and none for a node. |
| NodeTensors.SetValueAt | structures/Tensor.ts:187-190 | After `set(c, v)`, `at(c)` reads the node standing for `v`, and every other coordinate is unchanged. |
| NodeTensors.MapNodes | structures/Tensor.ts:198-209 | Same shape. The graph is only appended to, and every element is a node of it. |
| NodeTensors.MapNodesAt | structures/Tensor.ts:198-209 | The mapped element at `c` is the transform's result for the source node at `c` and `c`, with a number wrapped in a fresh leaf. The transform runs on the graph the lower offsets left. The later calls keep the node as it was. |
| NodeTensors.MapNodesAtNew | structures/Tensor.ts:198-209 | A node the transform built for `c` is the mapped element at `c`, as the transform left it. |
| NodeTensors.MapMultiply | structures/Tensor.ts:198-209 | `t.map(x => x.multiply(w))` puts at each `c` a new `Mul` node of the element at `c` and `w`. It holds their product and gradient 0. |
| NodeTensors.ForEach | structures/Tensor.ts:304-315 | Every old node keeps its operation and inputs, and the transform may append nodes. Old nodes the tensor does not hold are untouched. |
| NodeTensors.ForEachAt | structures/Tensor.ts:304-315 | With distinct nodes, each element's node ends as its own step left it. The transform runs on the graph the earlier steps left. A number becomes the data and the gradient is kept. A node gives its data and gradient. |
| NodeTensors.ForEachRepeatedNode | structures/Tensor.ts:304-315 | A node held twice is transformed twice, the second time as the first step left it: `x => x.data + 1` adds 2. |
| NodeTensors.ZeroGrad | structures/Tensor.ts:175-179 | Exactly the held nodes get gradient 0; nothing else changes. |
| NodeTensors.ZeroGradIdempotent | structures/Tensor.ts:175-179 | Zeroing twice is zeroing once. |
| NodeTensors.AddChain | structures/Tensor.ts:122 | The `add` fold appends one node per element, the last holding the start plus the sum of the data. |
| NodeTensors.TensorSum | structures/Tensor.ts:120-123 | `sum(start)` is a fresh node holding `(start ?? 0)` plus the sum of the elements' data, with gradient 0. |
| Normalization.SumGroups | structures/Tensor.ts:334-341 | After the first loop, the map holds, for every key present, a node whose data is the sum of that group, added in storage order. |
| Normalization.Normalize | structures/Tensor.ts:322-352 | The result has the same shape. Each element is the source element divided by the sum of its group: all coordinates but the last, one group for rank 1. |
| Normalization.NormalizeSucceeds | structures/Tensor.ts:344-349 | Every group's sum exists when the second pass needs it, so the missing-sum error never occurs. |
| Normalization.NormalizeSumsToOne | structures/Tensor.ts:322-352 | With nonzero group sums, every group of the result sums to 1. |
| Normalization.KeyIffRow | structures/Tensor.ts:331-332 | The offsets of the group with key `p` are exactly the last-axis run after `p`. |
| Normalization.GroupSumIsRow | structures/Tensor.ts:334-341 | A group's sum is the sum of `vrow(p)`. |
| ListHelpers.Zip | matt-torch.ts:28-36 | The length is the shorter length, and pair `i` is `(a[i], b[i])`. |
| ListHelpers.UnzipZip | matt-torch.ts:28-36 | Unzipping a zip gives back both lists cut to the shorter length. |
| ListHelpers.ZipUnzip | matt-torch.ts:28-36 | Zipping the halves of a list of pairs rebuilds it. |
| ListHelpers.Sum | matt-torch.ts:27 | `sum(arr, start)` is `start ?? 0` plus the total of `arr`. |
| ListHelpers.AccumulateTotal | matt-torch.ts:27 | The left-to-right fold equals the start plus the reference total. |
| ListHelpers.SumAppend | matt-torch.ts:27 | Appending an element adds it to the sum. |
| ListHelpers.Store | matt-torch.ts:70 | A JavaScript array write replaces the slot in range and grows the array with holes past the end. A negative index changes no element. |
| ListHelpers.OneHot | matt-torch.ts:66-75 | One row per value. An in-range class gives `num_classes` entries with a single 1 at the class. A class past the end gives a longer row with holes. A negative class gives all zeros. |
| ListHelpers.OneHotClass | matt-torch.ts:66-75 | Reading a row back gives its class, or nothing for a negative class. |
| ListHelpers.OneHotRoundTrip | matt-torch.ts:66-75 | With every class in range, decoding the rows gives back the values. |
| NodeHelpers.Valuize | matt-torch.ts:46-52 | Every number becomes a fresh leaf with gradient 0, in depth-first order, at consecutive handles. Reading the result back gives the input. |
| NodeHelpers.ValuizeList | matt-torch.ts:46-52 | Same for an array, item by item. |
| NodeHelpers.SquaredErrorZero | matt-torch.ts:54-64 | The squared error is non-negative, and 0 exactly when the lists agree on their common prefix. |
| NodeHelpers.SquaredDifference | matt-torch.ts:59 | `t.subtract(p).pow(2)` appends four nodes, the last holding `(t - p)^2`. |
| NodeHelpers.Squares | matt-torch.ts:55-60 | The loop's nodes sum to the squared error of the pairs. |
| NodeHelpers.ZipError | matt-torch.ts:55 | The error over the zipped handles is the squared error of their data. |
| NodeHelpers.Loss | matt-torch.ts:54-64 | The loss is a node with gradient 0 holding the sum of `(t_i - p_i)^2` over the zipped pairs, truncated to the shorter list. |
| NodeHelpers.LossZeroIff | matt-torch.ts:54-64 | The loss is non-negative, and 0 exactly when every zipped target equals its prediction. |
| MatrixProduct.MatrixOffset | structures/Tensor.ts:375-397 | In a rank-2 tensor, `[i, j]` flattens to `i * n + j`. |
| MatrixProduct.CellAt | structures/Tensor.ts:131-134 | `at([i, j])` reads offset `i * n + j`. |
| MatrixProduct.AddProduct | matt-torch.ts:99-101 | One inner step makes the cell a fresh leaf holding the old cell data plus `a[i,k] * b[k,j]`. Every other cell keeps its node. |
| MatrixProduct.CellProduct | matt-torch.ts:98-102 | The inner loop, from the zero leaf, leaves the cell a leaf with gradient 0 holding `Σ_k a[i,k] * b[k,j]`, added in `k` order. |
| MatrixProduct.Zeros | matt-torch.ts:95 | `new Tensor([m, n], 0)` starts every cell as its own fresh leaf holding 0. |
| MatrixProduct.FillRow | matt-torch.ts:97-103 | After the loops for row `i`, every cell up to the end of the row holds its product entry, and the rest still hold 0. |
| MatrixProduct.MatMul | matt-torch.ts:86-107 | Fails with `NotMatrix` when an operand is not rank 2, and with `InnerMismatch` when `a.dims[1] != b.dims[0]`, exactly then. Otherwise the result has dims `[a.dims[0], b.dims[1]]`. Each cell is a leaf allocated by the call, with gradient 0 and no inputs, holding `Σ_k a[i,k].data * b[k,j].data`. |

## Left out

- Reals for floats: numbers are mathematical reals, not IEEE doubles. There is no rounding, `Infinity` or `NaN`.
  - `pow` takes integer exponents only.
  - An exponent below 1 needs a nonzero base, because the backward rule's `a ** (n - 1)` divides by it. So `Divide` needs a nonzero divisor.
- Autograd.PowNode: `pow(0)` on a zero base is excluded. The source computes its data, `0 ** 0 == 1`, but its backward rule is `0 * 0 ** -1`, which is `NaN`.
  - `Normalize` needs nonzero group sums.
- `tanh`, `exp` and `softmax` (structures/Value.ts:75-97, matt-torch.ts:109-112): they are transcendental. `exp`'s backward is also broken as written. It overwrites the input's `_backward` and feeds `result.grad` from itself, so no gradient reaches the input.
- `weightedRandomSample`, `randInt`, `randFloat` and `randomNormal` (matt-torch.ts:4-26, 79-83): they depend on `Math.random` and transcendental functions.
- `show`, `show_grad`, `shape()`, `print`, `Value.v` and the `label` field: formatting or trivial accessors.
- `fromNestedArray` (structures/Tensor.ts:45-63): untyped recursion over ragged arrays.
- `Tensor.backward` (structures/Tensor.ts:139-141): it only runs `Value.backward` per element.
- NodeTensors.MapNodes: the `new Tensor(dims)` placeholders that `map` allocates and then overwrites are not allocated, because nothing can reach them. The same applies to `Tensors.Row` and `Slicing.Slice`, which are generic in the element type and share the source's elements. `MatrixProduct.Zeros` does allocate its placeholders, because `multiply` reads their data.
- Unreachable throws:
  - `normalize`'s check for empty `dims`: a tensor has at least one axis.
  - `resolveInitializer`'s unsupported-initializer throw: the `Initializer` datatype has exactly the three accepted forms.
  - `normalize`'s missing row sum: modelled, and proved never to occur.
- `normalize`'s string keys (`loc.slice(0, -1).join(",")`) are modelled as the coordinate prefix itself. Joining natural numbers of a fixed count with commas is injective, so the groups are the same.
- ListHelpers.OneHot: class values are integers. A fractional value, and array lengths beyond JavaScript's 2^32 - 1 limit, are not modelled. `num_classes` is a `nat`, so the `RangeError` that `new Array(n)` throws for a negative count with a non-empty `vals` (matt-torch.ts:69) is not modelled.
- NodeTensors.Construct: `dims` is a `seq<nat>`, so a negative size is not modelled. In the source, a negative product makes `new Array(n)` throw a `RangeError` (structures/Tensor.ts:37).
- Backprop.BackwardTwiceOneOp: the "second `backward` adds the contributions again" form holds only over leaves. On deeper graphs the interior gradients kept from the first run feed the rules, so repeated runs compound (`Backprop.BackwardTwiceCompounds`). What holds for every graph is `Backprop.BackwardAccumulates`.
- Callbacks: the constructor's generator, and the transforms of `map` and `forEach`, are modelled as only appending nodes. A JavaScript callback could also mutate nodes it can reach, which is not modelled. `CallOk` and `TransformOk` state this for the constructor and `map`, and `AppendsOnly` states it for `forEach`.
- Callbacks are total over graphs, so a transform that reads a node guards against handles outside the graph (`MultiplyBy`, `PlusOne`). On the graphs the operations hand it, the guard always holds.
- NodeTensors.Construct: promises no bound on how many nodes are allocated, because a generator may build any number. `NodeTensors.ConstructNumber` gives the exact growth for a number fill.
- `normalize`'s `map` (structures/Tensor.ts:344) builds one `divide` per element. It is modelled directly by `Normalization.DivideAll`, not through `NodeTensors.MapNodes`. `softmax`'s `map` (matt-torch.ts:110) calls `exp`, which is left out.
- NodeTensors.ForEach: does not promise that the graph stays `Valid`. A transform may overwrite the base of a negative power with 0, which the source allows, giving an infinite gradient.
- The topological sort iterates a node's input list, where the source iterates its `Set` of parents. The visited check skips a repeated input, so the visit order is the same.
- Module layout: the modules follow the source's files, and the node-level parts of `Tensor.ts` sit in `NodeTensors` and `Normalization`.

## Findings

| source | as written | input that shows it | evidently intended | confidence | as-written member | corrected member |
|---|---|---|---|---|---|---|
| structures/Tensor.ts:248-258 | For a negative step, the start is clamped into `[0, length]`, so position `length` can be selected, and the copy's `at` then throws. | axis of 3, `{start: 5, end: 0, step: -1}` selects 3, 2, 1 and fails with `OutOfBounds(3, 3)` | clamp a descending start to `length - 1`, as Python does, giving 2, 1 | high; not executed | Slicing.NegativeStepSelectsLength | Slicing.FixedSliceSucceeds |
| structures/Tensor.ts:249-258 | For a negative step, the end is clamped to at least 0, so position 0 can never be selected. | axis of 3, `{start: 2, end: -10, step: -1}` selects 2, 1 | clamp a descending end to -1, as Python does, giving 2, 1, 0 | medium; not executed | Slicing.NegativeStepNeverReachesZero | Slicing.FixedSliceSucceeds |
