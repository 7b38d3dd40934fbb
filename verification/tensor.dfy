/** The strided tensor container of structures/Tensor.ts, generic in the
    element type: a shape and a flat row-major storage sequence. The stride
    table the source caches is the derived `Shape.Strides(dims)`. Operations
    that create scalar nodes live in module NodeTensors; this module is the
    pure addressing layer (`at`, `set`, `vrow`, `row`, `map`). */
module Tensors {
  import opened Wrappers
  import opened Shape

  datatype Tensor<T> = Tensor(dims: seq<nat>, data: seq<T>) {

    /** A constructed tensor has at least one axis and exactly `size` elements. */
    predicate Valid() {
      |dims| >= 1 && |data| == Product(dims)
    }

    /** The element count (`size` / `count()`). */
    function Size(): nat {
      Product(dims)
    }
  }

  /** The constructor's fill loop over an already resolved per-coordinate
      initializer: fails on empty `dims`, otherwise offset `o` holds the fill
      for the coordinate tuple `unflatten(o)`. */
  function Build<T>(dims: seq<nat>, fill: seq<nat> -> T): (r: Result<Tensor<T>>)
    ensures r.Err? <==> |dims| == 0
    ensures r.Err? ==> r.error == EmptyDims
    ensures r.Ok? ==> r.value.Valid() && r.value.dims == dims
    ensures r.Ok? ==> forall o :: 0 <= o < Product(dims) ==> r.value.data[o] == fill(Unflatten(dims, o))
  {
    if |dims| == 0 then Err(EmptyDims)
    else Ok(Tensor(dims, seq(Product(dims), o requires 0 <= o < Product(dims) => fill(Unflatten(dims, o)))))
  }

  /** `at`: the element a coordinate tuple names, through the stride mapping. */
  function At<T>(t: Tensor<T>, coords: seq<int>): (r: Result<T>)
    requires t.Valid()
    ensures r.Ok? <==> InBounds(t.dims, coords)
    ensures r.Ok? ==> r.value == t.data[Offset(t.dims, coords)]
    ensures r.Err? ==> r.error == Flatten(t.dims, coords).error
  {
    var i :- Flatten(t.dims, coords);
    Ok(t.data[i])
  }

  /** `set`: replaces the element a coordinate tuple names. */
  function Set<T>(t: Tensor<T>, coords: seq<int>, v: T): (r: Result<Tensor<T>>)
    requires t.Valid()
    ensures r.Ok? <==> InBounds(t.dims, coords)
    ensures r.Err? ==> r.error == Flatten(t.dims, coords).error
    ensures r.Ok? ==> r.value.Valid() && r.value.dims == t.dims
  {
    var i :- Flatten(t.dims, coords);
    Ok(Tensor(t.dims, t.data[i := v]))
  }

  /** Every element of a built tensor is the fill of its own coordinates. */
  lemma BuildAt<T>(dims: seq<nat>, fill: seq<nat> -> T, c: seq<int>)
    requires |dims| > 0 && InBounds(dims, c)
    ensures Build(dims, fill).Ok?
    ensures At(Build(dims, fill).value, c) == Ok(fill(c))
  {
    UnflattenFlatten(dims, c);
  }

  /** After `set(c, v)`, `at(c)` reads `v`. */
  lemma SetThenAt<T>(t: Tensor<T>, c: seq<int>, v: T)
    requires t.Valid() && InBounds(t.dims, c)
    ensures Set(t, c, v).Ok?
    ensures At(Set(t, c, v).value, c) == Ok(v)
  {
  }

  /** `set(c, v)` leaves every other coordinate's element as it was. */
  lemma SetKeepsOthers<T>(t: Tensor<T>, c: seq<int>, v: T, d: seq<int>)
    requires t.Valid() && InBounds(t.dims, c) && d != c
    ensures Set(t, c, v).Ok?
    ensures At(Set(t, c, v).value, d) == At(t, d)
  {
    if InBounds(t.dims, d) {
      if Dot(d, Strides(t.dims)) == Dot(c, Strides(t.dims)) {
        FlattenInjective(t.dims, c, d);
      }
    }
  }

  /** Appending one coordinate whose stride is 1 adds that coordinate to the offset. */
  lemma {:induction false} DotAppend(c: seq<int>, s: seq<nat>, x: int)
    requires |c| == |s|
    ensures Dot(c + [x], s + [1]) == Dot(c, s) + x
  {
    if |c| > 0 {
      DotAppend(c[1..], s[1..], x);
      assert (c + [x])[1..] == c[1..] + [x];
      assert (s + [1])[1..] == s[1..] + [1];
    }
  }

  /** The offset of `prefix + [k]` is the offset of `prefix + [0]` plus `k`,
      because the last axis has stride 1. */
  lemma RowOffset(dims: seq<nat>, prefix: seq<int>, k: int)
    requires |dims| >= 1 && |prefix| == |dims| - 1
    ensures Dot(prefix + [k], Strides(dims)) == Dot(prefix + [0], Strides(dims)) + k
  {
    var n := |dims| - 1;
    var s := Strides(dims);
    StridesRecurrence(dims);
    assert s == s[..n] + [1];
    DotAppend(prefix, s[..n], k);
    DotAppend(prefix, s[..n], 0);
  }

  /** Any last-axis coordinate after an in-bounds prefix is in bounds. */
  lemma RowInBounds(dims: seq<nat>, prefix: seq<int>, k: int)
    requires |dims| >= 1 && InBounds(dims, prefix + [0]) && 0 <= k < dims[|dims| - 1]
    ensures InBounds(dims, prefix + [k])
  {
    var p0, pk := prefix + [0], prefix + [k];
    assert forall i :: 0 <= i < |prefix| ==> pk[i] == p0[i];
  }

  /** `vrow`: the contiguous run of last-axis elements after a prefix that
      fixes every other axis. */
  function VRow<T>(t: Tensor<T>, prefix: seq<int>): (r: Result<seq<T>>)
    requires t.Valid()
    ensures r.Ok? <==> InBounds(t.dims, prefix + [0])
    ensures |prefix| != |t.dims| - 1 ==> r == Err(NotLastAxisRow)
    ensures r.Ok? ==> |r.value| == t.dims[|t.dims| - 1]
    ensures r.Ok? ==> Offset(t.dims, prefix + [0]) + |r.value| <= |t.data|
    ensures r.Ok? ==> r.value == t.data[Offset(t.dims, prefix + [0]) .. Offset(t.dims, prefix + [0]) + |r.value|]
  {
    if |prefix| != |t.dims| - 1 then Err(NotLastAxisRow)
    else
      var start :- Flatten(t.dims, prefix + [0]);
      var last := t.dims[|t.dims| - 1];
      RowOffset(t.dims, prefix, last - 1);
      RowInBounds(t.dims, prefix, last - 1);
      OffsetBound(t.dims, prefix + [last - 1]);
      Ok(t.data[start .. start + last])
  }

  /** With an in-bounds prefix, `vrow` succeeds with the whole last-axis run
      that starts at the prefix's offset. */
  lemma VRowRun<T>(t: Tensor<T>, prefix: seq<int>)
    requires t.Valid() && InBounds(t.dims, prefix + [0])
    ensures VRow(t, prefix).Ok?
    ensures Offset(t.dims, prefix + [0]) + t.dims[|t.dims| - 1] <= |t.data|
    ensures VRow(t, prefix).value
            == t.data[Offset(t.dims, prefix + [0]) .. Offset(t.dims, prefix + [0]) + t.dims[|t.dims| - 1]]
  {
  }

  /** A row read through `vrow` is element for element what `at` reads
      at `prefix + [k]`. */
  lemma VRowAt<T>(t: Tensor<T>, prefix: seq<int>, k: int)
    requires t.Valid() && VRow(t, prefix).Ok?
    requires 0 <= k < t.dims[|t.dims| - 1]
    ensures At(t, prefix + [k]) == Ok(VRow(t, prefix).value[k])
  {
    RowInBounds(t.dims, prefix, k);
    RowOffset(t.dims, prefix, k);
  }

  /** `row`: the same elements as `vrow`, shared (not copied) into a rank-1
      tensor. */
  function Row<T>(t: Tensor<T>, prefix: seq<int>): (r: Result<Tensor<T>>)
    requires t.Valid()
    ensures r.Ok? <==> VRow(t, prefix).Ok?
    ensures r.Ok? ==> r.value.Valid() && r.value.dims == [t.dims[|t.dims| - 1]]
    ensures r.Ok? ==> forall k :: 0 <= k < t.dims[|t.dims| - 1] ==>
                        At(r.value, [k]) == At(t, prefix + [k])
  {
    var values :- VRow(t, prefix);
    var row := Tensor([|values|], values);
    assert forall k :: 0 <= k < |values| ==> Dot([k], Strides(row.dims)) == k;
    forall k | 0 <= k < |values|
      ensures At(row, [k]) == At(t, prefix + [k])
    {
      VRowAt(t, prefix, k);
    }
    Ok(row)
  }

  /** `map`: a new tensor of the same shape whose element at offset `o` is
      the transform of the source element and its coordinates. */
  function Map<T, U>(t: Tensor<T>, f: (T, seq<nat>) -> U): (r: Tensor<U>)
    requires t.Valid()
    ensures r.Valid() && r.dims == t.dims
  {
    Tensor(t.dims, seq(|t.data|, o requires 0 <= o < |t.data| => f(t.data[o], Unflatten(t.dims, o))))
  }

  /** Reading a mapped tensor at `c` applies the transform to the source
      element at `c` with `c` itself as coordinates. */
  lemma MapAt<T, U>(t: Tensor<T>, f: (T, seq<nat>) -> U, c: seq<int>)
    requires t.Valid() && InBounds(t.dims, c)
    ensures At(t, c).Ok? && At(Map(t, f), c).Ok?
    ensures At(Map(t, f), c).value == f(At(t, c).value, c)
  {
    UnflattenFlatten(t.dims, c);
  }
}
