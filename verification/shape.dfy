/** Row-major index arithmetic of the strided tensor (structures/Tensor.ts):
    the element count, the stride table, `flatten` and `unflatten`, and the
    fact that they are mutually inverse bijections between in-bounds
    coordinate tuples and the offsets `[0, size)`. */
module Shape {
  import opened Wrappers

  /** Number of elements of a tensor of shape `dims` (the constructor's
      `reduce((acc, cur) => acc *= cur, 1)`). */
  function Product(dims: seq<nat>): nat
  {
    if |dims| == 0 then 1 else dims[0] * Product(dims[1..])
  }

  /** The stride table: the stride of an axis is the product of the sizes of
      all axes strictly to its right, so the last axis has stride 1. */
  function Strides(dims: seq<nat>): (s: seq<nat>)
    ensures |s| == |dims|
  {
    if |dims| == 0 then [] else [Product(dims[1..])] + Strides(dims[1..])
  }

  /** Coordinate `c` names an element of a tensor of shape `dims`. */
  predicate InBounds(dims: seq<nat>, c: seq<int>)
  {
    |c| == |dims| && forall i :: 0 <= i < |c| ==> 0 <= c[i] < dims[i]
  }

  /** Sum of `c[i] * s[i]`: the offset that a coordinate tuple denotes. */
  function Dot(c: seq<int>, s: seq<nat>): int
    requires |c| == |s|
  {
    if |c| == 0 then 0 else c[0] * s[0] + Dot(c[1..], s[1..])
  }

  lemma ProductSplit(dims: seq<nat>, i: nat)
    requires i < |dims|
    ensures Product(dims[i..]) == dims[i] * Product(dims[i + 1..])
    ensures Product(dims[i..]) == Product(dims[i + 1..]) * dims[i]
  {
    assert dims[i..][1..] == dims[i + 1..];
  }

  /** Axis `i` of the stride table is the product of the sizes to its right. */
  lemma {:induction false} StrideAt(dims: seq<nat>, i: nat)
    requires i < |dims|
    ensures Strides(dims)[i] == Product(dims[i + 1..])
    decreases i
  {
    if i > 0 {
      StrideAt(dims[1..], i - 1);
      assert dims[1..][i..] == dims[i + 1..];
    }
  }

  /** The stride table read axis by axis: the last axis has stride 1 and
      each stride is its right neighbour's stride times that neighbour's size. */
  lemma {:induction false} StridesRecurrence(dims: seq<nat>)
    ensures |dims| > 0 ==> Strides(dims)[|dims| - 1] == 1
    ensures forall i :: 0 < i < |dims| ==> Strides(dims)[i - 1] == Strides(dims)[i] * dims[i]
  {
    forall i | 0 < i < |dims|
      ensures Strides(dims)[i - 1] == Strides(dims)[i] * dims[i]
    {
      StrideStep(dims, i);
    }
    if |dims| > 0 {
      StrideAt(dims, |dims| - 1);
      assert dims[|dims|..] == [];
    }
  }

  lemma StrideStep(dims: seq<nat>, i: nat)
    requires 0 < i < |dims|
    ensures Strides(dims)[i - 1] == Strides(dims)[i] * dims[i]
  {
    StrideAt(dims, i - 1);
    StrideAt(dims, i);
    ProductSplit(dims, i);
  }

  /** `buildStrides`: fills the table right to left with a running product. */
  method BuildStrides(dims: seq<nat>) returns (strides: seq<nat>)
    ensures strides == Strides(dims)
    ensures |dims| > 0 ==> strides[|dims| - 1] == 1
    ensures forall i :: 0 < i < |dims| ==> strides[i - 1] == strides[i] * dims[i]
  {
    strides := seq(|dims|, _ => 0);
    var accumulator: nat := 1;
    var axis := |dims| - 1;
    while axis >= 0
      invariant -1 <= axis < |dims|
      invariant |strides| == |dims|
      invariant accumulator == Product(dims[axis + 1..])
      invariant forall j :: axis < j < |dims| ==> strides[j] == Product(dims[j + 1..])
    {
      strides := strides[axis := accumulator];
      ProductSplit(dims, axis);
      accumulator := accumulator * dims[axis];
      axis := axis - 1;
    }
    StridesFromProducts(dims, strides);
    StridesRecurrence(dims);
  }

  /** A table holding, on every axis, the product of the sizes to its right
      is the stride table. */
  lemma StridesFromProducts(dims: seq<nat>, strides: seq<nat>)
    requires |strides| == |dims|
    requires forall j :: 0 <= j < |dims| ==> strides[j] == Product(dims[j + 1..])
    ensures strides == Strides(dims)
  {
    forall i | 0 <= i < |dims|
      ensures strides[i] == Strides(dims)[i]
    {
      StrideAt(dims, i);
    }
  }

  /** The reduce inside `flatten`: walks the axes left to right, failing at
      the first coordinate outside `[0, dims[idx])`, otherwise adding
      `coords[idx] * strides[idx]` to the running offset. */
  function FlattenFrom(dims: seq<nat>, coords: seq<int>, idx: nat, acc: nat): (r: Result<nat>)
    requires |coords| == |dims| && idx <= |dims|
    ensures r.Ok? <==> forall k :: idx <= k < |dims| ==> 0 <= coords[k] < dims[k]
    ensures r.Ok? ==> r.value == acc + Dot(coords[idx..], Strides(dims)[idx..])
    ensures r.Err? ==> exists j :: idx <= j < |dims|
                          && !(0 <= coords[j] < dims[j])
                          && (forall k :: idx <= k < j ==> 0 <= coords[k] < dims[k])
                          && r.error == OutOfBounds(coords[j], dims[j])
    decreases |dims| - idx
  {
    if idx == |dims| then Ok(acc)
    else if coords[idx] < 0 || coords[idx] >= dims[idx] then Err(OutOfBounds(coords[idx], dims[idx]))
    else
      var r := FlattenFrom(dims, coords, idx + 1, acc + coords[idx] * Strides(dims)[idx]);
      assert coords[idx..][1..] == coords[idx + 1..];
      assert Strides(dims)[idx..][1..] == Strides(dims)[idx + 1..];
      r
  }

  /** `flatten`: the arity check, then the bounds-checked stride sum. */
  function Flatten(dims: seq<nat>, coords: seq<int>): (r: Result<nat>)
    ensures r.Ok? <==> InBounds(dims, coords)
    ensures r.Ok? ==> r.value == Dot(coords, Strides(dims)) && r.value < Product(dims)
    ensures |coords| != |dims| ==> r == Err(ArityMismatch(|dims|, |coords|))
    ensures |coords| == |dims| && r.Err? ==>
              exists j :: 0 <= j < |dims| && !(0 <= coords[j] < dims[j])
                && (forall k :: 0 <= k < j ==> 0 <= coords[k] < dims[k])
                && r.error == OutOfBounds(coords[j], dims[j])
  {
    if |coords| != |dims| then Err(ArityMismatch(|dims|, |coords|))
    else
      var r := FlattenFrom(dims, coords, 0, 0);
      if r.Ok? then OffsetBound(dims, coords); r else r
  }

  lemma MulMono(a: int, b: int, m: nat)
    requires a <= b
    ensures a * m <= b * m
  {
  }

  /** One mixed-radix digit: a digit below its radix `b` followed by a
      remainder below the weight `p` stays below `b * p`. */
  lemma DigitBound(a: int, b: int, r: int, p: int)
    requires 0 <= a < b && 0 <= r < p
    ensures 0 <= a * p + r < b * p
  {
    MulMono(a + 1, b, p);
    assert (a + 1) * p == a * p + p;
  }

  /** The offset of a non-empty tuple: its first coordinate times the
      first stride, plus the offset of the rest in the trailing axes. */
  lemma DotHead(dims: seq<nat>, c: seq<int>)
    requires |c| == |dims| > 0
    ensures Strides(dims)[0] == Product(dims[1..]) && Strides(dims)[1..] == Strides(dims[1..])
    ensures Dot(c, Strides(dims)) == c[0] * Product(dims[1..]) + Dot(c[1..], Strides(dims[1..]))
  {
  }

  /** Every in-bounds coordinate denotes an offset in `[0, size)`. */
  lemma {:induction false} OffsetBound(dims: seq<nat>, c: seq<int>)
    requires InBounds(dims, c)
    ensures 0 <= Dot(c, Strides(dims)) < Product(dims)
  {
    if |dims| > 0 {
      OffsetBound(dims[1..], c[1..]);
      DotHead(dims, c);
      DigitBound(c[0], dims[0], Dot(c[1..], Strides(dims[1..])), Product(dims[1..]));
    }
  }

  /** The flat offset of an in-bounds coordinate tuple. */
  function Offset(dims: seq<nat>, c: seq<int>): (o: nat)
    requires InBounds(dims, c)
    ensures o < Product(dims)
    ensures o == Dot(c, Strides(dims))
  {
    OffsetBound(dims, c);
    Dot(c, Strides(dims))
  }

  lemma DivBound(o: nat, d: nat, s: nat)
    requires s > 0 && o < d * s
    ensures o / s < d
  {
    if o / s >= d {
      MulMono(d, o / s, s);
    }
  }

  /** `unflatten`: the divide/mod cascade, most significant axis first; the
      quotient by an axis's stride is its coordinate and the remainder is
      carried to the axes on the right. */
  function Unflatten(dims: seq<nat>, o: nat): (c: seq<nat>)
    requires o < Product(dims)
    ensures InBounds(dims, c)
  {
    if |dims| == 0 then []
    else
      var stride := Product(dims[1..]);
      assert stride > 0;
      DivBound(o, dims[0], stride);
      [o / stride] + Unflatten(dims[1..], o % stride)
  }

  lemma DivModUnique(a: int, b: int, q: int, r: int)
    requires b > 0 && 0 <= r < b && a == q * b + r
    ensures a / b == q && a % b == r
  {
    var q', r' := a / b, a % b;
    assert a == q' * b + r';
    if q > q' {
      MulMono(q' + 1, q, b);
    } else if q < q' {
      MulMono(q + 1, q', b);
    }
  }

  /** Euclidean division by a positive divisor splits `o` into quotient and
      remainder. */
  lemma DivModSplit(o: nat, s: nat)
    requires s > 0
    ensures o == (o / s) * s + o % s && 0 <= o % s < s
  {
  }

  /** The offset of an unflattened offset is that offset. */
  lemma {:induction false} DotUnflatten(dims: seq<nat>, o: nat)
    requires o < Product(dims)
    ensures Dot(Unflatten(dims, o), Strides(dims)) == o
  {
    if |dims| > 0 {
      var stride := Product(dims[1..]);
      var c := Unflatten(dims, o);
      var q, r := o / stride, o % stride;
      assert c[0] == q && c[1..] == Unflatten(dims[1..], r);
      DotUnflatten(dims[1..], r);
      DotHead(dims, c);
      DivModSplit(o, stride);
    }
  }

  /** Round trip one way: flattening an unflattened offset gives it back. */
  lemma FlattenUnflatten(dims: seq<nat>, o: nat)
    requires o < Product(dims)
    ensures Dot(Unflatten(dims, o), Strides(dims)) == o
    ensures Flatten(dims, Unflatten(dims, o)) == Ok(o)
  {
    DotUnflatten(dims, o);
  }

  /** Round trip the other way: unflattening an in-bounds coordinate's offset
      gives the coordinate back. */
  lemma {:induction false} UnflattenFlatten(dims: seq<nat>, c: seq<int>)
    requires InBounds(dims, c)
    ensures 0 <= Dot(c, Strides(dims)) < Product(dims)
    ensures Unflatten(dims, Dot(c, Strides(dims))) == c
  {
    OffsetBound(dims, c);
    if |dims| > 0 {
      var stride := Product(dims[1..]);
      var rest := Dot(c[1..], Strides(dims[1..]));
      OffsetBound(dims[1..], c[1..]);
      UnflattenFlatten(dims[1..], c[1..]);
      DivModUnique(c[0] * stride + rest, stride, c[0], rest);
      assert c == [c[0]] + c[1..];
    }
  }

  /** Distinct in-bounds coordinates name distinct offsets. */
  lemma FlattenInjective(dims: seq<nat>, c1: seq<int>, c2: seq<int>)
    requires InBounds(dims, c1) && InBounds(dims, c2)
    requires Dot(c1, Strides(dims)) == Dot(c2, Strides(dims))
    ensures c1 == c2
  {
    UnflattenFlatten(dims, c1);
    UnflattenFlatten(dims, c2);
  }
}
