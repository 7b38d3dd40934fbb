/** `Tensor.slice` (structures/Tensor.ts): Python-like start/end/step
    selection over one axis, and the nested walk that copies the selected
    elements into a tensor of the same rank. */
module Slicing {
  import opened Wrappers
  import opened Shape
  import opened Tensors

  /** The optional fields of the source's `SliceParams`. */
  datatype SliceParams = SliceParams(start: Option<int>, end: Option<int>, step: Option<int>)

  /** One slice bound as the source normalises it: a negative bound counts
      from the end of the axis, and the result is clamped into `[0, length]`. */
  function ClampBound(x: int, length: nat): nat
  {
    if x < 0 then (if length + x < 0 then 0 else length + x)
    else if x < length then x else length
  }

  /** The ascending walk `for (i = from; i < end; i += step)`. */
  function WalkUp(from: int, end: int, step: int): (r: seq<int>)
    requires step > 0
    ensures forall k :: 0 <= k < |r| ==> r[k] == from + k * step && r[k] < end
    ensures from + |r| * step >= end
    decreases end - from
  {
    if from < end then
      var rest := WalkUp(from + step, end, step);
      assert forall k :: 0 < k <= |rest| ==> from + step + (k - 1) * step == from + k * step;
      assert from + step + |rest| * step == from + (|rest| + 1) * step;
      [from] + rest
    else []
  }

  /** The descending walk `for (i = from; i > end; i += step)`, `step < 0`. */
  function WalkDown(from: int, end: int, step: int): (r: seq<int>)
    requires step < 0
    ensures forall k :: 0 <= k < |r| ==> r[k] == from + k * step && r[k] > end
    ensures from + |r| * step <= end
    decreases from - end
  {
    if from > end then
      var rest := WalkDown(from + step, end, step);
      assert forall k :: 0 < k <= |rest| ==> from + step + (k - 1) * step == from + k * step;
      assert from + step + |rest| * step == from + (|rest| + 1) * step;
      [from] + rest
    else []
  }

  /** The list of selected positions along an axis of size `length`, as the
      source builds it: defaults start 0, end `length`, step 1. */
  function SliceIndices(length: nat, p: SliceParams): (r: seq<int>)
    requires p.step.GetOr(1) != 0
    ensures forall k :: 0 <= k < |r| ==> 0 <= r[k] <= length
    ensures p.step.GetOr(1) > 0 ==> forall k :: 0 <= k < |r| ==> r[k] < length
  {
    var start := ClampBound(p.start.GetOr(0), length);
    var end := ClampBound(p.end.GetOr(length), length);
    var step := p.step.GetOr(1);
    if step > 0 then WalkUp(start, end, step) else WalkDown(start, end, step)
  }

  /** The selection walks from the normalised start by `step` and stops at the
      first position at or past the normalised end: ascending when `step > 0`,
      descending when `step < 0`. */
  lemma SliceIndicesWalk(length: nat, p: SliceParams)
    requires p.step.GetOr(1) != 0
    ensures var r := SliceIndices(length, p);
            var start := ClampBound(p.start.GetOr(0), length);
            var end := ClampBound(p.end.GetOr(length), length);
            var step := p.step.GetOr(1);
            && (forall k :: 0 <= k < |r| ==> r[k] == start + k * step)
            && (step > 0 ==> (forall k :: 0 <= k < |r| ==> r[k] < end) && start + |r| * step >= end)
            && (step < 0 ==> (forall k :: 0 <= k < |r| ==> r[k] > end) && start + |r| * step <= end)
  {
  }

  /** Negative bounds count from the end: `{start: -3}` on an axis of 10
      selects 7, 8, 9, exactly as `{start: 7}` does. */
  lemma NegativeStartCountsFromEnd()
    ensures SliceIndices(10, SliceParams(Some(-3), None, None)) == [7, 8, 9]
    ensures SliceIndices(10, SliceParams(Some(7), None, None)) == [7, 8, 9]
  {
    assert WalkUp(10, 10, 1) == [];
    assert WalkUp(9, 10, 1) == [9];
    assert WalkUp(8, 10, 1) == [8, 9];
  }

  /** A negative step with the default start of 0 selects nothing, whatever
      the end: the clamped end is never below 0. */
  lemma NegativeStepDefaultStartIsEmpty(length: nat, end: Option<int>, step: int)
    requires step < 0
    ensures SliceIndices(length, SliceParams(None, end, Some(step))) == []
  {
  }

  /** The coordinates in the source tensor of destination offset `o`: the
      destination coordinates with the sliced axis's position replaced by the
      selected index it stands for. */
  function SourceCoords(nd: seq<nat>, axis: nat, indices: seq<int>, o: nat): (src: seq<int>)
    requires axis < |nd| && nd[axis] == |indices| && o < Product(nd)
    ensures |src| == |nd|
  {
    var d := Unflatten(nd, o);
    var c: seq<int> := d;
    c[axis := indices[d[axis]]]
  }

  /** The source coordinates of every destination offset, in storage order. */
  function Sources(nd: seq<nat>, axis: nat, indices: seq<int>): (srcs: seq<seq<int>>)
    requires axis < |nd| && nd[axis] == |indices|
    ensures |srcs| == Product(nd)
    ensures forall q :: 0 <= q < |srcs| ==> srcs[q] == SourceCoords(nd, axis, indices, q)
  {
    seq(Product(nd), q requires 0 <= q < Product(nd) => SourceCoords(nd, axis, indices, q))
  }

  /** The recursive `fillSlice` walk over the destination, in row-major order
      (that is, ascending destination offset, whose source coordinates are
      `srcs`); it stops at the first source coordinate that `at` rejects. */
  function GatherFrom<T>(t: Tensor<T>, srcs: seq<seq<int>>, o: nat, acc: seq<T>): (r: Result<seq<T>>)
    requires t.Valid() && o <= |srcs| && |acc| == o
    ensures r.Ok? <==> forall q :: o <= q < |srcs| ==> InBounds(t.dims, srcs[q])
    ensures r.Ok? ==> |r.value| == |srcs|
    decreases |srcs| - o
  {
    if o == |srcs| then Ok(acc)
    else
      var v :- At(t, srcs[o]);
      GatherFrom(t, srcs, o + 1, acc + [v])
  }

  /** A completed walk holds, at destination offset `q`, the source element
      at `srcs[q]`, after the elements it was handed. */
  lemma {:induction false} GatherContents<T>(t: Tensor<T>, srcs: seq<seq<int>>, o: nat, acc: seq<T>)
    requires t.Valid() && o <= |srcs| && |acc| == o
    requires GatherFrom(t, srcs, o, acc).Ok?
    ensures var r := GatherFrom(t, srcs, o, acc).value;
            && r[..o] == acc
            && forall q :: o <= q < |srcs| ==> r[q] == t.data[Offset(t.dims, srcs[q])]
    decreases |srcs| - o
  {
    if o < |srcs| {
      var v := At(t, srcs[o]).value;
      var r := GatherFrom(t, srcs, o, acc).value;
      assert r == GatherFrom(t, srcs, o + 1, acc + [v]).value;
      GatherContents(t, srcs, o + 1, acc + [v]);
      assert r[..o + 1] == acc + [v];
      assert r[..o] == r[..o + 1][..o];
      assert r[o] == r[..o + 1][o];
    }
  }

  /** A failed walk reports the `at` error of the first destination offset
      whose source coordinate is out of bounds. */
  lemma {:induction false} GatherFirstError<T>(t: Tensor<T>, srcs: seq<seq<int>>, o: nat, acc: seq<T>)
    requires t.Valid() && o <= |srcs| && |acc| == o
    requires GatherFrom(t, srcs, o, acc).Err?
    ensures exists q :: o <= q < |srcs|
              && !InBounds(t.dims, srcs[q])
              && (forall q' :: o <= q' < q ==> InBounds(t.dims, srcs[q']))
              && GatherFrom(t, srcs, o, acc).error == Flatten(t.dims, srcs[q]).error
    decreases |srcs| - o
  {
    var r := GatherFrom(t, srcs, o, acc);
    if InBounds(t.dims, srcs[o]) {
      var v := At(t, srcs[o]).value;
      var r' := GatherFrom(t, srcs, o + 1, acc + [v]);
      assert r == r';
      GatherFirstError(t, srcs, o + 1, acc + [v]);
      var q :| o + 1 <= q < |srcs|
               && !InBounds(t.dims, srcs[q])
               && (forall q' :: o + 1 <= q' < q ==> InBounds(t.dims, srcs[q']))
               && r'.error == Flatten(t.dims, srcs[q]).error;
      assert forall q' :: o <= q' < q ==> InBounds(t.dims, srcs[q']);
    } else {
      assert r.error == Flatten(t.dims, srcs[o]).error;
    }
  }

  /** `slice(dim, {start, end, step})`. */
  function Slice<T>(t: Tensor<T>, axis: int, p: SliceParams): (r: Result<Tensor<T>>)
    requires t.Valid()
    ensures !(0 <= axis < |t.dims|) ==> r == Err(AxisOutOfRange(axis, |t.dims|))
    ensures 0 <= axis < |t.dims| && p.step.GetOr(1) == 0 ==> r == Err(ZeroStep)
    ensures r.Ok? ==> 0 <= axis < |t.dims| && p.step.GetOr(1) != 0
    ensures r.Ok? ==> var indices := SliceIndices(t.dims[axis], p);
                      r.value.Valid() && r.value.dims == t.dims[axis := |indices|]
  {
    if axis < 0 || axis >= |t.dims| then Err(AxisOutOfRange(axis, |t.dims|))
    else if p.step.GetOr(1) == 0 then Err(ZeroStep)
    else Select(t, axis, SliceIndices(t.dims[axis], p))
  }

  /** The copy phase of `slice`: a tensor of the same rank whose `axis` has
      one position per selected index, filled by the destination walk. */
  function Select<T>(t: Tensor<T>, axis: nat, indices: seq<int>): (r: Result<Tensor<T>>)
    requires t.Valid() && axis < |t.dims|
    ensures r.Ok? ==> r.value.Valid() && r.value.dims == t.dims[axis := |indices|]
  {
    var nd := t.dims[axis := |indices|];
    var data :- GatherFrom(t, Sources(nd, axis, indices), 0, []);
    Ok(Tensor(nd, data))
  }

  /** Result element `d` is the source element at `d` with the sliced axis's
      position `d[axis]` replaced by the `d[axis]`-th selected index. */
  lemma {:induction false} SliceAt<T>(t: Tensor<T>, axis: int, p: SliceParams, d: seq<int>)
    requires t.Valid() && Slice(t, axis, p).Ok?
    requires InBounds(Slice(t, axis, p).value.dims, d)
    ensures 0 <= axis < |t.dims| && 0 <= d[axis] < |SliceIndices(t.dims[axis], p)|
    ensures At(Slice(t, axis, p).value, d)
            == At(t, d[axis := SliceIndices(t.dims[axis], p)[d[axis]]])
  {
    var s := Slice(t, axis, p).value;
    var indices := SliceIndices(t.dims[axis], p);
    var nd := s.dims;
    var o := Offset(nd, d);
    UnflattenFlatten(nd, d);
    var srcs := Sources(nd, axis, indices);
    var g := GatherFrom(t, srcs, 0, []);
    GatherContents(t, srcs, 0, []);
    assert s == Select(t, axis, indices).value;
    assert s.data == g.value;
    assert srcs[o] == d[axis := indices[d[axis]]];
  }

  /** A tuple that is in bounds on every axis but one, and at most one past
      the end on that axis, is out of bounds exactly when it sits at the end
      there, and `flatten` then reports that axis. */
  lemma OneAxisPastEnd(dims: seq<nat>, src: seq<int>, axis: nat)
    requires |src| == |dims| && axis < |dims|
    requires forall k :: 0 <= k < |dims| && k != axis ==> 0 <= src[k] < dims[k]
    requires 0 <= src[axis] <= dims[axis]
    ensures InBounds(dims, src) <==> src[axis] != dims[axis]
    ensures !InBounds(dims, src) ==> Flatten(dims, src) == Err(OutOfBounds(dims[axis], dims[axis]))
  {
    if !InBounds(dims, src) {
      var f := Flatten(dims, src);
      var j :| 0 <= j < |dims| && !(0 <= src[j] < dims[j])
               && (forall k :: 0 <= k < j ==> 0 <= src[k] < dims[k])
               && f.error == OutOfBounds(src[j], dims[j]);
      assert j == axis;
    }
  }

  /** A source coordinate built from a destination offset can only fall
      outside the source when its sliced-axis position is `length`. */
  lemma SourceInBounds<T>(t: Tensor<T>, axis: nat, indices: seq<int>, nd: seq<nat>, o: nat)
    requires t.Valid() && axis < |t.dims| && nd == t.dims[axis := |indices|]
    requires forall k :: 0 <= k < |indices| ==> 0 <= indices[k] <= t.dims[axis]
    requires o < Product(nd)
    ensures var d := Unflatten(nd, o);
            InBounds(t.dims, SourceCoords(nd, axis, indices, o)) <==> indices[d[axis]] != t.dims[axis]
    ensures !InBounds(t.dims, SourceCoords(nd, axis, indices, o)) ==>
              Flatten(t.dims, SourceCoords(nd, axis, indices, o)) == Err(OutOfBounds(t.dims[axis], t.dims[axis]))
  {
    var d := Unflatten(nd, o);
    var src := SourceCoords(nd, axis, indices, o);
    assert src[axis] == indices[d[axis]];
    assert forall k :: 0 <= k < |t.dims| && k != axis ==> 0 <= src[k] < t.dims[k] by {
      assert forall k :: 0 <= k < |src| && k != axis ==> src[k] == d[k];
    }
    OneAxisPastEnd(t.dims, src, axis);
  }

  /** A failed copy read position `length` of the sliced axis at some
      destination offset, so the result was non-empty and `length` was
      selected. */
  lemma SelectFails<T>(t: Tensor<T>, axis: nat, indices: seq<int>)
    requires t.Valid() && axis < |t.dims|
    requires forall k :: 0 <= k < |indices| ==> 0 <= indices[k] <= t.dims[axis]
    requires Select(t, axis, indices).Err?
    ensures Product(t.dims[axis := |indices|]) > 0 && t.dims[axis] in indices
    ensures Select(t, axis, indices).error == OutOfBounds(t.dims[axis], t.dims[axis])
  {
    var nd := t.dims[axis := |indices|];
    var srcs := Sources(nd, axis, indices);
    var g := GatherFrom(t, srcs, 0, []);
    assert g.Err? && Select(t, axis, indices).error == g.error;
    GatherFirstError(t, srcs, 0, []);
    var q :| 0 <= q < Product(nd)
             && !InBounds(t.dims, srcs[q])
             && g.error == Flatten(t.dims, srcs[q]).error;
    SourceInBounds(t, axis, indices, nd, q);
    assert indices[Unflatten(nd, q)[axis]] == t.dims[axis];
  }

  /** When `length` is selected and the result is non-empty, the copy reads
      past the axis at the destination tuple that is 0 everywhere but there. */
  lemma SelectReadsPastEnd<T>(t: Tensor<T>, axis: nat, indices: seq<int>)
    requires t.Valid() && axis < |t.dims|
    requires forall k :: 0 <= k < |indices| ==> 0 <= indices[k] <= t.dims[axis]
    requires Product(t.dims[axis := |indices|]) > 0 && t.dims[axis] in indices
    ensures Select(t, axis, indices).Err?
  {
    var nd := t.dims[axis := |indices|];
    var j :| 0 <= j < |indices| && indices[j] == t.dims[axis];
    var d := seq(|nd|, k requires 0 <= k < |nd| => if k == axis then j else 0);
    ZeroInBounds(nd, axis, j);
    var o := Offset(nd, d);
    UnflattenFlatten(nd, d);
    SourceInBounds(t, axis, indices, nd, o);
    assert !InBounds(t.dims, Sources(nd, axis, indices)[o]);
  }

  /** The one way a well-formed slice fails: the walk selected position
      `length` (only possible for a negative step whose start clamped to
      `length`) and the result is non-empty, so the copy reads past the axis. */
  lemma SliceFailsIff<T>(t: Tensor<T>, axis: int, p: SliceParams)
    requires t.Valid() && 0 <= axis < |t.dims| && p.step.GetOr(1) != 0
    ensures var indices := SliceIndices(t.dims[axis], p);
            Slice(t, axis, p).Err? <==>
              Product(t.dims[axis := |indices|]) > 0 && t.dims[axis] in indices
    ensures Slice(t, axis, p).Err? ==>
              Slice(t, axis, p).error == OutOfBounds(t.dims[axis], t.dims[axis])
  {
    var indices := SliceIndices(t.dims[axis], p);
    assert Slice(t, axis, p) == Select(t, axis, indices);
    if Select(t, axis, indices).Err? {
      SelectFails(t, axis, indices);
    } else if Product(t.dims[axis := |indices|]) > 0 && t.dims[axis] in indices {
      SelectReadsPastEnd(t, axis, indices);
    }
  }

  /** In a non-empty shape, the all-zero tuple with one axis set to any of its
      positions is in bounds. */
  lemma ZeroInBounds(nd: seq<nat>, axis: nat, j: nat)
    requires axis < |nd| && j < nd[axis] && Product(nd) > 0
    ensures InBounds(nd, seq(|nd|, k requires 0 <= k < |nd| => if k == axis then j else 0))
  {
    forall k | 0 <= k < |nd|
      ensures nd[k] > 0
    {
      ProductPositive(nd, k);
    }
  }

  /** A shape with at least one element has no empty axis. */
  lemma {:induction false} ProductPositive(nd: seq<nat>, k: nat)
    requires k < |nd| && Product(nd) > 0
    ensures nd[k] > 0
  {
    if k > 0 {
      assert Product(nd) == nd[0] * Product(nd[1..]);
      ProductPositive(nd[1..], k - 1);
    }
  }

  /** As written, a negative step lets the clamped start equal `length`: on
      an axis of 3, `{start: 5, end: 0, step: -1}` selects 3, 2, 1 and the
      copy fails reading position 3, where Python's `[5:0:-1]` gives 2, 1. */
  lemma NegativeStepSelectsLength<T>(a: T, b: T, c: T)
    ensures SliceIndices(3, SliceParams(Some(5), Some(0), Some(-1))) == [3, 2, 1]
    ensures Slice(Tensor([3], [a, b, c]), 0, SliceParams(Some(5), Some(0), Some(-1)))
            == Err(OutOfBounds(3, 3))
  {
    var p := SliceParams(Some(5), Some(0), Some(-1));
    assert WalkDown(0, 0, -1) == [];
    assert WalkDown(1, 0, -1) == [1];
    assert WalkDown(2, 0, -1) == [2, 1];
    assert WalkDown(3, 0, -1) == [3, 2, 1];
    var t := Tensor([3], [a, b, c]);
    SliceFailsIff(t, 0, p);
  }

  /** With the default end (`length`), a negative step never selects anything:
      the walk starts at or below the end. */
  lemma NegativeStepDefaultEndIsEmpty(length: nat, start: Option<int>, step: int)
    requires step < 0
    ensures SliceIndices(length, SliceParams(start, None, Some(step))) == []
  {
  }

  /** As written, the end of a descending walk is clamped to at least 0, so
      position 0 can never be selected by a negative step: on an axis of 3,
      `{start: 2, end: -10, step: -1}` selects 2, 1 where Python's
      `[2:-10:-1]` gives 2, 1, 0. */
  lemma NegativeStepNeverReachesZero(length: nat, p: SliceParams)
    requires p.step.GetOr(1) < 0
    ensures 0 !in SliceIndices(length, p)
    ensures SliceIndices(3, SliceParams(Some(2), Some(-10), Some(-1))) == [2, 1]
  {
    assert WalkDown(0, 0, -1) == [];
    assert WalkDown(1, 0, -1) == [1];
    assert WalkDown(2, 0, -1) == [2, 1];
  }

  /** A slice bound for a descending walk as Python clamps it: negatives
      count from the end, and the result lies in `[-1, length - 1]`, where -1
      stands for "before position 0". */
  function ClampBoundDown(x: int, length: nat): (r: int)
    ensures -1 <= r < length
  {
    if x < 0 then (if length + x < -1 then -1 else length + x)
    else if x < length then x else length - 1
  }

  /** The selection with the descending clamp corrected; ascending walks are
      unchanged. */
  function FixedSliceIndices(length: nat, p: SliceParams): (r: seq<int>)
    requires p.step.GetOr(1) != 0
    ensures forall k :: 0 <= k < |r| ==> 0 <= r[k] < length
  {
    var step := p.step.GetOr(1);
    if step > 0 then SliceIndices(length, p)
    else WalkDown(ClampBoundDown(p.start.GetOr(0), length), ClampBoundDown(p.end.GetOr(length), length), step)
  }

  /** `slice` with the corrected selection. */
  function FixedSlice<T>(t: Tensor<T>, axis: int, p: SliceParams): (r: Result<Tensor<T>>)
    requires t.Valid()
    ensures !(0 <= axis < |t.dims|) ==> r == Err(AxisOutOfRange(axis, |t.dims|))
    ensures 0 <= axis < |t.dims| && p.step.GetOr(1) == 0 ==> r == Err(ZeroStep)
    ensures r.Ok? ==> var indices := FixedSliceIndices(t.dims[axis], p);
                      r.value.Valid() && r.value.dims == t.dims[axis := |indices|]
  {
    if axis < 0 || axis >= |t.dims| then Err(AxisOutOfRange(axis, |t.dims|))
    else if p.step.GetOr(1) == 0 then Err(ZeroStep)
    else Select(t, axis, FixedSliceIndices(t.dims[axis], p))
  }

  /** The corrected slice fails only for a missing axis or a zero step; it
      agrees with the source's for positive steps, and it reaches position 0
      and never position `length` on the two inputs above. */
  lemma {:induction false} FixedSliceSucceeds<T>(t: Tensor<T>, axis: int, p: SliceParams)
    requires t.Valid()
    ensures FixedSlice(t, axis, p).Ok? <==> 0 <= axis < |t.dims| && p.step.GetOr(1) != 0
    ensures p.step.GetOr(1) > 0 ==> FixedSlice(t, axis, p) == Slice(t, axis, p)
    ensures FixedSliceIndices(3, SliceParams(Some(5), Some(0), Some(-1))) == [2, 1]
    ensures FixedSliceIndices(3, SliceParams(Some(2), Some(-10), Some(-1))) == [2, 1, 0]
  {
    if 0 <= axis < |t.dims| && p.step.GetOr(1) != 0 {
      var indices := FixedSliceIndices(t.dims[axis], p);
      var nd := t.dims[axis := |indices|];
      var srcs := Sources(nd, axis, indices);
      forall q | 0 <= q < Product(nd)
        ensures InBounds(t.dims, srcs[q])
      {
        SourceInBounds(t, axis, indices, nd, q);
      }
      assert GatherFrom(t, srcs, 0, []).Ok?;
    }
    assert WalkDown(-1, -1, -1) == [];
    assert WalkDown(0, -1, -1) == [0];
    assert WalkDown(0, 0, -1) == [];
    assert WalkDown(1, 0, -1) == [1];
    assert WalkDown(1, -1, -1) == [1, 0];
    assert WalkDown(2, 0, -1) == [2, 1];
    assert WalkDown(2, -1, -1) == [2, 1, 0];
  }
}
