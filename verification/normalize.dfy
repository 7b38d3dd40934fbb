/** `normalize` (structures/Tensor.ts): elements are grouped by all of their
    coordinates except the last; each group's sum is built as a chain of
    `add` nodes starting from a fresh leaf 0, then every element is divided
    by its group's sum node. */
module Normalization {
  import opened Wrappers
  import opened Shape
  import opened Tensors
  import opened Autograd
  import opened NodeTensors

  /** The group key of a location: every coordinate but the last, and the
      empty key for a rank-1 tensor (the source joins the coordinates with
      commas, which is injective on locations of one rank). */
  function GroupKey(loc: seq<nat>): seq<nat>
  {
    if |loc| > 1 then loc[..|loc| - 1] else []
  }

  /** The group key of the element at offset `o`. */
  function KeyAt(dims: seq<nat>, o: nat): seq<nat>
    requires o < Product(dims)
  {
    GroupKey(Unflatten(dims, o))
  }

  /** The group keys of the first `n` offsets, in storage order. */
  function KeysUpTo(dims: seq<nat>, n: nat): (ks: seq<seq<nat>>)
    requires n <= Product(dims)
    ensures |ks| == n
  {
    if n == 0 then [] else KeysUpTo(dims, n - 1) + [KeyAt(dims, n - 1)]
  }

  /** The group keys of all offsets, in storage order. */
  function Keys(dims: seq<nat>): (ks: seq<seq<nat>>)
    ensures |ks| == Product(dims)
  {
    KeysUpTo(dims, Product(dims))
  }

  lemma {:induction false} KeysUpToAt(dims: seq<nat>, n: nat, o: nat)
    requires o < n <= Product(dims)
    ensures KeysUpTo(dims, n)[o] == KeyAt(dims, o)
  {
    if o < n - 1 {
      KeysUpToAt(dims, n - 1, o);
    }
  }

  /** Entry `o` of the key list is the key of the element at offset `o`. */
  lemma KeysAt(dims: seq<nat>, o: nat)
    requires o < Product(dims)
    ensures Keys(dims)[o] == KeyAt(dims, o)
  {
    KeysUpToAt(dims, Product(dims), o);
  }

  /** The data of a list of nodes. */
  function Values(g: Graph, hs: seq<Handle>): (v: seq<real>)
    requires InGraph(hs, g)
    ensures |v| == |hs| && forall i :: 0 <= i < |hs| ==> v[i] == g[hs[i]].data
  {
    seq(|hs|, i requires 0 <= i < |hs| => g[hs[i]].data)
  }

  lemma ValuesExtends(g: Graph, r: Graph, hs: seq<Handle>)
    requires InGraph(hs, g) && Extends(g, r)
    ensures InGraph(hs, r) && Values(r, hs) == Values(g, hs)
  {
    forall i | 0 <= i < |hs|
      ensures r[hs[i]] == g[hs[i]]
    {
      ExtendsAt(g, r, hs[i]);
    }
  }

  /** Sum of the values among the first `i` whose key is `key`. */
  function GroupTotal(vals: seq<real>, ks: seq<seq<nat>>, key: seq<nat>, i: nat): real
    requires i <= |vals| && i <= |ks|
  {
    if i == 0 then 0.0
    else GroupTotal(vals, ks, key, i - 1) + (if ks[i - 1] == key then vals[i - 1] else 0.0)
  }

  /** Sum of the data of the elements among the first `i` whose key in `ks`
      is `key`. */
  function GroupSum(g: Graph, hs: seq<Handle>, ks: seq<seq<nat>>, key: seq<nat>, i: nat): real
    requires InGraph(hs, g) && |ks| == |hs| && i <= |hs|
  {
    GroupTotal(Values(g, hs), ks, key, i)
  }

  lemma GroupSumExtends(g: Graph, r: Graph, hs: seq<Handle>, ks: seq<seq<nat>>, key: seq<nat>, i: nat)
    requires InGraph(hs, g) && |ks| == |hs| && i <= |hs| && Extends(g, r)
    ensures InGraph(hs, r) && GroupSum(r, hs, ks, key, i) == GroupSum(g, hs, ks, key, i)
  {
    ValuesExtends(g, r, hs);
  }

  /** A key none of the first `i` values carries sums to 0. */
  lemma {:induction false} GroupTotalAbsent(vals: seq<real>, ks: seq<seq<nat>>, key: seq<nat>, i: nat)
    requires i <= |vals| && i <= |ks|
    requires forall j :: 0 <= j < i ==> ks[j] != key
    ensures GroupTotal(vals, ks, key, i) == 0.0
  {
    if i > 0 {
      GroupTotalAbsent(vals, ks, key, i - 1);
    }
  }

  /** The sum map after the first `i` elements: each entry's node holds its
      group's running sum, and every key seen so far has an entry. */
  predicate SumsOk(g: Graph, hs: seq<Handle>, ks: seq<seq<nat>>, i: nat, sums: map<seq<nat>, Handle>)
    requires InGraph(hs, g) && |ks| == |hs| && i <= |hs|
  {
    && (forall key :: key in sums ==> sums[key] < |g| && g[sums[key]].data == GroupSum(g, hs, ks, key, i))
    && (forall j :: 0 <= j < i ==> ks[j] in sums)
  }

  datatype Sums = Sums(graph: Graph, sums: map<seq<nat>, Handle>)

  /** The first loop of `normalize` from offset `i` on, element `i` having
      key `ks[i]`: `sums[key] = (sums[key] ?? new Value(0)).add(data[i])`. */
  function SumGroups(g: Graph, hs: seq<Handle>, ks: seq<seq<nat>>, i: nat, sums: map<seq<nat>, Handle>): (r: Sums)
    requires Valid(g) && InGraph(hs, g) && |ks| == |hs| && i <= |hs|
    requires SumsOk(g, hs, ks, i, sums)
    ensures Valid(r.graph) && Extends(g, r.graph) && InGraph(hs, r.graph)
    ensures SumsOk(r.graph, hs, ks, |hs|, r.sums)
    decreases |hs| - i
  {
    if i == |hs| then Sums(g, sums)
    else
      var key := ks[i];
      var prev := if key in sums then Step(g, sums[key]) else NewValue(g, 0.0);
      var s := AddNodes(prev.graph, prev.node, hs[i]);
      SumGroupsStep(g, hs, ks, i, sums, prev, s);
      var r := SumGroups(s.graph, hs, ks, i + 1, sums[key := s.node]);
      ExtendsTrans(g, s.graph, r.graph);
      r
  }

  lemma SumGroupsStep(g: Graph, hs: seq<Handle>, ks: seq<seq<nat>>, i: nat, sums: map<seq<nat>, Handle>, prev: Step, s: Step)
    requires Valid(g) && InGraph(hs, g) && |ks| == |hs| && i < |hs|
    requires SumsOk(g, hs, ks, i, sums)
    requires prev == if ks[i] in sums then Step(g, sums[ks[i]]) else NewValue(g, 0.0)
    requires Valid(prev.graph) && Extends(g, prev.graph) && prev.node < |prev.graph|
    requires Extends(prev.graph, s.graph) && s.node < |s.graph|
    requires s.graph[s.node].data == prev.graph[prev.node].data + prev.graph[hs[i]].data
    ensures Extends(g, s.graph) && InGraph(hs, s.graph)
    ensures SumsOk(s.graph, hs, ks, i + 1, sums[ks[i] := s.node])
  {
    var key := ks[i];
    ExtendsTrans(g, prev.graph, s.graph);
    ExtendsAt(g, prev.graph, hs[i]);
    GroupSumExtends(g, s.graph, hs, ks, key, i);
    if key in sums {
      ExtendsAt(g, prev.graph, sums[key]);
    } else {
      GroupTotalAbsent(Values(g, hs), ks, key, i);
    }
    var sums' := sums[key := s.node];
    forall k | k in sums'
      ensures sums'[k] < |s.graph| && s.graph[sums'[k]].data == GroupSum(s.graph, hs, ks, k, i + 1)
    {
      GroupSumExtends(g, s.graph, hs, ks, k, i);
      if k != key {
        ExtendsAt(g, s.graph, sums[k]);
      }
    }
  }

  /** The second pass of `normalize` (its `map`) from offset `o` on: each
      element is divided by its group's sum node (`val.divide(rowSum)`),
      failing if the group has no sum. */
  function DivideAll(g: Graph, hs: seq<Handle>, ks: seq<seq<nat>>, sums: map<seq<nat>, Handle>, o: nat, acc: seq<Handle>): (r: Result<Allocated>)
    requires Valid(g) && InGraph(hs, g) && |ks| == |hs| && o <= |hs| && |acc| == o && InGraph(acc, g)
    requires forall key :: key in sums ==> sums[key] < |g|
    requires forall j :: o <= j < |hs| && ks[j] in sums ==> g[sums[ks[j]]].data != 0.0
    ensures r.Err? ==> r.error == MissingRowSum
    ensures r.Ok? ==> Valid(r.value.graph) && Extends(g, r.value.graph)
    ensures r.Ok? ==> |r.value.handles| == |hs| && InGraph(r.value.handles, r.value.graph)
    ensures r.Ok? ==> r.value.handles[..o] == acc
    ensures r.Ok? ==> forall j :: o <= j < |hs| ==>
                        ks[j] in sums &&
                        r.value.graph[r.value.handles[j]].data == g[hs[j]].data / g[sums[ks[j]]].data
    decreases |hs| - o
  {
    if o == |hs| then Ok(Allocated(g, acc))
    else
      var key := ks[o];
      if key !in sums then Err(MissingRowSum)
      else
        var d := Divide(g, hs[o], sums[key]);
        DivideAllStep(g, hs, ks, sums, o, acc, d);
        var r := DivideAll(d.graph, hs, ks, sums, o + 1, acc + [d.node]);
        if r.Ok? then DivideAllDone(g, hs, ks, sums, o, acc, d, r.value); r else r
  }

  lemma DivideAllStep(g: Graph, hs: seq<Handle>, ks: seq<seq<nat>>, sums: map<seq<nat>, Handle>, o: nat, acc: seq<Handle>, d: Step)
    requires InGraph(hs, g) && |ks| == |hs| && o < |hs| && InGraph(acc, g)
    requires forall key :: key in sums ==> sums[key] < |g|
    requires forall j :: o <= j < |hs| && ks[j] in sums ==> g[sums[ks[j]]].data != 0.0
    requires Extends(g, d.graph) && d.node < |d.graph|
    ensures InGraph(hs, d.graph) && InGraph(acc + [d.node], d.graph)
    ensures forall key :: key in sums ==> sums[key] < |d.graph|
    ensures forall j :: o + 1 <= j < |hs| && ks[j] in sums ==> d.graph[sums[ks[j]]].data != 0.0
  {
    forall j | o + 1 <= j < |hs| && ks[j] in sums
      ensures d.graph[sums[ks[j]]].data != 0.0
    {
      ExtendsAt(g, d.graph, sums[ks[j]]);
    }
  }

  lemma DivideAllDone(g: Graph, hs: seq<Handle>, ks: seq<seq<nat>>, sums: map<seq<nat>, Handle>, o: nat, acc: seq<Handle>, d: Step, a: Allocated)
    requires InGraph(hs, g) && |ks| == |hs| && o < |hs|
    requires forall key :: key in sums ==> sums[key] < |g|
    requires ks[o] in sums
    requires forall j :: o <= j < |hs| && ks[j] in sums ==> g[sums[ks[j]]].data != 0.0
    requires Extends(g, d.graph) && d.node < |d.graph|
    requires forall j :: o + 1 <= j < |hs| && ks[j] in sums ==> d.graph[sums[ks[j]]].data != 0.0
    requires d.graph[d.node].data == g[hs[o]].data / g[sums[ks[o]]].data
    requires Extends(d.graph, a.graph) && |a.handles| == |hs| && a.handles[..o + 1] == acc + [d.node]
    requires InGraph(a.handles, a.graph)
    requires forall j :: o + 1 <= j < |hs| ==>
               ks[j] in sums &&
               a.graph[a.handles[j]].data == d.graph[hs[j]].data / d.graph[sums[ks[j]]].data
    ensures Extends(g, a.graph) && a.handles[..o] == acc
    ensures forall j :: o <= j < |hs| ==>
              ks[j] in sums &&
              a.graph[a.handles[j]].data == g[hs[j]].data / g[sums[ks[j]]].data
  {
    ExtendsTrans(g, d.graph, a.graph);
    assert a.handles[..o] == a.handles[..o + 1][..o];
    assert a.handles[o] == a.handles[..o + 1][o] == d.node;
    ExtendsAt(d.graph, a.graph, d.node);
    forall j | o + 1 <= j < |hs|
      ensures a.graph[a.handles[j]].data == g[hs[j]].data / g[sums[ks[j]]].data
    {
      ExtendsAt(g, d.graph, hs[j]);
      ExtendsAt(g, d.graph, sums[ks[j]]);
    }
  }

  /** Every group sums to something nonzero (the model's reals have no
      infinities, so division by a zero sum is excluded). */
  predicate NonzeroGroups(g: Graph, hs: seq<Handle>, ks: seq<seq<nat>>)
    requires InGraph(hs, g) && |ks| == |hs|
  {
    forall o :: 0 <= o < |hs| ==> GroupSum(g, hs, ks, ks[o], |hs|) != 0.0
  }

  /** Both passes over the elements `hs` keyed by `ks`. */
  function NormalizeNodes(g: Graph, hs: seq<Handle>, ks: seq<seq<nat>>): (r: Result<Allocated>)
    requires Valid(g) && InGraph(hs, g) && |ks| == |hs| && NonzeroGroups(g, hs, ks)
    ensures r.Err? ==> r.error == MissingRowSum
    ensures r.Ok? ==> Valid(r.value.graph) && Extends(g, r.value.graph)
    ensures r.Ok? ==> |r.value.handles| == |hs| && InGraph(r.value.handles, r.value.graph)
    ensures r.Ok? ==> forall o :: 0 <= o < |hs| ==>
              r.value.graph[r.value.handles[o]].data == g[hs[o]].data / GroupSum(g, hs, ks, ks[o], |hs|)
  {
    var p := SumGroups(g, hs, ks, 0, map[]);
    NormalizeSums(g, hs, ks, p);
    var d :- DivideAll(p.graph, hs, ks, p.sums, 0, []);
    NormalizeDone(g, hs, ks, p, d);
    Ok(d)
  }

  lemma NormalizeSums(g: Graph, hs: seq<Handle>, ks: seq<seq<nat>>, p: Sums)
    requires InGraph(hs, g) && |ks| == |hs| && NonzeroGroups(g, hs, ks)
    requires Extends(g, p.graph) && InGraph(hs, p.graph)
    requires SumsOk(p.graph, hs, ks, |hs|, p.sums)
    ensures forall key :: key in p.sums ==> p.sums[key] < |p.graph|
    ensures forall j :: 0 <= j < |hs| && ks[j] in p.sums ==> p.graph[p.sums[ks[j]]].data != 0.0
  {
    forall j | 0 <= j < |hs| && ks[j] in p.sums
      ensures p.graph[p.sums[ks[j]]].data != 0.0
    {
      GroupSumExtends(g, p.graph, hs, ks, ks[j], |hs|);
    }
  }

  lemma NormalizeDone(g: Graph, hs: seq<Handle>, ks: seq<seq<nat>>, p: Sums, d: Allocated)
    requires InGraph(hs, g) && |ks| == |hs| && NonzeroGroups(g, hs, ks)
    requires Extends(g, p.graph) && InGraph(hs, p.graph)
    requires SumsOk(p.graph, hs, ks, |hs|, p.sums)
    requires forall key :: key in p.sums ==> p.sums[key] < |p.graph|
    requires forall j :: 0 <= j < |hs| && ks[j] in p.sums ==> p.graph[p.sums[ks[j]]].data != 0.0
    requires Extends(p.graph, d.graph)
    requires |d.handles| == |hs| && InGraph(d.handles, d.graph)
    requires forall j :: 0 <= j < |hs| ==>
               ks[j] in p.sums &&
               d.graph[d.handles[j]].data == p.graph[hs[j]].data / p.graph[p.sums[ks[j]]].data
    ensures Extends(g, d.graph)
    ensures forall o :: 0 <= o < |hs| ==>
              d.graph[d.handles[o]].data == g[hs[o]].data / GroupSum(g, hs, ks, ks[o], |hs|)
  {
    ExtendsTrans(g, p.graph, d.graph);
    forall o | 0 <= o < |hs|
      ensures d.graph[d.handles[o]].data == g[hs[o]].data / GroupSum(g, hs, ks, ks[o], |hs|)
    {
      ExtendsAt(g, p.graph, hs[o]);
      GroupSumExtends(g, p.graph, hs, ks, ks[o], |hs|);
    }
  }

  /** `normalize`: same shape, and each element is the source element
      divided by the sum of its group. */
  function Normalize(g: Graph, t: Tensor<Handle>): (r: Result<Built>)
    requires Valid(g) && t.Valid() && InGraph(t.data, g) && NonzeroGroups(g, t.data, Keys(t.dims))
    ensures r.Err? ==> r.error == MissingRowSum
    ensures r.Ok? ==> BuiltOk(g, r.value) && r.value.tensor.dims == t.dims
    ensures r.Ok? ==> forall o :: 0 <= o < |t.data| ==>
              r.value.graph[r.value.tensor.data[o]].data ==
                g[t.data[o]].data / GroupSum(g, t.data, Keys(t.dims), Keys(t.dims)[o], |t.data|)
  {
    var d :- NormalizeNodes(g, t.data, Keys(t.dims));
    Ok(Built(d.graph, Tensor(t.dims, d.handles)))
  }

  /** Every group's sum node exists when the second pass needs it, so the
      "missing a row sum" error cannot happen. */
  lemma {:induction false} DivideAllSucceeds(g: Graph, hs: seq<Handle>, ks: seq<seq<nat>>, sums: map<seq<nat>, Handle>, o: nat, acc: seq<Handle>)
    requires Valid(g) && InGraph(hs, g) && |ks| == |hs| && o <= |hs| && |acc| == o && InGraph(acc, g)
    requires forall key :: key in sums ==> sums[key] < |g|
    requires forall j :: o <= j < |hs| && ks[j] in sums ==> g[sums[ks[j]]].data != 0.0
    requires forall j :: o <= j < |hs| ==> ks[j] in sums
    ensures DivideAll(g, hs, ks, sums, o, acc).Ok?
    decreases |hs| - o
  {
    if o < |hs| {
      var d := Divide(g, hs[o], sums[ks[o]]);
      DivideAllStep(g, hs, ks, sums, o, acc, d);
      DivideAllSucceeds(d.graph, hs, ks, sums, o + 1, acc + [d.node]);
    }
  }

  lemma NormalizeNodesSucceeds(g: Graph, hs: seq<Handle>, ks: seq<seq<nat>>)
    requires Valid(g) && InGraph(hs, g) && |ks| == |hs| && NonzeroGroups(g, hs, ks)
    ensures NormalizeNodes(g, hs, ks).Ok?
  {
    var p := SumGroups(g, hs, ks, 0, map[]);
    NormalizeSums(g, hs, ks, p);
    DivideAllSucceeds(p.graph, hs, ks, p.sums, 0, []);
  }

  lemma NormalizeSucceeds(g: Graph, t: Tensor<Handle>)
    requires Valid(g) && t.Valid() && InGraph(t.data, g) && NonzeroGroups(g, t.data, Keys(t.dims))
    ensures Normalize(g, t).Ok?
  {
    NormalizeNodesSucceeds(g, t.data, Keys(t.dims));
  }

  /** Dividing every value of a group by `s` divides the group's total by `s`. */
  lemma {:induction false} GroupTotalScaled(vals: seq<real>, scaled: seq<real>, ks: seq<seq<nat>>, key: seq<nat>, s: real, i: nat)
    requires s != 0.0 && i <= |vals| && i <= |scaled| && i <= |ks|
    requires forall j :: 0 <= j < i && ks[j] == key ==> scaled[j] == vals[j] / s
    ensures GroupTotal(scaled, ks, key, i) == GroupTotal(vals, ks, key, i) / s
  {
    if i > 0 {
      GroupTotalScaled(vals, scaled, ks, key, s, i - 1);
    }
  }

  lemma DivSelf(s: real)
    requires s != 0.0
    ensures s / s == 1.0
  {
  }

  /** Every group of the divided elements sums to 1. */
  lemma NormalizeNodesSumToOne(g: Graph, hs: seq<Handle>, ks: seq<seq<nat>>, o: nat)
    requires Valid(g) && InGraph(hs, g) && |ks| == |hs| && NonzeroGroups(g, hs, ks)
    requires o < |hs| && NormalizeNodes(g, hs, ks).Ok?
    ensures var a := NormalizeNodes(g, hs, ks).value;
            GroupSum(a.graph, a.handles, ks, ks[o], |hs|) == 1.0
  {
    var a := NormalizeNodes(g, hs, ks).value;
    var key := ks[o];
    var s := GroupSum(g, hs, ks, key, |hs|);
    assert s != 0.0;
    var vals, scaled := Values(g, hs), Values(a.graph, a.handles);
    forall j | 0 <= j < |hs| && ks[j] == key
      ensures scaled[j] == vals[j] / s
    {
      assert scaled[j] == g[hs[j]].data / GroupSum(g, hs, ks, ks[j], |hs|);
    }
    GroupTotalScaled(vals, scaled, ks, key, s, |hs|);
    assert GroupTotal(vals, ks, key, |hs|) == s;
    DivSelf(s);
  }

  /** Over the reals, with nonzero group sums, every group of the normalized
      tensor sums to 1. */
  lemma NormalizeSumsToOne(g: Graph, t: Tensor<Handle>, o: nat)
    requires Valid(g) && t.Valid() && InGraph(t.data, g) && NonzeroGroups(g, t.data, Keys(t.dims))
    requires o < |t.data|
    ensures Normalize(g, t).Ok?
    ensures var b := Normalize(g, t).value;
            GroupSum(b.graph, b.tensor.data, Keys(t.dims), Keys(t.dims)[o], |t.data|) == 1.0
  {
    NormalizeSucceeds(g, t);
    NormalizeNodesSumToOne(g, t.data, Keys(t.dims), o);
  }

  /** The element at in-bounds coordinates `c` carries the key `c` without
      its last coordinate; in a rank-1 tensor every element carries the
      empty key, so there is a single group. */
  lemma GroupKeyAt(dims: seq<nat>, c: seq<int>)
    requires InBounds(dims, c) && |dims| >= 1
    ensures Offset(dims, c) < Product(dims)
    ensures KeyAt(dims, Offset(dims, c)) == c[..|c| - 1]
    ensures |dims| == 1 ==> KeyAt(dims, Offset(dims, c)) == []
  {
    UnflattenFlatten(dims, c);
  }

  /** An offset whose key is `p` lies in the last-axis row after `p`. */
  lemma KeyInRow(dims: seq<nat>, p: seq<int>, j: nat)
    requires |dims| >= 1 && InBounds(dims, p + [0]) && j < Product(dims)
    requires KeyAt(dims, j) == p
    ensures Offset(dims, p + [0]) <= j < Offset(dims, p + [0]) + dims[|dims| - 1]
  {
    var n := |dims|;
    var c := Unflatten(dims, j);
    assert GroupKey(c) == p;
    assert c[..n - 1] == p;
    assert c == p + [c[n - 1]];
    DotUnflatten(dims, j);
    RowOffset(dims, p, c[n - 1]);
  }

  /** Every offset of the last-axis row after `p` has key `p`. */
  lemma RowHasKey(dims: seq<nat>, p: seq<int>, j: nat)
    requires |dims| >= 1 && InBounds(dims, p + [0])
    requires Offset(dims, p + [0]) <= j < Offset(dims, p + [0]) + dims[|dims| - 1]
    ensures j < Product(dims) && KeyAt(dims, j) == p
  {
    var k := j - Offset(dims, p + [0]);
    var pk := p + [k];
    RowInBounds(dims, p, k);
    RowOffset(dims, p, k);
    assert Offset(dims, pk) == j;
    GroupKeyAt(dims, pk);
    assert pk[..|dims| - 1] == p;
  }

  /** The offsets of the group with key `p` are exactly the last-axis row
      after `p`: `[base, base + last)` with `base` the offset of `p + [0]`. */
  lemma KeyIffRow(dims: seq<nat>, p: seq<int>, j: nat)
    requires |dims| >= 1 && InBounds(dims, p + [0]) && j < Product(dims)
    ensures var base, last := Offset(dims, p + [0]), dims[|dims| - 1];
            KeyAt(dims, j) == p <==> base <= j < base + last
  {
    if KeyAt(dims, j) == p {
      KeyInRow(dims, p, j);
    }
    if Offset(dims, p + [0]) <= j < Offset(dims, p + [0]) + dims[|dims| - 1] {
      RowHasKey(dims, p, j);
    }
  }

  /** Sum of `vals[lo..hi]`, last element last. */
  function RangeSum(vals: seq<real>, lo: nat, hi: nat): real
    requires hi <= |vals|
    decreases hi
  {
    if hi <= lo then 0.0 else RangeSum(vals, lo, hi - 1) + vals[hi - 1]
  }

  /** When the offsets carrying `key` are exactly `[lo, hi)`, the running
      group total is the sum over the part of that range seen so far. */
  lemma {:induction false} GroupTotalRange(vals: seq<real>, ks: seq<seq<nat>>, key: seq<nat>, lo: nat, hi: nat, i: nat)
    requires |vals| == |ks| && lo <= hi <= |ks| && i <= |ks|
    requires forall j :: 0 <= j < |ks| ==> (ks[j] == key <==> lo <= j < hi)
    ensures GroupTotal(vals, ks, key, i) == RangeSum(vals, lo, if i < hi then i else hi)
  {
    if i > 0 {
      GroupTotalRange(vals, ks, key, lo, hi, i - 1);
    }
  }

  lemma {:induction false} DataSumAppend(g: Graph, hs: seq<Handle>, h: Handle)
    requires InGraph(hs, g) && h < |g|
    ensures InGraph(hs + [h], g) && DataSum(g, hs + [h]) == DataSum(g, hs) + g[h].data
  {
    if |hs| > 0 {
      assert (hs + [h])[1..] == hs[1..] + [h];
      DataSumAppend(g, hs[1..], h);
    }
  }

  lemma {:induction false} RangeSumIsDataSum(g: Graph, hs: seq<Handle>, lo: nat, hi: nat)
    requires InGraph(hs, g) && lo <= hi <= |hs|
    ensures RangeSum(Values(g, hs), lo, hi) == DataSum(g, hs[lo..hi])
    decreases hi
  {
    if lo < hi {
      RangeSumIsDataSum(g, hs, lo, hi - 1);
      assert hs[lo..hi] == hs[lo..hi - 1] + [hs[hi - 1]];
      DataSumAppend(g, hs[lo..hi - 1], hs[hi - 1]);
    }
  }

  /** The offsets carrying `key` are exactly `[lo, hi)`. */
  predicate KeyRun(ks: seq<seq<nat>>, key: seq<nat>, lo: nat, hi: nat)
  {
    forall j :: 0 <= j < |ks| ==> (ks[j] == key <==> lo <= j < hi)
  }

  /** A group whose offsets are exactly `[lo, hi)` sums the data of the
      nodes stored there. */
  lemma GroupSumRun(g: Graph, hs: seq<Handle>, ks: seq<seq<nat>>, key: seq<nat>, lo: nat, hi: nat)
    requires InGraph(hs, g) && |ks| == |hs| && lo <= hi <= |hs|
    requires KeyRun(ks, key, lo, hi)
    ensures GroupSum(g, hs, ks, key, |hs|) == DataSum(g, hs[lo..hi])
  {
    GroupTotalRange(Values(g, hs), ks, key, lo, hi, |hs|);
    RangeSumIsDataSum(g, hs, lo, hi);
  }

  /** The offsets whose key is `p`, listed through `Keys`, form the
      last-axis row after `p`. */
  lemma KeysRow(dims: seq<nat>, p: seq<nat>)
    requires |dims| >= 1 && InBounds(dims, p + [0])
    ensures KeyRun(Keys(dims), p, Offset(dims, p + [0]), Offset(dims, p + [0]) + dims[|dims| - 1])
  {
    var ks, base := Keys(dims), Offset(dims, p + [0]);
    forall j | 0 <= j < |ks|
      ensures ks[j] == p <==> base <= j < base + dims[|dims| - 1]
    {
      KeysAt(dims, j);
      KeyIffRow(dims, p, j);
    }
  }

  /** The group with key `p` sums the nodes stored in the last-axis run
      after `p`. */
  lemma GroupSumIsRun(g: Graph, t: Tensor<Handle>, p: seq<nat>)
    requires t.Valid() && InGraph(t.data, g) && InBounds(t.dims, p + [0])
    ensures Offset(t.dims, p + [0]) + t.dims[|t.dims| - 1] <= |t.data|
    ensures GroupSum(g, t.data, Keys(t.dims), p, |t.data|)
            == DataSum(g, t.data[Offset(t.dims, p + [0]) .. Offset(t.dims, p + [0]) + t.dims[|t.dims| - 1]])
  {
    var base, last := Offset(t.dims, p + [0]), t.dims[|t.dims| - 1];
    assert base + last <= |t.data| by {
      VRowRun(t, p);
    }
    KeysRow(t.dims, p);
    GroupSumRun(g, t.data, Keys(t.dims), p, base, base + last);
  }

  /** The group with key `p` is the last-axis row after `p`: its sum is the
      sum of the data `vrow(p)` returns. */
  lemma GroupSumIsRow(g: Graph, t: Tensor<Handle>, p: seq<nat>)
    requires t.Valid() && InGraph(t.data, g) && InBounds(t.dims, p + [0])
    ensures VRow(t, p).Ok? && InGraph(VRow(t, p).value, g)
    ensures GroupSum(g, t.data, Keys(t.dims), p, |t.data|) == DataSum(g, VRow(t, p).value)
  {
    VRowRun(t, p);
    GroupSumIsRun(g, t, p);
  }
}
