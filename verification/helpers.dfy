/** The free helpers of matt-torch.ts on plain lists: `zip`, `sum` and
    `oneHot`. Numbers are reals. */
module ListHelpers {
  import opened Wrappers

  /** `zip`: pairs up equal positions, stopping at the shorter list. */
  function Zip<A, B>(a: seq<A>, b: seq<B>): (r: seq<(A, B)>)
    ensures |r| == if |a| < |b| then |a| else |b|
    ensures forall i :: 0 <= i < |r| ==> r[i] == (a[i], b[i])
  {
    if |a| == 0 || |b| == 0 then [] else [(a[0], b[0])] + Zip(a[1..], b[1..])
  }

  /** The first components of a list of pairs. */
  function Firsts<A, B>(ps: seq<(A, B)>): seq<A>
  {
    if |ps| == 0 then [] else [ps[0].0] + Firsts(ps[1..])
  }

  /** The second components of a list of pairs. */
  function Seconds<A, B>(ps: seq<(A, B)>): seq<B>
  {
    if |ps| == 0 then [] else [ps[0].1] + Seconds(ps[1..])
  }

  /** Unzipping a zip gives back both lists cut to the shorter length. */
  lemma {:induction false} UnzipZip<A, B>(a: seq<A>, b: seq<B>)
    ensures var m := if |a| < |b| then |a| else |b|;
            Firsts(Zip(a, b)) == a[..m] && Seconds(Zip(a, b)) == b[..m]
  {
    if |a| > 0 && |b| > 0 {
      UnzipZip(a[1..], b[1..]);
      assert Zip(a, b)[1..] == Zip(a[1..], b[1..]);
    }
  }

  /** Zipping the two halves of a list of pairs rebuilds it. */
  lemma {:induction false} ZipUnzip<A, B>(ps: seq<(A, B)>)
    ensures Zip(Firsts(ps), Seconds(ps)) == ps
  {
    if |ps| > 0 {
      ZipUnzip(ps[1..]);
      assert Firsts(ps)[1..] == Firsts(ps[1..]);
      assert Seconds(ps)[1..] == Seconds(ps[1..]);
    }
  }

  /** Sum of a list, last element innermost (reference definition). */
  function Total(xs: seq<real>): real
  {
    if |xs| == 0 then 0.0 else xs[0] + Total(xs[1..])
  }

  /** `reduce((acc, cur) => acc += cur, acc)`: adds the elements to the
      accumulator from the first to the last. */
  function Accumulate(acc: real, xs: seq<real>): real
    decreases |xs|
  {
    if |xs| == 0 then acc else Accumulate(acc + xs[0], xs[1..])
  }

  /** The left-to-right accumulation is the start plus the total. */
  lemma {:induction false} AccumulateTotal(acc: real, xs: seq<real>)
    ensures Accumulate(acc, xs) == acc + Total(xs)
    decreases |xs|
  {
    if |xs| > 0 {
      AccumulateTotal(acc + xs[0], xs[1..]);
    }
  }

  /** `sum(arr, start)`: `start ?? 0` plus every element. */
  function Sum(xs: seq<real>, start: Option<real>): (r: real)
    ensures r == start.GetOr(0.0) + Total(xs)
  {
    AccumulateTotal(start.GetOr(0.0), xs);
    Accumulate(start.GetOr(0.0), xs)
  }

  lemma {:induction false} TotalAppend(xs: seq<real>, x: real)
    ensures Total(xs + [x]) == Total(xs) + x
  {
    if |xs| > 0 {
      assert (xs + [x])[1..] == xs[1..] + [x];
      TotalAppend(xs[1..], x);
    }
  }

  /** Appending an element to the list adds it to the sum. */
  lemma SumAppend(xs: seq<real>, start: Option<real>, x: real)
    ensures Sum(xs + [x], start) == Sum(xs, start) + x
  {
    TotalAppend(xs, x);
  }

  /** A slot of a JavaScript array: a number, or a hole left by writing past
      the end. */
  datatype Cell = Num(x: real) | Hole

  /** `arr[i] = x` on a JavaScript array: an index inside the array replaces
      the slot, an index past the end grows the array with holes up to it,
      and a negative index sets a property that is not an element. */
  function Store(arr: seq<Cell>, i: int, x: real): (r: seq<Cell>)
    ensures i < 0 ==> r == arr
    ensures i >= 0 ==> |r| == (if i < |arr| then |arr| else i + 1) && r[i] == Num(x)
    ensures i >= 0 ==> forall j :: 0 <= j < |r| && j != i ==>
                         r[j] == (if j < |arr| then arr[j] else Hole)
  {
    if i < 0 then arr
    else if i < |arr| then arr[i := Num(x)]
    else arr + seq(i - |arr|, _ => Hole) + [Num(x)]
  }

  /** One row of `oneHot`: `num_classes` zeros, then a 1 stored at the class. */
  function OneHotRow(v: int, classes: nat): seq<Cell>
  {
    Store(seq(classes, _ => Num(0.0)), v, 1.0)
  }

  /** `oneHot(vals, num_classes)`: one row per value. */
  function OneHot(vals: seq<int>, classes: nat): (r: seq<seq<Cell>>)
    ensures |r| == |vals|
    ensures forall i :: 0 <= i < |vals| && 0 <= vals[i] < classes ==>
              |r[i]| == classes &&
              forall j :: 0 <= j < classes ==> r[i][j] == Num(if j == vals[i] then 1.0 else 0.0)
    ensures forall i :: 0 <= i < |vals| && vals[i] >= classes ==>
              |r[i]| == vals[i] + 1 && r[i][vals[i]] == Num(1.0) &&
              forall j :: 0 <= j < vals[i] ==> r[i][j] == (if j < classes then Num(0.0) else Hole)
    ensures forall i :: 0 <= i < |vals| && vals[i] < 0 ==>
              r[i] == seq(classes, _ => Num(0.0))
  {
    seq(|vals|, i requires 0 <= i < |vals| => OneHotRow(vals[i], classes))
  }

  /** The position of the first 1 of a row, if any (reading a one-hot row
      back as a class). */
  function ClassOf(row: seq<Cell>): (r: Option<nat>)
    ensures r.Some? ==> r.value < |row| && row[r.value] == Num(1.0) &&
                        forall j :: 0 <= j < r.value ==> row[j] != Num(1.0)
    ensures r.None? ==> forall j :: 0 <= j < |row| ==> row[j] != Num(1.0)
  {
    if |row| == 0 then None
    else if row[0] == Num(1.0) then Some(0)
    else match ClassOf(row[1..])
      case Some(k) => Some(k + 1)
      case None => None
  }

  /** Reading each row of `oneHot` back gives the class it encodes; a
      negative class leaves an all-zero row. */
  lemma OneHotClass(vals: seq<int>, classes: nat, i: nat)
    requires i < |vals|
    ensures ClassOf(OneHot(vals, classes)[i]) == if vals[i] >= 0 then Some(vals[i] as nat) else None
  {
    var row := OneHot(vals, classes)[i];
    var c := ClassOf(row);
    if vals[i] >= 0 {
      assert row[vals[i]] == Num(1.0);
    }
  }

  /** With every class in range, decoding the rows of `oneHot` gives back
      the values. */
  lemma OneHotRoundTrip(vals: seq<int>, classes: nat)
    requires forall i :: 0 <= i < |vals| ==> 0 <= vals[i] < classes
    ensures forall i :: 0 <= i < |vals| ==> ClassOf(OneHot(vals, classes)[i]) == Some(vals[i] as nat)
  {
    forall i | 0 <= i < |vals|
      ensures ClassOf(OneHot(vals, classes)[i]) == Some(vals[i] as nat)
    {
      OneHotClass(vals, classes, i);
    }
  }
}
