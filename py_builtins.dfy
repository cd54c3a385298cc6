/** The parts of Python's built-in types that the lazy sequences lean on:
    the `next()` protocol's end marker, the exceptions they raise, `slice.indices`,
    `range`, and the list operations they apply to their cache
    (`xs[i:j:k]`, `xs[i:j] = ys`, `del xs[i]`, `xs.insert(i, v)`). */
module PyBuiltins {

  /** What `next(iterator)` gives: a value, or the end of the iteration
      (Python signals the end by raising `StopIteration`). */
  datatype Option<T> = None | Some(value: T)

  /** The exceptions that escape the lazy sequences. */
  datatype Exception =
    | IndexError(message: string)
    | TypeError   // `max()` applied to a slice bound that was left out
    | ValueError  // a slice step of zero

  datatype Result<T> = Ok(value: T) | Raised(error: Exception)

  /** The result of an operation that returns nothing (Python's `None`). */
  datatype Outcome = Done | Failed(error: Exception)

  /** A slice object `slice(start, stop, step)`; a missing part is `None`. */
  datatype Slice = Slice(start: Option<int>, stop: Option<int>, step: Option<int>)

  /** The step a slice walks with: a missing step means 1. */
  function StepOf(sl: Slice): (r: int)
    ensures sl.step.None? ==> r == 1
    ensures sl.step.Some? ==> r == sl.step.value
  {
    match sl.step
    case None => 1
    case Some(k) => k
  }

  function Min(a: int, b: int): int { if a <= b then a else b }

  function Max(a: int, b: int): int { if a <= b then b else a }

  /** One bound of `slice.indices(length)`: a missing bound takes the default,
      a negative one counts from the end, and the result is clamped into
      `[lower, upper]`. */
  function ResolveBound(bound: Option<int>, default: int, lower: int, upper: int, length: nat): (r: int)
    requires lower <= 0 && lower <= default <= upper && length - 1 <= upper <= length
    ensures lower <= r <= upper
    ensures bound.Some? && 0 <= bound.value <= upper ==> r == bound.value
    ensures bound.Some? && bound.value < 0 && lower <= bound.value + length ==> r == bound.value + length
    ensures bound.Some? && bound.value > upper ==> r == upper
    ensures bound.Some? && bound.value < 0 && bound.value + length < lower ==> r == lower
  {
    match bound
    case None => default
    case Some(b) =>
      if b < 0 then (if b + length < lower then lower else b + length)
      else if b > upper then upper
      else b
  }

  /** The start and stop of `slice(start, stop, step).indices(length)` for a
      non-zero step. Counting forward they land in `[0, length]`; counting
      backward in `[-1, length - 1]`, where -1 stands for "before the first element". */
  function Indices(start: Option<int>, stop: Option<int>, step: int, length: nat): (r: (int, int))
    requires step != 0
    ensures step > 0 ==> 0 <= r.0 <= length && 0 <= r.1 <= length
    ensures step < 0 ==> -1 <= r.0 < length && -1 <= r.1 < length
    ensures start.None? ==> r.0 == (if step > 0 then 0 else length - 1)
    ensures stop.None? ==> r.1 == (if step > 0 then length else -1)
    ensures step > 0 && start.Some? ==>
      r.0 == (if start.value >= 0 then Min(start.value, length) else Max(start.value + length, 0))
    ensures step > 0 && stop.Some? ==>
      r.1 == (if stop.value >= 0 then Min(stop.value, length) else Max(stop.value + length, 0))
    ensures step < 0 && start.Some? ==>
      r.0 == (if start.value >= 0 then Min(start.value, length - 1) else Max(start.value + length, -1))
    ensures step < 0 && stop.Some? ==>
      r.1 == (if stop.value >= 0 then Min(stop.value, length - 1) else Max(stop.value + length, -1))
  {
    var lower := if step < 0 then -1 else 0;
    var upper := if step < 0 then length - 1 else length;
    (ResolveBound(start, if step < 0 then upper else lower, lower, upper, length),
     ResolveBound(stop, if step < 0 then lower else upper, lower, upper, length))
  }

  /** Whether `range(start, stop, step)` produces `start` at all. */
  predicate RangeGoesOn(start: int, stop: int, step: int) {
    (step > 0 && start < stop) || (step < 0 && stop < start)
  }

  /** The integers `range(start, stop, step)` produces, in order: it begins
      at `start`, moves by `step`, stays strictly before `stop`, and stops at
      the first value that would reach or pass `stop`. */
  function Range(start: int, stop: int, step: int): (r: seq<int>)
    requires step != 0
    ensures |r| > 0 <==> RangeGoesOn(start, stop, step)
    ensures |r| > 0 ==> r[0] == start && !RangeGoesOn(r[|r| - 1] + step, stop, step)
    ensures forall v :: v in r ==> RangeGoesOn(v, stop, step)
    ensures forall v :: v in r ==> if step > 0 then start <= v else v <= start
    decreases if step > 0 then stop - start else start - stop
  {
    if RangeGoesOn(start, stop, step) then [start] + Range(start + step, stop, step) else []
  }

  /** The `k`-th value of `range(start, stop, step)` is `start + k * step`. */
  lemma {:induction false} RangeElement(start: int, stop: int, step: int, k: nat)
    requires step != 0
    requires k < |Range(start, stop, step)|
    ensures Range(start, stop, step)[k] == start + k * step
    decreases k
  {
    if k > 0 {
      RangeElement(start + step, stop, step, k - 1);
      assert Range(start, stop, step)[k] == Range(start + step, stop, step)[k - 1];
      assert start + step + (k - 1) * step == start + k * step;
    }
  }

  /** `[xs[i] for i in range(start, stop, step)]` when every such `i` is an
      index of `xs`. */
  function Pick<T>(xs: seq<T>, start: int, stop: int, step: int): (r: seq<T>)
    requires step != 0
    requires step > 0 ==> 0 <= start && stop <= |xs|
    requires step < 0 ==> start < |xs| && -1 <= stop
    ensures |r| > 0 <==> RangeGoesOn(start, stop, step)
    ensures |r| > 0 ==> r[0] == xs[start]
    decreases if step > 0 then stop - start else start - stop
  {
    if RangeGoesOn(start, stop, step) then [xs[start]] + Pick(xs, start + step, stop, step) else []
  }

  /** One unfolding of `Pick`: the first element, then the rest of the range. */
  lemma PickStep<T>(xs: seq<T>, start: int, stop: int, step: int)
    requires step != 0 && RangeGoesOn(start, stop, step)
    requires step > 0 ==> 0 <= start && stop <= |xs|
    requires step < 0 ==> start < |xs| && -1 <= stop
    ensures Pick(xs, start, stop, step) == [xs[start]] + Pick(xs, start + step, stop, step)
  {
  }

  /** `Pick` takes one element of `xs` for each value of the range, in order. */
  lemma {:induction false} PickElements<T>(xs: seq<T>, start: int, stop: int, step: int)
    requires step != 0
    requires step > 0 ==> 0 <= start && stop <= |xs|
    requires step < 0 ==> start < |xs| && -1 <= stop
    ensures |Pick(xs, start, stop, step)| == |Range(start, stop, step)|
    ensures forall k :: 0 <= k < |Range(start, stop, step)| ==>
      0 <= Range(start, stop, step)[k] < |xs| && Pick(xs, start, stop, step)[k] == xs[Range(start, stop, step)[k]]
    decreases if step > 0 then stop - start else start - stop
  {
    if RangeGoesOn(start, stop, step) {
      PickElements(xs, start + step, stop, step);
      var r, tail := Range(start, stop, step), Range(start + step, stop, step);
      assert r == [start] + tail;
      forall k | 0 <= k < |r|
        ensures 0 <= r[k] < |xs| && Pick(xs, start, stop, step)[k] == xs[r[k]]
      {
        if k > 0 {
          assert r[k] == tail[k - 1];
        }
      }
    }
  }

  /** The list slice `xs[start:stop:step]` for a non-zero step. A unit-step
      slice is the contiguous run between the resolved bounds, empty when
      the stop lies before the start. */
  function Sliced<T>(xs: seq<T>, start: Option<int>, stop: Option<int>, step: int): (r: seq<T>)
    requires step != 0
    ensures var (s, e) := Indices(start, stop, step, |xs|);
            step == 1 ==> r == xs[s..Max(s, e)]
  {
    var (s, e) := Indices(start, stop, step, |xs|);
    if step == 1 && s <= e then PickUnitStep(xs, s, e); Pick(xs, s, e, step)
    else Pick(xs, s, e, step)
  }

  /** The list after `xs[start:stop] = ys`: the addressed run is replaced by
      `ys`; a stop before the start addresses the empty run at the start. */
  function Spliced<T>(xs: seq<T>, start: Option<int>, stop: Option<int>, ys: seq<T>): (r: seq<T>)
    ensures var (s, e) := Indices(start, stop, 1, |xs|);
            && |r| == |xs| - (Max(s, e) - s) + |ys|
            && r[..s] == xs[..s]
            && r[s..s + |ys|] == ys
            && r[s + |ys|..] == xs[Max(s, e)..]
  {
    var (s, e) := Indices(start, stop, 1, |xs|);
    xs[..s] + ys + xs[Max(s, e)..]
  }

  /** The list after `del xs[k]` for an index `k` already made non-negative. */
  function Removed<T>(xs: seq<T>, k: int): (r: seq<T>)
    requires 0 <= k < |xs|
    ensures |r| == |xs| - 1
    ensures forall j :: 0 <= j < k ==> r[j] == xs[j]
    ensures forall j :: k <= j < |r| ==> r[j] == xs[j + 1]
  {
    xs[..k] + xs[k + 1..]
  }

  /** Where `list.insert(i, v)` puts `v` in a list of length `n`: a negative
      `i` counts from the end, and the position is clamped into `[0, n]`. */
  function InsertionPoint(n: nat, i: int): (k: nat)
    ensures k <= n
    ensures 0 <= i <= n ==> k == i
    ensures i > n ==> k == n
  {
    if i < 0 then (if i + n < 0 then 0 else i + n)
    else if i > n then n
    else i
  }

  /** The list after `xs.insert(i, v)`: one element longer, `v` at the
      insertion point, the elements before it unmoved and the ones from it
      on shifted up by one. */
  function Inserted<T>(xs: seq<T>, i: int, v: T): (r: seq<T>)
    ensures |r| == |xs| + 1
    ensures r[InsertionPoint(|xs|, i)] == v
    ensures r[..InsertionPoint(|xs|, i)] == xs[..InsertionPoint(|xs|, i)]
    ensures r[InsertionPoint(|xs|, i) + 1..] == xs[InsertionPoint(|xs|, i)..]
  {
    var k := InsertionPoint(|xs|, i);
    assert (xs[..k] + [v] + xs[k..])[..k] == xs[..k];
    assert (xs[..k] + [v] + xs[k..])[k + 1..] == xs[k..];
    xs[..k] + [v] + xs[k..]
  }

  /** `del xs[k]` undoes `xs.insert(i, v)` at its insertion point `k`. */
  lemma RemoveInserted<T>(xs: seq<T>, i: int, v: T)
    ensures Removed(Inserted(xs, i, v), InsertionPoint(|xs|, i)) == xs
  {
    var k := InsertionPoint(|xs|, i);
    var r := Inserted(xs, i, v);
    assert Removed(r, k) == r[..k] + r[k + 1..];
    assert xs == xs[..k] + xs[k..];
  }

  /** With step 1, `range(i, j)` picks out the contiguous run `xs[i..j]`. */
  lemma {:induction false} PickUnitStep<T>(xs: seq<T>, i: int, j: int)
    requires 0 <= i <= j <= |xs|
    ensures Pick(xs, i, j, 1) == xs[i..j]
    decreases j - i
  {
    if i < j {
      PickUnitStep(xs, i + 1, j);
      assert xs[i..j] == [xs[i]] + xs[i + 1..j];
    }
  }

  /** Slice assignment with in-range bounds `i <= j` keeps `xs[..i]`, puts
      `ys` in place of `xs[i..j]`, and keeps `xs[j..]`; reading the slice
      `[i : i + |ys|]` back gives `ys`, and the old run is gone. */
  lemma SpliceContiguous<T>(xs: seq<T>, i: int, j: int, ys: seq<T>)
    requires 0 <= i <= j <= |xs|
    ensures Spliced(xs, Some(i), Some(j), ys) == xs[..i] + ys + xs[j..]
    ensures Sliced(Spliced(xs, Some(i), Some(j), ys), Some(i), Some(i + |ys|), 1) == ys
    ensures |Spliced(xs, Some(i), Some(j), ys)| == |xs| - (j - i) + |ys|
  {
    assert Indices(Some(i), Some(j), 1, |xs|) == (i, j);
    var r := xs[..i] + ys + xs[j..];
    assert Spliced(xs, Some(i), Some(j), ys) == r;
    assert r[i..i + |ys|] == ys;
  }

  /** Whatever the bounds, slice assignment replaces exactly the run that the
      slice `xs[start:stop]` reads: the part before it and the part after it
      are kept, and reading back at the resolved start gives `ys`. */
  lemma SpliceReadBack<T>(xs: seq<T>, start: Option<int>, stop: Option<int>, ys: seq<T>)
    ensures var s := Indices(start, stop, 1, |xs|).0;
            var r := Spliced(xs, start, stop, ys);
            && s + |Sliced(xs, start, stop, 1)| <= |xs|
            && r == xs[..s] + ys + xs[s + |Sliced(xs, start, stop, 1)|..]
            && Sliced(r, Some(s), Some(s + |ys|), 1) == ys
  {
    var (s, e) := Indices(start, stop, 1, |xs|);
    var r := Spliced(xs, start, stop, ys);
    assert Sliced(xs, start, stop, 1) == xs[s..Max(s, e)];
    assert r == xs[..s] + ys + xs[Max(s, e)..];
    assert Indices(Some(s), Some(s + |ys|), 1, |r|) == (s, s + |ys|);
  }

}
