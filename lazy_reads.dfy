/** What a run of integer reads does to a lazy sequence, stated on values:
    the sequence's logical contents `xs` (everything it would show if fully
    pulled) and the length `cached` of the prefix of `xs` already pulled into
    its cache. The read methods of `Listish.Tupleish` are proved against these
    functions; the lemmas here connect them to Python's own slicing. */
module LazyReads {
  import opened PyBuiltins

  /** What `self[i]` returns for an integer `i`: a non-negative index is
      looked up in the whole contents, pulling as far as it needs; a negative
      index is only looked up in the cache, counting from its end. */
  function ReadAt<T>(xs: seq<T>, cached: nat, i: int): (r: Option<T>)
    requires cached <= |xs|
    ensures i >= 0 ==> (r.Some? <==> i < |xs|)
    ensures i < 0 ==> (r.Some? <==> -i <= cached)
    ensures r.Some? && i >= 0 ==> r.value == xs[i]
    ensures r.Some? && i < 0 ==> r.value == xs[..cached][cached + i]
  {
    if i >= 0 then (if i < |xs| then Some(xs[i]) else None)
    else if 0 <= cached + i then Some(xs[cached + i])
    else None
  }

  /** The cache length after `self[i]`: a non-negative index pulls through
      `i`, or to the end of the source when `i` is past it; a negative index
      pulls nothing. */
  function CachedAfter<T>(xs: seq<T>, cached: nat, i: int): (c: nat)
    requires cached <= |xs|
    ensures cached <= c <= |xs|
  {
    if i < 0 then cached
    else if i < |xs| then Max(cached, i + 1)
    else |xs|
  }

  /** The values a walk collected and the cache length it left behind. */
  datatype Walked<T> = Walked(values: seq<T>, cached: nat)

  /** `list(self._get_items_in_bounds(indexes))`: read each index in turn and
      stop, without an error, at the first read that fails. The cache only
      grows, and never past the contents. */
  function Walk<T>(xs: seq<T>, cached: nat, indexes: seq<int>): (w: Walked<T>)
    requires cached <= |xs|
    ensures cached <= w.cached <= |xs|
    ensures |w.values| <= |indexes|
    decreases |indexes|
  {
    if indexes == [] then Walked([], cached)
    else
      var next := CachedAfter(xs, cached, indexes[0]);
      match ReadAt(xs, cached, indexes[0])
      case None => Walked([], next)
      case Some(v) =>
        var rest := Walk(xs, next, indexes[1..]);
        Walked([v] + rest.values, rest.cached)
  }

  /** One step of a walk whose first read succeeds: it contributes its
      value and the walk goes on from the cache that read leaves. */
  lemma WalkStepRead<T>(xs: seq<T>, cached: nat, i: int, tail: seq<int>)
    requires cached <= |xs| && ReadAt(xs, cached, i).Some?
    ensures Walk(xs, cached, [i] + tail).values
         == [ReadAt(xs, cached, i).value] + Walk(xs, CachedAfter(xs, cached, i), tail).values
    ensures Walk(xs, cached, [i] + tail).cached == Walk(xs, CachedAfter(xs, cached, i), tail).cached
  {
    var idx := [i] + tail;
    assert idx[0] == i && idx[1..] == tail;
  }

  /** A walk whose first read fails collects nothing and stops with the
      cache that read leaves. */
  lemma WalkStepMiss<T>(xs: seq<T>, cached: nat, i: int, tail: seq<int>)
    requires cached <= |xs| && ReadAt(xs, cached, i).None?
    ensures Walk(xs, cached, [i] + tail) == Walked([], CachedAfter(xs, cached, i))
  {
    var idx := [i] + tail;
    assert idx[0] == i;
  }

  /** A forward walk from a non-negative start collects exactly the elements
      Python's `xs[start:stop:step]` would, truncated at the end of `xs`. */
  lemma {:induction false} WalkForward<T>(xs: seq<T>, cached: nat, start: int, stop: int, step: int)
    requires cached <= |xs| && step > 0 && 0 <= start
    ensures Walk(xs, cached, Range(start, stop, step)).values == Pick(xs, start, Min(stop, |xs|), step)
    decreases stop - start
  {
    if start < stop && start < |xs| {
      WalkForward(xs, CachedAfter(xs, cached, start), start + step, stop, step);
      ForwardStep(xs, cached, start, stop, step);
    } else if start < stop {
      ForwardMiss(xs, cached, start, stop, step);
    } else {
      assert Range(start, stop, step) == [];
    }
  }

  /** The inductive step of `WalkForward`. */
  lemma ForwardStep<T>(xs: seq<T>, cached: nat, start: int, stop: int, step: int)
    requires cached <= |xs| && step > 0 && 0 <= start < stop && start < |xs|
    requires Walk(xs, CachedAfter(xs, cached, start), Range(start + step, stop, step)).values
          == Pick(xs, start + step, Min(stop, |xs|), step)
    ensures Walk(xs, cached, Range(start, stop, step)).values == Pick(xs, start, Min(stop, |xs|), step)
  {
    var tail := Range(start + step, stop, step);
    assert Range(start, stop, step) == [start] + tail;
    WalkStepRead(xs, cached, start, tail);
  }

  /** A forward walk that starts past the end of `xs` collects nothing. */
  lemma ForwardMiss<T>(xs: seq<T>, cached: nat, start: int, stop: int, step: int)
    requires cached <= |xs| && step > 0 && |xs| <= start < stop
    ensures Walk(xs, cached, Range(start, stop, step)).values == Pick(xs, start, Min(stop, |xs|), step)
  {
    var tail := Range(start + step, stop, step);
    assert Range(start, stop, step) == [start] + tail;
    WalkStepMiss(xs, cached, start, tail);
  }

  /** A backward walk that starts inside `xs` and ends no lower than index 0
      never fails, so it collects `xs[start], xs[start + step], ...`. */
  lemma {:induction false} WalkBackward<T>(xs: seq<T>, cached: nat, start: int, stop: int, step: int)
    requires cached <= |xs| && step < 0 && start < |xs| && -1 <= stop
    ensures Walk(xs, cached, Range(start, stop, step)).values == Pick(xs, start, stop, step)
    decreases start - stop
  {
    if stop < start {
      WalkBackward(xs, CachedAfter(xs, cached, start), start + step, stop, step);
      BackwardStep(xs, cached, start, stop, step);
    } else {
      assert Range(start, stop, step) == [];
    }
  }

  /** The inductive step of `WalkBackward`. */
  lemma BackwardStep<T>(xs: seq<T>, cached: nat, start: int, stop: int, step: int)
    requires cached <= |xs| && step < 0 && -1 <= stop < start < |xs|
    requires Walk(xs, CachedAfter(xs, cached, start), Range(start + step, stop, step)).values
          == Pick(xs, start + step, stop, step)
    ensures Walk(xs, cached, Range(start, stop, step)).values == Pick(xs, start, stop, step)
  {
    var tail := Range(start + step, stop, step);
    assert Range(start, stop, step) == [start] + tail;
    WalkStepRead(xs, cached, start, tail);
    PickStep(xs, start, stop, step);
  }

  /** Walking `range(lo, hi)` from a non-negative `lo` leaves the cache
      holding the first `hi` elements, or all of them when there are fewer. */
  lemma {:induction false} WalkPrefetch<T>(xs: seq<T>, cached: nat, lo: int, hi: int)
    requires cached <= |xs| && 0 <= lo < hi
    ensures Walk(xs, cached, Range(lo, hi, 1)).cached == Max(cached, Min(hi, |xs|))
    decreases hi - lo
  {
    if lo < |xs| && lo + 1 < hi {
      WalkPrefetch(xs, Max(cached, lo + 1), lo + 1, hi);
      PrefetchStep(xs, cached, lo, hi);
    } else {
      PrefetchLast(xs, cached, lo, hi);
    }
  }

  /** The inductive step of `WalkPrefetch`. */
  lemma PrefetchStep<T>(xs: seq<T>, cached: nat, lo: int, hi: int)
    requires cached <= |xs| && 0 <= lo < |xs| && lo + 1 < hi
    requires Walk(xs, Max(cached, lo + 1), Range(lo + 1, hi, 1)).cached == Max(Max(cached, lo + 1), Min(hi, |xs|))
    ensures Walk(xs, cached, Range(lo, hi, 1)).cached == Max(cached, Min(hi, |xs|))
  {
    var tail := Range(lo + 1, hi, 1);
    assert Range(lo, hi, 1) == [lo] + tail;
    WalkStepRead(xs, cached, lo, tail);
  }

  /** `WalkPrefetch` when its first read is its last: `lo` is the last index
      of the range, or lies past the end of `xs`. */
  lemma PrefetchLast<T>(xs: seq<T>, cached: nat, lo: int, hi: int)
    requires cached <= |xs| && 0 <= lo < hi && !(lo < |xs| && lo + 1 < hi)
    ensures Walk(xs, cached, Range(lo, hi, 1)).cached == Max(cached, Min(hi, |xs|))
  {
    var tail := Range(lo + 1, hi, 1);
    assert Range(lo, hi, 1) == [lo] + tail;
    if lo < |xs| {
      assert tail == [];
      WalkStepRead(xs, cached, lo, tail);
    } else {
      WalkStepMiss(xs, cached, lo, tail);
    }
  }

  /** A walk whose indexes all lie below `bound` never pulls past `bound`
      elements. */
  lemma {:induction false} WalkCachedBelow<T>(xs: seq<T>, cached: nat, start: int, stop: int, step: int, bound: int)
    requires cached <= |xs| && step != 0
    requires step > 0 ==> stop <= bound
    requires step < 0 ==> start < bound
    ensures Walk(xs, cached, Range(start, stop, step)).cached <= Max(cached, Min(bound, |xs|))
    decreases if step > 0 then stop - start else start - stop
  {
    if !RangeGoesOn(start, stop, step) {
      assert Range(start, stop, step) == [];
    } else if ReadAt(xs, cached, start).Some? {
      WalkCachedBelow(xs, CachedAfter(xs, cached, start), start + step, stop, step, bound);
      CachedBelowStep(xs, cached, start, stop, step, bound);
    } else {
      var tail := Range(start + step, stop, step);
      assert Range(start, stop, step) == [start] + tail;
      WalkStepMiss(xs, cached, start, tail);
    }
  }

  /** The inductive step of `WalkCachedBelow`. */
  lemma CachedBelowStep<T>(xs: seq<T>, cached: nat, start: int, stop: int, step: int, bound: int)
    requires cached <= |xs| && step != 0 && RangeGoesOn(start, stop, step)
    requires step > 0 ==> stop <= bound
    requires step < 0 ==> start < bound
    requires ReadAt(xs, cached, start).Some?
    requires Walk(xs, CachedAfter(xs, cached, start), Range(start + step, stop, step)).cached
          <= Max(CachedAfter(xs, cached, start), Min(bound, |xs|))
    ensures Walk(xs, cached, Range(start, stop, step)).cached <= Max(cached, Min(bound, |xs|))
  {
    var tail := Range(start + step, stop, step);
    assert Range(start, stop, step) == [start] + tail;
    WalkStepRead(xs, cached, start, tail);
  }

  /** How `_get_indices` finds the length to resolve a slice against. */
  datatype Plan =
    | Exhaust            // a bound is negative or missing: pull everything and use the real length
    | Probe(length: nat) // both bounds are non-negative: pretend the length is max(start, stop) + 1
    | MaxOfNone          // `max()` is handed a missing bound and raises TypeError

  /** The bound analysis of `_get_indices`. Only a slice with two
      non-negative bounds is resolved without pulling everything, and then
      against a length that covers both bounds. */
  function PlanFor(sl: Slice): (p: Plan)
    ensures p.Probe? <==> sl.start.Some? && sl.stop.Some? && sl.start.value >= 0 && sl.stop.value >= 0
    ensures p.Probe? ==> sl.start.value < p.length && sl.stop.value < p.length
    ensures p.MaxOfNone? <==> sl.start.None? && (if sl.stop.Some? then sl.stop.value >= 0 else sl.step.None?)
    ensures (sl.start.Some? && sl.start.value < 0) || (sl.stop.Some? && sl.stop.value < 0) ==> p.Exhaust?
  {
    var unboundedEnd := sl.start.Some? && sl.stop.None?;
    var unboundedStep := sl.start.None? && sl.stop.None? && sl.step.Some?;
    var negativeIndex := (sl.start.Some? && sl.start.value < 0) || (sl.stop.Some? && sl.stop.value < 0);
    if unboundedEnd || unboundedStep || negativeIndex then Exhaust
    else if sl.start.None? || sl.stop.None? then MaxOfNone
    else Probe(Max(sl.stop.value, sl.start.value) + 1)
  }

  /** What a slice read returns and the cache length it leaves behind. */
  datatype SliceRead<T> = SliceRead(result: Result<seq<T>>, cached: nat)

  /** `self[start:stop:step]` on values: `_get_indices` picks the length to
      resolve the slice against (the real one, after pulling everything,
      when a bound is negative or missing); then `range(min, max + 2)` is
      walked to prefetch, and finally the slice's own range is walked. */
  function LazySlice<T>(xs: seq<T>, cached: nat, sl: Slice): (r: SliceRead<T>)
    requires cached <= |xs|
    ensures cached <= r.cached <= |xs|
    ensures r.result.Raised? <==> PlanFor(sl).MaxOfNone? || StepOf(sl) == 0
    ensures PlanFor(sl).MaxOfNone? ==> r == SliceRead(Raised(TypeError), cached)
    ensures !PlanFor(sl).MaxOfNone? && StepOf(sl) == 0 ==> r.result == Raised(ValueError)
    ensures PlanFor(sl).Exhaust? ==> r.cached == |xs|
    ensures PlanFor(sl).Probe? && StepOf(sl) == 0 ==> r.cached == cached
  {
    match PlanFor(sl)
    case MaxOfNone => SliceRead(Raised(TypeError), cached)
    case Exhaust => ResolvedSlice(xs, |xs|, sl, |xs|)
    case Probe(length) => ResolvedSlice(xs, cached, sl, length)
  }

  /** The part of `LazySlice` after `_get_indices` has settled on `length`. */
  function ResolvedSlice<T>(xs: seq<T>, cached: nat, sl: Slice, length: nat): (r: SliceRead<T>)
    requires cached <= |xs|
    ensures cached <= r.cached <= |xs|
    ensures StepOf(sl) == 0 <==> r == SliceRead(Raised(ValueError), cached)
    ensures StepOf(sl) != 0 ==> r.result.Ok?
  {
    var step := StepOf(sl);
    if step == 0 then SliceRead(Raised(ValueError), cached)
    else
      var (s, e) := Indices(sl.start, sl.stop, step, length);
      var w := WalkSlice(xs, cached, s, e, step);
      SliceRead(Ok(w.values), w.cached)
  }

  /** The slice branch of `__getitem__` once the bounds are resolved: walk
      `range(min, max + 2)` to prefetch, then walk the slice's own range and
      keep what it collects. */
  function WalkSlice<T>(xs: seq<T>, cached: nat, start: int, stop: int, step: int): (w: Walked<T>)
    requires cached <= |xs| && step != 0
    ensures cached <= w.cached <= |xs|
  {
    var pre := Walk(xs, cached, Range(Min(start, stop), Max(start, stop) + 2, 1)).cached;
    Walk(xs, pre, Range(start, stop, step))
  }

  /** With a negative or missing bound everything is pulled first, and the
      lazy slice is exactly Python's list slice of the whole sequence. */
  lemma LazySliceExhaust<T>(xs: seq<T>, cached: nat, sl: Slice)
    requires cached <= |xs| && PlanFor(sl).Exhaust? && StepOf(sl) != 0
    ensures LazySlice(xs, cached, sl) == SliceRead(Ok(Sliced(xs, sl.start, sl.stop, StepOf(sl))), |xs|)
  {
    var step := StepOf(sl);
    var (s, e) := Indices(sl.start, sl.stop, step, |xs|);
    WalkSliceExhausted(xs, s, e, step);
  }

  /** `WalkSlice` over a fully pulled cache and resolved bounds: the prefetch
      pulls nothing more and the slice's own walk picks the list slice. */
  lemma WalkSliceExhausted<T>(xs: seq<T>, start: int, stop: int, step: int)
    requires step != 0
    requires step > 0 ==> 0 <= start && 0 <= stop <= |xs|
    requires step < 0 ==> start < |xs| && -1 <= stop
    ensures WalkSlice(xs, |xs|, start, stop, step) == Walked(Pick(xs, start, stop, step), |xs|)
  {
    if step > 0 {
      WalkForward(xs, |xs|, start, stop, step);
      assert Min(stop, |xs|) == stop;
    } else {
      WalkBackward(xs, |xs|, start, stop, step);
    }
  }

  /** With two non-negative bounds the lazy slice pulls no further than
      `max(start, stop) + 2` elements. It equals Python's list slice, except
      that a backward slice starting at or past the real end gives nothing,
      where Python would clamp the start to the last element. */
  lemma LazySliceProbe<T>(xs: seq<T>, cached: nat, sl: Slice)
    requires cached <= |xs| && PlanFor(sl).Probe? && StepOf(sl) != 0
    ensures var r := LazySlice(xs, cached, sl);
            var (start, stop, step) := (sl.start.value, sl.stop.value, StepOf(sl));
            && r.cached == Max(cached, Min(Max(start, stop) + 2, |xs|))
            && ((step > 0 || start < |xs|) ==> r.result == Ok(Sliced(xs, sl.start, sl.stop, step)))
            && (step < 0 && start >= |xs| ==> r.result == Ok([]))
  {
    var (start, stop, step) := (sl.start.value, sl.stop.value, StepOf(sl));
    assert Indices(sl.start, sl.stop, step, PlanFor(sl).length) == (start, stop);
    WalkSliceProbe(xs, cached, start, stop, step);
  }

  /** `WalkSlice` between two non-negative bounds: the prefetch leaves the
      first `max(start, stop) + 2` elements cached (or all of them), and the
      slice's own walk then reads what `ProbeForward` and `ProbeBackward` say. */
  lemma WalkSliceProbe<T>(xs: seq<T>, cached: nat, start: int, stop: int, step: int)
    requires cached <= |xs| && 0 <= start && 0 <= stop && step != 0
    ensures var w := WalkSlice(xs, cached, start, stop, step);
            && w.cached == Max(cached, Min(Max(start, stop) + 2, |xs|))
            && ((step > 0 || start < |xs|) ==> w.values == Sliced(xs, Some(start), Some(stop), step))
            && (step < 0 && start >= |xs| ==> w.values == [])
  {
    var bound := Max(start, stop) + 2;
    var pre := Walk(xs, cached, Range(Min(start, stop), bound, 1)).cached;
    WalkPrefetch(xs, cached, Min(start, stop), bound);
    WalkCachedBelow(xs, pre, start, stop, step, bound);
    if step > 0 {
      ProbeForward(xs, pre, start, stop, step);
    } else {
      ProbeBackward(xs, pre, start, stop, step);
    }
  }

  /** A forward walk between two non-negative bounds reads the list slice. */
  lemma ProbeForward<T>(xs: seq<T>, cached: nat, start: int, stop: int, step: int)
    requires cached <= |xs| && 0 <= start && 0 <= stop && step > 0
    ensures Walk(xs, cached, Range(start, stop, step)).values == Sliced(xs, Some(start), Some(stop), step)
  {
    WalkForward(xs, cached, start, stop, step);
    assert Indices(Some(start), Some(stop), step, |xs|) == (Min(start, |xs|), Min(stop, |xs|));
    if start > |xs| {
      assert Pick(xs, start, Min(stop, |xs|), step) == [];
      assert Pick(xs, |xs|, Min(stop, |xs|), step) == [];
    }
  }

  /** A backward walk between two non-negative bounds reads the list slice
      when it starts inside `xs`, and nothing when it starts past the end. */
  lemma ProbeBackward<T>(xs: seq<T>, cached: nat, start: int, stop: int, step: int)
    requires cached <= |xs| && 0 <= start && 0 <= stop && step < 0
    ensures start < |xs| ==> Walk(xs, cached, Range(start, stop, step)).values == Sliced(xs, Some(start), Some(stop), step)
    ensures start >= |xs| ==> Walk(xs, cached, Range(start, stop, step)).values == []
  {
    var idx := Range(start, stop, step);
    if start < |xs| {
      WalkBackward(xs, cached, start, stop, step);
      if stop >= |xs| {
        assert Indices(Some(start), Some(stop), step, |xs|) == (start, |xs| - 1);
        assert Pick(xs, start, stop, step) == [];
        assert Pick(xs, start, |xs| - 1, step) == [];
      } else {
        assert Indices(Some(start), Some(stop), step, |xs|) == (start, stop);
      }
    } else if idx != [] {
      assert idx[0] == start && ReadAt(xs, cached, start).None?;
    }
  }

  /** A forward slice with both bounds given reads exactly what the list
      slice would, whatever the signs of the bounds. */
  lemma LazySliceForward<T>(xs: seq<T>, cached: nat, sl: Slice)
    requires cached <= |xs| && sl.start.Some? && sl.stop.Some? && StepOf(sl) > 0
    ensures LazySlice(xs, cached, sl).result == Ok(Sliced(xs, sl.start, sl.stop, StepOf(sl)))
  {
    if PlanFor(sl).Probe? {
      LazySliceProbe(xs, cached, sl);
    } else {
      LazySliceExhaust(xs, cached, sl);
    }
  }

  /** Any non-zero step between two indexes of the sequence reads exactly
      what the list slice would. */
  lemma LazySliceInRange<T>(xs: seq<T>, cached: nat, i: int, j: int, step: int)
    requires cached <= |xs| && 0 <= i < |xs| && 0 <= j < |xs| && step != 0
    ensures LazySlice(xs, cached, Slice(Some(i), Some(j), Some(step))).result
         == Ok(Sliced(xs, Some(i), Some(j), step))
  {
    LazySliceProbe(xs, cached, Slice(Some(i), Some(j), Some(step)));
  }
}
