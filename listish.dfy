/** The runtime of `listish.py`: lazy, memoising sequences over a one-shot
    forward iterator.

    A `Tupleish` keeps the iterator and a cache (`datastore`) of every value
    pulled so far. What it shows is `Contents()`: the cache followed by what
    the iterator has not produced yet. Reads only ever pull, so they never
    change `Contents()`; a `Listish` adds assignment, deletion and insertion,
    which edit the cache and so change `Contents()` the way the matching
    Python list operation would. */
module Listish {
  import opened PyBuiltins
  import opened LazyReads

  /** The message of an integer read past the end of the source. */
  const READ_OUT_OF_RANGE := "index out of range"
  /** The message of an assignment or deletion at an unreachable index. */
  const ASSIGNMENT_OUT_OF_RANGE := "assignment index out of range"
  /** The message Python's own list indexing uses, which a negative index
      past the start of the cache lets through. */
  const LIST_OUT_OF_RANGE := "list index out of range"

  /** The iterator `iter(iterable)` returns, owned by one sequence. */
  class SourceIterator<T> {
    /** Every value the iterator produces, in order. Only `Next` and `Drain`
        look at it. */
    const items: seq<T>
    /** How many values it has produced. */
    var pos: nat

    ghost predicate Valid()
      reads this
    {
      pos <= |items|
    }

    constructor (items: seq<T>)
      ensures Valid() && this.items == items && pos == 0
    {
      this.items := items;
      pos := 0;
    }

    /** `next(iterator)`: the next value, or `None` (StopIteration) once
        every value has been produced; an exhausted iterator stays so. */
    method Next() returns (r: Option<T>)
      requires Valid()
      modifies this
      ensures Valid()
      ensures old(pos) < |items| ==> r == Some(items[old(pos)]) && pos == old(pos) + 1
      ensures old(pos) == |items| ==> r == None && pos == old(pos)
    {
      if pos < |items| {
        r := Some(items[pos]);
        pos := pos + 1;
      } else {
        r := None;
      }
    }

    /** `list(iterator)`: every value not produced yet, leaving it exhausted. */
    method Drain() returns (rest: seq<T>)
      requires Valid()
      modifies this
      ensures Valid()
      ensures rest == items[old(pos)..] && pos == |items|
    {
      rest := items[pos..];
      pos := |items|;
    }
  }

  /** A lazily evaluated tuple-like object. */
  class Tupleish<T> {
    /** `_iterator`. */
    const source: SourceIterator<T>
    /** `_datastore`: the values pulled so far, as later edited by `Listish`. */
    var datastore: seq<T>

    ghost predicate Valid()
      reads this, source
    {
      source.Valid()
    }

    /** What the sequence shows: the cache, then what is still to come. */
    ghost function Contents(): seq<T>
      reads this, source
      requires Valid()
    {
      datastore + source.items[source.pos..]
    }

    /** The read-only invariant: the cache is exactly the values pulled so
        far, so the sequence shows exactly what the source produces. */
    ghost predicate Faithful()
      reads this, source
      requires Valid()
      ensures Faithful() <==> Contents() == source.items
    {
      assert datastore == source.items[..source.pos] ==> Contents() == source.items;
      assert Contents() == source.items ==> datastore == Contents()[..|datastore|];
      datastore == source.items[..source.pos]
    }

    /** The source has nothing more to give. */
    ghost predicate Exhausted()
      reads this, source
    {
      source.pos == |source.items|
    }

    /** `Tupleish(iterable)`. */
    constructor (iterable: seq<T>)
      ensures Valid() && fresh(source) && Faithful()
      ensures datastore == [] && source.pos == 0 && Contents() == iterable
    {
      source := new SourceIterator(iterable);
      datastore := [];
    }

    /** `_consume_next`: pull one value and append it to the cache; at the
        end of the source, pull nothing and report the end. */
    method ConsumeNext() returns (r: Option<T>)
      requires Valid()
      modifies this, source
      ensures Valid() && Contents() == old(Contents()) && (old(Faithful()) ==> Faithful())
      ensures old(source.pos) < |source.items| ==>
        && r == Some(source.items[old(source.pos)])
        && source.pos == old(source.pos) + 1
        && datastore == old(datastore) + [r.value]
      ensures old(source.pos) == |source.items| ==>
        r == None && source.pos == old(source.pos) && datastore == old(datastore)
    {
      r := source.Next();
      if r.Some? {
        datastore := datastore + [r.value];
      }
    }

    /** `self[index]` for an integer: a non-negative index pulls no further
        than itself and yields that element of the sequence, or, once the
        source runs out first, raises the read error; a negative index pulls
        nothing and reads the cache from its end. */
    method Get(index: int) returns (r: Result<T>)
      requires Valid()
      modifies this, source
      ensures Valid() && Contents() == old(Contents()) && (old(Faithful()) ==> Faithful())
      ensures old(source.pos) <= source.pos
      ensures 0 <= index < |old(Contents())| ==>
        r == Ok(old(Contents())[index]) && |datastore| == Max(old(|datastore|), index + 1)
      ensures index >= |old(Contents())| ==>
        r == Raised(IndexError(READ_OUT_OF_RANGE)) && Exhausted()
      ensures index < 0 ==> datastore == old(datastore) && source.pos == old(source.pos)
      ensures index < 0 && 0 <= old(|datastore|) + index ==>
        r == Ok(old(datastore)[old(|datastore|) + index])
      ensures index < 0 && old(|datastore|) + index < 0 ==>
        r == Raised(IndexError(LIST_OUT_OF_RANGE))
      ensures ReadAt(old(Contents()), old(|datastore|), index) == (if r.Ok? then Some(r.value) else None)
      ensures |datastore| == CachedAfter(old(Contents()), old(|datastore|), index)
    {
      while |datastore| < index + 1
        invariant Valid() && Contents() == old(Contents()) && (old(Faithful()) ==> Faithful())
        invariant old(source.pos) <= source.pos
        invariant |datastore| == old(|datastore|) + (source.pos - old(source.pos))
        invariant |datastore| <= Max(old(|datastore|), index + 1)
        invariant source.pos == old(source.pos) ==> datastore == old(datastore)
        decreases |source.items| - source.pos
      {
        var pulled := ConsumeNext();
        if pulled.None? {
          return Raised(IndexError(READ_OUT_OF_RANGE));
        }
      }
      if 0 <= index {
        r := Ok(datastore[index]);
      } else if 0 <= |datastore| + index {
        r := Ok(datastore[|datastore| + index]);
      } else {
        r := Raised(IndexError(LIST_OUT_OF_RANGE));
      }
    }

    /** `__len__`: drain the source into the cache and count. Afterwards the
        cache is the whole sequence, so a second call pulls nothing. */
    method Len() returns (n: nat)
      requires Valid()
      modifies this, source
      ensures Valid() && Contents() == old(Contents()) && (old(Faithful()) ==> Faithful())
      ensures Exhausted() && datastore == Contents() && n == |Contents()|
    {
      var rest := source.Drain();
      datastore := datastore + rest;
      n := |datastore|;
    }

    /** `list(self._get_items_in_bounds(indexes))`: the values at `indexes`,
        read one by one until the first read that fails. */
    method GetItemsInBounds(indexes: seq<int>) returns (values: seq<T>)
      requires Valid()
      modifies this, source
      ensures Valid() && Contents() == old(Contents()) && (old(Faithful()) ==> Faithful())
      ensures old(source.pos) <= source.pos
      ensures Walked(values, |datastore|) == Walk(old(Contents()), old(|datastore|), indexes)
    {
      ghost var xs := Contents();
      values := [];
      var k := 0;
      while k < |indexes|
        invariant 0 <= k <= |indexes|
        invariant Valid() && Contents() == xs && (old(Faithful()) ==> Faithful())
        invariant old(source.pos) <= source.pos
        invariant var rest := Walk(xs, |datastore|, indexes[k..]);
          Walk(xs, old(|datastore|), indexes) == Walked(values + rest.values, rest.cached)
      {
        assert indexes[k..][0] == indexes[k] && indexes[k..][1..] == indexes[k + 1..];
        var r := Get(indexes[k]);
        if r.Raised? {
          return;
        }
        values := values + [r.value];
        k := k + 1;
      }
    }

    /** `_get_indices`: resolve a slice to concrete `(start, stop, step)`.
        When the plan needs the real length everything is pulled first;
        with two non-negative bounds nothing is pulled and the bounds come
        back as they are. */
    method GetIndices(sl: Slice) returns (r: Result<(int, int, int)>)
      requires Valid()
      modifies this, source
      ensures Valid() && Contents() == old(Contents()) && (old(Faithful()) ==> Faithful())
      ensures old(source.pos) <= source.pos
      ensures PlanFor(sl).Exhaust? ==> Exhausted()
      ensures !PlanFor(sl).Exhaust? ==> source.pos == old(source.pos)
      ensures PlanFor(sl).MaxOfNone? ==> r == Raised(TypeError)
      ensures !PlanFor(sl).MaxOfNone? && StepOf(sl) == 0 ==> r == Raised(ValueError)
      ensures PlanFor(sl).Exhaust? && StepOf(sl) != 0 ==>
        var (s, e) := Indices(sl.start, sl.stop, StepOf(sl), |Contents()|);
        r == Ok((s, e, StepOf(sl)))
      ensures PlanFor(sl).Probe? && StepOf(sl) != 0 ==>
        r == Ok((sl.start.value, sl.stop.value, StepOf(sl)))
    {
      var length: nat;
      match PlanFor(sl) {
        case MaxOfNone =>
          return Raised(TypeError);
        case Exhaust =>
          length := Len();
        case Probe(n) =>
          length := n;
      }
      var step := StepOf(sl);
      if step == 0 {
        return Raised(ValueError);
      }
      var (s, e) := Indices(sl.start, sl.stop, step, length);
      r := Ok((s, e, step));
    }

    /** `self[start:stop:step]`: exactly `LazySlice` on the sequence and the
        cache length before the call. */
    method GetSlice(sl: Slice) returns (r: Result<seq<T>>)
      requires Valid()
      modifies this, source
      ensures Valid() && Contents() == old(Contents()) && (old(Faithful()) ==> Faithful())
      ensures old(source.pos) <= source.pos
      ensures SliceRead(r, |datastore|) == LazySlice(old(Contents()), old(|datastore|), sl)
    {
      ghost var xs := Contents();
      ghost var cached0 := |datastore|;
      var ix := GetIndices(sl);
      if ix.Raised? {
        return Raised(ix.error);
      }
      var (start, stop, step) := ix.value;
      ghost var cached1 := |datastore|;
      ghost var length := if PlanFor(sl).Probe? then PlanFor(sl).length else |xs|;
      assert LazySlice(xs, cached0, sl) == ResolvedSlice(xs, cached1, sl, length) by {
        assert Contents() == xs;
        if PlanFor(sl).Probe? {
          assert cached1 == cached0;
        } else {
          assert cached1 == |xs|;
        }
      }
      assert (start, stop) == Indices(sl.start, sl.stop, step, length);
      var items := ReadResolved(start, stop, step);
      r := Ok(items);
    }

    /** The slice branch of `__getitem__` once the bounds are resolved:
        prefetch, then walk the slice's range; exactly `WalkSlice` on the
        sequence and the cache length before. */
    method ReadResolved(start: int, stop: int, step: int) returns (values: seq<T>)
      requires Valid() && step != 0
      modifies this, source
      ensures Valid() && Contents() == old(Contents()) && (old(Faithful()) ==> Faithful())
      ensures old(source.pos) <= source.pos
      ensures Walked(values, |datastore|) == WalkSlice(old(Contents()), old(|datastore|), start, stop, step)
    {
      var minSlice := Min(start, stop);
      var maxSlice := Max(start, stop) + 2;
      var _ := GetItemsInBounds(Range(minSlice, maxSlice, 1));
      values := GetItemsInBounds(Range(start, stop, step));
    }

    /** `iter(self)`: a fresh traversal that has not started yet. */
    method Iter() returns (t: Traversal<T>)
      requires Valid()
      ensures fresh(t) && t.owner == this
      ensures t.cacheIndex == 0 && t.inCache && !t.finished && t.yielded == []
      ensures t.OnTrack()
    {
      t := new Traversal(this);
    }

    /** One complete `for` loop over `iter(self)`: it yields the whole
        sequence once, whatever part of it was already cached, and leaves the
        source exhausted. */
    method Traverse() returns (values: seq<T>)
      requires Valid()
      modifies this, source
      ensures Valid() && Contents() == old(Contents()) && (old(Faithful()) ==> Faithful())
      ensures old(source.pos) <= source.pos
      ensures values == old(Contents()) && Exhausted()
    {
      var t := Iter();
      values := [];
      var v := t.Next();
      while v.Some?
        invariant Valid() && Contents() == old(Contents()) && (old(Faithful()) ==> Faithful())
        invariant old(source.pos) <= source.pos
        invariant t.owner == this && t.OnTrack()
        invariant v.Some? ==> values + [v.value] == t.yielded
        invariant v.None? ==> values == t.yielded && t.finished
        decreases |Contents()| - |t.yielded| + (if v.Some? then 1 else 0)
      {
        values := values + [v.value];
        v := t.Next();
      }
    }
  }

  /** The generator `Tupleish.__iter__` returns: it first walks the cache
      with a list iterator (`for value in self._datastore`), and once that
      reaches the end of the cache it pulls from the source directly
      (`while True: yield self._consume_next()`) until the source ends. */
  class Traversal<T> {
    /** The sequence being traversed. */
    const owner: Tupleish<T>
    /** The list iterator's position in the cache. */
    var cacheIndex: nat
    /** Still in the first loop, over the cache. */
    var inCache: bool
    /** The generator has ended. */
    var finished: bool
    /** Everything yielded so far. */
    ghost var yielded: seq<T>

    constructor (owner: Tupleish<T>)
      ensures this.owner == owner
      ensures cacheIndex == 0 && inCache && !finished && yielded == []
    {
      this.owner := owner;
      cacheIndex := 0;
      inCache := true;
      finished := false;
      yielded := [];
    }

    /** A traversal that nothing else has disturbed: it has yielded a prefix
        of the sequence, in the cache phase its position is that prefix's
        length, and in the pulling phase the cache is exactly that prefix. */
    ghost predicate OnTrack()
      reads this, owner, owner.source
      requires owner.Valid()
    {
      var xs := owner.Contents();
      && |yielded| <= |xs| && yielded == xs[..|yielded|]
      && (finished ==> |yielded| == |xs| && owner.Exhausted())
      && (!finished && inCache ==> cacheIndex == |yielded| <= |owner.datastore|)
      && (!finished && !inCache ==> |yielded| == |owner.datastore|)
    }

    /** `next(generator)`. In the cache phase it yields the next cached
        value; past the cache it pulls from the source; once the source ends
        the generator ends for good. A traversal on track yields the next
        element of the sequence, and ends exactly when all have been yielded. */
    method Next() returns (r: Option<T>)
      requires owner.Valid()
      modifies this, owner, owner.source
      ensures owner.Valid() && owner.Contents() == old(owner.Contents())
      ensures old(owner.Faithful()) ==> owner.Faithful()
      ensures old(owner.source.pos) <= owner.source.pos
      ensures old(finished) ==> r == None && owner.source.pos == old(owner.source.pos)
      ensures r.Some? ==> yielded == old(yielded) + [r.value]
      ensures r.None? ==> finished && yielded == old(yielded)
      ensures !old(finished) && old(inCache) && old(cacheIndex) < old(|owner.datastore|) ==>
        r == Some(old(owner.datastore)[old(cacheIndex)]) && owner.source.pos == old(owner.source.pos)
      ensures !old(finished) && !(old(inCache) && old(cacheIndex) < old(|owner.datastore|)) ==>
        && !inCache
        && (old(owner.source.pos) < |owner.source.items| ==> r == Some(owner.source.items[old(owner.source.pos)]))
        && (old(owner.source.pos) == |owner.source.items| ==> r == None)
      ensures old(OnTrack()) ==> OnTrack() && (r.None? <==> |old(yielded)| == |owner.Contents()|)
    {
      if finished {
        return None;
      }
      if inCache && cacheIndex < |owner.datastore| {
        r := Some(owner.datastore[cacheIndex]);
        cacheIndex := cacheIndex + 1;
      } else {
        inCache := false;
        r := owner.ConsumeNext();
        if r.None? {
          finished := true;
        }
      }
      if r.Some? {
        yielded := yielded + [r.value];
      }
    }
  }

  /** A lazily evaluated list-like object: the lazy reads of the `Tupleish`
      it extends, plus in-place edits of that sequence's cache. */
  class Listish<T> {
    /** The iterator and cache this list shares with its read operations. */
    const base: Tupleish<T>

    ghost predicate Valid()
      reads this, base, base.source
    {
      base.Valid()
    }

    ghost function Contents(): seq<T>
      reads this, base, base.source
      requires Valid()
    {
      base.Contents()
    }

    /** `Listish(iterable)`. */
    constructor (iterable: seq<T>)
      ensures Valid() && fresh(base) && fresh(base.source)
      ensures base.datastore == [] && base.source.pos == 0 && Contents() == iterable
    {
      base := new Tupleish(iterable);
    }

    /** `self[index] = value`: read the index first; at a reachable index
        replace that element and nothing else, otherwise raise the
        assignment error and change nothing. */
    method SetItem(index: int, value: T) returns (r: Outcome)
      requires Valid()
      modifies base, base.source
      ensures Valid() && old(base.source.pos) <= base.source.pos
      ensures 0 <= index < |old(Contents())| ==>
        && r == Done
        && Contents() == old(Contents())[index := value]
        && |base.datastore| == Max(old(|base.datastore|), index + 1)
      ensures index >= |old(Contents())| ==>
        r == Failed(IndexError(ASSIGNMENT_OUT_OF_RANGE)) && Contents() == old(Contents()) && base.Exhausted()
      ensures index < 0 ==> base.source.pos == old(base.source.pos)
      ensures index < 0 && 0 <= old(|base.datastore|) + index ==>
        r == Done && Contents() == old(Contents())[old(|base.datastore|) + index := value]
      ensures index < 0 && old(|base.datastore|) + index < 0 ==>
        r == Failed(IndexError(ASSIGNMENT_OUT_OF_RANGE)) && Contents() == old(Contents())
    {
      var read := base.Get(index);
      if read.Raised? {
        return Failed(IndexError(ASSIGNMENT_OUT_OF_RANGE));
      }
      var k := if index < 0 then |base.datastore| + index else index;
      base.datastore := base.datastore[k := value];
      r := Done;
    }

    /** `del self[index]`: read the index first; at a reachable index remove
        that element, keeping all others in order, otherwise raise the
        assignment error and change nothing. */
    method DelItem(index: int) returns (r: Outcome)
      requires Valid()
      modifies base, base.source
      ensures Valid() && old(base.source.pos) <= base.source.pos
      ensures 0 <= index < |old(Contents())| ==>
        && r == Done
        && Contents() == Removed(old(Contents()), index)
        && |base.datastore| == Max(old(|base.datastore|), index + 1) - 1
      ensures index >= |old(Contents())| ==>
        r == Failed(IndexError(ASSIGNMENT_OUT_OF_RANGE)) && Contents() == old(Contents()) && base.Exhausted()
      ensures index < 0 ==> base.source.pos == old(base.source.pos)
      ensures index < 0 && 0 <= old(|base.datastore|) + index ==>
        r == Done && Contents() == Removed(old(Contents()), old(|base.datastore|) + index)
      ensures index < 0 && old(|base.datastore|) + index < 0 ==>
        r == Failed(IndexError(ASSIGNMENT_OUT_OF_RANGE)) && Contents() == old(Contents())
    {
      var read := base.Get(index);
      if read.Raised? {
        return Failed(IndexError(ASSIGNMENT_OUT_OF_RANGE));
      }
      var k := if index < 0 then |base.datastore| + index else index;
      ghost var rest := base.source.items[base.source.pos..];
      RemovedExtends(base.datastore, rest, k);
      base.datastore := Removed(base.datastore, k);
      r := Done;
    }

    /** `insert(index, value)`. Index 0 prepends. A positive index first
        reads `index - 1`, ignoring a failure, and then inserts into the
        cache, clamped to its end; together that inserts into the sequence
        exactly as `list.insert` would, pulling no further than `index`
        elements. A negative index pulls nothing and inserts relative to the
        cache alone. */
    method Insert(index: int, value: T)
      requires Valid()
      modifies base, base.source
      ensures Valid() && old(base.source.pos) <= base.source.pos
      ensures index >= 0 ==> Contents() == Inserted(old(Contents()), index, value)
      ensures index == 0 ==>
        |base.datastore| == old(|base.datastore|) + 1 && base.source.pos == old(base.source.pos)
      ensures index > 0 ==>
        |base.datastore| == Max(old(|base.datastore|), Min(index, |old(Contents())|)) + 1
      ensures index < 0 ==>
        base.datastore == Inserted(old(base.datastore), index, value) && base.source.pos == old(base.source.pos)
    {
      if index == 0 {
        base.datastore := [value] + base.datastore;
      } else {
        ghost var cache0 := base.datastore;
        var _ := base.Get(index - 1);
        ghost var rest := base.source.items[base.source.pos..];
        if index > 0 {
          assert index <= |base.datastore| || rest == [];
          InsertedExtends(base.datastore, rest, index, value);
        } else {
          assert base.datastore == cache0;
        }
        base.datastore := Inserted(base.datastore, index, value);
      }
    }

    /** `self[start:stop] = values`: read the slice first (which raises
        TypeError for the bound shapes `_get_indices` cannot handle), then
        splice the cache; the sequence changes exactly as the list would. */
    method SetSlice(start: Option<int>, stop: Option<int>, values: seq<T>) returns (r: Outcome)
      requires Valid()
      modifies base, base.source
      ensures Valid() && old(base.source.pos) <= base.source.pos
      ensures PlanFor(Slice(start, stop, None)).MaxOfNone? ==>
        r == Failed(TypeError) && Contents() == old(Contents()) && base.source.pos == old(base.source.pos)
      ensures !PlanFor(Slice(start, stop, None)).MaxOfNone? ==>
        r == Done && Contents() == Spliced(old(Contents()), start, stop, values)
    {
      var read := base.GetSlice(Slice(start, stop, None));
      if read.Raised? {
        return Failed(read.error);
      }
      ghost var rest := base.source.items[base.source.pos..];
      if PlanFor(Slice(start, stop, None)).Probe? {
        LazySliceProbe(old(Contents()), old(|base.datastore|), Slice(start, stop, None));
      }
      SplicedExtends(base.datastore, rest, start, stop, values);
      base.datastore := Spliced(base.datastore, start, stop, values);
      r := Done;
    }

    /** `del self[start:stop]`: read the slice first, then remove it from the
        cache; the sequence changes exactly as the list would. */
    method DelSlice(start: Option<int>, stop: Option<int>) returns (r: Outcome)
      requires Valid()
      modifies base, base.source
      ensures Valid() && old(base.source.pos) <= base.source.pos
      ensures PlanFor(Slice(start, stop, None)).MaxOfNone? ==>
        r == Failed(TypeError) && Contents() == old(Contents()) && base.source.pos == old(base.source.pos)
      ensures !PlanFor(Slice(start, stop, None)).MaxOfNone? ==>
        r == Done && Contents() == Spliced(old(Contents()), start, stop, [])
    {
      var read := base.GetSlice(Slice(start, stop, None));
      if read.Raised? {
        return Failed(read.error);
      }
      ghost var rest := base.source.items[base.source.pos..];
      if PlanFor(Slice(start, stop, None)).Probe? {
        LazySliceProbe(old(Contents()), old(|base.datastore|), Slice(start, stop, None));
      }
      SplicedExtends(base.datastore, rest, start, stop, []);
      base.datastore := Spliced(base.datastore, start, stop, []);
      r := Done;
    }
  }

  /** Deleting a cached element of the cache deletes it from the sequence. */
  lemma RemovedExtends<T>(cache: seq<T>, rest: seq<T>, k: int)
    requires 0 <= k < |cache|
    ensures Removed(cache, k) + rest == Removed(cache + rest, k)
  {
    assert (cache + rest)[..k] == cache[..k];
    assert (cache + rest)[k + 1..] == cache[k + 1..] + rest;
  }

  /** Inserting into the cache at a position the cache reaches, or into a
      cache that already holds everything, inserts into the sequence. */
  lemma InsertedExtends<T>(cache: seq<T>, rest: seq<T>, i: int, v: T)
    requires 0 <= i
    requires i <= |cache| || rest == []
    ensures Inserted(cache, i, v) + rest == Inserted(cache + rest, i, v)
  {
    if rest == [] {
      assert cache + rest == cache;
      assert Inserted(cache, i, v) + rest == Inserted(cache, i, v);
    } else {
      var whole := cache + rest;
      assert InsertionPoint(|cache|, i) == i;
      assert InsertionPoint(|whole|, i) == i;
      assert Inserted(cache, i, v) == cache[..i] + [v] + cache[i..];
      assert Inserted(whole, i, v) == whole[..i] + [v] + whole[i..];
      assert whole[..i] == cache[..i];
      assert whole[i..] == cache[i..] + rest;
    }
  }

  /** Cutting `a + b` at a point inside `a` cuts `a` there and keeps `b` whole. */
  lemma AppendSplit<T>(a: seq<T>, b: seq<T>, m: int)
    requires 0 <= m <= |a|
    ensures (a + b)[..m] == a[..m] && (a + b)[m..] == a[m..] + b
  {
  }

  /** Splicing the cache splices the sequence, provided the cache covers
      both bounds or already holds everything; a negative or missing bound
      only occurs once everything is pulled. */
  lemma SplicedExtends<T>(cache: seq<T>, rest: seq<T>, start: Option<int>, stop: Option<int>, ys: seq<T>)
    requires rest == [] || (start.Some? && stop.Some? && 0 <= start.value <= |cache| && 0 <= stop.value <= |cache|)
    ensures Spliced(cache, start, stop, ys) + rest == Spliced(cache + rest, start, stop, ys)
  {
    if rest != [] {
      var (i, j) := (start.value, stop.value);
      assert Indices(start, stop, 1, |cache|) == (i, j);
      assert Indices(start, stop, 1, |cache + rest|) == (i, j);
      var (whole, m) := (cache + rest, Max(i, j));
      AppendSplit(cache, rest, i);
      AppendSplit(cache, rest, m);
      assert Spliced(whole, start, stop, ys) == whole[..i] + ys + whole[m..];
      assert Spliced(cache, start, stop, ys) == cache[..i] + ys + cache[m..];
    }
  }

  /** The worked example: `s = Tupleish(iter([10, 20, 30]))`; `s[2]` is 30
      and leaves three values cached; `len(s)` is 3, twice; a traversal
      gives back `[10, 20, 30]`. */
  method TenTwentyThirty() {
    var s := new Tupleish([10, 20, 30]);
    var v := s.Get(2);
    assert v == Ok(30) && |s.datastore| == 3;
    var n := s.Len();
    assert n == 3;
    n := s.Len();
    assert n == 3;
    var all := s.Traverse();
    assert all == [10, 20, 30];
  }

  /** A traversal started after an earlier one took a value from the source
      still gives back every value, the cached one included. */
  method IterTwice() {
    var s := new Tupleish([7, 8, 9]);
    var first := s.Iter();
    var v := first.Next();
    assert v == Some(7) && s.datastore == [7];
    var all := s.Traverse();
    assert all == [7, 8, 9];
  }

  /** Inserting far past the end of a fresh `Listish` appends, caches
      everything plus the new value, and reads back at the old length. */
  method InsertPastEnd() {
    var l := new Listish([1, 2]);
    l.Insert(30, 0);
    assert l.Contents() == [1, 2, 0] && |l.base.datastore| == 3;
    var v := l.base.Get(2);
    assert v == Ok(0);
  }
}
