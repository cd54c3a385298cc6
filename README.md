# listish in Dafny

`listish` wraps any Python iterator in a sequence that reads lazily and
remembers what it read. A `Tupleish` holds the iterator (`_iterator`) and a
cache of every value pulled so far (`_datastore`). Reading `s[i]` pulls from
the iterator only until index `i` is cached. A `for` loop first replays the
cache and then pulls the rest. `len(s)` drains the iterator. A slice pulls
just far enough to cover its bounds, or pulls everything when a bound is
negative or missing. A `Listish` is a `Tupleish` that also supports `s[i] = v`,
`del s[i]`, `s.insert(i, v)`, and assignment and deletion of simple slices.
Setting or deleting `s[i]` first reads index `i`. `s.insert(0, v)` reads
nothing, and `s.insert(i, v)` for any other `i` first reads index `i - 1`.
A slice assignment or deletion first reads the slice. Each then edits the
cache.

This model follows Python 3 up to 3.6 (see "Left out").

The model has three modules:

- `PyBuiltins` (`py_builtins.dfy`) holds the Python built-ins the core relies
  on, written out as functions:
  - `slice.indices`, `range`, list slicing;
  - slice assignment, `del xs[k]`, `list.insert`;
  - the exceptions that can escape.
- `LazyReads` (`lazy_reads.dfy`) describes reads on values. A state is the
  sequence's logical contents `xs` (the cache followed by what the iterator
  has not produced yet) plus the cached length. A run of integer reads is a
  `Walk`. A slice read is `LazySlice`, including the bound analysis of
  `_get_indices` (`PlanFor`). Its lemmas compare both with Python's own list
  slicing.
- `Listish` (`listish.dfy`) holds the classes:
  - `SourceIterator` is the one-shot iterator.
  - `Tupleish` has a `datastore` field that its methods update in place.
  - `Traversal` is the generator that `__iter__` returns.
  - `Listish` extends a `Tupleish`, which it holds as `base`.

  Each read method keeps `Contents()` (cache plus unread rest) unchanged and
  keeps the invariant `Faithful()`: the cache is exactly what was pulled. Each
  read is proved equal to its `LazyReads` function. For a non-negative index,
  the edit methods change `Contents()` exactly as the matching Python list
  operation changes a list. A negative index in `SetItem`, `DelItem` or
  `Insert` pulls nothing, so it counts from the end of the cache rather than
  from the end of the whole sequence. The contracts state that case
  separately.

Where the library departs from a tuple or list, the model states the
departure:

- A negative integer index reads only the cache. Past the cache's start it
  raises `list index out of range`.
- A slice with a missing start raises `TypeError` from `max()` when its stop
  is non-negative, or when it has no stop and no step either. Examples are
  `s[:3]` and `s[:]`. `s[::2]` and `s[:-1]` pull everything instead.
- A backward slice whose two non-negative bounds start at or past the real
  end returns `[]`. Python's list would clamp the start to the last element.
  `LazySliceProbe` states both behaviours.

## Model

| member | source | states |
|---|---|---|
| `PyBuiltins.StepOf` | listish.py:89 | A missing step walks forward by one; a given step is used as it is |
| `PyBuiltins.ResolveBound` | listish.py:89 | One bound of `slice.indices`: the result lies in `[lower, upper]`. An in-range non-negative bound is kept and a negative one counts from the end. A bound above `upper` clamps to `upper`, and a negative one still below `lower` after adding the length clamps to `lower` |
| `PyBuiltins.Indices` | listish.py:89 | Resolved bounds lie in `[0, len]` for a forward step and in `[-1, len)` for a backward one. A missing bound defaults to the end the step starts or stops at. A given bound `b` resolves to `min(b, len)` (forward) or `min(b, len - 1)` (backward) when `b >= 0`, and to `max(b + len, 0)` (forward) or `max(b + len, -1)` (backward) when `b < 0` |
| `PyBuiltins.Range` | listish.py:51-54 | `range` is non-empty exactly when start lies before stop in the step's direction. It begins at start, and every value lies strictly before stop and not before start. One more step after its last value would reach or pass stop |
| `PyBuiltins.RangeElement` | listish.py:54 | The k-th value of `range(start, stop, step)` is `start + k * step` |
| `PyBuiltins.Removed` | listish.py:113 | `del xs[k]` is one shorter: elements before `k` stay, later ones move down by one |
| `PyBuiltins.InsertionPoint` | listish.py:123 | `list.insert` position lies in `[0, n]`; an in-range index is kept; an index past the end becomes `n` |
| `PyBuiltins.Inserted` | listish.py:123 | `list.insert` is one longer, has `v` at the insertion point, keeps the elements before it, and shifts the rest up by one |
| `PyBuiltins.RemoveInserted` | listish.py:123 | Deleting at the insertion point undoes the insert |
| `PyBuiltins.Pick` | listish.py:54 | Picking over a range is non-empty exactly when the range is, and then starts with `xs[start]` |
| `PyBuiltins.PickElements` | listish.py:54 | Picking over a range takes one element per range value, in order: the k-th result is `xs[range[k]]`, and every range value is an index of `xs` |
| `PyBuiltins.Sliced` | listish.py:54 | The list slice `xs[start:stop:step]`; with step 1 it is the contiguous run `xs[s:max(s, e)]` between the resolved bounds |
| `PyBuiltins.Spliced` | listish.py:106 | `xs[start:stop] = ys` keeps `xs` up to the resolved start, puts `ys` there, and keeps `xs` from `max(start, stop)` on; its length changes by `len(ys)` minus the length of the replaced run |
| `PyBuiltins.PickUnitStep` | listish.py:54 | A step-1 range between in-range bounds picks the contiguous run `xs[i..j]` |
| `PyBuiltins.SpliceContiguous` | listish.py:106 | `xs[i:j] = ys` with in-range `i <= j` keeps `xs[..i]` and `xs[j..]`, puts `ys` between, reads back `ys`, and has the expected length |
| `PyBuiltins.SpliceReadBack` | listish.py:106 | For any bounds, slice assignment replaces exactly the run the slice `xs[start:stop]` reads, and reading back at the resolved start gives `ys` |
| `LazyReads.ReadAt` | listish.py:56-58 | A non-negative index succeeds exactly when it is below the length and reads that element. A negative index succeeds exactly when it reaches no further back than the cache's start, and reads the cache counting from its end |
| `LazyReads.CachedAfter` | listish.py:55-58 | An integer read never shrinks the cache and never caches past the contents |
| `LazyReads.Walk` | listish.py:62-67 | A walk of reads never shrinks the cache, stays within the contents, and yields at most one value per index |
| `LazyReads.WalkForward` | listish.py:62-67 | A forward walk from a non-negative start yields the elements the list slice would, cut off at the end of the contents |
| `LazyReads.WalkBackward` | listish.py:62-67 | A backward walk starting inside the contents and stopping at or above -1 yields every element the list slice would |
| `LazyReads.WalkPrefetch` | listish.py:46-52 | The prefetch walk over `range(lo, hi)` leaves `min(hi, len)` elements cached, or more if more were cached already |
| `LazyReads.WalkCachedBelow` | listish.py:50-54 | A walk whose indexes lie below a bound never caches past that bound |
| `LazyReads.PlanFor` | listish.py:69-85 | Only two non-negative bounds avoid pulling everything, and then the probe length covers both; a negative bound always pulls everything. `max()` fails exactly when start is missing and stop is non-negative, or when all three parts are missing; a step-only slice such as `s[::2]` pulls everything instead |
| `LazyReads.LazySlice` | listish.py:42-54 | A slice read never shrinks the cache; it raises exactly for a `max()` failure (TypeError, nothing pulled) or a zero step (ValueError); a must-exhaust plan caches everything |
| `LazyReads.ResolvedSlice` | listish.py:44-54 | Once the length is fixed, a slice read raises exactly when the step is zero (ValueError, nothing pulled) and otherwise returns values |
| `LazyReads.WalkSlice` | listish.py:46-54 | The prefetch-then-walk never shrinks the cache and stays within the contents |
| `LazyReads.LazySliceExhaust` | listish.py:82-89 | With a negative or missing bound, the slice equals the list slice of the whole contents, and everything ends up cached |
| `LazyReads.LazySliceProbe` | listish.py:85-89 | With two non-negative bounds, the cache grows to `max(start, stop) + 2` elements or all of them. The slice equals the list slice, except that a backward slice starting at or past the end returns `[]` |
| `LazyReads.ProbeForward` | listish.py:54 | A forward walk between non-negative bounds reads the list slice |
| `LazyReads.ProbeBackward` | listish.py:54 | A backward walk between non-negative bounds reads the list slice when it starts inside the contents, and nothing when it starts past the end |
| `LazyReads.LazySliceForward` | listish.py:42-54 | A forward slice with both bounds given, of any sign, equals the list slice |
| `LazyReads.LazySliceInRange` | listish.py:42-54 | Between two indexes of the sequence, a slice with any non-zero step equals the list slice |
| `Listish.SourceIterator.Next` | listish.py:30 | `next()` yields the next unproduced value and advances by one; at the end it yields nothing, and the end stays the end |
| `Listish.SourceIterator.Drain` | listish.py:92 | `list(iterator)` returns every unproduced value and leaves the iterator exhausted |
| `Listish.Tupleish.constructor` | listish.py:24-27 | A new sequence has an empty cache, shows exactly the iterable, and is faithful |
| `Listish.Tupleish.Faithful` | listish.py:24-32 | The cache is exactly the pulled prefix if and only if the sequence shows exactly what the source produces |
| `Listish.Tupleish.ConsumeNext` | listish.py:29-32 | A pull appends the next source value to the cache and keeps the contents; at the end nothing changes |
| `Listish.Tupleish.Get` | listish.py:55-60 | Reading index `i >= 0` below the length yields element `i` and leaves `max(old, i + 1)` values cached. Reading past the end raises "index out of range" and exhausts the source. A negative index pulls nothing: it reads the cache from its end, or raises "list index out of range". The result equals `ReadAt` and the cache length equals `CachedAfter` |
| `Listish.Tupleish.Len` | listish.py:91-93 | `len` caches everything, returns the length of the contents, and keeps them |
| `Listish.Tupleish.GetItemsInBounds` | listish.py:62-67 | Reading indexes one by one until the first failure collects exactly `Walk`'s values and leaves exactly its cache length; the contents are kept |
| `Listish.Tupleish.GetIndices` | listish.py:69-89 | A must-exhaust plan caches everything and resolves against the real length. A probe pulls nothing and returns the bounds unchanged. A missing start raises TypeError when the stop is non-negative or when all three parts are missing (`s[::2]` pulls everything instead); otherwise a zero step raises ValueError |
| `Listish.Tupleish.GetSlice` | listish.py:42-54 | A slice read returns exactly `LazySlice`'s result and leaves its cache length; the contents are kept |
| `Listish.Tupleish.ReadResolved` | listish.py:46-54 | The prefetch and the walk together return exactly `WalkSlice`'s values and leave its cache length |
| `Listish.Tupleish.Iter` | listish.py:34-40 | `iter(s)` returns a fresh traversal that has not started and is on track |
| `Listish.Tupleish.Traverse` | listish.py:34-40 | A full `for` loop yields the whole contents once, whatever was cached before, and leaves the source exhausted |
| `Listish.Traversal.Next` | listish.py:34-40 | The generator first yields cached values from its cache position, then pulls, and ends for good at the end of the source. An undisturbed traversal yields the next element and ends exactly when all have been yielded |
| `Listish.Listish.constructor` | listish.py:24-27 | A new list has an empty cache and shows exactly the iterable |
| `Listish.Listish.SetItem` | listish.py:101-106 | A reachable index gets the value and nothing else changes; an unreachable one raises "assignment index out of range" and changes nothing |
| `Listish.Listish.DelItem` | listish.py:108-113 | A reachable index is removed and the rest keep their order; an unreachable one raises "assignment index out of range" and changes nothing |
| `Listish.Listish.Insert` | listish.py:115-123 | A non-negative index inserts into the contents exactly as `list.insert` would. The cache grows by one past `min(index, len)`; index 0 pulls nothing. A negative index inserts relative to the cache alone |
| `Listish.Listish.SetSlice` | listish.py:101-106 | `s[start:stop] = ys` changes the contents exactly as list slice assignment would, or raises TypeError, changing nothing, when start is missing and stop is missing or non-negative (`s[:-1] = ys` pulls everything and proceeds) |
| `Listish.Listish.DelSlice` | listish.py:108-113 | `del s[start:stop]` removes exactly the run the list would, or raises TypeError, changing nothing, when start is missing and stop is missing or non-negative (`del s[:-1]` pulls everything and proceeds) |
| `Listish.RemovedExtends` | listish.py:113 | Deleting an element from the cache deletes it from the contents |
| `Listish.InsertedExtends` | listish.py:119-123 | Inserting into the cache inserts into the contents, provided the index is within the cache or the cache already holds everything |
| `Listish.SplicedExtends` | listish.py:106 | Splicing the cache splices the contents, provided both bounds are within the cache or the cache already holds everything |

## Left out

- The Python version: this model follows Python 3 up to 3.6.
  - A missing bound passed to `max()` raises TypeError. Python 2 would compare `None` with an integer.
  - The end of the source ends iteration. Under PEP 479 (Python 3.7 and later), the `StopIteration` raised inside `__iter__`'s generator becomes a `RuntimeError`.
- `MustExhaustException` is never seen by callers. `_get_indices` catches it at once, and the model has only the resulting choice (`PlanFor`).
- Methods inherited from the `Sequence` and `MutableSequence` mixins are not modelled. These are `__contains__`, `index`, `count`, `__reversed__`, `append`, `extend`, `pop`, `remove`, `reverse` and `__iadd__`. They are not defined in `listish.py`.
- Listish.SetSlice: only simple slices (no step) are modelled. Assigning to an extended slice, and deleting one, falls through to Python's list rules for extended slices, which are not modelled.
- Listish.DelSlice: only simple slices (no step) are modelled, for the same reason.
- Listish.SetSlice: the assigned value is taken as a finite sequence. Python accepts any iterable here.
- Values are compared by equality, not identity; the `is` checks in the tests become `==`.
- The source iterator is a finite sequence that only its owner advances. Infinite iterators, iterators shared with other code, and iterators that raise are not modelled.
- Listish.Traversal.Next: `OnTrack` describes one traversal that nothing else disturbs. Two traversals of the same object that are interleaved, or a traversal interrupted by edits, are not claimed to yield anything in particular.
- Listish.Traversal.Next: list identity is not modelled. `insert(0, v)` (listish.py:117) binds `_datastore` to a new list, while a generator already inside `for value in self._datastore` keeps iterating the old list object. The model's traversal always reads the current cache. Take `s = Listish([1, 2])`, read `s[1]` so that both values are cached, and take one value (1) from `t = iter(s)`. After `s.insert(0, 9)`, Python's `next(t)` yields 2 from the old list, while the model yields 1 from the new cache `[9, 1, 2]`. Every other edit changes the list in place, and there the two agree.
- Python's `list(s)` calls `len(s)` before iterating, which drains the source. The model's `Traverse` is the bare `for` loop.
- `setup.py` and the test suite are not part of this model. The worked examples `TenTwentyThirty`, `IterTwice` and `InsertPastEnd` in `listish.dfy` restate some of the test suite's cases.
