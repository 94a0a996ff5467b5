/** `VecMin<T, M>`: a `Vec<T>` whose length never drops below the constant `M`.
    Growing operations are always allowed; operations that may shrink the
    vector either check the floor and fail with `BelowMinimum` leaving the
    vector untouched, or clamp their target length to `M`. */
module Vec {
  import opened Std
  import opened Lib
  import opened StdVec

  // --- range_len ---

  /** The start index `range_len` uses: `Excluded(n)` saturates at `usize::MAX`. */
  function SaturatedStart(b: Bound): (r: usize)
    ensures b.Unbounded? ==> r == 0
    ensures StartFits(b) ==> r == StartIndex(b)
    // where `slice_range` would overflow, the index saturates instead
    ensures b == Excluded(USIZE_MAX) ==> r == USIZE_MAX
  {
    match b
    case Included(n) => n
    case Excluded(n) => SaturatingAdd(n, 1)
    case Unbounded => 0
  }

  /** The end index `range_len` uses: `Included(n)` saturates, an open end is `max`. */
  function SaturatedEnd(b: Bound, max: usize): (r: usize)
    ensures b.Unbounded? ==> r == max
    ensures EndFits(b) ==> r == EndIndex(b, max)
    // where `slice_range` would overflow, the index saturates instead
    ensures b == Included(USIZE_MAX) ==> r == USIZE_MAX
  {
    match b
    case Included(n) => SaturatingAdd(n, 1)
    case Excluded(n) => n
    case Unbounded => max
  }

  /** `range_len(range, max)`: how many elements `range` denotes in a vector of
      length `max`. Total: an inverted range counts 0 instead of underflowing. */
  function RangeLen(range: RangeBounds, max: usize): (r: usize)
    ensures r <= SaturatedEnd(range.end, max)
    ensures r == 0 <==> SaturatedEnd(range.end, max) <= SaturatedStart(range.start)
    ensures r > 0 ==> SaturatedStart(range.start) + r == SaturatedEnd(range.end, max)
    ensures range.start.Unbounded? && range.end.Unbounded? ==> r == max
    // a start past `usize::MAX` leaves nothing to count
    ensures range.start == Excluded(USIZE_MAX) ==> r == 0
    // wherever `slice_range` accepts the bounds, both agree on the count
    ensures SliceRangeOk(range, max) ==>
      r == SliceRange(range, max).end - SliceRange(range, max).start
  {
    SaturatingSub(SaturatedEnd(range.end, max), SaturatedStart(range.start))
  }

  // --- properties relating the checked and clamped variants ---

  /** `truncate(len)` fails exactly when `truncate_or_min(len)` lands on `M`,
      and otherwise both give the same vector; `truncate_to_min` gives length `M`. */
  lemma TruncatePairing<T>(m: nat, v: seq<T>, len: nat)
    requires m <= |v|
    ensures len < m ==> |Truncated(v, Max(len, m))| == m
    ensures len >= m ==> Truncated(v, Max(len, m)) == Truncated(v, len)
    ensures |Truncated(v, m)| == m
  {
  }

  /** The same pairing for `resize_with`/`resize_or_min_with` (and hence for
      `resize`/`resize_or_min`, which are `resize_with` with a cloning generator). */
  lemma ResizePairing<T>(m: nat, v: seq<T>, n: nat, gen: nat -> T)
    requires m <= |v|
    ensures n < m ==> |ResizedWith(v, Max(n, m), gen)| == m
    ensures n >= m ==> ResizedWith(v, Max(n, m), gen) == ResizedWith(v, n, gen)
  {
  }

  /** The length `drain` predicts before mutating is the length it leaves, so
      its guard rejects exactly the drains that would break the floor. */
  lemma DrainGuardExact<T>(v: Vec<T>, range: RangeBounds)
    requires SliceRangeOk(range, |v|)
    ensures RangeLen(range, |v|) <= |v|
    ensures |v| - RangeLen(range, |v|) ==
      |Spliced(v, SliceRange(range, |v|).start, SliceRange(range, |v|).end, [])|
  {
  }

  /** Likewise for `splice`: `len + gain - loss` is the final length. */
  lemma SpliceGuardExact<T>(v: Vec<T>, range: RangeBounds, rep: seq<T>)
    requires SliceRangeOk(range, |v|)
    ensures RangeLen(range, |v|) <= |v| + |rep|
    ensures |v| + |rep| - RangeLen(range, |v|) ==
      |Spliced(v, SliceRange(range, |v|).start, SliceRange(range, |v|).end, rep)|
  {
  }

  // --- the container ---

  class VecMin<T> {
    /** The length floor, fixed for the lifetime of the container. */
    const M: usize
    /** The wrapped vector. */
    var s: Vec<T>

    ghost predicate Valid()
      reads this
    {
      |s| >= M
    }

    // - Constructors & destructors -

    /** `new_unchecked`: the caller promises `|v| >= M`. */
    constructor Unchecked(m: usize, v: Vec<T>)
      requires |v| >= m
      ensures Valid() && M == m && s == v
    {
      M, s := m, v;
    }

    /** `new`: succeeds exactly when `v` is long enough; otherwise hands `v` back. */
    static method New(m: usize, v: Vec<T>) returns (r: Result<VecMin<T>, Vec<T>>)
      ensures r.Ok? <==> |v| >= m
      ensures r.Ok? ==> fresh(r.value) && r.value.Valid() && r.value.M == m && r.value.s == v
      ensures r.Err? ==> r.error == v
    {
      if |v| >= m {
        var c := new VecMin.Unchecked(m, v);
        r := Ok(c);
      } else {
        r := Err(v);
      }
    }

    /** `collect`: `new` applied to everything the iterator yields. */
    static method Collect(m: usize, items: Vec<T>) returns (r: Result<VecMin<T>, Vec<T>>)
      ensures r.Ok? <==> |items| >= m
      ensures r.Ok? ==> fresh(r.value) && r.value.Valid() && r.value.M == m && r.value.s == items
      ensures r.Err? ==> r.error == items
    {
      r := New(m, items);
    }

    /** `collect_with_capacity`: as `collect`; the capacity hint `M + extra`
        plays no part in success, but its addition must not overflow. */
    static method CollectWithCapacity(m: usize, items: Vec<T>, extra: usize)
      returns (r: Result<VecMin<T>, Vec<T>>)
      requires m + extra <= USIZE_MAX
      ensures r.Ok? <==> |items| >= m
      ensures r.Ok? ==> fresh(r.value) && r.value.Valid() && r.value.M == m && r.value.s == items
      ensures r.Err? ==> r.error == items
    {
      r := New(m, items);
    }

    /** `default`: exactly `M` default values (`dflt` stands for `T::default()`). */
    static method Default(m: usize, dflt: T) returns (c: VecMin<T>)
      ensures fresh(c) && c.Valid() && c.M == m
      ensures |c.s| == m && forall j :: 0 <= j < m ==> c.s[j] == dflt
    {
      c := new VecMin.Unchecked(m, RepeatWith((_: nat) => dflt, m));
    }

    /** `into_inner`: extraction always succeeds and returns at least `M` elements. */
    function IntoInner(): (r: Vec<T>)
      reads this
      requires Valid()
      ensures |r| >= M && r == s
    {
      s
    }

    // - Custom -

    /** `min_len`: the floor, which is a lower bound of the length. */
    function MinLen(): (r: usize)
      reads this
      requires Valid()
      ensures r == M && r <= |s|
    {
      M
    }

    /** `min_slice`: the first `M` elements, which the invariant guarantees exist. */
    function MinSlice(): (r: seq<T>)
      reads this
      requires Valid()
      ensures |r| == M && r <= s
    {
      s[..M]
    }

    // - View -

    /** `as_mut_slice`: writes through the returned slice may change any
        element but never the length; `edited` is the slice after the writes. */
    method AsMutSlice(edited: seq<T>)
      requires Valid() && |edited| == |s|
      modifies this
      ensures Valid() && s == edited
    {
      s := edited;
    }

    // - Increasing len -

    /** `push`. Growing past `usize::MAX` elements is Vec's fatal capacity overflow. */
    method Push(item: T)
      requires Valid() && |s| < USIZE_MAX
      modifies this
      ensures Valid() && s == old(s) + [item]
    {
      s := s + [item];
    }

    /** `insert`; `Vec::insert` panics on `index > len`. */
    method Insert(index: usize, element: T)
      requires Valid() && index <= |s| && |s| < USIZE_MAX
      modifies this
      ensures Valid() && s == old(s)[..index] + [element] + old(s)[index..]
    {
      s := s[..index] + [element] + s[index..];
    }

    /** `append`: moves all of `other` to the end; `otherAfter` is the
        caller's vector afterwards, which is left empty. */
    method Append(other: Vec<T>) returns (otherAfter: Vec<T>)
      requires Valid() && |s| + |other| <= USIZE_MAX
      modifies this
      ensures Valid() && s == old(s) + other && otherAfter == []
    {
      s := s + other;
      otherAfter := [];
    }

    /** `extend_from_slice`: appends clones of `other`. */
    method ExtendFromSlice(other: seq<T>)
      requires Valid() && |s| + |other| <= USIZE_MAX
      modifies this
      ensures Valid() && s == old(s) + other
    {
      Extend(other);
    }

    /** `extend_from_within`: appends clones of the elements in `range`, which
        std normalises with `core::slice::range`, modelled by `SliceRange`
        (panicking on a malformed range). */
    method ExtendFromWithin(range: RangeBounds)
      requires Valid() && SliceRangeOk(range, |s|)
      requires |s| + RangeLen(range, |s|) <= USIZE_MAX
      modifies this
      ensures Valid()
      ensures s == old(s) + old(s)[SliceRange(range, |old(s)|).start..SliceRange(range, |old(s)|).end]
    {
      var rr := SliceRange(range, |s|);
      s := s + s[rr.start..rr.end];
    }

    /** `Extend<T>` (and `Extend<&T>` for `Copy` elements, which appends the same
        values): appends everything the iterator yields. */
    method Extend(items: seq<T>)
      requires Valid() && |s| + |items| <= USIZE_MAX
      modifies this
      ensures Valid() && s == old(s) + items
    {
      s := s + items;
    }

    // - Len decreasing -

    /** `pop`: removes and returns the last element when `len > M`, else
        fails and changes nothing. */
    method Pop() returns (r: Result<Option<T>, MinLenError>)
      requires Valid()
      modifies this
      ensures Valid()
      ensures r.Ok? <==> |old(s)| > M
      ensures r.Ok? ==> r.value == Some(old(s)[|old(s)| - 1]) && s == old(s)[..|old(s)| - 1]
      ensures r.Err? ==> r.error == BelowMinimum && s == old(s)
    {
      if |s| > M {
        var last := s[|s| - 1];
        s := s[..|s| - 1];
        r := Ok(Some(last));
      } else {
        r := Err(BelowMinimum);
      }
    }

    /** `pop_to_min`: as `pop`, but at the floor it returns `None` and changes nothing. */
    method PopToMin() returns (r: Option<T>)
      requires Valid()
      modifies this
      ensures Valid()
      ensures r.Some? <==> |old(s)| > M
      ensures r.Some? ==> r.value == old(s)[|old(s)| - 1] && s == old(s)[..|old(s)| - 1]
      ensures r.None? ==> s == old(s) && |s| == M
    {
      if |s| > M {
        var last := s[|s| - 1];
        s := s[..|s| - 1];
        r := Some(last);
      } else {
        r := None;
      }
    }

    /** `remove(index)`: the floor is checked first, so an out-of-bounds index
        only panics (inside `Vec::remove`) when `len > M`. */
    method Remove(index: usize) returns (r: Result<T, MinLenError>)
      requires Valid()
      requires |s| > M ==> index < |s|
      modifies this
      ensures Valid()
      ensures r.Ok? <==> |old(s)| > M
      ensures r.Ok? ==> r.value == old(s)[index] && s == Removed(old(s), index)
      ensures r.Err? ==> r.error == BelowMinimum && s == old(s)
    {
      if |s| > M {
        var x := s[index];
        s := Removed(s, index);
        r := Ok(x);
      } else {
        r := Err(BelowMinimum);
      }
    }

    /** `swap_remove(index)`: as `remove`, with the last element filling the gap. */
    method SwapRemove(index: usize) returns (r: Result<T, MinLenError>)
      requires Valid()
      requires |s| > M ==> index < |s|
      modifies this
      ensures Valid()
      ensures r.Ok? <==> |old(s)| > M
      ensures r.Ok? ==> r.value == old(s)[index] && s == SwapRemoved(old(s), index)
      ensures r.Err? ==> r.error == BelowMinimum && s == old(s)
    {
      if |s| > M {
        var x := s[index];
        s := SwapRemoved(s, index);
        r := Ok(x);
      } else {
        r := Err(BelowMinimum);
      }
    }

    /** `truncate(len)`: fails exactly when `len < M`. */
    method Truncate(len: usize) returns (r: Result<(), MinLenError>)
      requires Valid()
      modifies this
      ensures Valid()
      ensures r.Ok? <==> len >= M
      ensures r.Ok? ==> s == Truncated(old(s), len)
      ensures r.Err? ==> r.error == BelowMinimum && s == old(s)
    {
      if len >= M {
        s := Truncated(s, len);
        r := Ok(());
      } else {
        r := Err(BelowMinimum);
      }
    }

    /** `truncate_or_min(len)`: truncates to `max(len, M)`. */
    method TruncateOrMin(len: usize)
      requires Valid()
      modifies this
      ensures Valid() && s == Truncated(old(s), Max(len, M))
    {
      s := Truncated(s, Max(len, M));
    }

    /** `truncate_to_min`: truncates to exactly `M` elements. */
    method TruncateToMin()
      requires Valid()
      modifies this
      ensures Valid() && s == Truncated(old(s), M) && |s| == M
    {
      s := Truncated(s, M);
    }

    /** `resize(new_len, value)`: fails exactly when `new_len < M`. */
    method Resize(newLen: usize, value: T) returns (r: Result<(), MinLenError>)
      requires Valid()
      modifies this
      ensures Valid()
      ensures r.Ok? <==> newLen >= M
      ensures r.Ok? ==> s == Resized(old(s), newLen, value)
      ensures r.Err? ==> r.error == BelowMinimum && s == old(s)
    {
      if newLen >= M {
        s := Resized(s, newLen, value);
        r := Ok(());
      } else {
        r := Err(BelowMinimum);
      }
    }

    /** `resize_or_min(new_len, value)`: resizes to `max(new_len, M)`. */
    method ResizeOrMin(newLen: usize, value: T)
      requires Valid()
      modifies this
      ensures Valid() && s == Resized(old(s), Max(newLen, M), value)
    {
      s := Resized(s, Max(newLen, M), value);
    }

    /** `resize_with(new_len, generator)`; `gen(j)` is the generator's `j`-th result. */
    method ResizeWith(newLen: usize, gen: nat -> T) returns (r: Result<(), MinLenError>)
      requires Valid()
      modifies this
      ensures Valid()
      ensures r.Ok? <==> newLen >= M
      ensures r.Ok? ==> s == ResizedWith(old(s), newLen, gen)
      ensures r.Err? ==> r.error == BelowMinimum && s == old(s)
    {
      if newLen >= M {
        s := ResizedWith(s, newLen, gen);
        r := Ok(());
      } else {
        r := Err(BelowMinimum);
      }
    }

    /** `resize_or_min_with(new_len, generator)`: resizes to `max(new_len, M)`. */
    method ResizeOrMinWith(newLen: usize, gen: nat -> T)
      requires Valid()
      modifies this
      ensures Valid() && s == ResizedWith(old(s), Max(newLen, M), gen)
    {
      s := ResizedWith(s, Max(newLen, M), gen);
    }

    /** `drain(range)`: the count is computed with `range_len` before anything
        changes; on success the drained elements are returned (eagerly here).
        Fatal: `len - drain_len` underflowing, and a malformed range once the
        guard has passed (`core::slice::range`, modelled by `SliceRange`,
        inside `Vec::drain`). */
    method Drain(range: RangeBounds) returns (r: Result<Vec<T>, MinLenError>)
      requires Valid()
      requires RangeLen(range, |s|) <= |s|
      requires |s| - RangeLen(range, |s|) >= M ==> SliceRangeOk(range, |s|)
      modifies this
      ensures Valid()
      ensures r.Ok? <==> |old(s)| - RangeLen(range, |old(s)|) >= M
      ensures r.Ok? ==>
        var rr := SliceRange(range, |old(s)|);
        r.value == old(s)[rr.start..rr.end] && s == Spliced(old(s), rr.start, rr.end, [])
      ensures r.Err? ==> r.error == BelowMinimum && s == old(s)
    {
      var drainLen := RangeLen(range, |s|);
      var finalLen := |s| - drainLen;
      if finalLen >= M {
        var rr := SliceRange(range, |s|);
        r := Ok(s[rr.start..rr.end]);
        s := Spliced(s, rr.start, rr.end, []);
      } else {
        r := Err(BelowMinimum);
      }
    }

    /** `splice(range, replace_with)`: the final length `len + gain - loss` is
        computed before anything changes; on failure nothing changes (the code
        returns `Err`, not an empty iterator). Fatal: the addition overflowing,
        the subtraction underflowing, and a malformed range once the guard has
        passed (`core::slice::range` inside `Vec::splice`). */
    method Splice(range: RangeBounds, replaceWith: Vec<T>) returns (r: Result<Vec<T>, MinLenError>)
      requires Valid()
      requires |s| + |replaceWith| <= USIZE_MAX
      requires RangeLen(range, |s|) <= |s| + |replaceWith|
      requires |s| + |replaceWith| - RangeLen(range, |s|) >= M ==> SliceRangeOk(range, |s|)
      modifies this
      ensures Valid()
      ensures r.Ok? <==> |old(s)| + |replaceWith| - RangeLen(range, |old(s)|) >= M
      ensures r.Ok? ==>
        var rr := SliceRange(range, |old(s)|);
        r.value == old(s)[rr.start..rr.end] && s == Spliced(old(s), rr.start, rr.end, replaceWith)
      ensures r.Err? ==> r.error == BelowMinimum && s == old(s)
    {
      var gain := |replaceWith|;
      var loss := RangeLen(range, |s|);
      var finalLen := |s| + gain - loss;
      if finalLen >= M {
        var rr := SliceRange(range, |s|);
        r := Ok(s[rr.start..rr.end]);
        s := Spliced(s, rr.start, rr.end, replaceWith);
      } else {
        r := Err(BelowMinimum);
      }
    }
  }
}
