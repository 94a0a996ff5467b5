# vec_min in Dafny

A model of the `vec_min` crate: `VecMin<T, M>`, a growable vector meant to
keep its length at or above the constant `M`. It wraps one `Vec<T>`. The model
proves that every public operation keeps the length at or above `M`, with
`drain` and `splice` taken as eager operations whose iterators are dropped
normally; a leaked `Drain` or `Splice` is outside that proof (see
"Left out"). The model is a Dafny
class `Vec.VecMin<T>` with a constant field `M` and a field `s: Vec<T>` (a
sequence whose length fits a `usize`). Its object invariant `Valid()` is
`|s| >= M`. Every public operation keeps that invariant and gives the exact new
value of `s`. The operations fall into four groups:

- **Growing** operations are always allowed: `push`, `insert`, `append`,
  `extend_from_slice`, `extend_from_within`, `extend`.
- **Checked** operations return `Err(BelowMinimum)` and leave `s` unchanged
  when the floor would be broken: `pop`, `remove`, `swap_remove`, `truncate`,
  `resize`, `resize_with`, `drain`, `splice`.
- **Clamped** operations move the target length up to `M`: `pop_to_min`,
  `truncate_or_min`, `truncate_to_min`, `resize_or_min`, `resize_or_min_with`.
- **Construction** goes through the checked `new` (and `collect`,
  `collect_with_capacity`) or the unchecked `new_unchecked`. `default` builds
  exactly `M` default values.

Files:

- `std.dfy` (module `Std`) holds the parts of Rust's `core` the crate uses:
  `usize` (64-bit, `USIZE_MAX = 2^64 - 1`), `Option`, `Result`, saturating and
  checked addition, and `Bound`/`RangeBounds`/`Range`.
- `lib.dfy` (module `Lib`) holds the error value `MinLenError.BelowMinimum`
  and `slice_range`. Its fatal assertions become preconditions, collected in
  `SliceRangeOk`. The crate's `slice_range` is private and has no caller. It
  is a copy of `core::slice::range`, the validator that `Vec::drain`,
  `Vec::splice` and `Vec::extend_from_within` call. `Lib.SliceRange` stands
  in for that validator.
- `std_vec.dfy` (module `StdVec`) says what the standard `Vec` operations the
  wrapper delegates to do to the sequence. These are `truncate`, `resize`,
  `resize_with`, `remove`, `swap_remove`, `drain`/`splice` and
  `repeat_with(..).take(k)`. Each is characterised element by element, and
  the permutation facts are proved as lemmas.
- `vec.dfy` (module `Vec`) holds `range_len` and the class `VecMin`. It also
  holds the lemmas that pair each checked operation with its clamped variant
  and show that the drain/splice guards predict the final length exactly.
- `scenarios.dfy` (module `Scenarios`) is client code. It shows the
  `into_inner`/`new` round trip, that a rejected construction returns its
  input, and the example scenarios with `M = 2`, `M = 1` and `M = 3`.

Modelling decisions:

- `M` is a constant field fixed at construction, not a type parameter. Two
  containers with different floors share a Dafny type, so the compile-time
  separation of different `M`s is not modelled.
- Rust's fatal conditions become preconditions. These are index panics,
  `slice_range` assertions, capacity overflow past `usize::MAX` elements, and
  arithmetic overflow in the guards (debug-build semantics). Recoverable
  failures are modelled as `Result` values.
- The closure passed to `resize_with` is a function `gen: nat -> T`, where
  `gen(j)` is the value its `j`-th call returns. `T::default()` is a parameter
  `dflt`. An iterator argument is the finite sequence it yields.
- `drain` and `splice` return the removed elements eagerly as a sequence.

Where the source files disagree with each other or with their documentation,
the model follows the code:

- `src/vec.rs` imports `crate::MinLenError` and uses `MinLenError::BelowMinimum`,
  but `src/lib.rs` defines a unit struct `ModifyError<M>`, so the crate as
  written does not compile. The model has one payload-free error value,
  `MinLenError.BelowMinimum`.
- The doc comment of `splice` says that on failure it "does nothing and returns
  an empty iterator". The code returns `Err`. `Vec.VecMin.Splice` returns `Err`
  and leaves `s` unchanged.
- `remove` and `swap_remove` check the floor before indexing. An out-of-range
  index therefore panics only when `len > M`; at the floor the result is `Err`.
  The precondition is `|s| > M ==> index < |s|`.
- `drain` and `splice` run their guard before std's range validation,
  `core::slice::range`. A malformed range that the guard rejects gives `Err`,
  not a panic. Only a range that passes the guard must satisfy
  `slice_range`'s conditions.
- `range_len` saturates where `slice_range` panics: `Excluded(usize::MAX)` as a
  start, `Included(usize::MAX)` as an end. The two functions agree wherever
  `slice_range` accepts the bounds (`Vec.RangeLen`).

## Model

| member | source | states |
|---|---|---|
| `Std.SaturatingAdd` | src/vec.rs:524-528 | the result is the exact sum when it fits, otherwise `usize::MAX`, and never more than the sum |
| `Std.SaturatingSub` | src/vec.rs:533 | the result is the exact difference, or 0 when the subtrahend is larger; it never underflows |
| `Std.Max` | src/vec.rs:422 | `usize::max`, used to clamp the target length to `M`: the result is one of the two arguments and at least both |
| `Std.CheckedAdd` | src/lib.rs:39-41 | `None` exactly when the sum exceeds `usize::MAX`, otherwise the sum |
| `Lib.StartIndex` | src/lib.rs:37-43 | the start index is the least index the start bound admits |
| `Lib.EndIndex` | src/lib.rs:45-51 | an open end maps to `len`; otherwise the end index is one past the last index the end bound admits |
| `Lib.SliceRange` | src/lib.rs:31-63 | when its assertions hold, the result satisfies `start <= end <= len`; it holds exactly the indices below `len` that both bounds admit; `Unbounded` start/end map to `0`/`len`, `Excluded(n)` start and `Included(n)` end map to `n + 1`, `Included(n)` start and `Excluded(n)` end map to `n` |
| `StdVec.RepeatWith` | src/vec.rs:133 | `repeat_with(gen).take(k)` has length `k` and its `j`-th element is the generator's `j`-th value |
| `StdVec.Truncated` | src/vec.rs:413 | truncating to `len` leaves a prefix of length `min(len, len(v))`, so it never grows the vector |
| `StdVec.ResizedWith` | src/vec.rs:463 | resizing gives length exactly `n`, keeps the old prefix, and fills new slots with successive generator values |
| `StdVec.Resized` | src/vec.rs:439 | resizing gives length exactly `n`, keeps the old prefix, and every new slot equals the fill value |
| `StdVec.Removed` | src/vec.rs:391 | `remove(i)` shortens by one, keeps the elements before `i`, and shifts the later ones down in order |
| `StdVec.SwapRemoved` | src/vec.rs:402 | `swap_remove(i)` shortens by one, puts the old last element at `i`, and leaves every other position unchanged |
| `StdVec.Spliced` | src/vec.rs:489 | `splice(start..end, rep)` has length `len - (end - start) + len(rep)`, keeps the elements before `start`, puts `rep` at `start`, and moves the elements from `end` on to follow it |
| `StdVec.RemovedPermutation` | src/vec.rs:391 | `remove(i)` loses exactly the element at `i`: the multiset of what is left plus that element is the old multiset |
| `StdVec.SwapRemovedPermutation` | src/vec.rs:402 | `swap_remove(i)` loses exactly the element at `i` (same multiset statement) |
| `StdVec.SplicedPermutation` | src/vec.rs:513 | what `splice` leaves plus what it returns equals the old contents plus the replacement, as multisets |
| `StdVec.ResizedWithShrinkIsTruncated` | src/vec.rs:458-467 | resizing to at most the current length is truncation |
| `Vec.SaturatedStart` | src/vec.rs:522-526 | an `Unbounded` start is 0; `Excluded(usize::MAX)` saturates to `usize::MAX`; wherever `slice_range` can normalise the start bound, both give the same index |
| `Vec.SaturatedEnd` | src/vec.rs:527-531 | an `Unbounded` end is `max`; `Included(usize::MAX)` saturates to `usize::MAX`; wherever `slice_range` can normalise the end bound, both give the same index |
| `Vec.RangeLen` | src/vec.rs:521-534 | the count is `end.saturating_sub(start)`: 0 exactly for an empty or inverted range, never above the end index, `max` for the full range, 0 for a start of `Excluded(usize::MAX)`, and equal to `slice_range`'s `end - start` whenever `slice_range` accepts the bounds |
| `Vec.TruncatePairing` | src/vec.rs:411-429 | when `truncate(len)` fails (`len < M`), `truncate_or_min(len)` gives length exactly `M`; when it succeeds, both give the same vector; `truncate_to_min` gives length `M` |
| `Vec.ResizePairing` | src/vec.rs:434-477 | when `resize_with(n)` fails (`n < M`), `resize_or_min_with(n)` gives length exactly `M`; when it succeeds, both give the same vector |
| `Vec.DrainGuardExact` | src/vec.rs:485-492 | for a valid range, the predicted `len - range_len` does not underflow and is the length `drain` leaves, so the guard rejects exactly the drains that would go below `M` |
| `Vec.SpliceGuardExact` | src/vec.rs:506-516 | for a valid range, the predicted `len + gain - loss` does not underflow and is the length `splice` leaves |
| `Vec.VecMin.Unchecked` | src/vec.rs:69-71 | `new_unchecked` wraps `v` as is, under the caller's promise `len(v) >= M` |
| `Vec.VecMin.New` | src/vec.rs:75-81 | `new(v)` is `Ok` exactly when `len(v) >= M`, wrapping `v` unchanged; otherwise it is `Err(v)` |
| `Vec.VecMin.Collect` | src/vec.rs:84-98 | `collect` behaves as `new` on the collected sequence |
| `Vec.VecMin.CollectWithCapacity` | src/vec.rs:84-108 | `collect_with_capacity` behaves as `new` on the collected sequence; the extra capacity plays no part in success |
| `Vec.VecMin.Default` | src/vec.rs:129-136 | `default` has length exactly `M`, and every element is the default value |
| `Vec.VecMin.IntoInner` | src/vec.rs:112-114 | `into_inner` always succeeds and returns the wrapped elements, at least `M` of them |
| `Vec.VecMin.MinLen` | src/vec.rs:20-22 | `min_len` is `M`, a lower bound of the length |
| `Vec.VecMin.MinSlice` | src/vec.rs:26-28 | `min_slice` is the length-`M` prefix of the vector |
| `Vec.VecMin.AsMutSlice` | src/vec.rs:264-266 | writes through the mutable slice replace elements but keep the length, so the invariant holds |
| `Vec.VecMin.Push` | src/vec.rs:313-315 | `push` appends one element and keeps the invariant |
| `Vec.VecMin.Insert` | src/vec.rs:319-321 | `insert(i, x)` puts `x` at `i` with the old elements around it in order; requires `i <= len` |
| `Vec.VecMin.Append` | src/vec.rs:325-327 | `append` moves all of `other` to the end and leaves `other` empty |
| `Vec.VecMin.ExtendFromSlice` | src/vec.rs:331-336 | `extend_from_slice` appends the slice's elements |
| `Vec.VecMin.ExtendFromWithin` | src/vec.rs:340-346 | `extend_from_within(range)` appends a copy of `s[start..end]` for the normalised range |
| `Vec.VecMin.Extend` | src/vec.rs:349-361 | `extend` appends every yielded element, raising the length by their number |
| `Vec.VecMin.Pop` | src/vec.rs:368-374 | `pop` is `Ok(Some(last))` and drops the last element exactly when `len > M`; otherwise it is `Err(BelowMinimum)` and nothing changes |
| `Vec.VecMin.PopToMin` | src/vec.rs:378-384 | `pop_to_min` removes and returns the last element exactly when `len > M`; otherwise it is `None`, nothing changes and the length is `M` |
| `Vec.VecMin.Remove` | src/vec.rs:389-395 | `remove(i)` succeeds exactly when `len > M`, returns `s[i]` and leaves `s[..i] + s[i+1..]`; on `Err` nothing changes |
| `Vec.VecMin.SwapRemove` | src/vec.rs:400-406 | `swap_remove(i)` succeeds exactly when `len > M`, returns `s[i]` and moves the last element into slot `i`; on `Err` nothing changes |
| `Vec.VecMin.Truncate` | src/vec.rs:411-417 | `truncate(len)` fails exactly when `len < M`, changing nothing; otherwise the vector is truncated to `min(len, len(s))` |
| `Vec.VecMin.TruncateOrMin` | src/vec.rs:421-423 | `truncate_or_min(len)` truncates to `max(len, M)` |
| `Vec.VecMin.TruncateToMin` | src/vec.rs:427-429 | `truncate_to_min` leaves exactly the first `M` elements |
| `Vec.VecMin.Resize` | src/vec.rs:434-443 | `resize(n, v)` fails exactly when `n < M`, changing nothing; otherwise the new length is `n`, the old prefix is kept and new slots are `v` |
| `Vec.VecMin.ResizeOrMin` | src/vec.rs:448-453 | `resize_or_min(n, v)` resizes to `max(n, M)` |
| `Vec.VecMin.ResizeWith` | src/vec.rs:458-467 | `resize_with(n, gen)` fails exactly when `n < M`, changing nothing; otherwise it resizes to `n` with generated values |
| `Vec.VecMin.ResizeOrMinWith` | src/vec.rs:472-477 | `resize_or_min_with(n, gen)` resizes to `max(n, M)` with generated values |
| `Vec.VecMin.Drain` | src/vec.rs:481-493 | `drain(range)` succeeds exactly when `len - range_len >= M`; then it returns `s[start..end]` and leaves `s[..start] + s[end..]`; on `Err` nothing changes |
| `Vec.VecMin.Splice` | src/vec.rs:497-517 | `splice(range, rep)` succeeds exactly when `len + gain - loss >= M`; then it returns `s[start..end]` and puts `rep` in its place; on `Err` nothing changes |
| `Scenarios.IntoInnerRoundTrip` | src/vec.rs:75-114 | `into_inner` followed by `new` with the same floor gives back an equal container |
| `Scenarios.NewRejectsShort` | src/vec.rs:75-81 | `new` on a vector shorter than `M` returns that vector unchanged |

## Left out

- Capacity management is left out: `reserve`, `reserve_exact`, `try_reserve`,
  `try_reserve_exact`, `shrink_to_fit` and `shrink_to` (src/vec.rs:225-257).
  Capacity and `TryReserveError` come from the allocator and cannot be seen in
  a sequence model. None of them changes the elements. Allocation failure is
  not modelled anywhere.
- Raw memory views are left out: `as_mut_ptr`, `spare_capacity_mut` and
  `MaybeUninit`. `into_boxed_slice` and `leak` return the same elements as
  `into_inner`, in another ownership form. The pointer cast inside
  `min_slice` is not modelled; only its meaning, the length-`M` prefix, is.
- The lazy iterator types are left out: `vec::Drain`, `vec::Splice` and the
  three `IntoIterator` impls. `drain` and `splice` return the removed elements
  eagerly, as if the iterator were always dropped. Leaking a `Drain` or
  `Splice` (`mem::forget`, which is safe code) is not modelled: std's `drain`
  sets the length to the range start when the iterator is created and puts
  the tail back only on drop, so a leaked iterator leaves the length at the
  range start, possibly below `M`. With `M = 2` and `[1, 2, 3]`, `drain(0..1)`
  passes the guard (final length 2), and forgetting the iterator leaves
  length 0. The unchecked cast in `min_slice` (src/vec.rs:27) then reads past
  the length, which is a use-after-free if a taken element was dropped. So
  the `Valid()` that `Vec.VecMin.Drain` and `Vec.VecMin.Splice` are proved to
  keep does not hold of the crate on that path.
- Trait boilerplate is left out: `Deref`, `AsRef`, `AsMut`, `Borrow` and
  `BorrowMut` give the same views as reading `s` and `AsMutSlice`. The
  `TryFrom` conversions from `Vec`, `Box<[T]>`, `&[T]`, `&mut [T]`, `Cow` and
  `[T; N]` all reduce to `new`. `From<VecMin>` reduces to `into_inner`. The
  derived `Clone`/`Debug`/`Eq`/`Ord`/`Hash` and the `Display`/`Error` impls of
  the error type are out too; the latter are only string formatting.
- Vec.VecMin.Extend: `Extend<&T>` for `Copy` elements appends the same values
  as `Extend<T>`, so one method models both.
- Vec.VecMin.Splice: `gain` is the true number of replacement elements. An
  `ExactSizeIterator` that misreports its length is not modelled.
- Vec.VecMin.CollectWithCapacity: the precondition that `M + extra` fits in
  a `usize` holds only for debug builds. In a release build the sum wraps and
  only changes the capacity hint. The iterator's `size_hint` is not modelled.
- Integer overflow in the `drain`/`splice` guards uses debug-build semantics:
  it is a panic, so it is a precondition. In a release build the two
  subtractions (`len - drain_len` in `drain`, `- loss` in `splice`) wrap to a
  huge value. That value passes the guard, and std's range check then panics,
  which is also fatal. The addition `len + gain` in `splice` differs: it wraps
  to a small value and can make the guard return `Err(BelowMinimum)` with
  nothing changed and no panic. For example, `len = M = 3` with
  `gain = usize::MAX` gives 2. The model does not capture this release-build
  path; `Vec.VecMin.Splice` requires `len + gain` to fit.
- Vec.VecMin.Push (and the other growing operations): Vec's real capacity
  limit is `isize::MAX` bytes. The model uses the weaker bound of `usize::MAX`
  elements.
