/** The pieces of Rust's `core` that the container relies on: the machine word
    `usize` with its saturating and checked addition, `Option`, `Result`, and
    the `Bound` values a `RangeBounds` argument yields. */
module Std {

  /** Largest `usize` on a 64-bit target. */
  const USIZE_MAX: nat := 0xFFFF_FFFF_FFFF_FFFF

  type usize = n: nat | n <= USIZE_MAX

  /** A Rust `Vec<T>` viewed as its elements; its length is a `usize`. */
  type Vec<T> = v: seq<T> | |v| <= USIZE_MAX witness []

  datatype Option<T> = None | Some(value: T)

  datatype Result<T, E> = Ok(value: T) | Err(error: E)

  function Min(a: nat, b: nat): (r: nat)
    ensures r <= a && r <= b && (r == a || r == b)
  {
    if a <= b then a else b
  }

  function Max(a: nat, b: nat): (r: nat)
    ensures r >= a && r >= b && (r == a || r == b)
  {
    if a <= b then b else a
  }

  /** `usize::saturating_add`: the sum, or `usize::MAX` when the sum does not fit. */
  function SaturatingAdd(a: usize, b: usize): (r: usize)
    ensures r <= a + b
    ensures r == a + b || r == USIZE_MAX
  {
    if a + b <= USIZE_MAX then a + b else USIZE_MAX
  }

  /** `usize::saturating_sub`: the difference, or 0 when it would be negative. */
  function SaturatingSub(a: usize, b: usize): (r: usize)
    ensures r + b >= a
    ensures r == a - b || (r == 0 && a < b)
  {
    if b <= a then a - b else 0
  }

  /** `usize::checked_add`: `None` exactly when the sum overflows. */
  function CheckedAdd(a: usize, b: usize): (r: Option<usize>)
    ensures r.None? <==> a + b > USIZE_MAX
    ensures r.Some? ==> r.value == a + b
  {
    if a + b <= USIZE_MAX then Some(a + b) else None
  }

  /** `core::ops::Bound<&usize>`, one end of a range argument. */
  datatype Bound = Included(n: usize) | Excluded(n: usize) | Unbounded

  /** The two bounds of a `RangeBounds<usize>` argument (`start_bound()`, `end_bound()`). */
  datatype RangeBounds = RangeBounds(start: Bound, end: Bound)

  /** `core::ops::Range<usize>`, the half-open interval `start..end`. */
  datatype Range = Range(start: usize, end: usize)

  /** Whether index `i` lies inside the interval the two bounds describe,
      read directly off the bounds (no normalisation). */
  predicate Admits(range: RangeBounds, i: nat) {
    (match range.start
     case Included(n) => n <= i
     case Excluded(n) => n < i
     case Unbounded => true)
    &&
    (match range.end
     case Included(n) => i <= n
     case Excluded(n) => i < n
     case Unbounded => true)
  }
}
