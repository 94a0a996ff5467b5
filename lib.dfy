/** The crate root: the error the checked operations report, and
    `slice_range`, the normaliser that turns range bounds into `start..end`
    and aborts on a malformed range. The crate's own copy has no caller; it
    copies `core::slice::range`, which `Vec::drain`, `Vec::splice` and
    `Vec::extend_from_within` call, and `SliceRange` stands in for that. */
module Lib {
  import opened Std

  /** "Operation would reduce length below the minimum": a payload-free error
      value, distinguishable from success. */
  datatype MinLenError = BelowMinimum

  /** The start bound can be turned into an index: `Excluded(n).checked_add(1)`
      does not overflow. */
  predicate StartFits(b: Bound) {
    !(b.Excluded? && b.n == USIZE_MAX)
  }

  /** The end bound can be turned into an index: `Included(n).checked_add(1)`
      does not overflow. */
  predicate EndFits(b: Bound) {
    !(b.Included? && b.n == USIZE_MAX)
  }

  /** First index of the range (the first `match` of `slice_range`). */
  function StartIndex(b: Bound): (r: usize)
    requires StartFits(b)
    ensures forall i: nat :: r <= i <==> Admits(RangeBounds(b, Unbounded), i)
  {
    match b
    case Included(n) => n
    case Excluded(n) => CheckedAdd(n, 1).value
    case Unbounded => 0
  }

  /** One past the last index of the range (the second `match`); an open end is `len`. */
  function EndIndex(b: Bound, len: usize): (r: usize)
    requires EndFits(b)
    ensures b.Unbounded? ==> r == len
    ensures !b.Unbounded? ==> forall i: nat :: i < r <==> Admits(RangeBounds(Unbounded, b), i)
  {
    match b
    case Included(n) => CheckedAdd(n, 1).value
    case Excluded(n) => n
    case Unbounded => len
  }

  /** Every condition under which `slice_range` returns instead of panicking:
      neither `checked_add(1)` fails, `start <= end` and `end <= len`. */
  predicate SliceRangeOk(range: RangeBounds, len: usize) {
    StartFits(range.start) && EndFits(range.end) &&
    StartIndex(range.start) <= EndIndex(range.end, len) <= len
  }

  /** `slice_range(range, ..len)`; its fatal assertions are preconditions. */
  function SliceRange(range: RangeBounds, len: usize): (r: Range)
    requires SliceRangeOk(range, len)
    ensures r.start <= r.end <= len
    // the interval holds exactly the in-bounds indices the bounds admit
    ensures forall i: nat :: r.start <= i < r.end <==> Admits(range, i) && i < len
    // how each bound maps to an index
    ensures range.start.Unbounded? ==> r.start == 0
    ensures range.start.Included? ==> r.start == range.start.n
    ensures range.start.Excluded? ==> r.start == range.start.n + 1
    ensures range.end.Unbounded? ==> r.end == len
    ensures range.end.Included? ==> r.end == range.end.n + 1
    ensures range.end.Excluded? ==> r.end == range.end.n
  {
    Range(StartIndex(range.start), EndIndex(range.end, len))
  }
}
