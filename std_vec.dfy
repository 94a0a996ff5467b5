/** What the standard `Vec<T>` operations that `VecMin` delegates to do to
    the sequence of elements: value-level definitions, each characterised
    element by element, with the permutation facts proved beside them. */
module StdVec {
  import opened Std

  /** `repeat_with(gen).take(k).collect()`: the first `k` values a generator
      yields, where `gen(j)` is the value its `j`-th call (from 0) returns. */
  function RepeatWith<T>(gen: nat -> T, k: nat): (r: seq<T>)
    ensures |r| == k
    ensures forall j :: 0 <= j < k ==> r[j] == gen(j)
  {
    if k == 0 then [] else RepeatWith(gen, k - 1) + [gen(k - 1)]
  }

  /** `Vec::truncate(len)`: keeps the first `len` elements; a `len` at or
      beyond the current length changes nothing. */
  function Truncated<T>(v: seq<T>, len: nat): (r: seq<T>)
    ensures |r| == Min(len, |v|)
    ensures r <= v
  {
    if len < |v| then v[..len] else v
  }

  /** `Vec::resize_with(n, gen)`: shrinks like `truncate`, or grows by
      appending the generator's first `n - |v|` values. */
  function ResizedWith<T>(v: seq<T>, n: nat, gen: nat -> T): (r: seq<T>)
    ensures |r| == n
    ensures forall j :: 0 <= j < Min(n, |v|) ==> r[j] == v[j]
    ensures forall j :: |v| <= j < n ==> r[j] == gen(j - |v|)
  {
    if n <= |v| then v[..n] else v + RepeatWith(gen, n - |v|)
  }

  /** `Vec::resize(n, value)`: `resize_with` whose every generated slot is a
      clone of `value`. */
  function Resized<T>(v: seq<T>, n: nat, value: T): (r: seq<T>)
    ensures |r| == n
    ensures forall j :: 0 <= j < Min(n, |v|) ==> r[j] == v[j]
    ensures forall j :: |v| <= j < n ==> r[j] == value
  {
    ResizedWith(v, n, (_: nat) => value)
  }

  /** `Vec::remove(i)`: the element at `i` leaves and the later ones shift
      down by one, keeping their order. */
  function Removed<T>(v: seq<T>, i: nat): (r: seq<T>)
    requires i < |v|
    ensures |r| == |v| - 1
    ensures forall j :: 0 <= j < i ==> r[j] == v[j]
    ensures forall j :: i < j < |v| ==> r[j - 1] == v[j]
  {
    v[..i] + v[i + 1..]
  }

  /** `Vec::swap_remove(i)`: the last element moves into slot `i`; all other
      positions are untouched. */
  function SwapRemoved<T>(v: seq<T>, i: nat): (r: seq<T>)
    requires i < |v|
    ensures |r| == |v| - 1
    ensures i < |r| ==> r[i] == v[|v| - 1]
    ensures forall j :: 0 <= j < |r| && j != i ==> r[j] == v[j]
  {
    if i == |v| - 1 then v[..i] else v[..i] + [v[|v| - 1]] + v[i + 1..|v| - 1]
  }

  /** `Vec::splice(start..end, rep)` (and, with `rep == []`, `Vec::drain`):
      the elements in `start..end` are replaced by `rep`. */
  function Spliced<T>(v: seq<T>, start: nat, end: nat, rep: seq<T>): (r: seq<T>)
    requires start <= end <= |v|
    ensures |r| == |v| - (end - start) + |rep|
    ensures forall j :: 0 <= j < start ==> r[j] == v[j]
    ensures forall j :: 0 <= j < |rep| ==> r[start + j] == rep[j]
    ensures forall j :: end <= j < |v| ==> r[j - end + start + |rep|] == v[j]
  {
    v[..start] + rep + v[end..]
  }

  /** `remove` loses exactly the element at `i`. */
  lemma {:induction false} RemovedPermutation<T>(v: seq<T>, i: nat)
    requires i < |v|
    ensures multiset(Removed(v, i)) + multiset{v[i]} == multiset(v)
  {
    assert v == v[..i] + [v[i]] + v[i + 1..];
  }

  /** `swap_remove` loses exactly the element at `i`, as `remove` does. */
  lemma {:induction false} SwapRemovedPermutation<T>(v: seq<T>, i: nat)
    requires i < |v|
    ensures multiset(SwapRemoved(v, i)) + multiset{v[i]} == multiset(v)
  {
    var last := |v| - 1;
    if i < last {
      var front, middle := v[..i], v[i + 1..last];
      assert v == front + [v[i]] + middle + [v[last]];
      assert SwapRemoved(v, i) == front + [v[last]] + middle;
    } else {
      assert v == v[..i] + [v[i]];
    }
  }

  /** `splice` keeps every element: what it returns plus what it leaves is
      what was there plus the replacement. */
  lemma {:induction false} SplicedPermutation<T>(v: seq<T>, start: nat, end: nat, rep: seq<T>)
    requires start <= end <= |v|
    ensures multiset(Spliced(v, start, end, rep)) + multiset(v[start..end]) == multiset(v) + multiset(rep)
  {
    assert v == v[..start] + v[start..end] + v[end..];
  }

  /** `resize` to a length at most the current one is `truncate`. */
  lemma ResizedWithShrinkIsTruncated<T>(v: seq<T>, n: nat, gen: nat -> T)
    requires n <= |v|
    ensures ResizedWith(v, n, gen) == Truncated(v, n)
  {
  }
}
