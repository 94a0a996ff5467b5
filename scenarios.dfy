/** Client code: what a caller can conclude about `VecMin` from its
    contracts alone. */
module Scenarios {
  import opened Std
  import opened Lib
  import opened Vec

  /** Unwrapping with `into_inner` and re-checking with `new` gives back an
      equal container, whatever its contents. */
  method IntoInnerRoundTrip<T>(c: VecMin<T>) returns (d: VecMin<T>)
    requires c.Valid()
    ensures d.Valid() && d.M == c.M && d.s == c.s
  {
    var r := VecMin.New(c.M, c.IntoInner());
    assert r.Ok?;
    d := r.value;
  }

  /** A rejected construction hands back exactly the input. */
  method NewRejectsShort<T>(m: usize, v: Std.Vec<T>) returns (back: Std.Vec<T>)
    requires |v| < m
    ensures back == v
  {
    var r := VecMin.New(m, v);
    assert r.Err?;
    back := r.error;
  }

  /** Scenarios with `M = 2`. */
  method FloorTwo() {
    var r := VecMin<int>.New(2, [1, 2, 3]);
    var c := r.value;
    var p := c.Pop();
    assert p == Ok(Some(3)) && c.s == [1, 2];
    p := c.Pop();
    assert p == Err(BelowMinimum) && c.s == [1, 2];
    var q := c.PopToMin();
    assert q == None && c.s == [1, 2];

    r := VecMin<int>.New(2, [1, 2, 3, 4]);
    var d := r.value;
    var drained := d.Drain(RangeBounds(Included(1), Excluded(3)));
    assert drained.Ok? && drained.value == [2, 3] && d.s == [1, 4];
    drained := d.Drain(RangeBounds(Included(0), Excluded(2)));
    assert drained == Err(BelowMinimum) && d.s == [1, 4];
  }

  /** `M = 1` rejects `[]`; `M = 3` defaults to three default values. */
  method OtherFloors() {
    var r := VecMin<int>.New(1, []);
    assert r.Err? && r.error == [];
    var c := VecMin<int>.Default(3, 0);
    assert c.s == [0, 0, 0];
  }
}
