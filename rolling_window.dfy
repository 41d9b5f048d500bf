/**
 * The consumer's `deque(maxlen = window_size)`: a fixed-capacity ring buffer
 * over an array with a head index. Contents is its abstract value, oldest
 * reading first.
 */
module RollingWindow {
  import Windows

  class RollingWindow {
    ghost var Contents: seq<real>

    const capacity: nat
    const data: array<real>
    var start: nat
    var len: nat

    /** Array position of the k-th oldest reading. */
    function Slot(k: nat): (i: nat)
      requires start < data.Length && k < data.Length
      reads this
      ensures i < data.Length
    {
      if start + k < data.Length then start + k else start + k - data.Length
    }

    ghost predicate Valid()
      reads this, data
    {
      data.Length == capacity && 0 < capacity &&
      start < capacity && len <= capacity && |Contents| == len &&
      forall k :: 0 <= k < len ==> Contents[k] == data[Slot(k)]
    }

    /** An empty window holding at most maxlen readings. */
    constructor (maxlen: nat)
      requires 0 < maxlen
      ensures Valid() && fresh(data)
      ensures capacity == maxlen && Contents == []
    {
      capacity := maxlen;
      data := new real[maxlen];
      start, len := 0, 0;
      Contents := [];
    }

    /** len(deque) */
    function Length(): (n: nat)
      requires Valid()
      reads this, data
      ensures n == |Contents| && n <= capacity
    {
      len
    }

    /** deque.append(v): evicts the oldest reading when the window is full. */
    method Append(v: real)
      requires Valid()
      modifies this, data
      ensures Valid()
      ensures Contents == Windows.Pushed(old(Contents), capacity, v)
    {
      if len < capacity {
        data[Slot(len)] := v;
        len := len + 1;
        Contents := Contents + [v];
      } else {
        data[start] := v;
        start := if start + 1 == capacity then 0 else start + 1;
        Contents := Contents[1..] + [v];
      }
    }

    /** max(deque) - min(deque), in one pass from the oldest reading to the newest. */
    method Range() returns (r: real)
      requires Valid() && |Contents| > 0
      ensures r == Windows.Range(Contents)
    {
      ghost var c := Contents;
      var hi := data[Slot(0)];
      var lo := hi;
      ghost var hiAt, loAt := 0, 0;
      var k := 1;
      while k < len
        invariant 1 <= k <= len
        invariant 0 <= hiAt < k && c[hiAt] == hi
        invariant 0 <= loAt < k && c[loAt] == lo
        invariant forall i :: 0 <= i < k ==> lo <= c[i] <= hi
      {
        var x := data[Slot(k)];
        assert x == c[k];
        if x > hi { hi, hiAt := x, k; }
        if x < lo { lo, loAt := x, k; }
        k := k + 1;
      }
      assert hi == Windows.Max(c) by {
        var m := Windows.Max(c);
        assert c[hiAt] <= m;
      }
      assert lo == Windows.Min(c) by {
        var m := Windows.Min(c);
        assert m <= c[loAt];
      }
      r := hi - lo;
    }
  }
}
