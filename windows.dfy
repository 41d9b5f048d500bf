/**
 * The value-level meaning of a bounded FIFO window of readings: what
 * `deque(maxlen = capacity).append(v)` does to the sequence of elements it
 * holds, and the min/max/range statistics the stall detector reads.
 */
module Windows {

  /** The last (at most) n elements of s, in order. */
  function Last(s: seq<real>, n: nat): (r: seq<real>)
    ensures |r| == if |s| <= n then |s| else n
  {
    if |s| <= n then s else s[|s| - n..]
  }

  /**
   * Appending v to a window of the given capacity: while there is room the
   * value is added at the end; once the window is full the oldest element
   * is dropped first.
   */
  function Pushed(w: seq<real>, capacity: nat, v: real): (r: seq<real>)
    requires 0 < capacity && |w| <= capacity
    ensures 0 < |r| <= capacity && r[|r| - 1] == v
  {
    if |w| < capacity then w + [v] else w[1..] + [v]
  }

  /** An append keeps exactly the last `capacity` readings of old contents + [v]. */
  lemma PushedIsLast(w: seq<real>, capacity: nat, v: real)
    requires 0 < capacity && |w| <= capacity
    ensures Pushed(w, capacity, v) == Last(w + [v], capacity)
  {
    if |w| == capacity {
      assert (w + [v])[|w| + 1 - capacity..] == w[1..] + [v];
    }
  }

  /** Appending every value of vs, first to last. */
  function PushAll(w: seq<real>, capacity: nat, vs: seq<real>): (r: seq<real>)
    requires 0 < capacity && |w| <= capacity
    ensures |r| <= capacity
    decreases |vs|
  {
    if vs == [] then w else PushAll(Pushed(w, capacity, vs[0]), capacity, vs[1..])
  }

  /** Trimming to n before appending more changes nothing about the last n. */
  lemma LastOfLast(s: seq<real>, t: seq<real>, n: nat)
    ensures Last(Last(s, n) + t, n) == Last(s + t, n)
  {
    var l := Last(s, n);
    assert l + t == (s + t)[|s| - |l|..];
  }

  /**
   * A full window drops exactly its oldest element and puts v last: the
   * eviction branch of Pushed, spelled out. PushedIsLast is the statement
   * against the independent definition Last.
   */
  lemma PushFullEvictsOldest(w: seq<real>, capacity: nat, v: real)
    requires 0 < capacity && |w| == capacity
    ensures Pushed(w, capacity, v) == w[1..] + [v]
    ensures |Pushed(w, capacity, v)| == capacity
  {
  }

  /** A window that is not full grows by exactly v at its end (the other branch of Pushed). */
  lemma PushNotFullAppends(w: seq<real>, capacity: nat, v: real)
    requires 0 < capacity && |w| < capacity
    ensures Pushed(w, capacity, v) == w + [v]
  {
  }

  /** After any number of appends the window holds the last `capacity` values of its history. */
  lemma {:induction false} PushAllIsLast(w: seq<real>, capacity: nat, vs: seq<real>)
    requires 0 < capacity && |w| <= capacity
    ensures PushAll(w, capacity, vs) == Last(w + vs, capacity)
    decreases |vs|
  {
    if vs == [] {
      assert w + vs == w;
    } else {
      var w' := Pushed(w, capacity, vs[0]);
      calc {
        PushAll(w, capacity, vs);
        PushAll(w', capacity, vs[1..]);
        { PushAllIsLast(w', capacity, vs[1..]); }
        Last(w' + vs[1..], capacity);
        { PushedIsLast(w, capacity, vs[0]);
          LastOfLast(w + [vs[0]], vs[1..], capacity); }
        Last(w + [vs[0]] + vs[1..], capacity);
        { assert w + [vs[0]] + vs[1..] == w + vs; }
        Last(w + vs, capacity);
      }
    }
  }

  /** The window never exceeds its capacity, and a full window stays full. */
  lemma PushAllCapacity(w: seq<real>, capacity: nat, vs: seq<real>)
    requires 0 < capacity && |w| <= capacity
    ensures |PushAll(w, capacity, vs)| == if |w| + |vs| <= capacity then |w| + |vs| else capacity
    ensures |w| == capacity ==> |PushAll(w, capacity, vs)| == capacity
  {
    PushAllIsLast(w, capacity, vs);
  }

  /** Pushing v1..v(N+1) into an empty window of capacity N leaves v2..v(N+1). */
  lemma FifoEviction(capacity: nat, vs: seq<real>)
    requires 0 < capacity && |vs| == capacity + 1
    ensures PushAll([], capacity, vs) == vs[1..]
  {
    PushAllIsLast([], capacity, vs);
    assert [] + vs == vs;
  }

  /** The largest element of a non-empty sequence. */
  function Max(s: seq<real>): (m: real)
    requires |s| > 0
    ensures m in s
    ensures forall i :: 0 <= i < |s| ==> s[i] <= m
  {
    if |s| == 1 then s[0]
    else
      var m := Max(s[..|s| - 1]);
      if s[|s| - 1] > m then s[|s| - 1] else m
  }

  /** The smallest element of a non-empty sequence. */
  function Min(s: seq<real>): (m: real)
    requires |s| > 0
    ensures m in s
    ensures forall i :: 0 <= i < |s| ==> m <= s[i]
  {
    if |s| == 1 then s[0]
    else
      var m := Min(s[..|s| - 1]);
      if s[|s| - 1] < m then s[|s| - 1] else m
  }

  /** max(window) - min(window): the spread of the readings. */
  function Range(s: seq<real>): (r: real)
    requires |s| > 0
    ensures r >= 0.0
  {
    Max(s) - Min(s)
  }

  /** The range bounds every difference between two readings and is attained by one pair. */
  lemma RangeIsSpread(s: seq<real>)
    requires |s| > 0
    ensures forall i, j :: 0 <= i < |s| && 0 <= j < |s| ==> s[i] - s[j] <= Range(s)
    ensures exists i, j :: 0 <= i < |s| && 0 <= j < |s| && s[i] - s[j] == Range(s)
  {
    var hi, lo := Max(s), Min(s);
    var i :| 0 <= i < |s| && s[i] == hi;
    var j :| 0 <= j < |s| && s[j] == lo;
    assert s[i] - s[j] == Range(s);
  }
}
