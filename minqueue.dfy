/** The priority queue of the informed searches (lab_03), which keep
    `(priority, node)` entries in a `heapq` list. Only what `heappop`
    promises is modelled: it removes an entry of least priority. The A*
    search of the vacuum world uses whole-number priorities, the informed
    search of the lettered graph floating-point ones. */
module MinQueue {
  /** The position `heappop` takes an entry from: one of least priority
      (the first such one; the heap's own choice among equal priorities is
      not modelled). */
  method MinIndex<T>(q: seq<(nat, T)>) returns (m: nat)
    requires q != []
    ensures m < |q|
    ensures forall i :: 0 <= i < |q| ==> q[m].0 <= q[i].0
    ensures forall i :: 0 <= i < m ==> q[m].0 < q[i].0
  {
    m := 0;
    for i := 1 to |q|
      invariant m < i
      invariant forall k :: 0 <= k < i ==> q[m].0 <= q[k].0
      invariant forall k :: 0 <= k < m ==> q[m].0 < q[k].0
    {
      if q[i].0 < q[m].0 {
        m := i;
      }
    }
  }

  /** The queue without the entry at `m`, the others in order. */
  function Without<T>(q: seq<T>, m: nat): (r: seq<T>)
    requires m < |q|
    ensures |r| == |q| - 1
    ensures forall i :: 0 <= i < m ==> r[i] == q[i]
    ensures forall i :: m <= i < |r| ==> r[i] == q[i + 1]
  {
    q[..m] + q[m + 1..]
  }

  /** The entries left after a pop are those queued before it, less the
      one taken. */
  lemma {:induction false} WithoutKeeps<T>(q: seq<T>, m: nat)
    requires m < |q|
    ensures forall c :: c in Without(q, m) ==> c in q
    ensures forall c :: c in q && c != q[m] ==> c in Without(q, m)
  {
    var q2 := Without(q, m);
    forall c | c in q && c != q[m]
      ensures c in q2
    {
      var i :| 0 <= i < |q| && q[i] == c;
      if i < m {
        assert q2[i] == c;
      } else {
        assert q2[i - 1] == c;
      }
    }
  }

  /** `heappop`: the entry of least priority and the rest. */
  method PopMin<T>(q: seq<(nat, T)>) returns (e: (nat, T), rest: seq<(nat, T)>)
    requires q != []
    ensures exists m :: 0 <= m < |q| && e == q[m] && rest == Without(q, m)
    ensures forall i :: 0 <= i < |q| ==> e.0 <= q[i].0
  {
    var m := MinIndex(q);
    e, rest := q[m], Without(q, m);
  }

  /** `MinIndex` for floating-point priorities. */
  method LeastIndex<T>(q: seq<(real, T)>) returns (m: nat)
    requires q != []
    ensures m < |q|
    ensures forall i :: 0 <= i < |q| ==> q[m].0 <= q[i].0
    ensures forall i :: 0 <= i < m ==> q[m].0 < q[i].0
  {
    m := 0;
    for i := 1 to |q|
      invariant m < i
      invariant forall k :: 0 <= k < i ==> q[m].0 <= q[k].0
      invariant forall k :: 0 <= k < m ==> q[m].0 < q[k].0
    {
      if q[i].0 < q[m].0 {
        m := i;
      }
    }
  }

  /** `heappop` for floating-point priorities. */
  method PopLeast<T>(q: seq<(real, T)>) returns (e: (real, T), rest: seq<(real, T)>)
    requires q != []
    ensures exists m :: 0 <= m < |q| && e == q[m] && rest == Without(q, m)
    ensures forall i :: 0 <= i < |q| ==> e.0 <= q[i].0
  {
    var m := LeastIndex(q);
    e, rest := q[m], Without(q, m);
  }
}
