/** Ring buffers: a fixed array and a head, holding a queue. Both the bridge's half-select ring and
    the UART's FIFOs are kept this way. */
module Ring {
  // an index that may have run past the end once
  function Wrap(i: nat, depth: nat): nat
    requires i < 2 * depth
    ensures Wrap(i, depth) < depth
  {
    if i < depth then i else i - depth
  }

  /** The counters that wrap: adding one modulo the depth. */
  lemma WrapIsMod(i: nat, depth: nat)
    requires i < 2 * depth
    ensures Wrap(i, depth) == i % depth
  {
    var q := i / depth;
    assert i == q * depth + i % depth;
    assert q < 2;
  }

  /** ring holds q, oldest first, starting at head. */
  ghost predicate Holds<T>(ring: seq<T>, head: nat, q: seq<T>) {
    head < |ring| && |q| <= |ring| && forall k :: 0 <= k < |q| ==> ring[Wrap(head + k, |ring|)] == q[k]
  }

  lemma Push<T>(ring: seq<T>, head: nat, q: seq<T>, x: T)
    requires Holds(ring, head, q) && |q| < |ring|
    ensures Holds(ring[Wrap(head + |q|, |ring|) := x], head, q + [x])
  {
    var tail := Wrap(head + |q|, |ring|);
    forall k | 0 <= k < |q| + 1 ensures ring[tail := x][Wrap(head + k, |ring|)] == (q + [x])[k] {
      if k < |q| {
        assert Wrap(head + k, |ring|) != tail;
      }
    }
  }

  lemma Pop<T>(ring: seq<T>, head: nat, q: seq<T>)
    requires Holds(ring, head, q) && |q| > 0
    ensures ring[head] == q[0]
    ensures Holds(ring, Wrap(head + 1, |ring|), q[1..])
  {
    assert Wrap(head + 0, |ring|) == head;
    var next := Wrap(head + 1, |ring|);
    forall k | 0 <= k < |q| - 1 ensures ring[Wrap(next + k, |ring|)] == q[1..][k] {
      assert Wrap(next + k, |ring|) == Wrap(head + (k + 1), |ring|);
    }
  }
}
