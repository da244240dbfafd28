/** sync_fifo.vhd: a ring buffer in block RAM behaves as a bounded queue with a registered output. */
module SyncFifo {
  import opened Bits
  import Ring

  // the word a push adds
  function Entered(q: seq<byte>, depth: nat, push: bool, w: byte): seq<byte> {
    if push && |q| < depth then [w] else []
  }

  // a bounded queue in one clock
  function Clocked(q: seq<byte>, depth: nat, push: bool, w: byte, pop: bool): seq<byte> {
    (q + Entered(q, depth, push, w))[if pop && q != [] then 1 else 0..]
  }

  class Fifo {
    const depth: nat
    const ram: array<byte>
    var head: nat
    var tail: nat
    var n: nat
    var rdata: byte
    // the words in it, oldest first
    ghost var queue: seq<byte>

    constructor (depth: nat)
      requires depth > 0
      ensures Valid() && this.depth == depth && queue == [] && fresh(ram)
    {
      this.depth := depth;
      ram := new byte[depth];
      head, tail, n, rdata, queue := 0, 0, 0, *, [];
    }

    ghost predicate Linked()
      reads this, ram
    {
      ram.Length == depth && Ring.Holds(ram[..], head, queue) && tail == Ring.Wrap(head + |queue|, depth)
    }

    ghost predicate Valid()
      reads this, ram
    {
      Linked() && n == |queue|
    }

    method PushWord(w: byte)
      requires Linked() && |queue| < depth
      modifies this`tail, this`queue, ram
      ensures Linked() && queue == old(queue) + [w]
    {
      hide Ring.Holds;
      Ring.Push(ram[..], head, queue, w);
      Ring.WrapIsMod(tail + 1, depth);
      ram[tail] := w;
      tail, queue := (tail + 1) % depth, queue + [w];
    }

    method PopWord()
      requires Linked() && |queue| > 0
      modifies this`head, this`queue
      ensures Linked() && queue == old(queue)[1..]
    {
      hide Ring.Holds;
      Ring.Pop(ram[..], head, queue);
      Ring.WrapIsMod(head + 1, depth);
      head, queue := (head + 1) % depth, queue[1..];
    }

    /** One clock. A push to a full FIFO and a pop from an empty one are ignored, whatever happens
        at the other end; a popped word is at the output the clock after. */
    method Clock(push: bool, wdata: byte, pop: bool, reset: bool)
      requires Valid()
      modifies this, ram
      ensures Valid()
      ensures old(queue) != [] ==> rdata == old(queue)[0]
      ensures queue == if reset then [] else Clocked(old(queue), depth, push, wdata, pop)
    {
      hide Ring.Holds;
      ghost var before := queue;
      var doPush, doPop := push && n != depth, pop && n != 0;
      Bounds(ram[..], head, queue);
      // the output register reads the RAM before the push is in it
      rdata := ram[head];
      if queue != [] {
        Ring.Pop(ram[..], head, queue);
      }
      if doPush {
        PushWord(wdata);
      }
      if doPop {
        PopWord();
      }
      if doPush && !doPop {
        n := n + 1;
      } else if doPop && !doPush {
        n := n - 1;
      }
      if reset {
        head, tail, n, queue := 0, 0, 0, [];
        Emptied(ram[..]);
      }
    }
  }

  lemma Bounds(ring: seq<byte>, head: nat, q: seq<byte>)
    requires Ring.Holds(ring, head, q)
    ensures head < |ring| && |q| <= |ring|
  {
  }

  lemma Emptied(ring: seq<byte>)
    requires |ring| > 0
    ensures Ring.Holds(ring, 0, [])
  {
  }
}
