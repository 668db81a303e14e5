/** The circular buffer of ringbuffer.c, and the FIFO queue it implements. */
module RingBuffers {
  import opened Bytes

  const BUF_SIZE: nat := 1028

  /** The three fields of the C structure, as a value. */
  datatype Ring = Ring(put: nat, get: nat, buffer: seq<Byte>) {

    predicate Valid() {
      put < BUF_SIZE && get < BUF_SIZE && |buffer| == BUF_SIZE
    }

    /** The queued bytes, oldest first. */
    function Contents(): (q: seq<Byte>)
      requires Valid()
      ensures |q| == if get <= put then put - get else put + BUF_SIZE - get
    {
      if get <= put then buffer[get..put] else buffer[get..] + buffer[..put]
    }

    function Put(x: Byte): (r: Ring)
      requires Valid()
      ensures r.Valid()
    {
      Ring(if put + 1 == BUF_SIZE then 0 else put + 1, get, buffer[put := x])
    }

    function Get(): (r: Ring)
      requires Valid()
      ensures r.Valid()
    {
      Ring(put, if get + 1 == BUF_SIZE then 0 else get + 1, buffer)
    }
  }

  /** What `put` does to the queue. The code never looks for room: the put that would
      store a 1028th byte makes put equal get, which reads as empty. */
  function Enqueue(q: seq<Byte>, x: Byte): (q': seq<Byte>) {
    if |q| == BUF_SIZE - 1 then [] else q + [x]
  }

  function EnqueueAll(q: seq<Byte>, xs: seq<Byte>): (q': seq<Byte>) {
    if xs == [] then q else Enqueue(EnqueueAll(q, xs[..|xs| - 1]), xs[|xs| - 1])
  }

  /** The ring overflows, and so loses bytes, exactly when it has no room for all of them. */
  lemma {:induction false} EnqueueAllFits(q: seq<Byte>, xs: seq<Byte>)
    requires |q| < BUF_SIZE
    ensures |EnqueueAll(q, xs)| < BUF_SIZE
    ensures if |q| + |xs| < BUF_SIZE then EnqueueAll(q, xs) == q + xs else |EnqueueAll(q, xs)| < |q| + |xs|
  {
    if xs == [] {
      assert q + xs == q;
    } else {
      EnqueueAllFits(q, xs[..|xs| - 1]);
    }
  }

  lemma DropMore(s: seq<Byte>, x: Byte, n: nat)
    requires n <= |s|
    ensures (s + [x])[n..] == s[n..] + [x]
  {
  }

  /** What it loses: everything before the last multiple of 1028 bytes put, since each put that would store a
      1028th byte empties it. */
  lemma {:induction false} EnqueueAllExactly(q: seq<Byte>, xs: seq<Byte>, k: nat)
    requires |q| < 1028 && 1028 * k <= |q| + |xs| < 1028 * k + 1028
    ensures EnqueueAll(q, xs) == (q + xs)[1028 * k..]
  {
    if xs == [] {
      assert q + xs == q;
    } else {
      var front, x := xs[..|xs| - 1], xs[|xs| - 1];
      assert q + xs == (q + front) + [x];
      if |q| + |xs| == 1028 * k {
        EnqueueAllExactly(q, front, k - 1);
      } else {
        EnqueueAllExactly(q, front, k);
        DropMore(q + front, x, 1028 * k);
      }
    }
  }

  /** A get from an empty ring, which the code never does, makes it look full of what it held before. */
  lemma GetFromEmpty(r: Ring)
    requires r.Valid() && r.Contents() == []
    ensures var q := r.Get().Contents();
            |q| == 1027 && forall i | 0 <= i < 1027 :: q[i] == r.buffer[(r.get + 1 + i) % 1028]
  {
  }

  lemma PutEnqueues(r: Ring, x: Byte)
    requires r.Valid()
    ensures r.Put(x).Contents() == Enqueue(r.Contents(), x)
  {
  }

  lemma GetDequeues(r: Ring)
    requires r.Valid() && r.Contents() != []
    ensures r.buffer[r.get] == r.Contents()[0]
    ensures r.Get().Contents() == r.Contents()[1..]
    ensures r.Get().put == r.put && r.Get().buffer == r.buffer
  {
  }

  /** An arbitrary sequence of calls, and what its gets return. */
  datatype Op = PutOp(x: Byte) | GetOp

  function RunRing(r: Ring, ops: seq<Op>): (res: (Ring, seq<Byte>))
    requires r.Valid()
    ensures res.0.Valid()
    decreases |ops|
  {
    if ops == [] then (r, [])
    else match ops[0]
      case PutOp(x) => RunRing(r.Put(x), ops[1..])
      case GetOp =>
        var rest := RunRing(r.Get(), ops[1..]);
        (rest.0, [r.buffer[r.get]] + rest.1)
  }

  /** The same calls on an unbounded FIFO queue: None once a get meets an empty queue
      or a put would hold more than BUF_SIZE - 1 bytes. */
  datatype QueueRun = Stuck | Ran(queue: seq<Byte>, got: seq<Byte>)

  function RunQueue(q: seq<Byte>, ops: seq<Op>): QueueRun
    decreases |ops|
  {
    if ops == [] then Ran(q, [])
    else match ops[0]
      case PutOp(x) => if |q| == BUF_SIZE - 1 then Stuck else RunQueue(q + [x], ops[1..])
      case GetOp =>
        if q == [] then Stuck
        else match RunQueue(q[1..], ops[1..])
          case Stuck => Stuck
          case Ran(q', got) => Ran(q', [q[0]] + got)
  }

  /** FIFO refinement over whole runs, across any number of wraps. */
  lemma {:induction false} RingRefinesQueue(r: Ring, ops: seq<Op>)
    requires r.Valid()
    requires RunQueue(r.Contents(), ops).Ran?
    ensures RunQueue(r.Contents(), ops) == Ran(RunRing(r, ops).0.Contents(), RunRing(r, ops).1)
    decreases |ops|
  {
    if ops != [] {
      match ops[0]
      case PutOp(x) =>
        PutEnqueues(r, x);
        RingRefinesQueue(r.Put(x), ops[1..]);
      case GetOp =>
        GetDequeues(r);
        RingRefinesQueue(r.Get(), ops[1..]);
    }
  }

  lemma {:induction false} EnqueueFirst(q: seq<Byte>, xs: seq<Byte>)
    requires xs != []
    ensures EnqueueAll(q, xs) == EnqueueAll(Enqueue(q, xs[0]), xs[1..])
  {
    if |xs| > 1 {
      EnqueueFirst(q, xs[..|xs| - 1]);
      assert xs[..|xs| - 1][1..] == xs[1..][..|xs| - 2];
    } else {
      assert EnqueueAll(q, xs[..0]) == q && xs[1..] == [];
    }
  }

  function Puts(xs: seq<Byte>): (ops: seq<Op>)
    ensures |ops| == |xs|
  {
    seq(|xs|, i requires 0 <= i < |xs| => PutOp(xs[i]))
  }

  /** What any number of puts leave in the ring, overflows included: of all bytes, old and new, those behind
      the last multiple of 1028. */
  lemma {:induction false} PutsExactly(r: Ring, xs: seq<Byte>)
    requires r.Valid()
    ensures var all := r.Contents() + xs;
            RunRing(r, Puts(xs)).0.Contents() == all[1028 * (|all| / 1028)..]
  {
    PutsEnqueue(r, xs);
    EnqueueAllExactly(r.Contents(), xs, |r.Contents() + xs| / 1028);
  }

  lemma {:induction false} PutsEnqueue(r: Ring, xs: seq<Byte>)
    requires r.Valid()
    ensures RunRing(r, Puts(xs)).0.Contents() == EnqueueAll(r.Contents(), xs)
    decreases |xs|
  {
    if xs != [] {
      assert Puts(xs)[0] == PutOp(xs[0]) && Puts(xs)[1..] == Puts(xs[1..]);
      PutEnqueues(r, xs[0]);
      PutsEnqueue(r.Put(xs[0]), xs[1..]);
      EnqueueFirst(r.Contents(), xs);
    }
  }

  class RingBuffer {
    var put: nat
    var get: nat
    const buffer: array<Byte>

    ghost predicate Valid()
      reads this, buffer
    {
      buffer.Length == BUF_SIZE && State().Valid()
    }

    ghost function State(): Ring
      reads this, buffer
    {
      Ring(put, get, buffer[..])
    }

    ghost function Contents(): seq<Byte>
      requires Valid()
      reads this, buffer
    {
      State().Contents()
    }

    constructor ()
      ensures Valid() && fresh(buffer) && Contents() == [] && get == 0
    {
      put, get := 0, 0;
      buffer := new Byte[BUF_SIZE](_ => 0);
    }

    method Put(element: Byte)
      requires Valid()
      modifies this`put, buffer
      ensures Valid() && State() == old(State()).Put(element)
      ensures Contents() == Enqueue(old(Contents()), element)
    {
      PutEnqueues(State(), element);
      buffer[put] := element;
      put := put + 1;
      if put == BUF_SIZE {
        put := 0;
      }
    }

    method Get() returns (element: Byte)
      requires Valid()
      modifies this`get
      ensures Valid() && State() == old(State()).Get()
      ensures element == old(buffer[get])
      ensures old(Contents()) != [] ==> element == old(Contents())[0] && Contents() == old(Contents())[1..]
    {
      if State().Contents() != [] {
        GetDequeues(State());
      }
      element := buffer[get];
      get := get + 1;
      if get == BUF_SIZE {
        get := 0;
      }
    }

    method Peek() returns (element: Byte)
      requires Valid()
      ensures element == buffer[get]
      ensures Contents() != [] ==> element == Contents()[0]
    {
      element := buffer[get];
    }

    method HasElement() returns (r: bool)
      requires Valid()
      ensures r <==> Contents() != []
    {
      r := put - get != 0;
    }
  }
}
