/** The byte ring of lib64/include/ring.h: one slot is always free, so front == rear means empty. */
module ByteRing {

  import opened Arithmetic

  class Ring {
    const ringSize: nat
    const buffer: array<bv8>
    var front: nat
    var rear: nat

    ghost predicate Valid()
      reads this
    {
      0 < ringSize <= buffer.Length && front < ringSize && rear < ringSize
    }

    predicate Empty()
      reads this
    {
      front == rear
    }

    predicate Full()
      requires 0 < ringSize
      reads this
    {
      (rear + 1) % ringSize == front
    }

    /** The queued bytes, oldest first. */
    ghost function Contents(): (s: seq<bv8>)
      requires Valid()
      reads this, buffer
      ensures |s| < ringSize
    {
      if front <= rear then buffer[front..rear] else buffer[front..ringSize] + buffer[..rear]
    }

    constructor (ringSize: nat)
      requires 0 < ringSize
      ensures Valid() && Contents() == [] && this.ringSize == ringSize && fresh(buffer)
    {
      this.ringSize := ringSize;
      buffer := new bv8[ringSize];
      front, rear := 0, 0;
    }

    /** ring_length */
    function Length(): (n: nat)
      requires Valid()
      reads this, buffer
      ensures n == |Contents()|
    {
      Wrap(rear + ringSize - front, ringSize);
      (rear + ringSize - front) % ringSize
    }

    /** ring_empty and ring_full agree with the queued bytes; one slot always stays free. */
    lemma TestsAgree()
      requires Valid()
      ensures Empty() <==> Contents() == []
      ensures Full() <==> |Contents()| == ringSize - 1
    {
      Wrap(rear + 1, ringSize);
    }

    /** ring_peek: the oldest byte, where there is one. */
    function Peek(): (b: bv8)
      requires Valid()
      reads this, buffer
      ensures Contents() != [] ==> b == Contents()[0]
    {
      buffer[front]
    }

    /** write_ring: a prefix of the data is appended, as long as the free space lasts. */
    method Write(data: seq<bv8>) returns (n: nat)
      requires Valid()
      modifies this`rear, buffer
      ensures Valid() && n <= |data|
      ensures Contents() == old(Contents()) + data[..n]
      ensures n == |data| || |Contents()| == ringSize - 1
    {
      n := 0;
      while n < |data|
        invariant Valid() && n <= |data|
        invariant Contents() == old(Contents()) + data[..n]
      {
        TestsAgree();
        if Full() {
          return;
        }
        PutNext(data, n, old(Contents()));
        n := n + 1;
      }
    }

    /** One round of write_ring's loop: `before` and the first `n` bytes of the data are queued. */
    method PutNext(data: seq<bv8>, n: nat, ghost before: seq<bv8>)
      requires Valid() && !Full() && n < |data| && Contents() == before + data[..n]
      modifies this`rear, buffer
      ensures Valid() && Contents() == before + data[..n + 1]
    {
      PutOne(data[n]);
      assert (before + data[..n]) + [data[n]] == before + data[..n + 1];
    }

    method PutOne(b: bv8)
      requires Valid() && !Full()
      modifies this`rear, buffer
      ensures Valid() && Contents() == old(Contents()) + [b]
    {
      Wrap(rear + 1, ringSize);
      buffer[rear] := b;
      rear := (rear + 1) % ringSize;
    }

    /** read_ring: up to `size` bytes leave the queue in order. */
    method Read(size: nat) returns (data: seq<bv8>)
      requires Valid()
      modifies this`front
      ensures Valid() && |data| <= size
      ensures old(Contents()) == data + Contents()
      ensures |data| == size || Contents() == []
    {
      data := [];
      while |data| < size
        invariant Valid() && |data| <= size
        invariant old(Contents()) == data + Contents()
      {
        TestsAgree();
        if Empty() {
          return;
        }
        var b := TakeNext(data, old(Contents()));
        data := data + [b];
      }
    }

    /** One round of read_ring's loop: `all` is what has left the queue and what is still in it. */
    method TakeNext(ghost data: seq<bv8>, ghost all: seq<bv8>) returns (b: bv8)
      requires Valid() && !Empty() && all == data + Contents()
      modifies this`front
      ensures Valid() && all == (data + [b]) + Contents()
    {
      b := TakeOne();
      ghost var rest := Contents();
      assert data + ([b] + rest) == (data + [b]) + rest;
    }

    method TakeOne() returns (b: bv8)
      requires Valid() && !Empty()
      modifies this`front
      ensures Valid() && old(Contents()) == [b] + Contents()
    {
      Wrap(front + 1, ringSize);
      b := buffer[front];
      front := (front + 1) % ringSize;
    }
  }
}
