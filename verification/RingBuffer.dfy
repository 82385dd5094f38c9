/** The ring buffer of ringbuf.c as a bounded queue, one call at a time. */
module RingBuffer {
  import opened Words

  // The octets between tail and head, oldest first, for a tail already wrapped.
  function Queue(pt: seq<byte>, head: nat, tail: nat): (q: seq<byte>)
    requires head < |pt| && tail < |pt|
    ensures |q| == if head >= tail then head - tail else |pt| - tail + head
  {
    if head >= tail then pt[tail..head] else pt[tail..] + pt[..head]
  }

  function Next(i: nat, size: nat): nat { if i + 1 >= size then 0 else i + 1 }

  // Storing at head and advancing it appends, while the queue is not full.
  lemma QueuePut(pt: seq<byte>, head: nat, tail: nat, c: byte)
    requires head < |pt| && tail < |pt| && |Queue(pt, head, tail)| < |pt| - 1
    ensures Next(head, |pt|) < |pt|
    ensures Queue(pt[head := c], Next(head, |pt|), tail) == Queue(pt, head, tail) + [c]
  {
    var p, h := pt[head := c], Next(head, |pt|);
    if head >= tail {
      assert p[tail..head + 1] == pt[tail..head] + [c];
      if h == 0 { assert p[tail..] + p[..0] == p[tail..head + 1]; }
    } else {
      assert p[tail..] == pt[tail..] && p[..head + 1] == pt[..head] + [c];
    }
  }

  // Advancing tail takes the oldest octet.
  lemma QueueGet(pt: seq<byte>, head: nat, tail: nat)
    requires head < |pt| && tail < |pt| && head != tail
    ensures Next(tail, |pt|) < |pt|
    ensures Queue(pt, head, tail) == [pt[tail]] + Queue(pt, head, Next(tail, |pt|))
  {
    if head < tail && tail + 1 == |pt| {
      assert pt[tail..] == [pt[tail]];
      assert pt[0..head] == pt[..head];
    }
  }

  // RINGBUF
  class Ring {
    const pt: array<byte>
    const size: nat
    var head: nat
    var tail: nat

    ghost predicate Valid()
      reads this
    {
      size == pt.Length && size < 0x1_0000_0000 && 2 <= size && head < size && tail < size
    }

    ghost function Contents(): seq<byte>
      requires Valid()
      reads this, pt
    {
      Queue(pt[..], head, tail)
    }

    // RINGBUF_Init on a buffer it accepts; see Init for the one it refuses.
    constructor (buf: array<byte>)
      requires 2 <= buf.Length < 0x1_0000_0000
      ensures Valid() && pt == buf && Contents() == []
    {
      pt, size, head, tail := buf, buf.Length, 0, 0;
    }

    // RINGBUF_Put: refused exactly when size - 1 octets are queued.
    method Put(c: byte) returns (r: int)
      requires Valid()
      modifies this, pt
      ensures Valid()
      ensures r == if |old(Contents())| < size - 1 then 0 else -1
      ensures Contents() == old(Contents()) + if r == 0 then [c] else []
      ensures tail == old(tail)
    {
      var temp := head;
      temp := temp + 1;
      if temp >= size {
        temp := 0;
      }
      if temp == tail {
        return -1;
      }
      QueuePut(pt[..], head, tail, c);
      pt[head] := c;
      head := temp;
      return 0;
    }

    // RINGBUF_Get: the oldest octet, or -1 exactly when none is queued.
    method Get() returns (r: int, c: byte)
      requires Valid()
      modifies this
      ensures Valid()
      ensures r == if old(Contents()) == [] then -1 else 0
      ensures r == 0 ==> old(Contents()) == [c] + Contents()
      ensures r == -1 ==> Contents() == []
      ensures head == old(head)
    {
      if tail == head {
        return -1, 0;
      }
      QueueGet(pt[..], head, tail);
      c := pt[tail];
      tail := tail + 1;
      if tail >= size {
        tail := 0;
      }
      return 0, c;
    }

    // RINGBUF_GetFill
    method GetFill() returns (n: int)
      requires Valid()
      ensures n == |Contents()| && 0 <= n < size
    {
      if head >= tail {
        return head - tail;
      } else {
        return size - tail + head;
      }
    }
  }

  // RINGBUF_Init: null pointers and buffers of fewer than two octets are refused.
  method Init(buf: array?<byte>) returns (result: int, r: Ring?)
    requires buf != null ==> buf.Length < 0x1_0000_0000
    ensures result == if buf != null && buf.Length >= 2 then 0 else -1
    ensures result == 0 ==> r != null && fresh(r) && r.Valid() && r.pt == buf && r.Contents() == []
  {
    if buf == null || buf.Length < 2 {
      return -1, null;
    }
    r := new Ring(buf);
    return 0, r;
  }
}
