/** The code of protocol.c, ringbuf.c and packet_queue.c end to end: what is sent by its encoders is what its
 * parsers deliver. */
module Exchange {
  import opened Words
  import opened Protocol
  import opened RingBuffer
  import opened PacketQueue

  // PROTO_Add into a buffer, and PROTO_Parse of what it has left there, in whatever state the parser is. The payload is
  // delivered, and nothing else, exactly if it fits both buffers, has two octets, and does not make the counter wrap.
  method SendAndParse(p: Parser, packet: array<byte>, len: uint16, buf: array<byte>, bufSize: uint16)
    returns (n: uint16)
    requires p.Valid() && p.hasCallback && buf != packet && buf != p.buf && packet != p.buf
    requires bufSize <= buf.Length && len <= packet.Length
    modifies buf, p, p.buf
    ensures p.Valid() && packet[..] == old(packet[..])
    ensures n > 0 <==> bufSize >= |Stuff(SentBody(packet[..len]))| + 2
    ensures n == 0 ==> p.received == old(p.received)
    ensures n > 0 ==> (p.received == old(p.received) + [packet[..len]] <==> 2 <= len <= 65533 && len + 2 < p.bufSize)
  {
    hide Run, Frame, Stuff, SentBody;
    n := Add(buf, packet, bufSize, len);
    ghost var s, got, payload := p.Value(), p.received, packet[..len];
    NothingSent(s, buf[..0], p.bufSize);
    RoundTripSent(s, payload, p.bufSize);
    var result := p.Parse(buf, n);
    if n > 0 { SameEnd(got, [payload], Run(Checked, s, Frame(SentBody(payload)), p.bufSize).delivered); }
  }

  lemma NothingSent(s: State, none: seq<byte>, bufSize: nat)
    requires none == []
    ensures Run(Checked, s, none, bufSize).delivered == []
  {}

  lemma SameEnd(got: seq<seq<byte>>, x: seq<seq<byte>>, y: seq<seq<byte>>)
    ensures got + x == got + y <==> x == y
  {
    assert (got + x)[|got|..] == x && (got + y)[|got|..] == y;
  }

  // Packets that can go through a queue and come back from a parser with a buffer of bufSize octets.
  ghost predicate Queueable(packets: seq<seq<byte>>, bufSize: nat) {
    forall p | p in packets :: WellFormed(p) && |p| < bufSize && |Frame(p)| < 0x8000
  }

  lemma QueueableFirst(packets: seq<seq<byte>>, bufSize: nat)
    requires Queueable(packets, bufSize) && |packets| > 0
    ensures WellFormed(packets[0]) && |packets[0]| < bufSize && |Frame(packets[0])| < 0x8000
    ensures Queueable(packets[1..], bufSize)
  {}

  // PQUEUE_Put of one packet after another into an empty ring.
  method PutAll(r: Ring, packets: seq<seq<byte>>)
    requires r.Valid() && r.Contents() == [] && |Frames(packets)| <= r.size - 1
    requires forall p | p in packets :: WellFormed(p)
    modifies r, r.pt
    ensures r.Valid() && r.Contents() == Frames(packets)
  {
    var i := 0;
    assert packets[..0] == [];
    while i < |packets|
      invariant 0 <= i <= |packets| && r.Valid() && r.Contents() == Frames(packets[..i])
    {
      PutOne(r, packets[i], Frames(packets[..i]), packets, i);
      i := i + 1;
    }
    assert packets[..i] == packets;
  }

  method PutOne(r: Ring, packet: seq<byte>, ghost was: seq<byte>, ghost packets: seq<seq<byte>>, ghost i: nat)
    requires i < |packets| && packet == packets[i] && r.Valid() && r.Contents() == was == Frames(packets[..i])
    requires WellFormed(packet) && |Frames(packets)| <= r.size - 1
    modifies r, r.pt
    ensures r.Valid() && r.Contents() == Frames(packets[..i + 1])
  {
    hide Frames, Frame, Stuff;
    FramesUpTo(packets, i);
    var buf := new byte[|packet|](k requires 0 <= k < |packet| => packet[k]);
    assert buf[..] == packet && packet[..|packet|] == packet;
    var n := Put(r, buf);
  }

  // What is in the ring once i packets and one more have been put, and that it fits.
  lemma FramesUpTo(packets: seq<seq<byte>>, i: nat)
    requires i < |packets|
    ensures Frames(packets[..i + 1]) == Frames(packets[..i]) + Frame(packets[i])
    ensures |Frames(packets[..i])| + |Frame(packets[i])| <= |Frames(packets)|
  {
    assert packets[..i + 1] == packets[..i] + [packets[i]] && packets == packets[..i + 1] + packets[i + 1..];
    FramesAppend(packets[..i], packets[i]);
    FramesJoin(packets[..i + 1], packets[i + 1..]);
  }

  lemma {:induction false} FramesJoin(a: seq<seq<byte>>, b: seq<seq<byte>>)
    ensures Frames(a + b) == Frames(a) + Frames(b)
    decreases |a|
  {
    if |a| == 0 {
      assert a + b == b;
    } else {
      assert (a + b)[1..] == a[1..] + b;
      FramesJoin(a[1..], b);
    }
  }

  // PQUEUE_Get of all frames in the ring, every one fed to PROTO_ParseByteUnFcs: the packets are delivered, in order.
  method GetAll(r: Ring, p: Parser, ghost packets: seq<seq<byte>>)
    requires r.Valid() && r.Contents() == Frames(packets)
    requires p.Valid() && p.hasCallback && p.buf != r.pt
    requires Queueable(packets, p.bufSize)
    modifies r, p, p.buf
    ensures r.Valid() && r.Contents() == []
    ensures p.Valid() && p.received == old(p.received) + packets
  {
    hide Frame, Queueable, Frames;
    var buf := new byte[0x8000];
    ghost var left, got: seq<seq<byte>> := packets, [];
    while true
      invariant r.Valid() && r.Contents() == Frames(left)
      invariant p.Valid() && p.received == old(p.received) + got
      invariant Queueable(left, p.bufSize) && got + left == packets
      decreases |left|
    {
      var n := GetFrame(r, buf, left, p.bufSize);
      if n == -1 {
        return;
      }
      QueueableFirst(left, p.bufSize);
      ParseFrame(p, buf, n, left[0]);
      got, left := MoveOne(got, left);
    }
  }

  lemma MoveOne<T>(got: seq<T>, left: seq<T>) returns (got': seq<T>, left': seq<T>)
    requires |left| > 0
    ensures got' == got + [left[0]] && left' == left[1..] && got' + left' == got + left
  {
    got', left' := got + [left[0]], left[1..];
  }

  // PQUEUE_Get of one frame.
  method GetFrame(r: Ring, buf: array<byte>, ghost packets: seq<seq<byte>>, ghost bufSize: nat) returns (n: int)
    requires r.Valid() && r.Contents() == Frames(packets)
    requires buf != r.pt && buf.Length == 0x8000
    requires Queueable(packets, bufSize)
    modifies r, buf
    ensures r.Valid()
    ensures if |packets| == 0 then n == -1 && r.Contents() == []
            else r.Contents() == Frames(packets[1..]) && 0 <= n <= buf.Length && buf[..n] == Frame(packets[0])
  {
    hide Frame, Queueable, Frames, Take;
    FirstTaken(packets);
    if |packets| > 0 { QueueableFirst(packets, bufSize); }
    n := Get(r, buf, 0x7FFF);
  }

  // What the next PQUEUE_Get takes.
  lemma FirstTaken(packets: seq<seq<byte>>)
    ensures if |packets| == 0 then Frames(packets) == [] && Take(Frames(packets)).Nothing?
            else Take(Frames(packets)) == Packet(Frame(packets[0]), Frames(packets[1..])) && 0 < |Frame(packets[0])|
  {
    if |packets| > 0 { TakeAtStart(packets[0], Frames(packets[1..])); }
  }

  // The octets of a frame, as PQUEUE_Get has left them in the buffer, one after another.
  method ParseFrame(p: Parser, buf: array<byte>, n: int, ghost packet: seq<byte>)
    requires p.Valid() && p.hasCallback && buf != p.buf
    requires 0 <= n <= buf.Length && buf[..n] == Frame(packet)
    requires WellFormed(packet) && |packet| < p.bufSize
    modifies p, p.buf
    ensures p.Valid() && p.received == old(p.received) + [packet]
  {
    hide Frame, Octet;
    ghost var frame := Frame(packet);
    var i := 0;
    assert frame[..0] == [];
    while i < n
      invariant 0 <= i <= n && p.Valid() && buf[..n] == frame
      invariant var t := Run(Unchecked, old(p.Value()), frame[..i], p.bufSize);
                p.Value() == t.state && p.received == old(p.received) + t.delivered
    {
      RunMore(old(p.Value()), frame, i, p.bufSize);
      assert buf[i] == frame[i];
      var result := p.ParseByteUnFcs(buf[i]);
      i := i + 1;
    }
    assert frame[..i] == frame;
    OneFrame(old(p.Value()), packet, p.bufSize);
  }

  lemma RunMore(s: State, stream: seq<byte>, i: nat, bufSize: nat)
    requires i < |stream|
    ensures var t := Run(Unchecked, s, stream[..i], bufSize);
            var o := Octet(Unchecked, t.state, stream[i], bufSize);
            Run(Unchecked, s, stream[..i + 1], bufSize) == Trace(o.next, t.delivered + o.delivered)
  {
    hide Octet;
    assert stream[..i + 1] == stream[..i] + [stream[i]];
    RunAppend(Unchecked, s, stream[..i], [stream[i]], bufSize);
    RunOne(Unchecked, Run(Unchecked, s, stream[..i], bufSize).state, stream[i], bufSize);
  }

  // Packets put into an empty ring, taken out again, and parsed, in whatever state the parser is.
  method PutAndGet(r: Ring, p: Parser, packets: seq<seq<byte>>)
    requires r.Valid() && r.Contents() == [] && p.Valid() && p.hasCallback && p.buf != r.pt
    requires Queueable(packets, p.bufSize) && |Frames(packets)| <= r.size - 1
    modifies r, r.pt, p, p.buf
    ensures r.Valid() && r.Contents() == [] && p.Valid() && p.received == old(p.received) + packets
  {
    PutAll(r, packets);
    GetAll(r, p, packets);
  }
}
