/** Framed packets through the ring buffer: packet_queue.c. */
module PacketQueue {
  import opened Words
  import opened RingBuffer
  import opened Protocol

  // A value stored in sixteen signed bits.
  function Int16(n: int): (i: int)
    ensures -0x8000 <= i < 0x8000 && (n - i) % 0x1_0000 == 0
  {
    if n % 0x1_0000 < 0x8000 then n % 0x1_0000 else n % 0x1_0000 - 0x1_0000
  }

  lemma Int16Next(n: int)
    ensures Int16(Int16(n) + 1) == Int16(n + 1)
  {}

  // A packet starts with its own length, low octet first.
  function PacketLength(packet: seq<byte>): uint16
    requires |packet| >= 2
  {
    Word(packet[0], packet[1])
  }

  // A packet whose length field is right.
  predicate WellFormed(packet: seq<byte>) {
    |packet| >= 2 && PacketLength(packet) == |packet|
  }

  // Exactly the packets that are some data behind two octets with the length of both.
  lemma WellFormedIff(packet: seq<byte>)
    ensures WellFormed(packet) <==>
              && 2 <= |packet| < 0x1_0000
              && packet == [|packet| % 0x100, |packet| / 0x100] + packet[2..]
  {
    if 2 <= |packet| < 0x1_0000 {
      var low: nat, high: nat := packet[0], packet[1];
      assert Word(packet[0], packet[1]) == low + 0x100 * high;
      assert packet == [packet[0], packet[1]] + packet[2..];
    }
  }

  // Packets that come back from a parser with a buffer of bufSize octets.
  ghost predicate Parseable(packets: seq<seq<byte>>, bufSize: nat) {
    forall p | p in packets :: WellFormed(p) && |p| < bufSize
  }

  lemma ParseableRest(packets: seq<seq<byte>>, bufSize: nat)
    requires Parseable(packets, bufSize) && |packets| > 0
    ensures Parseable(packets[1..], bufSize) && WellFormed(packets[0]) && |packets[0]| < bufSize
    ensures packets == [packets[0]] + packets[1..]
  {}

  // What a ring of n free octets takes of s: octets that do not fit are dropped one by one.
  function Fitting(s: seq<byte>, n: int): seq<byte>
    requires n >= 0
  {
    if |s| <= n then s else s[..n]
  }

  // One octet more, as RINGBUF_Put takes it.
  lemma FittingPut(s: seq<byte>, c: byte, n: int)
    requires n >= 0
    ensures Fitting(s + [c], n) == Fitting(s, n) + (if |Fitting(s, n)| < n then [c] else [])
  {}

  // RINGBUF_Put with its result ignored, as PQUEUE_Put calls it, in terms of what was sent so far.
  method PutNext(r: Ring, c: byte, ghost was: seq<byte>, ghost sent: seq<byte>)
    requires r.Valid() && |was| <= r.size - 1
    requires r.Contents() == was + Fitting(sent, r.size - 1 - |was|)
    modifies r, r.pt
    ensures r.Valid() && r.Contents() == was + Fitting(sent + [c], r.size - 1 - |was|)
  {
    FittingPut(sent, c, r.size - 1 - |was|);
    var dropped := r.Put(c);
  }

  // The switch of PQUEUE_Put: an octet that needs it is escaped first. The number of octets sent is returned.
  method PutOctet(r: Ring, octet: byte, ghost was: seq<byte>, ghost sent: seq<byte>) returns (count: nat)
    requires r.Valid() && |was| <= r.size - 1
    requires r.Contents() == was + Fitting(sent, r.size - 1 - |was|)
    modifies r, r.pt
    ensures r.Valid() && r.Contents() == was + Fitting(sent + StuffOctet(octet), r.size - 1 - |was|)
    ensures count == |StuffOctet(octet)|
  {
    var c := octet;
    ghost var s := sent;
    count := 0;
    if c == ESCAPE || c == START || c == STOP {
      PutNext(r, ESCAPE, was, s);
      s := s + [ESCAPE];
      c := Flip(c);
      count := count + 1;
    }
    PutNext(r, c, was, s);
    count := count + 1;
    assert s + [c] == sent + StuffOctet(octet);
  }

  // PQUEUE_Put
  method Put(r: Ring, packet: array<byte>) returns (n: int)
    requires r.Valid() && packet != r.pt
    requires packet.Length >= 2 && PacketLength(packet[..]) <= packet.Length
    modifies r, r.pt
    ensures r.Valid()
    ensures var frame := Frame(packet[..PacketLength(packet[..])]);
            && n == Int16(|frame|)
            && r.Contents() == old(r.Contents()) + Fitting(frame, r.size - 1 - |old(r.Contents())|)
  {
    var len := Word(packet[0], packet[1]);
    ghost var body := packet[..len];
    ghost var was := r.Contents();
    PutNext(r, START, was, []);
    var i := PutBody(r, packet, len, was);
    PutNext(r, STOP, was, [START] + Stuff(body));
    Int16Wrapped(i, 2 + |Stuff(body)|);
    n := Int16(i);
  }

  // A sixteen-bit counter that has counted n.
  ghost predicate Wrapped(i: uint16, n: nat) { i == n % 0x1_0000 }

  lemma Int16Wrapped(i: uint16, n: nat)
    requires Wrapped(i, n)
    ensures Int16(i) == Int16(n)
  {}

  method AddCount(i: uint16, count: nat, ghost n: nat) returns (i': uint16)
    requires Wrapped(i, n)
    ensures Wrapped(i', n + count)
  {
    i' := (i + count) % 0x1_0000;
  }

  lemma SentFirst(body: seq<byte>)
    ensures [START] + Stuff(body[..0]) == [START]
  {}

  method PutBody(r: Ring, packet: array<byte>, len: uint16, ghost was: seq<byte>) returns (i: uint16)
    requires r.Valid() && packet != r.pt && len <= packet.Length && |was| <= r.size - 1
    requires r.Contents() == was + Fitting([START], r.size - 1 - |was|)
    modifies r, r.pt
    ensures r.Valid()
    ensures r.Contents() == was + Fitting([START] + Stuff(packet[..len]), r.size - 1 - |was|)
    ensures Wrapped(i, 2 + |Stuff(packet[..len])|)
  {
    hide Fitting, Stuff, Queue;
    ghost var body := packet[..len];
    assert [START] + Stuff(body[..0]) == [START] by { SentFirst(body); }
    i := 2;
    var k := 0;
    ghost var sent := [START];
    while k < len
      invariant 0 <= k <= len && r.Valid() && packet[..len] == body
      invariant sent == [START] + Stuff(body[..k])
      invariant r.Contents() == was + Fitting(sent, r.size - 1 - |was|)
      invariant Wrapped(i, 1 + |sent|)
    {
      assert packet[k] == body[k];
      FrameSize(body, k, |sent|);
      var count := PutOctet(r, packet[k], was, sent);
      i := AddCount(i, count, 1 + |sent|);
      sent := sent + StuffOctet(packet[k]);
      k := k + 1;
    }
    assert body[..k] == body;
  }

  // What PQUEUE_Get takes from the queue: everything up to the first start octet is skipped, and the packet
  // runs to the next stop octet. Without one of them the queue is emptied.
  datatype Taken = Nothing | Packet(frame: seq<byte>, rest: seq<byte>)

  function SplitAtStop(q: seq<byte>): Taken
    decreases |q|
  {
    if |q| == 0 then Nothing
    else if q[0] == STOP then Packet([STOP], q[1..])
    else
      var t := SplitAtStop(q[1..]);
      if t.Nothing? then Nothing else Packet([q[0]] + t.frame, t.rest)
  }

  function Take(q: seq<byte>): Taken
    decreases |q|
  {
    if |q| == 0 then Nothing
    else if q[0] != START then Take(q[1..])
    else
      var t := SplitAtStop(q[1..]);
      if t.Nothing? then Nothing else Packet([START] + t.frame, t.rest)
  }

  // The octets of a frame that a buffer receives. The start octet is written, without being counted, only for a
  // positive bufSize; a negative one counts down through all sixteen bits.

  function Limit(bufSize: int): nat {
    if bufSize > 0 then bufSize + 1 else bufSize % 0x1_0000
  }

  function Copied(frame: seq<byte>, bufSize: int): seq<byte>
    requires |frame| > 0
  {
    Fitting(if bufSize > 0 then frame else frame[1..], Limit(bufSize))
  }

  // With a positive size one octet more than that, and so a frame that is longer by one still comes whole.
  lemma CopiedIs(frame: seq<byte>, bufSize: int)
    requires |frame| > 0 && -0x8000 <= bufSize < 0x8000
    ensures bufSize > 0 ==> Copied(frame, bufSize) == if |frame| <= bufSize + 1 then frame else frame[..bufSize + 1]
    ensures bufSize == 0 ==> Copied(frame, bufSize) == []
    ensures bufSize < 0 ==>
              Copied(frame, bufSize)
              == if |frame| <= 0x1_0001 + bufSize then frame[1..] else frame[1..0x1_0001 + bufSize]
  {}

  // Room for all that can be written: to the limit, or the octets of the queue.
  predicate Roomy(length: nat, queued: nat, bufSize: int) { Limit(bufSize) <= length || queued <= length }

  // The second loop of PQUEUE_Get: the octets after the start octet, up to the stop octet or until the queue is empty.
  method GetRest(r: Ring, buf: array?<byte>, bufSize: int) returns (found: bool, n: int, ghost frame: seq<byte>)
    requires r.Valid() && buf != r.pt && -0x8000 <= bufSize < 0x8000
    requires buf != null ==>
               Roomy(buf.Length, 1 + |r.Contents()|, bufSize) && (bufSize > 0 ==> buf.Length > 0 && buf[0] == START)
    modifies r, buf
    ensures r.Valid()
    ensures !found ==> SplitAtStop(old(r.Contents())).Nothing? && r.Contents() == []
    ensures found ==> SplitAtStop(old(r.Contents())) == Packet(frame, r.Contents()) && Counts(n, |frame| + 1)
    ensures found && buf != null ==> Received(buf, [START] + frame, bufSize)
  {
    hide SplitAtStop, Copied, Limit;
    ghost var q := r.Contents();
    Limits(bufSize);
    var at: nat := if bufSize > 0 then 1 else 0;
    var room: nat := Limit(bufSize) - at;
    n, frame := 1, [];
    if buf != null { FirstFilled(buf, at, room, bufSize); }
    while true
      invariant r.Valid() && Counts(n, |frame| + 1)
      invariant Continues(q, frame, r.Contents()) && |frame| + |r.Contents()| == |q|
      invariant buf != null ==> Filled(buf, at, room, [START] + frame, bufSize)
      decreases |r.Contents()|
    {
      var e, c;
      e, c, n, at, room := GetOne(r, buf, n, at, room, bufSize, q, frame);
      if e != 0 { return false, n, frame; }
      frame := frame + [c];
      if c == STOP { return true, n, frame; }
    }
  }

  lemma Limits(bufSize: int)
    ensures Limit(bufSize) >= if bufSize > 0 then 1 else 0
  {}

  // What a buffer received of a frame.
  ghost predicate Received(buf: array<byte>, frame: seq<byte>, bufSize: int)
    requires |frame| > 0
    reads buf
  {
    |Copied(frame, bufSize)| <= buf.Length && buf[..|Copied(frame, bufSize)|] == Copied(frame, bufSize)
  }

  // One turn of the second loop of PQUEUE_Get.
  method GetOne(r: Ring, buf: array?<byte>, i: int, at: nat, room: nat, ghost bufSize: int, ghost q: seq<byte>,
                ghost got: seq<byte>)
    returns (e: int, c: byte, i': int, at': nat, room': nat)
    requires r.Valid() && buf != r.pt && Continues(q, got, r.Contents()) && Counts(i, |got| + 1)
    requires buf != null ==>
               Filled(buf, at, room, [START] + got, bufSize) && Roomy(buf.Length, 1 + |got| + |r.Contents()|, bufSize)
    modifies r, buf
    ensures r.Valid()
    ensures if e != 0 then r.Contents() == [] && SplitAtStop(q).Nothing?
            else Taking(q, got, c, old(r.Contents()), r.Contents())
    ensures e == 0 && buf != null ==> Filled(buf, at', room', [START] + (got + [c]), bufSize)
    ensures e == 0 ==> Counts(i', |got| + 2)
  {
    e, c := TakeNext(r, q, got);
    i', at', room' := i, at, room;
    if e != 0 { return; }
    if buf != null {
      assert ([START] + got) + [c] == [START] + (got + [c]);
      at', room' := CopyNext(buf, at, room, c, [START] + got, bufSize);
    }
    i' := Increment(i, |got| + 1);
  }

  // c was taken after got, and rest is left of what was there.
  ghost predicate Taking(q: seq<byte>, got: seq<byte>, c: byte, was: seq<byte>, rest: seq<byte>) {
    && |rest| + 1 == |was|
    && if c == STOP then SplitAtStop(q) == Packet(got + [c], rest) else Continues(q, got + [c], rest)
  }

  // A signed sixteen-bit counter that has counted n.
  ghost predicate Counts(i: int, n: nat) { i == Int16(n) }

  method Increment(i: int, ghost n: nat) returns (i': int)
    requires Counts(i, n)
    ensures Counts(i', n + 1)
  {
    Int16Next(n);
    i' := Int16(i + 1);
  }

  // RINGBUF_Get, in terms of what was taken so far.
  method TakeNext(r: Ring, ghost q: seq<byte>, ghost got: seq<byte>) returns (e: int, c: byte)
    requires r.Valid() && Continues(q, got, r.Contents())
    modifies r
    ensures r.Valid()
    ensures if e != 0 then r.Contents() == [] && SplitAtStop(q).Nothing?
            else Taking(q, got, c, old(r.Contents()), r.Contents())
  {
    ghost var q1 := r.Contents();
    e, c := r.Get();
    if e == 0 { ContinuesNext(q, got, q1, c, r.Contents()); }
  }

  // buf holds what it is to receive of the octets got so far, and room counts what PQUEUE_Get may still write.
  ghost predicate Filled(buf: array<byte>, at: nat, room: nat, got: seq<byte>, bufSize: int)
    requires |got| > 0
    reads buf
  {
    Received(buf, got, bufSize) && at == |Copied(got, bufSize)| && room == Limit(bufSize) - at
  }

  lemma FirstFilled(buf: array<byte>, at: nat, room: nat, bufSize: int)
    requires at == (if bufSize > 0 then 1 else 0) && room == Limit(bufSize) - at
    requires bufSize > 0 ==> buf.Length > 0 && buf[0] == START
    ensures Filled(buf, at, room, [START] + [], bufSize)
  {
    assert bufSize > 0 ==> buf[..1] == [START];
  }

  method CopyNext(buf: array<byte>, at: nat, room: nat, c: byte, ghost got: seq<byte>, ghost bufSize: int)
    returns (at': nat, room': nat)
    requires |got| > 0 && Filled(buf, at, room, got, bufSize) && Roomy(buf.Length, |got| + 1, bufSize)
    modifies buf
    ensures Filled(buf, at', room', got + [c], bufSize)
  {
    at', room' := at, room;
    CopiedNext(got, c, bufSize);
    if room != 0 {
      buf[at] := c;
      assert buf[..at + 1] == buf[..at] + [c];
      at', room' := at + 1, room - 1;
    }
  }

  lemma CopiedNext(got: seq<byte>, c: byte, bufSize: int)
    requires |got| > 0
    ensures Copied(got + [c], bufSize)
            == Copied(got, bufSize) + if |Copied(got, bufSize)| < Limit(bufSize) then [c] else []
    ensures |Copied(got, bufSize)| <= |got| && |Copied(got, bufSize)| <= Limit(bufSize)
  {
    FittingPut(if bufSize > 0 then got else got[1..], c, Limit(bufSize));
    assert (got + [c])[1..] == got[1..] + [c];
  }

  // After taking got from q, rest is left and no stop octet was seen.
  ghost predicate Continues(q: seq<byte>, got: seq<byte>, rest: seq<byte>) {
    match SplitAtStop(rest)
    case Nothing => SplitAtStop(q).Nothing?
    case Packet(f, left) => SplitAtStop(q) == Packet(got + f, left)
  }

  lemma ContinuesNext(q: seq<byte>, got: seq<byte>, rest: seq<byte>, c: byte, rest': seq<byte>)
    requires rest == [c] + rest' && Continues(q, got, rest)
    ensures if c == STOP then SplitAtStop(q) == Packet(got + [c], rest') else Continues(q, got + [c], rest')
  {
    assert rest[1..] == rest';
    if c != STOP && SplitAtStop(rest').Packet? {
      var f := SplitAtStop(rest').frame;
      assert got + ([c] + f) == (got + [c]) + f;
    }
  }

  // PQUEUE_Get. The buffer, if there is one, must have room for what can be written.
  method Get(r: Ring, buf: array?<byte>, bufSize: int) returns (n: int)
    requires r.Valid() && buf != r.pt && -0x8000 <= bufSize < 0x8000
    requires buf != null ==> Roomy(buf.Length, |r.Contents()|, bufSize)
    modifies r, buf
    ensures r.Valid()
    ensures match Take(old(r.Contents()))
            case Nothing => n == -1 && r.Contents() == []
            case Packet(frame, rest) =>
              && n == Int16(|frame|) && r.Contents() == rest && |frame| > 0
              && (buf != null ==> Received(buf, frame, bufSize))
  {
    ghost var was := r.Contents();
    var started := SkipToStart(r);
    if !started { return -1; }
    if bufSize > 0 && buf != null {
      buf[0] := START;
    }
    var found;
    ghost var frame;
    found, n, frame := GetRest(r, buf, bufSize);
    if !found { return -1; }
    assert Take(was) == Packet([START] + frame, r.Contents());
  }

  // The first loop of PQUEUE_Get: octets are dropped up to and including the first start octet.
  method SkipToStart(r: Ring) returns (started: bool)
    requires r.Valid()
    modifies r
    ensures r.Valid()
    ensures !started ==> Take(old(r.Contents())).Nothing? && r.Contents() == []
    ensures started ==>
              Take(old(r.Contents())) == Take([START] + r.Contents()) && 1 + |r.Contents()| <= |old(r.Contents())|
  {
    ghost var was := r.Contents();
    var e, c := r.Get();
    if e != 0 { return false; }
    while c != START
      invariant r.Valid() && Take(was) == Take([c] + r.Contents()) && 1 + |r.Contents()| <= |was|
      decreases |r.Contents()|
    {
      ghost var q := r.Contents();
      assert ([c] + q)[1..] == q;
      e, c := r.Get();
      if e != 0 { return false; }
    }
    return true;
  }

  lemma {:induction false} StuffedIsClean(body: seq<byte>)
    ensures START !in Stuff(body) && STOP !in Stuff(body)
    decreases |body|
  {
    if |body| == 0 {
    } else {
      StuffedIsClean(body[1..]);
    }
  }

  lemma {:induction false} SplitClean(s: seq<byte>, rest: seq<byte>)
    requires STOP !in s
    ensures SplitAtStop(s + [STOP] + rest) == Packet(s + [STOP], rest)
    decreases |s|
  {
    var q := s + [STOP] + rest;
    if |s| == 0 {
      assert q[1..] == rest && s + [STOP] == [STOP];
    } else {
      assert q[1..] == s[1..] + [STOP] + rest;
      SplitClean(s[1..], rest);
      assert [s[0]] + (s[1..] + [STOP]) == s + [STOP];
    }
  }

  lemma TakeAtStart(body: seq<byte>, rest: seq<byte>)
    ensures Take(Frame(body) + rest) == Packet(Frame(body), rest)
  {
    var q := Frame(body) + rest;
    StuffedIsClean(body);
    SplitClean(Stuff(body), rest);
    assert q[1..] == Stuff(body) + [STOP] + rest;
    assert [START] + (Stuff(body) + [STOP]) == Frame(body);
  }

  // A frame behind octets that contain no start octet is taken whole, and what follows it is left.
  lemma {:induction false} TakeFrame(junk: seq<byte>, body: seq<byte>, rest: seq<byte>)
    requires START !in junk
    ensures Take(junk + (Frame(body) + rest)) == Packet(Frame(body), rest)
    decreases |junk|
  {
    var frame := Frame(body) + rest;
    TakeAtStart(body, rest);
    if |junk| == 0 {
      assert junk + frame == frame;
    } else {
      assert (junk + frame)[1..] == junk[1..] + frame;
      TakeFrame(junk[1..], body, rest);
    }
  }

  // The contents of a ring into which packets were put while their frames fitted.
  function Frames(packets: seq<seq<byte>>): seq<byte>
    decreases |packets|
  {
    if |packets| == 0 then [] else Frame(packets[0]) + Frames(packets[1..])
  }

  lemma TakeGetsShorter(q: seq<byte>)
    requires Take(q).Packet?
    ensures |Take(q).rest| < |q|
    decreases |q|
  {
    if q[0] != START { TakeGetsShorter(q[1..]); } else { SplitGetsShorter(q[1..]); }
  }

  lemma SplitGetsShorter(q: seq<byte>)
    requires SplitAtStop(q).Packet?
    ensures |SplitAtStop(q).rest| < |q|
    decreases |q|
  {
    if q[0] != STOP { SplitGetsShorter(q[1..]); }
  }

  // What successive calls of PQUEUE_Get return.
  function Drain(q: seq<byte>): seq<seq<byte>>
    decreases |q|
  {
    match Take(q)
    case Nothing => []
    case Packet(frame, rest) => TakeGetsShorter(q); [frame] + Drain(rest)
  }

  // What each of them gives when it is fed to PROTO_ParseByteUnFcs, one after the other.
  function Parsed(s: State, frames: seq<seq<byte>>, bufSize: nat): seq<seq<byte>>
    decreases |frames|
  {
    if |frames| == 0 then []
    else
      var t := Run(Unchecked, s, frames[0], bufSize);
      t.delivered + Parsed(t.state, frames[1..], bufSize)
  }

  function FrameEach(packets: seq<seq<byte>>): (f: seq<seq<byte>>)
    ensures |f| == |packets|
    decreases |packets|
  {
    if |packets| == 0 then [] else [Frame(packets[0])] + FrameEach(packets[1..])
  }

  // Packets put while they fit come out one by one, in order, as the frames PROTO_AddUnFcs makes.
  lemma {:induction false} QueueOrder(packets: seq<seq<byte>>)
    ensures Drain(Frames(packets)) == FrameEach(packets)
    decreases |packets|
  {
    if |packets| == 0 {
    } else {
      var rest := Frames(packets[1..]);
      TakeAtStart(packets[0], rest);
      QueueOrder(packets[1..]);
    }
  }

  lemma OneFrame(s: State, packet: seq<byte>, bufSize: nat)
    requires WellFormed(packet) && |packet| < bufSize
    ensures Run(Unchecked, s, Frame(packet), bufSize) == Trace(IDLE, [packet])
  {
    RunFrame(Unchecked, s, packet, bufSize);
  }

  lemma ParsedFirst(s: State, frame: seq<byte>, frames: seq<seq<byte>>, packet: seq<byte>, bufSize: nat)
    requires Run(Unchecked, s, frame, bufSize) == Trace(IDLE, [packet])
    ensures Parsed(s, [frame] + frames, bufSize) == [packet] + Parsed(IDLE, frames, bufSize)
  {
    hide Run;
    assert ([frame] + frames)[1..] == frames;
  }

  lemma {:induction false} FramesParse(packets: seq<seq<byte>>, s: State, bufSize: nat)
    requires Parseable(packets, bufSize)
    ensures Parsed(s, FrameEach(packets), bufSize) == packets
    decreases |packets|
  {
    if |packets| == 0 {
    } else {
      hide Parseable, WellFormed, Frame, Run, Parsed;
      ParseableRest(packets, bufSize);
      OneFrame(s, packets[0], bufSize);
      FramesParse(packets[1..], IDLE, bufSize);
      ParsedFirst(s, Frame(packets[0]), FrameEach(packets[1..]), packets[0], bufSize);
    }
  }

  // ... and parse back to themselves, length field included, from any state of the parser.
  lemma QueueRoundTrip(packets: seq<seq<byte>>, s: State, bufSize: nat)
    requires Parseable(packets, bufSize)
    ensures Parsed(s, Drain(Frames(packets)), bufSize) == packets
  {
    QueueOrder(packets);
    FramesParse(packets, s, bufSize);
  }

  // Putting a packet whose frame fits extends the packets in the ring by one.
  lemma {:induction false} FramesAppend(packets: seq<seq<byte>>, packet: seq<byte>)
    ensures Frames(packets + [packet]) == Frames(packets) + Frame(packet)
    decreases |packets|
  {
    if |packets| == 0 {
      assert packets + [packet] == [packet] && [packet][1..] == [];
    } else {
      assert (packets + [packet])[1..] == packets[1..] + [packet];
      FramesAppend(packets[1..], packet);
    }
  }

  // A frame that does not fit leaves octets without a stop octet. As long as nothing follows them the next Get
  // empties the ring and takes nothing.
  lemma TruncatedFrame(body: seq<byte>, room: nat)
    requires room < |Frame(body)|
    ensures STOP !in Fitting(Frame(body), room) && Take(Fitting(Frame(body), room)).Nothing?
  {
    var t := Fitting(Frame(body), room);
    StuffedIsClean(body);
    if room > 0 {
      assert t[1..] == Stuff(body)[..room - 1];
      SplitNothing(t[1..]);
    }
  }

  lemma {:induction false} SplitNothing(s: seq<byte>)
    requires STOP !in s
    ensures SplitAtStop(s).Nothing?
    decreases |s|
  {
    if |s| == 0 {
    } else {
      SplitNothing(s[1..]);
    }
  }

  lemma {:induction false} TakeNothing(t: seq<byte>)
    requires STOP !in t
    ensures Take(t).Nothing?
    decreases |t|
  {
    if |t| == 0 {
    } else if t[0] == START {
      SplitNothing(t[1..]);
    } else {
      TakeNothing(t[1..]);
    }
  }

  lemma MergedAtStart(t: seq<byte>, body: seq<byte>, rest: seq<byte>)
    requires STOP !in t && |t| > 0 && t[0] == START
    ensures Take(t + (Frame(body) + rest)) == Packet(t + Frame(body), rest)
  {
    var stuffed := [START] + Stuff(body);
    StuffedIsClean(body);
    assert Frame(body) == stuffed + [STOP] && STOP !in t[1..] + stuffed;
    hide Stuff, Frame;
    SplitClean(t[1..] + stuffed, rest);
    Regrouped(t, stuffed, [STOP], rest);
  }

  lemma Regrouped(t: seq<byte>, f: seq<byte>, g: seq<byte>, rest: seq<byte>)
    requires |t| > 0
    ensures (t + ((f + g) + rest))[1..] == (t[1..] + f) + g + rest && (t + ((f + g) + rest))[0] == t[0]
    ensures [t[0]] + ((t[1..] + f) + g) == t + (f + g)
  {}

  // With a frame behind them, they are taken together with it: what is before the first start octet is dropped, the
  // rest stands before the frame.
  lemma {:induction false} TakeMerged(t: seq<byte>, body: seq<byte>, rest: seq<byte>) returns (left: seq<byte>)
    requires STOP !in t
    ensures STOP !in left && Take(t + (Frame(body) + rest)) == Packet(left + Frame(body), rest)
    decreases |t|
  {
    var q := t + (Frame(body) + rest);
    if |t| == 0 {
      left := [];
      TakeAtStart(body, rest);
      assert q == Frame(body) + rest && left + Frame(body) == Frame(body);
    } else if t[0] == START {
      left := t;
      MergedAtStart(t, body, rest);
    } else {
      hide Frame;
      assert q[1..] == t[1..] + (Frame(body) + rest);
      left := TakeMerged(t[1..], body, rest);
    }
  }

  lemma {:induction false} QuietUnFcs(s: State, noise: seq<byte>, bufSize: nat)
    requires STOP !in noise
    ensures Run(Unchecked, s, noise, bufSize).delivered == []
    decreases |noise|
  {
    if |noise| == 0 {
    } else {
      QuietUnFcs(Octet(Unchecked, s, noise[0], bufSize).next, noise[1..], bufSize);
    }
  }

  // But the parser starts over at the frame's start octet, so that exactly the packets of the whole frames are
  // delivered.
  lemma MergedParse(t: seq<byte>, packets: seq<seq<byte>>, s: State, bufSize: nat)
    requires STOP !in t && Parseable(packets, bufSize)
    ensures Parsed(s, Drain(t + Frames(packets)), bufSize) == packets
  {
    if |packets| == 0 {
      assert t + Frames(packets) == t;
      TakeNothing(t);
    } else {
      var first, rest := packets[0], packets[1..];
      var left := TakeMerged(t, first, Frames(rest));
      ParseableRest(packets, bufSize);
      hide Take, Frame, Octet, WellFormed, Run, Parseable;
      QueueOrder(rest);
      LateFrame(s, left, first, bufSize);
      ParsedFirst(s, left + Frame(first), FrameEach(rest), first, bufSize);
      FramesParse(rest, IDLE, bufSize);
    }
  }

  lemma LateFrame(s: State, noise: seq<byte>, packet: seq<byte>, bufSize: nat)
    requires STOP !in noise && WellFormed(packet) && |packet| < bufSize
    ensures Run(Unchecked, s, noise + Frame(packet), bufSize) == Trace(IDLE, [packet])
  {
    hide Frame, Octet;
    QuietUnFcs(s, noise, bufSize);
    RunFrame(Unchecked, Run(Unchecked, s, noise, bufSize).state, packet, bufSize);
    RunAppend(Unchecked, s, noise, Frame(packet), bufSize);
  }

  lemma DrainFirst(body: seq<byte>, rest: seq<byte>)
    ensures Drain(Frame(body) + rest) == [Frame(body)] + Drain(rest)
  {
    hide Take, Frame;
    TakeAtStart(body, rest);
  }

  // Whole frames in front are taken and parsed first.
  lemma {:induction false} FramesThen(before: seq<seq<byte>>, tail: seq<byte>, s: State, bufSize: nat)
    requires Parseable(before, bufSize)
    ensures Parsed(s, Drain(Frames(before) + tail), bufSize)
         == before + Parsed(if |before| == 0 then s else IDLE, Drain(tail), bufSize)
    decreases |before|
  {
    if |before| == 0 {
      assert Frames(before) + tail == tail;
    } else {
      hide Drain, Parsed, Frame, Run, WellFormed, Parseable;
      var first, rest := before[0], before[1..];
      ParseableRest(before, bufSize);
      FramesThen(rest, tail, IDLE, bufSize);
      DrainFirst(first, Frames(rest) + tail);
      OneFrame(s, first, bufSize);
      ParsedFirst(s, Frame(first), Drain(Frames(rest) + tail), first, bufSize);
      Associate(Frame(first), Frames(rest), tail);
      Associate([first], rest, Parsed(IDLE, Drain(tail), bufSize));
    }
  }

  lemma Associate<T>(a: seq<T>, b: seq<T>, c: seq<T>)
    ensures (a + b) + c == a + (b + c)
  {}

  // A frame that was truncated between whole ones costs that packet and no other.
  lemma TruncationLosesOne(before: seq<seq<byte>>, body: seq<byte>, room: nat, after: seq<seq<byte>>, s: State,
                           bufSize: nat)
    requires room < |Frame(body)| && Parseable(before, bufSize) && Parseable(after, bufSize)
    ensures Parsed(s, Drain(Frames(before) + (Fitting(Frame(body), room) + Frames(after))), bufSize) == before + after
  {
    hide Take, Frame, Run, Parseable, Fitting, Parsed, Drain;
    TruncatedFrame(body, room);
    MergedParse(Fitting(Frame(body), room), after, if |before| == 0 then s else IDLE, bufSize);
    FramesThen(before, Fitting(Frame(body), room) + Frames(after), s, bufSize);
  }
}
