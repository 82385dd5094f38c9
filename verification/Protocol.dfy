/** The byte-stuffed framing of protocol.c: encoder, byte-at-a-time parser, and the proof that they invert each
 * other. */
module Protocol {
  import opened Words
  import opened FcsTable
  import opened Fcs
  import opened FcsDetection

  const ESCAPE: byte := 0x7D
  const START: byte := 0x7E
  const STOP: byte := 0x7F

  predicate Special(c: byte) { c == ESCAPE || c == START || c == STOP }

  // c ^ 0x20: bit 5 is toggled.
  function Flip(c: byte): byte {
    if c / 0x20 % 2 == 1 then c - 0x20 else c + 0x20
  }

  lemma FlipIsXor(c: byte)
    ensures Flip(c) == Xor(c, 0x20)
  {
    var low, here := c % 0x20, c / 0x20;
    assert Pow2(5) == 0x20;
    ToggleBit(low, here, if here % 2 == 1 then here - 1 else here + 1, 5, 0x20);
  }

  // An octet as it is sent.
  function StuffOctet(c: byte): seq<byte> {
    if Special(c) then [ESCAPE, Flip(c)] else [c]
  }

  function Stuff(body: seq<byte>): (s: seq<byte>)
    ensures |s| >= |body|
    decreases |body|
  {
    if |body| == 0 then [] else StuffOctet(body[0]) + Stuff(body[1..])
  }

  function Frame(body: seq<byte>): seq<byte> { [START] + Stuff(body) + [STOP] }

  // What goes over the line: 0x7E at the start, 0x7F at the end, and neither between. The three octets from 0x7D to
  // 0x7F are sent as 0x7D and the octet less 0x20, all others as they are.

  function Specials(body: seq<byte>): (n: nat)
    decreases |body|
  {
    if |body| == 0 then 0 else (if 0x7D <= body[0] <= 0x7F then 1 else 0) + Specials(body[1..])
  }

  lemma {:induction false} StuffIs(body: seq<byte>)
    ensures |Stuff(body)| == |body| + Specials(body)
    ensures 0x7E !in Stuff(body) && 0x7F !in Stuff(body)
    ensures |body| > 0 ==>
              Stuff(body) == (if 0x7D <= body[0] <= 0x7F then [0x7D, body[0] - 0x20] else [body[0]]) + Stuff(body[1..])
    decreases |body|
  {
    if |body| == 0 {
    } else {
      StuffIs(body[1..]);
    }
  }

  lemma FrameIs(body: seq<byte>)
    ensures var f := Frame(body);
            && |f| == |body| + Specials(body) + 2 && f[0] == 0x7E && f[|f| - 1] == 0x7F
            && f[1..|f| - 1] == Stuff(body) && 0x7E !in Stuff(body) && 0x7F !in Stuff(body)
  {
    StuffIs(body);
    assert Frame(body)[1..|Frame(body)| - 1] == Stuff(body);
  }

  // A payload followed by its check octets, low one first.
  function WithCheck(payload: seq<byte>, fcs: uint16): seq<byte> {
    payload + [fcs % 0x100, fcs / 0x100]
  }

  function WithFcs(payload: seq<byte>): seq<byte> { WithCheck(payload, FcsOf(payload)) }

  // The parser between octets: the unstuffed octets collected so far, and whether an escape is pending.
  datatype State = State(body: seq<byte>, esc: bool)

  // What one octet does: the next state, the value returned, and the payload handed to the callback, if any.
  datatype Outcome = Outcome(next: State, result: uint16, delivered: seq<seq<byte>>)

  const IDLE := State([], false)

  // Collecting one octet; the buffer starts over when it is full.
  function Collect(s: State, value: byte, bufSize: nat): State {
    var body := s.body + [if s.esc then Flip(value) else value];
    if |body| >= bufSize then IDLE else State(body, false)
  }

  // What a completed body delivers: its payload if the check octets are right, or, without check octets, itself.
  type Completion = seq<byte> -> seq<seq<byte>>

  function Checked(body: seq<byte>): seq<seq<byte>> {
    if Accepts(body) then [body[..|body| - 2]] else []
  }

  function Unchecked(body: seq<byte>): seq<seq<byte>> {
    if |body| >= 2 then [body] else []
  }

  // PROTO_ParseByte with Checked, PROTO_ParseByteUnFcs with Unchecked.
  function Octet(complete: Completion, s: State, value: byte, bufSize: nat): Outcome {
    if value == ESCAPE then Outcome(s.(esc := true), 0, [])
    else if value == START then Outcome(IDLE, 0, [])
    else if value == STOP then Outcome(IDLE, if complete(s.body) == [] then 0 else 1, complete(s.body))
    else Outcome(Collect(s, value, bufSize), 0, [])
  }

  // An escape marks the next octet, also behind another escape; a start octet drops what was collected, a stop octet
  // ends it; any other octet is collected, with bit 5 toggled if it is marked, until the buffer is full.
  lemma OctetIs(complete: Completion, s: State, value: byte, bufSize: nat)
    ensures var next := Octet(complete, s, value, bufSize).next;
            if value == 0x7D then next == State(s.body, true)
            else if value == 0x7E || value == 0x7F || |s.body| + 1 >= bufSize then next == State([], false)
            else && !next.esc && |next.body| == |s.body| + 1 && next.body[..|s.body|] == s.body
                 && next.body[|s.body|] == if s.esc then Xor(value, 0x20) else value
  {
    FlipIsXor(value);
  }

  // A run of the parser over a stream.
  datatype Trace = Trace(state: State, delivered: seq<seq<byte>>)

  function Run(complete: Completion, s: State, stream: seq<byte>, bufSize: nat): Trace
    decreases |stream|
  {
    if |stream| == 0 then Trace(s, [])
    else
      var o := Octet(complete, s, stream[0], bufSize);
      var rest := Run(complete, o.next, stream[1..], bufSize);
      Trace(rest.state, o.delivered + rest.delivered)
  }

  lemma {:induction false} RunAppend(complete: Completion, s: State, x: seq<byte>, y: seq<byte>, bufSize: nat)
    ensures var t := Run(complete, s, x, bufSize);
            var u := Run(complete, t.state, y, bufSize);
            Run(complete, s, x + y, bufSize) == Trace(u.state, t.delivered + u.delivered)
    decreases |x|
  {
    if |x| == 0 {
      assert x + y == y;
    } else {
      var o := Octet(complete, s, x[0], bufSize);
      RunAppend(complete, o.next, x[1..], y, bufSize);
      assert (x + y)[1..] == x[1..] + y;
      var t := Run(complete, o.next, x[1..], bufSize);
      var u := Run(complete, t.state, y, bufSize);
      assert o.delivered + (t.delivered + u.delivered) == (o.delivered + t.delivered) + u.delivered;
    }
  }

  lemma RunThen(complete: Completion, s: State, x: seq<byte>, t: State, y: seq<byte>, u: State, bufSize: nat)
    requires Run(complete, s, x, bufSize) == Trace(t, [])
    requires Run(complete, t, y, bufSize) == Trace(u, [])
    ensures Run(complete, s, x + y, bufSize) == Trace(u, [])
  {
    RunAppend(complete, s, x, y, bufSize);
  }

  lemma RunOne(complete: Completion, s: State, c: byte, bufSize: nat)
    ensures var o := Octet(complete, s, c, bufSize);
            Run(complete, s, [c], bufSize) == Trace(o.next, o.delivered)
  {
    var o := Octet(complete, s, c, bufSize);
    assert [c][1..] == [];
    assert o.delivered + [] == o.delivered;
  }

  lemma {:induction false} StuffAppend(x: seq<byte>, y: seq<byte>)
    ensures Stuff(x + y) == Stuff(x) + Stuff(y)
    decreases |x|
  {
    if |x| == 0 {
      assert x + y == y;
    } else {
      assert (x + y)[1..] == x[1..] + y;
      StuffAppend(x[1..], y);
      assert StuffOctet(x[0]) + (Stuff(x[1..]) + Stuff(y)) == (StuffOctet(x[0]) + Stuff(x[1..])) + Stuff(y);
    }
  }

  lemma StuffOne(body: seq<byte>, k: nat)
    requires k < |body|
    ensures Stuff(body[..k + 1]) == Stuff(body[..k]) + StuffOctet(body[k])
    ensures |Stuff(body)| >= |Stuff(body[..k + 1])|
  {
    assert body[..k + 1] == body[..k] + [body[k]] && body == body[..k + 1] + body[k + 1..];
    StuffAppend(body[..k], [body[k]]);
    StuffAppend(body[..k + 1], body[k + 1..]);
    assert [body[k]][1..] == [];
    assert StuffOctet(body[k]) + [] == StuffOctet(body[k]);
  }

  // Writing one octet, stuffed if need be, where room octets are left.
  method PutStuffed(buf: array<byte>, at: nat, room: nat, c: byte) returns (written: nat)
    requires at + room <= buf.Length
    modifies buf
    ensures written == if |StuffOctet(c)| <= room then |StuffOctet(c)| else 0
    ensures written > 0 ==> buf[..at + written] == old(buf[..at]) + StuffOctet(c)
    ensures forall j | at + room <= j < buf.Length :: buf[j] == old(buf[j])
  {
    if Special(c) {
      if room < 2 { return 0; }
      buf[at] := ESCAPE;
      buf[at + 1] := Flip(c);
      assert buf[..at + 2] == buf[..at] + [ESCAPE, Flip(c)];
      return 2;
    } else {
      if room < 1 { return 0; }
      buf[at] := c;
      assert buf[..at + 1] == buf[..at] + [c];
      return 1;
    }
  }

  // The encoder's progress: the start octet and the first k body octets, stuffed, stand in buf[..at].
  ghost predicate Written(buf: array<byte>, at: nat, body: seq<byte>, k: nat)
    reads buf
  {
    at <= buf.Length && k <= |body| && buf[..at] == [START] + Stuff(body[..k])
  }

  lemma FrameSize(body: seq<byte>, k: nat, at: nat)
    requires k < |body| && at == 1 + |Stuff(body[..k])|
    ensures at + |StuffOctet(body[k])| <= 1 + |Stuff(body)|
    ensures [START] + Stuff(body[..k + 1]) == ([START] + Stuff(body[..k])) + StuffOctet(body[k])
  {
    StuffOne(body, k);
  }

  // What PROTO_Add puts between the delimiters: its length counter is sixteen bits wide and wraps for 65534 and 65535.
  function SentBody(payload: seq<byte>): seq<byte> {
    if |payload| <= 65533 then WithFcs(payload)
    else if |payload| == 65534 then []
    else [FcsOf(payload) / 0x100]
  }

  // The octets the loop of PROTO_Add takes, by the value its counter has when each is taken.
  ghost predicate TakenFrom(body: seq<byte>, payload: seq<byte>, fcs: uint16) {
    && |body| == (|payload| + 2) % 0x1_0000
    && forall k {:trigger body[k]} | 0 <= k < |body| ::
      if |body| - k == 2 then body[k] == fcs % 0x100
      else if |body| - k == 1 then body[k] == fcs / 0x100
      else k < |payload| && body[k] == payload[k]
  }

  lemma SentBodyTaken(payload: seq<byte>)
    requires |payload| < 0x1_0000
    ensures TakenFrom(SentBody(payload), payload, FcsOf(payload))
  {
    TakenFromCheck(SentBody(payload), payload, FcsOf(payload));
  }

  lemma TakenFromCheck(body: seq<byte>, payload: seq<byte>, fcs: uint16)
    requires |payload| < 0x1_0000
    requires body == if |payload| <= 65533 then WithCheck(payload, fcs)
                     else if |payload| == 65534 then [] else [fcs / 0x100]
    ensures TakenFrom(body, payload, fcs)
  {}

  // PROTO_Add
  method Add(buf: array<byte>, packet: array<byte>, bufSize: uint16, len: uint16) returns (n: uint16)
    requires buf != packet && bufSize <= buf.Length && len <= packet.Length
    modifies buf
    ensures var body := SentBody(packet[..len]);
            if bufSize >= |Stuff(body)| + 2 then n == |Stuff(body)| + 2 && buf[..n] == Frame(body) else n == 0
    ensures forall j | bufSize <= j < buf.Length :: buf[j] == old(buf[j])
  {
    if bufSize < 1 { return 0; }
    var fcs := FcsGet(packet, len);
    SentBodyTaken(packet[..len]);
    n := AddBody(buf, packet, bufSize, len, fcs, SentBody(packet[..len]));
  }

  // The rest of PROTO_Add once the check sequence is known.
  method AddBody(buf: array<byte>, packet: array<byte>, bufSize: uint16, len: uint16, fcs: uint16,
                 ghost body: seq<byte>)
    returns (n: uint16)
    requires buf != packet && 1 <= bufSize <= buf.Length && len <= packet.Length
    requires TakenFrom(body, packet[..len], fcs)
    modifies buf
    ensures if bufSize >= |Stuff(body)| + 2 then n == |Stuff(body)| + 2 && buf[..n] == Frame(body) else n == 0
    ensures forall j | bufSize <= j < buf.Length :: buf[j] == old(buf[j])
  {
    hide Stuff, TakenFrom;
    ghost var payload := packet[..len];
    StartWritten(body);
    WrappedLength(body, payload, fcs);
    var i: nat := 2;
    var left := (len + 2) % 0x1_0000;
    buf[0] := START;
    var at: nat, room: int, next: nat := 1, bufSize - 1, 0;
    ghost var k := 0;
    while left > 0
      invariant k + left == |body| && at + room == bufSize && i == at + 1 && room >= 0
      invariant left >= 2 ==> next == k
      invariant packet[..len] == payload
      invariant Written(buf, at, body, k)
      invariant forall j | bufSize <= j < buf.Length :: buf[j] == old(buf[j])
    {
      left := left - 1;
      var c;
      c, next := NextOctet(packet, len, fcs, left, next, body, k);
      FrameSize(body, k, at);
      var written := PutStuffed(buf, at, room, c);
      if written == 0 { return 0; }
      at, room, i, k := at + written, room - written, i + written, k + 1;
    }
    assert body[..k] == body;
    if room < 1 { return 0; }
    buf[at] := STOP;
    assert buf[..at + 1] == buf[..at] + [STOP];
    return i;
  }

  lemma StartWritten(body: seq<byte>)
    ensures [START] + Stuff(body[..0]) == [START]
  {}

  lemma WrappedLength(body: seq<byte>, payload: seq<byte>, fcs: uint16)
    requires TakenFrom(body, payload, fcs)
    ensures |body| == (|payload| + 2) % 0x1_0000
  {}

  // The octet PROTO_Add takes next, by the value of its counter.
  method NextOctet(packet: array<byte>, len: uint16, fcs: uint16, left: nat, next: nat, ghost body: seq<byte>,
                   ghost k: nat)
    returns (c: byte, next': nat)
    requires len <= packet.Length && TakenFrom(body, packet[..len], fcs)
    requires k + left + 1 == |body| && (left >= 1 ==> next == k)
    ensures c == body[k] && (left >= 2 ==> next' == k + 1)
  {
    next' := next;
    if left == 1 {
      c := fcs % 0x100;
    } else if left == 0 {
      c := fcs / 0x100 % 0x100;
    } else {
      assert body[k] == packet[..len][k];
      c := packet[next];
      next' := next + 1;
    }
  }

  // PROTO_AddUnFcs
  method AddUnFcs(buf: array<byte>, packet: array<byte>, bufSize: uint16, packetLen: uint16) returns (n: uint16)
    requires buf != packet && bufSize <= buf.Length && packetLen <= packet.Length
    modifies buf
    ensures var body := packet[..packetLen];
            if bufSize >= |Stuff(body)| + 2 then n == |Stuff(body)| + 2 && buf[..n] == Frame(body) else n == 0
    ensures forall j | bufSize <= j < buf.Length :: buf[j] == old(buf[j])
  {
    ghost var body := packet[..packetLen];
    var i: nat := 2;
    if bufSize < 1 { return 0; }
    buf[0] := START;
    var at: nat, room: int, next: nat := 1, bufSize - 1, 0;
    while next < packetLen
      invariant next <= packetLen && at + room == bufSize && i == at + 1 && room >= 0
      invariant packet[..packetLen] == body
      invariant Written(buf, at, body, next)
      invariant forall j | bufSize <= j < buf.Length :: buf[j] == old(buf[j])
    {
      FrameSize(body, next, at);
      assert packet[next] == body[next];
      var written := PutStuffed(buf, at, room, packet[next]);
      if written == 0 { return 0; }
      at, room, i, next := at + written, room - written, i + written, next + 1;
    }
    assert body[..next] == body;
    if room < 1 { return 0; }
    buf[at] := STOP;
    assert buf[..at + 1] == buf[..at] + [STOP];
    return i;
  }

  // Reading stuffed octets collects the octets themselves, whatever was collected before.
  lemma RunStuffedOctet(complete: Completion, prefix: seq<byte>, c: byte, bufSize: nat)
    requires |prefix| + 1 < bufSize
    ensures Run(complete, State(prefix, false), StuffOctet(c), bufSize) == Trace(State(prefix + [c], false), [])
  {
    var s := State(prefix, false);
    if Special(c) {
      RunOne(complete, s, ESCAPE, bufSize);
      RunOne(complete, State(prefix, true), Flip(c), bufSize);
      RunAppend(complete, s, [ESCAPE], [Flip(c)], bufSize);
      assert [ESCAPE] + [Flip(c)] == StuffOctet(c);
    } else {
      RunOne(complete, s, c, bufSize);
    }
  }

  lemma Associate(prefix: seq<byte>, body: seq<byte>)
    requires |body| > 0
    ensures (prefix + [body[0]]) + body[1..] == prefix + body
  {}

  lemma {:induction false} RunStuffed(complete: Completion, prefix: seq<byte>, body: seq<byte>, bufSize: nat)
    requires |prefix| + |body| < bufSize
    ensures Run(complete, State(prefix, false), Stuff(body), bufSize) == Trace(State(prefix + body, false), [])
    decreases |body|
  {
    if |body| == 0 {
      assert prefix + body == prefix;
    } else {
      var c, rest := body[0], body[1..];
      assert Stuff(body) == StuffOctet(c) + Stuff(rest);
      hide Run, StuffOctet, Stuff;
      RunStuffedOctet(complete, prefix, c, bufSize);
      RunStuffed(complete, prefix + [c], rest, bufSize);
      Associate(prefix, body);
      RunThen(complete, State(prefix, false), StuffOctet(c), State(prefix + [c], false), Stuff(rest),
              State(prefix + body, false), bufSize);
    }
  }

  lemma RunOpen(complete: Completion, s: State, body: seq<byte>, bufSize: nat)
    requires |body| < bufSize
    ensures Run(complete, s, [START] + Stuff(body), bufSize) == Trace(State(body, false), [])
  {
    RunOne(complete, s, START, bufSize);
    RunStuffed(complete, [], body, bufSize);
    assert [] + body == body;
    RunThen(complete, s, [START], IDLE, Stuff(body), State(body, false), bufSize);
  }

  lemma RunStop(complete: Completion, body: seq<byte>, bufSize: nat)
    ensures Run(complete, State(body, false), [STOP], bufSize) == Trace(IDLE, complete(body))
  {
    RunOne(complete, State(body, false), STOP, bufSize);
  }

  // A frame that fits the buffer is read back from any state, and speaks only at its last octet.
  lemma RunFrame(complete: Completion, s: State, body: seq<byte>, bufSize: nat)
    requires |body| < bufSize
    ensures Run(complete, s, [START] + Stuff(body), bufSize) == Trace(State(body, false), [])
    ensures Run(complete, s, Frame(body), bufSize) == Trace(IDLE, complete(body))
  {
    RunOpen(complete, s, body, bufSize);
    RunStop(complete, body, bufSize);
    RunAppend(complete, s, [START] + Stuff(body), [STOP], bufSize);
    assert [] + complete(body) == complete(body);
  }

  // Whatever is delivered was shorter than the buffer.
  lemma {:induction false} DeliveredFits(s: State, stream: seq<byte>, bufSize: nat)
    requires |s.body| < bufSize
    ensures forall d | d in Run(Checked, s, stream, bufSize).delivered :: |d| + 2 < bufSize
    decreases |stream|
  {
    if |stream| == 0 {
    } else {
      DeliveredFits(Octet(Checked, s, stream[0], bufSize).next, stream[1..], bufSize);
    }
  }

  lemma WithFcsAccepted(payload: seq<byte>)
    ensures Accepts(WithFcs(payload)) <==> |payload| >= 2
  {
    var body := WithFcs(payload);
    assert body[..|body| - 2] == payload;
  }

  // A frame made by PROTO_Add delivers exactly its payload, from any state of a parser,
  // if and only if the payload has at least two octets and the buffer is larger than payload and check octets.
  lemma RoundTrip(s: State, payload: seq<byte>, bufSize: nat)
    requires 0 < bufSize
    ensures Run(Checked, s, Frame(WithFcs(payload)), bufSize).delivered == [payload]
            <==> 2 <= |payload| && |payload| + 2 < bufSize
  {
    var body := WithFcs(payload);
    if |body| < bufSize {
      RunFrame(Checked, s, body, bufSize);
      WithFcsAccepted(payload);
      assert body[..|body| - 2] == payload;
    } else {
      var rest := Stuff(body) + [STOP];
      RunOne(Checked, s, START, bufSize);
      assert [START] + rest == Frame(body);
      RunAppend(Checked, s, [START], rest, bufSize);
      DeliveredFits(IDLE, rest, bufSize);
      var d := Run(Checked, IDLE, rest, bufSize).delivered;
      assert Run(Checked, s, Frame(body), bufSize).delivered == [] + d == d;
      assert payload !in d && payload in [payload];
    }
  }

  // What PROTO_Add sends for a payload comes back, from any state, if and only if, besides, its counter has not
  // wrapped.
  lemma RoundTripSent(s: State, payload: seq<byte>, bufSize: nat)
    requires 0 < bufSize && |payload| < 0x1_0000
    ensures Run(Checked, s, Frame(SentBody(payload)), bufSize).delivered == [payload]
       <==> 2 <= |payload| <= 65533 && |payload| + 2 < bufSize
  {
    if |payload| <= 65533 {
      RoundTrip(s, payload, bufSize);
    } else {
      ShortBodySilent(s, SentBody(payload), bufSize);
    }
  }

  // A body of at most one octet delivers nothing, whatever the buffer.
  lemma ShortBodySilent(s: State, body: seq<byte>, bufSize: nat)
    requires 0 < bufSize && |body| <= 1
    ensures Run(Checked, s, Frame(body), bufSize).delivered == []
  {
    if |body| < bufSize {
      RunFrame(Checked, s, body, bufSize);
    } else {
      var rest := Stuff(body) + [STOP];
      RunOne(Checked, s, START, bufSize);
      assert [START] + rest == Frame(body);
      RunAppend(Checked, s, [START], rest, bufSize);
      SmallBufferSilent(IDLE, rest, bufSize);
    }
  }

  lemma {:induction false} SmallBufferSilent(s: State, stream: seq<byte>, bufSize: nat)
    requires |s.body| < bufSize <= 4
    ensures Run(Checked, s, stream, bufSize).delivered == []
    decreases |stream|
  {
    if |stream| == 0 {
    } else {
      SmallBufferSilent(Octet(Checked, s, stream[0], bufSize).next, stream[1..], bufSize);
    }
  }

  lemma {:induction false} DeliveredFitsUnFcs(s: State, stream: seq<byte>, bufSize: nat)
    requires |s.body| < bufSize
    ensures forall d | d in Run(Unchecked, s, stream, bufSize).delivered :: |d| < bufSize
    decreases |stream|
  {
    if |stream| == 0 {
    } else {
      DeliveredFitsUnFcs(Octet(Unchecked, s, stream[0], bufSize).next, stream[1..], bufSize);
    }
  }

  // Without check octets the same holds for the body itself.
  lemma RoundTripUnFcs(s: State, body: seq<byte>, bufSize: nat)
    requires 0 < bufSize
    ensures Run(Unchecked, s, Frame(body), bufSize).delivered == [body] <==> 2 <= |body| < bufSize
    ensures 2 <= |body| < bufSize ==> Run(Unchecked, s, Frame(body), bufSize) == Trace(IDLE, [body])
  {
    if |body| < bufSize {
      RunFrame(Unchecked, s, body, bufSize);
    } else {
      var rest := Stuff(body) + [STOP];
      assert Frame(body) == [START] + rest;
      RunOne(Unchecked, s, START, bufSize);
      RunAppend(Unchecked, s, [START], rest, bufSize);
      DeliveredFitsUnFcs(IDLE, rest, bufSize);
      var d := Run(Unchecked, IDLE, rest, bufSize).delivered;
      assert Run(Unchecked, s, Frame(body), bufSize).delivered == d;
      assert d == [body] ==> body in d;
    }
  }

  // A frame whose body was hit by a burst of at most sixteen bits delivers nothing, from any state.
  lemma BurstFrameDropped(s: State, payload: seq<byte>, body: seq<byte>, p: nat, w: nat, bufSize: nat)
    requires 2 <= |payload| && |body| == |payload| + 2 < bufSize && body != WithFcs(payload)
    requires p + w <= 8 * |body| && w <= 16
    requires Bits(body)[..p] == Bits(WithFcs(payload))[..p] && Bits(body)[p + w..] == Bits(WithFcs(payload))[p + w..]
    ensures Run(Checked, s, Frame(body), bufSize).delivered == []
  {
    RunFrame(Checked, s, body, bufSize);
    WithFcsAccepted(payload);
    if Accepts(body) { AcceptedBodiesNoBurst(body, WithFcs(payload), p, w); }
  }

  // So does a frame in whose body an odd number of bits was flipped.
  lemma OddFlipsFrameDropped(s: State, payload: seq<byte>, body: seq<byte>, bufSize: nat)
    requires 2 <= |payload| && |body| == |payload| + 2 < bufSize
    requires Flips(Bits(body), Bits(WithFcs(payload))) % 2 == 1
    ensures Run(Checked, s, Frame(body), bufSize).delivered == []
  {
    RunFrame(Checked, s, body, bufSize);
    WithFcsAccepted(payload);
    if Accepts(body) { AcceptedBodiesEvenFlips(body, WithFcs(payload)); }
  }

  // A line: payloads in frames, each preceded by noise.
  datatype Item = Item(noise: seq<byte>, payload: seq<byte>)

  function Line(items: seq<Item>): seq<byte>
    decreases |items|
  {
    if |items| == 0 then [] else (items[0].noise + Frame(WithFcs(items[0].payload))) + Line(items[1..])
  }

  function Payloads(items: seq<Item>): seq<seq<byte>>
    decreases |items|
  {
    if |items| == 0 then [] else [items[0].payload] + Payloads(items[1..])
  }

  lemma {:induction false} QuietNoise(s: State, noise: seq<byte>, bufSize: nat)
    requires STOP !in noise
    ensures Run(Checked, s, noise, bufSize).delivered == []
    decreases |noise|
  {
    if |noise| == 0 {
    } else {
      QuietNoise(Octet(Checked, s, noise[0], bufSize).next, noise[1..], bufSize);
    }
  }

  // Resynchronisation: noise before a frame, of any octets at all, does not affect what the frame delivers.
  lemma NoiseThenFrame(s: State, noise: seq<byte>, payload: seq<byte>, bufSize: nat)
    requires 2 <= |payload| && |payload| + 2 < bufSize
    ensures Run(Checked, s, noise + Frame(WithFcs(payload)), bufSize)
         == Trace(IDLE, Run(Checked, s, noise, bufSize).delivered + [payload])
  {
    var body := WithFcs(payload);
    RunAppend(Checked, s, noise, Frame(body), bufSize);
    RunFrame(Checked, Run(Checked, s, noise, bufSize).state, body, bufSize);
    WithFcsAccepted(payload);
    assert body[..|body| - 2] == payload;
  }

  ghost predicate Deliverable(items: seq<Item>, bufSize: nat) {
    forall i | 0 <= i < |items| ::
      2 <= |items[i].payload| && |items[i].payload| + 2 < bufSize && STOP !in items[i].noise
  }

  lemma FirstDeliverable(items: seq<Item>, bufSize: nat)
    requires Deliverable(items, bufSize) && |items| > 0
    ensures 2 <= |items[0].payload| && |items[0].payload| + 2 < bufSize && STOP !in items[0].noise
    ensures Deliverable(items[1..], bufSize)
  {}

  lemma LineFirst(s: State, item: Item, rest: seq<byte>, bufSize: nat)
    requires 2 <= |item.payload| && |item.payload| + 2 < bufSize && STOP !in item.noise
    ensures Run(Checked, s, (item.noise + Frame(WithFcs(item.payload))) + rest, bufSize).delivered
         == [item.payload] + Run(Checked, IDLE, rest, bufSize).delivered
  {
    hide Run, Frame, WithFcs;
    QuietNoise(s, item.noise, bufSize);
    NoiseThenFrame(s, item.noise, item.payload, bufSize);
    RunAppend(Checked, s, item.noise + Frame(WithFcs(item.payload)), rest, bufSize);
  }

  // Over a whole line whose noise has no stop octet, exactly the payloads sent are delivered, in order.
  lemma {:induction false} LineDelivers(s: State, items: seq<Item>, bufSize: nat)
    requires Deliverable(items, bufSize)
    ensures Run(Checked, s, Line(items), bufSize).delivered == Payloads(items)
    decreases |items|
  {
    if |items| == 0 {
    } else {
      FirstDeliverable(items, bufSize);
      hide Run, Frame, WithFcs, Deliverable;
      LineFirst(s, items[0], Line(items[1..]), bufSize);
      LineDelivers(IDLE, items[1..], bufSize);
    }
  }

  lemma CheckedIs(body: seq<byte>)
    ensures |body| < 4 ==> Checked(body) == []
    ensures |body| >= 4 ==> Checked(body) == if FcsOf(body[..|body| - 2]) == Word(body[|body| - 2], body[|body| - 1])
                                             then [body[..|body| - 2]] else []
  {}

  lemma CheckedIff(body: seq<byte>)
    ensures |Checked(body)| == if Accepts(body) then 1 else 0
  {}

  // PROTO_PARSER. The callback is modelled by the payloads it was given, in order.
  class Parser {
    const buf: array<byte>
    const bufSize: nat
    const hasCallback: bool
    var dataLen: nat
    var isEsc: bool
    var received: seq<seq<byte>>

    // A parser over its whole buffer, never full between octets.
    ghost predicate Valid()
      reads this
    {
      bufSize == buf.Length && bufSize < 0x1_0000 && dataLen < bufSize
    }

    ghost function Value(): State
      requires Valid()
      reads this, buf
    {
      State(buf[..dataLen], isEsc)
    }

    // PROTO_InitParser. It takes an empty buffer, too, but that would be written past its end by the first octet.
    constructor (buffer: array<byte>, callback: bool)
      requires buffer.Length < 0x1_0000
      ensures buf == buffer && bufSize == buffer.Length && hasCallback == callback && received == [] && dataLen == 0
      ensures !isEsc
      ensures Valid() <==> 0 < buffer.Length
      ensures Valid() ==> Value() == IDLE
    {
      buf, bufSize, hasCallback := buffer, buffer.Length, callback;
      dataLen, isEsc, received := 0, false, [];
    }

    method Store(value: byte)
      requires Valid() && !Special(value)
      modifies this, buf
      ensures Valid() && received == old(received)
      ensures Value() == Collect(old(Value()), value, bufSize)
    {
      ghost var was := buf[..dataLen];
      if isEsc {
        buf[dataLen] := Flip(value);
        dataLen := dataLen + 1;
        isEsc := false;
      } else {
        buf[dataLen] := value;
        dataLen := dataLen + 1;
      }
      assert buf[..dataLen] == was + [buf[dataLen - 1]];
      if dataLen >= bufSize {
        dataLen, isEsc := 0, false;
      }
    }

    // PROTO_ParseByte
    method ParseByte(value: byte) returns (result: uint16)
      requires Valid()
      modifies this, buf
      ensures Valid()
      ensures var o := Octet(Checked, old(Value()), value, bufSize);
              Value() == o.next && result == o.result
              && received == old(received) + if hasCallback then o.delivered else []
      ensures result == if value == 0x7F && Accepts(old(Value()).body) then 1 else 0
      ensures hasCallback ==> |received| == |old(received)| + result
    {
      hide Collect, Checked, Accepts;
      CheckedIff(Value().body);
      result := 0;
      if value == ESCAPE {
        isEsc := true;
      } else if value == START {
        dataLen, isEsc := 0, false;
      } else if value == STOP {
        result := Finish();
      } else {
        Store(value);
      }
    }

    // ... at a stop octet
    method Finish() returns (result: uint16)
      requires Valid()
      modifies this
      ensures Valid() && Value() == IDLE
      ensures result == if Checked(old(Value()).body) == [] then 0 else 1
      ensures received == old(received) + if hasCallback then Checked(old(Value()).body) else []
    {
      hide Checked, FcsOf, Word;
      ghost var body := buf[..dataLen];
      CheckedIs(body);
      if dataLen >= 4 {
        var fcs := FcsGet(buf, dataLen - 2);
        var rxFcs := Word(buf[dataLen - 2], buf[dataLen - 1]);
        assert buf[..dataLen - 2] == body[..dataLen - 2];
        dataLen := dataLen - 2;
        if fcs == rxFcs {
          if hasCallback {
            received := received + [buf[..dataLen]];
          }
          dataLen, isEsc := 0, false;
          return 1;
        }
      }
      dataLen, isEsc := 0, false;
      return 0;
    }

    // PROTO_ParseByteUnFcs
    method ParseByteUnFcs(value: byte) returns (result: uint16)
      requires Valid()
      modifies this, buf
      ensures Valid()
      ensures var o := Octet(Unchecked, old(Value()), value, bufSize);
              Value() == o.next && result == o.result
              && received == old(received) + if hasCallback then o.delivered else []
      ensures result == if value == 0x7F && |old(Value()).body| >= 2 then 1 else 0
      ensures hasCallback ==> |received| == |old(received)| + result
    {
      if value == ESCAPE {
        isEsc := true;
      } else if value == START {
        dataLen, isEsc := 0, false;
      } else if value == STOP {
        if dataLen >= 2 {
          if hasCallback {
            received := received + [buf[..dataLen]];
          }
          dataLen, isEsc := 0, false;
          return 1;
        }
        dataLen, isEsc := 0, false;
      } else {
        Store(value);
      }
      return 0;
    }

    // PROTO_Parse
    method Parse(value: array<byte>, len: uint16) returns (result: uint16)
      requires Valid() && len <= value.Length && value != buf
      modifies this, buf
      ensures Valid() && result == 0
      ensures var t := Run(Checked, old(Value()), value[..len], bufSize);
              Value() == t.state && received == old(received) + if hasCallback then t.delivered else []
    {
      var i := 0;
      assert value[..0] == [];
      while i < len
        invariant i <= len && Valid()
        invariant value[..] == old(value[..])
        invariant var t := Run(Checked, old(Value()), value[..i], bufSize);
                  Value() == t.state && received == old(received) + if hasCallback then t.delivered else []
      {
        RunOne(Checked, Value(), value[i], bufSize);
        RunAppend(Checked, old(Value()), value[..i], [value[i]], bufSize);
        assert value[..i + 1] == value[..i] + [value[i]];
        var r := ParseByte(value[i]);
        i := i + 1;
      }
      return 0;
    }
  }
}
