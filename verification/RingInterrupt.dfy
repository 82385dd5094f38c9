/** RINGBUF_Put in an interrupt against RINGBUF_Get outside it, one shared-memory access at a time. */
module RingInterrupt {
  import opened Words
  import opened RingBuffer

  // Where the producer stands: between calls; head + 1 computed; found room; octet stored.
  datatype Producer = PutIdle | Computed(temp: nat, c: byte) | Room(temp: nat, c: byte) | Stored(temp: nat, c: byte)

  // Where the consumer stands: between calls; found an octet; octet read; tail incremented but not yet wrapped.
  datatype Consumer = GetIdle | Found | Read(c: byte) | Bumped

  // The shared ring, the two program counters, what was accepted and handed out, and the number of full-tests
  // the producer passed since tail was incremented and not yet wrapped.
  datatype Sys = Sys(pt: seq<byte>, head: nat, tail: nat, put: Producer, get: Consumer,
                     accepted: seq<byte>, taken: seq<byte>, windowPuts: nat)

  datatype Action = StartPut(c: byte) | ProducerStep | ConsumerStep

  function Start(pt: seq<byte>): Sys {
    Sys(pt, 0, 0, PutIdle, GetIdle, [], [], 0)
  }

  // The tail the consumer is about to publish.
  function WrappedTail(s: Sys): nat { if s.tail >= |s.pt| then 0 else s.tail }

  function Step(s: Sys, a: Action): Sys
    requires s.head < |s.pt| && s.tail <= |s.pt| && (s.get.Found? ==> s.tail < |s.pt|)
  {
    match a
    case StartPut(c) =>
      if s.put.PutIdle? then s.(put := Computed(Next(s.head, |s.pt|), c)) else s
    case ProducerStep => (
      match s.put
      case PutIdle => s
      case Computed(temp, c) =>
        if temp == s.tail then s.(put := PutIdle)
        else s.(put := Room(temp, c), windowPuts := if s.get.Bumped? then s.windowPuts + 1 else s.windowPuts)
      case Room(temp, c) => s.(pt := s.pt[s.head := c], put := Stored(temp, c))
      case Stored(temp, c) => s.(head := temp, put := PutIdle, accepted := s.accepted + [c])
    )
    case ConsumerStep => (
      match s.get
      case GetIdle => if s.tail == s.head then s else s.(get := Found)
      case Found => s.(get := Read(s.pt[s.tail]))
      case Read(c) => s.(tail := s.tail + 1, get := Bumped, taken := s.taken + [c], windowPuts := 0)
      case Bumped => s.(tail := WrappedTail(s), get := GetIdle)
    )
  }

  function Queued(s: Sys): seq<byte>
    requires s.head < |s.pt| && WrappedTail(s) < |s.pt|
  {
    Queue(s.pt, s.head, WrappedTail(s))
  }

  ghost predicate Consistent(s: Sys) {
    && 2 <= |s.pt| && s.head < |s.pt|
    && (if s.get.Bumped? then s.tail <= |s.pt| else s.tail < |s.pt|)
    // nothing lost, duplicated or reordered
    && s.accepted == s.taken + Queued(s)
    // a producer that passed its full-test still has room
    && (s.put.Computed? || s.put.Room? || s.put.Stored? ==> s.put.temp == Next(s.head, |s.pt|))
    && (s.put.Room? || s.put.Stored? ==> |Queued(s)| < |s.pt| - 1)
    && (s.put.Stored? ==> s.pt[s.head] == s.put.c)
    // a consumer under way has an octet to take
    && (s.get.Found? || s.get.Read? ==> |Queued(s)| > 0)
    && (s.get.Read? ==> s.pt[s.tail] == s.get.c)
  }

  // The one full-test that misfires: the queue is full and tail stands one past the end, waiting to be wrapped.
  predicate Misfires(s: Sys, a: Action)
    requires s.head < |s.pt| && WrappedTail(s) < |s.pt|
  {
    a.ProducerStep? && s.put.Computed? && s.get.Bumped? && s.tail == |s.pt| && |Queued(s)| == |s.pt| - 1
  }

  lemma TestConsistent(s: Sys)
    requires Consistent(s) && s.put.Computed?
    ensures Consistent(Step(s, ProducerStep)) <==> !Misfires(s, ProducerStep)
  {
    var t := Step(s, ProducerStep);
    assert Queued(t) == Queued(s);
  }

  lemma StoreConsistent(s: Sys)
    requires Consistent(s) && s.put.Room?
    ensures Consistent(Step(s, ProducerStep))
  {
    StoreKeepsQueue(s.pt, s.head, WrappedTail(s), s.put.c);
  }

  lemma PublishConsistent(s: Sys)
    requires Consistent(s) && s.put.Stored?
    ensures Consistent(Step(s, ProducerStep))
  {
    var c := s.put.c;
    QueuePut(s.pt, s.head, WrappedTail(s), c);
    assert s.pt[s.head := c] == s.pt;
    assert s.taken + (Queued(s) + [c]) == s.accepted + [c];
  }

  lemma ConsumerConsistent(s: Sys)
    requires Consistent(s)
    ensures Consistent(Step(s, ConsumerStep))
  {
    if s.get.Read? {
      ReadConsistent(s);
    } else {
      assert Queued(Step(s, ConsumerStep)) == Queued(s);
    }
  }

  lemma ReadConsistent(s: Sys)
    requires Consistent(s) && s.get.Read?
    ensures Consistent(Step(s, ConsumerStep))
  {
    var t, c := Step(s, ConsumerStep), s.get.c;
    QueueGet(s.pt, s.head, s.tail);
    assert Queued(s) == [c] + Queued(t);
    hide Queue;
    assert s.taken + ([c] + Queued(t)) == (s.taken + [c]) + Queued(t);
  }

  // Every step from a consistent state is consistent, except exactly the misfiring full-test.
  lemma StepConsistent(s: Sys, a: Action)
    requires Consistent(s)
    ensures Consistent(Step(s, a)) <==> !Misfires(s, a)
  {
    match a
    case StartPut(c) => assert Queued(Step(s, a)) == Queued(s);
    case ConsumerStep => ConsumerConsistent(s);
    case ProducerStep =>
      match s.put
      case PutIdle =>
      case Computed(_, _) => TestConsistent(s);
      case Room(_, _) => StoreConsistent(s);
      case Stored(_, _) => PublishConsistent(s);
  }

  // If the producer goes on after a misfire, the ring reads as empty and all its octets are lost.
  lemma MisfireLoses(s: Sys)
    requires Consistent(s) && Misfires(s, ProducerStep)
    ensures var t := Step(Step(Step(s, ProducerStep), ProducerStep), ProducerStep);
            Queued(t) == [] && t.taken == s.taken && |t.accepted| == |t.taken| + |s.pt|
  {}

  // If the consumer wraps tail and takes one octet more before that, nothing is lost.
  lemma MisfireHeals(s: Sys)
    requires Consistent(s) && Misfires(s, ProducerStep)
    ensures var t := Step(Step(s, ProducerStep), ConsumerStep);
            Consistent(Step(Step(Step(t, ConsumerStep), ConsumerStep), ConsumerStep))
  {
    var t := Step(Step(s, ProducerStep), ConsumerStep);
    var u := Step(Step(Step(t, ConsumerStep), ConsumerStep), ConsumerStep);
    QueueGet(t.pt, t.head, t.tail);
    assert Queued(t) == Queued(s) == [t.pt[t.tail]] + Queued(u);
    assert s.taken + ([t.pt[t.tail]] + Queued(u)) == u.taken + Queued(u);
  }

  // The slot at head is outside the queue.
  lemma StoreKeepsQueue(pt: seq<byte>, head: nat, tail: nat, c: byte)
    requires head < |pt| && tail < |pt|
    ensures Queue(pt[head := c], head, tail) == Queue(pt, head, tail)
  {}

  // Runs.

  ghost predicate Fits(s: Sys) {
    s.head < |s.pt| && s.tail <= |s.pt| && (s.get.Found? ==> s.tail < |s.pt|) && WrappedTail(s) < |s.pt|
  }

  // Each action leads from one state to the next. Nothing is said of what follows a state whose indices are out of
  // range; that there is none is proved.
  ghost predicate IsRun(trace: seq<Sys>, actions: seq<Action>) {
    && |trace| == |actions| + 1
    && forall i {:trigger actions[i]} | 0 <= i < |actions| && Fits(trace[i]) ::
         trace[i + 1] == Step(trace[i], actions[i])
  }

  // At most one Put passes its full-test while tail is incremented but not wrapped.
  ghost predicate OnePutPerWindow(trace: seq<Sys>) {
    forall i | 0 <= i < |trace| :: trace[i].get.Bumped? ==> trace[i].windowPuts <= 1
  }

  // What the window counter says about the fill level.
  ghost predicate WindowRoom(s: Sys) {
    && s.head < |s.pt| && WrappedTail(s) < |s.pt|
    && (s.get.Bumped? ==>
          |Queued(s)| + (if s.put.Room? || s.put.Stored? then 1 else 0) <= |s.pt| - 2 + s.windowPuts)
  }

  lemma WindowRoomStep(s: Sys, a: Action)
    requires Consistent(s) && WindowRoom(s) && Consistent(Step(s, a))
    ensures WindowRoom(Step(s, a))
  {
    var t := Step(s, a);
    match a
    case StartPut(c) => assert Queued(t) == Queued(s);
    case ConsumerStep =>
      if s.get.Read? {
        QueueGet(s.pt, s.head, s.tail);
        assert |Queued(s)| == |Queued(t)| + 1;
      } else {
        assert Queued(t) == Queued(s);
      }
    case ProducerStep =>
      if s.put.Stored? {
        QueuePut(s.pt, s.head, WrappedTail(s), s.put.c);
        assert s.pt[s.head := s.put.c] == s.pt;
        assert |Queued(t)| == |Queued(s)| + 1;
      } else if s.put.Room? {
        StoreKeepsQueue(s.pt, s.head, WrappedTail(s), s.put.c);
      } else {
        assert Queued(t) == Queued(s);
      }
  }

  // With at most one Put per window, every interleaving keeps the indices in range and the ring a queue of capacity
  // size - 1: what was accepted is what was taken followed by what is queued.
  lemma {:induction false} EveryInterleaving(trace: seq<Sys>, actions: seq<Action>)
    requires IsRun(trace, actions) && OnePutPerWindow(trace)
    requires |trace[0].pt| >= 2 && trace[0] == Start(trace[0].pt)
    ensures forall i | 0 <= i < |trace| :: Fits(trace[i]) && Consistent(trace[i]) && WindowRoom(trace[i])
    decreases |actions|
  {
    if |actions| == 0 {
      assert Queued(trace[0]) == [];
    } else {
      var n := |actions| - 1;
      var before := trace[..n + 1];
      EveryInterleaving(before, actions[..n]);
      var s, t := before[n], trace[n + 1];
      assert s == trace[n] && Consistent(s) && WindowRoom(s) && t == Step(s, actions[n]);
      assert t.get.Bumped? ==> t.windowPuts <= 1;
      assert !Misfires(s, actions[n]);
      StepConsistent(s, actions[n]);
      WindowRoomStep(s, actions[n]);
      forall i | 0 <= i < |trace| ensures Fits(trace[i]) && Consistent(trace[i]) && WindowRoom(trace[i]) {
        if i <= n { assert trace[i] == before[i]; }
      }
    }
  }

  // The consumer gives up only on an empty queue, and the producer is refused only on a full one.
  lemma RefusalsAreRight(s: Sys)
    requires Consistent(s)
    ensures s.get.GetIdle? ==> (Step(s, ConsumerStep).get.GetIdle? <==> Queued(s) == [])
    ensures s.put.Computed? && Step(s, ProducerStep).put.PutIdle? ==> |Queued(s)| == |s.pt| - 1
  {}

  // Uninterrupted, the steps are the calls of ringbuf.c.

  lemma UninterruptedPut(s: Sys, c: byte)
    requires Consistent(s) && s.put.PutIdle? && !s.get.Bumped?
    ensures var t := Step(Step(Step(Step(s, StartPut(c)), ProducerStep), ProducerStep), ProducerStep);
            if |Queued(s)| < |s.pt| - 1
            then t == s.(pt := s.pt[s.head := c], head := Next(s.head, |s.pt|), accepted := s.accepted + [c])
            else t == s
  {}

  // A call that falls into a window counts as one in it, if it finds room.
  lemma PutInWindow(s: Sys, c: byte)
    requires Consistent(s) && s.put.PutIdle? && s.get.Bumped?
    ensures var t := Step(Step(Step(Step(s, StartPut(c)), ProducerStep), ProducerStep), ProducerStep);
            if Next(s.head, |s.pt|) != s.tail
            then t == s.(pt := s.pt[s.head := c], head := Next(s.head, |s.pt|), accepted := s.accepted + [c],
                         windowPuts := s.windowPuts + 1)
            else t == s
  {}

  lemma UninterruptedGet(s: Sys)
    requires Consistent(s) && s.get.GetIdle?
    ensures var t := Step(Step(Step(Step(s, ConsumerStep), ConsumerStep), ConsumerStep), ConsumerStep);
            if Queued(s) != []
            then t == s.(tail := Next(s.tail, |s.pt|), taken := s.taken + [Queued(s)[0]], windowPuts := 0)
            else t == s
  {}

  // Two Puts in one window lose octets: a ring of two slots holding octet a takes b and then c while tail stands at 2,
  // and once tail is wrapped both of them are gone.
  lemma TwoPutsInWindowLose(a: byte, b: byte, c: byte)
    ensures var s := Sys([0, a], 0, 2, PutIdle, Bumped, [a], [a], 0);
            var s1 := Step(Step(Step(Step(s, StartPut(b)), ProducerStep), ProducerStep), ProducerStep);
            var s2 := Step(Step(Step(Step(s1, StartPut(c)), ProducerStep), ProducerStep), ProducerStep);
            var t := Step(s2, ConsumerStep);
            Consistent(s) && t.accepted == [a, b, c] && t.taken == [a] && Queued(t) == []
  {}
}
