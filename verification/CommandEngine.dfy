/** The retrying command engine of sparser.c: a chain of commands in progress and a queue of commands that wait. */
module CommandEngine {
  datatype Phase = Send | Resend | Wait | Delay | GotoError | Error | Ok

  datatype Option<T> = None | Some(value: T)

  // A command: which of its callbacks there are, how often it is sent again, and the command chained to it. Values of a
  // datatype are finite, so chains have an end.
  datatype Cmd = Cmd(id: nat, hasSend: bool, hasRecv: bool, hasEnd: bool, retryNum: nat, next: Option<Cmd>)

  // What the surroundings do in one turn of the engine: whether the timer has run out, what a receive callback
  // answers, and whether an end callback answers nonzero.
  datatype Reply = GoDelay | GoResend | Nothing
  datatype Input = Input(timedOut: bool, reply: Reply, ended: bool)

  // The engine. retry is the count in the copy of the current command; sends counts its transmissions.
  datatype State = State(phase: Phase, cmd: Cmd, retry: nat, sends: nat, queue: seq<Cmd>)

  // Ampm_CmdTask_IsIdle
  predicate IsIdle(p: Phase) { p == Error || p == Ok }

  function Load(s: State, c: Cmd): State { s.(phase := Send, cmd := c, retry := c.retryNum, sends := 0) }

  // One turn of Ampm_Cmd_Task.
  function Step(s: State, i: Input): State {
    match s.phase
    case Send =>
      if !i.timedOut then s
      else if s.cmd.hasSend then s.(phase := Wait, sends := s.sends + 1)
      else s.(phase := Delay)
    case Resend =>
      if s.retry > 0 then s.(phase := Send, retry := s.retry - 1) else s.(phase := GotoError)
    case GotoError =>
      if s.cmd.hasEnd && !i.ended then s else s.(phase := Error)
    case Wait =>
      if !s.cmd.hasRecv then s.(phase := Delay)
      else if i.timedOut then s.(phase := Resend)
      else (match i.reply
            case GoDelay => s.(phase := Delay)
            case GoResend => s.(phase := Resend)
            case Nothing => s)
    case Delay =>
      if !i.timedOut || (s.cmd.hasEnd && !i.ended) then s else s.(phase := Ok)
    case Error =>
      if s.cmd.next.Some? then Load(s, s.cmd.next.value) else s.(queue := [])
    case Ok =>
      if s.cmd.next.Some? then Load(s, s.cmd.next.value)
      else if |s.queue| == 0 then s
      else Load(s.(queue := s.queue[1..]), s.queue[0])
  }

  function Run(s: State, inputs: seq<Input>): State
    decreases |inputs|
  {
    if |inputs| == 0 then s else Run(Step(s, inputs[0]), inputs[1..])
  }

  // The fields of the engine, which the source changes in place.
  class Engine {
    var phase: Phase
    var cmdSend: Cmd
    var retryNum: nat
    var cmdList: seq<Cmd>
    ghost var sends: nat

    ghost function S(): State
      reads this
    {
      State(phase, cmdSend, retryNum, sends, cmdList)
    }

    // Ampm_SendCmd
    method SendCmd(cmd: Cmd) returns (taken: bool)
      modifies this
      ensures taken == IsIdle(old(phase))
      ensures S() == if taken then Load(old(S()), cmd) else old(S())
      ensures taken ==> Fresh(S()) && cmdSend == cmd && cmdList == old(cmdList)
    {
      taken := IsIdle(phase);
      if taken { SendCmdNow(cmd); }
    }

    // Ampm_SendCmdNow
    method SendCmdNow(cmd: Cmd)
      modifies this
      ensures S() == Load(old(S()), cmd)
    {
      cmdSend := cmd;
      retryNum := cmd.retryNum;
      sends := 0;
      phase := Send;
    }

    // Ampm_Cmd_Task, with the answers of its callbacks and its timer.
    method Task(timedOut: bool, reply: Reply, ended: bool)
      modifies this
      ensures S() == Step(old(S()), Input(timedOut, reply, ended))
    {
      match phase
      case Send =>
        if timedOut {
          if cmdSend.hasSend {
            sends := sends + 1;
            phase := Wait;
          } else {
            phase := Delay;
          }
        }
      case Resend =>
        if retryNum > 0 {
          retryNum := retryNum - 1;
          phase := Send;
        } else {
          phase := GotoError;
        }
      case GotoError =>
        if cmdSend.hasEnd {
          if ended { phase := Error; }
        } else {
          phase := Error;
        }
      case Wait =>
        if !cmdSend.hasRecv {
          phase := Delay;
        } else if timedOut {
          phase := Resend;
        } else if reply == GoDelay {
          phase := Delay;
        } else if reply == GoResend {
          phase := Resend;
        }
      case Delay =>
        if timedOut {
          if cmdSend.hasEnd {
            if ended { phase := Ok; }
          } else {
            phase := Ok;
          }
        }
      case Error => TakeNext();
      case Ok => TakeNext();
    }

    // The turn of an engine at rest.
    method TakeNext()
      requires IsIdle(phase)
      modifies this
      ensures forall i :: S() == Step(old(S()), i)
    {
      if cmdSend.next.Some? {
        SendCmdNow(cmdSend.next.value);
        return;
      }
      if |cmdList| > 0 {
        if phase != Error {
          var cmd := cmdList[0];
          cmdList := cmdList[1..];
          SendCmdNow(cmd);
        } else {
          cmdList := [];
        }
      }
    }
  }

  // Sending. Every transmission but the first uses up one of the retries.

  ghost predicate Counted(s: State) {
    match s.phase
    case Send => s.sends + s.retry == s.cmd.retryNum || (!s.cmd.hasSend && s.sends == 0)
    case Wait => s.cmd.hasSend && s.sends + s.retry == s.cmd.retryNum + 1
    case Resend => s.cmd.hasSend && s.sends + s.retry == s.cmd.retryNum + 1
    case Delay => s.sends <= s.cmd.retryNum + 1
    case GotoError => s.sends <= s.cmd.retryNum + 1
    case Error => s.sends <= s.cmd.retryNum + 1
    case Ok => s.sends <= s.cmd.retryNum + 1
  }

  lemma StepCounted(s: State, i: Input)
    requires Counted(s)
    ensures Counted(Step(s, i))
  {}

  // In every run, no command is sent more than once and once again for each of its retries.
  lemma {:induction false} SendsBounded(s: State, inputs: seq<Input>)
    requires Counted(s)
    ensures Counted(Run(s, inputs)) && Run(s, inputs).sends <= Run(s, inputs).cmd.retryNum + 1
    decreases |inputs|
  {
    if |inputs| == 0 {
    } else {
      StepCounted(s, inputs[0]);
      SendsBounded(Step(s, inputs[0]), inputs[1..]);
    }
  }

  // A command that fails has been sent exactly that often.
  lemma ErrorAfterAllSends(s: State, i: Input)
    requires Counted(s) && s.phase == Resend && Step(s, i).phase == GotoError
    ensures s.sends == s.cmd.retryNum + 1
  {}

  // How a command ends.

  // The turn brings the answer, before the timer of the transmission has run out.
  predicate Answers(s: State, i: Input) { s.phase == Wait && s.cmd.hasRecv && !i.timedOut && i.reply == GoDelay }

  // The transmission is given up in the turn, for the time or because the callback asks for another one.
  predicate GivesUp(s: State, i: Input) {
    s.phase == Wait && s.cmd.hasRecv && (i.timedOut || i.reply == GoResend)
  }

  // The turns are all those of one command: the engine does not come to rest before the last one.
  predicate Busy(s: State, inputs: seq<Input>)
    decreases |inputs|
  {
    |inputs| == 0 || (!IsIdle(s.phase) && Busy(Step(s, inputs[0]), inputs[1..]))
  }

  predicate Answered(s: State, inputs: seq<Input>)
    decreases |inputs|
  {
    |inputs| > 0 && (Answers(s, inputs[0]) || Answered(Step(s, inputs[0]), inputs[1..]))
  }

  function GivenUp(s: State, inputs: seq<Input>): nat
    decreases |inputs|
  {
    if |inputs| == 0 then 0
    else (if GivesUp(s, inputs[0]) then 1 else 0) + GivenUp(Step(s, inputs[0]), inputs[1..])
  }

  // A command with both callbacks, after so many transmissions given up and perhaps an answer.
  predicate Tallied(s: State, lost: nat, answered: bool) {
    && s.cmd.hasSend && s.cmd.hasRecv && lost <= s.cmd.retryNum + 1
    && (answered <==> s.phase == Delay || s.phase == Ok)
    && s.sends == lost + (if s.phase == Wait || answered then 1 else 0)
    && s.retry + lost == s.cmd.retryNum + (if s.phase in {Resend, GotoError, Error} then 1 else 0)
    && (s.phase == GotoError || s.phase == Error ==> lost == s.cmd.retryNum + 1)
    && (s.phase == Resend ==> lost > 0)
  }

  lemma StepTallied(s: State, i: Input, lost: nat, answered: bool)
    requires Tallied(s, lost, answered) && !IsIdle(s.phase)
    ensures Tallied(Step(s, i), lost + (if GivesUp(s, i) then 1 else 0), answered || Answers(s, i))
    ensures Step(s, i).cmd == s.cmd
  {}

  lemma {:induction false} RunTallied(s: State, inputs: seq<Input>, lost: nat, answered: bool)
    requires Tallied(s, lost, answered) && Busy(s, inputs)
    ensures Tallied(Run(s, inputs), lost + GivenUp(s, inputs), answered || Answered(s, inputs))
    ensures Run(s, inputs).cmd == s.cmd
    decreases |inputs|
  {
    if |inputs| == 0 {
    } else {
      hide Tallied, Step;
      StepTallied(s, inputs[0], lost, answered);
      var more := if GivesUp(s, inputs[0]) then 1 else 0;
      RunTallied(Step(s, inputs[0]), inputs[1..], lost + more, answered || Answers(s, inputs[0]));
    }
  }

  // A command just taken up.
  predicate Fresh(s: State) { s.phase == Send && s.retry == s.cmd.retryNum && s.sends == 0 }

  // In every run of a command with both callbacks: once it has come to its end it has ended well exactly if it was
  // answered. Until then every transmission given up has cost one retry, and the one given up when there were none
  // left has ended it. After an answer it is not sent again.
  lemma CommandEnds(s: State, inputs: seq<Input>)
    requires Fresh(s) && s.cmd.hasSend && s.cmd.hasRecv && Busy(s, inputs)
    ensures var t, lost := Run(s, inputs), GivenUp(s, inputs);
            && (IsIdle(t.phase) ==> (t.phase == Ok <==> Answered(s, inputs)))
            && (Answered(s, inputs) ==>
                  lost <= s.cmd.retryNum && t.sends == lost + 1 && t.retry == s.cmd.retryNum - lost)
            && (t.phase == Error ==> lost == s.cmd.retryNum + 1 && t.sends == lost && t.retry == 0)
            && (t.phase == Send || t.phase == Wait ==>
                  t.retry == s.cmd.retryNum - lost && t.sends == if t.phase == Wait then lost + 1 else lost)
  {
    RunTallied(s, inputs, 0, false);
  }

  // A command without one of them needs no answer, and does not fail.
  lemma {:induction false} UnansweredEnds(s: State, inputs: seq<Input>)
    requires Smooth(s) && Busy(s, inputs)
    ensures Smooth(Run(s, inputs)) && (IsIdle(Run(s, inputs).phase) ==> Run(s, inputs).phase == Ok)
    decreases |inputs|
  {
    if |inputs| == 0 {
    } else {
      UnansweredEnds(Step(s, inputs[0]), inputs[1..]);
    }
  }

  predicate Smooth(s: State) {
    && !(s.cmd.hasSend && s.cmd.hasRecv)
    && (s.phase in {Send, Delay, Ok} || (s.phase == Wait && !s.cmd.hasRecv))
  }

  // A turn sends only when the delay before has run out. A command with an end callback comes to its end only in a turn
  // in which that agrees, and well only when the delay after the answer has run out.
  lemma TurnsWait(s: State, i: Input)
    requires !IsIdle(s.phase)
    ensures Step(s, i).sends > s.sends <==> s.phase == Send && s.cmd.hasSend && i.timedOut
    ensures IsIdle(Step(s, i).phase) <==>
              (s.phase == GotoError || (s.phase == Delay && i.timedOut)) && (s.cmd.hasEnd ==> i.ended)
  {}

  // Order. The commands still to come: the rest of the chain, then the chains of the queue.

  function Chain(c: Cmd): seq<Cmd> {
    [c] + if c.next.Some? then Chain(c.next.value) else []
  }

  function Rest(c: Cmd): seq<Cmd> {
    if c.next.Some? then Chain(c.next.value) else []
  }

  function Plan(queue: seq<Cmd>): seq<Cmd> {
    if |queue| == 0 then [] else Chain(queue[0]) + Plan(queue[1..])
  }

  function Ahead(s: State): seq<Cmd> { Rest(s.cmd) + Plan(s.queue) }

  // The commands that a run takes up, in the order it does.
  function Taken(s: State, inputs: seq<Input>): seq<Cmd>
    decreases |inputs|
  {
    if |inputs| == 0 then []
    else
      var t := Step(s, inputs[0]);
      (if IsIdle(s.phase) && t.phase == Send then [t.cmd] else []) + Taken(t, inputs[1..])
  }

  // Whether the queue is dropped on the way, which happens on a failure at the end of a chain.
  predicate Drops(s: State) { s.phase == Error && s.cmd.next.None? && |s.queue| > 0 }

  predicate Dropped(s: State, inputs: seq<Input>)
    decreases |inputs|
  {
    |inputs| > 0 && (Drops(s) || Dropped(Step(s, inputs[0]), inputs[1..]))
  }

  lemma StepOrder(s: State, i: Input)
    ensures var t := Step(s, i);
            if IsIdle(s.phase) && t.phase == Send then Fresh(t) && Ahead(s) == [t.cmd] + Ahead(t)
            else if Drops(s) then Ahead(t) == []
            else Ahead(t) == Ahead(s)
  {
    if !IsIdle(s.phase) {
      BusyKeeps(s, i);
    } else if s.cmd.next.Some? {
      ChainFirst(s.cmd.next.value, Plan(s.queue));
    } else if |s.queue| > 0 {
      ChainFirst(s.queue[0], Plan(s.queue[1..]));
      assert Rest(s.cmd) == [];
    }
  }

  lemma BusyKeeps(s: State, i: Input)
    requires !IsIdle(s.phase)
    ensures Step(s, i).cmd == s.cmd && Step(s, i).queue == s.queue
  {}

  lemma ChainFirst(c: Cmd, plan: seq<Cmd>)
    ensures Chain(c) + plan == [c] + (Rest(c) + plan)
  {}

  lemma NowAndLater(now: seq<Cmd>, taken: seq<Cmd>, left: seq<Cmd>, ahead: seq<Cmd>)
    requires taken <= ahead
    ensures now + taken <= now + ahead && [] + taken == taken
    ensures taken + left == ahead ==> (now + taken) + left == now + ahead
  {}

  // Commands are taken up in order, none skipped; what is not taken up is still ahead, or was dropped after a failure.
  lemma {:induction false} RunOrder(s: State, inputs: seq<Input>)
    ensures Taken(s, inputs) <= Ahead(s)
    ensures if Dropped(s, inputs) then Ahead(Run(s, inputs)) == []
            else Taken(s, inputs) + Ahead(Run(s, inputs)) == Ahead(s)
    decreases |inputs|
  {
    if |inputs| == 0 {
    } else {
      hide Step, Ahead;
      var t, rest := Step(s, inputs[0]), inputs[1..];
      StepOrder(s, inputs[0]);
      RunOrder(t, rest);
      var now := if IsIdle(s.phase) && t.phase == Send then [t.cmd] else [];
      NowAndLater(now, Taken(t, rest), Ahead(Run(t, rest)), Ahead(t));
    }
  }

  // Termination.

  // The turns that are left in the current command.
  function Rank(s: State): nat {
    match s.phase
    case Send => 3 * s.retry + 5
    case Wait => 3 * s.retry + 4
    case Resend => 3 * s.retry + 3
    case Delay => 1
    case GotoError => 1
    case Error => 0
    case Ok => 0
  }

  function ChainWork(c: Cmd): nat {
    3 * c.retryNum + 6 + if c.next.Some? then ChainWork(c.next.value) else 0
  }

  function QueueWork(queue: seq<Cmd>): nat {
    if |queue| == 0 then 0 else ChainWork(queue[0]) + QueueWork(queue[1..])
  }

  function Work(s: State): nat {
    Rank(s) + (if s.cmd.next.Some? then ChainWork(s.cmd.next.value) else 0) + QueueWork(s.queue)
  }

  // Nothing left to do.
  predicate Quiet(s: State) { IsIdle(s.phase) && s.cmd.next.None? && |s.queue| == 0 }

  // A turn in which the timer has run out and end callbacks answer nonzero.
  predicate Prompt(i: Input) { i.timedOut && i.ended }

  // Every turn that changes anything lessens the work, and a prompt turn changes something unless there is none.
  lemma StepWork(s: State, i: Input)
    ensures Step(s, i) == s || Work(Step(s, i)) < Work(s)
    ensures Prompt(i) && !Quiet(s) ==> Step(s, i) != s
    ensures Quiet(s) ==> Step(s, i) == s
    ensures Quiet(s) <==> Work(s) == 0
  {
    if !IsIdle(s.phase) {
      BusyKeeps(s, i);
      BusyRank(s, i);
    }
  }

  lemma BusyRank(s: State, i: Input)
    requires !IsIdle(s.phase)
    ensures Step(s, i) == s || Rank(Step(s, i)) < Rank(s)
    ensures Prompt(i) ==> Step(s, i) != s
  {}

  function Prompts(inputs: seq<Input>): nat {
    if |inputs| == 0 then 0 else (if Prompt(inputs[0]) then 1 else 0) + Prompts(inputs[1..])
  }

  // After as many prompt turns as there is work, among whatever others, the engine is at rest.
  lemma {:induction false} RunEnds(s: State, inputs: seq<Input>)
    requires Prompts(inputs) >= Work(s)
    ensures Quiet(Run(s, inputs))
    decreases |inputs|
  {
    if |inputs| == 0 {
      StepWork(s, Input(true, Nothing, true));
    } else {
      StepWork(s, inputs[0]);
      RunEnds(Step(s, inputs[0]), inputs[1..]);
    }
  }
}
