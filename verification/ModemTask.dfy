/** The part of the modem's main task (ampm_gsm_main_task.c) that brings the modem back to command mode, driving the
 * command engine. */
module ModemTask {
  import opened CommandEngine

  datatype Main = GotoCmdMode | Check | WaitCmdMode | Idle | Init

  // Ampm_CmdTask_SendCmd: the escape sequence is not repeated by the engine, the AT command once.
  const ESCAPE := Cmd(0, true, true, false, 0, None)
  const AT := Cmd(1, true, true, false, 1, None)
  const TRIES: nat := 3

  // plus and ats count the commands issued.
  datatype Modem = Modem(main: Main, tryCnt: nat, engine: State, plus: nat, ats: nat)

  // The switch of the main task. The check phase falls through to the wait phase.

  function MainSwitch(m: Modem): Modem {
    match m.main
    case GotoCmdMode => m.(tryCnt := 0, main := Check)
    case Check => WaitPart(CheckPart(m))
    case WaitCmdMode => WaitPart(m)
    case Idle => m
    case Init => m
  }

  function CheckPart(m: Modem): Modem {
    if m.tryCnt > 0 && m.engine.phase == Ok then m.(tryCnt := 0, main := Idle)
    else if IsIdle(m.engine.phase) then m.(engine := Load(m.engine, ESCAPE), plus := m.plus + 1, main := WaitCmdMode)
    else m
  }

  function WaitPart(m: Modem): Modem {
    if !IsIdle(m.engine.phase) then m
    else if m.engine.phase == Ok then m.(main := Idle)
    else
      m.(engine := Load(m.engine, AT), ats := m.ats + 1, tryCnt := m.tryCnt + 1,
         main := if m.tryCnt < TRIES then Check else Init)
  }

  // One iteration of the main loop: the switch, then a turn of the command engine.
  function Iterate(m: Modem, i: Input): Modem {
    var m1 := MainSwitch(m);
    m1.(engine := Step(m1.engine, i))
  }

  predicate Done(m: Modem) { m.main == Idle || m.main == Init }

  // The main loop, up to the end of the escape.
  function Loop(m: Modem, inputs: seq<Input>): Modem
    decreases |inputs|
  {
    if Done(m) || |inputs| == 0 then m else Loop(Iterate(m, inputs[0]), inputs[1..])
  }

  class Task {
    var main: Main
    var tryCnt: nat
    const engine: Engine
    ghost var plus: nat
    ghost var ats: nat

    constructor (engine: Engine)
      ensures this.engine == engine && main == GotoCmdMode && plus == ats == 0
    {
      this.engine := engine;
      main, tryCnt := GotoCmdMode, 0;
      plus, ats := 0, 0;
    }

    ghost function M(): Modem
      reads this, engine
    {
      Modem(main, tryCnt, engine.S(), plus, ats)
    }

    // One iteration of AMPM_GSM_MainTask in the three phases of the escape.
    method Iteration(timedOut: bool, reply: Reply, ended: bool)
      modifies this, engine
      ensures M() == Iterate(old(M()), Input(timedOut, reply, ended))
    {
      if main == GotoCmdMode {
        tryCnt := 0;
        main := Check;
      } else if main == Check {
        if tryCnt > 0 && engine.phase == Ok {
          tryCnt := 0;
          main := Idle;
        } else {
          var sent := engine.SendCmd(ESCAPE);
          if sent {
            plus := plus + 1;
            main := WaitCmdMode;
          }
        }
        WaitGotoCmdMode();
      } else if main == WaitCmdMode {
        WaitGotoCmdMode();
      }
      engine.Task(timedOut, reply, ended);
    }

    method WaitGotoCmdMode()
      modifies this, engine
      ensures M() == WaitPart(old(M()))
    {
      if IsIdle(engine.phase) {
        if engine.phase == Ok {
          main := Idle;
        } else {
          var sent := engine.SendCmd(AT);
          ats := ats + 1;
          main := if tryCnt < TRIES then Check else Init;
          tryCnt := tryCnt + 1;
        }
      }
    }
  }

  // What is so in every run from the start of the escape.
  predicate Paced(m: Modem) {
    match m.main
    case GotoCmdMode => m.plus == 0 && m.ats == 0
    case Check => m.tryCnt <= TRIES && m.plus == m.tryCnt && m.ats == m.tryCnt
    case WaitCmdMode => m.tryCnt <= TRIES && m.plus == m.tryCnt + 1 && m.ats == m.tryCnt
    case Idle => 1 <= m.plus <= TRIES + 1 && m.ats <= TRIES
    case Init => m.plus == TRIES + 1 && m.ats == TRIES + 1
  }

  lemma IteratePaced(m: Modem, i: Input)
    requires Paced(m)
    ensures Paced(Iterate(m, i))
  {}

  // At most four escapes and four AT commands are issued, and on the way to the idle phase at most three of these.
  lemma {:induction false} FewCommands(m: Modem, inputs: seq<Input>)
    requires m.main == GotoCmdMode && m.plus == m.ats == 0
    ensures var n := Loop(m, inputs);
            && n.plus <= 4 && n.ats <= 4
            && (n.main == Idle ==> n.plus >= 1 && n.ats <= 3)
            && (n.main == Init ==> n.plus == n.ats == 4)
  {
    LoopPaced(m, inputs);
  }

  lemma {:induction false} LoopPaced(m: Modem, inputs: seq<Input>)
    requires Paced(m)
    ensures Paced(Loop(m, inputs))
    decreases |inputs|
  {
    if !Done(m) && |inputs| > 0 {
      IteratePaced(m, inputs[0]);
      LoopPaced(Iterate(m, inputs[0]), inputs[1..]);
    }
  }

  // An escape that fails has been sent once, an AT command twice.
  lemma FailedOnes(s: State, inputs: seq<Input>)
    requires Fresh(s) && Busy(s, inputs) && Run(s, inputs).phase == Error
    ensures s.cmd == ESCAPE ==> Run(s, inputs).sends == 1
    ensures s.cmd == AT ==> Run(s, inputs).sends == 2
  {
    if s.cmd == ESCAPE || s.cmd == AT { CommandEnds(s, inputs); }
  }

  // What an answer does.

  // The engine is at a command of the escape.
  predicate Asking(m: Modem) { m.main == WaitCmdMode || (m.main == Check && m.tryCnt > 0) }

  // The turn of the engine in this iteration brings the answer to one.
  predicate Hears(m: Modem, i: Input) { Asking(MainSwitch(m)) && Answers(MainSwitch(m).engine, i) }

  predicate Heard(m: Modem, inputs: seq<Input>)
    decreases |inputs|
  {
    |inputs| > 0 && !Done(m) && (Hears(m, inputs[0]) || Heard(Iterate(m, inputs[0]), inputs[1..]))
  }

  // The modem at the first answer.
  function AtAnswer(m: Modem, inputs: seq<Input>): Modem
    requires Heard(m, inputs)
    decreases |inputs|
  {
    if Hears(m, inputs[0]) then MainSwitch(m) else AtAnswer(Iterate(m, inputs[0]), inputs[1..])
  }

  predicate InHand(m: Modem, heard: bool) {
    match m.main
    case GotoCmdMode => !heard
    case Check => if m.tryCnt == 0 then !heard else m.engine.cmd == AT && (m.engine.phase in {Delay, Ok} <==> heard)
    case WaitCmdMode => m.engine.cmd == ESCAPE && (m.engine.phase in {Delay, Ok} <==> heard)
    case Idle => heard
    case Init => !heard
  }

  lemma IterateInHand(m: Modem, i: Input, heard: bool)
    requires InHand(m, heard) && !Done(m)
    ensures InHand(Iterate(m, i), heard || Hears(m, i))
    ensures heard ==> Iterate(m, i).plus == m.plus && Iterate(m, i).ats == m.ats
    ensures Hears(m, i) ==> Iterate(m, i).plus == MainSwitch(m).plus && Iterate(m, i).ats == MainSwitch(m).ats
    ensures Hears(m, i) ==> InHand(MainSwitch(m), heard)
  {}

  lemma {:induction false} LoopInHand(m: Modem, inputs: seq<Input>, heard: bool)
    requires InHand(m, heard)
    ensures InHand(Loop(m, inputs), heard || Heard(m, inputs))
    ensures heard ==> Loop(m, inputs).plus == m.plus && Loop(m, inputs).ats == m.ats
    decreases |inputs|
  {
    if !Done(m) && |inputs| > 0 {
      hide Iterate, InHand, Hears;
      IterateInHand(m, inputs[0], heard);
      LoopInHand(Iterate(m, inputs[0]), inputs[1..], heard || Hears(m, inputs[0]));
    }
  }

  // When the escape is over the modem is idle exactly if one of its commands was answered, and after that answer no
  // more are issued: an answer to the first escape leaves it at one escape and no AT command, one to an AT command at
  // as many escapes as AT commands.
  lemma {:induction false} IdleIffAnswered(m: Modem, inputs: seq<Input>)
    requires m.main == GotoCmdMode && m.plus == m.ats == 0
    ensures var n := Loop(m, inputs);
            && (Done(n) ==> (n.main == Idle <==> Heard(m, inputs)))
            && (Heard(m, inputs) ==>
                  var a := AtAnswer(m, inputs);
                  && n.plus == a.plus && n.ats == a.ats
                  && if a.main == WaitCmdMode then a.engine.cmd == ESCAPE && a.plus == a.ats + 1
                     else a.engine.cmd == AT && a.plus == a.ats > 0)
  {
    LoopInHand(m, inputs, false);
    if Heard(m, inputs) { AnswerStops(m, inputs); }
  }

  lemma {:induction false} AnswerStops(m: Modem, inputs: seq<Input>)
    requires Paced(m) && InHand(m, false) && Heard(m, inputs)
    ensures var n, a := Loop(m, inputs), AtAnswer(m, inputs);
            && n.plus == a.plus && n.ats == a.ats
            && if a.main == WaitCmdMode then a.engine.cmd == ESCAPE && a.plus == a.ats + 1
               else a.engine.cmd == AT && a.plus == a.ats > 0
    decreases |inputs|
  {
    var next := Iterate(m, inputs[0]);
    IterateInHand(m, inputs[0], false);
    IteratePaced(m, inputs[0]);
    if Hears(m, inputs[0]) {
      SwitchPaced(m);
      hide Iterate, InHand, Heard, Hears;
      LoopInHand(next, inputs[1..], true);
    } else {
      hide Iterate, InHand, Hears;
      AnswerStops(next, inputs[1..]);
    }
  }

  // The check phase falls through to the wait phase, which then has nothing to do.
  lemma FallsThrough(m: Modem)
    requires m.main == Check
    ensures MainSwitch(m) == CheckPart(m)
  {}

  // An AT command that was answered ends the escape at once, and the count of tries starts over.
  lemma AnsweredAt(m: Modem)
    requires m.main == Check && m.tryCnt > 0 && m.engine.phase == Ok
    ensures MainSwitch(m) == m.(tryCnt := 0, main := Idle)
  {}

  // There is a run that needs one escape and no AT command.
  lemma FirstEscape(m: Modem) returns (inputs: seq<Input>)
    requires m.main == GotoCmdMode && m.plus == m.ats == 0 && Quiet(m.engine)
    ensures Loop(m, inputs).main == Idle && Loop(m, inputs).plus == 1 && Loop(m, inputs).ats == 0
  {
    var late, answer := Input(true, Nothing, true), Input(false, GoDelay, true);
    var m2 := FirstAsked(m, late);
    var m5 := ThenIdle(m2, answer, late);
    hide Iterate;
    inputs := LoopFirst(Iterate(Iterate(m2, answer), late), late, []);
    inputs := LoopFirst(Iterate(m2, answer), late, inputs);
    inputs := LoopFirst(m2, answer, inputs);
    inputs := LoopFirst(Iterate(m, late), late, inputs);
    inputs := LoopFirst(m, late, inputs);
  }

  lemma FirstAsked(m: Modem, late: Input) returns (m2: Modem)
    requires m.main == GotoCmdMode && m.plus == m.ats == 0 && Quiet(m.engine) && late.timedOut
    ensures m2 == Iterate(Iterate(m, late), late) && !Done(m) && !Done(Iterate(m, late)) && !Done(m2)
    ensures m2.main == WaitCmdMode && m2.engine.cmd == ESCAPE && m2.engine.phase == Wait && m2.plus == 1 && m2.ats == 0
  {
    m2 := Iterate(Iterate(m, late), late);
  }

  lemma ThenIdle(m: Modem, answer: Input, late: Input) returns (m5: Modem)
    requires m.main == WaitCmdMode && m.engine.cmd == ESCAPE && m.engine.phase == Wait && late.timedOut
    requires !answer.timedOut && answer.reply == GoDelay
    ensures m5 == Iterate(Iterate(Iterate(m, answer), late), late)
    ensures !Done(Iterate(m, answer)) && !Done(Iterate(Iterate(m, answer), late))
    ensures m5.main == Idle && m5.plus == m.plus && m5.ats == m.ats
  {
    m5 := Iterate(Iterate(Iterate(m, answer), late), late);
  }

  lemma LoopFirst(m: Modem, i: Input, rest: seq<Input>) returns (inputs: seq<Input>)
    requires !Done(m)
    ensures Loop(m, inputs) == Loop(Iterate(m, i), rest)
  {
    inputs := [i] + rest;
  }

  lemma SwitchPaced(m: Modem)
    requires Paced(m)
    ensures Paced(MainSwitch(m))
  {}

  // The iterations that are left, besides those without progress.

  function Stage(m: Modem): nat {
    match m.main
    case GotoCmdMode => 9
    case Check => if m.tryCnt <= TRIES then 2 * (TRIES - m.tryCnt) + 2 else 0
    case WaitCmdMode => if m.tryCnt <= TRIES then 2 * (TRIES - m.tryCnt) + 1 else 0
    case Idle => 0
    case Init => 0
  }

  function Measure(m: Modem): nat {
    10 * Stage(m) + Work(m.engine)
  }

  lemma SwitchWork(m: Modem)
    requires Paced(m) && !Done(m)
    ensures Measure(MainSwitch(m)) <= Measure(m)
    ensures MainSwitch(m) == m || Measure(MainSwitch(m)) < Measure(m)
    ensures MainSwitch(m) == m ==> !IsIdle(m.engine.phase)
  {}

  lemma IterateWork(m: Modem, i: Input)
    requires Paced(m) && !Done(m)
    ensures Measure(Iterate(m, i)) <= Measure(m)
    ensures Prompt(i) ==> Measure(Iterate(m, i)) < Measure(m)
  {
    SwitchWork(m);
    StepWork(MainSwitch(m).engine, i);
  }

  // After a number of prompt iterations that the engine's work at the start bounds, among whatever others, the escape
  // is over.
  lemma {:induction false} LoopEnds(m: Modem, inputs: seq<Input>)
    requires Paced(m) && Prompts(inputs) >= Measure(m)
    ensures Done(Loop(m, inputs))
    decreases |inputs|
  {
    if !Done(m) {
      if |inputs| == 0 {
        SwitchWork(m);
      } else {
        IteratePaced(m, inputs[0]);
        IterateWork(m, inputs[0]);
        LoopEnds(Iterate(m, inputs[0]), inputs[1..]);
      }
    }
  }

  // From an engine at rest, ninety prompt iterations are enough.
  lemma NinetyAreEnough(m: Modem, inputs: seq<Input>)
    requires m.main == GotoCmdMode && m.plus == m.ats == 0 && Quiet(m.engine) && Prompts(inputs) >= 90
    ensures Done(Loop(m, inputs))
  {
    StepWork(m.engine, Input(true, Nothing, true));
    LoopEnds(m, inputs);
  }

  // When every command times out, no command ends well.
  predicate Failing(m: Modem) {
    match m.main
    case GotoCmdMode => Quiet(m.engine)
    case Check => (m.tryCnt == 0 && Quiet(m.engine)) || (m.tryCnt > 0 && Unanswered(m.engine))
    case WaitCmdMode => Unanswered(m.engine)
    case Idle => false
    case Init => true
  }

  predicate Unanswered(s: State) {
    (s.cmd == ESCAPE || s.cmd == AT) && s.phase != Ok && s.phase != Delay && |s.queue| == 0
  }

  lemma {:induction false} AllFail(m: Modem, inputs: seq<Input>)
    requires Paced(m) && Failing(m) && forall k | 0 <= k < |inputs| :: inputs[k].timedOut
    ensures Failing(Loop(m, inputs))
    decreases |inputs|
  {
    if !Done(m) && |inputs| > 0 {
      IteratePaced(m, inputs[0]);
      AllFail(Iterate(m, inputs[0]), inputs[1..]);
    }
  }

  // So there are runs that need all four of both, and end in a new start of the modem.
  lemma FourthAt(m: Modem) returns (inputs: seq<Input>)
    requires m.main == GotoCmdMode && m.plus == m.ats == 0 && Quiet(m.engine)
    ensures Loop(m, inputs).main == Init && Loop(m, inputs).plus == Loop(m, inputs).ats == 4
  {
    inputs := Timeouts(90);
    NinetyAreEnough(m, inputs);
    AllFail(m, inputs);
    FewCommands(m, inputs);
  }

  lemma {:induction false} Timeouts(n: nat) returns (inputs: seq<Input>)
    ensures |inputs| == n && Prompts(inputs) == n && forall k | 0 <= k < n :: inputs[k].timedOut
  {
    if n == 0 {
      inputs := [];
    } else {
      var rest := Timeouts(n - 1);
      inputs := [Input(true, Nothing, true)] + rest;
      assert inputs[1..] == rest;
    }
  }
}
