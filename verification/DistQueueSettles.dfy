/** What happens when the output queue is left to itself: every run comes to an
  * end, and at the end everything is sent and nobody is suspended. */
module DistQueueSettles {
  import opened Sequences
  import opened DistQueue
  import opened DistQueueProofs
  import opened DistQueueRuns

  /** The steps that finish what is already under way. Left out are new sends,
    * kills, closes, set-ups and waits, a port that turns busy by itself (inside
    * a send it may), and a command preempted before it did anything. */
  predicate Carries(s: State, st: Step) {
    match st
    case SendBegin(_, _, _, _) => false
    case CmdDecide(preempt) => !preempt
    case PortBusyOn => false
    case PortBusyOff => s.portBusy
    case Kill => false
    case DownAnnounce => false
    case Connect(_) => false
    case WaitExit(_) => false
    case _ => true
  }

  predicate Settling(s: State, st: Step) {
    Enabled(s, st) && Carries(s, st)
  }

  predicate Settles(s: State, steps: seq<Step>)
    requires Runs(s, steps)
    decreases |steps|
  {
    steps == [] || (Carries(s, steps[0]) && Settles(Next(s, steps[0]), steps[1..]))
  }

  ghost predicate AtRest(s: State) {
    forall st :: !Settling(s, st)
  }

  // ----- every such run is finite -----

  // What is left of a command, finalising and sending aside. One that will
  // queue another command adds the 11 steps of that.
  function Rank(p: Phase): nat {
    match p
    case Idle => 0
    case Entered => 10
    case Cleared => 9
    case Alive => 6
    case Taken => 5
    case StartBusy => 4
    case SendFinal => 4
    case FinalBusy(_) => 17
    case SendNext => 4
    case Ready => 4
    case NextBusy(_) => 17
    case FinaliseOnly => 3
    case Written => 3
    case Preempted => 16
    case Rescheduling => 15
    case Queueing => 14
    case Finishing => 1
    case Dead(_, _) => 0
    case Unbusied => 13
    case Signalling => 12
  }

  // Finalising a buffer is one unit of work, sending it another.
  function Units(s: State): int {
    2 * |s.outQ| + |s.finQ| + 2 * |s.cmd.oq| + |s.cmd.foq| - (if s.cmd.at == Ready then 1 else 0)
  }

  function WorkOf(x: Stale): nat {
    1 + (if x.mark then 1 else 0) + (if x.loose > 0 then 1 else 0)
  }

  function StaleWork(q: seq<Stale>): nat {
    if q == [] then 0 else WorkOf(q[0]) + StaleWork(q[1..])
  }

  function DownWork(d: Down): nat {
    match d
    case NoDown => 0
    case Announced => 8
    case Cut => 7
  }

  /** An upper bound on the number of steps left. One unit pays for a busy
    * port, for a teardown or for being preempted; a sender that is suspending
    * itself brings two units and a command. */
  function Work(s: State): int {
    50 * Units(s) + 120 * |s.held| + 15 * s.toSchedule + 13 * s.toQueue + (if s.task then 11 else 0)
    + Rank(s.cmd.at) + (if s.portBusy then 14 else 0)
    + DownWork(s.down) + StaleWork(s.stale) + |s.freed|
  }

  lemma {:induction false} StaleWorkSnoc(q: seq<Stale>, x: Stale)
    ensures StaleWork(q + [x]) == StaleWork(q) + WorkOf(x)
  {
    if q == [] {
      assert q + [x] == [x];
      assert [x][1..] == [];
    } else {
      assert (q + [x])[1..] == q[1..] + [x];
      StaleWorkSnoc(q[1..], x);
    }
  }

  lemma {:induction false} StaleWorkDrop(q: seq<Stale>, i: nat)
    requires i < |q|
    ensures StaleWork(Drop(q, i)) == StaleWork(q) - WorkOf(q[i])
  {
    if i == 0 {
      assert Drop(q, 0) == q[1..];
    } else {
      assert Drop(q, i)[1..] == Drop(q[1..], i - 1);
      StaleWorkDrop(q[1..], i - 1);
    }
  }

  lemma {:induction false} StaleWorkUpdate(q: seq<Stale>, i: nat, x: Stale)
    requires i < |q|
    ensures StaleWork(q[i := x]) == StaleWork(q) - WorkOf(q[i]) + WorkOf(x)
  {
    if i == 0 {
      assert q[0 := x][1..] == q[1..];
    } else {
      assert q[i := x][1..] == q[1..][i - 1 := x];
      StaleWorkUpdate(q[1..], i - 1, x);
    }
  }

  lemma WorkNat(s: State)
    requires Control(s)
    ensures Work(s) >= 0
  {
    hide StaleWork, ScheduleOk, FlagOk, Rank;
  }

  lemma SenderWorks(s: State, st: Step)
    requires SenderEnabled(s, st) && Carries(s, st)
    ensures Work(SenderNext(s, st)) < Work(s)
  {
    hide StaleWork;
  }

  // A step that finalises or sends takes a unit off; the others of the kind move none.
  lemma SendingUnits(s: State, st: Step)
    requires Sending(st) && CommandEnabled(s, st)
    ensures var t := CommandNext(s, st);
            if st.CmdDecide? || st.CmdMark? then Units(t) == Units(s) else Units(t) < Units(s)
  {
    match st
    case CmdDecide(_) =>
    case CmdMark =>
    case CmdSendFinal(_) =>
    case CmdSend(_) =>
    case CmdFinaliseOnly(_, _) =>
    case _ =>
  }

  lemma SendingWorks(s: State, st: Step)
    requires Sending(st) && CommandEnabled(s, st) && Carries(s, st)
    ensures Work(CommandNext(s, st)) < Work(s)
  {
    hide StaleWork, Units;
    SendingUnits(s, st);
    match st
    case CmdDecide(_) =>
    case CmdMark =>
    case CmdSendFinal(_) =>
    case CmdSend(_) =>
    case CmdFinaliseOnly(_, _) =>
    case _ =>
  }

  lemma StartWorks(s: State, st: Step)
    requires Starting(st) && CommandEnabled(s, st)
    ensures Work(CommandNext(s, st)) < Work(s)
  {
    hide StaleWork;
    match st
    case TaskRun =>
    case CmdClear =>
    case CmdCheck =>
  }

  lemma TakeWorks(s: State)
    requires CommandEnabled(s, CmdTake)
    ensures Work(CommandNext(s, CmdTake)) < Work(s)
  {
    hide StaleWork;
  }

  lemma PutBackWorks(s: State)
    requires CommandEnabled(s, CmdPutBack)
    ensures Work(CommandNext(s, CmdPutBack)) < Work(s)
  {
    hide StaleWork;
    if s.cmd.oq == [] { } else { }
  }

  lemma WrittenWorks(s: State)
    requires CommandEnabled(s, CmdWritten)
    ensures Work(CommandNext(s, CmdWritten)) < Work(s)
  {
    hide StaleWork;
  }

  lemma FinishWorks(s: State)
    requires CommandEnabled(s, CmdFinish)
    ensures Work(CommandNext(s, CmdFinish)) < Work(s)
  {
    hide StaleWork;
  }

  lemma EndWorks(s: State, st: Step)
    requires Ending(st) && CommandEnabled(s, st)
    ensures Work(CommandNext(s, st)) < Work(s)
  {
    hide StaleWork;
    match st
    case CmdSchedule =>
    case CmdQueue =>
  }

  lemma CommandWorks(s: State, st: Step)
    requires CommandEnabled(s, st) && Carries(s, st)
    ensures Work(CommandNext(s, st)) < Work(s)
  {
    hide CommandNext, Carries, Work;
    match st
    case CmdTake => TakeWorks(s);
    case CmdPutBack => PutBackWorks(s);
    case CmdWritten => WrittenWorks(s);
    case CmdFinish => FinishWorks(s);
    case _ =>
      if Sending(st) { SendingWorks(s, st); }
      else if Ending(st) { EndWorks(s, st); }
      else { StartWorks(s, st); }
  }

  lemma ClearWorks(s: State)
    requires ConnectionEnabled(s, DownClear) && Control(s)
    ensures Work(ConnectionNext(s, DownClear)) < Work(s)
  {
    assert Units(s) >= 0 by { hide ScheduleOk, FlagOk; }
    hide StaleWork, Control, Total;
    if s.cmd.at.Dead? {
      StaleWorkSnoc(s.stale, StaleOf(s.cmd, Total(s.outQ) + Total(s.finQ)));
    } else {
    }
  }

  lemma ConnectionWorks(s: State, st: Step)
    requires ConnectionEnabled(s, st) && Carries(s, st) && Control(s)
    ensures Work(ConnectionNext(s, st)) < Work(s)
  {
    hide StaleWork, Control, Clear;
    match st
    case DownClear => ClearWorks(s);
    case StaleFree(i) => StaleWorkUpdate(s.stale, i, s.stale[i].(loose := 0));
    case StaleMark(i) => StaleWorkUpdate(s.stale, i, s.stale[i].(mark := false, deBusy := true, prtBusy := true));
    case StaleDeduct(i) => StaleWorkDrop(s.stale, i);
    case _ =>
  }

  lemma StepWorks(s: State, st: Step)
    requires Settling(s, st) && Control(s)
    ensures Work(Next(s, st)) < Work(s)
  {
    hide SenderNext, CommandNext, ConnectionNext, SenderEnabled, CommandEnabled, ConnectionEnabled,
         Carries, Control, Work;
    if SenderEnabled(s, st) { SenderWorks(s, st); }
    else if CommandEnabled(s, st) { CommandWorks(s, st); }
    else { ConnectionWorks(s, st); }
  }

  /** Left to itself, the output queue stops after at most `Work(s)` steps. */
  lemma {:induction false} SettlesInTime(s: State, steps: seq<Step>)
    requires Inv(s) && Runs(s, steps) && Settles(s, steps)
    ensures |steps| <= Work(s)
    decreases |steps|
  {
    hide Enabled, Next, Carries, Control, Data, Work;
    if steps == [] {
      WorkNat(s);
    } else {
      StepWorks(s, steps[0]);
      StepKeeps(s, steps[0]);
      SettlesInTime(Next(s, steps[0]), steps[1..]);
    }
  }

  // ----- where it stops -----

  // The step a running command takes next when the driver just takes the data.
  function NextOf(c: Cmd): Step {
    match c.at
    case Entered => CmdClear
    case Cleared => CmdCheck
    case Alive => CmdTake
    case Taken => CmdDecide(false)
    case StartBusy => CmdMark
    case FinalBusy(_) => CmdMark
    case NextBusy(_) => CmdMark
    case SendFinal => CmdSendFinal(Fate(false, false, false))
    case SendNext => CmdFinalise
    case Ready => CmdSend(Fate(false, false, false))
    case FinaliseOnly => CmdFinaliseOnly(|c.oq|, false)
    case Written => CmdWritten
    case Preempted => CmdPutBack
    case Rescheduling => CmdSchedule
    case Unbusied => CmdSchedule
    case Queueing => CmdQueue
    case Signalling => CmdQueue
    case _ => CmdFinish
  }

  lemma NextEnabled(s: State)
    requires PhaseOk(s.cmd, s.portBusy) && s.cmd.at != Idle && !s.cmd.at.Dead?
    ensures CommandEnabled(s, NextOf(s.cmd)) && Carries(s, NextOf(s.cmd))
  {
  }

  // Nothing can go on only where nothing is under way.
  lemma CommandDone(s: State)
    requires Control(s) && AtRest(s)
    ensures s.cmd.at == Idle || s.cmd.at.Dead?
  {
    assert PhaseOk(s.cmd, s.portBusy);
    hide Control, CommandEnabled, Carries, PhaseOk;
    assert !Settling(s, NextOf(s.cmd));
    if s.cmd.at != Idle && !s.cmd.at.Dead? { NextEnabled(s); }
  }

  lemma ReadersDone(s: State)
    requires AtRest(s)
    ensures NoReaders(s)
  {
    assert !Settling(s, SendEnqueue(0));
    assert !Settling(s, SendSchedule);
    assert !Settling(s, SendQueue);
  }

  lemma LateDone(s: State)
    requires AtRest(s)
    ensures s.stale == [] && s.freed == []
  {
    assert !Settling(s, DownDeduct(0));
    assert !Settling(s, StaleFree(0));
    assert !Settling(s, StaleMark(0));
    assert !Settling(s, StaleDeduct(0));
  }

  lemma TeardownDone(s: State)
    requires Control(s) && AtRest(s)
    ensures s.down == NoDown && s.cmd.at == Idle
    ensures s.connected ==> !s.task && !s.portBusy
  {
    ReadersDone(s);
    CommandDone(s);
    assert !Settling(s, DownCut);
    assert !Settling(s, DownClear);
    assert !Settling(s, TaskRun);
    assert !Settling(s, PortBusyOff);
  }

  /** On a connection that is up, having nothing left to run is exactly that no
    * thread can go on. */
  lemma RestIsQuiet(s: State)
    requires Control(s) && s.connected
    ensures AtRest(s) <==> Quiet(s)
  {
    if AtRest(s) {
      ReadersDone(s);
      LateDone(s);
      TeardownDone(s);
    } else {
      hide Control;
    }
  }

  /** An entry at rest has every process resumed, every byte accounted for and,
    * if it is connected, everything sent. */
  lemma RestMeans(s: State)
    requires Inv(s) && Served(s) && AtRest(s)
    ensures s.suspended == [] && s.qsize == 0 && s.outQ == [] && s.finQ == []
    ensures s.connected ==> s.sent == s.enqueued
  {
    ReadersDone(s);
    LateDone(s);
    TeardownDone(s);
    hide AtRest;
    if s.connected && s.suspended != [] { ServedMeans(s); }
  }

  lemma {:induction false} SettlesCalmly(s: State, steps: seq<Step>)
    requires Runs(s, steps) && Settles(s, steps)
    ensures Calm(s, steps)
    decreases |steps|
  {
    hide Enabled, Next;
    if steps != [] { SettlesCalmly(Next(s, steps[0]), steps[1..]); }
  }

  /** After any calm run, once the entry is left to itself: it stops within a
    * bounded number of steps, whatever the order, the driver and the
    * preemptions; and when it stops, nobody is suspended and all is sent. */
  lemma EverybodyResumed(s: State, steps: seq<Step>, rest: seq<Step>)
    requires Init(s) && Runs(s, steps) && Calm(s, steps)
    requires Runs(After(s, steps), rest) && Settles(After(s, steps), rest)
    ensures |rest| <= Work(After(s, steps))
    ensures var t := After(After(s, steps), rest);
            AtRest(t) ==> t.suspended == [] && t.qsize == 0 && (t.connected ==> t.sent == t.enqueued)
  {
    InitInv(s);
    CalmRunServes(s, steps);
    var a := After(s, steps);
    SettlesCalmly(a, rest);
    CalmRunServes(a, rest);
    SettlesInTime(a, rest);
    var t := After(a, rest);
    hide Init, Runs, Inv, Served, After, Work, AtRest;
    if AtRest(t) { RestMeans(t); }
  }

  /** Such a rest is always reached: no run gets stuck before it. */
  lemma {:induction false} Settle(s: State) returns (rest: seq<Step>)
    requires Inv(s)
    ensures Runs(s, rest) && Settles(s, rest) && AtRest(After(s, rest))
    decreases if Control(s) then WorkNat(s); Work(s) else 0
  {
    rest := [];
    if !AtRest(s) {
      var st :| Settling(s, st);
      StepWorks(s, st);
      StepKeeps(s, st);
      hide Inv, Enabled, Next, Carries, AtRest, Work;
      var more := Settle(Next(s, st));
      rest := [st] + more;
      assert rest[0] == st && rest[1..] == more;
    }
  }
}
