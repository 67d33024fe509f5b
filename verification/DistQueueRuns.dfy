/** What holds in every run of the output queue, over all interleavings. */
module DistQueueRuns {
  import opened Sequences
  import opened DistQueue
  import opened DistQueueProofs

  // ----- byte count and order, in every run -----

  lemma {:induction false} RunKeeps(s: State, steps: seq<Step>)
    requires Runs(s, steps) && Inv(s)
    ensures Inv(After(s, steps))
    decreases |steps|
  {
    hide Inv, Enabled, Next;
    if steps != [] {
      StepKeeps(s, steps[0]);
      RunKeeps(Next(s, steps[0]), steps[1..]);
    }
  }

  lemma InitInv(s: State)
    requires Init(s)
    ensures Inv(s) && Served(s)
  {
  }

  /** qsize is the number of bytes that some thread or queue still accounts
    * for, and so is never negative. */
  lemma ByteCountExact(s: State, steps: seq<Step>)
    requires Init(s) && Runs(s, steps)
    ensures SizeOk(After(s, steps))
    ensures After(s, steps).qsize >= 0
  {
    hide Init, Runs;
    InitInv(s);
    RunKeeps(s, steps);
  }

  /** On each connection the driver gets a prefix of what was enqueued; each
    * buffer is finalised once, in order, and before it is sent. */
  lemma SentInOrder(s: State, steps: seq<Step>)
    requires Init(s) && Runs(s, steps)
    ensures After(s, steps).sent <= After(s, steps).finalised <= After(s, steps).enqueued
  {
    hide Init, Runs, Line, Total;
    InitInv(s);
    RunKeeps(s, steps);
    var t := After(s, steps);
    LinePrefix(t.sent, t.finQ, t.cmd.foq, t.cmd.oq, t.outQ);
  }

  /** Once nothing is queued and no command runs, the driver has had everything. */
  lemma NothingLost(s: State, steps: seq<Step>)
    requires Init(s) && Runs(s, steps)
    ensures var t := After(s, steps);
            t.connected && t.cmd.at == Idle && t.finQ == [] && t.outQ == [] ==> t.sent == t.enqueued
  {
    hide Init, Runs, Total;
    InitInv(s);
    RunKeeps(s, steps);
  }

  // ----- nobody stays suspended -----

  // A stale command that resumes everybody if it finds the byte count low enough.
  predicate Resumes(x: Stale) {
    !x.mark && x.finishing && x.deBusy && !x.prtBusy
  }

  ghost predicate Rescuer(q: seq<Stale>) {
    exists i :: 0 <= i < |q| && Resumes(q[i])
  }

  // The bytes of stale commands that deduct without resuming, with what their teardowns freed.
  function SilentTotal(q: seq<Stale>): nat {
    if q == [] then 0 else (if Resumes(q[0]) then 0 else q[0].loose + q[0].amount) + SilentTotal(q[1..])
  }

  // What earlier connections left to be deducted by threads that resume nobody.
  function Leftover(s: State): nat {
    SilentTotal(s.stale) + Sum(s.freed)
  }

  lemma {:induction false} SilentDrop(a: seq<Stale>, i: nat)
    requires i < |a|
    ensures SilentTotal(Drop(a, i)) == SilentTotal(a) - (if Resumes(a[i]) then 0 else a[i].loose + a[i].amount)
  {
    if i == 0 {
      assert Drop(a, 0) == a[1..];
    } else {
      assert Drop(a, i)[1..] == Drop(a[1..], i - 1);
      SilentDrop(a[1..], i - 1);
    }
  }

  lemma {:induction false} SilentUpdate(a: seq<Stale>, i: nat, x: Stale)
    requires i < |a| && x.amount == a[i].amount && x.loose <= a[i].loose && (Resumes(x) <==> Resumes(a[i]))
    ensures SilentTotal(a[i := x]) == SilentTotal(a) - if Resumes(x) then 0 else a[i].loose - x.loose
  {
    if i == 0 {
      assert a[0 := x][1..] == a[1..];
    } else {
      assert a[i := x][1..] == a[1..][i - 1 := x];
      SilentUpdate(a[1..], i - 1, x);
    }
  }

  // What silent commands do not account for belongs to a rescuer.
  lemma {:induction false} RescuerFor(q: seq<Stale>)
    requires SilentTotal(q) < StaleTotal(q)
    ensures Rescuer(q)
  {
    if Resumes(q[0]) {
    } else {
      RescuerFor(q[1..]);
      RescuerTail(q);
    }
  }

  lemma RescuerTail(q: seq<Stale>)
    requires q != [] && Rescuer(q[1..])
    ensures Rescuer(q)
  {
    var i :| 0 <= i < |q[1..]| && Resumes(q[1..][i]);
    assert Resumes(q[i + 1]);
  }

  lemma RescuerDrop(q: seq<Stale>, i: nat)
    requires i < |q| && !Resumes(q[i]) && Rescuer(q)
    ensures Rescuer(Drop(q, i))
  {
    var k :| 0 <= k < |q| && Resumes(q[k]);
    var j := if k < i then k else k - 1;
    assert Resumes(Drop(q, i)[j]);
  }

  lemma RescuerUpdate(q: seq<Stale>, i: nat, x: Stale)
    requires i < |q| && (Resumes(q[i]) ==> Resumes(x)) && Rescuer(q)
    ensures Rescuer(q[i := x])
  {
    var k :| 0 <= k < |q| && Resumes(q[k]);
    assert Resumes(q[i := x][k]);
  }

  // When a new connection is set up, less than the busy limit is left to be deducted silently.
  predicate CalmStep(s: State, st: Step) {
    st.Connect? ==> Leftover(s) < BUSY_LIMIT
  }

  predicate Calm(s: State, steps: seq<Step>)
    requires Runs(s, steps)
    decreases |steps|
  {
    steps == [] || (CalmStep(s, steps[0]) && Calm(Next(s, steps[0]), steps[1..]))
  }

  predicate CalmOk(s: State) {
    s.connected ==> Leftover(s) < BUSY_LIMIT
  }

  // Every byte that is still counted is left over from earlier connections.
  predicate Drained(s: State) {
    s.outQ == [] && s.finQ == [] && s.held == [] && s.cmd.oq == [] && s.cmd.foq == [] && s.cmd.spent == 0
  }

  // Something on this connection will look after the suspended processes.
  predicate Attended(s: State) {
    Coming(s) || s.held != [] || s.portBusy || WillDecide(s.cmd)
  }

  ghost predicate ResumeOk(s: State) {
    s.connected && s.down == NoDown && !s.exit && s.suspended != [] ==>
      Attended(s) || (Drained(s) && Rescuer(s.stale))
  }

  ghost predicate Served(s: State) {
    ResumeOk(s) && CalmOk(s)
  }

  lemma SenderServes(s: State, st: Step)
    requires SenderEnabled(s, st) && Control(s) && Served(s)
    ensures Served(SenderNext(s, st))
  {
    hide SilentTotal, Sum, Drop, Rescuer;
  }

  // With nothing of its own left to count, a connection at the busy limit owes it to a rescuer.
  lemma OwedToRescuer(s: State)
    requires Inv(s) && CalmOk(s) && s.connected && Drained(s) && s.qsize >= BUSY_LIMIT
    ensures Rescuer(s.stale)
  {
    hide StaleTotal, SilentTotal, Sum, Line, Control, OrderOk, Rescuer;
    NoBytes();
    RescuerFor(s.stale);
  }

  lemma WrittenServes(s: State)
    requires CommandEnabled(s, CmdWritten) && Inv(s) && Served(s)
    ensures Served(CommandNext(s, CmdWritten))
  {
    var t := CommandNext(s, CmdWritten);
    CommandKeeps(s, CmdWritten);
    assert t.connected == s.connected && t.stale == s.stale && t.freed == s.freed;
    assert CalmOk(t);
    if t.connected && t.down == NoDown && !t.exit && t.suspended != [] && !Attended(t) {
      WrittenDrained(s);
      if s.cmd.deBusy { OwedToRescuer(t); }
    }
  }

  lemma WrittenDrained(s: State)
    requires CommandEnabled(s, CmdWritten) && Control(s) && s.connected
    requires !Attended(CommandNext(s, CmdWritten))
    ensures Drained(CommandNext(s, CmdWritten))
  {
    hide StaleTotal, Sum, Total, Line, HeldTotal;
  }

  predicate Sending(st: Step) {
    st.CmdDecide? || st.CmdMark? || st.CmdSendFinal? || st.CmdSend? || st.CmdFinaliseOnly? || st.CmdFinalise?
  }

  lemma SendingServes(s: State, st: Step)
    requires Sending(st) && CommandEnabled(s, st) && Control(s) && Served(s)
    ensures Served(CommandNext(s, st))
  {
    hide SilentTotal, Sum, Rescuer;
    match st
    case CmdDecide(_) =>
    case CmdMark =>
    case CmdSendFinal(_) =>
    case CmdSend(_) =>
    case _ =>
  }

  lemma StartServes(s: State, st: Step)
    requires (Starting(st) || st == CmdTake) && CommandEnabled(s, st) && Control(s) && Served(s)
    ensures Served(CommandNext(s, st))
  {
    hide SilentTotal, Sum, Rescuer;
    match st
    case TaskRun =>
    case CmdClear =>
    case CmdCheck =>
    case _ =>
  }

  lemma PutBackServes(s: State)
    requires CommandEnabled(s, CmdPutBack) && Control(s) && Served(s)
    ensures Served(CommandNext(s, CmdPutBack))
  {
    hide SilentTotal, Sum, Rescuer;
    if s.cmd.oq == [] { } else { }
  }

  lemma EndServes(s: State, st: Step)
    requires Ending(st) && CommandEnabled(s, st) && Control(s) && Served(s)
    ensures Served(CommandNext(s, st))
  {
    hide SilentTotal, Sum, Rescuer;
  }

  lemma FinishServes(s: State)
    requires CommandEnabled(s, CmdFinish) && Control(s) && Served(s)
    ensures Served(CommandNext(s, CmdFinish))
  {
    hide SilentTotal, Sum, Rescuer;
  }

  lemma CommandServes(s: State, st: Step)
    requires CommandEnabled(s, st) && Inv(s) && Served(s)
    ensures Served(CommandNext(s, st))
  {
    hide CommandNext, Control, Data, Served;
    match st
    case CmdWritten => WrittenServes(s);
    case CmdPutBack => PutBackServes(s);
    case CmdFinish => FinishServes(s);
    case _ =>
      if Sending(st) { SendingServes(s, st); }
      else if Ending(st) { EndServes(s, st); }
      else { StartServes(s, st); }
  }

  lemma FreeServes(s: State, i: nat)
    requires ConnectionEnabled(s, StaleFree(i)) && Inv(s) && Served(s)
    ensures Served(ConnectionNext(s, StaleFree(i)))
  {
    hide SilentTotal, Sum, Inv, Rescuer;
    var x := s.stale[i].(loose := 0);
    SilentUpdate(s.stale, i, x);
    if Rescuer(s.stale) { RescuerUpdate(s.stale, i, x); }
  }

  lemma MarkServes(s: State, i: nat)
    requires ConnectionEnabled(s, StaleMark(i)) && Inv(s) && Served(s)
    ensures Served(ConnectionNext(s, StaleMark(i)))
  {
    hide SilentTotal, Sum, Inv, Rescuer;
    var x := s.stale[i].(mark := false, deBusy := true, prtBusy := true);
    SilentUpdate(s.stale, i, x);
    if Rescuer(s.stale) { RescuerUpdate(s.stale, i, x); }
  }

  lemma StaleDeductServes(s: State, i: nat)
    requires ConnectionEnabled(s, StaleDeduct(i)) && Inv(s) && Served(s)
    ensures Served(ConnectionNext(s, StaleDeduct(i)))
  {
    hide SilentTotal, Sum, Inv, Rescuer, Drop;
    var t := ConnectionNext(s, StaleDeduct(i));
    SilentDrop(s.stale, i);
    assert CalmOk(t);
    StaleDeductKeeps(s, i);
    if t.connected && t.down == NoDown && !t.exit && t.suspended != [] && !Attended(t) {
      if Resumes(s.stale[i]) { OwedToRescuer(t); } else { RescuerDrop(s.stale, i); }
    }
  }

  lemma ConnectionServes(s: State, st: Step)
    requires ConnectionEnabled(s, st) && Inv(s) && Served(s) && CalmStep(s, st)
    ensures Served(ConnectionNext(s, st))
  {
    hide SilentTotal, Sum, Rescuer;
    match st
    case DownDeduct(i) => SumDrop(s.freed, i);
    case StaleFree(i) => FreeServes(s, i);
    case StaleMark(i) => MarkServes(s, i);
    case StaleDeduct(i) => StaleDeductServes(s, i);
    case _ =>
  }

  lemma StepServes(s: State, st: Step)
    requires Enabled(s, st) && CalmStep(s, st) && Inv(s) && Served(s)
    ensures Served(Next(s, st))
  {
    hide SenderNext, CommandNext, ConnectionNext, SenderEnabled, CommandEnabled, ConnectionEnabled,
         Data, Control, Served;
    if SenderEnabled(s, st) { SenderServes(s, st); }
    else if CommandEnabled(s, st) { CommandServes(s, st); }
    else { ConnectionServes(s, st); }
  }

  lemma {:induction false} CalmRunServes(s: State, steps: seq<Step>)
    requires Runs(s, steps) && Calm(s, steps) && Inv(s) && Served(s)
    ensures Inv(After(s, steps)) && Served(After(s, steps))
    decreases |steps|
  {
    hide Inv, Served, Enabled, Next, CalmStep;
    if steps != [] {
      StepKeeps(s, steps[0]);
      StepServes(s, steps[0]);
      CalmRunServes(Next(s, steps[0]), steps[1..]);
    }
  }

  // Nothing is left to run: no task, no command, no sender, no teardown and no
  // late deduction, and the port takes data.
  predicate Quiet(s: State) {
    && !s.task && NoReaders(s) && s.cmd.at == Idle && s.down == NoDown && !s.portBusy
    && s.stale == [] && s.freed == []
  }

  // A dist command or a teardown that will look at an exiting entry.
  predicate ExitComing(s: State) {
    s.down != NoDown || Queued(s) || s.toSchedule > 0 || s.cmd.at == Cleared
  }

  lemma ServedMeans(s: State)
    requires Inv(s) && Served(s) && s.suspended != []
    ensures s.busy || s.exit
    ensures s.exit ==> ExitComing(s)
    ensures !s.exit ==> s.down != NoDown || Attended(s) || Rescuer(s.stale)
    ensures !Quiet(s)
  {
    hide Data;
  }

  /** In every run that sets up connections with less than the busy limit left
    * to be deducted silently, a suspended process always has something coming
    * that will resume it. */
  lemma NobodyStranded(s: State, steps: seq<Step>)
    requires Init(s) && Runs(s, steps) && Calm(s, steps)
    ensures var t := After(s, steps);
            t.suspended != [] ==>
              && (t.busy || t.exit)
              && (t.exit ==> ExitComing(t))
              && (!t.exit ==> t.down != NoDown || Attended(t) || Rescuer(t.stale))
              && !Quiet(t)
  {
    InitInv(s);
    CalmRunServes(s, steps);
    var t := After(s, steps);
    hide Init, Runs, Inv, Served, Quiet, ExitComing, Attended, Rescuer;
    if t.suspended != [] { ServedMeans(t); }
  }
}
