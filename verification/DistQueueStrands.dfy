/** When the output queue of a new connection can strand a suspended process. */
module DistQueueStrands {
  import opened Sequences
  import opened DistQueue
  import opened DistQueueProofs
  import opened DistQueueRuns

  // ----- putting runs together -----

  lemma {:induction false} Extend(s: State, steps: seq<Step>, st: Step)
    requires Runs(s, steps) && Enabled(After(s, steps), st)
    ensures Runs(s, steps + [st])
    ensures After(s, steps + [st]) == Next(After(s, steps), st)
    decreases |steps|
  {
    hide Enabled, Next;
    var all := steps + [st];
    if steps == [] {
      assert all[0] == st && all[1..] == [];
    } else {
      assert all[0] == steps[0] && all[1..] == steps[1..] + [st];
      Extend(Next(s, steps[0]), steps[1..], st);
    }
  }

  predicate NoConnect(steps: seq<Step>) {
    forall i :: 0 <= i < |steps| ==> !steps[i].Connect?
  }

  lemma {:induction false} NoConnectCalm(s: State, steps: seq<Step>)
    requires Runs(s, steps) && NoConnect(steps)
    ensures Calm(s, steps)
    decreases |steps|
  {
    hide Enabled, Next;
    if steps != [] { NoConnectCalm(Next(s, steps[0]), steps[1..]); }
  }

  // The run `steps` of one connection leads from u to t.
  predicate Leads(u: State, steps: seq<Step>, t: State) {
    Runs(u, steps) && NoConnect(steps) && After(u, steps) == t && Inv(u)
  }

  lemma LeadsNowhere(u: State)
    requires Inv(u)
    ensures Leads(u, [], u)
  {
    hide Inv;
  }

  lemma Then(u: State, steps: seq<Step>, t: State, st: Step)
    requires Leads(u, steps, t) && Enabled(t, st) && !st.Connect?
    ensures Leads(u, steps + [st], Next(t, st))
  {
    hide Enabled, Next, Inv;
    Extend(u, steps, st);
  }

  lemma ThenSend(u: State, steps: seq<Step>, t: State, st: Step)
    requires Leads(u, steps, t) && SenderEnabled(t, st)
    ensures Leads(u, steps + [st], SenderNext(t, st))
  {
    hide Leads, SenderNext;
    Then(u, steps, t, st);
  }

  lemma ThenCommand(u: State, steps: seq<Step>, t: State, st: Step)
    requires Leads(u, steps, t) && CommandEnabled(t, st)
    ensures Leads(u, steps + [st], CommandNext(t, st))
  {
    hide Leads, CommandNext;
    Then(u, steps, t, st);
  }

  lemma ThenOther(u: State, steps: seq<Step>, t: State, st: Step)
    requires Leads(u, steps, t) && ConnectionEnabled(t, st) && !st.Connect?
    ensures Leads(u, steps + [st], ConnectionNext(t, st))
  {
    hide Leads, ConnectionNext;
    Then(u, steps, t, st);
  }

  lemma LeadsInv(u: State, steps: seq<Step>, t: State)
    requires Leads(u, steps, t)
    ensures Inv(t)
  {
    hide Inv, Runs, NoConnect;
    RunKeeps(u, steps);
  }

  // ----- a sender is suspended by what an earlier connection left undeducted -----

  // A connection that is up, on which nobody was suspended yet.
  predicate Fresh(s: State) {
    && s.connected && !s.exiting && !s.exit && s.down == NoDown && !s.portBusy && s.cmd.at == Idle
    && s.suspended == [] && s.outQ == [] && s.finQ == [] && NoReaders(s) && s.scheduled == s.task
  }

  predicate Same(s: State, t: State) {
    s.stale == t.stale && s.freed == t.freed
  }

  // The port leaves the busy state, if it is in it.
  lemma Unbusy(u: State) returns (steps: seq<Step>, t: State)
    requires Inv(u) && Fresh(u.(portBusy := false)) && !u.task
    ensures Leads(u, steps, t) && Fresh(t) && Same(u, t) && t.qsize == u.qsize && t.conn == u.conn
  {
    hide Leads, Inv;
    LeadsNowhere(u);
    if !u.portBusy { return [], u; }
    ThenOther(u, [], u, PortBusyOff);
    var a := ConnectionNext(u, PortBusyOff);
    ThenCommand(u, [] + [PortBusyOff], a, CmdSchedule);
    var b := CommandNext(a, CmdSchedule);
    ThenCommand(u, [] + [PortBusyOff] + [CmdSchedule], b, CmdQueue);
    t := CommandNext(b, CmdQueue);
    steps := [] + [PortBusyOff] + [CmdSchedule] + [CmdQueue];
  }

  predicate Waiting(s: State, buf: Buf) {
    && s.connected && !s.exiting && !s.exit && s.down == NoDown && !s.portBusy
    && s.suspended != [] && s.finQ == [] && NoReaders(s)
    && s.qsize >= BUSY_LIMIT + buf.size
  }

  lemma Suspend(u: State, pre: seq<Step>, a: State, buf: Buf) returns (steps: seq<Step>, t: State)
    requires Leads(u, pre, a) && Fresh(a) && a.qsize >= BUSY_LIMIT && buf.size > 0
    ensures Leads(u, steps, t) && Same(a, t)
    ensures Waiting(t, buf) && t.task && t.cmd.at == Idle && t.outQ == [buf]
  {
    hide Leads;
    var begin := SendBegin(0, buf, false, a.conn);
    ThenSend(u, pre, a, begin);
    var b := SenderNext(a, begin);
    ThenSend(u, pre + [begin], b, SendEnqueue(0));
    var c := SenderNext(b, SendEnqueue(0));
    ThenSend(u, pre + [begin] + [SendEnqueue(0)], c, SendSchedule);
    t := SenderNext(c, SendSchedule);
    steps := pre + [begin] + [SendEnqueue(0)] + [SendSchedule];
    if !a.scheduled {
      ThenSend(u, steps, t, SendQueue);
      t := SenderNext(t, SendQueue);
      steps := steps + [SendQueue];
    }
  }

  lemma TakeAll(u: State, pre: seq<Step>, a: State, buf: Buf) returns (steps: seq<Step>, t: State)
    requires Leads(u, pre, a) && Waiting(a, buf) && a.task && a.cmd.at == Idle && a.outQ == [buf]
    ensures Leads(u, steps, t) && Waiting(t, buf) && Same(a, t) && !t.task && t.outQ == []
    ensures t.cmd.at == Taken && t.cmd.oq == [buf] && t.cmd.foq == [] && t.cmd.spent == 0
  {
    hide Leads;
    ThenCommand(u, pre, a, TaskRun);
    var b := CommandNext(a, TaskRun);
    ThenCommand(u, pre + [TaskRun], b, CmdClear);
    var c := CommandNext(b, CmdClear);
    ThenCommand(u, pre + [TaskRun] + [CmdClear], c, CmdCheck);
    var d := CommandNext(c, CmdCheck);
    ThenCommand(u, pre + [TaskRun] + [CmdClear] + [CmdCheck], d, CmdTake);
    t := CommandNext(d, CmdTake);
    steps := pre + [TaskRun] + [CmdClear] + [CmdCheck] + [CmdTake];
  }

  lemma WriteAll(u: State, pre: seq<Step>, a: State, buf: Buf) returns (steps: seq<Step>, t: State)
    requires Leads(u, pre, a) && Waiting(a, buf) && !a.task && a.outQ == []
    requires a.cmd.at == Taken && a.cmd.oq == [buf] && a.cmd.foq == [] && a.cmd.spent == 0
    ensures Leads(u, steps, t) && Waiting(t, buf) && Same(a, t) && !t.task && t.outQ == []
    ensures t.cmd.at == Written && t.cmd.spent == buf.size && t.cmd.oq == [] && t.cmd.foq == []
  {
    hide Leads;
    var send := CmdSend(Fate(false, false, false));
    ThenCommand(u, pre, a, CmdDecide(false));
    var b := CommandNext(a, CmdDecide(false));
    ThenCommand(u, pre + [CmdDecide(false)], b, CmdFinalise);
    var c := CommandNext(b, CmdFinalise);
    ThenCommand(u, pre + [CmdDecide(false)] + [CmdFinalise], c, send);
    t := CommandNext(c, send);
    steps := pre + [CmdDecide(false)] + [CmdFinalise] + [send];
  }

  // A process is suspended, and only late deductions are left to run.
  predicate Stuck(s: State) {
    && s.connected && !s.exit && !s.task && NoReaders(s) && s.cmd.at == Idle && s.down == NoDown && !s.portBusy
    && s.suspended != [] && Drained(s)
  }

  lemma Finish(u: State, pre: seq<Step>, a: State, buf: Buf) returns (steps: seq<Step>, t: State)
    requires Leads(u, pre, a) && Waiting(a, buf) && !a.task && a.outQ == []
    requires a.cmd.at == Written && a.cmd.spent == buf.size && a.cmd.oq == [] && a.cmd.foq == []
    ensures Leads(u, steps, t) && Same(a, t) && Stuck(t)
  {
    hide Leads;
    ThenCommand(u, pre, a, CmdWritten);
    var b := CommandNext(a, CmdWritten);
    ThenCommand(u, pre + [CmdWritten], b, CmdFinish);
    t := CommandNext(b, CmdFinish);
    steps := pre + [CmdWritten] + [CmdFinish];
  }

  // ----- the late deductions can come in an order that resumes nobody -----

  lemma {:induction false} SilentAtMost(q: seq<Stale>)
    ensures SilentTotal(q) <= StaleTotal(q)
  {
    if q != [] { SilentAtMost(q[1..]); }
  }

  // The thread of a stale command deducts what its own teardown freed.
  lemma FreeOwn(u: State, pre: seq<Step>, a: State, i: nat) returns (steps: seq<Step>, t: State)
    requires Leads(u, pre, a) && Stuck(a) && i < |a.stale|
    ensures Leads(u, steps, t) && Stuck(t) && t.freed == a.freed && t.stale == a.stale[i := a.stale[i].(loose := 0)]
  {
    hide Leads;
    steps, t := pre, a;
    if a.stale[i].loose > 0 {
      ThenOther(u, pre, a, StaleFree(i));
      steps, t := pre + [StaleFree(i)], ConnectionNext(a, StaleFree(i));
    }
  }

  // A rescuer that comes while enough is left over rescues nobody.
  lemma RescuerFails(s: State, i: nat)
    requires Inv(s) && Stuck(s) && Leftover(s) >= BUSY_LIMIT && i < |s.stale| && Resumes(s.stale[i])
    requires s.stale[i].loose == 0
    ensures var t := ConnectionNext(s, StaleDeduct(i));
            Stuck(t) && Leftover(t) == Leftover(s) && |t.stale| < |s.stale| && t.freed == s.freed
  {
    hide StaleTotal, SilentTotal, Sum, Control, OrderOk;
    NoBytes();
    StaleDrop(s.stale, i);
    SilentDrop(s.stale, i);
    SilentAtMost(Drop(s.stale, i));
  }

  lemma RescuerKeepsLeftover(a: State, b: State, i: nat)
    requires i < |a.stale| && Resumes(a.stale[i])
    requires b.freed == a.freed && b.stale == a.stale[i := a.stale[i].(loose := 0)]
    ensures Leftover(b) == Leftover(a)
  {
    hide SilentTotal, Sum;
    SilentUpdate(a.stale, i, a.stale[i].(loose := 0));
  }

  lemma {:induction false} DrainRescuers(u: State, pre: seq<Step>, a: State) returns (steps: seq<Step>, t: State)
    requires Leads(u, pre, a) && Stuck(a) && Leftover(a) >= BUSY_LIMIT
    ensures Leads(u, steps, t) && Stuck(t) && !Rescuer(t.stale)
    decreases |a.stale|
  {
    hide Leads, Inv, Stuck, Leftover, ConnectionNext;
    steps, t := pre, a;
    if Rescuer(a.stale) {
      var i :| 0 <= i < |a.stale| && Resumes(a.stale[i]);
      var b;
      steps, b := FreeOwn(u, pre, a, i);
      RescuerKeepsLeftover(a, b, i);
      LeadsInv(u, steps, b);
      RescuerFails(b, i);
      ThenOther(u, steps, b, StaleDeduct(i));
      steps, t := DrainRescuers(u, steps + [StaleDeduct(i)], ConnectionNext(b, StaleDeduct(i)));
    }
  }

  lemma DrainOne(u: State, pre: seq<Step>, a: State) returns (steps: seq<Step>, t: State)
    requires Leads(u, pre, a) && Stuck(a) && a.stale != [] && !Resumes(a.stale[0])
    ensures Leads(u, steps, t) && Stuck(t) && t.stale == a.stale[1..] && t.freed == a.freed
  {
    hide Leads;
    steps, t := FreeOwn(u, pre, a, 0);
    if a.stale[0].mark {
      ThenOther(u, steps, t, StaleMark(0));
      steps, t := steps + [StaleMark(0)], ConnectionNext(t, StaleMark(0));
    }
    ThenOther(u, steps, t, StaleDeduct(0));
    steps, t := steps + [StaleDeduct(0)], ConnectionNext(t, StaleDeduct(0));
  }

  lemma {:induction false} DrainStale(u: State, pre: seq<Step>, a: State) returns (steps: seq<Step>, t: State)
    requires Leads(u, pre, a) && Stuck(a) && !Rescuer(a.stale)
    ensures Leads(u, steps, t) && Stuck(t) && t.stale == []
    decreases |a.stale|
  {
    hide Leads, Stuck;
    steps, t := pre, a;
    if a.stale != [] {
      var b;
      steps, b := DrainOne(u, pre, a);
      if Rescuer(b.stale) { RescuerTail(a.stale); }
      steps, t := DrainStale(u, steps, b);
    }
  }

  lemma {:induction false} DrainFreed(u: State, pre: seq<Step>, a: State) returns (steps: seq<Step>, t: State)
    requires Leads(u, pre, a) && Stuck(a) && a.stale == []
    ensures Leads(u, steps, t) && Stuck(t) && t.stale == [] && t.freed == []
    decreases |a.freed|
  {
    hide Leads;
    steps, t := pre, a;
    if a.freed != [] {
      ThenOther(u, pre, a, DownDeduct(0));
      steps, t := DrainFreed(u, pre + [DownDeduct(0)], ConnectionNext(a, DownDeduct(0)));
    }
  }

  // ----- the condition -----

  // Nothing is left to run, and yet a process is suspended.
  predicate Stranded(s: State) {
    Quiet(s) && s.suspended != []
  }

  ghost predicate CanStrand(u: State) {
    exists steps :: Runs(u, steps) && NoConnect(steps) && Stranded(After(u, steps))
  }

  lemma FreshConnection(s: State, portBusy: bool)
    requires Inv(s) && ConnectionEnabled(s, Connect(portBusy))
    ensures var u := ConnectionNext(s, Connect(portBusy));
            && Fresh(u.(portBusy := false)) && !u.task && Inv(u) && Same(s, u)
            && u.qsize == StaleTotal(u.stale) + Sum(u.freed)
  {
    hide StaleTotal, Sum;
    NoBytes();
    ConnectKeeps(s, portBusy);
  }

  lemma LeftoverStrands(u: State)
    requires Inv(u) && Fresh(u.(portBusy := false)) && !u.task
    requires Leftover(u) >= BUSY_LIMIT && u.qsize == StaleTotal(u.stale) + Sum(u.freed)
    ensures CanStrand(u)
  {
    SilentAtMost(u.stale);
    var buf := Buf(0, 1024);
    hide Inv, Runs, After, Leads, Fresh, Waiting, Stuck;
    var s0, a := Unbusy(u);
    var s1, b := Suspend(u, s0, a, buf);
    var s2, c := TakeAll(u, s1, b, buf);
    var s3, d := WriteAll(u, s2, c, buf);
    var s4, e := Finish(u, s3, d, buf);
    var s5, f := DrainRescuers(u, s4, e);
    var s6, g := DrainStale(u, s5, f);
    var s7, h := DrainFreed(u, s6, g);
    StuckStrands(u, s7, h);
  }

  lemma StuckStrands(u: State, steps: seq<Step>, t: State)
    requires Leads(u, steps, t) && Stuck(t) && t.stale == [] && t.freed == []
    ensures CanStrand(u)
  {
    assert Stranded(After(u, steps));
  }

  lemma NoStranding(u: State, steps: seq<Step>)
    requires Inv(u) && Served(u) && Runs(u, steps) && NoConnect(steps)
    ensures !Stranded(After(u, steps))
  {
    NoConnectCalm(u, steps);
    CalmRunServes(u, steps);
    hide Inv, Served, Runs, After, NoConnect, Rescuer, Attended;
    if Stranded(After(u, steps)) { ServedMeans(After(u, steps)); }
  }

  /** A connection can leave a process suspended with nothing left to run if and
    * only if it is set up while at least the busy limit of older bytes is left
    * to threads that deduct without resuming. */
  lemma SetUpStrandsIff(s: State, portBusy: bool)
    requires Inv(s) && ConnectionEnabled(s, Connect(portBusy))
    ensures CanStrand(ConnectionNext(s, Connect(portBusy))) <==> Leftover(s) >= BUSY_LIMIT
  {
    FreshConnection(s, portBusy);
    var u := ConnectionNext(s, Connect(portBusy));
    if Leftover(s) >= BUSY_LIMIT {
      LeftoverStrands(u);
    } else {
      assert Served(u);
      hide ConnectionNext, ConnectionEnabled, Inv, Served, Runs, After, NoConnect, Stranded;
      forall steps | Runs(u, steps) && NoConnect(steps)
        ensures !Stranded(After(u, steps))
      {
        NoStranding(u, steps);
      }
    }
  }

  // ----- such a set-up happens -----

  lemma EmptyRun(s: State)
    ensures Runs(s, []) && After(s, []) == s
  {
  }

  lemma Append(s: State, steps: seq<Step>, t: State, st: Step) returns (r: seq<Step>, u: State)
    requires Runs(s, steps) && After(s, steps) == t && Enabled(t, st)
    ensures Runs(s, r) && After(s, r) == u && u == Next(t, st)
  {
    hide Enabled, Next;
    Extend(s, steps, st);
    r, u := steps + [st], Next(t, st);
  }

  /** The first connection dies with a full queue, and the next one is set up
    * before clear_dist_entry deducts what it freed. */
  lemma StrandingReachable(s: State)
    requires Init(s)
    ensures exists steps :: Runs(s, steps) && CanStrand(After(s, steps))
  {
    hide Runs, After;
    var st := SendBegin(0, Buf(0, BUSY_LIMIT), true, s.conn + 1);
    assert Runs(s, []) && After(s, []) == s by { EmptyRun(s); }
    var r1, a := Append(s, [], s, Connect(false));
    var r2, b := Append(s, r1, a, st);
    var r3, c := Append(s, r2, b, SendSchedule);
    var r4, d := Append(s, r3, c, SendQueue);
    var r5, e := Append(s, r4, d, DownAnnounce);
    var r6, f := Append(s, r5, e, DownCut);
    var r7, g := Append(s, r6, f, DownClear);
    var r8, h := Append(s, r7, g, Connect(false));
    InitInv(s);
    RunKeeps(s, r7);
    SetUpStrandsIff(g, false);
    assert CanStrand(After(s, r8));
  }
}
