/** What every step of the output queue keeps. */
module DistQueueProofs {
  import opened Sequences
  import opened DistQueue

  // ----- byte count -----

  // qsize counts every buffer that is queued, held by a sender or by the
  // command, sent but not deducted, or freed but not deducted.
  predicate SizeOk(s: State) {
    s.qsize == Total(s.outQ) + Total(s.finQ) + Total(s.cmd.oq) + Total(s.cmd.foq) + s.cmd.spent
               + HeldTotal(s.held) + StaleTotal(s.stale) + Sum(s.freed)
  }

  lemma {:induction false} TotalConcat(a: seq<Buf>, b: seq<Buf>)
    ensures Total(a + b) == Total(a) + Total(b)
  {
    if a == [] {
      assert a + b == b;
    } else {
      assert (a + b)[1..] == a[1..] + b;
      TotalConcat(a[1..], b);
    }
  }

  lemma TotalOne(b: Buf)
    ensures Total([b]) == b.size
  {
    assert [b][1..] == [];
  }

  lemma TotalSnoc(a: seq<Buf>, b: Buf)
    ensures Total(a + [b]) == Total(a) + b.size
  {
    TotalConcat(a, [b]);
    TotalOne(b);
  }

  lemma {:induction false} HeldSnoc(a: seq<Held>, h: Held)
    ensures HeldTotal(a + [h]) == HeldTotal(a) + h.buf.size
  {
    if a == [] {
      assert a + [h] == [h];
      assert [h][1..] == [];
    } else {
      assert (a + [h])[1..] == a[1..] + [h];
      HeldSnoc(a[1..], h);
    }
  }

  lemma {:induction false} HeldDrop(a: seq<Held>, i: nat)
    requires i < |a|
    ensures HeldTotal(Drop(a, i)) == HeldTotal(a) - a[i].buf.size
  {
    if i == 0 {
      assert Drop(a, 0) == a[1..];
    } else {
      assert Drop(a, i)[1..] == Drop(a[1..], i - 1);
      HeldDrop(a[1..], i - 1);
    }
  }

  lemma {:induction false} StaleSnoc(a: seq<Stale>, x: Stale)
    ensures StaleTotal(a + [x]) == StaleTotal(a) + x.loose + x.amount
  {
    if a == [] {
      assert a + [x] == [x];
      assert [x][1..] == [];
    } else {
      assert (a + [x])[1..] == a[1..] + [x];
      StaleSnoc(a[1..], x);
    }
  }

  lemma {:induction false} StaleDrop(a: seq<Stale>, i: nat)
    requires i < |a|
    ensures StaleTotal(Drop(a, i)) == StaleTotal(a) - a[i].loose - a[i].amount
  {
    if i == 0 {
      assert Drop(a, 0) == a[1..];
    } else {
      assert Drop(a, i)[1..] == Drop(a[1..], i - 1);
      StaleDrop(a[1..], i - 1);
    }
  }

  lemma {:induction false} StaleUpdate(a: seq<Stale>, i: nat, x: Stale)
    requires i < |a| && x.amount == a[i].amount
    ensures StaleTotal(a[i := x]) == StaleTotal(a) - a[i].loose + x.loose
  {
    if i == 0 {
      assert a[0 := x][1..] == a[1..];
    } else {
      assert a[i := x][1..] == a[1..][i - 1 := x];
      StaleUpdate(a[1..], i - 1, x);
    }
  }

  lemma {:induction false} SumSnoc(a: seq<nat>, n: nat)
    ensures Sum(a + [n]) == Sum(a) + n
  {
    if a == [] {
      assert a + [n] == [n];
      assert [n][1..] == [];
    } else {
      assert (a + [n])[1..] == a[1..] + [n];
      SumSnoc(a[1..], n);
    }
  }

  lemma {:induction false} SumDrop(a: seq<nat>, i: nat)
    requires i < |a|
    ensures Sum(Drop(a, i)) == Sum(a) - a[i]
  {
    if i == 0 {
      assert Drop(a, 0) == a[1..];
    } else {
      assert Drop(a, i)[1..] == Drop(a[1..], i - 1);
      SumDrop(a[1..], i - 1);
    }
  }

  // ----- which thread may be where -----

  predicate Untaken(p: Phase) {
    p == Idle || p == Entered || p == Cleared || p == Alive || p == Unbusied || p == Signalling
  }

  predicate PhaseOk(c: Cmd, portBusy: bool) {
    && (Untaken(c.at) ==> c.oq == [] && c.foq == [] && c.spent == 0)
    && (c.at == SendFinal ==> c.foq != [])
    && (c.at == SendNext || c.at == Ready || c.at == FinaliseOnly ==> c.oq != [])
    && (c.at == SendNext || c.at == Ready || c.at.NextBusy? || c.at == Written ==> c.foq == [])
    && (c.at == Written || c.at == Rescheduling || c.at == Queueing || c.at == Finishing ==> c.oq == [])
    && (c.at == StartBusy || c.at.FinalBusy? || c.at.NextBusy? || c.at == FinaliseOnly ==> portBusy)
    && (c.at == Written && c.prtBusy ==> portBusy)
    && (c.at == SendNext || c.at == Ready || c.at == SendFinal ==> !c.prtBusy && !portBusy)
    && (c.at.Dead? && c.at.last ==> c.oq == [] && c.foq == [])
  }

  predicate PlaceOk(s: State) {
    && PhaseOk(s.cmd, s.portBusy)
    && (!Untaken(s.cmd.at) ==> s.finQ == [])
    && (s.cmd.at != Idle && !s.cmd.at.Dead? ==> s.connected && s.down == NoDown)
    && (s.cmd.at.Dead? ==> s.down != NoDown)
    && (s.down == Announced ==> s.connected)
    && (s.down == Cut ==> !s.connected && s.exiting)
    && s.exiting == s.exit
    && (!s.connected ==> NoReaders(s) && !s.task)
    && (!s.connected && s.down == NoDown ==>
          s.outQ == [] && s.finQ == [] && s.suspended == [] && !s.scheduled && !s.exiting)
  }

  // ----- order -----

  // The buffers of the connection, oldest first: sent, finalised, taken, queued.
  function Line(sent: seq<Buf>, finQ: seq<Buf>, foq: seq<Buf>, oq: seq<Buf>, outQ: seq<Buf>): seq<Buf> {
    sent + finQ + foq + oq + outQ
  }

  predicate OrderOk(s: State) {
    if s.connected then
      && s.enqueued == Line(s.sent, s.finQ, s.cmd.foq, s.cmd.oq, s.outQ)
      && (s.cmd.at == Ready ==> s.cmd.oq != [])
      && s.finalised == Line(s.sent, s.finQ, s.cmd.foq, if s.cmd.at == Ready then [s.cmd.oq[0]] else [], [])
    else
      s.sent <= s.finalised <= s.enqueued
  }

  lemma LineSnoc(a: seq<Buf>, b: seq<Buf>, c: seq<Buf>, d: seq<Buf>, e: seq<Buf>, x: Buf)
    ensures Line(a, b, c, d, e + [x]) == Line(a, b, c, d, e) + [x]
  {
    var f := a + b + c + d;
    assert f + (e + [x]) == (f + e) + [x];
  }

  lemma LineTake(a: seq<Buf>, b: seq<Buf>, e: seq<Buf>)
    ensures Line(a, [], b, e, []) == Line(a, b, [], [], e)
    ensures Line(a, [], b, [], []) == Line(a, b, [], [], [])
  {
    assert a + [] == a && (a + b) + [] == a + b && (a + b) + e + [] == a + b + e;
  }

  lemma LineSendFinal(a: seq<Buf>, c: seq<Buf>, d: seq<Buf>, e: seq<Buf>)
    requires c != []
    ensures Line(a + [c[0]], [], c[1..], d, e) == Line(a, [], c, d, e)
  {
    assert a + [] == a && (a + [c[0]]) + [] == a + [c[0]];
    assert (a + [c[0]]) + c[1..] == a + c;
  }

  lemma LineSend(a: seq<Buf>, d: seq<Buf>, e: seq<Buf>)
    requires d != []
    ensures Line(a + [d[0]], [], [], d[1..], e) == Line(a, [], [], d, e)
    ensures Line(a + [d[0]], [], [], [], []) == Line(a, [], [], [d[0]], [])
  {
    var h := a + [d[0]];
    assert a + [] == a && h + [] == h;
    assert h + d[1..] == a + d;
  }

  lemma LineFinalise(a: seq<Buf>, b: seq<Buf>, c: seq<Buf>, x: Buf)
    ensures Line(a, b, c, [x], []) == Line(a, b, c, [], []) + [x]
  {
    var f := a + b + c;
    assert f + [] == f && f + [x] + [] == f + [x];
  }

  lemma LineFinaliseOnly(a: seq<Buf>, c: seq<Buf>, d: seq<Buf>, e: seq<Buf>, k: nat)
    requires k <= |d|
    ensures Line(a, [], c + d[..k], d[k..], e) == Line(a, [], c, d, e)
    ensures Line(a, [], c + d[..k], [], []) == Line(a, [], c, [], []) + d[..k]
  {
    assert a + [] == a;
    assert a + (c + d[..k]) + d[k..] == a + c + d;
    assert a + (c + d[..k]) == (a + c) + d[..k];
    assert a + c + [] == a + c && (a + (c + d[..k])) + [] == a + (c + d[..k]);
  }

  lemma LinePutBack(a: seq<Buf>, c: seq<Buf>, d: seq<Buf>, e: seq<Buf>)
    ensures Line(a, [], c, [], d + e) == Line(a, [], c, d, e)
  {
    var f := a + [] + c;
    assert f + [] == f;
    assert f + (d + e) == (f + d) + e;
  }

  lemma LinePrefix(a: seq<Buf>, b: seq<Buf>, c: seq<Buf>, d: seq<Buf>, e: seq<Buf>)
    ensures a <= Line(a, b, c, [], []) <= Line(a, b, c, d, e)
    ensures d != [] ==> a <= Line(a, b, c, [d[0]], []) <= Line(a, b, c, d, e)
  {
    var f := a + b + c;
    assert f + [] + [] == f;
    if d != [] { assert f + [d[0]] + [] == f + [d[0]]; }
  }

  // ----- scheduling -----

  // A dist command will start, or one that runs has yet to take the queues or will reschedule itself.
  predicate Coming(s: State) {
    || s.task || s.toSchedule > 0 || s.toQueue > 0
    || s.cmd.at == Entered || s.cmd.at == Cleared || s.cmd.at == Alive
    || s.cmd.at == Preempted || s.cmd.at == Rescheduling || s.cmd.at == Queueing
    || s.cmd.at == Unbusied || s.cmd.at == Signalling
  }

  // The running command saw the busy flag and has not come to its decision.
  predicate WillDecide(c: Cmd) {
    c.deBusy && (c.at == Taken || c.at == SendFinal || c.at.FinalBusy? || c.at == SendNext || c.at == Ready
                 || c.at.NextBusy? || c.at == Written)
  }

  // A command that has not cleared dist_cmd_scheduled is queued, or a thread is about to queue one.
  predicate Queued(s: State) {
    s.task || s.toQueue > 0 || s.cmd.at == Entered || s.cmd.at == Queueing || s.cmd.at == Signalling
  }

  predicate ScheduleOk(s: State) {
    s.connected && s.down == NoDown ==>
      && (s.scheduled ==> Queued(s))
      && (s.exiting ==> Queued(s) || s.toSchedule > 0 || s.cmd.at == Cleared)
      && (s.outQ != [] ==> Coming(s))
      && (s.finQ != [] || (s.cmd.at == Finishing && s.cmd.foq != []) ==> Coming(s) || s.portBusy)
  }

  predicate FlagOk(s: State) {
    s.suspended != [] ==> s.busy || s.exit
  }

  // Holds in every reachable state.
  predicate Inv(s: State) {
    Data(s) && Control(s)
  }

  predicate Data(s: State) {
    SizeOk(s) && OrderOk(s)
  }

  predicate Control(s: State) {
    PlaceOk(s) && ScheduleOk(s) && FlagOk(s)
  }

  // Steps that move no buffer and no byte.
  lemma DataFrame(s: State, t: State)
    requires Data(s)
    requires t.connected == s.connected && t.outQ == s.outQ && t.finQ == s.finQ && t.qsize == s.qsize
    requires t.held == s.held && t.stale == s.stale && t.freed == s.freed
    requires t.enqueued == s.enqueued && t.finalised == s.finalised && t.sent == s.sent
    requires t.cmd.oq == s.cmd.oq && t.cmd.foq == s.cmd.foq && t.cmd.spent == s.cmd.spent
    requires s.cmd.at != Ready && t.cmd.at != Ready
    ensures Data(t)
  {
    hide Total, HeldTotal, StaleTotal, Sum, Line;
  }

  // Steps of threads that are left from earlier connections.
  lemma OrderFrame(s: State, t: State)
    requires OrderOk(s)
    requires t.connected == s.connected && t.outQ == s.outQ && t.finQ == s.finQ && t.cmd == s.cmd
    requires t.enqueued == s.enqueued && t.finalised == s.finalised && t.sent == s.sent
    ensures OrderOk(t)
  {
    hide Line;
  }

  lemma TotalHead(q: seq<Buf>)
    requires q != []
    ensures Total(q) == q[0].size + Total(q[1..])
  {
  }

  lemma NoBytes()
    ensures Total([]) == 0
  {
  }

  // ----- senders -----

  lemma BeginKeeps(s: State, proc: nat, buf: Buf, force: bool, prepared: nat)
    requires Inv(s)
    ensures Inv(Begin(s, proc, buf, force, prepared))
  {
    hide Total, HeldTotal, StaleTotal, Sum, Line;
    TotalSnoc(s.outQ, buf);
    HeldSnoc(s.held, Held(proc, buf));
    LineSnoc(s.sent, s.finQ, s.cmd.foq, s.cmd.oq, s.outQ, buf);
  }

  lemma EnqueueKeeps(s: State, i: nat)
    requires i < |s.held| && Inv(s)
    ensures Inv(Enqueue(s, i))
  {
    hide Total, HeldTotal, StaleTotal, Sum, Drop, Line;
    var b := s.held[i].buf;
    TotalSnoc(s.outQ, b);
    HeldDrop(s.held, i);
    LineSnoc(s.sent, s.finQ, s.cmd.foq, s.cmd.oq, s.outQ, b);
  }

  lemma ScheduleKeeps(s: State, st: Step)
    requires (st == SendSchedule || st == SendQueue) && SenderEnabled(s, st) && Inv(s)
    ensures Inv(SenderNext(s, st))
  {
    hide Total, HeldTotal, StaleTotal, Sum, Line;
  }

  lemma SenderKeeps(s: State, st: Step)
    requires SenderEnabled(s, st) && Inv(s)
    ensures Inv(SenderNext(s, st))
  {
    hide Inv, Begin, Enqueue;
    match st
    case SendBegin(proc, buf, force, prepared) => BeginKeeps(s, proc, buf, force, prepared);
    case SendEnqueue(i) => EnqueueKeeps(s, i);
    case _ => ScheduleKeeps(s, st);
  }

  // ----- the dist command -----

  predicate Starting(st: Step) {
    st == TaskRun || st == CmdClear || st == CmdCheck
  }

  lemma StartKeeps(s: State, st: Step)
    requires Starting(st) && CommandEnabled(s, st) && Inv(s)
    ensures Inv(CommandNext(s, st))
  {
    StartControl(s, st);
    assert s.cmd.oq == [] && s.cmd.foq == [] && s.cmd.spent == 0;
    hide Data, Control;
    DataFrame(s, CommandNext(s, st));
  }

  lemma StartControl(s: State, st: Step)
    requires Starting(st) && CommandEnabled(s, st) && Control(s)
    ensures Control(CommandNext(s, st))
  {
    match st
    case TaskRun =>
    case CmdClear =>
    case CmdCheck =>
  }

  lemma TakeKeeps(s: State)
    requires CommandEnabled(s, CmdTake) && Inv(s)
    ensures Inv(CommandNext(s, CmdTake))
  {
    hide Total, HeldTotal, StaleTotal, Sum, Line;
    NoBytes();
    LineTake(s.sent, s.finQ, s.outQ);
  }

  lemma DecideKeeps(s: State, preempt: bool)
    requires CommandEnabled(s, CmdDecide(preempt)) && Inv(s)
    ensures Inv(CommandNext(s, CmdDecide(preempt)))
  {
    hide Total, HeldTotal, StaleTotal, Sum, Line;
  }

  lemma MarkKeeps(s: State)
    requires CommandEnabled(s, CmdMark) && Inv(s)
    ensures Inv(CommandNext(s, CmdMark))
  {
    hide Total, HeldTotal, StaleTotal, Sum, Line;
  }

  lemma SendFinalKeeps(s: State, fate: Fate)
    requires CommandEnabled(s, CmdSendFinal(fate)) && Inv(s)
    ensures Inv(CommandNext(s, CmdSendFinal(fate)))
  {
    SendFinalControl(s, fate);
    hide Total, HeldTotal, StaleTotal, Sum, Line, Control;
    TotalHead(s.cmd.foq);
    assert s.finQ == [] by { FinQTaken(s); }
    LineSendFinal(s.sent, s.cmd.foq, s.cmd.oq, s.outQ);
    LineSendFinal(s.sent, s.cmd.foq, [], []);
  }

  lemma FinQTaken(s: State)
    requires Control(s) && !Untaken(s.cmd.at)
    ensures s.finQ == []
    ensures s.cmd.at == Ready ==> s.cmd.foq == []
  {
  }

  lemma SendFinalControl(s: State, fate: Fate)
    requires CommandEnabled(s, CmdSendFinal(fate)) && Control(s)
    ensures Control(CommandNext(s, CmdSendFinal(fate)))
  {
  }

  lemma SendKeeps(s: State, fate: Fate)
    requires CommandEnabled(s, CmdSend(fate)) && Inv(s)
    ensures Inv(CommandNext(s, CmdSend(fate)))
  {
    SendControl(s, fate);
    hide Total, HeldTotal, StaleTotal, Sum, Line, Control;
    TotalHead(s.cmd.oq);
    FinQTaken(s);
    LineSend(s.sent, s.cmd.oq, s.outQ);
  }

  lemma SendControl(s: State, fate: Fate)
    requires CommandEnabled(s, CmdSend(fate)) && Control(s)
    ensures Control(CommandNext(s, CmdSend(fate)))
  {
  }

  lemma FinaliseKeeps(s: State)
    requires CommandEnabled(s, CmdFinalise) && Inv(s)
    ensures Inv(CommandNext(s, CmdFinalise))
  {
    hide Total, HeldTotal, StaleTotal, Sum, Line;
    LineFinalise(s.sent, s.finQ, s.cmd.foq, s.cmd.oq[0]);
  }

  lemma FinaliseOnlyKeeps(s: State, k: nat, preempt: bool)
    requires CommandEnabled(s, CmdFinaliseOnly(k, preempt)) && Inv(s)
    ensures Inv(CommandNext(s, CmdFinaliseOnly(k, preempt)))
  {
    hide SizeOk, OrderOk, Control, CommandNext;
    FinaliseOnlyControl(s, k, preempt);
    FinaliseOnlySize(s, k, preempt);
    FinaliseOnlyOrder(s, k, preempt);
  }

  lemma FinaliseOnlySize(s: State, k: nat, preempt: bool)
    requires CommandEnabled(s, CmdFinaliseOnly(k, preempt)) && SizeOk(s)
    ensures SizeOk(CommandNext(s, CmdFinaliseOnly(k, preempt)))
  {
    hide Total, HeldTotal, StaleTotal, Sum;
    var c := s.cmd;
    TotalConcat(c.oq[..k], c.oq[k..]);
    TotalConcat(c.foq, c.oq[..k]);
    assert c.oq[..k] + c.oq[k..] == c.oq;
  }

  lemma FinaliseOnlyOrder(s: State, k: nat, preempt: bool)
    requires CommandEnabled(s, CmdFinaliseOnly(k, preempt)) && OrderOk(s) && Control(s)
    ensures OrderOk(CommandNext(s, CmdFinaliseOnly(k, preempt)))
  {
    FinQTaken(s);
    assert s.connected;
    hide Line, Control;
    LineFinaliseOnly(s.sent, s.cmd.foq, s.cmd.oq, s.outQ, k);
  }

  lemma FinaliseOnlyControl(s: State, k: nat, preempt: bool)
    requires CommandEnabled(s, CmdFinaliseOnly(k, preempt)) && Control(s)
    ensures Control(CommandNext(s, CmdFinaliseOnly(k, preempt)))
  {
  }

  lemma WrittenKeeps(s: State)
    requires CommandEnabled(s, CmdWritten) && Inv(s)
    ensures Inv(CommandNext(s, CmdWritten))
  {
    WrittenControl(s);
    hide Total, HeldTotal, StaleTotal, Sum, Line, Control;
  }

  lemma WrittenControl(s: State)
    requires CommandEnabled(s, CmdWritten) && Control(s)
    ensures Control(CommandNext(s, CmdWritten))
  {
    if s.cmd.deBusy && !s.cmd.prtBusy && s.qsize - s.cmd.spent < BUSY_LIMIT {
      if s.exit { } else { }
    } else {
    }
  }

  lemma PutBackKeeps(s: State)
    requires CommandEnabled(s, CmdPutBack) && Inv(s)
    ensures Inv(CommandNext(s, CmdPutBack))
  {
    hide Total, HeldTotal, StaleTotal, Sum, Line;
    NoBytes();
    if s.cmd.oq != [] {
      TotalConcat(s.cmd.oq, s.outQ);
      LinePutBack(s.sent, s.cmd.foq, s.cmd.oq, s.outQ);
    }
  }

  predicate Ending(st: Step) {
    st == CmdSchedule || st == CmdQueue
  }

  lemma EndKeeps(s: State, st: Step)
    requires Ending(st) && CommandEnabled(s, st) && Inv(s)
    ensures Inv(CommandNext(s, st))
  {
    hide Data, Control, CommandNext, CommandEnabled;
    if st == CmdSchedule { ExchangeControl(s); } else { QueueControl(s); }
    EndData(s, st);
  }

  lemma EndData(s: State, st: Step)
    requires Ending(st) && CommandEnabled(s, st) && Data(s)
    ensures Data(CommandNext(s, st))
  {
    hide Data;
    DataFrame(s, CommandNext(s, st));
  }

  lemma ExchangeControl(s: State)
    requires CommandEnabled(s, CmdSchedule) && Control(s)
    ensures Control(CommandNext(s, CmdSchedule))
  {
  }

  lemma QueueControl(s: State)
    requires CommandEnabled(s, CmdQueue) && Control(s)
    ensures Control(CommandNext(s, CmdQueue))
  {
  }

  lemma FinishKeeps(s: State)
    requires CommandEnabled(s, CmdFinish) && Inv(s)
    ensures Inv(CommandNext(s, CmdFinish))
  {
    hide Total, HeldTotal, StaleTotal, Sum, Line;
    NoBytes();
    LineTake(s.sent, s.cmd.foq, s.outQ);
    LinePutBack(s.sent, s.cmd.foq, s.outQ, []);
    assert s.outQ + [] == s.outQ;
  }

  lemma CommandKeeps(s: State, st: Step)
    requires CommandEnabled(s, st) && Inv(s)
    ensures Inv(CommandNext(s, st))
  {
    hide Inv, CommandNext;
    match st
    case CmdTake => TakeKeeps(s);
    case CmdDecide(preempt) => DecideKeeps(s, preempt);
    case CmdMark => MarkKeeps(s);
    case CmdSendFinal(fate) => SendFinalKeeps(s, fate);
    case CmdFinalise => FinaliseKeeps(s);
    case CmdSend(fate) => SendKeeps(s, fate);
    case CmdFinaliseOnly(k, preempt) => FinaliseOnlyKeeps(s, k, preempt);
    case CmdWritten => WrittenKeeps(s);
    case CmdPutBack => PutBackKeeps(s);
    case CmdFinish => FinishKeeps(s);
    case _ =>
      if Starting(st) { StartKeeps(s, st); } else { EndKeeps(s, st); }
  }

  // ----- the port and the connection -----

  lemma ClearKeeps(s: State)
    requires ConnectionEnabled(s, DownClear) && Inv(s)
    ensures Inv(Clear(s))
  {
    ClearControl(s);
    CutApart(s);
    hide Total, HeldTotal, StaleTotal, Sum, Line, Control;
    NoBytes();
    SumSnoc(s.freed, Total(s.outQ) + Total(s.finQ));
    if s.cmd.at.Dead? { StaleSnoc(s.stale, StaleOf(s.cmd, Total(s.outQ) + Total(s.finQ))); }
  }

  lemma CutApart(s: State)
    requires Control(s) && s.down == Cut
    ensures !s.connected
    ensures s.cmd.at.Dead? || (s.cmd.oq == [] && s.cmd.foq == [] && s.cmd.spent == 0)
  {
  }

  lemma ClearControl(s: State)
    requires ConnectionEnabled(s, DownClear) && Control(s)
    ensures Control(Clear(s))
  {
    hide Total, StaleOf;
  }

  lemma CutKeeps(s: State)
    requires ConnectionEnabled(s, DownCut) && Inv(s)
    ensures Inv(ConnectionNext(s, DownCut))
  {
    hide Total, HeldTotal, StaleTotal, Sum, Line;
    LinePrefix(s.sent, s.finQ, s.cmd.foq, s.cmd.oq, s.outQ);
  }

  lemma ConnectKeeps(s: State, portBusy: bool)
    requires ConnectionEnabled(s, Connect(portBusy)) && Inv(s)
    ensures Inv(ConnectionNext(s, Connect(portBusy)))
  {
    hide Total, HeldTotal, StaleTotal, Sum;
  }

  lemma StaleDeductKeeps(s: State, i: nat)
    requires ConnectionEnabled(s, StaleDeduct(i)) && Inv(s)
    ensures Inv(ConnectionNext(s, StaleDeduct(i)))
  {
    StaleDeductControl(s, i);
    OrderFrame(s, ConnectionNext(s, StaleDeduct(i)));
    hide Total, HeldTotal, StaleTotal, Sum, OrderOk, Drop, Control;
    StaleDrop(s.stale, i);
  }

  lemma StaleDeductControl(s: State, i: nat)
    requires ConnectionEnabled(s, StaleDeduct(i)) && Control(s)
    ensures Control(ConnectionNext(s, StaleDeduct(i)))
  {
    hide Drop;
    var x := s.stale[i];
    if x.finishing && x.deBusy && !x.prtBusy && s.qsize - x.amount < BUSY_LIMIT {
      if s.exit { } else { }
    } else {
    }
  }

  lemma StaleFreeKeeps(s: State, i: nat)
    requires ConnectionEnabled(s, StaleFree(i)) && Inv(s)
    ensures Inv(ConnectionNext(s, StaleFree(i)))
  {
    assert Control(ConnectionNext(s, StaleFree(i)));
    OrderFrame(s, ConnectionNext(s, StaleFree(i)));
    hide Total, HeldTotal, StaleTotal, Sum, OrderOk, Control;
    StaleUpdate(s.stale, i, s.stale[i].(loose := 0));
  }

  lemma StaleMarkKeeps(s: State, i: nat)
    requires ConnectionEnabled(s, StaleMark(i)) && Inv(s)
    ensures Inv(ConnectionNext(s, StaleMark(i)))
  {
    assert Control(ConnectionNext(s, StaleMark(i)));
    OrderFrame(s, ConnectionNext(s, StaleMark(i)));
    hide Total, HeldTotal, StaleTotal, Sum, OrderOk, Control;
    StaleUpdate(s.stale, i, s.stale[i].(mark := false, deBusy := true, prtBusy := true));
  }

  lemma DeductKeeps(s: State, i: nat)
    requires ConnectionEnabled(s, DownDeduct(i)) && Inv(s)
    ensures Inv(ConnectionNext(s, DownDeduct(i)))
  {
    assert Control(ConnectionNext(s, DownDeduct(i)));
    OrderFrame(s, ConnectionNext(s, DownDeduct(i)));
    hide Total, HeldTotal, StaleTotal, Sum, OrderOk, Drop, Control;
    SumDrop(s.freed, i);
  }

  predicate Notice(st: Step) {
    st == PortBusyOn || st == PortBusyOff || st == Kill || st == DownAnnounce || st.WaitExit?
  }

  lemma SignalKeeps(s: State, st: Step)
    requires Notice(st) && ConnectionEnabled(s, st) && Inv(s)
    ensures Inv(ConnectionNext(s, st))
  {
    hide Total, HeldTotal, StaleTotal, Sum, Line;
  }

  lemma ConnectionKeeps(s: State, st: Step)
    requires ConnectionEnabled(s, st) && Inv(s)
    ensures Inv(ConnectionNext(s, st))
  {
    hide Inv, Clear;
    match st
    case DownClear => ClearKeeps(s);
    case DownCut => CutKeeps(s);
    case Connect(portBusy) => ConnectKeeps(s, portBusy);
    case StaleDeduct(i) => StaleDeductKeeps(s, i);
    case StaleFree(i) => StaleFreeKeeps(s, i);
    case StaleMark(i) => StaleMarkKeeps(s, i);
    case DownDeduct(i) => DeductKeeps(s, i);
    case _ => SignalKeeps(s, st);
  }

  lemma StepKeeps(s: State, st: Step)
    requires Enabled(s, st) && Inv(s)
    ensures Inv(Next(s, st))
  {
    hide Inv, SenderNext, CommandNext, ConnectionNext, SenderEnabled, CommandEnabled, ConnectionEnabled;
    if SenderEnabled(s, st) { SenderKeeps(s, st); }
    else if CommandEnabled(s, st) { CommandKeeps(s, st); }
    else { ConnectionKeeps(s, st); }
  }
}
