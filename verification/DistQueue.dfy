/** The output side of one distribution entry: the out queue and the finalised
  * queue, the byte count `qsize`, the busy and exit flags and the list of
  * suspended processes, with every thread that touches them. One step is one
  * lock section (or one atomic exchange) of dist.c. */
module DistQueue {
  import opened Sequences

  // ERTS_DE_BUSY_LIMIT
  const BUSY_LIMIT := 128 * 1024

  // An encoded signal; `size` is size_obuf, which counts the buffer header.
  datatype Buf = Buf(id: nat, size: nat)

  // A sender that has added its size to qsize and released the queue lock to suspend itself.
  datatype Held = Held(proc: nat, buf: Buf)

  /** Where the running dist command is. */
  datatype Phase =
    | Idle                    // no command is running on the port
    | Entered                 // dist_cmd_scheduled not yet cleared
    | Cleared                 // cleared, entry status not yet read
    | Alive                   // entry is not exiting, queues not yet taken
    | Taken                   // both queues are local to the command
    | StartBusy               // port busy at start, about to raise the busy flag
    | SendFinal               // about to send the head of the finalised queue
    | FinalBusy(pre: bool)    // port turned busy in that loop
    | SendNext                // about to finalise the head of the out queue
    | Ready                   // head of the out queue finalised, about to be sent
    | NextBusy(pre: bool)     // port turned busy in that loop
    | FinaliseOnly            // port busy: finalise what is left without sending
    | Written                 // all sent, about to deduct and maybe resume
    | Preempted               // about to put the rest back
    | Rescheduling            // about to exchange dist_cmd_scheduled
    | Queueing                // won the exchange, about to queue the port task
    | Finishing               // about to deduct and to store the finalised queue
    | Dead(last: bool, mark: bool) // the port died inside send
    | Unbusied                // no command: the port stopped being busy, about to exchange dist_cmd_scheduled
    | Signalling              // no command: won that exchange, about to queue the port task

  datatype Cmd = Cmd(at: Phase, oq: seq<Buf>, foq: seq<Buf>, spent: nat, deBusy: bool, prtBusy: bool)

  // What is left to do for a command whose port died under it. Its own thread tore the
  // connection down inside send: first it deducts the `loose` bytes which that freed, and
  // only then does it return to the command.
  datatype Stale = Stale(loose: nat, amount: nat, mark: bool, finishing: bool, deBusy: bool, prtBusy: bool)

  datatype Down = NoDown | Announced | Cut

  datatype State = State(
    connected: bool, conn: nat, exiting: bool,
    outQ: seq<Buf>, finQ: seq<Buf>, qsize: int, busy: bool, exit: bool, suspended: seq<nat>,
    scheduled: bool, task: bool, portBusy: bool,
    held: seq<Held>, toSchedule: nat, toQueue: nat,
    cmd: Cmd, down: Down, stale: seq<Stale>, freed: seq<nat>,
    enqueued: seq<Buf>, finalised: seq<Buf>, sent: seq<Buf>)

  // What the driver does to the port inside one send, and whether the reductions ran out.
  datatype Fate = Fate(dies: bool, busy: bool, preempt: bool)

  datatype Step =
    // dsig_send; the last two also end erts_kill_dist_connection
    | SendBegin(proc: nat, buf: Buf, force: bool, prepared: nat)
    | SendEnqueue(i: nat)
    | SendSchedule
    | SendQueue
    // erts_dist_command
    | TaskRun
    | CmdClear
    | CmdCheck
    | CmdTake
    | CmdDecide(preempt: bool)
    | CmdMark
    | CmdSendFinal(fate: Fate)
    | CmdFinalise
    | CmdSend(fate: Fate)
    | CmdFinaliseOnly(k: nat, preempt: bool)
    | CmdWritten
    | CmdPutBack
    | CmdSchedule
    | CmdQueue
    | CmdFinish
    // the port
    | PortBusyOn
    | PortBusyOff
    // erts_kill_dist_connection, erts_do_net_exits, clear_dist_entry, setnode_3
    | Kill
    | DownAnnounce
    | DownCut
    | DownClear
    | DownDeduct(i: nat)
    | StaleFree(i: nat)
    | StaleMark(i: nat)
    | StaleDeduct(i: nat)
    | Connect(portBusy: bool)
    | WaitExit(proc: nat)

  const IDLE := Cmd(Idle, [], [], 0, false, false)

  // A dist entry that was never connected.
  predicate Init(s: State) {
    && !s.connected && !s.exiting && s.outQ == [] && s.finQ == [] && s.qsize == 0
    && !s.busy && !s.exit && s.suspended == [] && !s.scheduled && !s.task
    && s.cmd == IDLE && s.down == NoDown && NoReaders(s) && s.stale == [] && s.freed == []
    && s.enqueued == [] && s.finalised == [] && s.sent == []
  }

  function Total(q: seq<Buf>): nat {
    if q == [] then 0 else q[0].size + Total(q[1..])
  }

  function HeldTotal(q: seq<Held>): nat {
    if q == [] then 0 else q[0].buf.size + HeldTotal(q[1..])
  }

  function StaleTotal(q: seq<Stale>): nat {
    if q == [] then 0 else q[0].loose + q[0].amount + StaleTotal(q[1..])
  }

  function Sum(q: seq<nat>): nat {
    if q == [] then 0 else q[0] + Sum(q[1..])
  }

  // No sender is inside the read-locked part of dsig_send, and no kill is under way.
  predicate NoReaders(s: State) {
    s.held == [] && s.toSchedule == 0 && s.toQueue == 0
  }

  // The port lock of the current connection is free.
  predicate PortFree(s: State) {
    s.connected && s.cmd.at == Idle && s.down == NoDown
  }

  predicate SenderEnabled(s: State, st: Step) {
    match st
    case SendBegin(_, buf, _, _) => buf.size > 0
    case SendEnqueue(i) => i < |s.held|
    case SendSchedule => s.toSchedule > 0
    case SendQueue => s.toQueue > 0
    case _ => false
  }

  predicate CommandEnabled(s: State, st: Step) {
    match st
    case TaskRun => s.task && PortFree(s)
    case CmdClear => s.cmd.at == Entered
    case CmdCheck => s.cmd.at == Cleared
    case CmdTake => s.cmd.at == Alive
    case CmdDecide(_) => s.cmd.at == Taken
    case CmdMark => s.cmd.at == StartBusy || s.cmd.at.FinalBusy? || s.cmd.at.NextBusy?
    case CmdSendFinal(_) => s.cmd.at == SendFinal && s.cmd.foq != []
    case CmdFinalise => s.cmd.at == SendNext && s.cmd.oq != []
    case CmdSend(_) => s.cmd.at == Ready && s.cmd.oq != []
    case CmdFinaliseOnly(k, preempt) =>
      s.cmd.at == FinaliseOnly && 0 < k <= |s.cmd.oq| && (preempt || k == |s.cmd.oq|)
    case CmdWritten => s.cmd.at == Written
    case CmdPutBack => s.cmd.at == Preempted
    case CmdSchedule => s.cmd.at == Rescheduling || s.cmd.at == Unbusied
    case CmdQueue => s.cmd.at == Queueing || s.cmd.at == Signalling
    case CmdFinish => s.cmd.at == Finishing
    case _ => false
  }

  predicate ConnectionEnabled(s: State, st: Step) {
    match st
    case PortBusyOn => PortFree(s)
    case PortBusyOff => PortFree(s)
    case Kill => s.connected && !s.exiting && NoReaders(s)
    case DownAnnounce => PortFree(s)
    case DownCut => s.down == Announced && NoReaders(s)
    case DownClear => s.down == Cut && NoReaders(s)
    case DownDeduct(i) => i < |s.freed|
    case StaleFree(i) => i < |s.stale| && s.stale[i].loose > 0
    case StaleMark(i) => i < |s.stale| && s.stale[i].loose == 0 && s.stale[i].mark
    case StaleDeduct(i) => i < |s.stale| && s.stale[i].loose == 0 && !s.stale[i].mark
    case Connect(_) => !s.connected && !s.exiting && s.down == NoDown && NoReaders(s)
    case WaitExit(_) => s.exiting && NoReaders(s)
    case _ => false
  }

  predicate Enabled(s: State, st: Step) {
    SenderEnabled(s, st) || CommandEnabled(s, st) || ConnectionEnabled(s, st)
  }

  /** The first lock section of dsig_send: nothing happens when the connection
    * is not the one the signal was prepared for. */
  function Begin(s: State, proc: nat, buf: Buf, force: bool, prepared: nat): State {
    if !s.connected || s.conn != prepared || s.exiting then s
    else
      var size := s.qsize + buf.size;
      var busy := s.busy || size >= BUSY_LIMIT;
      if !force && busy then
        s.(qsize := size, busy := busy, held := s.held + [Held(proc, buf)])
      else
        s.(qsize := size, busy := busy, outQ := s.outQ + [buf], enqueued := s.enqueued + [buf],
           toSchedule := s.toSchedule + 1)
  }

  /** The second lock section, for a sender that suspended itself. */
  function Enqueue(s: State, i: nat): State
    requires i < |s.held|
  {
    var h := s.held[i];
    s.(held := Drop(s.held, i), outQ := s.outQ + [h.buf], enqueued := s.enqueued + [h.buf],
       suspended := if s.busy then s.suspended + [h.proc] else s.suspended,
       toSchedule := s.toSchedule + 1)
  }

  function SenderNext(s: State, st: Step): State
    requires SenderEnabled(s, st)
  {
    match st
    case SendBegin(proc, buf, force, prepared) => Begin(s, proc, buf, force, prepared)
    case SendEnqueue(i) => Enqueue(s, i)
    case SendSchedule =>
      s.(toSchedule := s.toSchedule - 1, scheduled := true,
         toQueue := if s.scheduled then s.toQueue else s.toQueue + 1)
    case SendQueue => s.(toQueue := s.toQueue - 1, task := true)
  }

  // Deduct; if the entry was busy, the port is not and there is room, lower the
  // busy flag and, unless an exit is scheduled, resume everybody.
  function DeductAndResume(s: State, amount: nat, deBusy: bool, prtBusy: bool): State {
    var left := s.qsize - amount;
    var clear := deBusy && !prtBusy && left < BUSY_LIMIT;
    s.(qsize := left, busy := s.busy && !clear, suspended := if clear && !s.exit then [] else s.suspended)
  }

  // The command now knows that the port is busy.
  function AfterBusy(c: Cmd): Phase {
    if c.oq != [] then FinaliseOnly else Finishing
  }

  function NextOrWritten(oq: seq<Buf>): Phase {
    if oq != [] then SendNext else Written
  }

  function Decide(s: State, preempt: bool): Phase {
    if preempt then Preempted
    else if s.portBusy then (if s.cmd.deBusy then AfterBusy(s.cmd) else StartBusy)
    else if s.cmd.foq != [] then SendFinal
    else NextOrWritten(s.cmd.oq)
  }

  // One send from the finalised queue.
  function SentFinal(s: State, fate: Fate): State
    requires s.cmd.foq != []
  {
    var rest := s.cmd.foq[1..];
    var next :=
      if fate.dies then Dead(false, fate.busy)
      else if fate.busy then FinalBusy(fate.preempt)
      else if fate.preempt then Preempted
      else if rest != [] then SendFinal
      else NextOrWritten(s.cmd.oq);
    Passed(s, s.cmd.foq[0], fate, s.cmd.(at := next, foq := rest, spent := s.cmd.spent + s.cmd.foq[0].size))
  }

  // One send from the out queue, after its head was finalised.
  function SentNext(s: State, fate: Fate): State
    requires s.cmd.oq != []
  {
    var rest := s.cmd.oq[1..];
    var next :=
      if fate.dies then Dead(rest == [], fate.busy)
      else if fate.busy then NextBusy(fate.preempt)
      else if fate.preempt && rest != [] then Preempted
      else NextOrWritten(rest);
    Passed(s, s.cmd.oq[0], fate, s.cmd.(at := next, oq := rest, spent := s.cmd.spent + s.cmd.oq[0].size))
  }

  // The driver got `b`; when that kills the port, erts_do_net_exits starts at once.
  function Passed(s: State, b: Buf, fate: Fate, c: Cmd): State {
    s.(sent := s.sent + [b], portBusy := fate.busy, cmd := c,
       scheduled := s.scheduled || fate.dies, down := if fate.dies then Announced else s.down)
  }

  function Mark(s: State): State {
    var c := s.cmd.(deBusy := true, prtBusy := true);
    var next :=
      match s.cmd.at
      case FinalBusy(pre) => if pre then Preempted else AfterBusy(c)
      case NextBusy(pre) => if c.oq == [] then Written else if pre then Preempted else FinaliseOnly
      case _ => AfterBusy(c);
    s.(busy := true, cmd := c.(at := next))
  }

  // Unhandled buffers go back to the front of the out queue.
  function PutBack(s: State): State {
    var c := s.cmd;
    if c.oq == [] then s.(cmd := c.(at := Rescheduling))
    else s.(qsize := s.qsize - c.spent, outQ := c.oq + s.outQ, cmd := c.(oq := [], spent := 0, at := Rescheduling))
  }

  // Where erts_schedule_dist_command leads a thread that holds the port lock.
  function Exchanged(at: Phase, done: bool): Phase {
    if at == Unbusied || at == Signalling then (if done then Idle else Signalling)
    else if done then Finishing
    else Queueing
  }

  function CommandNext(s: State, st: Step): State
    requires CommandEnabled(s, st)
  {
    var c := s.cmd;
    match st
    case TaskRun => s.(task := false, cmd := IDLE.(at := Entered))
    case CmdClear => s.(scheduled := false, cmd := c.(at := Cleared))
    case CmdCheck =>
      if s.exiting then s.(cmd := IDLE, scheduled := true, down := Announced)
      else s.(cmd := c.(at := Alive))
    case CmdTake =>
      s.(outQ := [], finQ := [], cmd := Cmd(Taken, s.outQ, s.finQ, 0, s.busy, false))
    case CmdDecide(preempt) =>
      s.(cmd := c.(at := Decide(s, preempt), prtBusy := !preempt && s.portBusy))
    case CmdMark => Mark(s)
    case CmdSendFinal(fate) => SentFinal(s, fate)
    case CmdFinalise => s.(finalised := s.finalised + [c.oq[0]], cmd := c.(at := Ready))
    case CmdSend(fate) => SentNext(s, fate)
    case CmdFinaliseOnly(k, preempt) =>
      s.(finalised := s.finalised + c.oq[..k],
         cmd := c.(foq := c.foq + c.oq[..k], oq := c.oq[k..], at := if preempt then Preempted else Finishing))
    case CmdWritten =>
      DeductAndResume(s, c.spent, c.deBusy, c.prtBusy).(cmd := c.(spent := 0, at := Finishing))
    case CmdPutBack => PutBack(s)
    case CmdSchedule => s.(scheduled := true, cmd := c.(at := Exchanged(c.at, s.scheduled)))
    case CmdQueue => s.(task := true, cmd := c.(at := Exchanged(c.at, true)))
    case CmdFinish => s.(qsize := s.qsize - c.spent, finQ := c.foq, cmd := IDLE)
  }

  /** clear_dist_entry up to releasing its locks: the queues are cut loose, the
    * flags dropped and everybody resumed. If a command of this port is inside
    * send, its thread is the one that tears down, and the command becomes a
    * stale one; otherwise the thread has only the freed bytes left to deduct. */
  function Clear(s: State): State {
    var loose := Total(s.outQ) + Total(s.finQ);
    s.(outQ := [], finQ := [], exiting := false, busy := false, exit := false, suspended := [],
       scheduled := false, portBusy := false, down := NoDown, cmd := IDLE,
       freed := if loose > 0 && !s.cmd.at.Dead? then s.freed + [loose] else s.freed,
       stale := if s.cmd.at.Dead? then s.stale + [StaleOf(s.cmd, loose)] else s.stale)
  }

  function StaleOf(c: Cmd, loose: nat): Stale
    requires c.at.Dead?
  {
    Stale(loose, Total(c.oq) + Total(c.foq) + c.spent, c.at.mark, c.at.last, c.deBusy, c.prtBusy)
  }

  function ConnectionNext(s: State, st: Step): State
    requires ConnectionEnabled(s, st)
  {
    match st
    case PortBusyOn => s.(portBusy := true)
    case PortBusyOff => s.(portBusy := false, cmd := IDLE.(at := Unbusied))
    case Kill => s.(exiting := true, exit := true, toSchedule := s.toSchedule + 1)
    case DownAnnounce => s.(scheduled := true, down := Announced)
    case DownCut => s.(task := false, exiting := true, exit := true, connected := false, down := Cut)
    case DownClear => Clear(s)
    case DownDeduct(i) => s.(qsize := s.qsize - s.freed[i], freed := Drop(s.freed, i))
    case StaleFree(i) =>
      s.(qsize := s.qsize - s.stale[i].loose, stale := s.stale[i := s.stale[i].(loose := 0)])
    case StaleMark(i) =>
      s.(busy := true, stale := s.stale[i := s.stale[i].(mark := false, deBusy := true, prtBusy := true)])
    case StaleDeduct(i) =>
      var x := s.stale[i];
      DeductAndResume(s, x.amount, x.finishing && x.deBusy, x.prtBusy).(stale := Drop(s.stale, i))
    case Connect(portBusy) =>
      s.(connected := true, conn := s.conn + 1, portBusy := portBusy, enqueued := [], finalised := [], sent := [])
    case WaitExit(proc) => s.(suspended := s.suspended + [proc])
  }

  function Next(s: State, st: Step): State
    requires Enabled(s, st)
  {
    if SenderEnabled(s, st) then SenderNext(s, st)
    else if CommandEnabled(s, st) then CommandNext(s, st)
    else ConnectionNext(s, st)
  }

  // A run: every step is enabled in the state the previous ones lead to.
  predicate Runs(s: State, steps: seq<Step>)
    decreases |steps|
  {
    steps == [] || (Enabled(s, steps[0]) && Runs(Next(s, steps[0]), steps[1..]))
  }

  function After(s: State, steps: seq<Step>): State
    requires Runs(s, steps)
    decreases |steps|
  {
    if steps == [] then s else After(Next(s, steps[0]), steps[1..])
  }
}
