/** The process table as a value, and what each of its operations does to it. */
module TableSpec {
  import opened Wrappers
  import opened Words
  import opened Processes

  type Slots = seq<Option<Pcb>>

  datatype Table = Table(slots: Slots, nextIndex: nat, counter: U32, creation: U32, reuse: seq<Pid>)

  function NewTable(creation: U32): Table {
    Table([], 0, 1, creation, [])
  }

  /** The first slot holding `pid`. */
  function IndexOf(slots: Slots, pid: Pid): (r: Option<nat>)
    ensures r.Some? ==> r.value < |slots| && slots[r.value].Some? && slots[r.value].value.pid == pid
    ensures r.None? ==> forall i :: 0 <= i < |slots| && slots[i].Some? ==> slots[i].value.pid != pid
    ensures r.Some? ==> forall i :: 0 <= i < r.value && slots[i].Some? ==> slots[i].value.pid != pid
    decreases |slots|
  {
    if slots == [] then None
    else if slots[0].Some? && slots[0].value.pid == pid then Some(0)
    else
      match IndexOf(slots[1..], pid)
      case None => None
      case Some(i) => Some(i + 1)
  }

  /** The next PID: a dead one with its serial advanced, or a fresh id from the wrapping counter. */
  function NextPid(t: Table): Pid {
    if t.reuse != [] then NextSerial(t.reuse[|t.reuse| - 1]) else Pid(t.counter, 0, t.creation)
  }

  function SpawnIn(t: Table): Table
    requires t.nextIndex <= |t.slots|
  {
    var slots := if t.nextIndex >= |t.slots| then t.slots + [None] else t.slots;
    t.(slots := slots[t.nextIndex := Some(NewPcb(NextPid(t)))],
       nextIndex := t.nextIndex + 1,
       counter := if t.reuse != [] then t.counter else (t.counter + 1) % TWO_32,
       reuse := if t.reuse != [] then t.reuse[..|t.reuse| - 1] else t.reuse)
  }

  function LinkIn(t: Table, a: Pid, b: Pid): Table {
    match (IndexOf(t.slots, a), IndexOf(t.slots, b))
    case (Some(i), Some(j)) =>
      var slots := t.slots[i := Some(WithLink(t.slots[i].value, b))];
      t.(slots := slots[j := Some(WithLink(slots[j].value, a))])
    case _ => t
  }

  function UnlinkIn(t: Table, a: Pid, b: Pid): Table {
    match (IndexOf(t.slots, a), IndexOf(t.slots, b))
    case (Some(i), Some(j)) =>
      var slots := t.slots[i := Some(WithoutLink(t.slots[i].value, b))];
      t.(slots := slots[j := Some(WithoutLink(slots[j].value, a))])
    case _ => t
  }

  function WithLink(p: Pcb, other: Pid): Pcb {
    p.(links := AddLink(p.links, other))
  }

  function WithoutLink(p: Pcb, other: Pid): Pcb {
    p.(links := RemoveLink(p.links, other))
  }

  function TerminateIn(t: Table, pid: Pid): Table {
    match IndexOf(t.slots, pid)
    case Some(i) => t.(slots := t.slots[i := None], reuse := t.reuse + [pid])
    case None => t
  }

  /** `retain(|opt| opt.is_some())`. */
  function Compacted(slots: Slots): Slots {
    if slots == [] then []
    else
      var n := |slots| - 1;
      Compacted(slots[..n]) + if slots[n].Some? then [slots[n]] else []
  }

  function CleanupIn(t: Table): Table {
    t.(slots := Compacted(t.slots), nextIndex := |Compacted(t.slots)|)
  }

  /** Apply `f` to the process with this PID. */
  function Modify(slots: Slots, pid: Pid, f: Pcb -> Pcb): Slots {
    match IndexOf(slots, pid)
    case Some(i) => slots[i := Some(f(slots[i].value))]
    case None => slots
  }

  // ---- Exit propagation ----------------------------------------------------------------------

  /** A trapping process gets an Exit signal, any other is told to exit. */
  function ExitSignalled(p: Pcb, from: Pid, reason: Word): Pcb {
    if p.trapExit then p.(mailbox := p.mailbox + [Exit(from, reason)]) else Exited(p, reason)
  }

  function NotifyAll(slots: Slots, from: Pid, reason: Word, pids: seq<Pid>): (r: Slots)
    ensures |r| == |slots|
    decreases |pids|
  {
    if pids == [] then slots
    else
      var n := |pids| - 1;
      Modify(NotifyAll(slots, from, reason, pids[..n]), pids[n], p => ExitSignalled(p, from, reason))
  }

  function PropagateExitIn(t: Table, from: Pid, reason: Word): Table {
    match IndexOf(t.slots, from)
    case Some(i) => t.(slots := NotifyAll(t.slots, from, reason, t.slots[i].value.links))
    case None => t
  }

  /** One DOWN, carrying the reference of the first monitor of the target. */
  function DownSent(p: Pcb, exited: Pid, reason: Word): Pcb {
    match FindMonitor(p.monitors, exited)
    case Some(m) => p.(mailbox := p.mailbox + [MonitorDown(m.refId, exited, reason)])
    case None => p
  }

  function AllPids(slots: Slots): seq<Pid> {
    if slots == [] then []
    else
      var n := |slots| - 1;
      AllPids(slots[..n]) + if slots[n].Some? then [slots[n].value.pid] else []
  }

  predicate MonitorsTarget(slots: Slots, pid: Pid, exited: Pid) {
    match IndexOf(slots, pid)
    case Some(i) => FindMonitor(slots[i].value.monitors, exited).Some?
    case None => false
  }

  function Monitoring(slots: Slots, pids: seq<Pid>, exited: Pid): seq<Pid> {
    if pids == [] then []
    else
      var n := |pids| - 1;
      Monitoring(slots, pids[..n], exited) + if MonitorsTarget(slots, pids[n], exited) then [pids[n]] else []
  }

  function DownAll(slots: Slots, exited: Pid, reason: Word, pids: seq<Pid>): (r: Slots)
    ensures |r| == |slots|
    decreases |pids|
  {
    if pids == [] then slots
    else
      var n := |pids| - 1;
      Modify(DownAll(slots, exited, reason, pids[..n]), pids[n], p => DownSent(p, exited, reason))
  }

  function PropagateMonitorsIn(t: Table, exited: Pid, reason: Word): Table {
    t.(slots := DownAll(t.slots, exited, reason, Monitoring(t.slots, AllPids(t.slots), exited)))
  }

  // ---- All operations ------------------------------------------------------------------------

  datatype TableOp =
    | Spawn
    | Link(a: Pid, b: Pid)
    | Unlink(a: Pid, b: Pid)
    | Terminate(pid: Pid)
    | Cleanup
    | PropagateExit(from: Pid, reason: Word)
    | PropagateMonitors(exited: Pid, reason: Word)
    | MarkExited(pid: Pid, reason: Word)
    | SetState(pid: Pid, state: ProcessState)
    | TrapExit(pid: Pid, flag: bool)
    | Monitor(pid: Pid, target: Pid, refId: nat)
    | Send(pid: Pid, msg: Word)

  predicate IsAlive(s: ProcessState) {
    s == Running || s == Waiting || s == Suspended
  }

  predicate Accepts(slots: Slots, pid: Pid) {
    var i := IndexOf(slots, pid);
    i.Some? && IsAlive(slots[i.value].value.state)
  }

  function Sent(p: Pcb, msg: Word): Pcb {
    if IsAlive(p.state) then p.(mailbox := p.mailbox + [Message(msg)]) else p
  }

  function Step(t: Table, op: TableOp): Table
    requires t.nextIndex <= |t.slots|
  {
    match op
    case Spawn => SpawnIn(t)
    case Link(a, b) => LinkIn(t, a, b)
    case Unlink(a, b) => UnlinkIn(t, a, b)
    case Terminate(pid) => TerminateIn(t, pid)
    case Cleanup => CleanupIn(t)
    case PropagateExit(from, reason) => PropagateExitIn(t, from, reason)
    case PropagateMonitors(exited, reason) => PropagateMonitorsIn(t, exited, reason)
    case MarkExited(pid, reason) => t.(slots := Modify(t.slots, pid, p => Exited(p, reason)))
    case SetState(pid, s) => t.(slots := Modify(t.slots, pid, p => WithState(p, s)))
    case TrapExit(pid, flag) => t.(slots := Modify(t.slots, pid, (p: Pcb) => p.(trapExit := flag)))
    case Monitor(pid, target, refId) =>
      t.(slots := Modify(t.slots, pid, (p: Pcb) => p.(monitors := p.monitors + [MonitorRef(refId, target)])))
    case Send(pid, msg) => t.(slots := Modify(t.slots, pid, p => Sent(p, msg)))
  }

  // ---- Fan-out is exact ----------------------------------------------------------------------

  ghost predicate UniquePids(slots: Slots) {
    forall i, j :: 0 <= i < j < |slots| && slots[i].Some? && slots[j].Some? ==>
      slots[i].value.pid != slots[j].value.pid
  }

  lemma IndexOfUnique(slots: Slots, i: nat)
    requires UniquePids(slots) && i < |slots| && slots[i].Some?
    ensures IndexOf(slots, slots[i].value.pid) == Some(i)
  {
  }

  ghost predicate SamePids(slots: Slots, slots': Slots) {
    && |slots'| == |slots|
    && forall i :: 0 <= i < |slots| ==>
        slots'[i].Some? == slots[i].Some? && (slots[i].Some? ==> slots'[i].value.pid == slots[i].value.pid)
  }

  /** What one exit does to a process, by whether it is linked. */
  function AfterExit(p: Pcb, from: Pid, reason: Word, linked: seq<Pid>): Pcb {
    if p.pid in linked then ExitSignalled(p, from, reason) else p
  }

  lemma {:induction false} NotifyAllExact(slots: Slots, from: Pid, reason: Word, pids: seq<Pid>)
    requires UniquePids(slots) && NoDuplicates(pids)
    ensures var r := NotifyAll(slots, from, reason, pids);
            && SamePids(slots, r)
            && forall i :: 0 <= i < |slots| && slots[i].Some? ==>
                r[i].value == AfterExit(slots[i].value, from, reason, pids)
    decreases |pids|
  {
    if pids != [] {
      var n := |pids| - 1;
      NotifyAllExact(slots, from, reason, pids[..n]);
      var mid := NotifyAll(slots, from, reason, pids[..n]);
      assert pids == pids[..n] + [pids[n]] && pids[n] !in pids[..n];
      assert UniquePids(mid);
    }
  }

  /**
   Exit propagation appends exactly one Exit to each linked process that traps exits, records the
   reason and moves each other linked process to Exiting if it was Running or Waiting, and leaves
   every unlinked process and the rest of the table alone.
   */
  lemma ExitFanOut(t: Table, from: Pid, reason: Word, f: nat, i: nat)
    requires UniquePids(t.slots) && f < |t.slots| && t.slots[f].Some? && t.slots[f].value.pid == from
    requires NoDuplicates(t.slots[f].value.links) && i < |t.slots|
    ensures var t' := PropagateExitIn(t, from, reason);
            && t'.(slots := t.slots) == t && |t'.slots| == |t.slots|
            && match t.slots[i]
               case None => t'.slots[i] == None
               case Some(p) =>
                 t'.slots[i] == Some(
                   if p.pid !in t.slots[f].value.links then p
                   else if p.trapExit then p.(mailbox := p.mailbox + [Exit(from, reason)])
                   else p.(exitReason := reason,
                           state := if p.state == Running || p.state == Waiting then Exiting else p.state))
  {
    IndexOfUnique(t.slots, f);
    NotifyAllExact(t.slots, from, reason, t.slots[f].value.links);
  }

  lemma {:induction false} MonitoringIs(slots: Slots, pids: seq<Pid>, exited: Pid)
    requires NoDuplicates(pids)
    ensures forall p :: p in Monitoring(slots, pids, exited) <==> p in pids && MonitorsTarget(slots, p, exited)
    ensures NoDuplicates(Monitoring(slots, pids, exited))
    decreases |pids|
  {
    if pids != [] {
      var n := |pids| - 1;
      MonitoringIs(slots, pids[..n], exited);
      assert pids == pids[..n] + [pids[n]] && pids[n] !in pids[..n];
    }
  }

  lemma {:induction false} AllPidsIs(slots: Slots)
    requires UniquePids(slots)
    ensures forall p :: p in AllPids(slots) <==>
              exists i :: 0 <= i < |slots| && slots[i].Some? && slots[i].value.pid == p
    ensures NoDuplicates(AllPids(slots))
    decreases |slots|
  {
    if slots != [] {
      var n := |slots| - 1;
      AllPidsIs(slots[..n]);
      assert slots == slots[..n] + [slots[n]];
      assert slots[n].Some? ==> slots[n].value.pid !in AllPids(slots[..n]);
    }
  }

  lemma {:induction false} DownAllExact(slots: Slots, exited: Pid, reason: Word, pids: seq<Pid>)
    requires UniquePids(slots) && NoDuplicates(pids)
    ensures var r := DownAll(slots, exited, reason, pids);
            && SamePids(slots, r)
            && forall i :: 0 <= i < |slots| && slots[i].Some? ==>
                r[i].value ==
                  if slots[i].value.pid in pids then DownSent(slots[i].value, exited, reason) else slots[i].value
    decreases |pids|
  {
    if pids != [] {
      var n := |pids| - 1;
      DownAllExact(slots, exited, reason, pids[..n]);
      var mid := DownAll(slots, exited, reason, pids[..n]);
      assert pids == pids[..n] + [pids[n]] && pids[n] !in pids[..n];
      assert UniquePids(mid);
    }
  }

  /** Exactly the processes with a monitor of the target get exactly one DOWN, for the first of them. */
  lemma MonitorFanOut(t: Table, exited: Pid, reason: Word, i: nat)
    requires UniquePids(t.slots) && i < |t.slots|
    ensures var t' := PropagateMonitorsIn(t, exited, reason);
            && t'.(slots := t.slots) == t && |t'.slots| == |t.slots|
            && match t.slots[i]
               case None => t'.slots[i] == None
               case Some(p) =>
                 t'.slots[i] == Some(
                   match FindMonitor(p.monitors, exited)
                   case None => p
                   case Some(m) => p.(mailbox := p.mailbox + [MonitorDown(m.refId, exited, reason)]))
  {
    AllPidsIs(t.slots);
    MonitoringIs(t.slots, AllPids(t.slots), exited);
    DownAllExact(t.slots, exited, reason, Monitoring(t.slots, AllPids(t.slots), exited));
    if t.slots[i].Some? {
      IndexOfUnique(t.slots, i);
    }
  }
}
