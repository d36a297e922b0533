/** What each operation does to every slot of the table, stated without the functions that compute it. */
module TableEffects {
  import opened Wrappers
  import opened Words
  import opened Processes
  import opened TableSpec
  import opened TableRuns
  import opened TableHandles

  predicate Live(t: Table, pid: Pid) {
    exists i :: 0 <= i < |t.slots| && Finds(t.slots, i, pid)
  }

  /** Operations that leave every slot where it is, other than the two fan-outs. */
  predicate InPlace(op: TableOp) {
    !op.Spawn? && !op.Cleanup? && !op.PropagateExit? && !op.PropagateMonitors?
  }

  /** `q` is the other end of the link that `op` makes or breaks at process `p`. */
  predicate OtherEnd(a: Pid, b: Pid, p: Pid, q: Pid) {
    (p == a && q == b) || (p == b && q == a)
  }

  lemma LiveIff(t: Table, pid: Pid)
    ensures Live(t, pid) <==> IndexOf(t.slots, pid).Some?
  {
    var r := IndexOf(t.slots, pid);
    if r.Some? {
      assert Finds(t.slots, r.value, pid);
    }
  }

  /** Linking adds each end to the other's links, once, and touches nothing else. */
  lemma LinkEffect(t: Table, a: Pid, b: Pid, i: nat)
    requires t.nextIndex <= |t.slots| && UniquePids(t.slots) && i < |t.slots| && t.slots[i].Some?
    ensures var t', p := Step(t, Link(a, b)), t.slots[i].value;
            && |t'.slots| == |t.slots| && t'.slots[i].Some?
            && var p' := t'.slots[i].value;
               && p'.(links := p.links) == p && p.links <= p'.links
               && forall q :: q in p'.links <==>
                    q in p.links || (Live(t, a) && Live(t, b) && OtherEnd(a, b, p.pid, q))
  {
    LiveIff(t, a);
    LiveIff(t, b);
    IndexOfUnique(t.slots, i);
  }

  /** Unlinking removes each end from the other's links and touches nothing else. */
  lemma UnlinkEffect(t: Table, a: Pid, b: Pid, i: nat)
    requires t.nextIndex <= |t.slots| && UniquePids(t.slots) && i < |t.slots| && t.slots[i].Some?
    ensures var t', p := Step(t, Unlink(a, b)), t.slots[i].value;
            && |t'.slots| == |t.slots| && t'.slots[i].Some?
            && var p' := t'.slots[i].value;
               && p'.(links := p.links) == p
               && forall q :: q in p'.links <==>
                    q in p.links && !(Live(t, a) && Live(t, b) && OtherEnd(a, b, p.pid, q))
  {
    LiveIff(t, a);
    LiveIff(t, b);
    IndexOfUnique(t.slots, i);
  }

  /** After a link and an unlink of two live processes neither holds the other. */
  lemma UnlinkUndoesLink(t: Table, a: Pid, b: Pid, i: nat)
    requires t.nextIndex <= |t.slots| && UniquePids(t.slots) && i < |t.slots| && t.slots[i].Some?
    requires Live(t, a) && Live(t, b)
    ensures var t', p := Step(Step(t, Link(a, b)), Unlink(a, b)), t.slots[i].value;
            && |t'.slots| == |t.slots| && t'.slots[i].Some?
            && t'.slots[i].value.(links := p.links) == p
            && forall q :: q in t'.slots[i].value.links <==> q in p.links && !OtherEnd(a, b, p.pid, q)
  {
    hide LinkIn, UnlinkIn;
    var u := Step(t, Link(a, b));
    LocalStep(t, Link(a, b));
    SameLive(t, u, a);
    SameLive(t, u, b);
    LinkEffect(t, a, b, i);
    UnlinkEffect(u, a, b, i);
  }

  lemma SameLive(t: Table, u: Table, pid: Pid)
    requires SamePids(t.slots, u.slots) && Live(t, pid)
    ensures Live(u, pid)
  {
    var i :| 0 <= i < |t.slots| && Finds(t.slots, i, pid);
    assert Finds(u.slots, i, pid);
  }

  /** What an operation addressed to one process makes of that process. */
  function Addressed(p: Pcb, op: TableOp): Option<Pcb> {
    match op
    case Terminate(_) => None
    case MarkExited(_, reason) =>
      Some(p.(exitReason := reason, state := if p.state == Running || p.state == Waiting then Exiting else p.state))
    case SetState(_, s) => Some(if ValidTransition(p.state, s) then p.(state := s) else p)
    case TrapExit(_, flag) => Some(p.(trapExit := flag))
    case Monitor(_, target, refId) => Some(p.(monitors := p.monitors + [MonitorRef(refId, target)]))
    case Send(_, msg) =>
      Some(if p.state == Running || p.state == Waiting || p.state == Suspended
           then p.(mailbox := p.mailbox + [Message(msg)]) else p)
    case _ => Some(p)
  }

  function Address(op: TableOp): Option<Pid> {
    match op
    case Terminate(pid) => Some(pid)
    case MarkExited(pid, _) => Some(pid)
    case SetState(pid, _) => Some(pid)
    case TrapExit(pid, _) => Some(pid)
    case Monitor(pid, _, _) => Some(pid)
    case Send(pid, _) => Some(pid)
    case _ => None
  }

  /** An operation addressed to one process changes that process as stated, and no other. */
  lemma AddressedEffect(t: Table, op: TableOp, i: nat)
    requires t.nextIndex <= |t.slots| && UniquePids(t.slots) && i < |t.slots| && Address(op).Some?
    ensures var t' := Step(t, op);
            && |t'.slots| == |t.slots| && t'.nextIndex == t.nextIndex && t'.counter == t.counter
            && t'.reuse == (if op.Terminate? && Live(t, op.pid) then t.reuse + [op.pid] else t.reuse)
            && t'.slots[i] == match t.slots[i]
                              case None => None
                              case Some(p) => if Some(p.pid) == Address(op) then Addressed(p, op) else Some(p)
  {
    LiveIff(t, Address(op).value);
    if t.slots[i].Some? {
      IndexOfUnique(t.slots, i);
    }
  }

  /** A message is accepted exactly if the process exists and is running, waiting or suspended. */
  lemma AcceptsIff(t: Table, pid: Pid, i: nat)
    requires UniquePids(t.slots) && Finds(t.slots, i, pid)
    ensures var s := t.slots[i].value.state;
            Accepts(t.slots, pid) <==> s == Running || s == Waiting || s == Suspended
  {
    IndexOfUnique(t.slots, i);
  }

  lemma AcceptsNobody(t: Table, pid: Pid)
    requires !Live(t, pid)
    ensures !Accepts(t.slots, pid)
  {
    LiveIff(t, pid);
  }

  /** A new process runs, traps nothing, knows nobody and has no mail; the other slots stay. */
  lemma SpawnEffect(t: Table)
    requires t.nextIndex == |t.slots|
    ensures var t', n := Step(t, Spawn), |t.slots|;
            && |t'.slots| == n + 1 == t'.nextIndex && t'.slots[..n] == t.slots && t'.slots[n].Some?
            && var p := t'.slots[n].value;
               && p.state == Running && !p.trapExit && p.exitReason == FromAtom(8)
               && p.links == [] && p.monitors == [] && p.mailbox == [] && p.saved == []
               && p.pid.creation == (if t.reuse == [] then t.creation else t.reuse[|t.reuse| - 1].creation)
  {
    assert SpawnIn(t).slots == t.slots + [Some(NewPcb(NextPid(t)))];
  }

  /** The PID of the process that ended last comes back first, with the next of 2^13 serials. */
  lemma LastEndedFirstReused(t: Table, pid: Pid)
    requires t.nextIndex == |t.slots| && Live(t, pid)
    ensures var u := Step(t, Terminate(pid));
            var t', n := Step(u, Spawn), |t.slots|;
            && |t'.slots| == n + 1 && t'.slots[n].Some? && t'.reuse == t.reuse && t'.counter == t.counter
            && var serial := if pid.serial % 0x2000 == 0x1FFF then 0 else pid.serial % 0x2000 + 1;
               t'.slots[n].value.pid == Pid(pid.id, serial, pid.creation)
  {
    LiveIff(t, pid);
    var u := Step(t, Terminate(pid));
    assert u.reuse == t.reuse + [pid];
    assert SpawnIn(u).slots == u.slots + [Some(NewPcb(NextPid(u)))];
  }

  /** Cleanup drops the empty slots and keeps the processes, as they are and in their order. */
  lemma CleanupEffect(t: Table, i: nat, j: nat)
    requires i < j < |t.slots| && t.slots[i].Some? && t.slots[j].Some? && t.nextIndex <= |t.slots|
    ensures var t' := Step(t, Cleanup);
            && t'.nextIndex == |t'.slots| && t'.reuse == t.reuse && t'.counter == t.counter
            && (forall k :: 0 <= k < |t'.slots| ==> t'.slots[k].Some?)
            && exists m, n :: 0 <= m < n < |t'.slots| && t'.slots[m] == t.slots[i] && t'.slots[n] == t.slots[j]
  {
    MovedTo(t.slots, i);
    MovedTo(t.slots, j);
    var t' := Step(t, Cleanup);
    forall k | 0 <= k < |t'.slots| ensures t'.slots[k].Some? {
      var from := MovedFrom(t.slots, k);
    }
    assert t.slots[..j][..i] == t.slots[..i];
    MovedTo(t.slots[..j], i);
    assert NewIndex(t.slots, i) < NewIndex(t.slots, j);
  }

  /** The exit of a process that is not there concerns nobody. */
  lemma ExitOfNobody(t: Table, from: Pid, reason: Word)
    requires t.nextIndex <= |t.slots| && !Live(t, from)
    ensures Step(t, PropagateExit(from, reason)) == t
  {
    LiveIff(t, from);
  }
}
