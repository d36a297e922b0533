/** The process table: owned control blocks in slots, updated in place. */
module ProcessTables {
  import opened Wrappers
  import opened Words
  import opened Processes
  import opened TableSpec
  import opened TableHandles

  class ProcessTable {
    var processes: seq<ProcessControlBlock?>
    var nextIndex: nat
    var pidCounter: U32
    const creation: U32
    var reuseQueue: seq<Pid>

    /** Slots own their control blocks: no block sits in two slots. */
    ghost predicate Valid()
      reads this
    {
      && nextIndex <= |processes|
      && forall i, j :: 0 <= i < j < |processes| && processes[i] != null ==> processes[i] != processes[j]
    }

    ghost function Blocks(): set<object?>
      reads this
    {
      set i | 0 <= i < |processes| :: processes[i]
    }

    ghost function Slots(): TableSpec.Slots
      reads this, Blocks()
    {
      seq(|processes|, i requires 0 <= i < |processes| reads this, Blocks() =>
        if processes[i] == null then None else Some(processes[i].View()))
    }

    ghost function View(): Table
      reads this, Blocks()
    {
      Table(Slots(), nextIndex, pidCounter, creation, reuseQueue)
    }

    constructor (creation: U32)
      ensures Valid() && View() == NewTable(creation)
    {
      processes, nextIndex, pidCounter, reuseQueue := [], 0, 1, [];
      this.creation := creation;
    }

    method NextPidFor() returns (pid: Pid)
      requires Valid()
      modifies `reuseQueue, `pidCounter
      ensures Valid() && pid == NextPid(old(View()))
      ensures pidCounter == (if old(reuseQueue) != [] then old(pidCounter) else (old(pidCounter) + 1) % TWO_32)
      ensures reuseQueue == (if old(reuseQueue) != [] then old(reuseQueue)[..|old(reuseQueue)| - 1] else [])
    {
      if reuseQueue != [] {
        var dead := reuseQueue[|reuseQueue| - 1];
        reuseQueue := reuseQueue[..|reuseQueue| - 1];
        pid := NextSerial(dead);
      } else {
        pid := Pid(pidCounter, 0, creation);
        pidCounter := (pidCounter + 1) % TWO_32;
      }
    }

    method Spawn() returns (index: nat, pid: Pid)
      requires Valid()
      modifies this
      ensures Valid() && View() == SpawnIn(old(View()))
      ensures index == old(nextIndex) && pid == NextPid(old(View()))
      ensures fresh(Blocks() - old(Blocks()) - {null})
    {
      pid := NextPidFor();
      index := nextIndex;
      if index >= |processes| {
        processes := processes + [null];
      }
      var pcb := new ProcessControlBlock(pid);
      processes := processes[index := pcb];
      nextIndex := nextIndex + 1;
      assert Slots() == SpawnIn(old(View())).slots;
    }

    method GetIndexByPid(pid: Pid) returns (r: Option<nat>)
      requires Valid()
      ensures r == IndexOf(Slots(), pid)
      ensures r.Some? ==> r.value < |processes| && processes[r.value] != null
    {
      hide IndexOf;
      var i := 0;
      while i < |processes|
        invariant 0 <= i <= |processes|
        invariant forall j :: 0 <= j < i && processes[j] != null ==> processes[j].pid != pid
      {
        if processes[i] != null && processes[i].pid == pid {
          FirstIndex(Slots(), pid, i);
          return Some(i);
        }
        i := i + 1;
      }
      NoIndex(Slots(), pid);
      r := None;
    }

    /** By slot only: the PID in the handle is not looked at. */
    method GetByHandle(index: nat) returns (pcb: ProcessControlBlock?)
      requires Valid()
      ensures pcb == null || (index < |processes| && pcb == processes[index])
      ensures forall pid :: Finds(Slots(), index, pid) <==> pcb != null && pcb.pid == pid
    {
      pcb := if index < |processes| then processes[index] else null;
    }

    method Terminate(pid: Pid) returns (found: bool)
      requires Valid()
      modifies this, Blocks()
      ensures Valid() && View() == TerminateIn(old(View()), pid)
      ensures found == IndexOf(old(Slots()), pid).Some?
    {
      hide IndexOf;
      var idx := GetIndexByPid(pid);
      if idx.None? {
        return false;
      }
      var _ := processes[idx.value].SetState(Dead);
      reuseQueue := reuseQueue + [pid];
      processes := processes[idx.value := null];
      assert Slots() == old(Slots())[idx.value := None];
      found := true;
    }

    /** `retain(|opt| opt.is_some())` and the new slot count. */
    method Cleanup()
      requires Valid()
      modifies this
      ensures Valid() && View() == CleanupIn(old(View()))
    {
      var kept := [];
      for i := 0 to |processes|
        invariant unchanged(this) && forall p :: p in kept ==> p != null && p in processes[..i]
        invariant forall j, k :: 0 <= j < k < |kept| ==> kept[j] != kept[k]
        invariant SlotsOf(kept) == Compacted(old(Slots())[..i])
      {
        assert old(Slots())[..i + 1][..i] == old(Slots())[..i];
        if processes[i] != null {
          assert processes[i] !in processes[..i];
          assert SlotsOf(kept + [processes[i]]) == SlotsOf(kept) + [Some(processes[i].View())];
          kept := kept + [processes[i]];
        }
      }
      assert old(Slots())[..|processes|] == old(Slots());
      processes := kept;
      nextIndex := |kept|;
      assert Slots() == SlotsOf(kept);
    }

    static ghost function SlotsOf(blocks: seq<ProcessControlBlock?>): TableSpec.Slots
      reads set i | 0 <= i < |blocks| :: blocks[i]
    {
      seq(|blocks|, i requires 0 <= i < |blocks| reads set i | 0 <= i < |blocks| :: blocks[i] =>
        if blocks[i] == null then None else Some(blocks[i].View()))
    }
  }

  lemma {:induction false} FirstIndex(slots: Slots, pid: Pid, i: nat)
    requires i < |slots| && slots[i].Some? && slots[i].value.pid == pid
    requires forall j :: 0 <= j < i && slots[j].Some? ==> slots[j].value.pid != pid
    ensures IndexOf(slots, pid) == Some(i)
  {
    assert slots[i].Some?;
  }

  lemma NoIndex(slots: Slots, pid: Pid)
    requires forall j :: 0 <= j < |slots| && slots[j].Some? ==> slots[j].value.pid != pid
    ensures IndexOf(slots, pid) == None
  {
  }

  // ---- Operations that take the table ----------------------------------------------------------

  method LinkAt(table: ProcessTable, i: nat, other: Pid)
    requires table.Valid() && i < |table.processes| && table.processes[i] != null
    modifies table.Blocks()
    ensures table.Valid() && table.processes == old(table.processes)
    ensures table.View() ==
            old(table.View()).(slots := old(table.Slots())[i := Some(WithLink(old(table.Slots())[i].value, other))])
  {
    table.processes[i].Link(other);
    assert table.Slots() == old(table.Slots())[i := Some(WithLink(old(table.Slots())[i].value, other))];
  }

  method UnlinkAt(table: ProcessTable, i: nat, other: Pid)
    requires table.Valid() && i < |table.processes| && table.processes[i] != null
    modifies table.Blocks()
    ensures table.Valid() && table.processes == old(table.processes)
    ensures table.View() ==
            old(table.View()).(slots := old(table.Slots())[i := Some(WithoutLink(old(table.Slots())[i].value, other))])
  {
    table.processes[i].Unlink(other);
    assert table.Slots() == old(table.Slots())[i := Some(WithoutLink(old(table.Slots())[i].value, other))];
  }

  method LinkWithTable(table: ProcessTable, a: Pid, b: Pid) returns (ok: bool)
    requires table.Valid()
    modifies table.Blocks()
    ensures table.Valid() && table.View() == LinkIn(old(table.View()), a, b)
    ensures ok == (IndexOf(old(table.Slots()), a).Some? && IndexOf(old(table.Slots()), b).Some?)
  {
    hide IndexOf, WithLink;
    var ia := table.GetIndexByPid(a);
    var ib := table.GetIndexByPid(b);
    ok := ia.Some? && ib.Some?;
    if ok {
      LinkAt(table, ia.value, b);
      LinkAt(table, ib.value, a);
    }
  }

  method UnlinkWithTable(table: ProcessTable, a: Pid, b: Pid) returns (ok: bool)
    requires table.Valid()
    modifies table.Blocks()
    ensures table.Valid() && table.View() == UnlinkIn(old(table.View()), a, b)
    ensures ok == (IndexOf(old(table.Slots()), a).Some? && IndexOf(old(table.Slots()), b).Some?)
  {
    hide IndexOf, WithoutLink;
    var ia := table.GetIndexByPid(a);
    var ib := table.GetIndexByPid(b);
    ok := ia.Some? && ib.Some?;
    if ok {
      UnlinkAt(table, ia.value, b);
      UnlinkAt(table, ib.value, a);
    }
  }

  /** Deliver one exit signal to the process with this PID, if it is there. */
  method NotifyOne(table: ProcessTable, pid: Pid, from: Pid, reason: Word)
    requires table.Valid()
    modifies table.Blocks()
    ensures table.Valid() && table.processes == old(table.processes)
    ensures table.View() ==
            old(table.View()).(slots := Modify(old(table.Slots()), pid, p => ExitSignalled(p, from, reason)))
  {
    hide IndexOf;
    var i := table.GetIndexByPid(pid);
    if i.Some? {
      var pcb := table.processes[i.value];
      if pcb.trapExit {
        pcb.Push(Exit(from, reason));
      } else {
        pcb.ExitWith(reason);
      }
      ghost var p := old(table.Slots())[i.value].value;
      assert table.Slots() == old(table.Slots())[i.value := Some(ExitSignalled(p, from, reason))];
    }
  }

  method PropagateExit(table: ProcessTable, from: Pid, reason: Word)
    requires table.Valid()
    modifies table.Blocks()
    ensures table.Valid() && table.View() == PropagateExitIn(old(table.View()), from, reason)
  {
    hide IndexOf, Modify, ExitSignalled;
    var f := table.GetIndexByPid(from);
    if f.None? {
      return;
    }
    var linked := table.processes[f.value].links;
    ghost var t := table.View();
    for i := 0 to |linked|
      invariant table.Valid() && table.processes == old(table.processes)
      invariant table.View() == t.(slots := NotifyAll(t.slots, from, reason, linked[..i]))
    {
      NotifyOne(table, linked[i], from, reason);
      assert linked[..i + 1][..i] == linked[..i];
    }
    assert linked[..|linked|] == linked;
  }

  /** Send one DOWN to the process with this PID, for the first monitor it has of the target. */
  method SendDown(table: ProcessTable, pid: Pid, exited: Pid, reason: Word)
    requires table.Valid()
    modifies table.Blocks()
    ensures table.Valid() && table.processes == old(table.processes)
    ensures table.View() ==
            old(table.View()).(slots := Modify(old(table.Slots()), pid, p => DownSent(p, exited, reason)))
  {
    hide IndexOf;
    var i := table.GetIndexByPid(pid);
    if i.Some? {
      var pcb := table.processes[i.value];
      var m := pcb.MonitorFor(exited);
      if m.Some? {
        pcb.Push(MonitorDown(m.value.refId, exited, reason));
      }
      ghost var p := old(table.Slots())[i.value].value;
      assert table.Slots() == old(table.Slots())[i.value := Some(DownSent(p, exited, reason))];
    }
  }

  method AllPidsOf(table: ProcessTable) returns (all: seq<Pid>)
    requires table.Valid()
    ensures all == AllPids(table.Slots())
  {
    ghost var slots := table.Slots();
    all := [];
    for i := 0 to |table.processes|
      invariant all == AllPids(slots[..i])
    {
      assert slots[..i + 1][..i] == slots[..i];
      if table.processes[i] != null {
        all := all + [table.processes[i].pid];
      }
    }
    assert slots[..|slots|] == slots;
  }

  method HasMonitorFor(table: ProcessTable, pid: Pid, exited: Pid) returns (yes: bool)
    requires table.Valid()
    ensures yes == MonitorsTarget(table.Slots(), pid, exited)
  {
    ghost var slots := table.Slots();
    yes := false;
    var k := table.GetIndexByPid(pid);
    assert table.Slots() == slots;
    if k.Some? {
      var m := table.processes[k.value].MonitorFor(exited);
      yes := m.Some?;
    }
    assert table.Slots() == slots;
  }

  /** `all_pids` filtered by `has_monitor_for`. */
  method MonitoringPids(table: ProcessTable, exited: Pid) returns (pids: seq<Pid>)
    requires table.Valid()
    ensures pids == Monitoring(table.Slots(), AllPids(table.Slots()), exited)
  {
    hide MonitorsTarget, AllPids;
    ghost var slots := table.Slots();
    var all := AllPidsOf(table);
    pids := [];
    for i := 0 to |all|
      invariant table.Slots() == slots && pids == Monitoring(slots, all[..i], exited)
    {
      assert all[..i + 1][..i] == all[..i];
      var yes := HasMonitorFor(table, all[i], exited);
      if yes {
        pids := pids + [all[i]];
      }
    }
    assert all[..|all|] == all;
  }

  method PropagateMonitors(table: ProcessTable, exited: Pid, reason: Word)
    requires table.Valid()
    modifies table.Blocks()
    ensures table.Valid() && table.View() == PropagateMonitorsIn(old(table.View()), exited, reason)
  {
    hide IndexOf, Modify, DownSent, Monitoring, AllPids;
    var pids := MonitoringPids(table, exited);
    ghost var t := table.View();
    for i := 0 to |pids|
      invariant table.Valid() && table.processes == old(table.processes)
      invariant table.View() == t.(slots := DownAll(t.slots, exited, reason, pids[..i]))
    {
      SendDown(table, pids[i], exited, reason);
      assert pids[..i + 1][..i] == pids[..i];
    }
    assert pids[..|pids|] == pids;
  }

  method MarkExited(table: ProcessTable, pid: Pid, reason: Word) returns (found: bool)
    requires table.Valid()
    modifies table.Blocks()
    ensures table.Valid() && found == IndexOf(old(table.Slots()), pid).Some?
    ensures table.View() == old(table.View()).(slots := Modify(old(table.Slots()), pid, p => Exited(p, reason)))
  {
    hide IndexOf;
    var i := table.GetIndexByPid(pid);
    found := i.Some?;
    if found {
      table.processes[i.value].ExitWith(reason);
      assert table.Slots() == old(table.Slots())[i.value := Some(Exited(old(table.Slots())[i.value].value, reason))];
    }
  }

  /** Local send: delivered only to a process that is alive. */
  method Send(table: ProcessTable, to: Pid, msg: Word) returns (delivered: bool)
    requires table.Valid()
    modifies table.Blocks()
    ensures table.Valid() && delivered == Accepts(old(table.Slots()), to)
    ensures table.View() == old(table.View()).(slots := Modify(old(table.Slots()), to, p => Sent(p, msg)))
  {
    hide IndexOf;
    delivered := false;
    var i := table.GetIndexByPid(to);
    if i.Some? {
      var pcb := table.processes[i.value];
      if IsAlive(pcb.state) {
        pcb.Push(Message(msg));
        delivered := true;
      }
      assert table.Slots() == old(table.Slots())[i.value := Some(Sent(old(table.Slots())[i.value].value, msg))];
    }
  }
}
