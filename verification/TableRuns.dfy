/** What every run of process-table operations keeps. */
module TableRuns {
  import opened Wrappers
  import opened Words
  import opened Processes
  import opened TableSpec

  // ---- The PID space is partitioned ------------------------------------------------------------

  /** How many live processes have this id. */
  function LiveCount(slots: Slots, id: int): nat {
    if slots == [] then 0
    else LiveCount(slots[..|slots| - 1], id) + Holds(slots[|slots| - 1], id)
  }

  function Holds(x: Option<Pcb>, id: int): nat {
    if x.Some? && x.value.pid.id == id then 1 else 0
  }

  /** How many entries of the reuse queue have this id. */
  function ReuseCount(pids: seq<Pid>, id: int): nat {
    if pids == [] then 0
    else ReuseCount(pids[..|pids| - 1], id) + if pids[|pids| - 1].id == id then 1 else 0
  }

  function IdCount(t: Table, id: int): nat {
    LiveCount(t.slots, id) + ReuseCount(t.reuse, id)
  }

  predicate WasIssued(t: Table, id: int) {
    1 <= id < t.counter
  }

  /**
   Every id issued so far belongs to exactly one live process or waits exactly once in the reuse
   queue, no other id does either, and a spawn always appends a slot.
   */
  ghost predicate Partition(t: Table) {
    && t.nextIndex == |t.slots| && t.counter >= 1
    && forall id: int :: IdCount(t, id) == if WasIssued(t, id) then 1 else 0
  }

  lemma {:induction false} LiveCountUpdate(slots: Slots, i: nat, x: Option<Pcb>, id: int)
    requires i < |slots|
    ensures LiveCount(slots[i := x], id) + Holds(slots[i], id) == LiveCount(slots, id) + Holds(x, id)
    decreases |slots|
  {
    var n := |slots| - 1;
    if i < n {
      LiveCountUpdate(slots[..n], i, x, id);
      assert slots[i := x][..n] == slots[..n][i := x];
    } else {
      assert slots[i := x][..n] == slots[..n];
    }
  }

  lemma {:induction false} LiveCountSame(slots: Slots, slots': Slots, id: int)
    requires SamePids(slots, slots')
    ensures LiveCount(slots', id) == LiveCount(slots, id)
    decreases |slots|
  {
    if slots != [] {
      LiveCountSame(slots[..|slots| - 1], slots'[..|slots| - 1], id);
    }
  }

  lemma {:induction false} LiveCountCompacted(slots: Slots, id: int)
    ensures LiveCount(Compacted(slots), id) == LiveCount(slots, id)
    decreases |slots|
  {
    if slots != [] {
      var n := |slots| - 1;
      LiveCountCompacted(slots[..n], id);
      if slots[n].Some? {
        assert Compacted(slots)[..|Compacted(slots)| - 1] == Compacted(slots[..n]);
      } else {
        assert Compacted(slots) == Compacted(slots[..n]);
      }
    }
  }

  lemma {:induction false} LiveCountAt(slots: Slots, i: nat, id: int)
    requires i < |slots| && Holds(slots[i], id) == 1
    ensures LiveCount(slots, id) >= 1
    ensures forall j :: i < j < |slots| && Holds(slots[j], id) == 1 ==> LiveCount(slots, id) >= 2
    decreases |slots|
  {
    var n := |slots| - 1;
    if i < n {
      LiveCountAt(slots[..n], i, id);
    }
  }

  lemma {:induction false} ReuseCountAt(pids: seq<Pid>, i: nat)
    requires i < |pids|
    ensures ReuseCount(pids, pids[i].id) >= 1
    ensures forall j :: i < j < |pids| && pids[j].id == pids[i].id ==> ReuseCount(pids, pids[i].id) >= 2
    decreases |pids|
  {
    var n := |pids| - 1;
    if i < n {
      ReuseCountAt(pids[..n], i);
    }
  }

  predicate IsLive(t: Table, id: int) {
    exists i :: 0 <= i < |t.slots| && Holds(t.slots[i], id) == 1
  }

  predicate IsQueued(t: Table, id: int) {
    exists j :: 0 <= j < |t.reuse| && t.reuse[j].id == id
  }

  lemma {:induction false} LiveCountPositive(slots: Slots, id: int)
    ensures LiveCount(slots, id) > 0 <==> exists i :: 0 <= i < |slots| && Holds(slots[i], id) == 1
    decreases |slots|
  {
    if slots != [] {
      var n := |slots| - 1;
      LiveCountPositive(slots[..n], id);
      if i :| 0 <= i < |slots[..n]| && Holds(slots[..n][i], id) == 1 {
        assert Holds(slots[i], id) == 1;
      }
    }
  }

  lemma {:induction false} ReuseCountPositive(pids: seq<Pid>, id: int)
    ensures ReuseCount(pids, id) > 0 <==> exists j :: 0 <= j < |pids| && pids[j].id == id
    decreases |pids|
  {
    if pids != [] {
      var n := |pids| - 1;
      ReuseCountPositive(pids[..n], id);
      if j :| 0 <= j < |pids[..n]| && pids[..n][j].id == id {
        assert pids[j].id == id;
      }
    }
  }

  /**
   In words: live ids are distinct, reusable ids are distinct, the two are disjoint, and together they
   are exactly the ids issued.
   */
  lemma PartitionMeans(t: Table)
    requires Partition(t)
    ensures forall i, j :: 0 <= i < j < |t.slots| && t.slots[i].Some? && t.slots[j].Some? ==>
              t.slots[i].value.pid.id != t.slots[j].value.pid.id
    ensures forall i, j :: 0 <= i < j < |t.reuse| ==> t.reuse[i].id != t.reuse[j].id
    ensures forall i, j :: 0 <= i < |t.slots| && t.slots[i].Some? && 0 <= j < |t.reuse| ==>
              t.slots[i].value.pid.id != t.reuse[j].id
    ensures forall i :: 0 <= i < |t.slots| && t.slots[i].Some? ==> WasIssued(t, t.slots[i].value.pid.id)
    ensures forall j :: 0 <= j < |t.reuse| ==> WasIssued(t, t.reuse[j].id)
    ensures forall id :: WasIssued(t, id) ==> IsLive(t, id) || IsQueued(t, id)
  {
    forall id | WasIssued(t, id) ensures IsLive(t, id) || IsQueued(t, id) {
      assert IdCount(t, id) == 1;
      LiveCountPositive(t.slots, id);
      ReuseCountPositive(t.reuse, id);
    }
    forall i | 0 <= i < |t.slots| && t.slots[i].Some?
      ensures LiveCount(t.slots, t.slots[i].value.pid.id) == 1 && ReuseCount(t.reuse, t.slots[i].value.pid.id) == 0
      ensures WasIssued(t, t.slots[i].value.pid.id)
      ensures forall j :: i < j < |t.slots| && t.slots[j].Some? ==> t.slots[i].value.pid.id != t.slots[j].value.pid.id
    {
      var id := t.slots[i].value.pid.id;
      LiveCountAt(t.slots, i, id);
      assert IdCount(t, id) <= 1;
      assert forall j :: 0 <= j < |t.slots| && t.slots[j].Some? && t.slots[j].value.pid.id == id ==>
                Holds(t.slots[j], id) == 1;
    }
    forall j | 0 <= j < |t.reuse|
      ensures ReuseCount(t.reuse, t.reuse[j].id) == 1 && WasIssued(t, t.reuse[j].id)
      ensures forall k :: j < k < |t.reuse| ==> t.reuse[j].id != t.reuse[k].id
    {
      ReuseCountAt(t.reuse, j);
      assert IdCount(t, t.reuse[j].id) <= 1;
    }
  }

  lemma PartitionUnique(t: Table)
    requires Partition(t)
    ensures UniquePids(t.slots)
  {
    PartitionMeans(t);
  }

  lemma SpawnCounts(t: Table, id: int)
    requires t.nextIndex == |t.slots|
    ensures var t' := SpawnIn(t);
            && t'.slots == t.slots + [Some(NewPcb(NextPid(t)))]
            && LiveCount(t'.slots, id) == LiveCount(t.slots, id) + (if NextPid(t).id == id then 1 else 0)
            && IdCount(t', id) == IdCount(t, id) + (if t.reuse == [] && id == t.counter then 1 else 0)
  {
    hide LiveCount;
    assert SpawnIn(t).slots == t.slots + [Some(NewPcb(NextPid(t)))];
    LiveCountAppend(t.slots, Some(NewPcb(NextPid(t))), id);
  }

  lemma LiveCountAppend(slots: Slots, x: Option<Pcb>, id: int)
    ensures LiveCount(slots + [x], id) == LiveCount(slots, id) + Holds(x, id)
  {
    assert (slots + [x])[..|slots|] == slots;
  }

  /**
   While ids are numbered `1..counter` spawning keeps the partition exactly if it reuses an id or the
   counter does not wrap. Distinctness of ids alone outlives the wrap, see `SpawnApartIff`.
   */
  lemma SpawnPartitionIff(t: Table)
    requires Partition(t)
    ensures Partition(SpawnIn(t)) <==> t.reuse != [] || t.counter + 1 < TWO_32
  {
    var t' := SpawnIn(t);
    forall id: int
      ensures IdCount(t', id) == IdCount(t, id) + (if t.reuse == [] && id == t.counter then 1 else 0)
    {
      SpawnCounts(t, id);
    }
    SpawnCounts(t, 0);
    assert forall id: int :: IdCount(t, id) == if WasIssued(t, id) then 1 else 0;
  }

  lemma TerminatePartition(t: Table, pid: Pid)
    requires Partition(t)
    ensures Partition(TerminateIn(t, pid))
  {
    var i := IndexOf(t.slots, pid);
    if i.Some? {
      var t' := TerminateIn(t, pid);
      forall id: int ensures IdCount(t', id) == IdCount(t, id) {
        LiveCountUpdate(t.slots, i.value, None, id);
        assert (t.reuse + [pid])[..|t.reuse|] == t.reuse;
      }
      assert forall id: int :: IdCount(t, id) == if WasIssued(t, id) then 1 else 0;
    }
  }

  // ---- Operations that only rewrite control blocks ---------------------------------------------

  /** PIDs, links and the table's own fields stay; an exited process stays exited. */
  ghost predicate Local(t: Table, t': Table) {
    t'.(slots := t.slots) == t && SamePids(t.slots, t'.slots)
  }

  ghost predicate Evolves(p: Pcb, p': Pcb) {
    p'.pid == p.pid && (IsExited(p.state) ==> IsExited(p'.state)) && (p.state == Dead ==> p'.state == Dead)
  }

  ghost predicate AllEvolve(slots: Slots, slots': Slots) {
    && SamePids(slots, slots')
    && forall i :: 0 <= i < |slots| && slots[i].Some? ==> Evolves(slots[i].value, slots'[i].value)
  }

  ghost predicate SameLinks(slots: Slots, slots': Slots) {
    && SamePids(slots, slots')
    && forall i :: 0 <= i < |slots| && slots[i].Some? ==> slots'[i].value.links == slots[i].value.links
  }

  predicate IsLocal(op: TableOp) {
    !op.Spawn? && !op.Terminate? && !op.Cleanup?
  }

  predicate ChangesLinks(op: TableOp) {
    op.Link? || op.Unlink?
  }

  lemma {:induction false} NotifyAllLocal(slots: Slots, from: Pid, reason: Word, pids: seq<Pid>)
    ensures SameLinks(slots, NotifyAll(slots, from, reason, pids))
    ensures AllEvolve(slots, NotifyAll(slots, from, reason, pids))
    decreases |pids|
  {
    if pids != [] {
      NotifyAllLocal(slots, from, reason, pids[..|pids| - 1]);
    }
  }

  lemma {:induction false} DownAllLocal(slots: Slots, exited: Pid, reason: Word, pids: seq<Pid>)
    ensures SameLinks(slots, DownAll(slots, exited, reason, pids))
    ensures AllEvolve(slots, DownAll(slots, exited, reason, pids))
    decreases |pids|
  {
    if pids != [] {
      DownAllLocal(slots, exited, reason, pids[..|pids| - 1]);
    }
  }

  lemma LocalStep(t: Table, op: TableOp)
    requires t.nextIndex <= |t.slots| && IsLocal(op)
    ensures Local(t, Step(t, op)) && AllEvolve(t.slots, Step(t, op).slots)
    ensures !ChangesLinks(op) ==> SameLinks(t.slots, Step(t, op).slots)
  {
    match op
    case PropagateExit(from, reason) =>
      var i := IndexOf(t.slots, from);
      if i.Some? {
        NotifyAllLocal(t.slots, from, reason, t.slots[i.value].value.links);
      }
    case PropagateMonitors(exited, reason) =>
      DownAllLocal(t.slots, exited, reason, Monitoring(t.slots, AllPids(t.slots), exited));
    case Link(a, b) => LinkLocal(t, a, b);
    case Unlink(a, b) => UnlinkLocal(t, a, b);
    case MarkExited(pid, reason) => ModifyLocal(t.slots, pid, p => Exited(p, reason));
    case SetState(pid, s) => ModifyLocal(t.slots, pid, p => WithState(p, s));
    case TrapExit(pid, flag) => ModifyLocal(t.slots, pid, (p: Pcb) => p.(trapExit := flag));
    case Monitor(pid, target, refId) =>
      ModifyLocal(t.slots, pid, (p: Pcb) => p.(monitors := p.monitors + [MonitorRef(refId, target)]));
    case Send(pid, msg) => ModifyLocal(t.slots, pid, p => Sent(p, msg));
  }

  lemma ModifyLocal(slots: Slots, pid: Pid, f: Pcb -> Pcb)
    requires forall p: Pcb :: Evolves(p, f(p)) && f(p).links == p.links
    ensures AllEvolve(slots, Modify(slots, pid, f)) && SameLinks(slots, Modify(slots, pid, f))
  {
  }

  lemma LinkLocal(t: Table, a: Pid, b: Pid)
    ensures Local(t, LinkIn(t, a, b)) && AllEvolve(t.slots, LinkIn(t, a, b).slots)
  {
  }

  lemma UnlinkLocal(t: Table, a: Pid, b: Pid)
    ensures Local(t, UnlinkIn(t, a, b)) && AllEvolve(t.slots, UnlinkIn(t, a, b).slots)
  {
  }

  /** A spawn that needs a fresh id finds the counter below its last value. */
  predicate CounterFits(t: Table, op: TableOp) {
    op.Spawn? && t.reuse == [] ==> t.counter + 1 < TWO_32
  }

  lemma PartitionStep(t: Table, op: TableOp)
    requires Partition(t) && CounterFits(t, op)
    ensures Partition(Step(t, op))
  {
    if op.Spawn? {
      SpawnPartitionIff(t);
    } else if op.Terminate? {
      TerminatePartition(t, op.pid);
    } else {
      var t' := Step(t, op);
      if IsLocal(op) {
        LocalStep(t, op);
      }
      forall id: int ensures IdCount(t', id) == IdCount(t, id) {
        if op.Cleanup? {
          LiveCountCompacted(t.slots, id);
        } else {
          LiveCountSame(t.slots, t'.slots, id);
        }
      }
      assert forall id: int :: IdCount(t, id) == if WasIssued(t, id) then 1 else 0;
    }
  }

  lemma NewTablePartition(creation: U32)
    ensures Partition(NewTable(creation))
  {
  }

  // ---- Whole runs ------------------------------------------------------------------------------

  /** Any run, guarded or not. */
  ghost function AnyRun(t: Table, ops: seq<TableOp>): (r: Table)
    requires t.nextIndex <= |t.slots|
    ensures r.nextIndex <= |r.slots|
  {
    if ops == [] then t else Step(AnyRun(t, ops[..|ops| - 1]), ops[|ops| - 1])
  }

  lemma AnyRunSnoc(t: Table, ops: seq<TableOp>, op: TableOp)
    requires t.nextIndex <= |t.slots|
    ensures AnyRun(t, ops + [op]) == Step(AnyRun(t, ops), op)
  {
    assert (ops + [op])[..|ops|] == ops;
  }

  /** No spawn of the run needs a fresh id when the counter is at its last value. */
  ghost predicate CounterNeverWraps(t: Table, ops: seq<TableOp>)
    requires t.nextIndex <= |t.slots|
  {
    forall k {:trigger ops[k]} :: 0 <= k < |ops| ==> CounterFits(AnyRun(t, ops[..k]), ops[k])
  }

  /** The partition over whole runs needs nothing but the counter: ids may be recycled any number of times. */
  lemma {:induction false} PartitionRun(t: Table, ops: seq<TableOp>)
    requires Partition(t) && CounterNeverWraps(t, ops)
    ensures Partition(AnyRun(t, ops))
    decreases |ops|
  {
    hide Partition, Step, CounterFits;
    PartitionLength(t);
    if ops != [] {
      var n := |ops| - 1;
      forall k | 0 <= k < n ensures CounterFits(AnyRun(t, ops[..n][..k]), ops[..n][k]) {
        assert ops[..n][..k] == ops[..k] && ops[..n][k] == ops[k];
      }
      PartitionRun(t, ops[..n]);
      assert CounterFits(AnyRun(t, ops[..n]), ops[n]);
      PartitionStep(AnyRun(t, ops[..n]), ops[n]);
    }
  }

  lemma PartitionLength(t: Table)
    requires Partition(t)
    ensures t.nextIndex <= |t.slots|
  {
  }

  // ---- Distinct ids, counter wrapped or not ------------------------------------------------------

  /** The promise in words: no id is live twice, queued for reuse twice, or both. */
  ghost predicate Apart(t: Table) {
    t.nextIndex == |t.slots| && forall id: int :: IdCount(t, id) <= 1
  }

  /** The id a spawn is about to give out fresh is neither live nor queued. */
  predicate FreshIdFree(t: Table, op: TableOp) {
    op.Spawn? && t.reuse == [] ==> !IsLive(t, t.counter) && !IsQueued(t, t.counter)
  }

  lemma ApartMeans(t: Table)
    requires Apart(t)
    ensures UniquePids(t.slots)
    ensures forall i, j :: 0 <= i < j < |t.slots| && t.slots[i].Some? && t.slots[j].Some? ==>
              t.slots[i].value.pid.id != t.slots[j].value.pid.id
    ensures forall i, j :: 0 <= i < j < |t.reuse| ==> t.reuse[i].id != t.reuse[j].id
    ensures forall i, j :: 0 <= i < |t.slots| && t.slots[i].Some? && 0 <= j < |t.reuse| ==>
              t.slots[i].value.pid.id != t.reuse[j].id
  {
    forall i | 0 <= i < |t.slots| && t.slots[i].Some?
      ensures ReuseCount(t.reuse, t.slots[i].value.pid.id) == 0
      ensures forall j :: i < j < |t.slots| && t.slots[j].Some? ==> t.slots[i].value.pid.id != t.slots[j].value.pid.id
    {
      var id := t.slots[i].value.pid.id;
      LiveCountAt(t.slots, i, id);
      assert IdCount(t, id) <= 1;
      assert forall j :: 0 <= j < |t.slots| && t.slots[j].Some? && t.slots[j].value.pid.id == id ==>
                Holds(t.slots[j], id) == 1;
    }
    forall j | 0 <= j < |t.reuse|
      ensures ReuseCount(t.reuse, t.reuse[j].id) >= 1
      ensures forall k :: j < k < |t.reuse| ==> t.reuse[j].id != t.reuse[k].id
    {
      ReuseCountAt(t.reuse, j);
      assert IdCount(t, t.reuse[j].id) <= 1;
    }
  }

  /** A spawn keeps ids apart exactly when it reuses one or the counter names no id in use. */
  lemma SpawnApartIff(t: Table)
    requires Apart(t)
    ensures Apart(SpawnIn(t)) <==> FreshIdFree(t, Spawn)
  {
    hide LiveCount, ReuseCount, IsLive, IsQueued, SpawnIn;
    var t' := SpawnIn(t);
    SpawnLength(t);
    LiveIffCounted(t, t.counter);
    forall id: int
      ensures IdCount(t', id) == IdCount(t, id) + (if t.reuse == [] && id == t.counter then 1 else 0)
    {
      SpawnCounts(t, id);
    }
    assert IdCount(t, t.counter) <= 1;
    assert Apart(t') ==> IdCount(t', t.counter) <= 1;
  }

  lemma SpawnLength(t: Table)
    requires t.nextIndex == |t.slots|
    ensures SpawnIn(t).nextIndex == |SpawnIn(t).slots|
  {
  }

  lemma LiveIffCounted(t: Table, id: int)
    ensures IdCount(t, id) > 0 <==> IsLive(t, id) || IsQueued(t, id)
  {
    LiveCountPositive(t.slots, id);
    ReuseCountPositive(t.reuse, id);
  }

  lemma StepApartIff(t: Table, op: TableOp)
    requires Apart(t)
    ensures Apart(Step(t, op)) <==> FreshIdFree(t, op)
  {
    hide LiveCount, ReuseCount, IsLive, IsQueued;
    if op.Spawn? {
      SpawnApartIff(t);
    } else {
      forall id: int ensures IdCount(Step(t, op), id) == IdCount(t, id) {
        CountKept(t, op, id);
      }
      if IsLocal(op) {
        LocalStep(t, op);
      }
    }
  }

  /** Only a spawn changes how often an id is in use. */
  lemma CountKept(t: Table, op: TableOp, id: int)
    requires t.nextIndex == |t.slots| && !op.Spawn?
    ensures IdCount(Step(t, op), id) == IdCount(t, id)
  {
    if op.Terminate? {
      var i := IndexOf(t.slots, op.pid);
      if i.Some? {
        LiveCountUpdate(t.slots, i.value, None, id);
        assert (t.reuse + [op.pid])[..|t.reuse|] == t.reuse;
      }
    } else if op.Cleanup? {
      LiveCountCompacted(t.slots, id);
    } else {
      LocalStep(t, op);
      LiveCountSame(t.slots, Step(t, op).slots, id);
    }
  }

  /** Ids are apart at every point of a run. */
  ghost predicate AlwaysApart(t: Table, ops: seq<TableOp>)
    requires t.nextIndex <= |t.slots|
    decreases |ops|
  {
    Apart(AnyRun(t, ops)) && (ops != [] ==> AlwaysApart(t, ops[..|ops| - 1]))
  }

  /** Every fresh id the run gives out is free at that moment. */
  ghost predicate AlwaysFree(t: Table, ops: seq<TableOp>)
    requires t.nextIndex <= |t.slots|
    decreases |ops|
  {
    ops != [] ==> AlwaysFree(t, ops[..|ops| - 1]) && FreshIdFree(AnyRun(t, ops[..|ops| - 1]), ops[|ops| - 1])
  }

  /** Ids stay apart all along a run exactly when every fresh id it gives out was free. */
  lemma {:induction false} RunApartIff(t: Table, ops: seq<TableOp>)
    requires t.nextIndex <= |t.slots| && Apart(t)
    ensures AlwaysApart(t, ops) <==> AlwaysFree(t, ops)
    decreases |ops|
  {
    hide Apart, Step, FreshIdFree;
    if ops != [] {
      var n := |ops| - 1;
      RunApartIff(t, ops[..n]);
      if AlwaysApart(t, ops[..n]) {
        StepApartIff(AnyRun(t, ops[..n]), ops[n]);
      }
    }
  }

  // ---- Where the counter does damage -------------------------------------------------------------

  /** After `n` spawns and nothing else slot `i` holds id `i + 1`, modulo 2^32. */
  ghost predicate AfterSpawns(t: Table, creation: U32, n: nat) {
    && |t.slots| == t.nextIndex == n && t.reuse == [] && t.creation == creation && t.counter == (n + 1) % TWO_32
    && forall i :: 0 <= i < n ==> t.slots[i] == Some(NewPcb(Pid((i + 1) % TWO_32, 0, creation)))
  }

  lemma OneMoreSpawn(t: Table, creation: U32, n: nat)
    requires AfterSpawns(t, creation, n)
    ensures AfterSpawns(SpawnIn(t), creation, n + 1)
  {
    assert SpawnIn(t).slots == t.slots + [Some(NewPcb(NextPid(t)))];
    assert ((n + 1) % TWO_32 + 1) % TWO_32 == (n + 2) % TWO_32;
  }

  lemma {:induction false} OnlySpawns(creation: U32, n: nat)
    ensures AfterSpawns(AnyRun(NewTable(creation), seq(n, _ => Spawn)), creation, n)
    decreases n
  {
    hide SpawnIn, AfterSpawns;
    var t := NewTable(creation);
    if n > 0 {
      hide AnyRun;
      OnlySpawns(creation, n - 1);
      var ops := seq(n - 1, _ => Spawn);
      assert seq(n, _ => Spawn) == ops + [Spawn];
      AnyRunSnoc(t, ops, Spawn);
      OneMoreSpawn(AnyRun(t, ops), creation, n - 1);
    } else {
      assert AfterSpawns(t, creation, 0) by {
        NoSpawns(creation);
      }
    }
  }

  lemma NoSpawns(creation: U32)
    ensures AfterSpawns(NewTable(creation), creation, 0)
  {
  }

  /** Of runs that only spawn, exactly those of at most 2^32 processes keep ids apart. */
  lemma {:induction false} SpawnsApartIff(creation: U32, n: nat)
    ensures Apart(AnyRun(NewTable(creation), seq(n, _ => Spawn))) <==> n <= TWO_32
    decreases n
  {
    hide SpawnIn, AnyRun;
    var t := AnyRun(NewTable(creation), seq(n, _ => Spawn));
    OnlySpawns(creation, n);
    if n > TWO_32 {
      assert t.slots[0].value.pid.id == 1 && t.slots[TWO_32].value.pid.id == (TWO_32 + 1) % TWO_32 == 1;
      if Apart(t) {
        ApartMeans(t);
      }
    } else if n > 0 {
      var ops := seq(n - 1, _ => Spawn);
      var u := AnyRun(NewTable(creation), ops);
      SpawnsApartIff(creation, n - 1);
      OnlySpawns(creation, n - 1);
      assert seq(n, _ => Spawn) == ops + [Spawn];
      AnyRunSnoc(NewTable(creation), ops, Spawn);
      FreeAfterSpawns(u, creation, n - 1);
      SpawnApartIff(u);
    } else {
      assert Apart(t);
    }
  }

  lemma FreeAfterSpawns(t: Table, creation: U32, n: nat)
    requires n < TWO_32 && AfterSpawns(t, creation, n)
    ensures FreshIdFree(t, Spawn)
  {
    forall i | 0 <= i < n ensures Holds(t.slots[i], t.counter) == 0 {
      assert (i + 1) % TWO_32 == i + 1;
    }
  }

  /**
   Two spawns after the counter has wrapped the first live process has a double: the same PID, which
   every lookup resolves to the older of the two.
   */
  lemma WrappedCounterReissues(creation: U32)
    ensures var t := AnyRun(NewTable(creation), seq(TWO_32 + 1, _ => Spawn));
            var pid := Pid(1, 0, creation);
            && |t.slots| == TWO_32 + 1 && t.slots[0] == t.slots[TWO_32] == Some(NewPcb(pid))
            && IndexOf(t.slots, pid) == Some(0)
  {
    hide AnyRun;
    OnlySpawns(creation, TWO_32 + 1);
  }
}
