/** Links stay symmetric over whole runs, because a PID names one incarnation of its id. */
module TableLinks {
  import opened Wrappers
  import opened Words
  import opened Processes
  import opened TableSpec
  import opened TableRuns
  import opened TableHandles
  import opened TableSymmetry

  /** The table with the number of processes each id has had so far. */
  datatype History = History(t: Table, born: map<int, nat>)

  ghost function HStep(h: History, op: TableOp): History
    requires h.t.nextIndex <= |h.t.slots|
  {
    var id := NextPid(h.t).id;
    History(Step(h.t, op), if op.Spawn? then h.born[id := Incarnations(h, id) + 1] else h.born)
  }

  ghost function Incarnations(h: History, id: int): nat {
    if id in h.born then h.born[id] else 0
  }

  /** `p` carries the serial of incarnation `k`. */
  ghost predicate Incarnation(p: Pid, k: nat) {
    p.serial == k % SERIALS
  }

  /** `p` is the latest incarnation of its id. */
  ghost predicate Current(h: History, p: Pid) {
    p.creation == h.t.creation && Incarnations(h, p.id) >= 1 && Incarnation(p, Incarnations(h, p.id) - 1)
  }

  /** `p` was handed out at some point. */
  ghost predicate WasBorn(h: History, p: Pid) {
    p.creation == h.t.creation && exists k: nat :: k < Incarnations(h, p.id) && Incarnation(p, k)
  }

  ghost predicate LinksOk(h: History) {
    forall i :: 0 <= i < |h.t.slots| && h.t.slots[i].Some? ==> LinkListOk(h, h.t.slots[i].value.links)
  }

  ghost predicate LinkListOk(h: History, links: seq<Pid>) {
    NoDuplicates(links) && forall q :: q in links ==> WasBorn(h, q)
  }

  ghost predicate SerialsOk(h: History) {
    && (forall id :: id in h.born <==> WasIssued(h.t, id))
    && (forall i :: 0 <= i < |h.t.slots| && h.t.slots[i].Some? ==> Current(h, h.t.slots[i].value.pid))
    && (forall i :: 0 <= i < |h.t.reuse| ==> Current(h, h.t.reuse[i]))
  }

  ghost predicate Inv(h: History) {
    Partition(h.t) && SerialsOk(h) && LinksOk(h) && Symmetric(h.t.slots)
  }

  /** A spawn neither wraps the id counter nor starts the 8193rd process of an id. */
  ghost predicate Guard(h: History, op: TableOp) {
    op.Spawn? ==>
      if h.t.reuse == [] then h.t.counter + 1 < TWO_32
      else Incarnations(h, NextPid(h.t).id) < SERIALS
  }

  // ---- Spawning --------------------------------------------------------------------------------

  /** The new PID carries the serial of the next incarnation of its id. */
  lemma NextIncarnation(h: History)
    requires Inv(h)
    ensures var pid := NextPid(h.t);
            pid.creation == h.t.creation && Incarnation(pid, Incarnations(h, pid.id))
  {
    if h.t.reuse != [] {
      var last := h.t.reuse[|h.t.reuse| - 1];
      assert Current(h, last);
      var k := Incarnations(h, last.id);
      assert (k - 1) % SERIALS + 1 == k % SERIALS || k % SERIALS == 0;
    } else {
      assert h.t.counter !in h.born;
    }
  }

  /** Within the guard a PID that was handed out before is never handed out again. */
  lemma NewPidIsNew(h: History, q: Pid)
    requires Inv(h) && Guard(h, Spawn) && WasBorn(h, q)
    ensures NextPid(h.t) != q
  {
    NextIncarnation(h);
    if NextPid(h.t).id == q.id {
      var k: nat :| k < Incarnations(h, q.id) && Incarnation(q, k);
      assert q.id in h.born;
    }
  }

  lemma WasBornLater(h: History, op: TableOp, q: Pid)
    requires h.t.nextIndex <= |h.t.slots| && WasBorn(h, q) && Step(h.t, op).creation == h.t.creation
    ensures WasBorn(HStep(h, op), q)
  {
    var k: nat :| k < Incarnations(h, q.id) && Incarnation(q, k);
    assert k < Incarnations(HStep(h, op), q.id);
  }

  lemma CurrentWasBorn(h: History, p: Pid)
    requires Current(h, p)
    ensures WasBorn(h, p)
  {
    assert Incarnations(h, p.id) - 1 < Incarnations(h, p.id);
  }

  lemma SpawnKeeps(h: History)
    requires Inv(h) && Guard(h, Spawn)
    ensures Inv(HStep(h, Spawn))
  {
    var h', pid, n := HStep(h, Spawn), NextPid(h.t), |h.t.slots|;
    SpawnPartitionIff(h.t);
    PartitionMeans(h.t);
    NextIncarnation(h);
    assert h'.t.slots == h.t.slots + [Some(NewPcb(pid))];
    forall i | 0 <= i < n && h.t.slots[i].Some?
      ensures pid !in h.t.slots[i].value.links && LinkListOk(h', h.t.slots[i].value.links)
    {
      forall q | q in h.t.slots[i].value.links ensures q != pid && WasBorn(h', q) {
        NewPidIsNew(h, q);
        WasBornLater(h, Spawn, q);
      }
    }
    SpawnSymmetricIff(h.t);
    SpawnSerials(h);
  }

  lemma SpawnSerials(h: History)
    requires Inv(h) && Guard(h, Spawn)
    ensures SerialsOk(HStep(h, Spawn))
  {
    var h', pid := HStep(h, Spawn), NextPid(h.t);
    PartitionMeans(h.t);
    NextIncarnation(h);
    assert h'.t.slots == h.t.slots + [Some(NewPcb(pid))];
    if h.t.reuse != [] {
      assert WasIssued(h.t, h.t.reuse[|h.t.reuse| - 1].id);
    }
    forall i | 0 <= i < |h.t.slots| && h.t.slots[i].Some? ensures Current(h', h.t.slots[i].value.pid) {
      assert Current(h, h.t.slots[i].value.pid);
    }
    forall i | 0 <= i < |h'.t.reuse| ensures Current(h', h'.t.reuse[i]) {
      assert Current(h, h.t.reuse[i]);
    }
  }

  // ---- The other operations --------------------------------------------------------------------

  lemma TerminateKeeps(h: History, pid: Pid)
    requires Inv(h)
    ensures Inv(HStep(h, Terminate(pid)))
  {
    TerminatePartition(h.t, pid);
    var h', r := HStep(h, Terminate(pid)), IndexOf(h.t.slots, pid);
    if r.Some? {
      assert Current(h, h.t.slots[r.value].value.pid);
      SameBirths(h, h');
      ClearedSymmetric(h.t.slots, r.value);
    }
  }

  /** Steps that issue no PID leave what was born, and what is current, as it was. */
  lemma SameBirths(h: History, h': History)
    requires h'.born == h.born && h'.t.creation == h.t.creation
    ensures forall p :: Current(h', p) <==> Current(h, p)
    ensures forall p :: WasBorn(h, p) ==> WasBorn(h', p)
    ensures forall links :: LinkListOk(h, links) ==> LinkListOk(h', links)
  {
    forall p | WasBorn(h, p) ensures WasBorn(h', p) {
      var k: nat :| k < Incarnations(h, p.id) && Incarnation(p, k);
      assert k < Incarnations(h', p.id);
    }
  }

  lemma CleanupKeeps(h: History)
    requires Inv(h)
    ensures Inv(HStep(h, Cleanup))
  {
    PartitionStep(h.t, Cleanup);
    var h' := HStep(h, Cleanup);
    var slots, slots' := h.t.slots, h'.t.slots;
    SameBirths(h, h');
    forall i | 0 <= i < |slots'| && slots'[i].Some?
      ensures Current(h', slots'[i].value.pid) && LinkListOk(h', slots'[i].value.links)
    {
      var k := MovedFrom(slots, i);
      assert Current(h, slots[k].value.pid) && LinkListOk(h, slots[k].value.links);
    }
    forall i | 0 <= i < |h'.t.reuse| ensures Current(h', h'.t.reuse[i]) {
      assert Current(h, h.t.reuse[i]);
    }
    CompactedSymmetric(slots);
  }

  /** How the link lists of a table change under a link or unlink of live processes. */
  ghost predicate Relinked(h: History, slots': Slots) {
    && SamePids(h.t.slots, slots') && Symmetric(slots')
    && forall i :: 0 <= i < |slots'| && slots'[i].Some? ==> LinkListOk(h, slots'[i].value.links)
  }

  lemma LinkRelinks(h: History, a: Pid, b: Pid)
    requires Inv(h)
    ensures Relinked(h, LinkIn(h.t, a, b).slots)
  {
    hide WasBorn, Current, Symmetric, Partition;
    var slots, slots' := h.t.slots, LinkIn(h.t, a, b).slots;
    var ra, rb := IndexOf(slots, a), IndexOf(slots, b);
    LinkLocal(h.t, a, b);
    PartitionUnique(h.t);
    LinkSymmetric(h.t, a, b);
    if ra.Some? && rb.Some? {
      CurrentWasBorn(h, a);
      CurrentWasBorn(h, b);
      forall i | 0 <= i < |slots| && slots[i].Some?
        ensures LinkListOk(h, slots'[i].value.links)
      {
        assert LinkListOk(h, slots[i].value.links);
      }
    }
  }

  lemma UnlinkRelinks(h: History, a: Pid, b: Pid)
    requires Inv(h)
    ensures Relinked(h, UnlinkIn(h.t, a, b).slots)
  {
    hide WasBorn, Current, Symmetric, Partition;
    var slots, slots' := h.t.slots, UnlinkIn(h.t, a, b).slots;
    var ra, rb := IndexOf(slots, a), IndexOf(slots, b);
    UnlinkLocal(h.t, a, b);
    PartitionUnique(h.t);
    UnlinkSymmetric(h.t, a, b);
    if ra.Some? && rb.Some? {
      forall i | 0 <= i < |slots| && slots[i].Some?
        ensures LinkListOk(h, slots'[i].value.links)
      {
        assert LinkListOk(h, slots[i].value.links);
        RemoveKeepsDistinct(slots[i].value.links, b);
        RemoveKeepsDistinct(slots[i].value.links, a);
        RemoveKeepsDistinct(RemoveLink(slots[i].value.links, b), a);
      }
    }
  }

  lemma SameLinksRelinked(h: History, slots': Slots)
    requires Inv(h) && SameLinks(h.t.slots, slots')
    ensures Relinked(h, slots')
  {
    SameLinksSymmetric(h.t.slots, slots');
  }

  lemma LocalKeeps(h: History, op: TableOp)
    requires Inv(h) && IsLocal(op)
    ensures Inv(HStep(h, op))
  {
    var h' := HStep(h, op);
    PartitionStep(h.t, op);
    LocalStep(h.t, op);
    if op.Link? {
      LinkRelinks(h, op.a, op.b);
    } else if op.Unlink? {
      UnlinkRelinks(h, op.a, op.b);
    } else {
      SameLinksRelinked(h, h'.t.slots);
    }
    LocalInv(h, h');
  }

  lemma LocalInv(h: History, h': History)
    requires Inv(h) && Partition(h'.t) && h'.born == h.born && Local(h.t, h'.t) && Relinked(h, h'.t.slots)
    ensures Inv(h')
  {
    SameBirths(h, h');
    forall i | 0 <= i < |h'.t.slots| && h'.t.slots[i].Some? ensures Current(h', h'.t.slots[i].value.pid) {
      assert Current(h, h.t.slots[i].value.pid);
    }
  }

  lemma StepKeeps(h: History, op: TableOp)
    requires Inv(h) && Guard(h, op)
    ensures Inv(HStep(h, op))
  {
    match op
    case Spawn => SpawnKeeps(h);
    case Terminate(pid) => TerminateKeeps(h, pid);
    case Cleanup => CleanupKeeps(h);
    case _ => LocalKeeps(h, op);
  }

  // ---- Whole runs ------------------------------------------------------------------------------

  ghost function Start(creation: U32): History {
    History(NewTable(creation), map[])
  }

  lemma StartInv(creation: U32)
    ensures Inv(Start(creation))
  {
    NewTablePartition(creation);
  }

  /** The state after a run, or nothing if some spawn on the way breaks the guard. */
  ghost function Run(h: History, ops: seq<TableOp>): Option<History>
    requires Inv(h)
    decreases |ops|
  {
    if ops == [] then Some(h)
    else if !Guard(h, ops[0]) then None
    else
      StepKeeps(h, ops[0]);
      Run(HStep(h, ops[0]), ops[1..])
  }

  /**
   Over every run in which the id counter does not wrap and no id is recycled 2^13 times, the PID
   space stays partitioned, links between live processes stay symmetric and free of duplicates.
   */
  lemma {:induction false} RunKeeps(h: History, ops: seq<TableOp>)
    requires Inv(h)
    ensures var r := Run(h, ops);
            r.Some? ==>
              && Partition(r.value.t) && Symmetric(r.value.t.slots)
              && forall i :: 0 <= i < |r.value.t.slots| && r.value.t.slots[i].Some? ==>
                  NoDuplicates(r.value.t.slots[i].value.links)
    ensures Run(h, ops).Some? ==> Inv(Run(h, ops).value)
    decreases |ops|
  {
    if ops != [] && Guard(h, ops[0]) {
      StepKeeps(h, ops[0]);
      RunKeeps(HStep(h, ops[0]), ops[1..]);
    }
  }

  // ---- Exits are irrevocable over runs ---------------------------------------------------------

  /** `p` was handed out, and whatever process still has it is exiting or dead. */
  ghost predicate Departed(h: History, p: Pid) {
    && WasBorn(h, p)
    && forall i :: 0 <= i < |h.t.slots| && h.t.slots[i].Some? && h.t.slots[i].value.pid == p ==>
        IsExited(h.t.slots[i].value.state)
  }

  lemma StepKeepsDeparted(h: History, op: TableOp, p: Pid)
    requires Inv(h) && Guard(h, op) && Departed(h, p)
    ensures Departed(HStep(h, op), p)
  {
    var h' := HStep(h, op);
    if IsLocal(op) {
      LocalStep(h.t, op);
    }
    WasBornLater(h, op, p);
    match op
    case Spawn =>
      NewPidIsNew(h, p);
      assert h'.t.slots == h.t.slots + [Some(NewPcb(NextPid(h.t)))];
    case Cleanup =>
      forall i | 0 <= i < |h'.t.slots| && h'.t.slots[i].Some? && h'.t.slots[i].value.pid == p
        ensures IsExited(h'.t.slots[i].value.state)
      {
        var k := MovedFrom(h.t.slots, i);
      }
    case _ =>
  }

  /** A process that reached Exiting never runs again: over any guarded run its PID stays departed. */
  lemma {:induction false} ExitedStaysExited(h: History, ops: seq<TableOp>, p: Pid)
    requires Inv(h) && Departed(h, p)
    ensures Run(h, ops).Some? ==> Departed(Run(h, ops).value, p)
    decreases |ops|
  {
    if ops != [] && Guard(h, ops[0]) {
      StepKeeps(h, ops[0]);
      StepKeepsDeparted(h, ops[0], p);
      ExitedStaysExited(HStep(h, ops[0]), ops[1..], p);
    }
  }

  // ---- Where the guard is needed ---------------------------------------------------------------

  /** Process 1 holds a link to the first process 2; the id 2 has been recycled `n` times and is free. */
  ghost predicate StaleLink(t: Table, creation: U32, n: nat) {
    && |t.slots| >= 1 && t.nextIndex == |t.slots|
    && t.slots[0].Some? && t.slots[0].value.pid == Pid(1, 0, creation)
    && t.slots[0].value.links == [Pid(2, 0, creation)]
    && (forall i :: 1 <= i < |t.slots| ==> t.slots[i] == None)
    && t.reuse == [Pid(2, n % SERIALS, creation)]
  }

  lemma StaleLinkFirst(creation: U32)
    ensures var b := Pid(2, 0, creation);
            StaleLink(TerminateIn(LinkIn(SpawnIn(SpawnIn(NewTable(creation))), Pid(1, 0, creation), b), b), creation, 0)
  {
    var a, b := Pid(1, 0, creation), Pid(2, 0, creation);
    var t := SpawnIn(SpawnIn(NewTable(creation)));
    assert t.slots == [Some(NewPcb(a)), Some(NewPcb(b))];
    var u := LinkIn(t, a, b);
    assert IndexOf(u.slots, b) == Some(1);
  }

  lemma StaleLinkAgain(t: Table, creation: U32, n: nat)
    requires StaleLink(t, creation, n)
    ensures StaleLink(TerminateIn(SpawnIn(t), NextPid(t)), creation, n + 1)
  {
    var u, pid := SpawnIn(t), NextPid(t);
    assert u.slots == t.slots + [Some(NewPcb(pid))] && u.reuse == [];
    assert u.slots[|t.slots|].Some?;
    assert (n % SERIALS + 1) % SERIALS == (n + 1) % SERIALS;
  }

  lemma {:induction false} RecycleManyTimes(creation: U32, n: nat) returns (ops: seq<TableOp>)
    ensures StaleLink(AnyRun(NewTable(creation), ops), creation, n)
    decreases n
  {
    hide StaleLink, IndexOf, SpawnIn, LinkIn, TerminateIn;
    var t := NewTable(creation);
    if n == 0 {
      var a, b := Pid(1, 0, creation), Pid(2, 0, creation);
      ops := [];
      AnyRunSnoc(t, ops, Spawn);
      AnyRunSnoc(t, ops + [Spawn], Spawn);
      ops := ops + [Spawn] + [Spawn];
      AnyRunSnoc(t, ops, Link(a, b));
      AnyRunSnoc(t, ops + [Link(a, b)], Terminate(b));
      ops := ops + [Link(a, b)] + [Terminate(b)];
      StaleLinkFirst(creation);
    } else {
      ops := RecycleManyTimes(creation, n - 1);
      var pid := NextPid(AnyRun(t, ops));
      StaleLinkAgain(AnyRun(t, ops), creation, n - 1);
      AnyRunSnoc(t, ops, Spawn);
      AnyRunSnoc(t, ops + [Spawn], Terminate(pid));
      ops := ops + [Spawn] + [Terminate(pid)];
    }
  }

  /** When an id is recycled 2^13 times its serial wraps and a stale link names the new process. */
  lemma SerialWrapBreaksSymmetry(creation: U32) returns (ops: seq<TableOp>)
    ensures !Symmetric(AnyRun(NewTable(creation), ops).slots)
  {
    hide StaleLink, Symmetric;
    ops := RecycleManyTimes(creation, SERIALS - 1);
    StaleLinkNamesNew(AnyRun(NewTable(creation), ops), creation);
    AnyRunSnoc(NewTable(creation), ops, Spawn);
    ops := ops + [Spawn];
  }

  lemma StaleLinkNamesNew(t: Table, creation: U32)
    requires StaleLink(t, creation, SERIALS - 1)
    ensures !Symmetric(SpawnIn(t).slots)
  {
    var slots := SpawnIn(t).slots;
    assert slots == t.slots + [Some(NewPcb(Pid(2, 0, creation)))];
    assert Names(slots, 0, |t.slots|) && !Names(slots, |t.slots|, 0);
  }
}
