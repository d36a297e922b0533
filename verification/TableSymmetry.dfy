/** Symmetry of links, step by step and over runs, from distinct PIDs alone. */
module TableSymmetry {
  import opened Wrappers
  import opened Processes
  import opened TableSpec
  import opened TableRuns
  import opened TableHandles

  ghost predicate Names(slots: Slots, i: nat, j: nat)
    requires i < |slots| && j < |slots| && slots[i].Some? && slots[j].Some?
  {
    slots[j].value.pid in slots[i].value.links
  }

  /** Live processes: b is in the links of a exactly when a is in the links of b. */
  ghost predicate Symmetric(slots: Slots) {
    forall i, j :: 0 <= i < |slots| && 0 <= j < |slots| && slots[i].Some? && slots[j].Some? ==>
      (Names(slots, i, j) <==> Names(slots, j, i))
  }

  /** Spawning keeps links symmetric exactly when no live process has the new PID in its links. */
  lemma SpawnSymmetricIff(t: Table)
    requires t.nextIndex == |t.slots| && Symmetric(t.slots)
    ensures Symmetric(SpawnIn(t).slots) <==>
            forall i :: 0 <= i < |t.slots| && t.slots[i].Some? ==> NextPid(t) !in t.slots[i].value.links
  {
    var n, t' := |t.slots|, SpawnIn(t);
    assert t'.slots == t.slots + [Some(NewPcb(NextPid(t)))];
    if Symmetric(t'.slots) {
      forall i | 0 <= i < n && t.slots[i].Some? ensures NextPid(t) !in t.slots[i].value.links {
        assert Names(t'.slots, i, n) <==> Names(t'.slots, n, i);
      }
    }
    if forall i :: 0 <= i < n && t.slots[i].Some? ==> NextPid(t) !in t.slots[i].value.links {
      forall i, j | 0 <= i <= n && 0 <= j <= n && t'.slots[i].Some? && t'.slots[j].Some?
        ensures Names(t'.slots, i, j) <==> Names(t'.slots, j, i)
      {
        if i < n && j < n {
          assert Names(t.slots, i, j) <==> Names(t.slots, j, i);
        }
      }
    }
  }

  lemma RelinkedSymmetric(slots: Slots, slots': Slots, m: nat, n: nat, linked: bool)
    requires UniquePids(slots) && SamePids(slots, slots') && Symmetric(slots)
    requires m < |slots| && n < |slots| && slots[m].Some? && slots[n].Some?
    requires forall i :: 0 <= i < |slots| && slots[i].Some? ==> forall q ::
               q in slots'[i].value.links <==>
                 var touched := (i == m && q == slots[n].value.pid) || (i == n && q == slots[m].value.pid);
                 if linked then q in slots[i].value.links || touched else q in slots[i].value.links && !touched
    ensures Symmetric(slots')
  {
    forall i, j | 0 <= i < |slots| && 0 <= j < |slots| && slots[i].Some? && slots[j].Some?
      ensures Names(slots', i, j) <==> Names(slots', j, i)
    {
      assert Names(slots, i, j) <==> Names(slots, j, i);
      assert slots[j].value.pid == slots[n].value.pid <==> j == n;
      assert slots[j].value.pid == slots[m].value.pid <==> j == m;
      assert slots[i].value.pid == slots[n].value.pid <==> i == n;
      assert slots[i].value.pid == slots[m].value.pid <==> i == m;
    }
  }

  // ---- What each operation does to symmetry ------------------------------------------------------

  lemma SameLinksSymmetric(slots: Slots, slots': Slots)
    requires SameLinks(slots, slots') && Symmetric(slots)
    ensures Symmetric(slots')
  {
    forall i, j | 0 <= i < |slots| && 0 <= j < |slots| && slots[i].Some? && slots[j].Some?
      ensures Names(slots', i, j) <==> Names(slots', j, i)
    {
      assert Names(slots, i, j) <==> Names(slots, j, i);
    }
  }

  lemma ClearedSymmetric(slots: Slots, k: nat)
    requires k < |slots| && Symmetric(slots)
    ensures Symmetric(slots[k := None])
  {
    var slots' := slots[k := None];
    forall i, j | 0 <= i < |slots| && 0 <= j < |slots| && slots'[i].Some? && slots'[j].Some?
      ensures Names(slots', i, j) <==> Names(slots', j, i)
    {
      assert Names(slots, i, j) <==> Names(slots, j, i);
    }
  }

  lemma CompactedSymmetric(slots: Slots)
    requires Symmetric(slots)
    ensures Symmetric(Compacted(slots))
  {
    var slots' := Compacted(slots);
    forall i, j | 0 <= i < |slots'| && 0 <= j < |slots'| && slots'[i].Some? && slots'[j].Some?
      ensures Names(slots', i, j) <==> Names(slots', j, i)
    {
      var k := MovedFrom(slots, i);
      var l := MovedFrom(slots, j);
      assert Names(slots, k, l) <==> Names(slots, l, k);
    }
  }

  lemma LinkSymmetric(t: Table, a: Pid, b: Pid)
    requires UniquePids(t.slots) && Symmetric(t.slots)
    ensures Symmetric(LinkIn(t, a, b).slots)
  {
    hide Symmetric;
    var slots, slots' := t.slots, LinkIn(t, a, b).slots;
    var ra, rb := IndexOf(slots, a), IndexOf(slots, b);
    LinkLocal(t, a, b);
    if ra.Some? && rb.Some? {
      forall i | 0 <= i < |slots| && slots[i].Some?
        ensures forall q :: q in slots'[i].value.links <==>
                  q in slots[i].value.links || (i == ra.value && q == b) || (i == rb.value && q == a)
      {
      }
      RelinkedSymmetric(slots, slots', ra.value, rb.value, true);
    }
  }

  lemma UnlinkSymmetric(t: Table, a: Pid, b: Pid)
    requires UniquePids(t.slots) && Symmetric(t.slots)
    ensures Symmetric(UnlinkIn(t, a, b).slots)
  {
    hide Symmetric;
    var slots, slots' := t.slots, UnlinkIn(t, a, b).slots;
    var ra, rb := IndexOf(slots, a), IndexOf(slots, b);
    UnlinkLocal(t, a, b);
    if ra.Some? && rb.Some? {
      forall i | 0 <= i < |slots| && slots[i].Some?
        ensures forall q :: q in slots'[i].value.links <==>
                  q in slots[i].value.links && !(i == ra.value && q == b) && !(i == rb.value && q == a)
      {
      }
      RelinkedSymmetric(slots, slots', ra.value, rb.value, false);
    }
  }

  /** A spawn whose PID no live process holds in its links; any other operation. */
  predicate NoStaleLink(t: Table, op: TableOp) {
    op.Spawn? ==> forall i :: 0 <= i < |t.slots| && t.slots[i].Some? ==> NextPid(t) !in t.slots[i].value.links
  }

  /** With distinct PIDs a step keeps links symmetric exactly unless it is a spawn that meets a stale link. */
  lemma StepSymmetricIff(t: Table, op: TableOp)
    requires t.nextIndex == |t.slots| && UniquePids(t.slots) && Symmetric(t.slots)
    ensures Symmetric(Step(t, op).slots) <==> NoStaleLink(t, op)
  {
    hide Symmetric;
    match op
    case Spawn => SpawnSymmetricIff(t);
    case Terminate(pid) =>
      var i := IndexOf(t.slots, pid);
      if i.Some? {
        ClearedSymmetric(t.slots, i.value);
      }
    case Cleanup => CompactedSymmetric(t.slots);
    case Link(a, b) => LinkSymmetric(t, a, b);
    case Unlink(a, b) => UnlinkSymmetric(t, a, b);
    case _ =>
      LocalStep(t, op);
      SameLinksSymmetric(t.slots, Step(t, op).slots);
  }

  // ---- Whole runs --------------------------------------------------------------------------------

  /** PIDs are distinct and links symmetric. */
  ghost predicate Sound(t: Table) {
    t.nextIndex == |t.slots| && UniquePids(t.slots) && Symmetric(t.slots)
  }

  /** The PID a spawn is about to give out is neither live nor in the links of a live process. */
  predicate PidUnused(t: Table, op: TableOp) {
    op.Spawn? ==> forall i :: 0 <= i < |t.slots| && t.slots[i].Some? ==>
      t.slots[i].value.pid != NextPid(t) && NextPid(t) !in t.slots[i].value.links
  }

  lemma SpawnUniqueIff(t: Table)
    requires t.nextIndex == |t.slots| && UniquePids(t.slots)
    ensures UniquePids(SpawnIn(t).slots) <==>
            forall i :: 0 <= i < |t.slots| && t.slots[i].Some? ==> t.slots[i].value.pid != NextPid(t)
  {
    var n, slots' := |t.slots|, SpawnIn(t).slots;
    assert slots' == t.slots + [Some(NewPcb(NextPid(t)))];
    assert slots'[n].value.pid == NextPid(t) && forall i :: 0 <= i < n ==> slots'[i] == t.slots[i];
  }

  lemma CompactedUnique(slots: Slots)
    requires UniquePids(slots)
    ensures UniquePids(Compacted(slots))
  {
    var slots' := Compacted(slots);
    forall i, j | 0 <= i < j < |slots'| && slots'[i].Some? && slots'[j].Some?
      ensures slots'[i].value.pid != slots'[j].value.pid
    {
      var k := MovedFrom(slots, i);
      var l := MovedFrom(slots, j);
    }
  }

  lemma StepSoundIff(t: Table, op: TableOp)
    requires Sound(t)
    ensures Sound(Step(t, op)) <==> PidUnused(t, op)
  {
    hide Symmetric;
    StepSymmetricIff(t, op);
    match op
    case Spawn =>
      SpawnLength(t);
      SpawnUniqueIff(t);
    case Terminate(pid) =>
    case Cleanup => CompactedUnique(t.slots);
    case _ => LocalStep(t, op);
  }

  /** PIDs are distinct and links symmetric at every point of a run. */
  ghost predicate AlwaysSound(t: Table, ops: seq<TableOp>)
    requires t.nextIndex <= |t.slots|
    decreases |ops|
  {
    Sound(AnyRun(t, ops)) && (ops != [] ==> AlwaysSound(t, ops[..|ops| - 1]))
  }

  /** Every PID the run gives out is unused at that moment. */
  ghost predicate AlwaysUnused(t: Table, ops: seq<TableOp>)
    requires t.nextIndex <= |t.slots|
    decreases |ops|
  {
    ops != [] ==> AlwaysUnused(t, ops[..|ops| - 1]) && PidUnused(AnyRun(t, ops[..|ops| - 1]), ops[|ops| - 1])
  }

  /** PIDs stay distinct and links symmetric all along a run exactly when every PID it gives out was unused. */
  lemma {:induction false} RunSoundIff(t: Table, ops: seq<TableOp>)
    requires t.nextIndex <= |t.slots| && Sound(t)
    ensures AlwaysSound(t, ops) <==> AlwaysUnused(t, ops)
    decreases |ops|
  {
    hide Sound, Step, PidUnused;
    if ops != [] {
      var n := |ops| - 1;
      RunSoundIff(t, ops[..n]);
      if AlwaysSound(t, ops[..n]) {
        StepSoundIff(AnyRun(t, ops[..n]), ops[n]);
      }
    }
  }
}
