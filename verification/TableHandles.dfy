/** Process handles: a slot number taken at spawn, and when it still finds the process it was made for. */
module TableHandles {
  import opened Wrappers
  import opened Words
  import opened Processes
  import opened TableSpec
  import opened TableRuns

  /** `get_by_handle` looks at the slot only; this says that it finds the process `pid` there. */
  predicate Finds(slots: Slots, index: nat, pid: Pid) {
    index < |slots| && slots[index].Some? && slots[index].value.pid == pid
  }

  /** Where cleanup moves slot `i`. */
  function NewIndex(slots: Slots, i: nat): nat
    requires i <= |slots|
  {
    |Compacted(slots[..i])|
  }

  lemma {:induction false} NewIndexUnmovedIff(slots: Slots, i: nat)
    requires i <= |slots|
    ensures NewIndex(slots, i) <= i
    ensures NewIndex(slots, i) == i <==> forall j :: 0 <= j < i ==> slots[j].Some?
    decreases i
  {
    if i > 0 {
      NewIndexUnmovedIff(slots, i - 1);
      assert slots[..i][..i - 1] == slots[..i - 1];
    }
  }

  lemma {:induction false} MovedTo(slots: Slots, i: nat)
    requires i < |slots| && slots[i].Some?
    ensures NewIndex(slots, i) < |Compacted(slots)| && Compacted(slots)[NewIndex(slots, i)] == slots[i]
    decreases |slots|
  {
    var n := |slots| - 1;
    if i < n {
      MovedTo(slots[..n], i);
      assert slots[..n][..i] == slots[..i];
    }
  }

  lemma {:induction false} MovedFrom(slots: Slots, r: nat) returns (i: nat)
    requires r < |Compacted(slots)|
    ensures i < |slots| && slots[i].Some? && NewIndex(slots, i) == r && Compacted(slots)[r] == slots[i]
    decreases |slots|
  {
    var n := |slots| - 1;
    if r < |Compacted(slots[..n])| {
      i := MovedFrom(slots[..n], r);
      assert slots[..n][..i] == slots[..i];
    } else {
      i := n;
    }
  }

  lemma CleanupFindsIff(slots: Slots, i: nat)
    requires UniquePids(slots) && i < |slots| && slots[i].Some?
    ensures Finds(Compacted(slots), i, slots[i].value.pid) <==> forall j :: 0 <= j < i ==> slots[j].Some?
  {
    NewIndexUnmovedIff(slots, i);
    MovedTo(slots, i);
    if Finds(Compacted(slots), i, slots[i].value.pid) {
      var k := MovedFrom(slots, i);
      assert k == i;
    }
  }

  /**
   A handle goes on finding its process through any operation except its own termination and a cleanup
   that closes a gap below its slot: handles are stable exactly as long as the table is not compacted.
   */
  lemma HandleStableIff(t: Table, op: TableOp, i: nat)
    requires t.nextIndex == |t.slots| && UniquePids(t.slots) && i < |t.slots| && t.slots[i].Some?
    ensures var pid := t.slots[i].value.pid;
            Finds(Step(t, op).slots, i, pid) <==>
              match op
              case Terminate(p) => p != pid
              case Cleanup => forall j :: 0 <= j < i ==> t.slots[j].Some?
              case _ => true
  {
    match op
    case Spawn => assert Step(t, op).slots == t.slots + [Some(NewPcb(NextPid(t)))];
    case Terminate(p) => IndexOfUnique(t.slots, i);
    case Cleanup => CleanupFindsIff(t.slots, i);
    case _ => LocalStep(t, op);
  }

  /** After one cleanup the handle of the second process finds the third. */
  lemma CleanupMovesHandles(creation: U32)
    ensures var a, b, c := Pid(1, 0, creation), Pid(2, 0, creation), Pid(3, 0, creation);
            var t := SpawnIn(SpawnIn(SpawnIn(NewTable(creation))));
            && Finds(t.slots, 1, b)
            && Finds(CleanupIn(TerminateIn(t, a)).slots, 1, c)
  {
    var a, b, c := Pid(1, 0, creation), Pid(2, 0, creation), Pid(3, 0, creation);
    var t := SpawnIn(SpawnIn(SpawnIn(NewTable(creation))));
    assert t.slots == [Some(NewPcb(a)), Some(NewPcb(b)), Some(NewPcb(c))];
    IndexOfFirst(t.slots, a);
    assert TerminateIn(t, a).slots == [None, Some(NewPcb(b)), Some(NewPcb(c))];
    GapCloses(NewPcb(b), NewPcb(c));
  }

  lemma IndexOfFirst(slots: Slots, pid: Pid)
    requires slots != [] && slots[0].Some? && slots[0].value.pid == pid
    ensures IndexOf(slots, pid) == Some(0)
  {
  }

  lemma CompactedSnoc(slots: Slots, x: Option<Pcb>)
    ensures Compacted(slots + [x]) == Compacted(slots) + if x.Some? then [x] else []
  {
    assert (slots + [x])[..|slots|] == slots;
  }

  lemma GapCloses(b: Pcb, c: Pcb)
    ensures Finds(Compacted([None, Some(b), Some(c)]), 1, c.pid)
  {
    hide Compacted;
    var s: Slots := [];
    CompactedSnoc(s, None);
    CompactedSnoc(s + [None], Some(b));
    CompactedSnoc(s + [None] + [Some(b)], Some(c));
    assert Compacted(s) == [] by {
      CompactedShrinks(s);
    }
    assert s + [None] + [Some(b)] + [Some(c)] == [None, Some(b), Some(c)];
  }

  lemma CompactedShrinks(slots: Slots)
    ensures |Compacted(slots)| <= |slots|
  {
    NewIndexUnmovedIff(slots, |slots|);
    assert slots[..|slots|] == slots;
  }
}
