/** Schedulers and their registry: stealing and rebalancing on the mutable run queues. */
module Schedulers {
  import opened Wrappers
  import opened Processes
  import opened RunQueues
  import opened Rebalancing

  class Scheduler {
    const id: nat
    const runQueues: PriorityRunQueues

    constructor (id: nat)
      ensures this.id == id && fresh(runQueues) && runQueues.View() == Queues([], [], [], [])
    {
      this.id := id;
      runQueues := new PriorityRunQueues();
    }

    /** Steals up to half of the victim's run queue, one entry at a time. */
    method StealFrom(victim: Scheduler) returns (stolen: nat)
      requires victim.runQueues != runQueues
      modifies runQueues, victim.runQueues
      ensures (runQueues.View(), victim.runQueues.View()) ==
              StealFromIn(old(runQueues.View()), old(victim.runQueues.View()))
      ensures stolen == if old(victim.runQueues.Len()) <= old(runQueues.Len()) then 0
                        else (old(victim.runQueues.Len()) + 1) / 2
    {
      hide EnqueueIn, DequeueIn;
      if victim.runQueues.Len() <= runQueues.Len() {
        return 0;
      }
      ghost var t, v := runQueues.View(), victim.runQueues.View();
      var stealCount := (victim.runQueues.Len() + 1) / 2;
      stolen := 0;
      for i := 0 to stealCount
        invariant stolen == i
        invariant (runQueues.View(), victim.runQueues.View()) == StealN(t, v, i)
        invariant victim.runQueues.View().Len() == v.Len() - i
      {
        DequeueAmount(victim.runQueues.View(), OfAll);
        var entry := victim.runQueues.Dequeue();
        if entry.None? {
          break;
        }
        runQueues.Enqueue(entry.value);
        stolen := stolen + 1;
      }
    }
  }

  class SchedulerRegistry {
    var schedulers: seq<Scheduler?>

    /** Each scheduler has its own run queues. */
    ghost predicate Valid()
      reads this
    {
      forall i, j :: 0 <= i < j < |schedulers| && schedulers[i] != null && schedulers[j] != null ==>
        schedulers[i].runQueues != schedulers[j].runQueues
    }

    ghost function AllQueues(): set<object>
      reads this
    {
      set i | 0 <= i < |schedulers| && schedulers[i] != null :: schedulers[i].runQueues
    }

    ghost function View(): (r: Loads)
      reads this, AllQueues()
      ensures |r| == |schedulers|
    {
      seq(|schedulers|, i requires 0 <= i < |schedulers| reads this, AllQueues() =>
        if schedulers[i] == null then None else Some(schedulers[i].runQueues.View()))
    }

    method LoadOf(i: nat) returns (n: nat)
      requires Valid() && i < |schedulers|
      ensures n == LenAt(View(), i)
    {
      n := if schedulers[i] == null then 0 else schedulers[i].runQueues.Len();
    }

    method StealFromIdx(target: nat, victim: nat) returns (stolen: nat)
      requires Valid() && target < |schedulers| && victim < |schedulers|
      modifies this, AllQueues()
      ensures Valid() && schedulers == old(schedulers)
      ensures View() == StealIdx(old(View()), target, victim)
      ensures stolen == 0 ==> View() == old(View())
    {
      hide StealFromIn;
      if target == victim {
        return 0;
      }
      var targetLen := LoadOf(target);
      var victimLen := LoadOf(victim);
      if victimLen <= targetLen {
        return 0;
      }
      stolen := 0;
      var taken := schedulers[victim];
      if taken != null && schedulers[target] != null {
        stolen := schedulers[target].StealFrom(taken);
      }
      assert View() == StealIdx(old(View()), target, victim);
    }

    method TotalLen() returns (total: nat)
      requires Valid()
      ensures total == Total(View(), OfAll)
    {
      total := 0;
      ghost var s := View();
      for i := 0 to |schedulers|
        invariant View() == s && total == Total(s[..i], OfAll)
      {
        var n := LoadOf(i);
        LoadAmount(s, i);
        total := total + n;
      }
      assert s[..|schedulers|] == s;
    }

    /** The most loaded scheduler: the first index with the largest load. */
    method MostLoaded() returns (maxIdx: nat, maxLen: nat)
      requires Valid()
      ensures maxIdx == MaxIndex(View()) && maxLen == if maxIdx < |schedulers| then LenAt(View(), maxIdx) else 0
    {
      hide LenAt, MaxIndex;
      maxIdx, maxLen := |schedulers|, 0;
      ghost var s := View();
      MaxIndexNone();
      for i := 0 to |schedulers|
        invariant View() == s
        invariant if maxIdx < |schedulers| then maxIdx == MaxIndex(s[..i]) < i && maxLen == LenAt(s, maxIdx)
                  else maxIdx == |schedulers| && MaxIndex(s[..i]) == i && maxLen == 0
      {
        MaxIndexStep(s, i);
        var n := LoadOf(i);
        if n > maxLen {
          maxIdx, maxLen := i, n;
        }
      }
      assert s[..|schedulers|] == s && View() == s;
    }

    method CollectBelow(skip: nat, avg: nat) returns (below: seq<nat>)
      requires Valid()
      ensures below == BelowAverage(View(), |schedulers|, skip, avg)
    {
      hide LenAt;
      below := [];
      ghost var s := View();
      for i := 0 to |schedulers|
        invariant View() == s && below == BelowAverage(s, i, skip, avg)
      {
        var n := LoadOf(i);
        if i != skip && n < avg {
          below := below + [i];
        }
      }
    }

    method Rebalance()
      requires Valid()
      modifies this, AllQueues()
      ensures Valid() && schedulers == old(schedulers)
      ensures View() == RebalanceIn(old(View()))
    {
      hide RebalanceStep, RebalanceLoop, MaxIndex, BelowAverage, Total, LenAt;
      ghost var s := View();
      var total := TotalLen();
      var count := |schedulers|;
      if count == 0 || total == 0 {
        return;
      }
      var avg := total / count;
      var maxIdx, maxLen := MostLoaded();
      assert View() == s;
      if maxLen == 0 {
        NoneLoaded(s);
        return;
      }
      var below := CollectBelow(maxIdx, avg);
      assert View() == s;
      var i := 0;
      while i < |below| && maxLen != 0
        invariant 0 <= i <= |below| && Valid() && schedulers == old(schedulers)
        invariant maxLen == LenAt(View(), maxIdx)
        invariant RebalanceLoop(s, below, maxIdx) ==
                  if maxLen == 0 then View() else RebalanceLoop(View(), below[i..], maxIdx)
      {
        LoopUnfolds(View(), below, i, maxIdx);
        maxLen := Turn(below[i], maxIdx, maxLen);
        i := i + 1;
      }
      if maxLen != 0 {
        LoopDone(View(), maxIdx);
        assert below[i..] == [];
      }
      assert RebalanceLoop(s, below, maxIdx) == View();
    }

    /** One turn of the loop: steal for this target if the most loaded has over twice its load. */
    method Turn(target: nat, maxIdx: nat, len: nat) returns (maxLen: nat)
      requires Valid() && target < |schedulers| && maxIdx < |schedulers| && len == LenAt(View(), maxIdx)
      modifies this, AllQueues()
      ensures Valid() && schedulers == old(schedulers)
      ensures View() == RebalanceStep(old(View()), target, maxIdx) && maxLen == LenAt(View(), maxIdx)
    {
      hide StealIdx;
      ghost var s := View();
      maxLen := len;
      var targetLen := LoadOf(target);
      assert View() == s;
      if maxLen > targetLen * 2 {
        var stolen := StealFromIdx(target, maxIdx);
        if stolen > 0 {
          maxLen := LoadOf(maxIdx);
        }
      }
    }
  }

  lemma LoopUnfolds(s: Loads, below: seq<nat>, i: nat, maxIdx: nat)
    requires maxIdx < |s| && i < |below| && forall j :: 0 <= j < |below| ==> below[j] < |s|
    ensures var s' := RebalanceStep(s, below[i], maxIdx);
            RebalanceLoop(s, below[i..], maxIdx) ==
              if LenAt(s', maxIdx) == 0 then s' else RebalanceLoop(s', below[i + 1..], maxIdx)
  {
    assert below[i..][1..] == below[i + 1..];
  }

  lemma LoopDone(s: Loads, maxIdx: nat)
    requires maxIdx < |s|
    ensures RebalanceLoop(s, [], maxIdx) == s
  {
  }

  lemma LoadAmount(s: Loads, i: nat)
    requires i < |s|
    ensures Total(s[..i + 1], OfAll) == Total(s[..i], OfAll) + LenAt(s, i)
  {
    assert s[..i + 1][..i] == s[..i];
    match s[i] {
      case Some(q) => AmountFacts(q, Pid(0, 0, 0));
      case None =>
    }
  }

  lemma MaxIndexNone()
    ensures MaxIndex([]) == 0
  {
  }

  lemma MaxIndexStep(s: Loads, i: nat)
    requires i < |s|
    ensures var m := MaxIndex(s[..i]);
            MaxIndex(s[..i + 1]) ==
              if LenAt(s, i) > (if m < i then LenAt(s, m) else 0) then i else if m < i then m else i + 1
  {
    assert s[..i + 1][..i] == s[..i];
  }

  lemma NoneLoaded(s: Loads)
    requires MaxIndex(s) < |s| ==> LenAt(s, MaxIndex(s)) == 0
    ensures RebalanceIn(s) == s
  {
  }
}
