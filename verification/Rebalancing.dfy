/** Work stealing between schedulers, and rebalancing of all of them. */
module Rebalancing {
  import opened Wrappers
  import opened Processes
  import opened RunQueues

  /** All entries in the order they would be dequeued. */
  function Entries(q: Queues): (s: seq<Entry>)
    ensures |s| == q.Len()
  {
    q.max + q.high + q.normal + q.low
  }

  // ---- Stealing --------------------------------------------------------------------------------

  /** Move up to `n` entries, one dequeue and one enqueue each. */
  function StealN(target: Queues, victim: Queues, n: nat): (Queues, Queues) {
    if n == 0 then (target, victim)
    else
      var (t, v) := StealN(target, victim, n - 1);
      match DequeueIn(v)
      case (Some(e), v') => (EnqueueIn(t, e), v')
      case (None, _) => (t, v)
  }

  function StealCount(victim: Queues): nat {
    (victim.Len() + 1) / 2
  }

  /** `steal_from`: half of the victim's queue, rounded up, if the victim has more. */
  function StealFromIn(target: Queues, victim: Queues): (Queues, Queues) {
    if victim.Len() <= target.Len() then (target, victim) else StealN(target, victim, StealCount(victim))
  }

  lemma DequeueEntries(q: Queues)
    ensures var (e, q') := DequeueIn(q);
            if Entries(q) == [] then e == None && q' == q
            else e == Some(Entries(q)[0]) && Entries(q') == Entries(q)[1..]
  {
  }

  // ---- Counting --------------------------------------------------------------------------------

  /** What to count: one entry, one PID, or everything. */
  datatype Measure = OfEntry(e: Entry) | OfPid(pid: Pid) | OfAll

  function Match(m: Measure, x: Entry): nat {
    match m
    case OfEntry(e) => if x == e then 1 else 0
    case OfPid(pid) => if x.pid == pid then 1 else 0
    case OfAll => 1
  }

  function Count(s: seq<Entry>, m: Measure): nat {
    if s == [] then 0 else Count(s[..|s| - 1], m) + Match(m, s[|s| - 1])
  }

  function Amount(q: Queues, m: Measure): nat {
    Count(q.low, m) + Count(q.normal, m) + Count(q.high, m) + Count(q.max, m)
  }

  lemma {:induction false} CountConcat(a: seq<Entry>, b: seq<Entry>, m: Measure)
    ensures Count(a + b, m) == Count(a, m) + Count(b, m)
    decreases |b|
  {
    if b == [] {
      assert a + b == a;
    } else {
      var n := |b| - 1;
      CountConcat(a, b[..n], m);
      assert (a + b)[..|a + b| - 1] == a + b[..n];
    }
  }

  lemma CountSnoc(s: seq<Entry>, e: Entry, m: Measure)
    ensures Count(s + [e], m) == Count(s, m) + Match(m, e)
  {
    assert (s + [e])[..|s|] == s;
  }

  lemma CountFirst(s: seq<Entry>, m: Measure)
    ensures s != [] ==> Count(s, m) == Match(m, s[0]) + Count(s[1..], m)
  {
    if s != [] {
      assert s == [s[0]] + s[1..];
      CountConcat([s[0]], s[1..], m);
      assert [s[0]][..0] == [];
    }
  }

  lemma {:induction false} CountPid(s: seq<Entry>, pid: Pid)
    ensures Count(s, OfPid(pid)) > 0 <==> HasPid(s, pid)
    ensures Count(s, OfAll) == |s|
    decreases |s|
  {
    if s != [] {
      CountPid(s[..|s| - 1], pid);
    }
  }

  lemma AmountFacts(q: Queues, pid: Pid)
    ensures Amount(q, OfPid(pid)) > 0 <==> ContainsPid(q, pid)
    ensures Amount(q, OfAll) == q.Len()
  {
    CountPid(q.low, pid);
    CountPid(q.normal, pid);
    CountPid(q.high, pid);
    CountPid(q.max, pid);
  }

  lemma DequeueAmount(q: Queues, m: Measure)
    ensures var (e, q') := DequeueIn(q);
            && (e == None <==> q.Len() == 0) && (e == None ==> q' == q)
            && (e.Some? ==> Amount(q, m) == Amount(q', m) + Match(m, e.value) && q'.Len() == q.Len() - 1)
  {
    hide Count, Match;
    CountFirst(q.low, m);
    CountFirst(q.normal, m);
    CountFirst(q.high, m);
    CountFirst(q.max, m);
  }

  lemma EnqueueAmount(q: Queues, e: Entry, m: Measure)
    ensures Amount(EnqueueIn(q, e), m) == Amount(q, m) + if ContainsPid(q, e.pid) then 0 else Match(m, e)
    ensures EnqueueIn(q, e).Len() == q.Len() + if ContainsPid(q, e.pid) then 0 else 1
  {
    hide Count, ContainsPid, Match;
    CountSnoc(q.low, e, m);
    CountSnoc(q.normal, e, m);
    CountSnoc(q.high, e, m);
    CountSnoc(q.max, e, m);
  }

  /** No PID twice in the two queues together. */
  ghost predicate Apart(t: Queues, v: Queues) {
    forall pid: Pid :: Amount(t, OfPid(pid)) + Amount(v, OfPid(pid)) <= 1
  }

  lemma {:induction false} StealNConserves(t: Queues, v: Queues, n: nat)
    requires Apart(t, v) && n <= v.Len()
    ensures var (t', v') := StealN(t, v, n);
            && (forall m: Measure :: Amount(t', m) + Amount(v', m) == Amount(t, m) + Amount(v, m))
            && t'.Len() == t.Len() + n && v'.Len() == v.Len() - n
    decreases n
  {
    hide DequeueIn, EnqueueIn, ContainsPid, Count, Amount, Queues.Len;
    if n > 0 {
      StealNConserves(t, v, n - 1);
      var (u, w) := StealN(t, v, n - 1);
      DequeueAmount(w, OfAll);
      var (e, w') := DequeueIn(w);
      DequeueAmount(w, OfPid(e.value.pid));
      AmountFacts(u, e.value.pid);
      EnqueueAmount(u, e.value, OfAll);
      assert Amount(u, OfPid(e.value.pid)) + Amount(w, OfPid(e.value.pid)) <= 1;
      forall m: Measure
        ensures Amount(EnqueueIn(u, e.value), m) + Amount(w', m) == Amount(t, m) + Amount(v, m)
      {
        DequeueAmount(w, m);
        EnqueueAmount(u, e.value, m);
        assert Amount(u, m) + Amount(w, m) == Amount(t, m) + Amount(v, m);
      }
    }
  }

  /**
   What stealing does to two queues that may share PIDs: the victim loses its first `n` entries in
   dequeue order, and the target gains all of them exactly when it held none of their PIDs.
   */
  lemma {:induction false} StealNShape(t: Queues, v: Queues, n: nat)
    requires DistinctPids(Entries(v)) && n <= v.Len()
    ensures var (t', v') := StealN(t, v, n);
            && Entries(v') == Entries(v)[n..] && t'.Len() <= t.Len() + n
            && (t'.Len() == t.Len() + n <==> forall i :: 0 <= i < n ==> !ContainsPid(t, Entries(v)[i].pid))
            && (forall pid: Pid :: ContainsPid(t', pid) <==>
                  ContainsPid(t, pid) || exists i :: 0 <= i < n && Entries(v)[i].pid == pid)
    decreases n
  {
    hide DequeueIn, EnqueueIn, ContainsPid, Entries;
    if n > 0 {
      StealNShape(t, v, n - 1);
      var (u, w) := StealN(t, v, n - 1);
      DequeueEntries(w);
      var e := Entries(v)[n - 1];
      assert Entries(w)[0] == e;
      EnqueueAmount(u, e, OfAll);
      forall pid: Pid ensures ContainsPid(EnqueueIn(u, e), pid) <==> ContainsPid(u, pid) || pid == e.pid {
        EnqueueAmount(u, e, OfPid(pid));
        AmountFacts(u, pid);
        AmountFacts(EnqueueIn(u, e), pid);
      }
      assert forall i :: 0 <= i < n - 1 ==> Entries(v)[i].pid != e.pid;
    }
  }

  /** Stealing keeps all work exactly when none of the stolen PIDs is queued at the target already. */
  lemma StealKeepsWorkIff(t: Queues, v: Queues)
    requires DistinctPids(Entries(v))
    ensures var (t', v') := StealFromIn(t, v);
            t'.Len() + v'.Len() == t.Len() + v.Len() <==>
              v.Len() <= t.Len() || forall i :: 0 <= i < StealCount(v) ==> !ContainsPid(t, Entries(v)[i].pid)
  {
    hide Entries, ContainsPid;
    if v.Len() > t.Len() {
      StealNShape(t, v, StealCount(v));
      assert StealN(t, v, StealCount(v)).1.Len() == |Entries(StealN(t, v, StealCount(v)).1)|;
    }
  }

  /** A PID queued at both schedulers: the thief refuses the entry the victim has given up. */
  lemma StolenEntryLost(e: Entry, f: Entry)
    requires e.priority == Normal && f.priority == Normal && e.pid != f.pid
    ensures StealFromIn(Queues([], [e], [], []), Queues([], [e, f], [], [])) ==
            (Queues([], [e], [], []), Queues([], [f], [], []))
  {
    var t, v := Queues([], [e], [], []), Queues([], [e, f], [], []);
    assert ContainsPid(t, e.pid) by {
      assert t.normal[0].pid == e.pid;
    }
    assert StealCount(v) == 1 && StealN(t, v, 0) == (t, v);
    assert DequeueIn(v) == (Some(e), Queues([], [f], [], [])) && EnqueueIn(t, e) == t;
    assert StealN(t, v, 1) == (t, Queues([], [f], [], []));
  }

  // ---- The registry ----------------------------------------------------------------------------

  type Loads = seq<Option<Queues>>

  function LenAt(s: Loads, i: nat): nat
    requires i < |s|
  {
    match s[i]
    case Some(q) => q.Len()
    case None => 0
  }

  function AmountOf(x: Option<Queues>, m: Measure): nat {
    match x
    case Some(q) => Amount(q, m)
    case None => 0
  }

  function Total(s: Loads, m: Measure): nat {
    if s == [] then 0 else Total(s[..|s| - 1], m) + AmountOf(s[|s| - 1], m)
  }

  lemma {:induction false} TotalUpdate(s: Loads, i: nat, x: Option<Queues>, m: Measure)
    requires i < |s|
    ensures Total(s[i := x], m) + AmountOf(s[i], m) == Total(s, m) + AmountOf(x, m)
    decreases |s|
  {
    var n := |s| - 1;
    if i < n {
      TotalUpdate(s[..n], i, x, m);
      assert s[i := x][..n] == s[..n][i := x];
    } else {
      assert s[i := x][..n] == s[..n];
    }
  }

  lemma {:induction false} TotalCovers(s: Loads, i: nat, j: nat, m: Measure)
    requires i < j < |s|
    ensures AmountOf(s[i], m) + AmountOf(s[j], m) <= Total(s, m)
    decreases |s|
  {
    var n := |s| - 1;
    if j < n {
      TotalCovers(s[..n], i, j, m);
    } else {
      TotalCoversOne(s[..n], i, m);
    }
  }

  lemma {:induction false} TotalCoversOne(s: Loads, i: nat, m: Measure)
    requires i < |s|
    ensures AmountOf(s[i], m) <= Total(s, m)
    decreases |s|
  {
    if i < |s| - 1 {
      TotalCoversOne(s[..|s| - 1], i, m);
    }
  }

  /** No PID is queued twice anywhere. */
  ghost predicate Once(s: Loads) {
    forall pid: Pid :: Total(s, OfPid(pid)) <= 1
  }

  /** `steal_from_idx`. */
  function StealIdx(s: Loads, target: nat, victim: nat): Loads
    requires target < |s| && victim < |s|
  {
    if target == victim || LenAt(s, victim) <= LenAt(s, target) || s[target].None? then s
    else
      var (t, v) := StealFromIn(s[target].value, s[victim].value);
      s[target := Some(t)][victim := Some(v)]
  }

  /** The first scheduler with the largest load, or the length when all are empty. */
  function MaxIndex(s: Loads): (i: nat)
    ensures i <= |s| && (i < |s| ==> LenAt(s, i) > 0)
    ensures forall j :: 0 <= j < |s| ==> LenAt(s, j) <= if i < |s| then LenAt(s, i) else 0
    ensures i < |s| ==> forall j :: 0 <= j < i ==> LenAt(s, j) < LenAt(s, i)
  {
    if s == [] then 0
    else
      var n := |s| - 1;
      assert forall j :: 0 <= j < n ==> LenAt(s[..n], j) == LenAt(s, j);
      var i := MaxIndex(s[..n]);
      var len := if i < n then LenAt(s[..n], i) else 0;
      if LenAt(s, n) > len then n else if i < n then i else |s|
  }

  /** Schedulers other than `skip` below the average load, in order. */
  function BelowAverage(s: Loads, n: nat, skip: nat, avg: nat): (below: seq<nat>)
    requires n <= |s|
    ensures forall i :: 0 <= i < |below| ==> below[i] < n && below[i] != skip
  {
    if n == 0 then []
    else BelowAverage(s, n - 1, skip, avg) + if n - 1 != skip && LenAt(s, n - 1) < avg then [n - 1] else []
  }

  /** `below` holds exactly the indices under `n` of schedulers below the average, `skip` apart, in order. */
  ghost predicate BelowIs(s: Loads, n: nat, skip: nat, avg: nat, below: seq<nat>)
    requires n <= |s|
  {
    && (forall i :: i in below <==> 0 <= i < n && IsBelow(s, i, skip, avg))
    && (forall i, j :: 0 <= i < j < |below| ==> below[i] < below[j])
  }

  predicate IsBelow(s: Loads, i: nat, skip: nat, avg: nat)
    requires i < |s|
  {
    i != skip && LenAt(s, i) < avg
  }

  lemma BelowSnoc(s: Loads, n: nat, skip: nat, avg: nat, below: seq<nat>)
    requires n < |s| && BelowIs(s, n, skip, avg, below)
    ensures BelowIs(s, n + 1, skip, avg, below + if IsBelow(s, n, skip, avg) then [n] else [])
  {
    hide IsBelow;
    assert forall i :: 0 <= i < |below| ==> below[i] in below;
  }

  lemma {:induction false} BelowAverageIs(s: Loads, n: nat, skip: nat, avg: nat)
    requires n <= |s|
    ensures BelowIs(s, n, skip, avg, BelowAverage(s, n, skip, avg))
    decreases n
  {
    if n > 0 {
      hide BelowIs, LenAt;
      BelowAverageIs(s, n - 1, skip, avg);
      BelowSnoc(s, n - 1, skip, avg, BelowAverage(s, n - 1, skip, avg));
    }
  }

  /** One turn of the rebalancing loop. */
  function RebalanceStep(s: Loads, target: nat, maxIdx: nat): Loads
    requires target < |s| && maxIdx < |s|
  {
    if LenAt(s, maxIdx) > LenAt(s, target) * 2 then StealIdx(s, target, maxIdx) else s
  }

  function RebalanceLoop(s: Loads, below: seq<nat>, maxIdx: nat): (r: Loads)
    requires maxIdx < |s| && forall i :: 0 <= i < |below| ==> below[i] < |s|
    ensures |r| == |s|
    decreases |below|
  {
    if below == [] then s
    else
      var s' := RebalanceStep(s, below[0], maxIdx);
      if LenAt(s', maxIdx) == 0 then s' else RebalanceLoop(s', below[1..], maxIdx)
  }

  function RebalanceIn(s: Loads): (r: Loads)
    ensures |r| == |s|
  {
    hide Total, MaxIndex, BelowAverage, RebalanceLoop, LenAt;
    var total := Total(s, OfAll);
    var maxIdx := MaxIndex(s);
    if |s| == 0 || total == 0 || maxIdx == |s| then s
    else
      var avg := total / |s|;
      RebalanceLoop(s, BelowAverage(s, |s|, maxIdx, avg), maxIdx)
  }

  lemma StealIdxConserves(s: Loads, target: nat, victim: nat, m: Measure)
    requires target < |s| && victim < |s| && Once(s)
    ensures Total(StealIdx(s, target, victim), m) == Total(s, m)
    ensures var s' := StealIdx(s, target, victim);
            && |s'| == |s|
            && (s' == s ||
                (target != victim && s[target].Some? && s[victim].Some?
                 && LenAt(s', target) == LenAt(s, target) + (LenAt(s, victim) + 1) / 2
                 && LenAt(s', victim) == LenAt(s, victim) - (LenAt(s, victim) + 1) / 2
                 && forall i :: 0 <= i < |s| && i != target && i != victim ==> s'[i] == s[i]))
  {
    hide Amount, Queues.Len, Total;
    if !(target == victim || LenAt(s, victim) <= LenAt(s, target) || s[target].None?) {
      var t, v := s[target].value, s[victim].value;
      forall pid: Pid ensures Amount(t, OfPid(pid)) + Amount(v, OfPid(pid)) <= 1 {
        if target < victim {
          TotalCovers(s, target, victim, OfPid(pid));
        } else {
          TotalCovers(s, victim, target, OfPid(pid));
        }
      }
      StealNConserves(t, v, StealCount(v));
      var (t', v') := StealFromIn(t, v);
      TotalUpdate(s, target, Some(t'), m);
      TotalUpdate(s[target := Some(t')], victim, Some(v'), m);
    }
  }

  /** All loads stay between two bounds. */
  ghost predicate Within(s: Loads, least: nat, most: nat) {
    forall i :: 0 <= i < |s| && s[i].Some? ==> least <= LenAt(s, i) <= most
  }

  /** Stealing ceil(n/2) only when n > 2m gives at most n to the target and leaves at least m. */
  lemma StepWithin(s: Loads, target: nat, maxIdx: nat, least: nat, most: nat)
    requires target < |s| && maxIdx < |s| && Once(s) && Within(s, least, most)
    ensures var s' := RebalanceStep(s, target, maxIdx);
            && |s'| == |s| && Once(s') && Within(s', least, most)
            && forall m: Measure :: Total(s', m) == Total(s, m)
  {
    hide StealIdx, Total, LenAt;
    var s' := RebalanceStep(s, target, maxIdx);
    forall m: Measure ensures Total(s', m) == Total(s, m) {
      StealIdxConserves(s, target, maxIdx, m);
    }
    forall pid: Pid ensures Total(s', OfPid(pid)) <= 1 {
      assert Total(s, OfPid(pid)) <= 1;
    }
    StealIdxConserves(s, target, maxIdx, OfAll);
    forall i | 0 <= i < |s'| && s'[i].Some? ensures least <= LenAt(s', i) <= most {
      SameLen(s, s', i);
    }
  }

  lemma SameLen(s: Loads, s': Loads, i: nat)
    requires i < |s| && i < |s'|
    ensures s[i] == s'[i] ==> LenAt(s, i) == LenAt(s', i)
  {
  }

  lemma {:induction false} LoopWithin(s: Loads, below: seq<nat>, maxIdx: nat, least: nat, most: nat)
    requires maxIdx < |s| && (forall i :: 0 <= i < |below| ==> below[i] < |s|)
    requires Once(s) && Within(s, least, most)
    ensures var r := RebalanceLoop(s, below, maxIdx);
            && Once(r) && Within(r, least, most) && forall m: Measure :: Total(r, m) == Total(s, m)
    decreases |below|
  {
    hide Once, Within, Total, RebalanceStep;
    if below != [] {
      StepWithin(s, below[0], maxIdx, least, most);
      LoopWithin(RebalanceStep(s, below[0], maxIdx), below[1..], maxIdx, least, most);
    }
  }

  /**
   When no PID is queued twice, rebalancing keeps every (PID, handle, priority) entry and that
   property, makes no queue longer than the longest was and none shorter than the shortest was.
   */
  lemma RebalanceConserves(s: Loads, least: nat, most: nat)
    requires Once(s) && Within(s, least, most)
    ensures Once(RebalanceIn(s)) && Within(RebalanceIn(s), least, most)
    ensures forall m: Measure :: Total(RebalanceIn(s), m) == Total(s, m)
  {
    hide Once, Within, Total, MaxIndex, BelowAverage, LenAt, RebalanceLoop;
    var maxIdx := MaxIndex(s);
    if !(|s| == 0 || Total(s, OfAll) == 0 || maxIdx == |s|) {
      LoopWithin(s, BelowAverage(s, |s|, maxIdx, Total(s, OfAll) / |s|), maxIdx, least, most);
    }
  }

  // ---- What stealing and rebalancing achieve -----------------------------------------------------

  /** A steal moves exactly half of the longer queue, rounded up, taken from its front. */
  lemma StealTakesHalf(t: Queues, v: Queues)
    requires Apart(t, v) && DistinctPids(Entries(v))
    ensures var (t', v') := StealFromIn(t, v);
            var n := (v.Len() + 1) / 2;
            if v.Len() <= t.Len() then t' == t && v' == v
            else
              && t'.Len() == t.Len() + n && v'.Len() == v.Len() - n && Entries(v') == Entries(v)[n..]
              && forall m: Measure :: Amount(t', m) + Amount(v', m) == Amount(t, m) + Amount(v, m)
  {
    hide Amount, Entries, Queues.Len, DistinctPids;
    if v.Len() > t.Len() {
      StealNConserves(t, v, (v.Len() + 1) / 2);
      StealNShape(t, v, (v.Len() + 1) / 2);
    }
  }

  /**
   One turn: a present target with less than half the load of the fullest scheduler gets half of it,
   rounded up; in every other case nothing moves.
   */
  lemma TurnEffect(s: Loads, target: nat, maxIdx: nat)
    requires target < |s| && maxIdx < |s| && target != maxIdx && Once(s)
    ensures var s', n, m := RebalanceStep(s, target, maxIdx), LenAt(s, maxIdx), LenAt(s, target);
            && |s'| == |s|
            && (if s[target].Some? && n > 2 * m then
                  && LenAt(s', target) == m + (n + 1) / 2 && LenAt(s', maxIdx) == n / 2
                  && s'[target].Some? && s'[maxIdx].Some?
                  && forall i :: 0 <= i < |s| && i != target && i != maxIdx ==> s'[i] == s[i]
                else s' == s)
  {
    hide Once, Queues.Len, StealFromIn;
    if s[target].Some? && LenAt(s, maxIdx) > 2 * LenAt(s, target) {
      var t, v := s[target].value, s[maxIdx].value;
      ApartAt(s, target, maxIdx);
      StealMoves(t, v);
    }
  }

  lemma ApartAt(s: Loads, i: nat, j: nat)
    requires i < |s| && j < |s| && i != j && Once(s) && s[i].Some? && s[j].Some?
    ensures Apart(s[i].value, s[j].value)
  {
    hide Total, Amount;
    forall pid: Pid ensures Amount(s[i].value, OfPid(pid)) + Amount(s[j].value, OfPid(pid)) <= 1 {
      assert Total(s, OfPid(pid)) <= 1;
      if i < j {
        TotalCovers(s, i, j, OfPid(pid));
      } else {
        TotalCovers(s, j, i, OfPid(pid));
      }
    }
  }

  lemma StealMoves(t: Queues, v: Queues)
    requires Apart(t, v) && v.Len() > t.Len()
    ensures var (t', v') := StealFromIn(t, v);
            t'.Len() == t.Len() + (v.Len() + 1) / 2 && v'.Len() == v.Len() - (v.Len() + 1) / 2
  {
    hide Amount, Queues.Len;
    StealNConserves(t, v, StealCount(v));
  }

  /** After the turns for `below` each of those has at least half the load the fullest is left with. */
  lemma {:induction false} LoopEffect(s: Loads, below: seq<nat>, maxIdx: nat)
    requires maxIdx < |s| && Once(s)
    requires forall i :: 0 <= i < |below| ==> below[i] < |s| && below[i] != maxIdx
    requires forall i, j :: 0 <= i < j < |below| ==> below[i] != below[j]
    ensures var r := RebalanceLoop(s, below, maxIdx);
            && LenAt(r, maxIdx) <= LenAt(s, maxIdx)
            && (forall i :: i in below && s[i].Some? ==> 2 * LenAt(r, i) >= LenAt(r, maxIdx))
            && (forall i :: 0 <= i < |s| && i != maxIdx && i !in below ==> r[i] == s[i])
    decreases |below|
  {
    hide Once, LenAt, RebalanceStep;
    if below != [] {
      var target, s' := below[0], RebalanceStep(s, below[0], maxIdx);
      TurnEffect(s, target, maxIdx);
      StepOnce(s, target, maxIdx);
      PresenceKept(s, target, maxIdx);
      if LenAt(s', maxIdx) != 0 {
        LoopEffect(s', below[1..], maxIdx);
        var r := RebalanceLoop(s', below[1..], maxIdx);
        assert target !in below[1..] && r[target] == s'[target];
        SameLen(s', r, target);
        assert s[target].Some? ==> 2 * LenAt(r, target) >= LenAt(r, maxIdx);
        assert forall i :: i in below ==> i == target || i in below[1..];
      }
    }
  }

  lemma StepOnce(s: Loads, target: nat, maxIdx: nat)
    requires target < |s| && maxIdx < |s| && Once(s)
    ensures Once(RebalanceStep(s, target, maxIdx))
  {
    hide RebalanceStep, LenAt, Total;
    forall pid: Pid ensures Total(RebalanceStep(s, target, maxIdx), OfPid(pid)) <= 1 {
      assert Total(s, OfPid(pid)) <= 1;
      StepTotal(s, target, maxIdx, OfPid(pid));
    }
  }

  lemma StepTotal(s: Loads, target: nat, maxIdx: nat, m: Measure)
    requires target < |s| && maxIdx < |s| && Once(s)
    ensures Total(RebalanceStep(s, target, maxIdx), m) == Total(s, m)
  {
    hide StealIdx, Total, LenAt;
    StealIdxConserves(s, target, maxIdx, m);
  }

  lemma PresenceKept(s: Loads, target: nat, maxIdx: nat)
    requires target < |s| && maxIdx < |s|
    ensures var s' := RebalanceStep(s, target, maxIdx);
            && |s'| == |s|
            && (forall i :: 0 <= i < |s| ==> s'[i].Some? == s[i].Some?)
            && forall i :: 0 <= i < |s| && i != target && i != maxIdx ==> s'[i] == s[i]
  {
    hide StealFromIn;
  }

  /**
   Rebalancing does balance: with no PID queued twice, every present scheduler that was below the
   average ends with at least half the load of the one that was fullest, which ends no fuller than it
   was; the schedulers at or above the average, the fullest apart, keep their queues.
   */
  lemma RebalanceBalances(s: Loads, f: nat)
    requires Once(s) && f < |s| && LenAt(s, f) > 0
    requires forall i :: 0 <= i < |s| ==> LenAt(s, i) <= LenAt(s, f)
    requires forall i :: 0 <= i < f ==> LenAt(s, i) < LenAt(s, f)
    ensures var r, avg := RebalanceIn(s), Total(s, OfAll) / |s|;
            && |r| == |s| && LenAt(r, f) <= LenAt(s, f)
            && (forall i :: 0 <= i < |s| && i != f && s[i].Some? && LenAt(s, i) < avg ==>
                  2 * LenAt(r, i) >= LenAt(r, f))
            && (forall i :: 0 <= i < |s| && i != f && LenAt(s, i) >= avg ==> r[i] == s[i])
  {
    hide Once, LenAt, Total, RebalanceLoop;
    var m := MaxIndex(s);
    assert m == f;
    SomeLoad(s, f);
    var avg := Total(s, OfAll) / |s|;
    BelowAverageIs(s, |s|, f, avg);
    hide BelowAverage;
    LoopEffect(s, BelowAverage(s, |s|, f, avg), f);
  }

  lemma SomeLoad(s: Loads, i: nat)
    requires i < |s| && LenAt(s, i) > 0
    ensures Total(s, OfAll) > 0
  {
    TotalCoversOne(s, i, OfAll);
    AmountFacts(s[i].value, Pid(0, 0, 0));
  }
}
