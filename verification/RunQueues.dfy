/** Four priority run queues, and the single list they implement. */
module RunQueues {
  import opened Wrappers
  import opened Processes

  datatype Priority = Low | Normal | High | Max

  datatype Handle = Handle(index: nat, pid: Pid)

  datatype Entry = Entry(pid: Pid, handle: Handle, priority: Priority)

  function Rank(p: Priority): nat {
    match p
    case Low => 0
    case Normal => 1
    case High => 2
    case Max => 3
  }

  datatype Queues = Queues(low: seq<Entry>, normal: seq<Entry>, high: seq<Entry>, max: seq<Entry>) {
    function Of(p: Priority): seq<Entry> {
      match p
      case Low => low
      case Normal => normal
      case High => high
      case Max => max
    }

    function Len(): nat {
      |low| + |normal| + |high| + |max|
    }
  }

  predicate HasPid(s: seq<Entry>, pid: Pid) {
    exists i :: 0 <= i < |s| && s[i].pid == pid
  }

  predicate ContainsPid(q: Queues, pid: Pid) {
    HasPid(q.low, pid) || HasPid(q.normal, pid) || HasPid(q.high, pid) || HasPid(q.max, pid)
  }

  function EnqueueIn(q: Queues, e: Entry): Queues {
    if ContainsPid(q, e.pid) then q
    else
      match e.priority
      case Low => q.(low := q.low + [e])
      case Normal => q.(normal := q.normal + [e])
      case High => q.(high := q.high + [e])
      case Max => q.(max := q.max + [e])
  }

  function DequeueIn(q: Queues): (Option<Entry>, Queues) {
    if q.max != [] then (Some(q.max[0]), q.(max := q.max[1..]))
    else if q.high != [] then (Some(q.high[0]), q.(high := q.high[1..]))
    else if q.normal != [] then (Some(q.normal[0]), q.(normal := q.normal[1..]))
    else if q.low != [] then (Some(q.low[0]), q.(low := q.low[1..]))
    else (None, q)
  }

  /** `retain(|e| e.pid != pid)`. */
  function Retain(s: seq<Entry>, pid: Pid): seq<Entry> {
    if s == [] then []
    else
      var n := |s| - 1;
      Retain(s[..n], pid) + if s[n].pid != pid then [s[n]] else []
  }

  /** Remove from the lowest queue that holds the PID, and stop there. */
  function RemoveIn(q: Queues, pid: Pid): (bool, Queues) {
    if HasPid(q.low, pid) then (true, q.(low := Retain(q.low, pid)))
    else if HasPid(q.normal, pid) then (true, q.(normal := Retain(q.normal, pid)))
    else if HasPid(q.high, pid) then (true, q.(high := Retain(q.high, pid)))
    else if HasPid(q.max, pid) then (true, q.(max := Retain(q.max, pid)))
    else (false, q)
  }

  // ---- The class -------------------------------------------------------------------------------

  class PriorityRunQueues {
    var low: seq<Entry>
    var normal: seq<Entry>
    var high: seq<Entry>
    var max: seq<Entry>

    function View(): Queues
      reads this
    {
      Queues(low, normal, high, max)
    }

    constructor ()
      ensures View() == Queues([], [], [], [])
    {
      low, normal, high, max := [], [], [], [];
    }

    method Enqueue(e: Entry)
      modifies this
      ensures View() == EnqueueIn(old(View()), e)
    {
      if !HasPid(low, e.pid) && !HasPid(normal, e.pid) && !HasPid(high, e.pid) && !HasPid(max, e.pid) {
        match e.priority {
          case Low => low := low + [e];
          case Normal => normal := normal + [e];
          case High => high := high + [e];
          case Max => max := max + [e];
        }
      }
    }

    method Dequeue() returns (e: Option<Entry>)
      modifies this
      ensures (e, View()) == DequeueIn(old(View()))
    {
      if max != [] {
        e, max := Some(max[0]), max[1..];
      } else if high != [] {
        e, high := Some(high[0]), high[1..];
      } else if normal != [] {
        e, normal := Some(normal[0]), normal[1..];
      } else if low != [] {
        e, low := Some(low[0]), low[1..];
      } else {
        e := None;
      }
    }

    /** One `retain` that notes whether it dropped anything. */
    static method RetainOthers(s: seq<Entry>, pid: Pid) returns (kept: seq<Entry>, removed: bool)
      ensures kept == Retain(s, pid) && removed == HasPid(s, pid)
      ensures !removed ==> kept == s
    {
      kept, removed := [], false;
      for i := 0 to |s|
        invariant kept == Retain(s[..i], pid)
        invariant removed <==> exists j :: 0 <= j < i && s[j].pid == pid
        invariant !removed ==> kept == s[..i]
      {
        assert s[..i + 1][..i] == s[..i];
        if s[i].pid == pid {
          removed := true;
        } else {
          kept := kept + [s[i]];
        }
      }
      assert s[..|s|] == s;
    }

    method RemoveByPid(pid: Pid) returns (removed: bool)
      modifies this
      ensures (removed, View()) == RemoveIn(old(View()), pid)
    {
      low, removed := RetainOthers(low, pid);
      if removed {
        return;
      }
      normal, removed := RetainOthers(normal, pid);
      if removed {
        return;
      }
      high, removed := RetainOthers(high, pid);
      if removed {
        return;
      }
      max, removed := RetainOthers(max, pid);
    }

    function Len(): nat
      reads this
    {
      View().Len()
    }
  }

  // ---- One list in order of arrival ------------------------------------------------------------

  function WithPriority(l: seq<Entry>, p: Priority): seq<Entry> {
    if l == [] then []
    else
      var n := |l| - 1;
      WithPriority(l[..n], p) + if l[n].priority == p then [l[n]] else []
  }

  ghost predicate DistinctPids(l: seq<Entry>) {
    forall i, j :: 0 <= i < j < |l| ==> l[i].pid != l[j].pid
  }

  /** The queues hold exactly the list, split by priority, and no PID twice. */
  ghost predicate Implements(q: Queues, l: seq<Entry>) {
    DistinctPids(l) && forall p: Priority :: q.Of(p) == WithPriority(l, p)
  }

  function ListEnqueue(l: seq<Entry>, e: Entry): seq<Entry> {
    if HasPid(l, e.pid) then l else l + [e]
  }

  /** The earliest entry among those of highest priority. */
  function BestIndex(l: seq<Entry>): (i: nat)
    requires l != []
    ensures i < |l|
    ensures forall j :: 0 <= j < |l| ==> Rank(l[j].priority) <= Rank(l[i].priority)
    ensures forall j :: 0 <= j < i ==> Rank(l[j].priority) < Rank(l[i].priority)
  {
    var n := |l| - 1;
    if n == 0 then 0
    else
      var i := BestIndex(l[..n]);
      if Rank(l[n].priority) > Rank(l[i].priority) then n else i
  }

  function ListDequeue(l: seq<Entry>): (Option<Entry>, seq<Entry>) {
    if l == [] then (None, [])
    else
      var i := BestIndex(l);
      (Some(l[i]), l[..i] + l[i + 1..])
  }

  function ListRemove(l: seq<Entry>, pid: Pid): (bool, seq<Entry>) {
    (HasPid(l, pid), Retain(l, pid))
  }

  lemma WithPrioritySnoc(l: seq<Entry>, e: Entry, p: Priority)
    ensures WithPriority(l + [e], p) == WithPriority(l, p) + if e.priority == p then [e] else []
  {
    assert (l + [e])[..|l|] == l;
  }

  lemma {:induction false} WithPriorityConcat(a: seq<Entry>, b: seq<Entry>, p: Priority)
    ensures WithPriority(a + b, p) == WithPriority(a, p) + WithPriority(b, p)
    decreases |b|
  {
    if b == [] {
      assert a + b == a;
    } else {
      hide WithPriority;
      var n := |b| - 1;
      WithPriorityConcat(a, b[..n], p);
      assert b == b[..n] + [b[n]] && a + b == (a + b[..n]) + [b[n]];
      WithPrioritySnoc(b[..n], b[n], p);
      WithPrioritySnoc(a + b[..n], b[n], p);
      var last := if b[n].priority == p then [b[n]] else [];
      var front, rest := WithPriority(a, p), WithPriority(b[..n], p);
      assert (front + rest) + last == front + (rest + last);
    }
  }

  lemma {:induction false} WithPriorityMembers(l: seq<Entry>, p: Priority)
    ensures forall e :: e in WithPriority(l, p) <==> e in l && e.priority == p
    decreases |l|
  {
    if l != [] {
      WithPriorityMembers(l[..|l| - 1], p);
      assert l == l[..|l| - 1] + [l[|l| - 1]];
    }
  }

  lemma {:induction false} WithPriorityNone(l: seq<Entry>, p: Priority)
    requires forall i :: 0 <= i < |l| ==> l[i].priority != p
    ensures WithPriority(l, p) == []
    decreases |l|
  {
    if l != [] {
      WithPriorityNone(l[..|l| - 1], p);
    }
  }

  lemma HasPidByQueue(q: Queues, l: seq<Entry>, pid: Pid)
    requires Implements(q, l)
    ensures ContainsPid(q, pid) <==> HasPid(l, pid)
    ensures forall p: Priority :: HasPid(q.Of(p), pid) <==>
              exists i :: 0 <= i < |l| && l[i].pid == pid && l[i].priority == p
  {
    forall p: Priority
      ensures HasPid(q.Of(p), pid) <==> exists i :: 0 <= i < |l| && l[i].pid == pid && l[i].priority == p
    {
      WithPriorityMembers(l, p);
      if i :| 0 <= i < |l| && l[i].pid == pid && l[i].priority == p {
        assert l[i] in q.Of(p);
      }
      if i :| 0 <= i < |q.Of(p)| && q.Of(p)[i].pid == pid {
        assert q.Of(p)[i] in l;
      }
    }
    assert q.low == q.Of(Low) && q.normal == q.Of(Normal) && q.high == q.Of(High) && q.max == q.Of(Max);
    if i :| 0 <= i < |l| && l[i].pid == pid {
      assert HasPid(q.Of(l[i].priority), pid);
    }
  }

  lemma EnqueueRefines(q: Queues, l: seq<Entry>, e: Entry)
    requires Implements(q, l)
    ensures Implements(EnqueueIn(q, e), ListEnqueue(l, e))
  {
    HasPidByQueue(q, l, e.pid);
    if !HasPid(l, e.pid) {
      assert (l + [e])[..|l|] == l;
    }
  }

  /** The queues of a list. */
  function Split(l: seq<Entry>): (q: Queues)
    ensures forall p: Priority :: q.Of(p) == WithPriority(l, p)
  {
    Queues(WithPriority(l, Low), WithPriority(l, Normal), WithPriority(l, High), WithPriority(l, Max))
  }

  lemma SplitUnique(q: Queues, q': Queues)
    requires forall p: Priority :: q.Of(p) == q'.Of(p)
    ensures q == q'
  {
    assert q.Of(Low) == q'.Of(Low) && q.Of(Normal) == q'.Of(Normal);
    assert q.Of(High) == q'.Of(High) && q.Of(Max) == q'.Of(Max);
  }

  lemma BestSplit(l: seq<Entry>, p: Priority)
    requires l != []
    ensures var i := BestIndex(l);
            var rest := WithPriority(l[..i] + l[i + 1..], p);
            && WithPriority(l, p) == (if p == l[i].priority then [l[i]] + rest else rest)
            && (Rank(p) > Rank(l[i].priority) ==> WithPriority(l, p) == [])
  {
    hide WithPriority, BestIndex;
    var i := BestIndex(l);
    var front, rest := l[..i], l[i + 1..];
    var a, r := WithPriority(front, p), WithPriority(rest, p);
    assert l == front + ([l[i]] + rest);
    WithPriorityConcat(front, [l[i]] + rest, p);
    WithPriorityConcat([l[i]], rest, p);
    WithPriorityConcat(front, rest, p);
    WithPrioritySingle(l[i], p);
    if p == l[i].priority {
      WithPriorityNone(front, p);
      assert [] + ([l[i]] + r) == [l[i]] + ([] + r);
    } else {
      assert [] + r == r;
    }
    if Rank(p) > Rank(l[i].priority) {
      WithPriorityNone(l, p);
    }
  }

  /** Taking the front of the highest non-empty queue. */
  lemma DequeueFront(q: Queues, e: Entry, q': Queues)
    requires forall p: Priority :: q.Of(p) == if p == e.priority then [e] + q'.Of(p) else q'.Of(p)
    requires forall p: Priority :: Rank(p) > Rank(e.priority) ==> q.Of(p) == []
    ensures DequeueIn(q) == (Some(e), q')
  {
    assert q.max == q.Of(Max) && q.high == q.Of(High) && q.normal == q.Of(Normal) && q.low == q.Of(Low);
    assert q'.max == q'.Of(Max) && q'.high == q'.Of(High) && q'.normal == q'.Of(Normal) && q'.low == q'.Of(Low);
    assert ([e] + q'.Of(e.priority))[1..] == q'.Of(e.priority);
  }

  lemma DequeueRefines(q: Queues, l: seq<Entry>)
    requires Implements(q, l)
    ensures var (e, q') := DequeueIn(q);
            var (e', l') := ListDequeue(l);
            e == e' && Implements(q', l')
  {
    hide WithPriority, DequeueIn, BestIndex, DistinctPids;
    SplitUnique(q, Split(l));
    if l == [] {
      DequeueEmpty();
    } else {
      var i := BestIndex(l);
      var l' := l[..i] + l[i + 1..];
      forall p: Priority
        ensures q.Of(p) == (if p == l[i].priority then [l[i]] + Split(l').Of(p) else Split(l').Of(p))
        ensures Rank(p) > Rank(l[i].priority) ==> q.Of(p) == []
      {
        BestSplit(l, p);
      }
      DequeueFront(q, l[i], Split(l'));
      WithoutOne(l, i);
    }
  }

  lemma WithoutOne(l: seq<Entry>, i: nat)
    requires DistinctPids(l) && i < |l|
    ensures DistinctPids(l[..i] + l[i + 1..])
  {
  }

  lemma DequeueEmpty()
    ensures DequeueIn(Split([])) == (None, Split([]))
  {
  }

  lemma WithPrioritySingle(e: Entry, p: Priority)
    ensures WithPriority([e], p) == if e.priority == p then [e] else []
  {
    assert [e][..0] == [];
  }

  lemma {:induction false} RetainCommutes(l: seq<Entry>, pid: Pid, p: Priority)
    ensures WithPriority(Retain(l, pid), p) == Retain(WithPriority(l, p), pid)
    decreases |l|
  {
    if l != [] {
      var n := |l| - 1;
      RetainCommutes(l[..n], pid, p);
      WithPriorityConcat(Retain(l[..n], pid), [l[n]], p);
      WithPrioritySingle(l[n], p);
      if l[n].priority == p {
        assert WithPriority(l, p)[..|WithPriority(l, p)| - 1] == WithPriority(l[..n], p);
      } else {
        assert WithPriority(l, p) == WithPriority(l[..n], p);
      }
      if l[n].pid == pid {
        assert Retain(l, pid) == Retain(l[..n], pid);
      }
    }
  }

  lemma {:induction false} RetainMembers(l: seq<Entry>, pid: Pid)
    ensures forall e :: e in Retain(l, pid) <==> e in l && e.pid != pid
    decreases |l|
  {
    if l != [] {
      RetainMembers(l[..|l| - 1], pid);
      assert l == l[..|l| - 1] + [l[|l| - 1]];
    }
  }

  lemma {:induction false} RetainDistinct(l: seq<Entry>, pid: Pid)
    requires DistinctPids(l)
    ensures DistinctPids(Retain(l, pid))
    decreases |l|
  {
    if l != [] {
      var n := |l| - 1;
      RetainDistinct(l[..n], pid);
      RetainMembers(l[..n], pid);
      var kept := Retain(l[..n], pid);
      forall i | 0 <= i < |kept| ensures kept[i].pid != l[n].pid {
        assert kept[i] in l[..n];
      }
    }
  }

  lemma {:induction false} RetainAbsent(l: seq<Entry>, pid: Pid)
    requires !HasPid(l, pid)
    ensures Retain(l, pid) == l
    decreases |l|
  {
    if l != [] {
      assert forall i :: 0 <= i < |l| ==> l[i].pid != pid;
      RetainAbsent(l[..|l| - 1], pid);
    }
  }

  /** Stopping at the first queue is enough because a PID sits in one queue only. */
  lemma RemoveRefines(q: Queues, l: seq<Entry>, pid: Pid)
    requires Implements(q, l)
    ensures var (found, q') := RemoveIn(q, pid);
            var (found', l') := ListRemove(l, pid);
            found == found' && Implements(q', l')
  {
    hide WithPriority, Retain;
    HasPidByQueue(q, l, pid);
    RetainDistinct(l, pid);
    forall p: Priority
      ensures WithPriority(Retain(l, pid), p) == Retain(q.Of(p), pid)
      ensures !HasPid(q.Of(p), pid) ==> Retain(q.Of(p), pid) == q.Of(p)
    {
      RetainCommutes(l, pid, p);
      if !HasPid(q.Of(p), pid) {
        RetainAbsent(q.Of(p), pid);
      }
    }
    forall p, p': Priority | HasPid(q.Of(p), pid) && HasPid(q.Of(p'), pid) ensures p == p' {
    }
    RemoveOnly(q, pid);
    assert HasPid(l, pid) <==> ContainsPid(q, pid);
  }

  /** When one queue at most holds the PID, removing it there removes it everywhere. */
  lemma RemoveOnly(q: Queues, pid: Pid)
    requires forall p, p': Priority :: HasPid(q.Of(p), pid) && HasPid(q.Of(p'), pid) ==> p == p'
    requires forall p: Priority :: !HasPid(q.Of(p), pid) ==> Retain(q.Of(p), pid) == q.Of(p)
    ensures var (found, q') := RemoveIn(q, pid);
            found == ContainsPid(q, pid) && forall p: Priority :: q'.Of(p) == Retain(q.Of(p), pid)
  {
    hide Retain, HasPid;
    assert q.max == q.Of(Max) && q.high == q.Of(High) && q.normal == q.Of(Normal) && q.low == q.Of(Low);
    var q' := RemoveIn(q, pid).1;
    assert q'.max == q'.Of(Max) && q'.high == q'.Of(High) && q'.normal == q'.Of(Normal) && q'.low == q'.Of(Low);
    forall p: Priority ensures q'.Of(p) == Retain(q.Of(p), pid) {
      match p
      case Low =>
      case Normal =>
      case High =>
      case Max =>
    }
  }

  // ---- What each operation does to the four queues ----------------------------------------------

  /** A PID that is queued nowhere goes to the back of the queue of its priority; any other changes nothing. */
  lemma EnqueueEffect(q: Queues, e: Entry, p: Priority)
    ensures var known := exists r: Priority, i :: 0 <= i < |q.Of(r)| && q.Of(r)[i].pid == e.pid;
            EnqueueIn(q, e).Of(p) == if p == e.priority && !known then q.Of(p) + [e] else q.Of(p)
  {
    assert q.max == q.Of(Max) && q.high == q.Of(High) && q.normal == q.Of(Normal) && q.low == q.Of(Low);
    if r: Priority, i :| 0 <= i < |q.Of(r)| && q.Of(r)[i].pid == e.pid {
      assert HasPid(q.Of(r), e.pid);
    }
  }

  /** The entry dequeued is the front of its queue, and every queue of a higher priority is empty. */
  lemma DequeueEffect(q: Queues, p: Priority)
    ensures var (e, q') := DequeueIn(q);
            match e
            case None => q.max == [] && q.high == [] && q.normal == [] && q.low == [] && q' == q
            case Some(e) =>
              && (q.max != [] ==> e == q.max[0])
              && (q.max == [] && q.high != [] ==> e == q.high[0])
              && (q.max == q.high == [] && q.normal != [] ==> e == q.normal[0])
              && (q.max == q.high == q.normal == [] ==> q.low != [] && e == q.low[0])
              && (exists r: Priority :: q.Of(r) == [e] + q'.Of(r) && (p != r ==> q'.Of(p) == q.Of(p)))
  {
    var (e, q') := DequeueIn(q);
    if q.max != [] {
      assert q.Of(Max) == [q.max[0]] + q'.Of(Max);
    } else if q.high != [] {
      assert q.Of(High) == [q.high[0]] + q'.Of(High);
    } else if q.normal != [] {
      assert q.Of(Normal) == [q.normal[0]] + q'.Of(Normal);
    } else if q.low != [] {
      assert q.Of(Low) == [q.low[0]] + q'.Of(Low);
    }
  }

  // ---- Whole runs ------------------------------------------------------------------------------

  datatype QueueOp = Enqueue(e: Entry) | Dequeue | Remove(pid: Pid)

  datatype Answer = Unit | Dequeued(e: Option<Entry>) | Removed(found: bool)

  function QueueStep(q: Queues, op: QueueOp): (Answer, Queues) {
    match op
    case Enqueue(e) => (Unit, EnqueueIn(q, e))
    case Dequeue => var (e, q') := DequeueIn(q); (Dequeued(e), q')
    case Remove(pid) => var (found, q') := RemoveIn(q, pid); (Removed(found), q')
  }

  function ListStep(l: seq<Entry>, op: QueueOp): (Answer, seq<Entry>) {
    match op
    case Enqueue(e) => (Unit, ListEnqueue(l, e))
    case Dequeue => var (e, l') := ListDequeue(l); (Dequeued(e), l')
    case Remove(pid) => var (found, l') := ListRemove(l, pid); (Removed(found), l')
  }

  function QueueRun(q: Queues, ops: seq<QueueOp>): seq<Answer>
    decreases |ops|
  {
    if ops == [] then [] else var (a, q') := QueueStep(q, ops[0]); [a] + QueueRun(q', ops[1..])
  }

  function ListRun(l: seq<Entry>, ops: seq<QueueOp>): seq<Answer>
    decreases |ops|
  {
    if ops == [] then [] else var (a, l') := ListStep(l, ops[0]); [a] + ListRun(l', ops[1..])
  }

  /** Over every run the four queues answer exactly as the single list does. */
  lemma {:induction false} QueuesRefineList(q: Queues, l: seq<Entry>, ops: seq<QueueOp>)
    requires Implements(q, l)
    ensures QueueRun(q, ops) == ListRun(l, ops)
    decreases |ops|
  {
    hide Implements;
    if ops != [] {
      match ops[0] {
        case Enqueue(e) => EnqueueRefines(q, l, e);
        case Dequeue => DequeueRefines(q, l);
        case Remove(pid) => RemoveRefines(q, l, pid);
      }
      QueuesRefineList(QueueStep(q, ops[0]).1, ListStep(l, ops[0]).1, ops[1..]);
    }
  }

  lemma EmptyImplements()
    ensures Implements(Queues([], [], [], []), [])
  {
  }

  /** From four empty queues on, every run answers as the empty list would. */
  lemma FreshQueuesRefineList(ops: seq<QueueOp>)
    ensures QueueRun(Queues([], [], [], []), ops) == ListRun([], ops)
  {
    EmptyImplements();
    QueuesRefineList(Queues([], [], [], []), [], ops);
  }
}
