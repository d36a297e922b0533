/** Process control blocks: state machine, signal queues with selective receive, links and monitors. */
module Processes {
  import opened Wrappers
  import opened Words

  datatype Pid = Pid(id: U32, serial: U32, creation: U32)

  const SERIALS := 0x2000

  /** `(serial + 1) & 0x1FFF`. */
  function NextSerial(p: Pid): Pid {
    p.(serial := (p.serial + 1) % SERIALS)
  }

  datatype ProcessState = Running | Waiting | Exiting | GarbageCollecting | Suspended | Dead

  datatype Signal =
    | Message(term: Word)
    | Exit(from: Pid, reason: Word)
    | MonitorDown(refId: nat, target: Pid, reason: Word)

  datatype MonitorRef = MonitorRef(refId: nat, target: Pid)

  /** The value of a control block. */
  datatype Pcb = Pcb(
    pid: Pid,
    state: ProcessState,
    trapExit: bool,
    links: seq<Pid>,
    monitors: seq<MonitorRef>,
    mailbox: seq<Signal>,
    saved: seq<Signal>,
    exitReason: Word)

  function NewPcb(pid: Pid): Pcb {
    Pcb(pid, Running, false, [], [], [], [], FromAtom(ATOM_NORMAL))
  }

  // ---- State machine ---------------------------------------------------------------------------

  predicate ValidTransition(s: ProcessState, t: ProcessState) {
    match s
    case Running => t == Waiting || t == Exiting || t == GarbageCollecting || t == Suspended
    case Waiting => t == Running || t == Exiting || t == Suspended
    case Exiting => t == Dead
    case GarbageCollecting => t == Running || t == Waiting
    case Suspended => t == Running || t == Waiting
    case Dead => false
  }

  /** The same table read backwards: from where each state can be entered. */
  lemma EnteredFrom(s: ProcessState, t: ProcessState)
    ensures ValidTransition(s, t) <==> s in match t
              case Running => {Waiting, GarbageCollecting, Suspended}
              case Waiting => {Running, GarbageCollecting, Suspended}
              case Exiting => {Running, Waiting}
              case GarbageCollecting => {Running}
              case Suspended => {Running, Waiting}
              case Dead => {Exiting}
  {
  }

  function WithState(p: Pcb, t: ProcessState): Pcb {
    if ValidTransition(p.state, t) then p.(state := t) else p
  }

  function Exited(p: Pcb, reason: Word): Pcb {
    WithState(p.(exitReason := reason), Exiting)
  }

  predicate IsExited(s: ProcessState) {
    s == Exiting || s == Dead
  }

  /** The state after a series of `set_state` requests, refused ones included. */
  function StateAfter(s: ProcessState, requests: seq<ProcessState>): ProcessState
    decreases |requests|
  {
    if requests == [] then s
    else StateAfter(if ValidTransition(s, requests[0]) then requests[0] else s, requests[1..])
  }

  /** Exiting can only stay or become Dead, and Dead is final, whatever is requested. */
  lemma {:induction false} ExitIsIrrevocable(s: ProcessState, requests: seq<ProcessState>)
    ensures s == Dead ==> StateAfter(s, requests) == Dead
    ensures s == Exiting ==> StateAfter(s, requests) == (if Dead in requests then Dead else Exiting)
    decreases |requests|
  {
    if requests != [] {
      var t := if ValidTransition(s, requests[0]) then requests[0] else s;
      ExitIsIrrevocable(t, requests[1..]);
      assert requests == [requests[0]] + requests[1..];
    }
  }

  // ---- Selective receive -----------------------------------------------------------------------

  /** What stops a scan: a message the pattern accepts, or any exit signal. */
  predicate Stops(s: Signal, pred: Word -> bool) {
    s.Exit? || (s.Message? && pred(s.term))
  }

  datatype Scan = Scan(result: Option<Word>, mailbox: seq<Signal>, saved: seq<Signal>)

  /** `receive_matching`: pop signals until one stops the scan, saving the others. */
  function ReceiveScan(mailbox: seq<Signal>, saved: seq<Signal>, pred: Word -> bool): Scan
    decreases |mailbox|
  {
    if mailbox == [] then Scan(None, [], saved)
    else
      match mailbox[0]
      case Message(t) =>
        if pred(t) then Scan(Some(t), mailbox[1..], saved)
        else ReceiveScan(mailbox[1..], saved + [mailbox[0]], pred)
      case Exit(_, _) => Scan(Some(FromAtom(ATOM_NORMAL)), mailbox[1..], saved)
      case MonitorDown(_, _, _) => ReceiveScan(mailbox[1..], saved + [mailbox[0]], pred)
  }

  /** Signals a receive passes over and saves: DOWN notices, and messages the pattern does not want. */
  predicate Skipped(s: Signal, pred: Word -> bool) {
    match s
    case Message(term) => !pred(term)
    case Exit(_, _) => false
    case MonitorDown(_, _, _) => true
  }

  /**
   A receive takes the first signal it does not skip: a wanted message is its answer, an exit signal
   answers `normal`. What it skipped is saved in order; when it skips everything it answers nothing.
   */
  lemma {:induction false} ReceiveTakes(mailbox: seq<Signal>, saved: seq<Signal>, pred: Word -> bool, i: nat)
    requires i <= |mailbox| && forall j :: 0 <= j < i ==> Skipped(mailbox[j], pred)
    requires i < |mailbox| ==> !Skipped(mailbox[i], pred)
    ensures var r := ReceiveScan(mailbox, saved, pred);
            && r.saved == saved + mailbox[..i]
            && (if i == |mailbox| then r.mailbox == [] && r.result == None
                else r.mailbox == mailbox[i + 1..]
                     && r.result == Some(if mailbox[i].Exit? then FromAtom(8) else mailbox[i].term))
    decreases |mailbox|
  {
    if i > 0 {
      ReceiveTakes(mailbox[1..], saved + [mailbox[0]], pred, i - 1);
      assert saved + [mailbox[0]] + mailbox[1..][..i - 1] == saved + mailbox[..i];
    }
  }

  /** The position of the first signal that stops the scan, or the length. */
  function StopIndex(mailbox: seq<Signal>, pred: Word -> bool): (i: nat)
    ensures i <= |mailbox| && (i < |mailbox| ==> Stops(mailbox[i], pred))
    ensures forall j :: 0 <= j < i ==> !Stops(mailbox[j], pred)
    decreases |mailbox|
  {
    if mailbox == [] || Stops(mailbox[0], pred) then 0 else 1 + StopIndex(mailbox[1..], pred)
  }

  lemma {:induction false} ScanSplits(mailbox: seq<Signal>, saved: seq<Signal>, pred: Word -> bool)
    ensures var i, r := StopIndex(mailbox, pred), ReceiveScan(mailbox, saved, pred);
            && r.saved == saved + mailbox[..i]
            && (if i < |mailbox| then
                  && r.mailbox == mailbox[i + 1..]
                  && r.result == Some(if mailbox[i].Message? then mailbox[i].term else FromAtom(ATOM_NORMAL))
                else r.mailbox == [] && r.result == None)
    decreases |mailbox|
  {
    if mailbox != [] && !Stops(mailbox[0], pred) {
      ScanSplits(mailbox[1..], saved + [mailbox[0]], pred);
      var i := StopIndex(mailbox[1..], pred);
      assert saved + [mailbox[0]] + mailbox[1..][..i] == saved + mailbox[..i + 1];
    }
  }

  /** The mailbox after `restore_save_queue`. */
  function Restored(mailbox: seq<Signal>, saved: seq<Signal>): seq<Signal> {
    mailbox + saved
  }

  /**
   A receive that stops at position `i`, followed by a restore, leaves the unread rest in front of
   the previously saved signals and the skipped prefix; a failed receive puts all of it behind them.
   */
  lemma ReceiveThenRestore(mailbox: seq<Signal>, saved: seq<Signal>, pred: Word -> bool)
    ensures var i, r := StopIndex(mailbox, pred), ReceiveScan(mailbox, saved, pred);
            Restored(r.mailbox, r.saved) ==
              if i < |mailbox| then mailbox[i + 1..] + saved + mailbox[..i] else saved + mailbox
  {
    ScanSplits(mailbox, saved, pred);
    var i := StopIndex(mailbox, pred);
    if i < |mailbox| {
      assert mailbox[i + 1..] + (saved + mailbox[..i]) == mailbox[i + 1..] + saved + mailbox[..i];
    } else {
      assert [] + (saved + mailbox[..i]) == saved + mailbox;
    }
  }

  /** A failed receive restores the mailbox exactly when nothing had been saved before. */
  lemma FailedReceiveRestoresIff(mailbox: seq<Signal>, saved: seq<Signal>, pred: Word -> bool)
    requires ReceiveScan(mailbox, saved, pred).result == None
    ensures var r := ReceiveScan(mailbox, saved, pred); Restored(r.mailbox, r.saved) == mailbox <==> saved == []
  {
    ScanSplits(mailbox, saved, pred);
    ReceiveThenRestore(mailbox, saved, pred);
    if saved == [] {
      assert saved + mailbox == mailbox;
    } else {
      assert |saved + mailbox| == |saved| + |mailbox|;
    }
  }

  /** After a receive that skipped a signal, a failed receive of another mailbox gives back one signal more. */
  lemma FailedReceiveAddsSaved(a: Word, b: Word, c: Word)
    requires a != b
    ensures var first := ReceiveScan([Message(a), Message(b)], [], (t: Word) => t == b);
            var second := ReceiveScan([Message(c)], first.saved, (t: Word) => false);
            && first.result == Some(b) && second.result == None
            && Restored(second.mailbox, second.saved) == [Message(a), Message(c)] != [Message(c)]
  {
    var pred := (t: Word) => t == b;
    ScanSplits([Message(a), Message(b)], [], pred);
    assert [Message(a), Message(b)][1] == Message(b) && Stops(Message(b), pred) && !Stops(Message(a), pred);
    assert StopIndex([Message(a), Message(b)], pred) == 1;
    ScanSplits([Message(c)], [Message(a)], (t: Word) => false);
  }

  // ---- Order of arrival ------------------------------------------------------------------------

  ghost predicate Distinct(s: seq<Signal>) {
    forall i, j :: 0 <= i < j < |s| ==> s[i] != s[j]
  }

  /** Swapping two runs of distinct signals changes nothing only when one run is empty. */
  lemma SwapIff(a: seq<Signal>, b: seq<Signal>)
    requires Distinct(a + b)
    ensures b + a == a + b <==> a == [] || b == []
  {
    if a != [] && b != [] {
      assert (a + b)[0] == a[0] && (a + b)[|a|] == b[0] && (b + a)[0] == b[0];
    }
  }

  /**
   A receive followed by a restore keeps the signals that remain in the order of their arrival exactly
   when nothing was skipped or saved before the one it took, or nothing came after it.
   */
  lemma ReceiveKeepsOrderIff(mailbox: seq<Signal>, saved: seq<Signal>, pred: Word -> bool)
    requires Distinct(saved + mailbox)
    ensures var i, r := StopIndex(mailbox, pred), ReceiveScan(mailbox, saved, pred);
            var arrived := saved + mailbox[..i] + if i < |mailbox| then mailbox[i + 1..] else [];
            Restored(r.mailbox, r.saved) == arrived <==> (saved == [] && i == 0) || i + 1 >= |mailbox|
  {
    hide ReceiveScan, StopIndex;
    var i := StopIndex(mailbox, pred);
    ScanSplits(mailbox, saved, pred);
    if i < |mailbox| {
      var older, rest := saved + mailbox[..i], mailbox[i + 1..];
      forall j, k | 0 <= j < k < |older + rest| ensures (older + rest)[j] != (older + rest)[k] {
        var at := (n: int) => if n < |older| then n else n + 1;
        assert forall n :: 0 <= n < |older + rest| ==> (older + rest)[n] == (saved + mailbox)[at(n)];
        assert at(j) < at(k);
      }
      SwapIff(older, rest);
    } else {
      assert mailbox[..i] == mailbox;
    }
  }

  /** A match in the middle of three messages puts the first of them last. */
  lemma ReceiveReorders(a: Word, b: Word, c: Word)
    requires a != b && b != c && a != c
    ensures var r := ReceiveScan([Message(a), Message(b), Message(c)], [], (t: Word) => t == b);
            r.result == Some(b) && Restored(r.mailbox, r.saved) == [Message(c), Message(a)]
  {
    var s, pred := [Message(a), Message(b), Message(c)], (t: Word) => t == b;
    assert Stops(s[1], pred) && !Stops(s[0], pred);
    assert StopIndex(s, pred) == 1;
    ScanSplits(s, [], pred);
    assert s[2..] == [Message(c)] && s[..1] == [Message(a)];
  }

  datatype MailOp = Deliver(signal: Signal) | Receive(pred: Word -> bool) | Restore

  /** Mailbox and save queue, with the signals delivered and consumed so far. */
  datatype Mail = Mail(
    mailbox: seq<Signal>,
    saved: seq<Signal>,
    delivered: multiset<Signal>,
    consumed: multiset<Signal>)

  ghost function MailStep(m: Mail, op: MailOp): Mail {
    match op
    case Deliver(s) => m.(mailbox := m.mailbox + [s], delivered := m.delivered + multiset{s})
    case Receive(pred) =>
      var r, i := ReceiveScan(m.mailbox, m.saved, pred), StopIndex(m.mailbox, pred);
      m.(mailbox := r.mailbox, saved := r.saved,
         consumed := m.consumed + if i < |m.mailbox| then multiset{m.mailbox[i]} else multiset{})
    case Restore => m.(mailbox := Restored(m.mailbox, m.saved), saved := [])
  }

  ghost function MailRun(m: Mail, ops: seq<MailOp>): Mail
    decreases |ops|
  {
    if ops == [] then m else MailRun(MailStep(m, ops[0]), ops[1..])
  }

  /** Signals delivered are exactly those consumed, queued or saved. */
  ghost predicate Balanced(m: Mail) {
    m.delivered == m.consumed + multiset(m.mailbox) + multiset(m.saved)
  }

  lemma StepBalanced(m: Mail, op: MailOp)
    requires Balanced(m)
    ensures Balanced(MailStep(m, op))
  {
    hide ReceiveScan, StopIndex;
    if op.Receive? {
      var i := StopIndex(m.mailbox, op.pred);
      ScanSplits(m.mailbox, m.saved, op.pred);
      if i < |m.mailbox| {
        assert m.mailbox == m.mailbox[..i] + [m.mailbox[i]] + m.mailbox[i + 1..];
      } else {
        assert m.mailbox[..i] == m.mailbox;
      }
    }
  }

  /** Over any run of deliveries, receives and restores no signal is lost or duplicated. */
  lemma {:induction false} NoSignalLost(m: Mail, ops: seq<MailOp>)
    requires Balanced(m)
    ensures Balanced(MailRun(m, ops))
    decreases |ops|
  {
    if ops != [] {
      StepBalanced(m, ops[0]);
      NoSignalLost(MailStep(m, ops[0]), ops[1..]);
    }
  }

  // ---- The control block -----------------------------------------------------------------------

  function AddLink(links: seq<Pid>, other: Pid): seq<Pid> {
    if other in links then links else links + [other]
  }

  function RemoveLink(links: seq<Pid>, other: Pid): (r: seq<Pid>)
    ensures forall p :: p in r <==> p in links && p != other
  {
    if links == [] then []
    else
      var rest := RemoveLink(links[1..], other);
      if links[0] == other then rest else [links[0]] + rest
  }

  lemma {:induction false} RemoveKeepsDistinct(links: seq<Pid>, other: Pid)
    requires NoDuplicates(links)
    ensures NoDuplicates(RemoveLink(links, other))
    decreases |links|
  {
    if links != [] {
      assert forall i :: 1 <= i < |links| ==> links[1..][i - 1] == links[i];
      RemoveKeepsDistinct(links[1..], other);
      assert links[0] !in links[1..];
      var rest := RemoveLink(links[1..], other);
      assert forall j :: 0 <= j < |rest| ==> rest[j] in rest;
    }
  }

  ghost predicate NoDuplicates(links: seq<Pid>) {
    forall i, j :: 0 <= i < j < |links| ==> links[i] != links[j]
  }

  /** The first monitor of `target`, if there is one. */
  function FindMonitor(monitors: seq<MonitorRef>, target: Pid): (m: Option<MonitorRef>)
    ensures m == None <==> forall i :: 0 <= i < |monitors| ==> monitors[i].target != target
    ensures m.Some? ==> exists i :: 0 <= i < |monitors| && monitors[i] == m.value && m.value.target == target
                                    && forall j :: 0 <= j < i ==> monitors[j].target != target
  {
    if monitors == [] then None
    else if monitors[0].target == target then Some(monitors[0])
    else FindMonitor(monitors[1..], target)
  }

  class ProcessControlBlock {
    var pid: Pid
    var state: ProcessState
    var trapExit: bool
    var links: seq<Pid>
    var monitors: seq<MonitorRef>
    var mailbox: seq<Signal>
    var saveQueue: seq<Signal>
    var exitReason: Word

    function View(): Pcb
      reads this
    {
      Pcb(pid, state, trapExit, links, monitors, mailbox, saveQueue, exitReason)
    }

    constructor (pid: Pid)
      ensures View() == NewPcb(pid)
    {
      this.pid, state, trapExit := pid, Running, false;
      links, monitors, mailbox, saveQueue := [], [], [], [];
      exitReason := FromAtom(ATOM_NORMAL);
    }

    method SetState(newState: ProcessState) returns (valid: bool)
      modifies this
      ensures valid == ValidTransition(old(state), newState) && View() == WithState(old(View()), newState)
    {
      valid := match state
        case Running =>
          newState == Waiting || newState == Exiting || newState == GarbageCollecting || newState == Suspended
        case Waiting => newState == Running || newState == Exiting || newState == Suspended
        case Exiting => newState == Dead
        case GarbageCollecting => newState == Running || newState == Waiting
        case Suspended => newState == Running || newState == Waiting
        case Dead => false;
      if valid {
        state := newState;
      }
    }

    /** Exit: the reason is recorded even when the state change is refused. */
    method ExitWith(reason: Word)
      modifies this
      ensures View() == Exited(old(View()), reason)
    {
      exitReason := reason;
      var _ := SetState(Exiting);
    }

    method Push(signal: Signal)
      modifies this
      ensures View() == old(View()).(mailbox := old(mailbox) + [signal])
    {
      mailbox := mailbox + [signal];
    }

    method Pop() returns (signal: Option<Signal>)
      modifies `mailbox
      ensures old(mailbox) == [] ==> signal == None && mailbox == []
      ensures old(mailbox) != [] ==> signal == Some(old(mailbox)[0]) && mailbox == old(mailbox)[1..]
    {
      if mailbox == [] {
        signal := None;
      } else {
        signal, mailbox := Some(mailbox[0]), mailbox[1..];
      }
    }

    method ReceiveMatching(pred: Word -> bool) returns (result: Option<Word>)
      modifies `mailbox, `saveQueue
      ensures Scan(result, mailbox, saveQueue) == ReceiveScan(old(mailbox), old(saveQueue), pred)
    {
      ghost var whole := ReceiveScan(mailbox, saveQueue, pred);
      while true
        invariant ReceiveScan(mailbox, saveQueue, pred) == whole
        decreases |mailbox|
      {
        var signal := Pop();
        match signal {
          case None => return None;
          case Some(Message(t)) =>
            if pred(t) {
              return Some(t);
            }
            saveQueue := saveQueue + [signal.value];
          case Some(Exit(_, _)) => return Some(FromAtom(ATOM_NORMAL));
          case Some(MonitorDown(_, _, _)) =>
            saveQueue := saveQueue + [signal.value];
        }
      }
    }

    method RestoreSaveQueue()
      modifies `mailbox, `saveQueue
      ensures mailbox == Restored(old(mailbox), old(saveQueue)) && saveQueue == []
    {
      var signals := saveQueue;
      saveQueue := [];
      for i := 0 to |signals|
        invariant mailbox == old(mailbox) + signals[..i] && saveQueue == []
      {
        mailbox := mailbox + [signals[i]];
      }
      assert signals[..|signals|] == signals;
    }

    method Link(other: Pid)
      modifies this
      ensures View() == old(View()).(links := AddLink(old(links), other))
    {
      if other !in links {
        links := links + [other];
      }
    }

    /** `retain(|p| *p != other)`. */
    method Unlink(other: Pid)
      modifies this
      ensures View() == old(View()).(links := RemoveLink(old(links), other))
    {
      var kept := [];
      ghost var before := links;
      for i := 0 to |links|
        invariant View() == old(View())
        invariant kept + RemoveLink(before[i..], other) == RemoveLink(before, other)
      {
        if links[i] != other {
          kept := kept + [links[i]];
        }
      }
      assert kept + [] == kept;
      links := kept;
    }

    method AddMonitor(refId: nat, target: Pid)
      modifies this
      ensures View() == old(View()).(monitors := old(monitors) + [MonitorRef(refId, target)])
    {
      monitors := monitors + [MonitorRef(refId, target)];
    }

    method MonitorFor(target: Pid) returns (m: Option<MonitorRef>)
      ensures m == FindMonitor(monitors, target)
    {
      var i := 0;
      while i < |monitors|
        invariant 0 <= i <= |monitors| && FindMonitor(monitors[i..], target) == FindMonitor(monitors, target)
      {
        if monitors[i].target == target {
          return Some(monitors[i]);
        }
        i := i + 1;
      }
      m := None;
    }
  }
}
