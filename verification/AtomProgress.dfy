/** Every call that begins also ends: an intern with an answer, after a bounded number of its own steps. */
module AtomProgress {
  import opened Wrappers
  import opened Words
  import opened AtomTables
  import opened AtomInterleaving

  /** The name a thread is interning. */
  function Interning(pc: Thread): Option<string> {
    match pc
    case WantReadNames(name) => Some(name)
    case ReadingNames(name) => Some(name)
    case HasRead(name, _) => Some(name)
    case WantWriteNames(name) => Some(name)
    case WantWriteNext(name) => Some(name)
    case Rechecking(name) => Some(name)
    case WantWriteIndices(name, _) => Some(name)
    case InsertingName(name, _) => Some(name)
    case InsertingIndex(name, _) => Some(name)
    case DroppingIndices(name, _) => Some(name)
    case DroppingNext(name, _) => Some(name)
    case DroppingNames(name, _) => Some(name)
    case _ => None
  }

  /** The steps a thread has left at most. */
  function Left(pc: Thread): nat {
    match pc
    case Idle => 0
    case WantReadNames(_) => 12
    case ReadingNames(_) => 11
    case HasRead(_, _) => 10
    case WantWriteNames(_) => 9
    case WantWriteNext(_) => 8
    case Rechecking(_) => 7
    case WantWriteIndices(_, _) => 6
    case InsertingName(_, _) => 5
    case InsertingIndex(_, _) => 4
    case DroppingIndices(_, _) => 3
    case DroppingNext(_, _) => 2
    case DroppingNames(_, _) => 1
    case WantReadIndices(_) => 2
    case ReadingIndices(_) => 1
    case WantLookupName(_) => 2
    case LookingUpName(_) => 1
    case WantReadNext => 2
    case ReadingNext => 1
  }

  /** A call begun by an idle thread is under way. */
  lemma BeginStarts(s: State, t: nat, call: Call)
    requires t < |s.threads| && s.threads[t] == Idle
    ensures var s' := Begin(s, t, call);
            && |s'.threads| == |s.threads| && s'.table == s.table && s'.completed == s.completed
            && s'.threads[t] != Idle && (call.Intern? ==> Interning(s'.threads[t]) == Some(call.name))
            && (forall u :: 0 <= u < |s.threads| && u != t ==> s'.threads[u] == s.threads[u])
  {
  }

  /** An own step brings a call closer to its end and leaves the other threads where they are. */
  lemma StepFalls(s: State, t: nat)
    requires t < |s.threads| && Advance(s, t).Some?
    ensures var s' := Advance(s, t).value;
            && |s'.threads| == |s.threads| && Left(s'.threads[t]) < Left(s.threads[t])
            && (forall u :: 0 <= u < |s.threads| && u != t ==> s'.threads[u] == s.threads[u])
            && s.completed <= s'.completed
  {
    hide Left, Advance;
    OneThreadMoves(s, t);
    LeftFalls(s, t);
    AnswersGrow(s, t);
  }

  lemma LeftFalls(s: State, t: nat)
    requires t < |s.threads| && Advance(s, t).Some? && |Advance(s, t).value.threads| == |s.threads|
    ensures Left(Advance(s, t).value.threads[t]) < Left(s.threads[t])
  {
    hide FoundName, FoundIndex;
    var pc' := Advance(s, t).value.threads[t];
    match s.threads[t] {
      case WantReadNames(name) => assert pc' == ReadingNames(name);
      case ReadingNames(name) => assert pc'.HasRead?;
      case HasRead(name, found) => assert pc' == if found.Some? then Idle else WantWriteNames(name);
      case WantWriteNames(name) => assert pc' == WantWriteNext(name);
      case WantWriteNext(name) => assert pc' == Rechecking(name);
      case Rechecking(name) => assert pc'.DroppingNext? || pc'.WantWriteIndices?;
      case WantWriteIndices(name, index) => assert pc' == InsertingName(name, index);
      case InsertingName(name, index) => assert pc' == InsertingIndex(name, index);
      case InsertingIndex(name, index) => assert pc' == DroppingIndices(name, Ok(index));
      case DroppingIndices(name, outcome) => assert pc' == DroppingNext(name, outcome);
      case DroppingNext(name, outcome) => assert pc' == DroppingNames(name, outcome);
      case DroppingNames(_, _) => assert pc' == Idle;
      case WantReadIndices(index) => assert pc' == ReadingIndices(index);
      case ReadingIndices(_) => assert pc' == Idle;
      case WantLookupName(name) => assert pc' == LookingUpName(name);
      case LookingUpName(_) => assert pc' == Idle;
      case WantReadNext => assert pc' == ReadingNext;
      case ReadingNext => assert pc' == Idle;
    }
  }

  lemma AnswersGrow(s: State, t: nat)
    requires t < |s.threads| && Advance(s, t).Some?
    ensures s.completed <= Advance(s, t).value.completed
  {
    hide FoundName, FoundIndex;
  }

  /** An intern stays an intern of its name until it ends, and it ends with an answer for that name. */
  lemma InternEndsAnswered(s: State, t: nat)
    requires Inv(s) && t < |s.threads| && Advance(s, t).Some? && Interning(s.threads[t]).Some?
    ensures var s', name := Advance(s, t).value, Interning(s.threads[t]).value;
            && |s'.threads| == |s.threads|
            && (s'.threads[t] != Idle ==> Interning(s'.threads[t]) == Some(name) && s'.completed == s.completed)
            && (s'.threads[t] == Idle ==>
                  && |s'.completed| == |s.completed| + 1 && s'.completed[..|s.completed|] == s.completed
                  && var (n, outcome) := s'.completed[|s.completed|];
                     && n == name
                     && match outcome
                        case Ok(i) => name in Committed(s').names && Committed(s').names[name] == i
                        case Err(_) => Committed(s').next == MAX_ATOMS)
  {
    hide Inv, Committed, FoundName, FoundIndex;
    StepKeeps(s, t);
    var s' := Advance(s, t).value;
    LastAnswerOk(s');
  }

  lemma LastAnswerOk(s: State)
    requires Inv(s)
    ensures forall k :: 0 <= k < |s.completed| ==> AnswerOk(Committed(s), s.completed[k].0, s.completed[k].1)
  {
  }

  // ---- Whole runs --------------------------------------------------------------------------------

  /** How many of the events move thread `t`. */
  ghost function OwnSteps(s: State, events: seq<Event>, t: nat): nat
    decreases |events|
  {
    if events == [] then 0
    else
      (if events[0] == Steps(t) && t < |s.threads| && Advance(s, t).Some? then 1 else 0)
      + OwnSteps(Apply(s, events[0]), events[1..], t)
  }

  /** A call for this name has been answered since `before` answers had been given. */
  ghost predicate AnsweredSince(s: State, before: nat, name: string) {
    exists k :: before <= k < |s.completed| && s.completed[k].0 == name
  }

  lemma ApplyOne(s: State, e: Event, t: nat)
    requires Inv(s) && t < |s.threads| && Interning(s.threads[t]).Some?
    ensures var s', name, n := Apply(s, e), Interning(s.threads[t]).value, OwnSteps(s, [e], t);
            && Inv(s') && |s'.threads| == |s.threads| && s.completed <= s'.completed
            && (AnsweredSince(s', |s.completed|, name) ||
                (Interning(s'.threads[t]) == Some(name) && Left(s'.threads[t]) + n <= Left(s.threads[t])))
  {
    hide Inv, Advance, Committed;
    assert OwnSteps(s, [e], t) == if e == Steps(t) && Advance(s, t).Some? then 1 else 0;
    match e {
      case Begins(u, call) =>
        if u < |s.threads| {
          BeginKeeps(s, u, call);
          assert u == t ==> Begin(s, u, call) == s;
        }
      case Steps(u) =>
        if u < |s.threads| && Advance(s, u).Some? {
          StepKeeps(s, u);
          StepFalls(s, u);
          if u == t {
            InternEndsAnswered(s, t);
            var s' := Advance(s, t).value;
            assert s'.threads[t] == Idle ==> s'.completed[|s.completed|].0 == Interning(s.threads[t]).value;
          }
        }
    }
  }

  /** Whatever the other threads do, an intern that has made its remaining steps has been answered. */
  lemma {:induction false} InternIsAnswered(s: State, events: seq<Event>, t: nat)
    requires Inv(s) && t < |s.threads| && Interning(s.threads[t]).Some?
    ensures var s', name := Run(s, events), Interning(s.threads[t]).value;
            && s.completed <= s'.completed && |s'.threads| == |s.threads|
            && (AnsweredSince(s', |s.completed|, name) ||
                (Interning(s'.threads[t]) == Some(name) &&
                 Left(s'.threads[t]) + OwnSteps(s, events, t) <= Left(s.threads[t])))
            && (OwnSteps(s, events, t) >= 12 ==> AnsweredSince(s', |s.completed|, name))
    decreases |events|
  {
    hide Inv, Apply, Advance;
    if events != [] {
      var s1 := Apply(s, events[0]);
      ApplyOne(s, events[0], t);
      OwnStepsFirst(s, events, t);
      RunGrows(s1, events[1..]);
      if Interning(s1.threads[t]) == Interning(s.threads[t]) {
        InternIsAnswered(s1, events[1..], t);
        AnsweredLater(Run(s, events), |s.completed|, |s1.completed|, Interning(s.threads[t]).value);
      }
      AnsweredStays(s1, Run(s, events), |s.completed|, Interning(s.threads[t]).value);
    }
    LeftBounds(s.threads[t]);
    LeftBounds(Run(s, events).threads[t]);
  }

  lemma LeftBounds(pc: Thread)
    ensures Left(pc) <= 12 && (pc != Idle ==> Left(pc) > 0)
  {
  }

  lemma OwnStepsFirst(s: State, events: seq<Event>, t: nat)
    requires events != []
    ensures OwnSteps(s, events, t) == OwnSteps(s, [events[0]], t) + OwnSteps(Apply(s, events[0]), events[1..], t)
  {
    hide Apply, Advance;
    assert [events[0]][1..] == [];
  }

  lemma AnsweredLater(s: State, a: nat, b: nat, name: string)
    requires a <= b
    ensures AnsweredSince(s, b, name) ==> AnsweredSince(s, a, name)
  {
  }

  lemma AnsweredStays(s: State, s': State, before: nat, name: string)
    requires s.completed <= s'.completed
    ensures AnsweredSince(s, before, name) ==> AnsweredSince(s', before, name)
  {
  }

  lemma ApplyGrows(s: State, e: Event)
    ensures s.completed <= Apply(s, e).completed && |Apply(s, e).threads| == |s.threads|
  {
    hide Advance;
    if e.Steps? && e.t < |s.threads| && Advance(s, e.t).Some? {
      StepFalls(s, e.t);
    }
  }

  lemma {:induction false} RunGrows(s: State, events: seq<Event>)
    ensures s.completed <= Run(s, events).completed && |Run(s, events).threads| == |s.threads|
    decreases |events|
  {
    hide Apply;
    if events != [] {
      ApplyGrows(s, events[0]);
      RunGrows(Apply(s, events[0]), events[1..]);
    }
  }

  // ---- Lookups --------------------------------------------------------------------------------------

  /** The state when no call is under way. */
  ghost predicate Quiet(s: State) {
    s.names == FREE && s.indices == FREE && s.next == FREE
  }

  /** A lookup by index that nobody disturbs finds the name, if there is one, and leaves everything else alone. */
  lemma LookupAlone(s: State, t: nat, index: U32)
    requires Quiet(s) && t < |s.threads| && s.threads[t] == Idle
    ensures Run(s, [Begins(t, Lookup(index)), Steps(t), Steps(t)]) ==
            s.(completed :=
              s.completed + if index in s.table.indices then [(s.table.indices[index], Ok(index))] else [])
  {
    hide Run;
    var s1 := Begin(s, t, Lookup(index));
    var s2 := s1.(indices := Lock(None, {t}), threads := s1.threads[t := ReadingIndices(index)]);
    var s3 := s2.(indices := FREE, threads := s2.threads[t := Idle],
                  completed := s.completed + FoundName(s.table, index));
    assert {} + {t} == {t} && {t} - {t} == {};
    assert Advance(s1, t) == Some(s2) && Advance(s2, t) == Some(s3);
    assert s3.threads == s.threads;
    TwoSteps(s, t, Lookup(index), s1, s2, s3);
  }

  lemma LookupNameAlone(s: State, t: nat, name: string)
    requires Quiet(s) && t < |s.threads| && s.threads[t] == Idle
    ensures Run(s, [Begins(t, LookupName(name)), Steps(t), Steps(t)]) ==
            s.(completed := s.completed + if name in s.table.names then [(name, Ok(s.table.names[name]))] else [])
  {
    hide Run;
    var s1 := Begin(s, t, LookupName(name));
    var s2 := s1.(names := Lock(None, {t}), threads := s1.threads[t := LookingUpName(name)]);
    var s3 := s2.(names := FREE, threads := s2.threads[t := Idle],
                  completed := s.completed + FoundIndex(s.table, name));
    assert {} + {t} == {t} && {t} - {t} == {};
    assert Advance(s1, t) == Some(s2) && Advance(s2, t) == Some(s3);
    assert s3.threads == s.threads;
    TwoSteps(s, t, LookupName(name), s1, s2, s3);
  }

  lemma TwoSteps(s: State, t: nat, call: Call, s1: State, s2: State, s3: State)
    requires t < |s.threads| && t < |s1.threads| && t < |s2.threads|
    requires s1 == Begin(s, t, call) && Advance(s1, t) == Some(s2) && Advance(s2, t) == Some(s3)
    ensures Run(s, [Begins(t, call), Steps(t), Steps(t)]) == s3
  {
    hide Advance, Begin, Run;
    ThreeEvents(s, Begins(t, call), Steps(t), Steps(t));
  }

  lemma RunOne(s: State, e: Event, rest: seq<Event>)
    ensures Run(s, [e] + rest) == Run(Apply(s, e), rest)
  {
    hide Apply;
    assert ([e] + rest)[1..] == rest;
  }

  lemma ThreeEvents(s: State, a: Event, b: Event, c: Event)
    ensures Run(s, [a, b, c]) == Apply(Apply(Apply(s, a), b), c)
  {
    hide Apply;
    RunOne(s, a, [b, c]);
    RunOne(Apply(s, a), b, [c]);
    RunOne(Apply(Apply(s, a), b), c, []);
    assert [a] + [b, c] == [a, b, c] && [b] + [c] == [b, c] && [c] + [] == [c];
  }

  // ---- Every call can be finished ------------------------------------------------------------------

  function TotalLeft(threads: seq<Thread>): nat {
    if threads == [] then 0 else TotalLeft(threads[..|threads| - 1]) + Left(threads[|threads| - 1])
  }

  lemma {:induction false} TotalFalls(threads: seq<Thread>, threads': seq<Thread>, t: nat)
    requires |threads| == |threads'| && t < |threads| && Left(threads'[t]) < Left(threads[t])
    requires forall u :: 0 <= u < |threads| && u != t ==> threads'[u] == threads[u]
    ensures TotalLeft(threads') < TotalLeft(threads)
    decreases |threads|
  {
    var n := |threads| - 1;
    if t < n {
      TotalFalls(threads[..n], threads'[..n], t);
    } else {
      assert threads[..n] == threads'[..n];
    }
  }

  ghost predicate AllIdle(s: State) {
    forall t :: 0 <= t < |s.threads| ==> s.threads[t] == Idle
  }

  /** From every reachable state some continuation without new calls ends them all: nothing is stuck for good. */
  lemma {:induction false} CallsCanFinish(s: State) returns (events: seq<Event>)
    requires Inv(s)
    ensures forall e :: e in events ==> e.Steps?
    ensures AllIdle(Run(s, events))
    decreases TotalLeft(s.threads)
  {
    hide Inv, Advance, Left, TotalLeft, Apply;
    events := [];
    if t :| 0 <= t < |s.threads| && s.threads[t] != Idle {
      SomeoneMoves(s, t);
      var u: nat :| u < |s.threads| && Advance(s, u).Some?;
      StepKeeps(s, u);
      StepFalls(s, u);
      var s' := Advance(s, u).value;
      TotalFalls(s.threads, s'.threads, u);
      var rest := CallsCanFinish(s');
      events := [Steps(u)] + rest;
      RunFirst(s, u, rest);
    } else {
      assert Run(s, []) == s;
    }
  }

  lemma RunFirst(s: State, u: nat, rest: seq<Event>)
    requires u < |s.threads| && Advance(s, u).Some?
    ensures Run(s, [Steps(u)] + rest) == Run(Advance(s, u).value, rest)
  {
    hide Advance;
    var events := [Steps(u)] + rest;
    assert events[0] == Steps(u) && events[1..] == rest;
  }
}
