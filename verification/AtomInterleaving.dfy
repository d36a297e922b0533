/**
 Interning by several threads: every interleaving of lock acquisitions, checks and insertions under
 the three read-write locks, refined to one atomic intern per call.
 */
module AtomInterleaving {
  import opened Wrappers
  import opened Words
  import opened AtomTables

  type Outcome = Result<U32, AtomError>

  /** Where a thread stands. The first group holds no write lock, the second holds `name_to_index`. */
  datatype Thread =
    | Idle
    | WantReadNames(name: string)
    | ReadingNames(name: string)
    | HasRead(name: string, found: Option<U32>)
    | WantReadIndices(index: U32)
    | ReadingIndices(index: U32)
    | WantLookupName(name: string)
    | LookingUpName(name: string)
    | WantReadNext
    | ReadingNext
    | WantWriteNames(name: string)
    | WantWriteNext(name: string)
    | Rechecking(name: string)
    | WantWriteIndices(name: string, index: U32)
    | InsertingName(name: string, index: U32)
    | InsertingIndex(name: string, index: U32)
    | DroppingIndices(name: string, outcome: Outcome)
    | DroppingNext(name: string, outcome: Outcome)
    | DroppingNames(name: string, outcome: Outcome)

  /** A read-write lock. */
  datatype Lock = Lock(writer: Option<nat>, readers: set<nat>) {
    predicate FreeForRead() {
      writer == None
    }

    predicate FreeForWrite() {
      writer == None && readers == {}
    }
  }

  const FREE := Lock(None, {})

  datatype State = State(
    table: Table,
    names: Lock,
    indices: Lock,
    next: Lock,
    threads: seq<Thread>,
    /** Answers given so far: of every finished intern, and of every lookup that found something. */
    completed: seq<(string, Outcome)>)

  /** What an idle thread may begin. */
  datatype Call = Intern(name: string) | Lookup(index: U32) | LookupName(name: string) | NextIndex

  function Begin(s: State, t: nat, call: Call): State
    requires t < |s.threads|
  {
    var pc := match call
      case Intern(name) => WantReadNames(name)
      case Lookup(index) => WantReadIndices(index)
      case LookupName(name) => WantLookupName(name)
      case NextIndex => WantReadNext;
    if s.threads[t] == Idle then s.(threads := s.threads[t := pc]) else s
  }

  function At(s: State, t: nat, pc: Thread): seq<Thread>
    requires t < |s.threads|
  {
    s.threads[t := pc]
  }

  function FoundName(table: Table, index: U32): seq<(string, Outcome)> {
    if index in table.indices then [(table.indices[index], Ok(index))] else []
  }

  function FoundIndex(table: Table, name: string): seq<(string, Outcome)> {
    if name in table.names then [(name, Ok(table.names[name]))] else []
  }

  /** The next step of a thread; `None` when it is idle or its lock is taken. */
  function Advance(s: State, t: nat): Option<State>
    requires t < |s.threads|
  {
    match s.threads[t]
    case Idle => None
    case WantReadNames(name) =>
      if !s.names.FreeForRead() then None
      else Some(s.(names := s.names.(readers := s.names.readers + {t}), threads := At(s, t, ReadingNames(name))))
    case ReadingNames(name) =>
      Some(s.(threads := At(s, t, HasRead(name, if name in s.table.names then Some(s.table.names[name]) else None))))
    case HasRead(name, found) =>
      var released := s.(names := s.names.(readers := s.names.readers - {t}));
      (match found
       case Some(i) => Some(released.(threads := At(s, t, Idle), completed := s.completed + [(name, Ok(i))]))
       case None => Some(released.(threads := At(s, t, WantWriteNames(name)))))
    case WantReadIndices(index) =>
      if !s.indices.FreeForRead() then None
      else Some(s.(indices := s.indices.(readers := s.indices.readers + {t}),
              threads := At(s, t, ReadingIndices(index))))
    case ReadingIndices(index) =>
      Some(s.(indices := s.indices.(readers := s.indices.readers - {t}), threads := At(s, t, Idle),
              completed := s.completed + FoundName(s.table, index)))
    case WantLookupName(name) =>
      if !s.names.FreeForRead() then None
      else Some(s.(names := s.names.(readers := s.names.readers + {t}), threads := At(s, t, LookingUpName(name))))
    case LookingUpName(name) =>
      Some(s.(names := s.names.(readers := s.names.readers - {t}), threads := At(s, t, Idle),
              completed := s.completed + FoundIndex(s.table, name)))
    case WantReadNext =>
      if !s.next.FreeForRead() then None
      else Some(s.(next := s.next.(readers := s.next.readers + {t}), threads := At(s, t, ReadingNext)))
    case ReadingNext =>
      Some(s.(next := s.next.(readers := s.next.readers - {t}), threads := At(s, t, Idle)))
    case WantWriteNames(name) =>
      if !s.names.FreeForWrite() then None
      else Some(s.(names := Lock(Some(t), {}), threads := At(s, t, WantWriteNext(name))))
    case WantWriteNext(name) =>
      if !s.next.FreeForWrite() then None
      else Some(s.(next := Lock(Some(t), {}), threads := At(s, t, Rechecking(name))))
    case Rechecking(name) =>
      if name in s.table.names then Some(s.(threads := At(s, t, DroppingNext(name, Ok(s.table.names[name])))))
      else if s.table.next >= MAX_ATOMS then Some(s.(threads := At(s, t, DroppingNext(name, Err(LimitExceeded)))))
      else Some(s.(table := s.table.(next := s.table.next + 1),
                   threads := At(s, t, WantWriteIndices(name, s.table.next))))
    case WantWriteIndices(name, index) =>
      if !s.indices.FreeForWrite() then None
      else Some(s.(indices := Lock(Some(t), {}), threads := At(s, t, InsertingName(name, index))))
    case InsertingName(name, index) =>
      Some(s.(table := s.table.(names := s.table.names[name := index]),
              threads := At(s, t, InsertingIndex(name, index))))
    case InsertingIndex(name, index) =>
      Some(s.(table := s.table.(indices := s.table.indices[index := name]),
              threads := At(s, t, DroppingIndices(name, Ok(index)))))
    case DroppingIndices(name, outcome) =>
      Some(s.(indices := FREE, threads := At(s, t, DroppingNext(name, outcome))))
    case DroppingNext(name, outcome) =>
      Some(s.(next := FREE, threads := At(s, t, DroppingNames(name, outcome))))
    case DroppingNames(name, outcome) =>
      Some(s.(names := FREE, threads := At(s, t, Idle), completed := s.completed + [(name, outcome)]))
  }

  // ---- Which locks a thread holds --------------------------------------------------------------

  predicate ReadsNames(pc: Thread) {
    pc.ReadingNames? || pc.HasRead? || pc.LookingUpName?
  }

  predicate WritesIndices(pc: Thread) {
    pc.InsertingName? || pc.InsertingIndex? || pc.DroppingIndices?
  }

  predicate WritesNext(pc: Thread) {
    pc.Rechecking? || pc.WantWriteIndices? || WritesIndices(pc) || pc.DroppingNext?
  }

  predicate WritesNames(pc: Thread) {
    pc.WantWriteNext? || WritesNext(pc) || pc.DroppingNames?
  }

  /** A lock's state is exactly what the positions of the threads say. */
  ghost predicate LockMatches(l: Lock, threads: seq<Thread>, mayWrite: Thread -> bool, mayRead: Thread -> bool) {
    && (forall t: nat :: l.writer == Some(t) <==> t < |threads| && mayWrite(threads[t]))
    && (forall t: nat :: t in l.readers <==> t < |threads| && mayRead(threads[t]))
    && (l.writer.Some? ==> l.readers == {})
  }

  ghost predicate Locks(s: State) {
    && LockMatches(s.names, s.threads, WritesNames, ReadsNames)
    && LockMatches(s.indices, s.threads, WritesIndices, (pc: Thread) => pc.ReadingIndices?)
    && LockMatches(s.next, s.threads, WritesNext, (pc: Thread) => pc.ReadingNext?)
  }

  // ---- The committed table ---------------------------------------------------------------------

  /** The table without the insertion in progress, if there is one. */
  ghost function Committed(s: State): Table {
    match s.names.writer
    case None => s.table
    case Some(w) => if w < |s.threads| then CommittedAt(s.table, s.threads[w]) else s.table
  }

  ghost function CommittedAt(t: Table, pc: Thread): Table {
    match pc
    case WantWriteIndices(_, index) => t.(next := index)
    case InsertingName(_, index) => t.(next := index)
    case InsertingIndex(name, index) => t.(names := t.names - {name}, next := index)
    case _ => t
  }

  /** An insertion in progress has claimed the next index for a name that is not there yet. */
  ghost predicate PendingOk(t: Table, pc: Thread) {
    match pc
    case WantWriteIndices(name, index) => index < MAX_ATOMS && t.next == index + 1 && name !in t.names
    case InsertingName(name, index) => index < MAX_ATOMS && t.next == index + 1 && name !in t.names
    case InsertingIndex(name, index) =>
      index < MAX_ATOMS && t.next == index + 1 && name in t.names && t.names[name] == index
    case _ => true
  }

  /** An answer is the committed index of its name, or the table is full. */
  ghost predicate AnswerOk(c: Table, name: string, outcome: Outcome) {
    match outcome
    case Ok(i) => name in c.names && c.names[name] == i
    case Err(_) => c.next == MAX_ATOMS
  }

  ghost predicate ThreadOk(c: Table, pc: Thread) {
    match pc
    case HasRead(name, Some(i)) => AnswerOk(c, name, Ok(i))
    case DroppingIndices(name, outcome) => AnswerOk(c, name, outcome)
    case DroppingNext(name, outcome) => AnswerOk(c, name, outcome)
    case DroppingNames(name, outcome) => AnswerOk(c, name, outcome)
    case _ => true
  }

  ghost predicate Inv(s: State) {
    && Locks(s) && Bijection(Committed(s))
    && (forall t :: 0 <= t < |s.threads| ==> PendingOk(s.table, s.threads[t]) && ThreadOk(Committed(s), s.threads[t]))
    && (forall k :: 0 <= k < |s.completed| ==> AnswerOk(Committed(s), s.completed[k].0, s.completed[k].1))
  }

  ghost function Start(threads: nat): State {
    State(Initial(), FREE, FREE, FREE, seq(threads, _ => Idle), [])
  }

  lemma StartInv(threads: nat)
    ensures Inv(Start(threads))
  {
    InitialBijection();
  }

  // ---- Steps keep the invariant and refine atomic interning --------------------------------------

  lemma LocksKept(s: State, t: nat)
    requires Locks(s) && t < |s.threads| && Advance(s, t).Some?
    ensures Locks(Advance(s, t).value) && |Advance(s, t).value.threads| == |s.threads|
  {
    hide Advance, LockMatches;
    NamesKept(s, t);
    IndicesKept(s, t);
    NextKept(s, t);
  }

  lemma NamesKept(s: State, t: nat)
    requires Locks(s) && t < |s.threads| && Advance(s, t).Some?
    ensures LockMatches(Advance(s, t).value.names, Advance(s, t).value.threads, WritesNames, ReadsNames)
    ensures |Advance(s, t).value.threads| == |s.threads|
  {
    hide LockMatches, FoundName, FoundIndex;
    LockKept(s.names, s, t, Advance(s, t).value.names, WritesNames, ReadsNames);
  }

  lemma IndicesKept(s: State, t: nat)
    requires Locks(s) && t < |s.threads| && Advance(s, t).Some?
    ensures LockMatches(Advance(s, t).value.indices, Advance(s, t).value.threads,
                        WritesIndices, (pc: Thread) => pc.ReadingIndices?)
  {
    hide LockMatches, FoundName, FoundIndex;
    LockKept(s.indices, s, t, Advance(s, t).value.indices, WritesIndices, (pc: Thread) => pc.ReadingIndices?);
  }

  lemma NextKept(s: State, t: nat)
    requires Locks(s) && t < |s.threads| && Advance(s, t).Some?
    ensures LockMatches(Advance(s, t).value.next, Advance(s, t).value.threads,
                        WritesNext, (pc: Thread) => pc.ReadingNext?)
  {
    hide LockMatches, FoundName, FoundIndex;
    LockKept(s.next, s, t, Advance(s, t).value.next, WritesNext, (pc: Thread) => pc.ReadingNext?);
  }

  /** A lock keeps matching when it changes for thread `t` the way the thread's position does. */
  lemma LockKept(l: Lock, s: State, t: nat, l': Lock, mayWrite: Thread -> bool, mayRead: Thread -> bool)
    requires LockMatches(l, s.threads, mayWrite, mayRead) && t < |s.threads| && Advance(s, t).Some?
    requires var pc, pc' := s.threads[t], Advance(s, t).value.threads[t];
             && (mayWrite(pc') ==> !mayRead(pc'))
             && (if mayWrite(pc') == mayWrite(pc) && mayRead(pc') == mayRead(pc) then l' == l
                 else if mayWrite(pc') then l.FreeForWrite() && l' == Lock(Some(t), {})
                 else if mayWrite(pc) then !mayRead(pc') && l' == FREE
                 else if mayRead(pc') then l.FreeForRead() && l' == l.(readers := l.readers + {t})
                 else l' == l.(readers := l.readers - {t}))
    requires Advance(s, t).value.threads == s.threads[t := Advance(s, t).value.threads[t]]
    ensures LockMatches(l', Advance(s, t).value.threads, mayWrite, mayRead)
  {
  }

  /** The name and answer a step settles, if it settles one. */
  function Settles(pc: Thread, pc': Thread): Option<(string, Outcome)> {
    match (pc, pc')
    case (ReadingNames(name), HasRead(_, Some(i))) => Some((name, Ok(i)))
    case (Rechecking(name), DroppingNext(_, outcome)) => Some((name, outcome))
    case (InsertingIndex(name, _), DroppingIndices(_, outcome)) => Some((name, outcome))
    case _ => None
  }

  /**
   Each step leaves the committed table alone, except that the one step that settles a call acts on it
   exactly like the atomic intern of that name, with the same answer.
   */
  lemma StepRefines(s: State, t: nat)
    requires Inv(s) && t < |s.threads| && Advance(s, t).Some?
    ensures var s' := Advance(s, t).value;
            && t < |s'.threads|
            && match Settles(s.threads[t], s'.threads[t])
               case Some((name, outcome)) => (outcome, Committed(s')) == AtomicIntern(Committed(s), name)
               case None => Committed(s') == Committed(s)
  {
    hide Bijection, ThreadOk, AnswerOk, PendingOk, CommittedAt, Settles, AtomicIntern;
    LocksKept(s, t);
    assert s.names.writer == Some(t) <==> WritesNames(s.threads[t]);
    if WritesNames(s.threads[t]) {
      WriterRefines(s, t);
    } else {
      OtherRefines(s, t);
    }
  }

  /** Steps of the thread that holds the write lock on names. */
  lemma WriterRefines(s: State, t: nat)
    requires t < |s.threads| && Advance(s, t).Some? && PendingOk(s.table, s.threads[t])
    requires s.names.writer == Some(t) && WritesNames(s.threads[t])
    ensures var s' := Advance(s, t).value;
            && t < |s'.threads|
            && match Settles(s.threads[t], s'.threads[t])
               case Some((name, outcome)) => (outcome, Committed(s')) == AtomicIntern(Committed(s), name)
               case None => Committed(s') == Committed(s)
  {
    match s.threads[t] {
      case InsertingIndex(name, index) => InsertCommits(s.table, name, index);
      case InsertingName(name, index) =>
        assert s.table.names[name := index] - {name} == s.table.names;
      case _ =>
    }
  }

  /** A thread without that lock reads; it can settle an intern only when nobody has the lock. */
  lemma OtherRefines(s: State, t: nat)
    requires Locks(s) && t < |s.threads| && Advance(s, t).Some? && !WritesNames(s.threads[t])
    ensures var s' := Advance(s, t).value;
            && t < |s'.threads|
            && match Settles(s.threads[t], s'.threads[t])
               case Some((name, outcome)) => (outcome, Committed(s')) == AtomicIntern(Committed(s), name)
               case None => Committed(s') == Committed(s)
  {
    hide FoundName, FoundIndex;
    assert s.names.writer != Some(t);
    assert t in s.names.readers <==> ReadsNames(s.threads[t]);
  }

  lemma InsertCommits(t: Table, name: string, index: U32)
    requires PendingOk(t, InsertingIndex(name, index))
    ensures var c := CommittedAt(t, InsertingIndex(name, index));
            (Ok(index), t.(indices := t.indices[index := name])) == AtomicIntern(c, name)
  {
    var c := CommittedAt(t, InsertingIndex(name, index));
    assert c.names[name := index] == t.names;
  }

  lemma AnswersPersist(c: Table, name: string)
    requires Bijection(c)
    ensures var c' := AtomicIntern(c, name).1;
            forall n, o :: AnswerOk(c, n, o) ==> AnswerOk(c', n, o)
  {
  }

  lemma StepKeeps(s: State, t: nat)
    requires Inv(s) && t < |s.threads| && Advance(s, t).Some?
    ensures Inv(Advance(s, t).value)
  {
    hide Bijection, PendingOk, ThreadOk, AnswerOk, LockMatches, Committed;
    var s' := Advance(s, t).value;
    var c, c' := Committed(s), Committed(s');
    LocksKept(s, t);
    StepRefines(s, t);
    match Settles(s.threads[t], s'.threads[t]) {
      case Some((name, _)) =>
        InternKeepsBijection(c, name);
        AnswersPersist(c, name);
      case None =>
    }
    forall u | 0 <= u < |s'.threads| ensures PendingOk(s'.table, s'.threads[u]) && ThreadOk(c', s'.threads[u]) {
      PendingKept(s, t, u);
      AnswerKept(s, t, u);
    }
    CompletedKept(s, t);
  }

  /** How the committed table moves in a step: not at all, or by the atomic intern the step settles. */
  ghost predicate Refined(s: State, t: nat)
    requires t < |s.threads| && Advance(s, t).Some? && |Advance(s, t).value.threads| == |s.threads|
  {
    var c, c' := Committed(s), Committed(Advance(s, t).value);
    && (forall n, o :: AnswerOk(c, n, o) ==> AnswerOk(c', n, o))
    && match Settles(s.threads[t], Advance(s, t).value.threads[t])
       case Some((name, outcome)) => (outcome, c') == AtomicIntern(c, name)
       case None => true
  }

  lemma PendingKept(s: State, t: nat, u: nat)
    requires Inv(s) && t < |s.threads| && Advance(s, t).Some? && u < |s.threads|
    ensures var s' := Advance(s, t).value;
            |s'.threads| == |s.threads| && PendingOk(s'.table, s'.threads[u])
  {
    hide ThreadOk, Bijection, Committed, AnswerOk;
    assert PendingOk(s.table, s.threads[u]);
    assert s.names.writer == Some(t) <==> WritesNames(s.threads[t]);
    assert s.names.writer == Some(u) <==> WritesNames(s.threads[u]);
  }

  lemma OneThreadMoves(s: State, t: nat)
    requires t < |s.threads| && Advance(s, t).Some?
    ensures var s' := Advance(s, t).value;
            |s'.threads| == |s.threads| && s'.threads == s.threads[t := s'.threads[t]]
  {
    hide FoundName, FoundIndex;
  }

  lemma AnswerKept(s: State, t: nat, u: nat)
    requires Inv(s) && t < |s.threads| && Advance(s, t).Some? && u < |s.threads|
    requires |Advance(s, t).value.threads| == |s.threads| && Refined(s, t)
    ensures ThreadOk(Committed(Advance(s, t).value), Advance(s, t).value.threads[u])
  {
    hide PendingOk, Committed, Locks, Advance, Bijection, AtomicIntern, Settles;
    assert ThreadOk(Committed(s), s.threads[u]);
    OneThreadMoves(s, t);
    if u == t {
      OwnAnswerKept(s, t);
    }
  }

  lemma OwnAnswerKept(s: State, t: nat)
    requires Inv(s) && t < |s.threads| && Advance(s, t).Some?
    requires |Advance(s, t).value.threads| == |s.threads| && Refined(s, t)
    ensures ThreadOk(Committed(Advance(s, t).value), Advance(s, t).value.threads[t])
  {
    hide PendingOk, Committed, Locks, FoundName, FoundIndex, LockMatches, Bijection;
    NextWithin(Committed(s));
    assert ThreadOk(Committed(s), s.threads[t]);
  }

  lemma NextWithin(c: Table)
    requires Bijection(c)
    ensures c.next <= MAX_ATOMS
  {
  }

  lemma CompletedKept(s: State, t: nat)
    requires Inv(s) && t < |s.threads| && Advance(s, t).Some?
    requires |Advance(s, t).value.threads| == |s.threads| && Refined(s, t)
    ensures var s' := Advance(s, t).value;
            forall k :: 0 <= k < |s'.completed| ==> AnswerOk(Committed(s'), s'.completed[k].0, s'.completed[k].1)
  {
    hide PendingOk, Committed, Locks, AnswerOk, Bijection, FoundName, FoundIndex;
    assert ThreadOk(Committed(s), s.threads[t]);
    LookupAnswers(s, t);
  }

  /** A thread that reads under a lock sees the committed table. */
  lemma LookupAnswers(s: State, t: nat)
    requires Inv(s) && t < |s.threads|
    ensures var pc, c := s.threads[t], Committed(s);
            && (pc.ReadingIndices? ==> forall a :: a in FoundName(s.table, pc.index) ==> AnswerOk(c, a.0, a.1))
            && (pc.LookingUpName? ==> forall a :: a in FoundIndex(s.table, pc.name) ==> AnswerOk(c, a.0, a.1))
  {
    assert t in s.indices.readers <==> s.threads[t].ReadingIndices?;
    assert t in s.names.readers <==> ReadsNames(s.threads[t]);
  }

  lemma BeginKeeps(s: State, t: nat, call: Call)
    requires Inv(s) && t < |s.threads|
    ensures Inv(Begin(s, t, call)) && Committed(Begin(s, t, call)) == Committed(s)
  {
    var s' := Begin(s, t, call);
    if s.threads[t] == Idle {
      BeginLock(s.names, s, t, s'.threads[t], WritesNames, ReadsNames);
      BeginLock(s.indices, s, t, s'.threads[t], WritesIndices, (pc: Thread) => pc.ReadingIndices?);
      BeginLock(s.next, s, t, s'.threads[t], WritesNext, (pc: Thread) => pc.ReadingNext?);
      assert s.names.writer != Some(t);
    }
  }

  lemma BeginLock(l: Lock, s: State, t: nat, pc: Thread, mayWrite: Thread -> bool, mayRead: Thread -> bool)
    requires LockMatches(l, s.threads, mayWrite, mayRead) && t < |s.threads|
    requires !mayWrite(s.threads[t]) && !mayRead(s.threads[t]) && !mayWrite(pc) && !mayRead(pc)
    ensures LockMatches(l, s.threads[t := pc], mayWrite, mayRead)
  {
  }

  // ---- Whole runs ------------------------------------------------------------------------------

  datatype Event = Begins(t: nat, call: Call) | Steps(t: nat)

  /** Blocked or impossible events leave the state alone. */
  ghost function Apply(s: State, e: Event): State {
    match e
    case Begins(t, call) => if t < |s.threads| then Begin(s, t, call) else s
    case Steps(t) => if t < |s.threads| && Advance(s, t).Some? then Advance(s, t).value else s
  }

  ghost function Run(s: State, events: seq<Event>): State
    decreases |events|
  {
    if events == [] then s else Run(Apply(s, events[0]), events[1..])
  }

  lemma {:induction false} RunKeeps(s: State, events: seq<Event>)
    requires Inv(s)
    ensures Inv(Run(s, events))
    decreases |events|
  {
    hide Inv;
    if events != [] {
      match events[0] {
        case Begins(t, call) =>
          if t < |s.threads| {
            BeginKeeps(s, t, call);
          }
        case Steps(t) =>
          if t < |s.threads| && Advance(s, t).Some? {
            StepKeeps(s, t);
          }
      }
      RunKeeps(Apply(s, events[0]), events[1..]);
    }
  }

  /**
   In every interleaving, whenever no insertion is in progress the two maps are inverse bijections on
   `0..next`, which never exceeds the limit, and answered calls, interns and lookups alike, agree:
   equal indices exactly for equal names.
   */
  lemma InterningIsBijective(threads: nat, events: seq<Event>)
    ensures var s := Run(Start(threads), events);
            && (s.names.writer == None ==> Bijection(s.table))
            && s.table.next <= MAX_ATOMS
            && forall j, k :: Answered(s, j) && Answered(s, k) ==>
                (s.completed[j].1.value == s.completed[k].1.value <==> s.completed[j].0 == s.completed[k].0)
    ensures var s := Run(Start(threads), events);
            (exists k :: 0 <= k < |s.completed| && s.completed[k].1.Err?) ==> s.table.next == MAX_ATOMS
  {
    StartInv(threads);
    RunKeeps(Start(threads), events);
    var s := Run(Start(threads), events);
    NextBounded(s);
    if k :| 0 <= k < |s.completed| && s.completed[k].1.Err? {
      assert AnswerOk(Committed(s), s.completed[k].0, s.completed[k].1);
      FullStaysFull(s);
    }
    forall j, k | Answered(s, j) && Answered(s, k)
      ensures s.completed[j].1.value == s.completed[k].1.value <==> s.completed[j].0 == s.completed[k].0
    {
      assert AnswerOk(Committed(s), s.completed[j].0, s.completed[j].1);
      assert AnswerOk(Committed(s), s.completed[k].0, s.completed[k].1);
      IndicesAgreeIff(Committed(s), s.completed[j].0, s.completed[k].0);
    }
  }

  /** The `k`-th completed call returned an index. */
  ghost predicate Answered(s: State, k: int) {
    0 <= k < |s.completed| && s.completed[k].1.Ok?
  }

  /** No insertion is under way once the committed table is full. */
  lemma FullStaysFull(s: State)
    requires Inv(s) && Committed(s).next == MAX_ATOMS
    ensures s.table.next == MAX_ATOMS
  {
    if s.names.writer.Some? {
      var w := s.names.writer.value;
      assert PendingOk(s.table, s.threads[w]);
    }
  }

  /**
   A lookup that reads after a call has been answered finds what that call was told: the index by the
   name, and the name by the index.
   */
  lemma LookupFindsAnswered(threads: nat, events: seq<Event>, t: nat, k: nat)
    requires var s := Run(Start(threads), events); t < |s.threads| && Answered(s, k)
    ensures var s := Run(Start(threads), events);
            var (name, outcome) := s.completed[k];
            && (s.threads[t] == LookingUpName(name) || s.threads[t] == ReadingIndices(outcome.value) ==>
                  Advance(s, t).Some? && Advance(s, t).value.completed == s.completed + [(name, outcome)])
  {
    hide Advance, Inv, Committed, Bijection;
    StartInv(threads);
    RunKeeps(Start(threads), events);
    ReaderFinds(Run(Start(threads), events), t, k);
  }

  lemma ReaderFinds(s: State, t: nat, k: nat)
    requires Inv(s) && t < |s.threads| && Answered(s, k)
    ensures var (name, outcome) := s.completed[k];
            && (s.threads[t] == LookingUpName(name) || s.threads[t] == ReadingIndices(outcome.value) ==>
                  Advance(s, t).Some? && Advance(s, t).value.completed == s.completed + [(name, outcome)])
  {
    assert AnswerOk(Committed(s), s.completed[k].0, s.completed[k].1);
    ReaderSeesCommitted(s, t);
  }

  lemma ReaderSeesCommitted(s: State, t: nat)
    requires Inv(s) && t < |s.threads|
    ensures s.threads[t].LookingUpName? ==> Committed(s) == s.table
    ensures s.threads[t].ReadingIndices? ==> Committed(s).indices == s.table.indices
  {
    hide Bijection;
    assert t in s.names.readers <==> ReadsNames(s.threads[t]);
  }

  lemma NextBounded(s: State)
    requires Inv(s)
    ensures s.table.next <= MAX_ATOMS
  {
    if s.names.writer.Some? {
      var w := s.names.writer.value;
      assert PendingOk(s.table, s.threads[w]);
    }
  }

  // ---- No deadlock -----------------------------------------------------------------------------

  /** Some thread in the middle of a call can take its next step. */
  ghost predicate CanMove(s: State) {
    exists t: nat :: t < |s.threads| && Advance(s, t).Some?
  }

  /** The holder of the names lock, or a reader it waits for, can move. */
  lemma WriterMoves(s: State, w: nat)
    requires Inv(s) && s.names.writer == Some(w)
    ensures CanMove(s)
  {
    var pc := s.threads[w];
    if Advance(s, w).None? {
      var l := if pc.WantWriteNext? then s.next else s.indices;
      var r :| r in l.readers;
      assert Advance(s, r).Some?;
    }
  }

  /** Locks are always taken in one order, so as long as a call is running some thread can move. */
  lemma NoDeadlock(threads: nat, events: seq<Event>)
    ensures var s := Run(Start(threads), events);
            (exists t :: 0 <= t < |s.threads| && s.threads[t] != Idle) ==> CanMove(s)
  {
    StartInv(threads);
    RunKeeps(Start(threads), events);
    var s := Run(Start(threads), events);
    if t :| 0 <= t < |s.threads| && s.threads[t] != Idle {
      SomeoneMoves(s, t);
    }
  }

  lemma SomeoneMoves(s: State, t: nat)
    requires Inv(s) && t < |s.threads| && s.threads[t] != Idle
    ensures CanMove(s)
  {
    if s.names.writer.Some? {
      WriterMoves(s, s.names.writer.value);
    } else if r :| r in s.names.readers {
      assert Advance(s, r).Some?;
    } else {
      FreeThreadMoves(s, t);
    }
  }

  lemma FreeThreadMoves(s: State, t: nat)
    requires Inv(s) && s.names.FreeForWrite() && t < |s.threads| && s.threads[t] != Idle
    ensures Advance(s, t).Some?
  {
    assert s.names.writer != Some(t);
  }
}
