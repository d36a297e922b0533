/**
 A process that builds terms and collects: over whole runs the heap stays well formed, and a register
 nobody writes denotes the same term throughout, however often the heap is collected in between.

 The collector keeps the relocated roots to itself. `Collect` hands them back to the registers, which
 is what its forwarding is for; `CollectInPlace` leaves the registers as they were, which is what the
 original does, and then the runs below are those in which no dead word lies below a register's object.
 */
module HeapRuns {
  import opened Wrappers
  import opened Words
  import opened HeapLayout
  import opened Collection
  import opened ProcessHeaps
  import opened HeapGrowth
  import opened StaleRoots

  /** The heap and the registers, which are the roots of every collection. */
  datatype Machine = Machine(mem: seq<Word>, hp: nat, regs: seq<Word>)

  datatype Op =
    | BuildCons(dst: nat, head: nat, tail: nat)
    | BuildTuple(dst: nat, elements: seq<nat>)
    | Load(dst: nat, src: nat, field: nat)
    | Constant(dst: nat, value: Word)
    | Grow(extra: nat)
    | Collect
    | CollectInPlace

  function Values(regs: seq<Word>, indices: seq<nat>): (vs: seq<Word>)
    requires forall i :: 0 <= i < |indices| ==> indices[i] < |regs|
    ensures |vs| == |indices| && forall v :: v in vs ==> v in regs
  {
    seq(|indices|, i requires 0 <= i < |indices| => regs[indices[i]])
  }

  /** One operation that does not run out of space. */
  ghost predicate Step(m: Machine, op: Op, m': Machine)
    requires m.hp <= |m.mem|
  {
    match op
    case BuildCons(d, h, t) =>
      && d < |m.regs| && h < |m.regs| && t < |m.regs| && m.hp + 3 <= |m.mem| < MAX_WORDS
      && m' == Machine(WithCons(m.mem, m.hp, m.regs[h], m.regs[t]), m.hp + 3, m.regs[d := Pointer(m.hp, Cons)])
    case BuildTuple(d, es) =>
      && d < |m.regs| && (forall i :: 0 <= i < |es| ==> es[i] < |m.regs|)
      && 1 + |es| < 0x100_0000 && m.hp + 1 + |es| <= |m.mem| < MAX_WORDS
      && m' == Machine(WithTuple(m.mem, m.hp, Values(m.regs, es)), m.hp + 1 + |es|, m.regs[d := Pointer(m.hp, Tuple)])
    case Load(d, s, k) =>
      && d < |m.regs| && s < |m.regs|
      && var r := Follow(m.mem, m.regs[s], [k]); r.Some? && m' == m.(regs := m.regs[d := r.value])
    case Constant(d, v) =>
      && d < |m.regs| && (Tag(v) == SmallInteger || Tag(v) == Atom)
      && m' == m.(regs := m.regs[d := v])
    case Grow(extra) => m' == m.(mem := m.mem + seq(extra, _ => 0))
    case Collect => Collected(m.mem, m.hp, m.regs, m'.mem, m'.hp, m'.regs)
    case CollectInPlace =>
      m'.regs == m.regs && exists relocated: seq<Word> :: Collected(m.mem, m.hp, m.regs, m'.mem, m'.hp, relocated)
  }

  /** A collection that leaves the registers alone moves none of their objects. */
  ghost predicate Guard(m: Machine, op: Op) {
    op == CollectInPlace ==> forall r :: r in m.regs ==> NothingDeadBelow(m.mem, m.regs, r)
  }

  predicate Writes(op: Op, i: nat) {
    match op
    case BuildCons(d, _, _) => d == i
    case BuildTuple(d, _) => d == i
    case Load(d, _, _) => d == i
    case Constant(d, _) => d == i
    case _ => false
  }

  ghost predicate Ok(m: Machine) {
    WellFormed(m.mem, m.hp, m.regs)
  }

  ghost predicate Down(m: Machine) {
    Downward(m.mem, m.hp, m.regs)
  }

  // ---- One operation -------------------------------------------------------------------------

  /** The well-formedness of a heap only depends on which terms are roots. */
  lemma FewerRoots(mem: seq<Word>, hp: nat, roots: seq<Word>, roots': seq<Word>)
    requires forall r :: r in roots' ==> r in roots
    ensures WellFormed(mem, hp, roots) ==> WellFormed(mem, hp, roots')
    ensures Downward(mem, hp, roots) ==> Downward(mem, hp, roots')
  {
    hide FieldsOk, TermOk, Size;
    if own: seq<nat> :| WellFormedBy(mem, hp, roots, own) {
      assert WellFormedBy(mem, hp, roots', own);
    }
    if own: seq<nat> :| WellFormedBy(mem, hp, roots, own) && DownwardBy(mem, own) {
      assert WellFormedBy(mem, hp, roots', own);
    }
  }

  /** A term that is immediate or reached from a root may become a root. */
  lemma MoreRoots(mem: seq<Word>, hp: nat, roots: seq<Word>, w: Word)
    requires !(Tag(w) == SmallInteger || Tag(w) == Atom) ==>
               exists r: Word, path: seq<nat> :: r in roots && Follow(mem, r, path) == Some(w)
    ensures WellFormed(mem, hp, roots) ==> WellFormed(mem, hp, roots + [w])
    ensures Downward(mem, hp, roots) ==> Downward(mem, hp, roots + [w])
  {
    hide Layout, FieldsOk, Follow;
    forall own: seq<nat> | WellFormedBy(mem, hp, roots, own) ensures WellFormedBy(mem, hp, roots + [w], own) {
      if !(Tag(w) == SmallInteger || Tag(w) == Atom) {
        var r: Word, path: seq<nat> :| r in roots && Follow(mem, r, path) == Some(w);
        FollowStaysOk(mem, hp, own, r, path);
      }
    }
  }

  /** Leaving the registers alone is as good as handing back the relocated roots exactly under the guard. */
  lemma InPlaceIsCollectIff(m: Machine, m': Machine)
    requires Ok(m) && m.hp <= |m.mem| && Step(m, CollectInPlace, m')
    ensures Step(m, Collect, m') <==> Guard(m, CollectInPlace)
  {
    hide Collected, WellFormed, NothingDeadBelow;
    var relocated: seq<Word> :| Collected(m.mem, m.hp, m.regs, m'.mem, m'.hp, relocated);
    RootCount(m.mem, m.hp, m.regs, m'.mem, m'.hp, relocated);
    forall i | 0 <= i < |m.regs| ensures relocated[i] == m.regs[i] <==> NothingDeadBelow(m.mem, m.regs, m.regs[i]) {
      OldWordRightIff(m.mem, m.hp, m.regs, m'.mem, m'.hp, relocated, i);
    }
    if Step(m, Collect, m') {
      forall i | 0 <= i < |m.regs| ensures NothingDeadBelow(m.mem, m.regs, m.regs[i]) {
        OldWordRightIff(m.mem, m.hp, m.regs, m'.mem, m'.hp, m'.regs, i);
      }
    }
    if Guard(m, CollectInPlace) {
      assert forall i :: 0 <= i < |m.regs| ==> m.regs[i] in m.regs;
      assert relocated == m.regs;
    }
  }

  lemma {:induction false} StepKeeps(m: Machine, op: Op, m': Machine)
    requires m.hp <= |m.mem| && Step(m, op, m') && Guard(m, op)
    ensures Ok(m) ==> Ok(m')
    ensures Down(m) ==> Down(m')
    decreases op == CollectInPlace
  {
    hide WellFormed, Downward, WithCons, WithTuple, Collected, Follow, Size, Pointer;
    match op {
      case BuildCons(d, h, t) =>
        ConsAdded(m.mem, m.hp, m.regs, m.regs[h], m.regs[t]);
        ObjectKeepsHeap(m.mem, m.hp, m.regs, m'.mem, 3, Cons);
        FewerRoots(m'.mem, m'.hp, m.regs + [Pointer(m.hp, Cons)], m'.regs);
      case BuildTuple(d, es) =>
        TupleAdded(m.mem, m.hp, m.regs, Values(m.regs, es));
        ObjectKeepsHeap(m.mem, m.hp, m.regs, m'.mem, 1 + |es|, Tuple);
        FewerRoots(m'.mem, m'.hp, m.regs + [Pointer(m.hp, Tuple)], m'.regs);
      case Load(d, s, k) =>
        var w := Follow(m.mem, m.regs[s], [k]).value;
        assert m.regs[s] in m.regs;
        MoreRoots(m.mem, m.hp, m.regs, w);
        FewerRoots(m.mem, m.hp, m.regs + [w], m'.regs);
      case Constant(d, v) =>
        MoreRoots(m.mem, m.hp, m.regs, v);
        FewerRoots(m.mem, m.hp, m.regs + [v], m'.regs);
      case Grow(extra) => GrownOk(m, m');
      case Collect =>
        if Ok(m) {
          CollectedWellFormed(m.mem, m.hp, m.regs, m'.mem, m'.hp, m'.regs);
        }
        if Down(m) {
          CollectedDownward(m.mem, m.hp, m.regs, m'.mem, m'.hp, m'.regs);
        }
      case CollectInPlace =>
        DownIsOk(m);
        if Ok(m) {
          InPlaceIsCollectIff(m, m');
          StepKeeps(m, Collect, m');
        }
    }
  }

  lemma DownIsOk(m: Machine)
    ensures Down(m) ==> Ok(m)
  {
  }

  lemma GrownOk(m: Machine, m': Machine)
    requires m.hp <= |m.mem| && m.mem <= m'.mem && m' == m.(mem := m'.mem)
    ensures Ok(m) ==> Ok(m')
    ensures Down(m) ==> Down(m')
  {
    hide Size, Tag;
    forall own: seq<nat> | WellFormedBy(m.mem, m.hp, m.regs, own)
      ensures WellFormedBy(m'.mem, m'.hp, m'.regs, own)
      ensures DownwardBy(m.mem, own) ==> DownwardBy(m'.mem, own)
    {
      forall w | TermOk(m.mem, own, w) ensures TermOk(m'.mem, own, w) {
      }
      forall i | 0 <= i < |own| && own[i] != i ensures TermOk(m'.mem, own, m'.mem[i]) {
        assert TermOk(m.mem, own, m.mem[i]);
      }
    }
  }

  /** What register `i` shows at the end of `path`, before and after: the same immediate or header. */
  ghost predicate SameAt(m: Machine, m': Machine, i: nat, path: seq<nat>) {
    && i < |m.regs| && i < |m'.regs|
    && SameReading(m.mem, Follow(m.mem, m.regs[i], path), m'.mem, Follow(m'.mem, m'.regs[i], path))
  }

  /** Two registers meet at the ends of two paths. */
  ghost predicate Meet(m: Machine, i: nat, path: seq<nat>, j: nat, path': seq<nat>)
    requires i < |m.regs| && j < |m.regs|
  {
    Follow(m.mem, m.regs[i], path) == Follow(m.mem, m.regs[j], path')
  }

  lemma ReadingKept(m: Machine, m': Machine, i: nat, path: seq<nat>)
    requires Ok(m) && AgreeBelow(m.mem, m'.mem, m.hp) && i < |m.regs| && i < |m'.regs| && m'.regs[i] == m.regs[i]
    ensures Follow(m'.mem, m'.regs[i], path) == Follow(m.mem, m.regs[i], path)
    ensures SameAt(m, m', i, path)
  {
    hide Follow, Layout, FieldsOk;
    assert m.regs[i] in m.regs;
    TermsKeepMeaning(m.mem, m.hp, m.regs, m'.mem, m.regs[i], path);
    var own :| WellFormedBy(m.mem, m.hp, m.regs, own);
    FollowStaysOk(m.mem, m.hp, own, m.regs[i], path);
    assert |own| == m.hp by {
      assert Layout(m.mem, m.hp, own);
      LayoutLength(m.mem, m.hp, own);
    }
  }

  lemma StepAgrees(m: Machine, op: Op, m': Machine)
    requires m.hp <= |m.mem| && Step(m, op, m') && op != Collect && op != CollectInPlace
    ensures AgreeBelow(m.mem, m'.mem, m.hp) && |m'.regs| == |m.regs|
    ensures forall i :: 0 <= i < |m.regs| && !Writes(op, i) ==> m'.regs[i] == m.regs[i]
  {
    hide Follow, Pointer, Tag, WithTuple;
    if op.BuildTuple? {
      TupleWords(m.mem, m.hp, Values(m.regs, op.elements));
    }
  }

  lemma {:induction false} StepReads(m: Machine, op: Op, m': Machine, i: nat, path: seq<nat>)
    requires Ok(m) && m.hp <= |m.mem| && Step(m, op, m') && Guard(m, op) && i < |m.regs| && !Writes(op, i)
    ensures |m'.regs| == |m.regs| && SameAt(m, m', i, path)
    decreases op == CollectInPlace
  {
    hide Follow, WellFormed, AgreeBelow, SameReading;
    if op == Collect {
      MeaningPreserved(m.mem, m.hp, m.regs, m'.mem, m'.hp, m'.regs, i, path);
    } else if op == CollectInPlace {
      InPlaceIsCollectIff(m, m');
      StepReads(m, Collect, m', i, path);
    } else {
      StepAgrees(m, op, m');
      ReadingKept(m, m', i, path);
    }
  }

  lemma {:induction false} StepMeets(m: Machine, op: Op, m': Machine, i: nat, path: seq<nat>, j: nat, path': seq<nat>)
    requires Ok(m) && m.hp <= |m.mem| && Step(m, op, m') && Guard(m, op)
    requires i < |m.regs| && j < |m.regs| && !Writes(op, i) && !Writes(op, j)
    ensures |m'.regs| == |m.regs| && (Meet(m, i, path, j, path') <==> Meet(m', i, path, j, path'))
    decreases op == CollectInPlace
  {
    hide Follow, WellFormed, AgreeBelow, SameReading;
    if op == Collect {
      SharingPreserved(m.mem, m.hp, m.regs, m'.mem, m'.hp, m'.regs, i, path, j, path');
    } else if op == CollectInPlace {
      InPlaceIsCollectIff(m, m');
      StepMeets(m, Collect, m', i, path, j, path');
    } else {
      StepAgrees(m, op, m');
      ReadingKept(m, m', i, path);
      ReadingKept(m, m', j, path');
    }
  }

  // ---- Whole runs ----------------------------------------------------------------------------

  /** `ms` are the machines before, between and after the operations. */
  ghost predicate Run(ms: seq<Machine>, ops: seq<Op>)
    requires |ms| == |ops| + 1
  {
    forall k :: 0 <= k < |ops| ==> StepAt(ms, ops, k)
  }

  ghost predicate StepAt(ms: seq<Machine>, ops: seq<Op>, k: nat)
    requires k < |ops| && |ms| == |ops| + 1
  {
    ms[k].hp <= |ms[k].mem| && Step(ms[k], ops[k], ms[k + 1]) && Guard(ms[k], ops[k])
  }

  lemma RunPrefix(ms: seq<Machine>, ops: seq<Op>)
    requires |ms| == |ops| + 1 && Run(ms, ops) && ops != []
    ensures var n := |ops| - 1; Run(ms[..n + 1], ops[..n]) && StepAt(ms, ops, n)
  {
    hide Step, Guard;
    var n := |ops| - 1;
    assert StepAt(ms, ops, n);
    forall k {:trigger StepAt(ms[..n + 1], ops[..n], k)} | 0 <= k < n ensures StepAt(ms[..n + 1], ops[..n], k) {
      assert StepAt(ms, ops, k);
    }
  }

  /** Every reachable heap is well formed, and pointers that only went down still do. */
  lemma {:induction false} RunKeeps(ms: seq<Machine>, ops: seq<Op>)
    requires |ms| == |ops| + 1 && Run(ms, ops)
    ensures Ok(ms[0]) ==> Ok(ms[|ops|])
    ensures Down(ms[0]) ==> Down(ms[|ops|])
    decreases |ops|
  {
    hide Step, Guard, Ok, Down, Run;
    if ops != [] {
      var n := |ops| - 1;
      RunPrefix(ms, ops);
      RunKeeps(ms[..n + 1], ops[..n]);
      StepKeeps(ms[n], ops[n], ms[n + 1]);
    }
  }

  lemma SameTrans(a: Machine, b: Machine, c: Machine, i: nat, path: seq<nat>)
    requires SameAt(a, b, i, path) && SameAt(b, c, i, path)
    ensures SameAt(a, c, i, path)
  {
    hide Follow;
  }

  ghost predicate Unwritten(ops: seq<Op>, i: nat) {
    forall k :: 0 <= k < |ops| ==> !Writes(ops[k], i)
  }

  /**
   A register that no operation of the run writes shows along every path what it showed at the start,
   through any number of allocations, growths and collections.
   */
  lemma {:induction false} RunReads(ms: seq<Machine>, ops: seq<Op>, i: nat, path: seq<nat>)
    requires |ms| == |ops| + 1 && Run(ms, ops) && Ok(ms[0]) && i < |ms[0].regs| && Unwritten(ops, i)
    ensures |ms[|ops|].regs| == |ms[0].regs| && SameAt(ms[0], ms[|ops|], i, path)
    decreases |ops|
  {
    hide Step, Guard, Run, Writes;
    if ops == [] {
      OkReads(ms[0], i, path);
    } else {
      hide Ok, SameAt;
      var n := |ops| - 1;
      RunPrefix(ms, ops);
      RunKeeps(ms[..n + 1], ops[..n]);
      RunReads(ms[..n + 1], ops[..n], i, path);
      StepReads(ms[n], ops[n], ms[n + 1], i, path);
      SameTrans(ms[0], ms[n], ms[n + 1], i, path);
    }
  }

  lemma OkReads(m: Machine, i: nat, path: seq<nat>)
    requires Ok(m) && i < |m.regs|
    ensures SameAt(m, m, i, path)
  {
    hide WellFormed;
    assert AgreeBelow(m.mem, m.mem, m.hp) by {
      HpInside(m);
    }
    ReadingKept(m, m, i, path);
  }

  lemma HpInside(m: Machine)
    requires Ok(m)
    ensures m.hp <= |m.mem|
  {
  }

  /** Two unwritten registers share an object at the end exactly where they shared it at the start. */
  lemma {:induction false} RunMeets(ms: seq<Machine>, ops: seq<Op>, i: nat, path: seq<nat>, j: nat, path': seq<nat>)
    requires |ms| == |ops| + 1 && Run(ms, ops) && Ok(ms[0])
    requires i < |ms[0].regs| && j < |ms[0].regs| && Unwritten(ops, i) && Unwritten(ops, j)
    ensures |ms[|ops|].regs| == |ms[0].regs|
    ensures Meet(ms[0], i, path, j, path') <==> Meet(ms[|ops|], i, path, j, path')
    decreases |ops|
  {
    hide Step, Guard, Run, Writes, Ok, Meet;
    if ops != [] {
      var n := |ops| - 1;
      RunPrefix(ms, ops);
      RunKeeps(ms[..n + 1], ops[..n]);
      RunMeets(ms[..n + 1], ops[..n], i, path, j, path');
      StepMeets(ms[n], ops[n], ms[n + 1], i, path, j, path');
    }
  }

  /** A process starts with an empty heap and immediate registers; its pointers go down for ever after. */
  lemma FreshRunGoesDown(ms: seq<Machine>, ops: seq<Op>)
    requires |ms| == |ops| + 1 && Run(ms, ops) && ms[0].hp == 0
    requires forall r :: r in ms[0].regs ==> !IsPtr(r) && (Tag(r) == SmallInteger || Tag(r) == Atom)
    ensures Down(ms[|ops|])
  {
    hide Step, Guard, Run;
    assert WellFormedBy(ms[0].mem, 0, ms[0].regs, []) && DownwardBy(ms[0].mem, []);
    assert Down(ms[0]);
    RunKeeps(ms, ops);
  }
}
