/** The marking phase: recursive tracing over mark bits that cover one word each. */
module Marking {
  import opened Words
  import opened HeapLayout
  import opened Collection

  class GcMarkBits {
    const marks: array<bool>

    constructor (size: nat)
      ensures fresh(marks) && marks.Length == size
      ensures forall i :: 0 <= i < size ==> !marks[i]
    {
      marks := new bool[size](_ => false);
    }

    function Get(idx: nat): bool
      reads marks
    {
      idx < marks.Length && marks[idx]
    }

    method Set(idx: nat, value: bool)
      modifies marks
      ensures marks[..] == if idx < marks.Length then old(marks[..])[idx := value] else old(marks[..])
    {
      if idx < marks.Length {
        marks[idx] := value;
      }
    }
  }

  ghost predicate Newly(m: seq<bool>, m': seq<bool>, s: nat) {
    s < |m| && s < |m'| && !m[s] && m'[s]
  }

  ghost predicate InRange(mem: seq<Word>, own: seq<nat>, m: seq<bool>, m': seq<bool>) {
    |m| == |m'| == |own| <= |mem| && forall i :: 0 <= i < |own| ==> own[i] < |own|
  }

  /** A word of a newly marked object is marked, and a field of it points at marked objects only. */
  ghost predicate Explained(mem: seq<Word>, own: seq<nat>, m: seq<bool>, m': seq<bool>, i: nat)
    requires InRange(mem, own, m, m') && i < |own|
  {
    if Newly(m, m', own[i]) then m'[i] && (own[i] != i ==> Held(m', mem[i])) else m'[i] == m[i]
  }

  /** Marks only grow, by whole objects, and every new object has all its fields' targets marked. */
  ghost predicate MarkStep(mem: seq<Word>, own: seq<nat>, m: seq<bool>, m': seq<bool>) {
    && InRange(mem, own, m, m')
    && (forall i :: 0 <= i < |m| && m[i] ==> m'[i])
    && (forall i {:trigger Explained(mem, own, m, m', i)} :: 0 <= i < |m| ==> Explained(mem, own, m, m', i))
  }

  /** Everything newly marked is reachable from `w`. */
  ghost predicate NewReached(mem: seq<Word>, own: seq<nat>, m: seq<bool>, m': seq<bool>, w: Word) {
    forall s: nat :: s < |own| && Newly(m, m', own[s]) ==> ReachFrom(mem, w, own[s])
  }

  ghost predicate MarkedFrom(mem: seq<Word>, own: seq<nat>, m: seq<bool>, m': seq<bool>, w: Word) {
    MarkStep(mem, own, m, m') && Held(m', w) && NewReached(mem, own, m, m', w)
  }

  /** Tracing of the object at `p` has finished its fields below `k`. */
  ghost predicate Partial(mem: seq<Word>, own: seq<nat>, m: seq<bool>, m': seq<bool>, p: nat, k: nat) {
    && InRange(mem, own, m, m')
    && p < |own| && p + k <= |own| && !m[p] && m'[p]
    && (forall i :: 0 <= i < |m| && m[i] ==> m'[i])
    && (forall i {:trigger Explained(mem, own, m, m', i)} ::
          0 <= i < |m| && own[i] != p ==> Explained(mem, own, m, m', i))
    && (forall j {:trigger Held(m', mem[j])} :: p < j < p + k ==> Held(m', mem[j]))
  }

  ghost function UnmarkedStarts(own: seq<nat>, m: seq<bool>): set<nat>
    requires |m| == |own|
  {
    set s: nat | s < |own| && own[s] == s && !m[s]
  }

  lemma FewerUnmarked(own: seq<nat>, m: seq<bool>, m': seq<bool>, p: nat)
    requires |m| == |m'| == |own| && p < |own| && own[p] == p && !m[p] && m'[p]
    requires forall i :: 0 <= i < |m| && m[i] ==> m'[i]
    ensures UnmarkedStarts(own, m') < UnmarkedStarts(own, m)
  {
    assert p in UnmarkedStarts(own, m);
  }

  lemma MarkStepRefl(mem: seq<Word>, own: seq<nat>, m: seq<bool>)
    requires InRange(mem, own, m, m)
    ensures MarkStep(mem, own, m, m)
  {
    forall i | 0 <= i < |m| ensures Explained(mem, own, m, m, i) {
    }
  }

  lemma NothingNew(mem: seq<Word>, own: seq<nat>, m: seq<bool>, w: Word)
    ensures NewReached(mem, own, m, m, w)
  {
  }

  /** One more field of the object at `p` has been traced. */
  lemma FieldTraced(mem: seq<Word>, own: seq<nat>, m: seq<bool>, m': seq<bool>, m'': seq<bool>,
                    w: Word, p: nat, k: nat)
    requires Partial(mem, own, m, m', p, k) && NewReached(mem, own, m, m', w)
    requires IsPtr(w) && Addr(w) == p && 1 <= k < Size(mem[p]) && p + Size(mem[p]) <= |own|
    requires MarkedFrom(mem, own, m', m'', mem[p + k])
    ensures Partial(mem, own, m, m'', p, k + 1) && NewReached(mem, own, m, m'', w)
  {
    hide Tag, Size, Addr;
    forall i | 0 <= i < |m| && own[i] != p ensures Explained(mem, own, m, m'', i) {
      assert Explained(mem, own, m, m', i) && Explained(mem, own, m', m'', i);
    }
    forall j | p < j < p + k + 1 ensures Held(m'', mem[j]) {
      if j < p + k {
        assert Held(m', mem[j]);
      }
    }
    forall s: nat | s < |own| && Newly(m, m'', own[s]) ensures ReachFrom(mem, w, own[s]) {
      if !Newly(m, m', own[s]) {
        ReachThroughField(mem, w, k, own[s]);
      }
    }
  }

  lemma ObjectTraced(mem: seq<Word>, hp: nat, own: seq<nat>, m: seq<bool>, m': seq<bool>, p: nat)
    requires Layout(mem, hp, own) && p < hp && own[p] == p
    requires Partial(mem, own, m, m', p, Size(mem[p]))
    requires forall i :: p <= i < p + Size(mem[p]) ==> m'[i]
    ensures MarkStep(mem, own, m, m')
  {
    hide Size, Tag;
    forall i | 0 <= i < |m| && own[i] == p ensures Explained(mem, own, m, m', i) {
      assert p <= i < p + Size(mem[p]);
      if i != p {
        assert Held(m', mem[i]);
      }
    }
  }

  lemma WordMarked(mem: seq<Word>, hp: nat, own: seq<nat>, m: seq<bool>, m': seq<bool>, w: Word, p: nat, k: nat, i: nat)
    requires Layout(mem, hp, own) && Partial(mem, own, m, m', p, k) && NewReached(mem, own, m, m', w)
    requires i < hp && own[i] == p && i != p
    ensures Partial(mem, own, m, m'[i := true], p, k) && NewReached(mem, own, m, m'[i := true], w)
  {
    hide Tag, Size, ReachFrom;
    var m'' := m'[i := true];
    forall n | 0 <= n < hp ensures own[n] != i {
      SameObject(mem, hp, own, n, n);
    }
    forall n | 0 <= n < |m| && own[n] != p ensures Explained(mem, own, m, m'', n) {
      assert Explained(mem, own, m, m', n);
    }
    forall j | p < j < p + k ensures Held(m'', mem[j]) {
      assert Held(m', mem[j]);
    }
  }

  lemma HeaderMarked(mem: seq<Word>, hp: nat, own: seq<nat>, m: seq<bool>, w: Word)
    requires Layout(mem, hp, own) && |m| == hp && IsPtr(w) && Addr(w) < hp && own[Addr(w)] == Addr(w) && !m[Addr(w)]
    ensures Partial(mem, own, m, m[Addr(w) := true], Addr(w), 1) && NewReached(mem, own, m, m[Addr(w) := true], w)
  {
    hide Tag, Size;
    var p := Addr(w);
    var m' := m[p := true];
    forall n | 0 <= n < |m| && own[n] != p ensures Explained(mem, own, m, m', n) {
    }
    ReachSelf(mem, w);
  }

  /**
   Trace `term` and mark, word by word, every object it reaches that is not marked yet. It terminates
   on cyclic heaps because each object traced leaves fewer unmarked object starts.
   */
  method MarkTermGc(term: Word, bits: GcMarkBits, fromSpace: seq<Word>, ghost own: seq<nat>)
    requires Layout(fromSpace, bits.marks.Length, own) && FieldsOk(fromSpace, own) && TermOk(fromSpace, own, term)
    modifies bits.marks
    ensures MarkedFrom(fromSpace, own, old(bits.marks[..]), bits.marks[..], term)
    decreases UnmarkedStarts(own, bits.marks[..]), 1
  {
    match Tag(term)
    case SmallInteger | Atom =>
      MarkStepRefl(fromSpace, own, bits.marks[..]);
    case Cons => MarkCons(term, bits, fromSpace, own);
    case Tuple => MarkTuple(term, bits, fromSpace, own);
  }

  lemma ObjectUnder(mem: seq<Word>, hp: nat, own: seq<nat>, w: Word)
    requires Layout(mem, hp, own) && TermOk(mem, own, w) && IsPtr(w)
    ensures var p := Addr(w);
            && p < hp == |own| <= |mem| && Tag(mem[p]) == Tag(w) && 1 <= Size(mem[p]) && p + Size(mem[p]) <= hp
            && (forall i :: 0 <= i < hp ==> own[i] < hp)
            && (forall i :: p <= i < p + Size(mem[p]) ==> own[i] == p)
  {
    assert own[Addr(w)] == Addr(w);
  }

  method MarkCons(term: Word, bits: GcMarkBits, fromSpace: seq<Word>, ghost own: seq<nat>)
    requires Layout(fromSpace, bits.marks.Length, own) && FieldsOk(fromSpace, own) && TermOk(fromSpace, own, term)
    requires Tag(term) == Cons
    modifies bits.marks
    ensures MarkedFrom(fromSpace, own, old(bits.marks[..]), bits.marks[..], term)
    decreases UnmarkedStarts(own, bits.marks[..]), 0, 1
  {
    hide Tag, Layout, FieldsOk, Partial, MarkStep, NewReached, TermOk;
    ghost var m, hp, p := bits.marks[..], bits.marks.Length, Addr(term);
    ObjectUnder(fromSpace, hp, own, term);
    var ptr := Addr(term);
    if ptr < |fromSpace| && !bits.Get(ptr) {
      HeaderMarked(fromSpace, hp, own, m, term);
      bits.Set(ptr, true);
      WordMarked(fromSpace, hp, own, m, bits.marks[..], term, p, 1, p + 1);
      if ptr + 1 < |fromSpace| {
        bits.Set(ptr + 1, true);
      }
      WordMarked(fromSpace, hp, own, m, bits.marks[..], term, p, 1, p + 2);
      if ptr + 2 < |fromSpace| {
        bits.Set(ptr + 2, true);
      }
      assert bits.marks[p] && bits.marks[p + 1] && bits.marks[p + 2];
      MarkField(term, bits, fromSpace, own, m, 1);
      MarkField(term, bits, fromSpace, own, m, 2);
      ObjectTraced(fromSpace, hp, own, m, bits.marks[..], p);
    } else {
      MarkStepRefl(fromSpace, own, m);
      NothingNew(fromSpace, own, m, term);
    }
  }

  method MarkTuple(term: Word, bits: GcMarkBits, fromSpace: seq<Word>, ghost own: seq<nat>)
    requires Layout(fromSpace, bits.marks.Length, own) && FieldsOk(fromSpace, own) && TermOk(fromSpace, own, term)
    requires Tag(term) == Tuple
    modifies bits.marks
    ensures MarkedFrom(fromSpace, own, old(bits.marks[..]), bits.marks[..], term)
    decreases UnmarkedStarts(own, bits.marks[..]), 0, 1
  {
    hide Tag, Layout, FieldsOk, Partial, MarkStep, NewReached, TermOk;
    ghost var m, hp, p := bits.marks[..], bits.marks.Length, Addr(term);
    ObjectUnder(fromSpace, hp, own, term);
    var ptr := Addr(term);
    if ptr < |fromSpace| && !bits.Get(ptr) {
      HeaderMarked(fromSpace, hp, own, m, term);
      bits.Set(ptr, true);
      var size := SizeField(fromSpace[ptr]);
      for i := 1 to size
        invariant Partial(fromSpace, own, m, bits.marks[..], p, i)
        invariant NewReached(fromSpace, own, m, bits.marks[..], term)
        invariant forall j :: p <= j < p + i ==> bits.marks[j]
      {
        if ptr + i < |fromSpace| {
          WordMarked(fromSpace, hp, own, m, bits.marks[..], term, p, i, p + i);
          bits.Set(ptr + i, true);
          MarkField(term, bits, fromSpace, own, m, i);
        }
      }
      ObjectTraced(fromSpace, hp, own, m, bits.marks[..], p);
    } else {
      MarkStepRefl(fromSpace, own, m);
      NothingNew(fromSpace, own, m, term);
    }
  }

  /** Trace field `k` of the object under `term`, whose header was unmarked in `m`. */
  method MarkField(term: Word, bits: GcMarkBits, fromSpace: seq<Word>, ghost own: seq<nat>, ghost m: seq<bool>, k: nat)
    requires Layout(fromSpace, bits.marks.Length, own) && FieldsOk(fromSpace, own) && TermOk(fromSpace, own, term)
    requires IsPtr(term) && 1 <= k < Size(fromSpace[Addr(term)])
    requires Partial(fromSpace, own, m, bits.marks[..], Addr(term), k)
    requires NewReached(fromSpace, own, m, bits.marks[..], term)
    modifies bits.marks
    ensures Partial(fromSpace, own, m, bits.marks[..], Addr(term), k + 1)
    ensures NewReached(fromSpace, own, m, bits.marks[..], term)
    ensures forall i :: 0 <= i < bits.marks.Length && old(bits.marks[i]) ==> bits.marks[i]
    decreases UnmarkedStarts(own, m), 0, 0
  {
    hide Tag, Size;
    ghost var p, m' := Addr(term), bits.marks[..];
    SameObject(fromSpace, bits.marks.Length, own, p, p + k);
    FewerUnmarked(own, m, m', p);
    assert TermOk(fromSpace, own, fromSpace[p + k]);
    MarkTermGc(fromSpace[Addr(term) + k], bits, fromSpace, own);
    FieldTraced(fromSpace, own, m, m', bits.marks[..], term, p, k);
    assert forall i :: 0 <= i < |m'| && m'[i] ==> bits.marks[..][i];
  }
}
