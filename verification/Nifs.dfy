/** The tuple and list functions of the `erlang` NIF library, over the mutable process heap. */
module Nifs {
  import opened Wrappers
  import opened Words
  import opened HeapLayout
  import opened Collection
  import opened ProcessHeaps
  import opened HeapGrowth

  datatype NifError = BadArg | SystemLimit

  type NifResult = Result<Word, NifError>

  // ---- Reading tuples and lists --------------------------------------------------------------

  function ArityField(header: Word): nat {
    if SizeField(header) == 0 then 0 else SizeField(header) - 1
  }

  /** The elements of the tuple at `ptr`, when header and elements lie inside the buffer. */
  function TupleElements(mem: seq<Word>, ptr: nat): Option<seq<Word>> {
    if ptr >= |mem| then None
    else
      var arity := ArityField(mem[ptr]);
      if ptr + 1 + arity <= |mem| then Some(mem[ptr + 1..ptr + 1 + arity]) else None
  }

  method ReadElements(heap: ProcessHeap, ptr: nat, arity: nat) returns (r: Option<seq<Word>>)
    requires heap.Valid()
    ensures r == (if arity == 0 || ptr + 1 + arity <= |heap.Mem()|
                  then Some(if arity == 0 then [] else heap.Mem()[ptr + 1..ptr + 1 + arity]) else None)
  {
    var elements := [];
    for i := 0 to arity
      invariant |elements| == i
      invariant i > 0 ==> ptr + 1 + i <= |heap.Mem()| && elements == heap.Mem()[ptr + 1..ptr + 1 + i]
    {
      var w := heap.GetWord(ptr + 1 + i);
      if w.None? {
        return None;
      }
      elements := elements + [w.value];
    }
    r := Some(elements);
  }

  /** The word `w` is a proper list of `elems` whose cells all lie below `hp`. */
  ghost predicate IsList(mem: seq<Word>, hp: nat, w: Word, elems: seq<Word>)
    requires hp <= |mem|
    decreases |elems|
  {
    if elems == [] then w == NIL
    else
      && Tag(w) == Cons && Addr(w) + 2 < hp && mem[Addr(w) + 1] == elems[0]
      && IsList(mem, hp, mem[Addr(w) + 2], elems[1..])
  }

  /** A walk along the tails from `w` stops within `n` cells. */
  predicate WalkEnds(mem: seq<Word>, w: Word, n: nat)
    decreases n
  {
    Tag(w) == Cons && Addr(w) + 2 < |mem| ==> n > 0 && WalkEnds(mem, mem[Addr(w) + 2], n - 1)
  }

  /** What the walk collects; `None` when it meets a term that is neither a cell nor nil. */
  function ListElements(mem: seq<Word>, w: Word, n: nat): Option<seq<Word>>
    requires WalkEnds(mem, w, n)
    decreases n
  {
    if w == NIL then Some([])
    else if Tag(w) != Cons || Addr(w) + 2 >= |mem| then None
    else
      match ListElements(mem, mem[Addr(w) + 2], n - 1)
      case None => None
      case Some(rest) => Some([mem[Addr(w) + 1]] + rest)
  }

  lemma {:induction false} WalkOfList(mem: seq<Word>, hp: nat, w: Word, elems: seq<Word>)
    requires hp <= |mem| && IsList(mem, hp, w, elems)
    ensures WalkEnds(mem, w, |elems|) && ListElements(mem, w, |elems|) == Some(elems)
    decreases |elems|
  {
    if elems != [] {
      WalkOfList(mem, hp, mem[Addr(w) + 2], elems[1..]);
      assert [elems[0]] + elems[1..] == elems;
    }
  }

  lemma {:induction false} ListUnchanged(mem: seq<Word>, hp: nat, mem': seq<Word>, hp': nat, w: Word, elems: seq<Word>)
    requires AgreeBelow(mem, mem', hp) && hp <= hp' <= |mem'| && IsList(mem, hp, w, elems)
    ensures IsList(mem', hp', w, elems)
    decreases |elems|
  {
    if elems != [] {
      ListUnchanged(mem, hp, mem', hp', mem[Addr(w) + 2], elems[1..]);
    }
  }

  /** On a heap whose pointers go down, every walk over tails ends: addresses strictly fall. */
  lemma {:induction false} DownwardWalkEnds(mem: seq<Word>, hp: nat, roots: seq<Word>, own: seq<nat>, w: Word)
    requires WellFormedBy(mem, hp, roots, own) && DownwardBy(mem, own) && TermOk(mem, own, w)
    ensures WalkEnds(mem, w, Addr(w) + 1)
    decreases Addr(w)
  {
    if Tag(w) == Cons {
      var p := Addr(w);
      assert own[p] == p;
      SameObject(mem, hp, own, p, p + 2);
      assert TermOk(mem, own, mem[p + 2]);
      var t := mem[p + 2];
      if Tag(t) == Cons {
        DownwardWalkEnds(mem, hp, roots, own, t);
        WalkEndsLater(mem, t, Addr(t) + 1, p);
      }
    }
  }

  lemma {:induction false} WalkEndsLater(mem: seq<Word>, w: Word, n: nat, m: nat)
    requires WalkEnds(mem, w, n) && n <= m
    ensures WalkEnds(mem, w, m)
    decreases n
  {
    if Tag(w) == Cons && Addr(w) + 2 < |mem| {
      WalkEndsLater(mem, mem[Addr(w) + 2], n - 1, m - 1);
    }
  }

  lemma ListWalkTerminates(mem: seq<Word>, hp: nat, roots: seq<Word>, w: Word)
    requires Downward(mem, hp, roots) && w in roots
    ensures exists n: nat :: WalkEnds(mem, w, n)
  {
    var own :| WellFormedBy(mem, hp, roots, own) && DownwardBy(mem, own);
    DownwardWalkEnds(mem, hp, roots, own, w);
  }

  /** It still ends after a collection, from the relocated root. */
  lemma ListWalkTerminatesAfterGc(mem: seq<Word>, hp: nat, roots: seq<Word>,
                                  mem': seq<Word>, hp': nat, roots': seq<Word>, i: nat)
    requires Downward(mem, hp, roots) && Collected(mem, hp, roots, mem', hp', roots') && i < |roots|
    ensures exists n: nat :: WalkEnds(mem', roots'[i], n)
  {
    CollectedDownward(mem, hp, roots, mem', hp', roots');
    ListWalkTerminates(mem', hp', roots', roots'[i]);
  }

  // ---- When a walk ends at all -----------------------------------------------------------------

  /** The addresses of the cells a walk visits. */
  function Visited(mem: seq<Word>, w: Word, n: nat): set<nat>
    requires WalkEnds(mem, w, n)
    decreases n
  {
    if Tag(w) == Cons && Addr(w) + 2 < |mem| then {Addr(w)} + Visited(mem, mem[Addr(w) + 2], n - 1) else {}
  }

  lemma {:induction false} VisitedEndsSooner(mem: seq<Word>, w: Word, n: nat, a: nat)
    requires WalkEnds(mem, w, n) && a in Visited(mem, w, n)
    ensures n > 0 && a + 2 < |mem| && WalkEnds(mem, mem[a + 2], n - 1)
    decreases n
  {
    if a != Addr(w) {
      VisitedEndsSooner(mem, mem[Addr(w) + 2], n - 1, a);
      WalkEndsLater(mem, mem[a + 2], n - 2, n - 1);
    }
  }

  /** A walk of least length never comes back to a cell. */
  lemma {:induction false} LeastWalkVisits(mem: seq<Word>, w: Word, n: nat)
    requires WalkEnds(mem, w, n) && (n > 0 ==> !WalkEnds(mem, w, n - 1))
    ensures |Visited(mem, w, n)| == n && forall a :: a in Visited(mem, w, n) ==> a < |mem|
    decreases n
  {
    hide Tag, Addr;
    if n > 0 {
      var t := mem[Addr(w) + 2];
      assert WalkEnds(mem, t, n - 1) && Visited(mem, w, n) == {Addr(w)} + Visited(mem, t, n - 1);
      LeastWalkVisits(mem, t, n - 1);
      if Addr(w) in Visited(mem, t, n - 1) {
        VisitedEndsSooner(mem, t, n - 1, Addr(w));
      }
    }
  }

  lemma {:induction false} LeastWalk(mem: seq<Word>, w: Word, n: nat) returns (k: nat)
    requires WalkEnds(mem, w, n)
    ensures k <= n && WalkEnds(mem, w, k) && (k > 0 ==> !WalkEnds(mem, w, k - 1))
    decreases n
  {
    if n > 0 && WalkEnds(mem, w, n - 1) {
      k := LeastWalk(mem, w, n - 1);
    } else {
      k := n;
    }
  }

  lemma {:induction false} BelowCount(s: set<nat>, n: nat)
    requires forall a :: a in s ==> a < n
    ensures |s| <= n
    decreases n
  {
    if n == 0 {
      assert s == {};
    } else {
      BelowCount(s - {n - 1}, n - 1);
      assert s <= (s - {n - 1}) + {n - 1};
    }
  }

  /** `list_to_tuple` returns exactly when its walk is over after as many cells as the heap has words. */
  lemma WalkEndsIff(mem: seq<Word>, w: Word)
    ensures (exists n: nat :: WalkEnds(mem, w, n)) <==> WalkEnds(mem, w, |mem|)
  {
    if n: nat :| WalkEnds(mem, w, n) {
      var k := LeastWalk(mem, w, n);
      LeastWalkVisits(mem, w, k);
      BelowCount(Visited(mem, w, k), |mem|);
      WalkEndsLater(mem, w, k, |mem|);
    }
  }

  /** The address of the `k`-th cell on the tail chain, if the chain goes that far. */
  function CellAt(mem: seq<Word>, w: Word, k: nat): (a: Option<nat>)
    ensures a.Some? ==> a.value + 2 < |mem|
    decreases k
  {
    if Tag(w) != Cons || Addr(w) + 2 >= |mem| then None
    else if k == 0 then Some(Addr(w))
    else CellAt(mem, mem[Addr(w) + 2], k - 1)
  }

  /** The chain comes back to a cell it has been at. */
  ghost predicate ComesBack(mem: seq<Word>, w: Word) {
    exists i: nat, j: nat :: i < j && SameCell(mem, w, i, j)
  }

  predicate SameCell(mem: seq<Word>, w: Word, i: nat, j: nat) {
    CellAt(mem, w, i).Some? && CellAt(mem, w, i) == CellAt(mem, w, j)
  }

  /** From the `k`-th cell of an ending walk `k` fewer steps are left. */
  lemma {:induction false} RestEnds(mem: seq<Word>, w: Word, n: nat, k: nat)
    requires WalkEnds(mem, w, n) && CellAt(mem, w, k).Some?
    ensures k < n && WalkEnds(mem, mem[CellAt(mem, w, k).value + 2], n - k - 1)
    decreases k
  {
    if k > 0 {
      RestEnds(mem, mem[Addr(w) + 2], n - 1, k - 1);
    }
  }

  /** Conversely, when the rest after the `k`-th cell ends, the whole walk does. */
  lemma {:induction false} EndsByRest(mem: seq<Word>, w: Word, n: nat, k: nat)
    requires CellAt(mem, w, k).Some? && WalkEnds(mem, mem[CellAt(mem, w, k).value + 2], n)
    ensures WalkEnds(mem, w, n + k + 1)
    decreases k
  {
    if k > 0 {
      EndsByRest(mem, mem[Addr(w) + 2], n, k - 1);
    }
  }

  /** Coming back to a cell would let an ending walk end sooner, again and again. */
  lemma {:induction false} EndingNeverComesBack(mem: seq<Word>, w: Word, n: nat, i: nat, j: nat)
    requires WalkEnds(mem, w, n) && i < j
    ensures !SameCell(mem, w, i, j)
    decreases n
  {
    if SameCell(mem, w, i, j) {
      RestEnds(mem, w, n, j);
      EndsByRest(mem, w, n - j - 1, i);
      EndingNeverComesBack(mem, w, n - j + i, i, j);
    }
  }

  /** The addresses of the first `n` cells. */
  function Cells(mem: seq<Word>, w: Word, n: nat): set<nat> {
    set k | 0 <= k < n && CellAt(mem, w, k).Some? :: CellAt(mem, w, k).value
  }

  lemma {:induction false} DistinctCells(mem: seq<Word>, w: Word, n: nat)
    requires !ComesBack(mem, w) && forall k :: 0 <= k < n ==> CellAt(mem, w, k).Some?
    ensures |Cells(mem, w, n)| == n
    decreases n
  {
    if n > 0 {
      DistinctCells(mem, w, n - 1);
      var a := CellAt(mem, w, n - 1).value;
      assert Cells(mem, w, n) == Cells(mem, w, n - 1) + {a};
      if a in Cells(mem, w, n - 1) {
        var k :| 0 <= k < n - 1 && CellAt(mem, w, k).Some? && CellAt(mem, w, k).value == a;
        assert SameCell(mem, w, k, n - 1);
      }
    }
  }

  /** A walk that is not over after `n` cells has that many. */
  lemma {:induction false} LongChain(mem: seq<Word>, w: Word, n: nat)
    requires !WalkEnds(mem, w, n)
    ensures forall k :: 0 <= k <= n ==> CellAt(mem, w, k).Some?
    decreases n
  {
    if n > 0 {
      LongChain(mem, mem[Addr(w) + 2], n - 1);
      assert forall k :: 1 <= k <= n ==> CellAt(mem, w, k) == CellAt(mem, mem[Addr(w) + 2], k - 1);
    }
  }

  /** `list_to_tuple` returns exactly for lists whose tail chain never comes back to one of its cells. */
  lemma WalkEndsIffAcyclic(mem: seq<Word>, w: Word)
    ensures (exists n: nat :: WalkEnds(mem, w, n)) <==> !ComesBack(mem, w)
  {
    WalkEndsIff(mem, w);
    if WalkEnds(mem, w, |mem|) {
      EndingIsAcyclic(mem, w, |mem|);
    } else if !ComesBack(mem, w) {
      AcyclicEnds(mem, w);
    }
  }

  lemma EndingIsAcyclic(mem: seq<Word>, w: Word, n: nat)
    requires WalkEnds(mem, w, n)
    ensures !ComesBack(mem, w)
  {
    forall i: nat, j: nat | i < j ensures !SameCell(mem, w, i, j) {
      EndingNeverComesBack(mem, w, n, i, j);
    }
  }

  lemma AcyclicEnds(mem: seq<Word>, w: Word)
    requires !ComesBack(mem, w)
    ensures WalkEnds(mem, w, |mem|)
  {
    hide ComesBack;
    if !WalkEnds(mem, w, |mem|) {
      LongChain(mem, w, |mem|);
      DistinctCells(mem, w, |mem| + 1);
      BelowCount(Cells(mem, w, |mem| + 1), |mem|);
    }
  }

  /** A cell that is its own tail is walked for ever. */
  lemma {:induction false} SelfTailNeverEnds(n: nat)
    ensures !WalkEnds([CONS_HEADER, NIL, Pointer(0, Cons)], Pointer(0, Cons), n)
    decreases n
  {
    if n > 0 {
      SelfTailNeverEnds(n - 1);
    }
  }

  // ---- tuple_to_list ---------------------------------------------------------------------------

  datatype Built = Built(term: Option<Word>, mem: seq<Word>, hp: nat)

  /** Prepend `elems` to `tail`, last element first, one fresh cell each, until space runs out. */
  function BuildList(mem: seq<Word>, hp: nat, elems: seq<Word>, tail: Word): (b: Built)
    ensures |b.mem| == |mem|
    decreases |elems|
  {
    if elems == [] then Built(Some(tail), mem, hp)
    else if hp + 3 <= |mem| then
      var n := |elems| - 1;
      BuildList(WithCons(mem, hp, elems[n], tail), hp + 3, elems[..n], Pointer(hp, Cons))
    else Built(None, mem, hp)
  }

  lemma {:induction false} BuildListSpec(mem: seq<Word>, hp: nat, elems: seq<Word>, tail: Word, done: seq<Word>)
    requires hp <= |mem| < MAX_WORDS && IsList(mem, hp, tail, done)
    ensures var b := BuildList(mem, hp, elems, tail);
            && hp <= b.hp <= |mem| && AgreeBelow(mem, b.mem, hp)
            && (b.term.Some? <==> hp + 3 * |elems| <= |mem|)
            && (b.term.None? ==> b.hp == hp + (|mem| - hp) / 3 * 3)
            && (b.term.Some? ==> b.hp == hp + 3 * |elems| && IsList(b.mem, b.hp, b.term.value, elems + done))
    decreases |elems|
  {
    hide Pointer, WithCons;
    if elems == [] {
      assert elems + done == done;
    } else if hp + 3 <= |mem| {
      var n := |elems| - 1;
      var mem' := WithCons(mem, hp, elems[n], tail);
      ConsPrepended(mem, hp, elems[n], tail, done);
      BuildListSpec(mem', hp + 3, elems[..n], Pointer(hp, Cons), [elems[n]] + done);
      assert elems[..n] + ([elems[n]] + done) == elems + done;
    }
  }

  lemma ConsPrepended(mem: seq<Word>, hp: nat, head: Word, tail: Word, done: seq<Word>)
    requires hp + 3 <= |mem| < MAX_WORDS && IsList(mem, hp, tail, done)
    ensures var mem' := WithCons(mem, hp, head, tail);
            AgreeBelow(mem, mem', hp) && |mem'| == |mem| && IsList(mem', hp + 3, Pointer(hp, Cons), [head] + done)
  {
    var mem' := WithCons(mem, hp, head, tail);
    PointerParts(hp, Cons);
    ListUnchanged(mem, hp, mem', hp + 3, tail, done);
    assert ([head] + done)[1..] == done;
  }

  method TupleToList(heap: ProcessHeap?, args: seq<Word>) returns (r: NifResult)
    requires heap != null ==> heap.Valid()
    modifies if heap != null then {heap, heap.ActiveBuffer()} else {}
    ensures heap != null ==> heap.Valid() && heap.hend == old(heap.hend)
    ensures |args| != 1 || heap == null || Tag(args[0]) != Tuple ==> r == Err(BadArg)
    ensures heap != null && r == Err(BadArg) ==> heap.Mem() == old(heap.Mem()) && heap.hp == old(heap.hp)
    ensures heap != null && |args| == 1 && Tag(args[0]) == Tuple ==>
              match TupleElements(old(heap.Mem()), Addr(args[0]))
              case None => r == Err(BadArg)
              case Some(elements) =>
                var b := BuildList(old(heap.Mem()), old(heap.hp), elements, NIL);
                && heap.Mem() == b.mem && heap.hp == b.hp
                && r == (match b.term case Some(w) => Ok(w) case None => Err(SystemLimit))
  {
    hide SizeField, WithCons, BuildList, Tag;
    if |args| != 1 || Tag(args[0]) != Tuple || heap == null {
      return Err(BadArg);
    }
    var ptr := Addr(args[0]);
    var header := heap.GetWord(ptr);
    if header.None? {
      return Err(BadArg);
    }
    var elements := ReadElements(heap, ptr, ArityField(header.value));
    if elements.None? {
      return Err(BadArg);
    }
    assert elements.value == heap.Mem()[ptr + 1..ptr + 1 + |elements.value|];
    r := ConsAll(heap, elements.value);
  }

  method ConsAll(heap: ProcessHeap, elements: seq<Word>) returns (r: NifResult)
    requires heap.Valid()
    modifies heap, heap.ActiveBuffer()
    ensures heap.Valid() && heap.hend == old(heap.hend) && heap.ActiveBuffer() == old(heap.ActiveBuffer())
    ensures var b := BuildList(old(heap.Mem()), old(heap.hp), elements, NIL);
            && heap.Mem() == b.mem && heap.hp == b.hp
            && r == match b.term case Some(w) => Ok(w) case None => Err(SystemLimit)
  {
    hide WithCons;
    var list := NIL;
    var i := |elements|;
    ghost var b := BuildList(heap.Mem(), heap.hp, elements, NIL);
    assert elements[..|elements|] == elements;
    while i > 0
      invariant 0 <= i <= |elements| && heap.Valid()
      invariant heap.hend == old(heap.hend) && heap.ActiveBuffer() == old(heap.ActiveBuffer())
      invariant BuildList(heap.Mem(), heap.hp, elements[..i], list) == b
    {
      i := i - 1;
      assert elements[..i + 1][..i] == elements[..i];
      var pos := heap.MakeCons(elements[i], list);
      if pos.None? {
        return Err(SystemLimit);
      }
      list := Pointer(pos.value, Cons);
    }
    r := Ok(list);
  }

  // ---- list_to_tuple ---------------------------------------------------------------------------

  /** First pass: count the cells, rejecting improper lists. */
  method CountCells(heap: ProcessHeap, list: Word, ghost n: nat) returns (count: Option<nat>)
    requires heap.Valid() && WalkEnds(heap.Mem(), list, n)
    ensures match ListElements(heap.Mem(), list, n)
            case None => count == None
            case Some(elements) => count == Some(|elements|)
  {
    var current, c := list, 0;
    ghost var k, whole := n, ListElements(heap.Mem(), list, n);
    while current != NIL
      invariant 0 <= k <= n && WalkEnds(heap.Mem(), current, k)
      invariant match ListElements(heap.Mem(), current, k)
                case None => whole == None
                case Some(rest) => whole.Some? && |whole.value| == c + |rest|
      decreases k
    {
      if Tag(current) != Cons {
        return None;
      }
      c := c + 1;
      var tl := heap.GetWord(Addr(current) + 2);
      if tl.None? {
        return None;
      }
      current := tl.value;
      k := k - 1;
    }
    count := Some(c);
  }

  /** Second pass: collect the heads. */
  method CollectHeads(heap: ProcessHeap, list: Word, ghost n: nat) returns (elements: seq<Word>)
    requires heap.Valid() && WalkEnds(heap.Mem(), list, n) && ListElements(heap.Mem(), list, n).Some?
    ensures Some(elements) == ListElements(heap.Mem(), list, n)
  {
    var current := list;
    elements := [];
    ghost var k, whole := n, ListElements(heap.Mem(), list, n).value;
    while current != NIL
      invariant 0 <= k <= n && WalkEnds(heap.Mem(), current, k)
      invariant ListElements(heap.Mem(), current, k).Some?
      invariant elements + ListElements(heap.Mem(), current, k).value == whole
      decreases k
    {
      var hd := heap.GetWord(Addr(current) + 1);
      elements := elements + [hd.value];
      var tl := heap.GetWord(Addr(current) + 2);
      current := tl.value;
      k := k - 1;
    }
    assert elements + [] == elements;
  }

  /** The tuple allocated for `elements`, or the state unchanged when it does not fit. */
  function BuildTuple(mem: seq<Word>, hp: nat, elements: seq<Word>): Built {
    var words := 1 + |elements| % TWO_32;
    if hp + words <= |mem| then Built(Some(Pointer(hp, Tuple)), WithTuple(mem, hp, elements), hp + words)
    else Built(None, mem, hp)
  }

  /** The walk has to end for the original to return at all; `n` witnesses that it does. */
  method ListToTuple(heap: ProcessHeap?, args: seq<Word>, ghost n: nat) returns (r: NifResult)
    requires heap != null ==> heap.Valid()
    requires heap != null && |args| == 1 ==> WalkEnds(heap.Mem(), args[0], n)
    modifies if heap != null then {heap, heap.ActiveBuffer()} else {}
    ensures heap != null ==> heap.Valid() && heap.hend == old(heap.hend)
    ensures |args| != 1 || heap == null ==> r == Err(BadArg)
    ensures heap != null && r.Err? ==> heap.Mem() == old(heap.Mem()) && heap.hp == old(heap.hp)
    ensures heap != null && |args| == 1 ==>
              match ListElements(old(heap.Mem()), args[0], n)
              case None => r == Err(BadArg)
              case Some(elements) =>
                var b := BuildTuple(old(heap.Mem()), old(heap.hp), elements);
                && heap.Mem() == b.mem && heap.hp == b.hp
                && r == (match b.term case Some(w) => Ok(w) case None => Err(SystemLimit))
  {
    if |args| != 1 || (Tag(args[0]) != Cons && args[0] != NIL) || heap == null {
      return Err(BadArg);
    }
    var elements := [];
    if args[0] != NIL {
      var count := CountCells(heap, args[0], n);
      if count.None? {
        return Err(BadArg);
      }
      elements := CollectHeads(heap, args[0], n);
    }
    var pos := heap.MakeTuple(elements);
    if pos.None? {
      return Err(SystemLimit);
    }
    r := Ok(Pointer(pos.value, Tuple));
  }

  /**
   `list_to_tuple(tuple_to_list(t))` has exactly the elements of `t`, for every arity a header can
   hold, whenever both calls find space; nothing below the old heap pointer changes on the way.
   */
  lemma TupleListRoundTrip(mem: seq<Word>, hp: nat, t: Word)
    requires hp <= |mem| < MAX_WORDS && TupleElements(mem, Addr(t)).Some?
    ensures var elements := TupleElements(mem, Addr(t)).value;
            var b := BuildList(mem, hp, elements, NIL);
            && AgreeBelow(mem, b.mem, hp)
            && (b.term.Some? <==> hp + 3 * |elements| <= |mem|)
            && (b.term.Some? ==>
                  && WalkEnds(b.mem, b.term.value, |elements|)
                  && ListElements(b.mem, b.term.value, |elements|) == Some(elements)
                  && var c := BuildTuple(b.mem, b.hp, elements);
                     && AgreeBelow(mem, c.mem, hp)
                     && (c.term.Some? <==> b.hp + 1 + |elements| <= |mem|)
                     && (c.term.Some? ==> TupleElements(c.mem, Addr(c.term.value)) == Some(elements)))
  {
    hide TupleHeader, SizeField;
    var elements := TupleElements(mem, Addr(t)).value;
    SizeFieldBound(mem[Addr(t)]);
    assert |elements| % TWO_32 == |elements|;
    BuildListSpec(mem, hp, elements, NIL, []);
    var b := BuildList(mem, hp, elements, NIL);
    assert elements + [] == elements;
    if b.term.Some? {
      WalkOfList(b.mem, b.hp, b.term.value, elements);
      BuildTupleElements(b.mem, b.hp, elements);
    }
  }

  lemma SizeFieldBound(h: Word)
    ensures SizeField(h) < 0x100_0000
  {
  }

  lemma BuildTupleElements(mem: seq<Word>, hp: nat, elements: seq<Word>)
    requires hp <= |mem| < MAX_WORDS && 1 + |elements| < 0x100_0000
    ensures var c := BuildTuple(mem, hp, elements);
            && AgreeBelow(mem, c.mem, hp)
            && (c.term.Some? <==> hp + 1 + |elements| <= |mem|)
            && (c.term.Some? ==> TupleElements(c.mem, Addr(c.term.value)) == Some(elements))
  {
    var c := BuildTuple(mem, hp, elements);
    if c.term.Some? {
      TupleHeaderSize(|elements|);
      TupleWords(mem, hp, elements);
      PointerParts(hp, Tuple);
      assert c.mem[hp + 1..hp + 1 + |elements|] == elements;
    }
  }

  // ---- setelement ------------------------------------------------------------------------------

  /** What the implementation accepts: the index is cut to 32 bits before the range test. */
  function ReplaceIndex(index: Word, arity: nat): Option<nat> {
    if Tag(index) != SmallInteger || ToSmall(index) < 1 then None
    else
      var k := ToSmall(index) % TWO_32;
      if 1 <= k <= arity then Some(k - 1) else None
  }

  /** `setelement` on a tuple term, as a function of the heap. */
  function SetElementIn(mem: seq<Word>, hp: nat, index: Word, tuple: Word, value: Word): (NifResult, seq<Word>, nat) {
    match TupleElements(mem, Addr(tuple))
    case None => (Err(BadArg), mem, hp)
    case Some(elements) =>
      match ReplaceIndex(index, |elements|)
      case None => (Err(BadArg), mem, hp)
      case Some(k) =>
        var b := BuildTuple(mem, hp, elements[k := value]);
        (match b.term case Some(w) => Ok(w) case None => Err(SystemLimit), b.mem, b.hp)
  }

  /** When it succeeds the new tuple has the old elements but for one, and the old words stay. */
  lemma SetElementCopies(mem: seq<Word>, hp: nat, index: Word, tuple: Word, value: Word)
    requires hp <= |mem| < MAX_WORDS && SetElementIn(mem, hp, index, tuple, value).0.Ok?
    ensures var (r, mem', hp') := SetElementIn(mem, hp, index, tuple, value);
            && TupleElements(mem, Addr(tuple)).Some?
            && var elements := TupleElements(mem, Addr(tuple)).value;
               && ReplaceIndex(index, |elements|).Some? && AgreeBelow(mem, mem', hp)
               && TupleElements(mem', Addr(r.value)) == Some(elements[ReplaceIndex(index, |elements|).value := value])
  {
    hide SizeField, TupleHeader, ToSmall, WithTuple;
    var elements := TupleElements(mem, Addr(tuple)).value;
    SizeFieldBound(mem[Addr(tuple)]);
    BuildTupleElements(mem, hp, elements[ReplaceIndex(index, |elements|).value := value]);
  }

  method SetElement(heap: ProcessHeap?, args: seq<Word>) returns (r: NifResult)
    requires heap != null ==> heap.Valid()
    modifies if heap != null then {heap, heap.ActiveBuffer()} else {}
    ensures heap != null ==> heap.Valid() && heap.hend == old(heap.hend)
    ensures |args| != 3 || heap == null || Tag(args[1]) != Tuple ==> r == Err(BadArg)
    ensures heap != null && r.Err? ==> heap.Mem() == old(heap.Mem()) && heap.hp == old(heap.hp)
    ensures heap != null && |args| == 3 && Tag(args[1]) == Tuple ==>
              (r, heap.Mem(), heap.hp) == SetElementIn(old(heap.Mem()), old(heap.hp), args[0], args[1], args[2])
  {
    hide TupleHeader, TuplePrefix, WithTuple, ToSmall, SizeField, Tag, Pointer, Addr;
    if |args| != 3 || Tag(args[0]) != SmallInteger || Tag(args[1]) != Tuple {
      return Err(BadArg);
    }
    var idx := ToSmall(args[0]);
    if idx < 1 || heap == null {
      return Err(BadArg);
    }
    var ptr := Addr(args[1]);
    var header := heap.GetWord(ptr);
    if header.None? {
      return Err(BadArg);
    }
    var arity := ArityField(header.value);
    var replaceIdx := idx % TWO_32;
    if replaceIdx == 0 || replaceIdx > arity {
      return Err(BadArg);
    }
    var elements := ReadElements(heap, ptr, arity);
    if elements.None? {
      return Err(BadArg);
    }
    assert TupleElements(heap.Mem(), ptr) == elements;
    var pos := heap.MakeTuple(elements.value[replaceIdx - 1 := args[2]]);
    if pos.None? {
      return Err(SystemLimit);
    }
    r := Ok(Pointer(pos.value, Tuple));
  }

  /** The index Erlang's `setelement/3` accepts: one of `1..arity`. */
  function ErlangIndex(index: Word, arity: nat): Option<nat> {
    if Tag(index) == SmallInteger && 1 <= ToSmall(index) <= arity then Some(ToSmall(index) - 1) else None
  }

  /**
   `setelement` follows Erlang's index rule exactly for the indices whose truncation to 32 bits is
   not mistaken for a smaller valid index.
   */
  lemma SetElementIndexIff(index: Word, arity: nat)
    requires arity < 0x100_0000
    ensures ReplaceIndex(index, arity) == ErlangIndex(index, arity) <==>
            !(Tag(index) == SmallInteger && ToSmall(index) >= TWO_32 && 1 <= ToSmall(index) % TWO_32 <= arity)
  {
    if Tag(index) == SmallInteger && 1 <= ToSmall(index) < TWO_32 {
      assert ToSmall(index) % TWO_32 == ToSmall(index);
    }
  }

  /** On a heap with a pair, index 2^32 + 1 is accepted and replaces the first element. */
  lemma SetElementTruncates()
    ensures var mem := [TupleHeader(2), FromSmall(1), FromSmall(2), 0, 0, 0];
            var (r, mem', _) := SetElementIn(mem, 3, FromSmall(TWO_32 + 1), Pointer(0, Tuple), FromSmall(7));
            && ErlangIndex(FromSmall(TWO_32 + 1), 2) == None
            && r.Ok? && TupleElements(mem', Addr(r.value)) == Some([FromSmall(7), FromSmall(2)])
  {
    hide FromSmall, ToSmall, WithTuple;
    var index, t, value := FromSmall(TWO_32 + 1), Pointer(0, Tuple), FromSmall(7);
    var mem := [TupleHeader(2), FromSmall(1), FromSmall(2), 0, 0, 0];
    SmallRoundTrip(TWO_32 + 1, index);
    assert SizeField(TupleHeader(2)) == 3 && Addr(t) == 0;
    var elements := [FromSmall(1), FromSmall(2)];
    assert mem[1..3] == elements;
    assert TupleElements(mem, 0) == Some(elements) && ReplaceIndex(index, 2) == Some(0);
    assert BuildTuple(mem, 3, elements[0 := value]).term.Some?;
    assert elements[0 := value] == [value, FromSmall(2)];
    SetElementCopies(mem, 3, index, t, value);
  }
}
