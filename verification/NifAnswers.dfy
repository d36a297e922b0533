/** When the tuple and list functions succeed, and which error they give when they do not. */
module NifAnswers {
  import opened Wrappers
  import opened Words
  import opened HeapLayout
  import opened ProcessHeaps
  import opened HeapGrowth
  import opened Nifs

  /** The number of elements a tuple header announces. */
  function Announced(header: Word): nat {
    if header / 0x100 % 0x100_0000 == 0 then 0 else header / 0x100 % 0x100_0000 - 1
  }

  /** Header and announced elements lie in the buffer. */
  predicate Inside(mem: seq<Word>, p: nat) {
    p < |mem| && p + 1 + Announced(mem[p]) <= |mem|
  }

  /** A tuple is read exactly if it lies in the buffer, and then word by word. */
  lemma TupleElementsIff(mem: seq<Word>, p: nat)
    ensures TupleElements(mem, p).Some? <==> Inside(mem, p)
    ensures Inside(mem, p) ==>
              var elements := TupleElements(mem, p).value;
              |elements| == Announced(mem[p]) && elements == mem[p + 1..p + 1 + |elements|]
  {
  }

  /** Every tuple term of a well-formed heap is read in full: element `i` is what field `i + 1` leads to. */
  lemma TupleTermRead(mem: seq<Word>, hp: nat, roots: seq<Word>, w: Word, i: nat)
    requires WellFormed(mem, hp, roots) && w in roots && Tag(w) == Tuple
    ensures var r := TupleElements(mem, Addr(w));
            r.Some? && Follow(mem, w, [i + 1]) == if i < |r.value| then Some(r.value[i]) else None
  {
    var own :| WellFormedBy(mem, hp, roots, own);
    var p := Addr(w);
    assert own[p] == p && Size(mem[p]) == SizeField(mem[p]) >= 1 && p + Size(mem[p]) <= hp;
    if i < |TupleElements(mem, p).value| {
      assert [i + 1][1..] == [];
      assert Follow(mem, w, [i + 1]) == Follow(mem, mem[p + (i + 1)], []);
    }
  }

  /** A walk collects `elems` exactly if the term is a proper list of them, and fails if it is no proper list. */
  lemma {:induction false} ListElementsIff(mem: seq<Word>, w: Word, n: nat, elems: seq<Word>)
    requires WalkEnds(mem, w, n)
    ensures ListElements(mem, w, n) == Some(elems) <==> IsList(mem, |mem|, w, elems)
    decreases n
  {
    if Tag(w) == Cons && Addr(w) + 2 < |mem| {
      var t := mem[Addr(w) + 2];
      if elems != [] {
        ListElementsIff(mem, t, n - 1, elems[1..]);
        assert elems == [elems[0]] + elems[1..];
      }
    }
  }

  /** The first pass of `list_to_tuple` rejects exactly the terms that are no proper list of anything. */
  lemma ListRejectedIff(mem: seq<Word>, w: Word, n: nat)
    requires WalkEnds(mem, w, n)
    ensures ListElements(mem, w, n) == None <==> forall elems: seq<Word> :: !IsList(mem, |mem|, w, elems)
  {
    hide IsList, ListElements;
    forall elems: seq<Word> ensures ListElements(mem, w, n) == Some(elems) <==> IsList(mem, |mem|, w, elems) {
      ListElementsIff(mem, w, n, elems);
    }
    if ListElements(mem, w, n).Some? {
      assert IsList(mem, |mem|, w, ListElements(mem, w, n).value);
    }
  }

  /** Building a tuple fails exactly when header and elements do not fit, and then nothing has changed. */
  lemma BuildTupleAnswers(mem: seq<Word>, hp: nat, elements: seq<Word>)
    requires hp <= |mem| < MAX_WORDS && |elements| < TWO_32 - 1
    ensures var b := BuildTuple(mem, hp, elements);
            && (b.term == None <==> hp + 1 + |elements| > |mem|)
            && (b.term == None ==> b.mem == mem && b.hp == hp)
            && (b.term.Some? ==>
                  && b.term.value == Pointer(hp, Tuple) && b.hp == hp + 1 + |elements| && |b.mem| == |mem|
                  && b.mem[hp + 1..hp + 1 + |elements|] == elements
                  && (forall i :: 0 <= i < hp || hp + 1 + |elements| <= i < |mem| ==> b.mem[i] == mem[i]))
  {
    hide TupleHeader, WithTuple;
    assert |elements| % TWO_32 == |elements|;
    TupleWords(mem, hp, elements);
  }

  /** The index names an element, once cut to 32 bits. */
  predicate Indexes(index: Word, arity: nat) {
    Tag(index) == SmallInteger && ToSmall(index) >= 1 && 1 <= ToSmall(index) % 0x1_0000_0000 <= arity
  }

  /**
   `setelement` succeeds exactly if the tuple lies in the buffer, the index names an element and the
   copy fits. It lacks space exactly if that alone is missing, and any error leaves the heap as it was.
   */
  lemma SetElementAnswers(mem: seq<Word>, hp: nat, index: Word, tuple: Word, value: Word)
    requires hp <= |mem| < MAX_WORDS
    ensures var p := Addr(tuple);
            var (r, mem', hp') := SetElementIn(mem, hp, index, tuple, value);
            var asked := Inside(mem, p) && Indexes(index, Announced(mem[p]));
            && (r.Ok? <==> asked && hp + 1 + Announced(mem[p]) <= |mem|)
            && (r == Err(SystemLimit) <==> asked && hp + 1 + Announced(mem[p]) > |mem|)
            && (r == Err(BadArg) <==> !asked)
            && (r.Err? ==> mem' == mem && hp' == hp)
            && (r.Ok? ==>
                  var arity, k := Announced(mem[p]), ToSmall(index) % 0x1_0000_0000 - 1;
                  && r.value == Pointer(hp, Tuple) && hp' == hp + 1 + arity && |mem'| == |mem|
                  && (forall i :: 0 <= i < hp ==> mem'[i] == mem[i])
                  && mem'[hp + 1..hp + 1 + arity] == mem[p + 1..p + 1 + arity][k := value])
  {
    hide TupleElements, BuildTuple, Announced, ToSmall;
    var p := Addr(tuple);
    TupleElementsIff(mem, p);
    if Inside(mem, p) && Indexes(index, Announced(mem[p])) {
      var elements, k := TupleElements(mem, p).value, ToSmall(index) % TWO_32 - 1;
      AnnouncedBound(mem[p]);
      BuildTupleAnswers(mem, hp, elements[k := value]);
    }
  }

  lemma AnnouncedBound(header: Word)
    ensures Announced(header) < 0x100_0000
  {
  }
}
