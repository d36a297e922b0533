/** Allocation above the heap pointer: old terms keep their meaning, the heap stays well formed. */
module HeapGrowth {
  import opened Words
  import opened HeapLayout
  import opened Collection
  import opened ProcessHeaps

  ghost predicate AgreeBelow(mem: seq<Word>, mem': seq<Word>, hp: nat) {
    hp <= |mem| && |mem| <= |mem'| && forall i :: 0 <= i < hp ==> mem'[i] == mem[i]
  }

  /** Writing above `hp` changes what no existing term denotes. */
  lemma {:induction false} FollowUnchanged(mem: seq<Word>, hp: nat, own: seq<nat>, mem': seq<Word>,
                                           w: Word, path: seq<nat>)
    requires Layout(mem, hp, own) && FieldsOk(mem, own) && TermOk(mem, own, w) && AgreeBelow(mem, mem', hp)
    ensures Follow(mem', w, path) == Follow(mem, w, path)
    decreases |path|
  {
    hide Size;
    if path != [] && IsPtr(w) {
      var p, k := Addr(w), path[0];
      assert own[p] == p;
      if 1 <= k < Size(mem[p]) {
        SameObject(mem, hp, own, p, p + k);
        assert TermOk(mem, own, mem[p + k]);
        FollowUnchanged(mem, hp, own, mem', mem[p + k], path[1..]);
      }
    }
  }

  lemma TermsKeepMeaning(mem: seq<Word>, hp: nat, roots: seq<Word>, mem': seq<Word>, w: Word, path: seq<nat>)
    requires WellFormed(mem, hp, roots) && AgreeBelow(mem, mem', hp) && w in roots
    ensures Follow(mem', w, path) == Follow(mem, w, path)
  {
    var own :| WellFormedBy(mem, hp, roots, own);
    FollowUnchanged(mem, hp, own, mem', w, path);
  }

  /** `mem'` is `mem` with one object of `n` words placed at `hp`, its fields taken from `roots`. */
  ghost predicate ObjectAdded(mem: seq<Word>, hp: nat, roots: seq<Word>, mem': seq<Word>, n: nat) {
    && AgreeBelow(mem, mem', hp) && hp + n <= |mem'|
    && n >= 1 && ValidHeader(mem'[hp]) && Size(mem'[hp]) == n
    && forall i :: hp < i < hp + n ==> mem'[i] in roots
  }

  lemma AddedLayout(mem: seq<Word>, hp: nat, roots: seq<Word>, own: seq<nat>, mem': seq<Word>, n: nat)
    requires Layout(mem, hp, own) && ObjectAdded(mem, hp, roots, mem', n)
    ensures Layout(mem', hp + n, own + seq(n, _ => hp))
  {
    hide Size;
    assert Layout(mem', hp, own);
    assert own + seq(n, _ => hp) == ExtendedLayout(mem', hp, own);
  }

  lemma TermStillOk(mem: seq<Word>, hp: nat, own: seq<nat>, mem': seq<Word>, own': seq<nat>, w: Word)
    requires |own| == hp && AgreeBelow(mem, mem', hp) && own <= own' && |own'| <= |mem'| && TermOk(mem, own, w)
    ensures TermOk(mem', own', w) && (IsPtr(w) ==> Addr(w) < hp)
  {
    hide Tag;
  }

  lemma AddedOk(mem: seq<Word>, hp: nat, roots: seq<Word>, own: seq<nat>, mem': seq<Word>, n: nat, tag: TermTag)
    requires WellFormedBy(mem, hp, roots, own) && ObjectAdded(mem, hp, roots, mem', n)
    requires hp < TWO_61 && tag == Tag(mem'[hp])
    ensures var own' := own + seq(n, _ => hp);
            && WellFormedBy(mem', hp + n, roots + [Pointer(hp, tag)], own')
            && (DownwardBy(mem, own) ==> DownwardBy(mem', own'))
  {
    hide Size, Tag, Layout, Addr, Pointer;
    var own' := own + seq(n, _ => hp);
    AddedLayout(mem, hp, roots, own, mem', n);
    LayoutLength(mem, hp, own);
    LayoutLength(mem', hp + n, own');
    forall i | 0 <= i < hp + n && own'[i] != i
      ensures TermOk(mem', own', mem'[i])
      ensures DownwardBy(mem, own) && IsPtr(mem'[i]) ==> Addr(mem'[i]) < own'[i]
    {
      if i < hp {
        assert TermOk(mem, own, mem[i]);
      } else {
        assert mem'[i] in roots;
      }
      TermStillOk(mem, hp, own, mem', own', mem'[i]);
    }
    forall r | r in roots ensures TermOk(mem', own', r) {
      TermStillOk(mem, hp, own, mem', own', r);
    }
    NewPointerOk(mem', hp, own', tag);
  }

  lemma LayoutLength(mem: seq<Word>, hp: nat, own: seq<nat>)
    requires Layout(mem, hp, own)
    ensures |own| == hp <= |mem|
  {
  }

  lemma NewPointerOk(mem: seq<Word>, p: nat, own: seq<nat>, tag: TermTag)
    requires p < |own| <= |mem| && own[p] == p && p < TWO_61 && tag == Tag(mem[p]) && ValidHeader(mem[p])
    ensures TermOk(mem, own, Pointer(p, tag))
  {
    PointerParts(p, tag);
  }

  /** A new object over existing terms: the heap stays well formed, and downward if it was. */
  lemma ObjectKeepsHeap(mem: seq<Word>, hp: nat, roots: seq<Word>, mem': seq<Word>, n: nat, tag: TermTag)
    requires ObjectAdded(mem, hp, roots, mem', n) && hp < TWO_61 && tag == Tag(mem'[hp])
    ensures WellFormed(mem, hp, roots) ==> WellFormed(mem', hp + n, roots + [Pointer(hp, tag)])
    ensures Downward(mem, hp, roots) ==> Downward(mem', hp + n, roots + [Pointer(hp, tag)])
  {
    hide Size, Tag, ObjectAdded, TermOk, FieldsOk, RootsOk, ValidHeader, Pointer;
    if own: seq<nat> :| WellFormedBy(mem, hp, roots, own) {
      AddedOk(mem, hp, roots, own, mem', n, tag);
    }
    if own: seq<nat> :| WellFormedBy(mem, hp, roots, own) && DownwardBy(mem, own) {
      AddedOk(mem, hp, roots, own, mem', n, tag);
    }
  }

  /** `make_cons` on existing terms builds exactly a cons cell at the old heap pointer. */
  lemma ConsAdded(mem: seq<Word>, hp: nat, roots: seq<Word>, head: Word, tail: Word)
    requires hp + 3 <= |mem| && head in roots && tail in roots
    ensures ObjectAdded(mem, hp, roots, WithCons(mem, hp, head, tail), 3)
    ensures var mem' := WithCons(mem, hp, head, tail);
            Tag(mem'[hp]) == Cons && SizeField(mem'[hp]) == 3 && mem'[hp + 1] == head && mem'[hp + 2] == tail
  {
  }

  /** `make_tuple` builds a tuple of its arity, as long as the arity fits the 24-bit size field. */
  lemma TupleAdded(mem: seq<Word>, hp: nat, roots: seq<Word>, elements: seq<Word>)
    requires hp + 1 + |elements| <= |mem| && 1 + |elements| < 0x100_0000
    requires forall e :: e in elements ==> e in roots
    ensures ObjectAdded(mem, hp, roots, WithTuple(mem, hp, elements), 1 + |elements|)
    ensures Tag(WithTuple(mem, hp, elements)[hp]) == Tuple
  {
    hide TuplePrefix, TupleHeader;
    TupleHeaderSize(|elements|);
    TupleWords(mem, hp, elements);
  }

  lemma TupleWords(mem: seq<Word>, pos: nat, elements: seq<Word>)
    requires |elements| < TWO_32
    ensures forall i :: 0 <= i < |mem| ==>
              WithTuple(mem, pos, elements)[i] ==
                (if i == pos then TupleHeader(|elements|)
                 else if pos < i <= pos + |elements| then elements[i - pos - 1]
                 else mem[i])
  {
    hide TuplePrefix, TupleHeader;
    assert |elements| % TWO_32 == |elements|;
    forall i | 0 <= i < |mem|
      ensures WithTuple(mem, pos, elements)[i] ==
                (if i == pos then TupleHeader(|elements|)
                 else if pos < i <= pos + |elements| then elements[i - pos - 1]
                 else mem[i])
    {
      TuplePrefixAt(mem, pos, elements, |elements|, i);
    }
  }

  /** A tuple of 2^24 - 1 elements is stored with size zero. */
  lemma LargeTupleLosesSize()
    ensures Tag(TupleHeader(0xFF_FFFF)) == Tuple && SizeField(TupleHeader(0xFF_FFFF)) == 0
  {
    assert TupleHeader(0xFF_FFFF) == 0x100_0000 * 0x100 + 3;
  }

  /** The stored size is the true one exactly when it fits in 24 bits. */
  lemma TupleHeaderSize(arity: U32)
    requires 1 + arity < TWO_32
    ensures Tag(TupleHeader(arity)) == Tuple
    ensures SizeField(TupleHeader(arity)) == 1 + arity <==> 1 + arity < 0x100_0000
  {
    var n := 1 + arity;
    assert TupleHeader(arity) == n * 0x100 + 3;
    assert TupleHeader(arity) / 0x100 == n;
  }
}
