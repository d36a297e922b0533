/** The word heap of a process: allocation, object construction and collection. */
module ProcessHeaps {
  import opened Wrappers
  import opened Words
  import opened HeapLayout
  import opened Sliding
  import opened Collection
  import opened Marking
  import opened Collector

  /** More words than a 64-bit machine can address; heap sizes stay below it. */
  const MAX_WORDS := 0x100_0000_0000_0000

  function WordAt(mem: seq<Word>, index: nat): Option<Word> {
    if index < |mem| then Some(mem[index]) else None
  }

  function Put(mem: seq<Word>, index: nat, value: Word): seq<Word> {
    if index < |mem| then mem[index := value] else mem
  }

  function WithCons(mem: seq<Word>, pos: nat, head: Word, tail: Word): seq<Word> {
    Put(Put(Put(mem, pos, CONS_HEADER), pos + 1, head), pos + 2, tail)
  }

  function WithTuple(mem: seq<Word>, pos: nat, elements: seq<Word>): (mem': seq<Word>)
    ensures |mem'| == |mem|
  {
    TuplePrefix(mem, pos, elements, |elements|)
  }

  /**
   The header and the first `n` elements of a tuple written at `pos`. The element index is cut to 32
   bits, and writes past the end are dropped.
   */
  function TuplePrefix(mem: seq<Word>, pos: nat, elements: seq<Word>, n: nat): (mem': seq<Word>)
    requires n <= |elements|
    ensures |mem'| == |mem|
  {
    if n == 0 then Put(mem, pos, TupleHeader(|elements| % TWO_32))
    else Put(TuplePrefix(mem, pos, elements, n - 1), pos + 1 + (n - 1) % TWO_32, elements[n - 1])
  }

  /** Below 2^32 elements every element stays where it belongs. */
  lemma {:induction false} TuplePrefixAt(mem: seq<Word>, pos: nat, elements: seq<Word>, n: nat, i: nat)
    requires n <= |elements| <= TWO_32 && i < |mem|
    ensures TuplePrefix(mem, pos, elements, n)[i] ==
            if i == pos then TupleHeader(|elements| % TWO_32)
            else if pos < i <= pos + n then elements[i - pos - 1]
            else mem[i]
    decreases n
  {
    hide TupleHeader;
    if n > 0 {
      TuplePrefixAt(mem, pos, elements, n - 1, i);
    }
  }

  /** From 2^32 elements on, the first one is overwritten. */
  lemma TupleElementOverwritten(mem: seq<Word>, pos: nat, elements: seq<Word>)
    requires |elements| == TWO_32 + 1 && pos + 1 < |mem|
    ensures WithTuple(mem, pos, elements)[pos + 1] == elements[TWO_32]
  {
    hide TupleHeader;
  }

  class ProcessHeap {
    var fromSpace: array<Word>
    var toSpace: array<Word>
    var hp: nat
    var hend: nat
    var inToSpace: bool
    var wordsCollected: nat

    ghost predicate Valid()
      reads this
    {
      fromSpace != toSpace && fromSpace.Length == toSpace.Length == hend < MAX_WORDS && hp <= hend
    }

    function ActiveBuffer(): array<Word>
      reads this
    {
      if inToSpace then toSpace else fromSpace
    }

    /** The words of the active space. */
    ghost function Mem(): seq<Word>
      reads this, fromSpace, toSpace
    {
      ActiveBuffer()[..]
    }

    constructor (initialSize: nat)
      requires initialSize < MAX_WORDS
      ensures Valid() && fresh(fromSpace) && fresh(toSpace)
      ensures hp == 0 && hend == initialSize && !inToSpace && wordsCollected == 0
      ensures forall i :: 0 <= i < hend ==> Mem()[i] == 0
    {
      fromSpace := new Word[initialSize](_ => 0);
      toSpace := new Word[initialSize](_ => 0);
      hp, hend, inToSpace, wordsCollected := 0, initialSize, false, 0;
    }

    // ---- Words and objects ----

    method GetWord(index: nat) returns (w: Option<Word>)
      requires Valid()
      ensures w == WordAt(Mem(), index)
    {
      var active := ActiveBuffer();
      w := if index < active.Length then Some(active[index]) else None;
    }

    method SetWord(index: nat, value: Word)
      requires Valid()
      modifies ActiveBuffer()
      ensures Valid() && Mem() == Put(old(Mem()), index, value)
    {
      if index < hend {
        var active := ActiveBuffer();
        active[index] := value;
      }
    }

    method Alloc(words: nat) returns (pos: Option<nat>)
      requires Valid()
      modifies `hp
      ensures Valid()
      ensures pos == (if old(hp) + words <= hend then Some(old(hp)) else None)
      ensures hp == (if old(hp) + words <= hend then old(hp) + words else old(hp))
    {
      if hp + words <= hend {
        pos := Some(hp);
        hp := hp + words;
      } else {
        pos := None;
      }
    }

    method MakeCons(head: Word, tail: Word) returns (pos: Option<nat>)
      requires Valid()
      modifies `hp, ActiveBuffer()
      ensures Valid()
      ensures old(hp) + 3 > hend ==> pos == None && hp == old(hp) && Mem() == old(Mem())
      ensures old(hp) + 3 <= hend ==>
                pos == Some(old(hp)) && hp == old(hp) + 3 && Mem() == WithCons(old(Mem()), old(hp), head, tail)
    {
      pos := Alloc(3);
      if pos.Some? {
        SetWord(pos.value, CONS_HEADER);
        SetWord(pos.value + 1, head);
        SetWord(pos.value + 2, tail);
      }
    }

    /** The arity and the element indices are truncated to 32 bits; each element is stored with a bounds check. */
    method MakeTuple(elements: seq<Word>) returns (pos: Option<nat>)
      requires Valid()
      modifies `hp, ActiveBuffer()
      ensures Valid()
      ensures var words := 1 + |elements| % TWO_32;
              if old(hp) + words > hend then pos == None && hp == old(hp) && Mem() == old(Mem())
              else pos == Some(old(hp)) && hp == old(hp) + words && Mem() == WithTuple(old(Mem()), old(hp), elements)
    {
      hide TupleHeader;
      var arity := |elements| % TWO_32;
      pos := Alloc(1 + arity);
      if pos.Some? {
        ghost var mem := Mem();
        SetWord(pos.value, TupleHeader(arity));
        for i := 0 to |elements|
          invariant Valid() && hp == old(hp) + 1 + arity
          invariant Mem() == TuplePrefix(mem, pos.value, elements, i)
        {
          SetWord(pos.value + 1 + i % TWO_32, elements[i]);
        }
      }
    }

    /** Grows both spaces to `newSize` words, the caller's multiple of the old size. */
    method Grow(newSize: nat, maxSize: nat) returns (grown: bool)
      requires Valid() && hend <= newSize < MAX_WORDS
      modifies this
      ensures Valid() && grown == (newSize <= maxSize)
      ensures hp == old(hp) && inToSpace == old(inToSpace) && wordsCollected == old(wordsCollected)
      ensures !grown ==> hend == old(hend) && Mem() == old(Mem())
      ensures grown ==> hend == newSize && Mem() == old(Mem()) + seq(newSize - old(hend), _ => 0)
    {
      grown := newSize <= maxSize;
      if grown {
        fromSpace := Resized(fromSpace, newSize);
        toSpace := Resized(toSpace, newSize);
        hend := newSize;
      }
    }

    static method Resized(a: array<Word>, n: nat) returns (b: array<Word>)
      requires a.Length <= n
      ensures fresh(b) && b[..] == a[..] + seq(n - a.Length, _ => 0)
    {
      b := new Word[n](i requires 0 <= i reads a => if i < a.Length then a[i] else 0);
    }

    // ---- Collection ----

    /**
     Major collection. The relocated roots are returned: the words to use from then on.
     */
    method MajorGcImpl(roots: seq<Word>) returns (rootTerms: seq<Word>)
      requires Valid() && (roots == [] || WellFormed(Mem(), hp, roots))
      modifies `hp, `wordsCollected, ActiveBuffer()
      ensures Valid() && Collected(old(Mem()), old(hp), roots, Mem(), hp, rootTerms)
      ensures wordsCollected == old(wordsCollected) + if hp == 0 then 0 else old(hp) - hp
    {
      hide Tag, Size, Layout, FieldsOk, RootsOk, Rank, Relocated, Reachable, LiveBits, Slid, Collected;
      var usedWords := hp;
      rootTerms := roots;
      var active := ActiveBuffer();
      ghost var mem := active[..];
      ghost var own: seq<nat> := [];
      if roots != [] {
        own :| WellFormedBy(mem, hp, roots, own);
      }
      if usedWords == 0 {
        RankZero(LiveBits(mem, 0, roots));
        NothingLive(mem, usedWords, roots, own);
        return;
      }
      var from := ToVec(active);
      var bits := new GcMarkBits(usedWords);
      rootTerms := MarkRoots(roots, bits, from[..], own);
      var liveWords := CountLive(bits, usedWords);
      if liveWords == 0 {
        hp := 0;
        NothingLive(mem, usedWords, roots, own);
        return;
      }
      LiveMeansRoots(mem, usedWords, roots);
      var to, newHp;
      to, newHp, rootTerms := Slide(from, bits, rootTerms, usedWords, own);
      CopySlice(active, 0, to, 0, newHp);
      SlideIsCollection(mem, usedWords, roots, own, to[..], newHp, active[..], rootTerms);
      wordsCollected := wordsCollected + (usedWords - newHp);
      hp := newHp;
    }

    /** The only caller passes no roots: everything goes, whatever is on the heap. */
    method MajorGc()
      requires Valid()
      modifies `hp, `wordsCollected, ActiveBuffer()
      ensures Valid() && hp == 0 && Mem() == old(Mem()) && wordsCollected == old(wordsCollected)
    {
      ghost var mem, used := Mem(), hp;
      var _ := MajorGcImpl([]);
      NoRootsNothingKept(mem, used, Mem(), hp);
    }
  }
}
